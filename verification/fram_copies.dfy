// What makes a stored copy usable, byte by byte, and what a start therefore loads and repairs.

module FramCopies {
  import opened Basics
  import opened FramBlocks
  import opened FramStore

  /** The last four bytes are the CRC of the others, least significant byte first. */
  predicate ChecksumRight(crc: seq<byte> -> nat, st: Store, block: seq<byte>)
    requires |block| == BlockSize(st)
  {
    var n := Size(st);
    var v := crc(block[..n]);
    && block[n] == v % 0x100 && block[n + 1] == v / 0x100 % 0x100
    && block[n + 2] == v / 0x10000 % 0x100 && block[n + 3] == v / 0x1000000 % 0x100
  }

  /** The network and the calibration configuration start with a number of their own. */
  predicate MagicRight(st: Store, block: seq<byte>)
    requires |block| == BlockSize(st)
  {
    match st
    case Net => block[0] == 0xDF && block[1] == 0xC0 && block[2] == 0x1A && block[3] == 0xDE
    case CalData => true
    case CalConfig => block[0] == 0x01 && block[1] == 0xB0 && block[2] == 0x11 && block[3] == 0xCA
  }

  predicate Intact(crc: seq<byte> -> nat, st: Store, block: seq<byte>)
    requires |block| == BlockSize(st)
  {
    ChecksumRight(crc, st, block) && MagicRight(st, block)
  }

  /** 192.168.1.6/24 behind 192.168.1.1 with DHCP, the nominal table, and calibration switched off. */
  predicate IsDefault(st: Store, data: seq<byte>)
    requires |data| == Size(st)
  {
    match st
    case Net =>
      data == [0xDF, 0xC0, 0x1A, 0xDE, 192, 168, 1, 6, 255, 255, 255, 0, 192, 168, 1, 1, 1, 0, 0, 0, 0, 0, 0, 0]
    case CalData => data == NominalBytes()
    case CalConfig => data == [0x01, 0xB0, 0x11, 0xCA, 0, 0, 0, 0]
  }

  lemma AcceptedIsIntact(crc: seq<byte> -> nat, st: Store, block: seq<byte>)
    requires |block| == BlockSize(st)
    ensures Accepted(crc, st, block) <==> Intact(crc, st, block)
  {
    hide Word;
    var n := Size(st);
    FourBytes(block[n..], Checksum(crc, block[..n]));
    WordBytes(crc(block[..n]));
    FourBytes(block[..n][..4], if st == Net then Word(NET_MAGIC) else Word(CAL_MAGIC));
    MagicBytes();
  }

  lemma FourBytes(a: seq<byte>, b: seq<byte>)
    requires |a| == |b| == 4
    ensures a == b <==> a[0] == b[0] && a[1] == b[1] && a[2] == b[2] && a[3] == b[3]
  {
  }

  lemma WordBytes(v: nat)
    ensures var w := Word(v);
            w[0] == v % 0x100 && w[1] == v / 0x100 % 0x100 && w[2] == v / 0x10000 % 0x100 && w[3] == v / 0x1000000 % 0x100
  {
  }

  lemma MagicBytes()
    ensures Word(NET_MAGIC) == [0xDF, 0xC0, 0x1A, 0xDE] && Word(CAL_MAGIC) == [0x01, 0xB0, 0x11, 0xCA]
  {
  }

  lemma FallbackIsDefault(st: Store)
    ensures IsDefault(st, Fallback(st))
  {
    hide Word, NominalBytes;
    MagicBytes();
  }

  /** The primary if it is intact, else the backup if that is, else the defaults. */
  predicate ByCopies(crc: seq<byte> -> nat, mem: seq<byte>, st: Store, data: seq<byte>)
    requires |mem| == FRAM_SIZE && |data| == Size(st)
  {
    var p, b := PrimaryOf(mem, st), BackupOf(mem, st);
    && (Intact(crc, st, p) ==> data == p[..Size(st)])
    && (!Intact(crc, st, p) && Intact(crc, st, b) ==> data == b[..Size(st)])
    && (!Intact(crc, st, p) && !Intact(crc, st, b) ==> IsDefault(st, data))
  }

  /** That is what every start loads. */
  lemma LoadsIntact(crc: seq<byte> -> nat, mem: seq<byte>, st: Store)
    requires |mem| == FRAM_SIZE
    ensures ByCopies(crc, mem, st, LoadedFrom(crc, mem, st))
    ensures Accepted(crc, st, PrimaryOf(mem, st)) <==> Intact(crc, st, PrimaryOf(mem, st))
    ensures Accepted(crc, st, BackupOf(mem, st)) <==> Intact(crc, st, BackupOf(mem, st))
  {
    hide Accepted, Intact, PrimaryOf, BackupOf, Fallback, IsDefault;
    AcceptedIsIntact(crc, st, PrimaryOf(mem, st));
    AcceptedIsIntact(crc, st, BackupOf(mem, st));
    FallbackIsDefault(st);
  }

  /**
   * A start that is not cut leaves an intact primary that holds what it loaded, and a backup
   * that does so as well if neither copy was intact; what was intact before stays as it was.
   */
  lemma StartRepairs(crc: seq<byte> -> nat, mem: seq<byte>, ws: seq<Write>, st: Store, n: nat)
    requires |mem| == FRAM_SIZE && AllBlocks(ws) && n >= Total(ws)
    requires if st == Net then ws == NetStartWrites(crc, mem) else ws == CalStartWrites(crc, mem)
    ensures var p, b, data := PrimaryOf(mem, st), BackupOf(mem, st), LoadedFrom(crc, mem, st);
            var p', b' := PrimaryOf(After(mem, ws, n), st), BackupOf(After(mem, ws, n), st);
            && Intact(crc, st, p') && p'[..Size(st)] == data
            && (Intact(crc, st, p) ==> p' == p)
            && (Intact(crc, st, p) || Intact(crc, st, b) ==> b' == b)
            && (!Intact(crc, st, p) && !Intact(crc, st, b) ==> Intact(crc, st, b') && b'[..Size(st)] == data)
  {
    hide After, PrimaryOf, BackupOf, Fallback, Only, Share, Intact, Accepted, Restore, Initialise, CutPair, Image, Torn, LoadedFrom, Loaded;
    StartOnly(crc, mem, st);
    SeenThroughOnly(mem, ws, st, n);
    StartPair(crc, mem, st, Share(ws, st, n));
    CompleteShare(ws, st, n);
    StartTotal(crc, mem, st);
    WholeStart(crc, st, PrimaryOf(mem, st), BackupOf(mem, st), Fallback(st), Share(ws, st, n));
    LoadedIs(crc, mem, st);
  }

  lemma LoadedIs(crc: seq<byte> -> nat, mem: seq<byte>, st: Store)
    requires |mem| == FRAM_SIZE
    ensures LoadedFrom(crc, mem, st) == Loaded(crc, st, PrimaryOf(mem, st), BackupOf(mem, st), Fallback(st))
  {
  }

  /** The two blocks after a start that was not cut. */
  lemma WholeStart(crc: seq<byte> -> nat, st: Store, p: seq<byte>, b: seq<byte>, fallback: seq<byte>, n: nat)
    requires |p| == |b| == BlockSize(st) && |fallback| == Size(st) && HasMagic(st, fallback)
    requires n >= if Accepted(crc, st, p) then 0 else if Accepted(crc, st, b) then BlockSize(st) else 2 * BlockSize(st)
    ensures var (p', b') := AfterStart(crc, st, p, b, fallback, n);
            var data := Loaded(crc, st, p, b, fallback);
            && Intact(crc, st, p') && p'[..Size(st)] == data
            && (Intact(crc, st, p) ==> p' == p)
            && (Intact(crc, st, p) || Intact(crc, st, b) ==> b' == b)
            && (!Intact(crc, st, p) && !Intact(crc, st, b) ==> Intact(crc, st, b') && b'[..Size(st)] == data)
  {
    hide Intact, Image, Torn;
    var data := Loaded(crc, st, p, b, fallback);
    AcceptedIsIntact(crc, st, p);
    AcceptedIsIntact(crc, st, b);
    ImageAccepted(crc, st, data);
    AcceptedIsIntact(crc, st, Image(crc, data));
  }

  lemma StartTotal(crc: seq<byte> -> nat, mem: seq<byte>, st: Store)
    requires |mem| == FRAM_SIZE
    ensures Total(Restore(crc, mem, st) + Initialise(crc, mem, st))
            == if Accepted(crc, st, PrimaryOf(mem, st)) then 0
               else if Accepted(crc, st, BackupOf(mem, st)) then BlockSize(st) else 2 * BlockSize(st)
  {
    hide Accepted, PrimaryOf, BackupOf, Fallback, Both;
    var ws := Restore(crc, mem, st) + Initialise(crc, mem, st);
    if Accepted(crc, st, PrimaryOf(mem, st)) {
      assert ws == [];
    } else if Accepted(crc, st, BackupOf(mem, st)) {
      assert |ws| == 1 && |ws[0].bytes| == BlockSize(st) && ws[1..] == [];
    } else {
      assert ws == Both(crc, st, Fallback(st));
      BothTotal(crc, st, Fallback(st));
    }
  }

  /** A save writes both copies intact, with the bytes it was given behind the magic number. */
  lemma SaveWritesIntact(crc: seq<byte> -> nat, mem: seq<byte>, ws: seq<Write>, st: Store, data: seq<byte>, n: nat)
    requires |mem| == FRAM_SIZE && AllBlocks(ws) && |data| == Size(st) && n >= Total(ws)
    requires Only(ws, st) == Both(crc, st, WithMagic(st, data))
    ensures var p, b := PrimaryOf(After(mem, ws, n), st), BackupOf(After(mem, ws, n), st);
            && Intact(crc, st, p) && Intact(crc, st, b) && p == b
            && p[4..Size(st)] == data[4..] && (st == CalData ==> p[..Size(st)] == data)
  {
    hide CutPair, After, PrimaryOf, BackupOf, Only, Share, Intact, Accepted, Image, Both, Torn;
    var image := Image(crc, WithMagic(st, data));
    SeenThroughOnly(mem, ws, st, n);
    CompleteShare(ws, st, n);
    BothTotal(crc, st, WithMagic(st, data));
    BothPair(crc, PrimaryOf(mem, st), BackupOf(mem, st), st, WithMagic(st, data), Share(ws, st, n));
    ImageAccepted(crc, st, WithMagic(st, data));
    AcceptedIsIntact(crc, st, image);
    assert image[4..Size(st)] == image[..Size(st)][4..];
  }

  /** Where the copies lie: each pair apart, the CRC behind its structure. */
  lemma CopiesAt(mem: seq<byte>)
    requires |mem| == 8192
    ensures PrimaryOf(mem, Net) == mem[0x0000..0x001C] && BackupOf(mem, Net) == mem[0x0020..0x003C]
    ensures PrimaryOf(mem, CalData) == mem[0x0040..0x0134] && BackupOf(mem, CalData) == mem[0x0140..0x0234]
    ensures PrimaryOf(mem, CalConfig) == mem[0x0134..0x0140] && BackupOf(mem, CalConfig) == mem[0x0234..0x0240]
  {
  }

  /**
   * relay_cal_save writes the data before their configuration: cut before all 488 bytes of
   * the data have arrived, the configuration is as it was; cut after, the data are the new ones.
   */
  lemma CalSaveOrder(crc: seq<byte> -> nat, mem: seq<byte>, cal: seq<byte>, config: seq<byte>, n: nat)
    requires |mem| == FRAM_SIZE && |cal| == Size(CalData) && |config| == Size(CalConfig)
    ensures var after := After(mem, CalSaveWrites(crc, cal, config), n);
            && (n <= 488 ==> PrimaryOf(after, CalConfig) == PrimaryOf(mem, CalConfig) && BackupOf(after, CalConfig) == BackupOf(mem, CalConfig))
            && (n >= 488 ==> LoadedFrom(crc, after, CalData) == cal && Intact(crc, CalData, BackupOf(after, CalData)))
  {
    hide After, PrimaryOf, BackupOf, CutPair, Only, Share, Both, Intact, Accepted, LoadedFrom, Image, Torn;
    var ws := CalSaveWrites(crc, cal, config);
    SaveOnly(crc, cal, config, CalData);
    SaveOnly(crc, cal, config, CalConfig);
    SeenThroughOnly(mem, ws, CalConfig, n);
    SeenThroughOnly(mem, ws, CalData, n);
    CalShares(crc, cal, config, n);
    if n <= 488 {
      NothingCut(PrimaryOf(mem, CalConfig), BackupOf(mem, CalConfig), Only(ws, CalConfig), CalConfig);
    }
    if n >= 488 {
      BothPair(crc, PrimaryOf(mem, CalData), BackupOf(mem, CalData), CalData, cal, Share(ws, CalData, n));
      ImageAccepted(crc, CalData, cal);
      AcceptedIsIntact(crc, CalData, Image(crc, cal));
      LoadedIs(crc, After(mem, ws, n), CalData);
    }
  }

  lemma CalShares(crc: seq<byte> -> nat, cal: seq<byte>, config: seq<byte>, n: nat)
    requires |cal| == Size(CalData) && |config| == Size(CalConfig)
    ensures var ws := CalSaveWrites(crc, cal, config);
            && (n <= 488 ==> Share(ws, CalConfig, n) == 0) && (n >= 488 ==> Share(ws, CalData, n) == 488)
  {
    hide Image;
    var ws := CalSaveWrites(crc, cal, config);
    var m := if n < 244 then 0 else n - 244;
    var k := if m < 244 then 0 else m - 244;
    assert |ws| == 4 && ws[0].owner == ws[1].owner == CalData && ws[2].owner == ws[3].owner == CalConfig;
    assert |ws[0].bytes| == |ws[1].bytes| == 244;
    assert ws[1..][0] == ws[1] && ws[1..][1..] == ws[2..];
    OthersShare(ws[2..], k);
    NothingShared(ws[2..], CalConfig);
  }

  lemma {:induction false} OthersShare(ws: seq<Write>, n: nat)
    requires forall i :: 0 <= i < |ws| ==> ws[i].owner == CalConfig
    ensures Share(ws, CalData, n) == 0
    decreases |ws|
  {
    if ws != [] { OthersShare(ws[1..], if n < |ws[0].bytes| then 0 else n - |ws[0].bytes|); }
  }
}
