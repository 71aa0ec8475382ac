// The FRAM as an array of bytes, the driver calls that write it, and the start
// and save routines of net_config_fram.c and relay_cal.c.

module FramStore {
  import opened Basics
  import opened FramBlocks

  // ------------------------------------------------------------ memory as a value

  /** One write_block: whose block it is, where it goes and what it is. */
  datatype Write = Write(owner: Store, addr: nat, bytes: seq<byte>)

  predicate Fits(mem: seq<byte>, w: Write) { w.addr + |w.bytes| <= |mem| }

  function Splice(mem: seq<byte>, addr: nat, bytes: seq<byte>): (r: seq<byte>)
    requires addr + |bytes| <= |mem|
    ensures |r| == |mem|
    ensures bytes == [] ==> r == mem
  {
    mem[..addr] + bytes + mem[addr + |bytes|..]
  }

  predicate AllFit(mem: seq<byte>, ws: seq<Write>) { forall i :: 0 <= i < |ws| ==> Fits(mem, ws[i]) }

  function Total(ws: seq<Write>): nat { if ws == [] then 0 else |ws[0].bytes| + Total(ws[1..]) }

  /** The memory after the writes in order, of which only the first n bytes arrive. */
  function Cut(mem: seq<byte>, ws: seq<Write>, n: nat): (r: seq<byte>)
    requires AllFit(mem, ws)
    ensures |r| == |mem|
    decreases |ws|
  {
    if ws == [] then mem
    else
      var w := ws[0];
      if n < |w.bytes| then Splice(mem, w.addr, w.bytes[..n])
      else Cut(Splice(mem, w.addr, w.bytes), ws[1..], n - |w.bytes|)
  }

  function Block(mem: seq<byte>, addr: nat, size: nat): (r: seq<byte>)
    requires addr + size <= |mem|
    ensures |r| == size
  {
    mem[addr..addr + size]
  }

  function PrimaryOf(mem: seq<byte>, st: Store): (r: seq<byte>)
    requires |mem| == FRAM_SIZE
    ensures |r| == BlockSize(st)
  {
    Block(mem, Primary(st), BlockSize(st))
  }

  function BackupOf(mem: seq<byte>, st: Store): (r: seq<byte>)
    requires |mem| == FRAM_SIZE
    ensures |r| == BlockSize(st)
  {
    Block(mem, Backup(st), BlockSize(st))
  }

  predicate Apart(a: nat, n: nat, b: nat, m: nat) { a + n <= b || b + m <= a }

  /** No two of the six blocks overlap, and all are inside the FRAM. */
  lemma BlocksApart(st: Store, other: Store)
    ensures Primary(st) + BlockSize(st) <= FRAM_SIZE && Backup(st) + BlockSize(st) <= FRAM_SIZE
    ensures Apart(Primary(st), BlockSize(st), Backup(other), BlockSize(other))
    ensures st != other ==> Apart(Primary(st), BlockSize(st), Primary(other), BlockSize(other))
    ensures st != other ==> Apart(Backup(st), BlockSize(st), Backup(other), BlockSize(other))
  {
  }

  lemma SpliceInside(mem: seq<byte>, addr: nat, image: seq<byte>, n: nat)
    requires addr + |image| <= |mem| && n <= |image|
    ensures Block(Splice(mem, addr, image[..n]), addr, |image|) == Torn(Block(mem, addr, |image|), image, n)
  {
    if n == |image| {
      assert image[..n] == image;
    }
  }

  lemma SpliceOutside(mem: seq<byte>, addr: nat, bytes: seq<byte>, a: nat, size: nat)
    requires addr + |bytes| <= |mem| && a + size <= |mem| && Apart(addr, |bytes|, a, size)
    ensures Block(Splice(mem, addr, bytes), a, size) == Block(mem, a, size)
  {
  }

  // ------------------------------------------------------------ what the routines write

  function Fallback(st: Store): (r: seq<byte>)
    ensures |r| == Size(st) && HasMagic(st, r)
  {
    match st
    case Net => Word(NET_MAGIC) + [192, 168, 1, 6, 255, 255, 255, 0, 192, 168, 1, 1, 1, 0, 0, 0, 0, 0, 0, 0]
    case CalData => NominalBytes()
    case CalConfig => Word(CAL_MAGIC) + [0, 0, 0, 0]
  }

  const MULTIPLIER: seq<nat> := [1, 10, 100, 1000, 10000, 100000]

  /** fill_nominal: digit dig of decade dec is that many times the decade's unit, in milliohms. */
  function Nominal(dec: nat, dig: nat): nat
    requires dec < 6 && dig < 10
  {
    dig * MULTIPLIER[dec] * 1000
  }

  function NominalWords(k: nat): (r: seq<byte>)
    requires k <= 60
    ensures |r| == 4 * k
  {
    if k == 0 then [] else NominalWords(k - 1) + Word(Nominal((k - 1) / 10, (k - 1) % 10))
  }

  function NominalBytes(): (r: seq<byte>)
    ensures |r| == 240
  {
    NominalWords(60)
  }

  /** A write of one of the two blocks of its structure. */
  predicate IsBlock(w: Write) {
    (w.addr == Primary(w.owner) || w.addr == Backup(w.owner)) && |w.bytes| == BlockSize(w.owner)
  }

  predicate AllBlocks(ws: seq<Write>) { forall i :: 0 <= i < |ws| ==> IsBlock(ws[i]) }

  /** Both copies of a structure, primary first. */
  function Both(crc: seq<byte> -> nat, st: Store, data: seq<byte>): (r: seq<Write>)
    requires |data| == Size(st)
    ensures AllBlocks(r)
  {
    [Write(st, Primary(st), Image(crc, data)), Write(st, Backup(st), Image(crc, data))]
  }

  function LoadedFrom(crc: seq<byte> -> nat, mem: seq<byte>, st: Store): (r: seq<byte>)
    requires |mem| == FRAM_SIZE
    ensures |r| == Size(st)
  {
    Loaded(crc, st, PrimaryOf(mem, st), BackupOf(mem, st), Fallback(st))
  }

  /** What the backup of a structure offers when its primary is no use. */
  function SpareFrom(crc: seq<byte> -> nat, mem: seq<byte>, st: Store): (r: seq<byte>)
    requires |mem| == FRAM_SIZE
    ensures |r| == Size(st)
  {
    Spare(crc, st, BackupOf(mem, st), Fallback(st))
  }

  /** A primary that is restored from the backup. */
  function Restore(crc: seq<byte> -> nat, mem: seq<byte>, st: Store): (r: seq<Write>)
    requires |mem| == FRAM_SIZE
    ensures AllBlocks(r)
  {
    if !Accepted(crc, st, PrimaryOf(mem, st)) && Accepted(crc, st, BackupOf(mem, st))
    then [Write(st, Primary(st), Image(crc, BackupOf(mem, st)[..Size(st)]))] else []
  }

  /** Defaults written when neither copy is usable. */
  function Initialise(crc: seq<byte> -> nat, mem: seq<byte>, st: Store): (r: seq<Write>)
    requires |mem| == FRAM_SIZE
    ensures AllBlocks(r)
  {
    if !Accepted(crc, st, PrimaryOf(mem, st)) && !Accepted(crc, st, BackupOf(mem, st))
    then Both(crc, st, Fallback(st)) else []
  }

  /** net_config_init */
  function NetStartWrites(crc: seq<byte> -> nat, mem: seq<byte>): (r: seq<Write>)
    requires |mem| == FRAM_SIZE
    ensures AllBlocks(r)
  {
    Restore(crc, mem, Net) + Initialise(crc, mem, Net)
  }

  /** relay_cal_init: both restorations come before both initialisations. */
  function CalStartWrites(crc: seq<byte> -> nat, mem: seq<byte>): (r: seq<Write>)
    requires |mem| == FRAM_SIZE
    ensures AllBlocks(r)
  {
    Restore(crc, mem, CalData) + Restore(crc, mem, CalConfig)
    + Initialise(crc, mem, CalData) + Initialise(crc, mem, CalConfig)
  }

  /** net_config_save */
  function NetSaveWrites(crc: seq<byte> -> nat, config: seq<byte>): (r: seq<Write>)
    requires |config| == Size(Net)
    ensures AllBlocks(r)
  {
    Both(crc, Net, config)
  }

  /** relay_cal_save */
  function CalSaveWrites(crc: seq<byte> -> nat, cal: seq<byte>, config: seq<byte>): (r: seq<Write>)
    requires |cal| == Size(CalData) && |config| == Size(CalConfig)
    ensures AllBlocks(r)
  {
    Both(crc, CalData, cal) + Both(crc, CalConfig, config)
  }

  lemma BlocksFit(mem: seq<byte>, ws: seq<Write>)
    requires |mem| == FRAM_SIZE && AllBlocks(ws)
    ensures AllFit(mem, ws)
  {
    forall i | 0 <= i < |ws| ensures Fits(mem, ws[i]) {
      assert IsBlock(ws[i]);
    }
  }

  /** The FRAM after a run of block writes of which only the first n bytes arrive. */
  function After(mem: seq<byte>, ws: seq<Write>, n: nat): (r: seq<byte>)
    requires |mem| == FRAM_SIZE && AllBlocks(ws)
    ensures |r| == FRAM_SIZE
  {
    BlocksFit(mem, ws); Cut(mem, ws, n)
  }

  // ------------------------------------------------------------ one structure among the others

  /** What interrupted writes do to the two blocks of one structure. */
  function CutPair(p: seq<byte>, b: seq<byte>, ws: seq<Write>, st: Store, n: nat): (r: (seq<byte>, seq<byte>))
    requires |p| == |b| == BlockSize(st) && AllBlocks(ws)
    ensures |r.0| == |r.1| == BlockSize(st)
    decreases |ws|
  {
    if ws == [] then (p, b)
    else
      var w := ws[0];
      assert IsBlock(w);
      var (p', b') := if w.owner != st then (p, b)
                      else if w.addr == Primary(st) then (Torn(p, w.bytes, n), b)
                      else (p, Torn(b, w.bytes, n));
      if n < |w.bytes| then (p', b') else CutPair(p', b', ws[1..], st, n - |w.bytes|)
  }

  lemma SpliceWhole(mem: seq<byte>, addr: nat, image: seq<byte>, n: nat)
    requires addr + |image| <= |mem|
    ensures var k := if n < |image| then n else |image|;
            Block(Splice(mem, addr, image[..k]), addr, |image|) == Torn(Block(mem, addr, |image|), image, n)
  {
    SpliceInside(mem, addr, image, if n < |image| then n else |image|);
  }

  /** One write, cut after n bytes, seen from one structure. */
  lemma WriteSeen(mem: seq<byte>, w: Write, st: Store, n: nat)
    requires |mem| == FRAM_SIZE && IsBlock(w)
    ensures var k := if n < |w.bytes| then n else |w.bytes|;
            var after := Splice(mem, w.addr, w.bytes[..k]);
            && PrimaryOf(after, st)
               == (if w.owner == st && w.addr == Primary(st) then Torn(PrimaryOf(mem, st), w.bytes, n) else PrimaryOf(mem, st))
            && BackupOf(after, st)
               == (if w.owner == st && w.addr != Primary(st) then Torn(BackupOf(mem, st), w.bytes, n) else BackupOf(mem, st))
  {
    hide Splice, Block, Torn;
    var k := if n < |w.bytes| then n else |w.bytes|;
    BlocksApart(st, w.owner);
    BlocksApart(w.owner, st);
    if w.owner == st && w.addr == Primary(st) {
      SpliceWhole(mem, w.addr, w.bytes, n);
    } else {
      SpliceOutside(mem, w.addr, w.bytes[..k], Primary(st), BlockSize(st));
    }
    if w.owner == st && w.addr != Primary(st) {
      SpliceWhole(mem, w.addr, w.bytes, n);
    } else {
      SpliceOutside(mem, w.addr, w.bytes[..k], Backup(st), BlockSize(st));
    }
  }

  /** Writes to other structures do not matter to this one. */
  lemma {:induction false} CutSeen(mem: seq<byte>, ws: seq<Write>, st: Store, n: nat)
    requires |mem| == FRAM_SIZE && AllBlocks(ws)
    ensures var after := After(mem, ws, n);
            (PrimaryOf(after, st), BackupOf(after, st)) == CutPair(PrimaryOf(mem, st), BackupOf(mem, st), ws, st, n)
    decreases |ws|
  {
    hide Splice, Torn, PrimaryOf, BackupOf;
    BlocksFit(mem, ws);
    if ws != [] {
      var w := ws[0];
      assert IsBlock(w);
      WriteSeen(mem, w, st, n);
      if n >= |w.bytes| {
        assert w.bytes[..|w.bytes|] == w.bytes;
        CutSeen(Splice(mem, w.addr, w.bytes), ws[1..], st, n - |w.bytes|);
      }
    }
  }

  /** The writes of one structure. */
  function Only(ws: seq<Write>, st: Store): (r: seq<Write>)
    ensures AllBlocks(ws) ==> AllBlocks(r)
  {
    if ws == [] then []
    else
      assert AllBlocks(ws) ==> IsBlock(ws[0]) && AllBlocks(ws[1..]);
      (if ws[0].owner == st then [ws[0]] else []) + Only(ws[1..], st)
  }

  /** How many of the first n bytes are its. */
  function Share(ws: seq<Write>, st: Store, n: nat): (r: nat)
    decreases |ws|
  {
    if ws == [] then 0
    else
      var k := if n < |ws[0].bytes| then n else |ws[0].bytes|;
      (if ws[0].owner == st then k else 0) + Share(ws[1..], st, n - k)
  }

  lemma {:induction false} NothingShared(ws: seq<Write>, st: Store)
    ensures Share(ws, st, 0) == 0
    decreases |ws|
  {
    if ws != [] { NothingShared(ws[1..], st); }
  }

  lemma {:induction false} NothingCut(p: seq<byte>, b: seq<byte>, ws: seq<Write>, st: Store)
    requires |p| == |b| == BlockSize(st) && AllBlocks(ws)
    ensures CutPair(p, b, ws, st, 0) == (p, b)
  {
    if ws != [] { assert IsBlock(ws[0]); }
  }

  /** So a cut of the whole run is some cut of the structure's own writes. */
  lemma {:induction false} CutShare(p: seq<byte>, b: seq<byte>, ws: seq<Write>, st: Store, n: nat)
    requires |p| == |b| == BlockSize(st) && AllBlocks(ws)
    ensures CutPair(p, b, ws, st, n) == CutPair(p, b, Only(ws, st), st, Share(ws, st, n))
    decreases |ws|
  {
    hide Torn;
    if ws != [] {
      var w := ws[0];
      assert IsBlock(w);
      var only := Only(ws[1..], st);
      assert Only(ws, st) == if w.owner == st then [w] + only else only;
      if n < |w.bytes| {
        NothingShared(ws[1..], st);
        if w.owner == st {
          assert (([w] + only)[0], ([w] + only)[1..]) == (w, only);
        } else {
          NothingCut(p, b, only, st);
        }
      } else {
        var (p', b') := if w.owner != st then (p, b)
                        else if w.addr == Primary(st) then (Torn(p, w.bytes, n), b)
                        else (p, Torn(b, w.bytes, n));
        CutShare(p', b', ws[1..], st, n - |w.bytes|);
        if w.owner == st {
          assert (([w] + only)[0], ([w] + only)[1..]) == (w, only);
        }
      }
    }
  }

  // ------------------------------------------------------------ the guarantees

  lemma {:induction false} OnlyConcat(a: seq<Write>, b: seq<Write>, st: Store)
    ensures Only(a + b, st) == Only(a, st) + Only(b, st)
    decreases |a|
  {
    hide Only;
    if a == [] {
      OnlyNone(st);
      assert a + b == b;
    } else {
      OnlyConcat(a[1..], b, st);
      assert (a + b)[1..] == a[1..] + b && (a + b)[0] == a[0];
      OnlyStep(a, st);
      OnlyStep(a + b, st);
      var head := if a[0].owner == st then [a[0]] else [];
      assert head + (Only(a[1..], st) + Only(b, st)) == (head + Only(a[1..], st)) + Only(b, st);
    }
  }

  lemma OnlyNone(st: Store)
    ensures Only([], st) == []
  {
  }

  lemma OnlyStep(ws: seq<Write>, st: Store)
    requires ws != []
    ensures Only(ws, st) == (if ws[0].owner == st then [ws[0]] else []) + Only(ws[1..], st)
  {
  }

  predicate OwnedBy(ws: seq<Write>, st: Store) { forall i :: 0 <= i < |ws| ==> ws[i].owner == st }

  lemma {:induction false} OnlyOwned(ws: seq<Write>, st: Store, of: Store)
    requires OwnedBy(ws, of)
    ensures Only(ws, st) == if st == of then ws else []
    decreases |ws|
  {
    if ws != [] { OnlyOwned(ws[1..], st, of); }
  }

  lemma OwnParts(crc: seq<byte> -> nat, mem: seq<byte>, st: Store, of: Store)
    requires |mem| == FRAM_SIZE
    ensures Only(Restore(crc, mem, of), st) == if st == of then Restore(crc, mem, of) else []
    ensures Only(Initialise(crc, mem, of), st) == if st == of then Initialise(crc, mem, of) else []
  {
    hide Only;
    OnlyOwned(Restore(crc, mem, of), st, of);
    OnlyOwned(Initialise(crc, mem, of), st, of);
  }

  /** The writes of a start are, for each structure, its own restoration or initialisation. */
  lemma StartOnly(crc: seq<byte> -> nat, mem: seq<byte>, st: Store)
    requires |mem| == FRAM_SIZE
    ensures Only(NetStartWrites(crc, mem), st) == if st == Net then Restore(crc, mem, st) + Initialise(crc, mem, st) else []
    ensures Only(CalStartWrites(crc, mem), st) == if st != Net then Restore(crc, mem, st) + Initialise(crc, mem, st) else []
  {
    hide Only, Restore, Initialise;
    OwnParts(crc, mem, st, Net);
    OnlyConcat(Restore(crc, mem, Net), Initialise(crc, mem, Net), st);
    OwnParts(crc, mem, st, CalData);
    OwnParts(crc, mem, st, CalConfig);
    FourParts(Restore(crc, mem, CalData), Restore(crc, mem, CalConfig),
              Initialise(crc, mem, CalData), Initialise(crc, mem, CalConfig), st);
  }

  lemma FourParts(a: seq<Write>, b: seq<Write>, c: seq<Write>, d: seq<Write>, st: Store)
    ensures Only(a + b + c + d, st) == Only(a, st) + Only(b, st) + Only(c, st) + Only(d, st)
  {
    hide Only;
    OnlyConcat(a + b + c, d, st);
    OnlyConcat(a + b, c, st);
    OnlyConcat(a, b, st);
  }

  lemma SaveOnly(crc: seq<byte> -> nat, cal: seq<byte>, config: seq<byte>, st: Store)
    requires |cal| == Size(CalData) && |config| == Size(CalConfig)
    ensures Only(CalSaveWrites(crc, cal, config), st)
            == match st case Net => [] case CalData => Both(crc, st, cal) case CalConfig => Both(crc, st, config)
  {
    hide Only;
    OnlyOwned(Both(crc, CalData, cal), st, CalData);
    OnlyOwned(Both(crc, CalConfig, config), st, CalConfig);
    OnlyConcat(Both(crc, CalData, cal), Both(crc, CalConfig, config), st);
  }

  lemma BothPair(crc: seq<byte> -> nat, p: seq<byte>, b: seq<byte>, st: Store, data: seq<byte>, n: nat)
    requires |p| == |b| == BlockSize(st) && |data| == Size(st)
    ensures CutPair(p, b, Both(crc, st, data), st, n)
            == (Torn(p, Image(crc, data), n), Torn(b, Image(crc, data), if n < BlockSize(st) then 0 else n - BlockSize(st)))
  {
    hide Torn, Image;
    var ws, image := Both(crc, st, data), Image(crc, data);
    var first, second := ws[0], ws[1];
    assert ws[1..] == [second] && [second][1..] == [];
    assert IsBlock(first) && IsBlock(second) && Primary(st) != Backup(st);
    if n >= BlockSize(st) {
      var m := n - BlockSize(st);
      assert CutPair(image, b, [second], st, m) == (image, Torn(b, image, m));
    }
  }

  lemma StartPair(crc: seq<byte> -> nat, mem: seq<byte>, st: Store, n: nat)
    requires |mem| == FRAM_SIZE
    ensures var p, b := PrimaryOf(mem, st), BackupOf(mem, st);
            CutPair(p, b, Restore(crc, mem, st) + Initialise(crc, mem, st), st, n)
            == AfterStart(crc, st, p, b, Fallback(st), n)
  {
    hide Torn, Accepted, PrimaryOf, BackupOf, Fallback, Both;
    var p, b := PrimaryOf(mem, st), BackupOf(mem, st);
    if Accepted(crc, st, p) {
    } else if Accepted(crc, st, b) {
      var ws := Restore(crc, mem, st);
      assert ws + Initialise(crc, mem, st) == ws && ws[1..] == [];
    } else {
      BothPair(crc, p, b, st, Fallback(st), n);
      assert Restore(crc, mem, st) + Initialise(crc, mem, st) == Both(crc, st, Fallback(st));
    }
  }

  /** The torn-block hypothesis for writing `data` over the primary of a structure. */
  ghost predicate NoTornCollision(crc: seq<byte> -> nat, mem: seq<byte>, st: Store, data: seq<byte>)
    requires |mem| == FRAM_SIZE && |data| == Size(st)
  {
    NoCollision(crc, st, PrimaryOf(mem, st), Image(crc, data), {LoadedFrom(crc, mem, st), data})
  }

  /** What any interrupted run of writes leaves for one structure, given its own part of the run. */
  lemma SeenThroughOnly(mem: seq<byte>, ws: seq<Write>, st: Store, n: nat)
    requires |mem| == FRAM_SIZE && AllBlocks(ws)
    ensures var after := After(mem, ws, n);
            (PrimaryOf(after, st), BackupOf(after, st))
            == CutPair(PrimaryOf(mem, st), BackupOf(mem, st), Only(ws, st), st, Share(ws, st, n))
  {
    hide CutPair, After, PrimaryOf, BackupOf;
    CutSeen(mem, ws, st, n);
    CutShare(PrimaryOf(mem, st), BackupOf(mem, st), ws, st, n);
  }

  /** Any number of bytes of a structure's own part is what some cut of the whole run leaves. */
  lemma {:induction false} ShareReached(ws: seq<Write>, st: Store, k: nat) returns (n: nat)
    requires k <= Total(Only(ws, st))
    ensures Share(ws, st, n) == k
    decreases |ws|
  {
    n := 0;
    if ws != [] {
      var w, only := ws[0], Only(ws[1..], st);
      assert ([w] + only)[1..] == only && [] + only == only;
      if w.owner == st && k < |w.bytes| {
        NothingShared(ws[1..], st);
        n := k;
      } else {
        var m := ShareReached(ws[1..], st, if w.owner == st then k - |w.bytes| else k);
        n := |w.bytes| + m;
      }
    }
  }

  /** What a structure loads after a save it is part of was cut: what its own two blocks make of its own share. */
  lemma SavedCut(crc: seq<byte> -> nat, mem: seq<byte>, ws: seq<Write>, st: Store, data: seq<byte>, n: nat)
    requires |mem| == FRAM_SIZE && AllBlocks(ws) && |data| == Size(st)
    requires Only(ws, st) == Both(crc, st, data)
    ensures LoadedFrom(crc, After(mem, ws, n), st)
            == AfterCut(crc, st, PrimaryOf(mem, st), BackupOf(mem, st), data, Share(ws, st, n), Fallback(st))
  {
    hide CutPair, After, PrimaryOf, BackupOf, Fallback, Only, Share, Accepted, Torn, Image, Both;
    SeenThroughOnly(mem, ws, st, n);
    BothPair(crc, PrimaryOf(mem, st), BackupOf(mem, st), st, data, Share(ws, st, n));
  }

  /** Whether a save of a structure, torn anywhere, leaves the old or the new one. */
  ghost predicate SaveSafe(crc: seq<byte> -> nat, mem: seq<byte>, st: Store, data: seq<byte>)
    requires |mem| == FRAM_SIZE && |data| == Size(st)
  {
    SpareFrom(crc, mem, st) in {LoadedFrom(crc, mem, st), data} || !CanTear(crc, st, PrimaryOf(mem, st), Image(crc, data))
  }

  /**
   * A save of one structure as part of a run of writes: whichever byte the run is cut
   * after, the old or the new structure is loaded, exactly if the backup offered one of
   * them before, or the primary cannot be torn.
   */
  lemma SavedOldOrNew(crc: seq<byte> -> nat, mem: seq<byte>, ws: seq<Write>, st: Store, data: seq<byte>)
    requires |mem| == FRAM_SIZE && AllBlocks(ws) && |data| == Size(st) && HasMagic(st, data)
    requires Only(ws, st) == Both(crc, st, data) && NoTornCollision(crc, mem, st, data)
    ensures (forall n: nat :: LoadedFrom(crc, After(mem, ws, n), st) in {LoadedFrom(crc, mem, st), data})
            <==> SaveSafe(crc, mem, st, data)
  {
    hide After, PrimaryOf, BackupOf, Fallback, Only, Share, NoCollision, Accepted, Torn, Image, Both, AfterCut, CanTear, Total, Spare;
    var p, b, was := PrimaryOf(mem, st), BackupOf(mem, st), LoadedFrom(crc, mem, st);
    SaveIsAtomic(crc, st, p, b, data, Fallback(st));
    BothTotal(crc, st, data);
    forall n: nat
      ensures LoadedFrom(crc, After(mem, ws, n), st) == AfterCut(crc, st, p, b, data, Share(ws, st, n), Fallback(st))
    {
      SavedCut(crc, mem, ws, st, data, n);
    }
    if forall n: nat :: LoadedFrom(crc, After(mem, ws, n), st) in {was, data} {
      forall k: nat ensures AfterCut(crc, st, p, b, data, k, Fallback(st)) in {was, data} {
        if k <= 2 * BlockSize(st) {
          var n := ShareReached(ws, st, k);
          assert LoadedFrom(crc, After(mem, ws, n), st) in {was, data};
        } else {
          SaveCutLoads(crc, st, p, b, data, k, Fallback(st));
        }
      }
    }
  }

  /** A structure that a run of writes does not touch. */
  lemma Untouched(crc: seq<byte> -> nat, mem: seq<byte>, ws: seq<Write>, st: Store, n: nat)
    requires |mem| == FRAM_SIZE && AllBlocks(ws) && Only(ws, st) == []
    ensures var after := After(mem, ws, n);
            PrimaryOf(after, st) == PrimaryOf(mem, st) && BackupOf(after, st) == BackupOf(mem, st)
            && LoadedFrom(crc, after, st) == LoadedFrom(crc, mem, st)
  {
    hide After, PrimaryOf, BackupOf, Fallback, Only, Share;
    SeenThroughOnly(mem, ws, st, n);
  }

  /**
   * Power fails after any byte of net_config_save: the next start finds exactly the old
   * or exactly the new network configuration, if and only if the save is safe in the
   * sense of SaveSafe; a save that is not cut is loaded, and the calibration is untouched.
   */
  lemma NetSaveAtomic(crc: seq<byte> -> nat, mem: seq<byte>, config: seq<byte>)
    requires |mem| == FRAM_SIZE && |config| == Size(Net) && HasMagic(Net, config)
    requires NoTornCollision(crc, mem, Net, config)
    ensures var ws := NetSaveWrites(crc, config);
            && ((forall n: nat :: LoadedFrom(crc, After(mem, ws, n), Net) in {LoadedFrom(crc, mem, Net), config})
                <==> SaveSafe(crc, mem, Net, config))
            && (forall n: nat :: n >= Total(ws) ==> LoadedFrom(crc, After(mem, ws, n), Net) == config)
            && (forall n: nat :: LoadedFrom(crc, After(mem, ws, n), CalData) == LoadedFrom(crc, mem, CalData))
            && (forall n: nat :: LoadedFrom(crc, After(mem, ws, n), CalConfig) == LoadedFrom(crc, mem, CalConfig))
  {
    hide After, LoadedFrom, SaveSafe, Only, NoTornCollision, Total;
    var ws := NetSaveWrites(crc, config);
    OnlyOwned(ws, Net, Net);
    OnlyOwned(ws, CalData, Net);
    OnlyOwned(ws, CalConfig, Net);
    SavedOldOrNew(crc, mem, ws, Net, config);
    forall n: nat ensures n >= Total(ws) ==> LoadedFrom(crc, After(mem, ws, n), Net) == config {
      if n >= Total(ws) { SaveReadsBack(crc, mem, ws, Net, config, n); }
    }
    forall n: nat ensures LoadedFrom(crc, After(mem, ws, n), CalData) == LoadedFrom(crc, mem, CalData) {
      Untouched(crc, mem, ws, CalData, n);
    }
    forall n: nat ensures LoadedFrom(crc, After(mem, ws, n), CalConfig) == LoadedFrom(crc, mem, CalConfig) {
      Untouched(crc, mem, ws, CalConfig, n);
    }
  }

  /** Power fails after any byte of relay_cal_save: the same holds for the calibration data and, separately, for its configuration. */
  lemma CalSaveAtomic(crc: seq<byte> -> nat, mem: seq<byte>, cal: seq<byte>, config: seq<byte>)
    requires |mem| == FRAM_SIZE && |cal| == Size(CalData) && |config| == Size(CalConfig) && HasMagic(CalConfig, config)
    requires NoTornCollision(crc, mem, CalData, cal) && NoTornCollision(crc, mem, CalConfig, config)
    ensures var ws := CalSaveWrites(crc, cal, config);
            && ((forall n: nat :: LoadedFrom(crc, After(mem, ws, n), CalData) in {LoadedFrom(crc, mem, CalData), cal})
                <==> SaveSafe(crc, mem, CalData, cal))
            && ((forall n: nat :: LoadedFrom(crc, After(mem, ws, n), CalConfig) in {LoadedFrom(crc, mem, CalConfig), config})
                <==> SaveSafe(crc, mem, CalConfig, config))
            && (forall n: nat :: n >= Total(ws) ==> LoadedFrom(crc, After(mem, ws, n), CalData) == cal
                                                    && LoadedFrom(crc, After(mem, ws, n), CalConfig) == config)
            && (forall n: nat :: LoadedFrom(crc, After(mem, ws, n), Net) == LoadedFrom(crc, mem, Net))
  {
    hide After, LoadedFrom, SaveSafe, Only, Both, NoTornCollision, Total;
    var ws := CalSaveWrites(crc, cal, config);
    SaveOnly(crc, cal, config, CalData);
    SaveOnly(crc, cal, config, CalConfig);
    SaveOnly(crc, cal, config, Net);
    SavedOldOrNew(crc, mem, ws, CalData, cal);
    SavedOldOrNew(crc, mem, ws, CalConfig, config);
    forall n: nat ensures n >= Total(ws) ==> LoadedFrom(crc, After(mem, ws, n), CalData) == cal
                                             && LoadedFrom(crc, After(mem, ws, n), CalConfig) == config {
      if n >= Total(ws) {
        SaveReadsBack(crc, mem, ws, CalData, cal, n);
        SaveReadsBack(crc, mem, ws, CalConfig, config, n);
      }
    }
    forall n: nat ensures LoadedFrom(crc, After(mem, ws, n), Net) == LoadedFrom(crc, mem, Net) {
      Untouched(crc, mem, ws, Net, n);
    }
  }

  lemma BothTotal(crc: seq<byte> -> nat, st: Store, data: seq<byte>)
    requires |data| == Size(st)
    ensures Total(Both(crc, st, data)) == 2 * BlockSize(st)
  {
    var ws := Both(crc, st, data);
    assert ws[1..] == [ws[1]] && [ws[1]][1..] == [];
    assert Total([ws[1]]) == BlockSize(st);
  }

  /** A run that is not cut is complete for every structure. */
  lemma {:induction false} CompleteShare(ws: seq<Write>, st: Store, n: nat)
    requires n >= Total(ws)
    ensures Share(ws, st, n) == Total(Only(ws, st))
    decreases |ws|
  {
    if ws != [] {
      CompleteShare(ws[1..], st, n - |ws[0].bytes|);
      var only := Only(ws[1..], st);
      assert ([ws[0]] + only)[1..] == only && [] + only == only;
    }
  }

  /**
   * After a save that reported success, whatever the FRAM held before, a start loads
   * exactly what was saved, and so does the backup: any next save is safe.
   */
  lemma SaveReadsBack(crc: seq<byte> -> nat, mem: seq<byte>, ws: seq<Write>, st: Store, data: seq<byte>, n: nat)
    requires |mem| == FRAM_SIZE && AllBlocks(ws) && |data| == Size(st) && HasMagic(st, data)
    requires Only(ws, st) == Both(crc, st, data) && n >= Total(ws)
    ensures var after := After(mem, ws, n);
            LoadedFrom(crc, after, st) == SpareFrom(crc, after, st) == data
            && forall next: seq<byte> :: |next| == Size(st) ==> SaveSafe(crc, after, st, next)
  {
    hide CutPair, After, PrimaryOf, BackupOf, Fallback, Only, Share, Accepted, Image, Both, CanTear;
    SeenThroughOnly(mem, ws, st, n);
    CompleteShare(ws, st, n);
    BothTotal(crc, st, data);
    BothPair(crc, PrimaryOf(mem, st), BackupOf(mem, st), st, data, Share(ws, st, n));
    ImageAccepted(crc, st, data);
  }

  /**
   * Starting is safe from any state of the FRAM and wherever it is interrupted: every
   * structure is loaded afterwards as before.
   */
  lemma StartIsSafe(crc: seq<byte> -> nat, mem: seq<byte>, ws: seq<Write>, st: Store, n: nat)
    requires |mem| == FRAM_SIZE && (ws == NetStartWrites(crc, mem) || ws == CalStartWrites(crc, mem))
    requires var loaded := LoadedFrom(crc, mem, st); NoCollision(crc, st, PrimaryOf(mem, st), Image(crc, loaded), {loaded})
    ensures LoadedFrom(crc, After(mem, ws, n), st) == LoadedFrom(crc, mem, st)
  {
    hide After, PrimaryOf, BackupOf, Fallback, Only, Share, NoCollision, Restore, Initialise, AfterStart, CutPair;
    StartOnly(crc, mem, st);
    if Only(ws, st) == [] {
      Untouched(crc, mem, ws, st, n);
    } else {
      SeenThroughOnly(mem, ws, st, n);
      StartPair(crc, mem, st, Share(ws, st, n));
      StartKeeps(crc, st, PrimaryOf(mem, st), BackupOf(mem, st), Fallback(st), Share(ws, st, n));
    }
  }

  // ------------------------------------------------------------ starts on a bus that refuses reads

  /** A copy that could be read and is accepted. */
  predicate Usable(crc: seq<byte> -> nat, st: Store, block: seq<byte>, read: bool)
    requires |block| == BlockSize(st)
  {
    read && Accepted(crc, st, block)
  }

  /** What a start uses: first and second say whether the reads of the primary and of the backup went through. */
  function Chosen(crc: seq<byte> -> nat, mem: seq<byte>, st: Store, first: bool, second: bool): (r: seq<byte>)
    requires |mem| == FRAM_SIZE
    ensures |r| == Size(st) && HasMagic(st, r)
  {
    if Usable(crc, st, PrimaryOf(mem, st), first) then PrimaryOf(mem, st)[..Size(st)]
    else if Usable(crc, st, BackupOf(mem, st), second) then BackupOf(mem, st)[..Size(st)]
    else Fallback(st)
  }

  /** And what it writes. */
  function ChosenWrites(crc: seq<byte> -> nat, mem: seq<byte>, st: Store, first: bool, second: bool): (r: seq<Write>)
    requires |mem| == FRAM_SIZE
    ensures AllBlocks(r)
  {
    if Usable(crc, st, PrimaryOf(mem, st), first) then []
    else if Usable(crc, st, BackupOf(mem, st), second)
    then [Write(st, Primary(st), Image(crc, Chosen(crc, mem, st, first, second)))]
    else Both(crc, st, Fallback(st))
  }

  /**
   * A start whose writes are complete leaves what it used: later starts load that.  So it keeps
   * the configuration exactly if the primary was read, or was of no use anyway and the backup
   * read or of no use, or what it used instead happens to be the same.
   */
  lemma RefusedStart(crc: seq<byte> -> nat, mem: seq<byte>, st: Store, first: bool, second: bool)
    requires |mem| == FRAM_SIZE
    ensures var ws := ChosenWrites(crc, mem, st, first, second);
            var p, b, was := PrimaryOf(mem, st), BackupOf(mem, st), LoadedFrom(crc, mem, st);
            && LoadedFrom(crc, After(mem, ws, Total(ws)), st) == Chosen(crc, mem, st, first, second)
            && (LoadedFrom(crc, After(mem, ws, Total(ws)), st) == was <==>
                  if Accepted(crc, st, p) then first || (if Usable(crc, st, b, second) then b[..Size(st)] else Fallback(st)) == was
                  else Accepted(crc, st, b) ==> second || Fallback(st) == was)
  {
    hide After, Fallback, Accepted, PrimaryOf, BackupOf, Both, Image, Only, Total;
    var ws, data := ChosenWrites(crc, mem, st, first, second), Chosen(crc, mem, st, first, second);
    if Usable(crc, st, PrimaryOf(mem, st), first) {
      AfterNothing(mem);
    } else if Usable(crc, st, BackupOf(mem, st), second) {
      PrimaryWritten(crc, mem, st, data);
    } else {
      OnlyOwned(ws, st, st) by { assert OwnedBy(Both(crc, st, Fallback(st)), st) by { BothOwned(crc, st, Fallback(st)); } }
      SaveReadsBack(crc, mem, ws, st, data, Total(ws));
    }
  }

  lemma BothOwned(crc: seq<byte> -> nat, st: Store, data: seq<byte>)
    requires |data| == Size(st)
    ensures OwnedBy(Both(crc, st, data), st)
  {
  }

  lemma AfterNothing(mem: seq<byte>)
    requires |mem| == FRAM_SIZE
    ensures After(mem, [], Total([])) == mem
  {
  }

  lemma PrimaryWritten(crc: seq<byte> -> nat, mem: seq<byte>, st: Store, data: seq<byte>)
    requires |mem| == FRAM_SIZE && |data| == Size(st) && HasMagic(st, data)
    ensures var ws := [Write(st, Primary(st), Image(crc, data))];
            IsBlock(ws[0]) && LoadedFrom(crc, After(mem, ws, Total(ws)), st) == data
  {
    hide After, Fallback, Accepted, PrimaryOf, BackupOf, Image, Torn;
    var ws := [Write(st, Primary(st), Image(crc, data))];
    assert IsBlock(ws[0]);
    assert ws[1..] == [] && Total(ws) == BlockSize(st);
    CutSeen(mem, ws, st, Total(ws));
    ImageAccepted(crc, st, data);
  }

  /** Two refused reads are enough to overwrite two good copies with the defaults. */
  lemma RefusedReadsLose(crc: seq<byte> -> nat, mem: seq<byte>, st: Store)
    requires |mem| == FRAM_SIZE && Accepted(crc, st, PrimaryOf(mem, st)) && Accepted(crc, st, BackupOf(mem, st))
    ensures var ws := ChosenWrites(crc, mem, st, false, false);
            var after := After(mem, ws, Total(ws));
            LoadedFrom(crc, after, st) == SpareFrom(crc, after, st) == Fallback(st)
  {
    hide After, Fallback, Accepted, PrimaryOf, BackupOf, Both, Image, Only, Total, LoadedFrom, SpareFrom;
    var ws := ChosenWrites(crc, mem, st, false, false);
    BothOwned(crc, st, Fallback(st));
    OnlyOwned(ws, st, st);
    SaveReadsBack(crc, mem, ws, st, Fallback(st), Total(ws));
  }

  /** With both reads the start is the one of StartIsSafe. */
  lemma ChosenStart(crc: seq<byte> -> nat, mem: seq<byte>)
    requires |mem| == FRAM_SIZE
    ensures Chosen(crc, mem, Net, true, true) == LoadedFrom(crc, mem, Net)
    ensures ChosenWrites(crc, mem, Net, true, true) == NetStartWrites(crc, mem)
  {
    hide Fallback, Accepted, PrimaryOf, BackupOf, Both, Image;
  }
}
