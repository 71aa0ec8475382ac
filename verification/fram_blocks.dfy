// The mirrored blocks of the FRAM: net_config_fram.c and the storage half of
// relay_cal.c.  Every stored structure has a primary and a backup copy, each
// followed by its CRC.  Power may fail after any byte that is written.

module FramBlocks {

  import opened Basics

  const FRAM_SIZE := 8192

  /** The three structures kept in the FRAM. */
  datatype Store = Net | CalData | CalConfig

  function Size(st: Store): nat { match st case Net => 24 case CalData => 240 case CalConfig => 8 }

  function Primary(st: Store): nat { match st case Net => 0x0000 case CalData => 0x0040 case CalConfig => 0x0134 }

  function Backup(st: Store): nat { match st case Net => 0x0020 case CalData => 0x0140 case CalConfig => 0x0234 }

  /** A block is the structure and four bytes of CRC. */
  function BlockSize(st: Store): nat { Size(st) + 4 }

  /** A 32-bit word, least significant byte first. */
  function Word(v: nat): (r: seq<byte>)
    ensures |r| == 4
  {
    [v % 256, v / 256 % 256, v / 65536 % 256, v / 16777216 % 256]
  }

  /** The hardware CRC is any function of the bytes. */
  function Checksum(crc: seq<byte> -> nat, data: seq<byte>): (r: seq<byte>)
    ensures |r| == 4
  {
    Word(crc(data))
  }

  const NET_MAGIC := 0xDE1AC0DF
  const CAL_MAGIC := 0xCA11B001

  /** The structures that start with a magic number are only used when it is right. */
  predicate HasMagic(st: Store, data: seq<byte>)
    requires |data| == Size(st)
  {
    match st
    case Net => data[..4] == Word(NET_MAGIC)
    case CalData => true
    case CalConfig => data[..4] == Word(CAL_MAGIC)
  }

  function WithMagic(st: Store, data: seq<byte>): (r: seq<byte>)
    requires |data| == Size(st)
    ensures |r| == Size(st) && HasMagic(st, r) && r[4..] == data[4..]
  {
    match st
    case Net => Word(NET_MAGIC) + data[4..]
    case CalData => data
    case CalConfig => Word(CAL_MAGIC) + data[4..]
  }

  /** What is written for a structure. */
  function Image(crc: seq<byte> -> nat, data: seq<byte>): (r: seq<byte>)
    ensures |r| == |data| + 4 && r[..|data|] == data && r[|data|..] == Checksum(crc, data)
  {
    data + Checksum(crc, data)
  }

  /** Whether a block read back is used. */
  predicate Accepted(crc: seq<byte> -> nat, st: Store, block: seq<byte>)
    requires |block| == BlockSize(st)
  {
    block[Size(st)..] == Checksum(crc, block[..Size(st)]) && HasMagic(st, block[..Size(st)])
  }

  /** What a start makes of the backup when the primary is no use: its structure, or the defaults. */
  function Spare(crc: seq<byte> -> nat, st: Store, b: seq<byte>, fallback: seq<byte>): (r: seq<byte>)
    requires |b| == BlockSize(st) && |fallback| == Size(st)
    ensures |r| == Size(st)
  {
    if Accepted(crc, st, b) then b[..Size(st)] else fallback
  }

  /** What a start makes of the two blocks: the primary, else the backup, else the defaults. */
  function Loaded(crc: seq<byte> -> nat, st: Store, p: seq<byte>, b: seq<byte>, fallback: seq<byte>): (r: seq<byte>)
    requires |p| == |b| == BlockSize(st) && |fallback| == Size(st)
    ensures |r| == Size(st)
  {
    if Accepted(crc, st, p) then p[..Size(st)] else Spare(crc, st, b, fallback)
  }

  /** An image is accepted and is its structure. */
  lemma ImageAccepted(crc: seq<byte> -> nat, st: Store, data: seq<byte>)
    requires |data| == Size(st) && HasMagic(st, data)
    ensures Accepted(crc, st, Image(crc, data)) && Image(crc, data)[..Size(st)] == data
  {
  }

  // ------------------------------------------------------------ interrupted writes, block by block

  /** A block of which the first n bytes were overwritten. */
  function Torn(block: seq<byte>, image: seq<byte>, n: nat): (r: seq<byte>)
    requires |block| == |image|
    ensures |r| == |block|
    ensures n == 0 ==> r == block
    ensures n >= |image| ==> r == image
  {
    if n < |image| then image[..n] + block[n..] else image
  }

  /** No partly written block is mistaken for a whole one, unless it holds that very structure. */
  predicate NoCollision(crc: seq<byte> -> nat, st: Store, block: seq<byte>, image: seq<byte>, fine: set<seq<byte>>)
    requires |block| == |image| == BlockSize(st)
  {
    forall n: nat :: 0 < n < |image| && Accepted(crc, st, Torn(block, image, n)) ==> Torn(block, image, n)[..Size(st)] in fine
  }

  /** What a start loads after a save that was cut after n bytes. */
  function AfterCut(crc: seq<byte> -> nat, st: Store, p: seq<byte>, b: seq<byte>, next: seq<byte>, n: nat, fallback: seq<byte>): seq<byte>
    requires |p| == |b| == BlockSize(st) && |next| == |fallback| == Size(st)
  {
    var image, size := Image(crc, next), BlockSize(st);
    Loaded(crc, st, Torn(p, image, n), Torn(b, image, if n < size then 0 else n - size), fallback)
  }

  /**
   * A save that is cut after n bytes, over any two blocks: the next start loads
   * the old structure, the new one, or what the backup offers.
   */
  lemma SaveCutLoads(crc: seq<byte> -> nat, st: Store, p: seq<byte>, b: seq<byte>, next: seq<byte>, n: nat, fallback: seq<byte>)
    requires |p| == |b| == BlockSize(st) && |next| == |fallback| == Size(st) && HasMagic(st, next)
    requires NoCollision(crc, st, p, Image(crc, next), {Loaded(crc, st, p, b, fallback), next})
    ensures var was, loaded := Loaded(crc, st, p, b, fallback), AfterCut(crc, st, p, b, next, n, fallback);
            && (n == 0 ==> loaded == was)
            && (n >= BlockSize(st) ==> loaded == next)
            && (0 < n < BlockSize(st) ==>
                  if Accepted(crc, st, Torn(p, Image(crc, next), n)) then loaded == was || loaded == next
                  else loaded == Spare(crc, st, b, fallback))
  {
    ImageAccepted(crc, st, next);
  }

  /** Some cut of the save leaves a primary that cannot be used. */
  ghost predicate CanTear(crc: seq<byte> -> nat, st: Store, p: seq<byte>, image: seq<byte>)
    requires |p| == |image| == BlockSize(st)
  {
    exists n: nat :: 0 < n < BlockSize(st) && !Accepted(crc, st, Torn(p, image, n))
  }

  /**
   * Atomicity of a save, exactly and whatever the two blocks held: every cut loads
   * the old or the new structure if and only if what the backup offers is one of
   * them, or no cut leaves the primary unusable.
   */
  lemma SaveIsAtomic(crc: seq<byte> -> nat, st: Store, p: seq<byte>, b: seq<byte>, next: seq<byte>, fallback: seq<byte>)
    requires |p| == |b| == BlockSize(st) && |next| == |fallback| == Size(st) && HasMagic(st, next)
    requires NoCollision(crc, st, p, Image(crc, next), {Loaded(crc, st, p, b, fallback), next})
    ensures var was := Loaded(crc, st, p, b, fallback);
            (forall n: nat :: AfterCut(crc, st, p, b, next, n, fallback) in {was, next})
            <==> Spare(crc, st, b, fallback) in {was, next} || !CanTear(crc, st, p, Image(crc, next))
  {
    hide Torn, Accepted, Loaded, NoCollision, Image, Spare, AfterCut;
    var was, image, spare := Loaded(crc, st, p, b, fallback), Image(crc, next), Spare(crc, st, b, fallback);
    forall n: nat
      ensures spare in {was, next} || !CanTear(crc, st, p, image) ==> AfterCut(crc, st, p, b, next, n, fallback) in {was, next}
    {
      SaveCutLoads(crc, st, p, b, next, n, fallback);
    }
    if CanTear(crc, st, p, image) {
      var torn: nat :| 0 < torn < BlockSize(st) && !Accepted(crc, st, Torn(p, image, torn));
      SaveCutLoads(crc, st, p, b, next, torn, fallback);
      assert AfterCut(crc, st, p, b, next, torn, fallback) == spare;
    }
  }

  // ------------------------------------------------------------ interrupted starts

  /** The two blocks after a start that was cut after n bytes. */
  function AfterStart(crc: seq<byte> -> nat, st: Store, p: seq<byte>, b: seq<byte>, fallback: seq<byte>, n: nat)
      : (r: (seq<byte>, seq<byte>))
    requires |p| == |b| == BlockSize(st) && |fallback| == Size(st)
    ensures |r.0| == |r.1| == BlockSize(st)
  {
    if Accepted(crc, st, p) then (p, b)
    else
      var image, size := Image(crc, Loaded(crc, st, p, b, fallback)), BlockSize(st);
      (Torn(p, image, n), if Accepted(crc, st, b) then b else Torn(b, image, if n < size then 0 else n - size))
  }

  /** The two blocks after any number of starts, each cut somewhere. */
  function AfterStarts(crc: seq<byte> -> nat, st: Store, p: seq<byte>, b: seq<byte>, fallback: seq<byte>, cuts: seq<nat>)
      : (r: (seq<byte>, seq<byte>))
    requires |p| == |b| == BlockSize(st) && |fallback| == Size(st)
    ensures |r.0| == |r.1| == BlockSize(st)
    decreases |cuts|
  {
    if cuts == [] then (p, b)
    else
      var (p', b') := AfterStart(crc, st, p, b, fallback, cuts[0]);
      AfterStarts(crc, st, p', b', fallback, cuts[1..])
  }

  lemma TornTwice(block: seq<byte>, image: seq<byte>, n: nat, m: nat)
    requires |block| == |image|
    ensures Torn(Torn(block, image, n), image, m) == Torn(block, image, if n < m then m else n)
  {
  }

  lemma CollisionKept(crc: seq<byte> -> nat, st: Store, block: seq<byte>, image: seq<byte>, fine: set<seq<byte>>, n: nat)
    requires |block| == |image| == BlockSize(st) && NoCollision(crc, st, block, image, fine)
    requires image[..Size(st)] in fine
    ensures NoCollision(crc, st, Torn(block, image, n), image, fine)
  {
    hide Torn, Accepted;
    var t := Torn(block, image, n);
    forall m: nat | 0 < m < |image| && Accepted(crc, st, Torn(t, image, m))
      ensures Torn(t, image, m)[..Size(st)] in fine
    {
      TornTwice(block, image, n, m);
    }
  }

  /** A start, wherever it is cut, loads what it would have loaded uncut, and leaves it to be loaded. */
  lemma StartKeeps(crc: seq<byte> -> nat, st: Store, p: seq<byte>, b: seq<byte>, fallback: seq<byte>, n: nat)
    requires |p| == |b| == BlockSize(st) && |fallback| == Size(st) && HasMagic(st, fallback)
    requires var loaded := Loaded(crc, st, p, b, fallback); NoCollision(crc, st, p, Image(crc, loaded), {loaded})
    ensures var (p', b') := AfterStart(crc, st, p, b, fallback, n);
            var loaded := Loaded(crc, st, p, b, fallback);
            Loaded(crc, st, p', b', fallback) == loaded
            && NoCollision(crc, st, p', Image(crc, loaded), {loaded})
  {
    hide NoCollision;
    var loaded := Loaded(crc, st, p, b, fallback);
    ImageAccepted(crc, st, loaded);
    CollisionKept(crc, st, p, Image(crc, loaded), {loaded}, n);
    assert NoCollision(crc, st, p, Image(crc, loaded), {loaded});
    Torns(crc, st, p, Image(crc, loaded), {loaded}, n);
  }

  lemma Torns(crc: seq<byte> -> nat, st: Store, p: seq<byte>, image: seq<byte>, fine: set<seq<byte>>, n: nat)
    requires |p| == |image| == BlockSize(st) && NoCollision(crc, st, p, image, fine)
    ensures 0 < n < |image| && Accepted(crc, st, Torn(p, image, n)) ==> Torn(p, image, n)[..Size(st)] in fine
  {
  }

  /** However often starting is interrupted, the configuration stays what it was. */
  lemma {:induction false} StartsKeep(crc: seq<byte> -> nat, st: Store, p: seq<byte>, b: seq<byte>, fallback: seq<byte>, cuts: seq<nat>)
    requires |p| == |b| == BlockSize(st) && |fallback| == Size(st) && HasMagic(st, fallback)
    requires var loaded := Loaded(crc, st, p, b, fallback); NoCollision(crc, st, p, Image(crc, loaded), {loaded})
    ensures var (p', b') := AfterStarts(crc, st, p, b, fallback, cuts);
            Loaded(crc, st, p', b', fallback) == Loaded(crc, st, p, b, fallback)
    decreases |cuts|
  {
    hide NoCollision, Loaded, AfterStart, Image;
    if cuts != [] {
      var (p', b') := AfterStart(crc, st, p, b, fallback, cuts[0]);
      StartKeeps(crc, st, p, b, fallback, cuts[0]);
      StartsKeep(crc, st, p', b', fallback, cuts[1..]);
    }
  }

  /**
   * A backup torn by an interrupted save is not repaired by the next start, since
   * its primary is usable; a second save is then atomic exactly if the defaults
   * are the old or the new structure, and where it tears the primary both copies are lost.
   */
  lemma TornBackupLoses(crc: seq<byte> -> nat, st: Store, b: seq<byte>, prev: seq<byte>, next: seq<byte>,
                        k: nat, m: nat, boot: nat, fallback: seq<byte>)
    requires |b| == BlockSize(st) && |prev| == |next| == |fallback| == Size(st) && HasMagic(st, prev) && HasMagic(st, next)
    requires !Accepted(crc, st, Torn(b, Image(crc, prev), k))
    requires 0 < m < BlockSize(st) && !Accepted(crc, st, Torn(Image(crc, prev), Image(crc, next), m))
    requires NoCollision(crc, st, Image(crc, prev), Image(crc, next), {prev, next})
    ensures var p1, b1 := Image(crc, prev), Torn(b, Image(crc, prev), k);
            && AfterStart(crc, st, p1, b1, fallback, boot) == (p1, b1)
            && AfterCut(crc, st, p1, b1, next, m, fallback) == fallback
            && ((forall n: nat :: AfterCut(crc, st, p1, b1, next, n, fallback) in {prev, next}) <==> fallback in {prev, next})
  {
    hide Torn, NoCollision, Image, AfterCut;
    var p1, b1 := Image(crc, prev), Torn(b, Image(crc, prev), k);
    ImageAccepted(crc, st, prev);
    SaveIsAtomic(crc, st, p1, b1, next, fallback);
    SaveCutLoads(crc, st, p1, b1, next, m, fallback);
  }

  /**
   * A save of b over a that is cut between its two blocks leaves b and, as backup,
   * a, and a start does not mirror them.  A later save of c is then atomic exactly
   * if a is b or c: where it tears the primary, the start brings back a.
   */
  lemma StaleBackupReturns(crc: seq<byte> -> nat, st: Store, a: seq<byte>, b: seq<byte>, c: seq<byte>,
                           m: nat, boot: nat, fallback: seq<byte>)
    requires |a| == |b| == |c| == |fallback| == Size(st) && HasMagic(st, a) && HasMagic(st, b) && HasMagic(st, c)
    requires 0 < m < BlockSize(st) && !Accepted(crc, st, Torn(Image(crc, b), Image(crc, c), m))
    requires NoCollision(crc, st, Image(crc, b), Image(crc, c), {b, c})
    ensures var p1, b1 := Torn(Image(crc, a), Image(crc, b), BlockSize(st)), Torn(Image(crc, a), Image(crc, b), 0);
            && AfterStart(crc, st, p1, b1, fallback, boot) == (p1, b1)
            && AfterCut(crc, st, p1, b1, c, m, fallback) == a
            && ((forall n: nat :: AfterCut(crc, st, p1, b1, c, n, fallback) in {b, c}) <==> a in {b, c})
  {
    hide Torn, NoCollision, Image, AfterCut;
    ImageAccepted(crc, st, a);
    ImageAccepted(crc, st, b);
    SaveIsAtomic(crc, st, Image(crc, b), Image(crc, a), c, fallback);
    SaveCutLoads(crc, st, Image(crc, b), Image(crc, a), c, m, fallback);
  }
}
