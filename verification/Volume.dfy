/** The mounted volume: the disk as an array of blocks, the allocation hint, and
    the history of disk images left by each synchronous block write. */
module Volumes {
  import opened Layout
  import opened Bytes

  type Disk = seq<Block>

  /** `trace` lists the disk image after every synchronous write so far: the
      images a crash could leave behind. */
  datatype Vol = Vol(g: Geometry, disk: Disk, hint: nat, trace: seq<Disk>)
  {
    predicate Sized() { g.Formed() && |disk| == g.size }

    /** The mounted state every operation keeps. */
    predicate Ok() {
      && Sized()
      && g.DataStart() <= hint <= g.size
      && (hint == g.size ==> g.DataStart() == g.size)
    }

    /** Change block `b` and wait for the device (`sync_dirty_buffer`). */
    function Put(b: nat, blk: Block): (v: Vol)
      requires b < |disk|
    {
      this.(disk := disk[b := blk], trace := trace + [disk[b := blk]])
    }
  }

  // ----- the free bitmap, as the kernel module reads it -----

  function BitmapBlock(g: Geometry, b: nat): nat { b / BPB + g.bmapstart }

  function BitmapWord(b: nat): (i: nat)
    ensures i < NINDIRECT
  {
    b % BPB / 32
  }

  lemma BitmapInRange(g: Geometry, b: nat)
    requires b < g.size
    ensures g.bmapstart <= BitmapBlock(g, b) < g.DataStart()
  {}

  predicate Used(g: Geometry, disk: Disk, b: nat)
    requires g.Formed() && |disk| == g.size && b < g.size
  {
    Bit(Word(disk[BitmapBlock(g, b)], BitmapWord(b)), b % 32)
  }

  function UsedSet(g: Geometry, disk: Disk): set<nat>
    requires g.Formed() && |disk| == g.size
  {
    set b: nat | b < g.size && Used(g, disk, b)
  }

  /** The bitmap block of `b` with the bit of `b` set, or cleared. */
  function Marked(g: Geometry, disk: Disk, b: nat, used: bool): Block
    requires g.Formed() && |disk| == g.size && b < g.size
  {
    var w := Word(disk[BitmapBlock(g, b)], BitmapWord(b));
    Pow2Of32();
    BitWidth(w, b % 32, 32);
    PutWord(disk[BitmapBlock(g, b)], BitmapWord(b),
            if used then SetBit(w, b % 32) else ClearBit(w, b % 32))
  }

  /** Block numbers and bit positions are in one-to-one correspondence. */
  lemma BitPosition(b: nat, c: nat)
    ensures b / BPB == c / BPB && BitmapWord(b) == BitmapWord(c) && b % 32 == c % 32 ==> b == c
  {
    FromPosition(b);
    FromPosition(c);
  }

  lemma FromPosition(b: nat)
    ensures b == b / BPB * BPB + BitmapWord(b) * 32 + b % 32
  {
    var q, r := b / BPB, b % BPB;
    assert b == 32 * (256 * q + r / 32) + r % 32;
  }

  /** Marking a block changes exactly one bit of the free map. */
  lemma MarkedUsed(g: Geometry, disk: Disk, b: nat, used: bool, c: nat)
    requires g.Formed() && |disk| == g.size && b < g.size && c < g.size
    ensures Used(g, disk[BitmapBlock(g, b) := Marked(g, disk, b, used)], c)
         == if c == b then used else Used(g, disk, c)
  {
    hide Bit, SetBit, ClearBit, Word, PutWord, BitmapWord, Pow2;
    BitmapInRange(g, b);
    BitmapInRange(g, c);
    BitPosition(b, c);
    var blk := disk[BitmapBlock(g, b)];
    var w := Word(blk, BitmapWord(b));
    Pow2Of32();
    BitWidth(w, b % 32, 32);
    var w' := if used then SetBit(w, b % 32) else ClearBit(w, b % 32);
    WordPut(blk, BitmapWord(b), w', BitmapWord(c));
    BitSet(w, b % 32, c % 32);
    BitClear(w, b % 32, c % 32);
  }

  /** A write outside the bitmap leaves the free map alone. */
  lemma UsedFrame(g: Geometry, disk: Disk, disk': Disk)
    requires g.Formed() && |disk| == |disk'| == g.size
    requires forall b :: g.bmapstart <= b < g.DataStart() ==> disk'[b] == disk[b]
    ensures forall b: nat :: b < g.size ==> Used(g, disk', b) == Used(g, disk, b)
    ensures UsedSet(g, disk') == UsedSet(g, disk)
  {
    forall b: nat | b < g.size
      ensures Used(g, disk', b) == Used(g, disk, b)
    {
      BitmapInRange(g, b);
    }
  }

  /** The disk is as the last write left it, or nothing has been written. */
  predicate Logged(v: Vol, v': Vol) {
    v'.disk == if |v.trace| < |v'.trace| then v'.trace[|v'.trace| - 1] else v.disk
  }

  /** The disk as it was before the last write. */
  function BeforeLast(v: Vol, v': Vol): Disk {
    if |v.trace| + 2 <= |v'.trace| then v'.trace[|v'.trace| - 2] else v.disk
  }

  /** Superblock, log and inode region are the same. */
  ghost predicate SameTable(g: Geometry, disk: Disk, disk': Disk) {
    && |disk| == |disk'| == g.size && g.bmapstart <= g.size
    && forall b :: 0 <= b < g.bmapstart ==> disk'[b] == disk[b]
  }

  class Volume {
    const g: Geometry
    var disk: Disk
    var hint: nat
    ghost var trace: seq<Disk>

    constructor (g: Geometry, disk: Disk, hint: nat)
      ensures this.g == g && V() == Vol(g, disk, hint, [])
    {
      this.g, this.disk, this.hint, this.trace := g, disk, hint, [];
    }

    ghost function V(): Vol
      reads this
    {
      Vol(g, disk, hint, trace)
    }

    /** Store a buffer and flush it. */
    method Write(b: nat, blk: Block)
      requires b < |disk|
      modifies this`disk, this`trace
      ensures V() == old(V()).Put(b, blk)
    {
      disk := disk[b := blk];
      trace := trace + [disk];
    }
  }
}
