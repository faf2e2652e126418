/** The block allocator (balloc.c): circular first fit over the free bitmap. */
module Allocator {
  import opened Layout
  import opened Bytes
  import opened Volumes

  // ----- specification -----

  /** The first clear bit at or after `lo`, or `hi` if there is none before it. */
  function FirstClear(g: Geometry, disk: Disk, lo: nat, hi: nat): (r: nat)
    requires g.Formed() && |disk| == g.size && lo <= hi <= g.size
    ensures lo <= r <= hi
    decreases hi - lo
  {
    if lo == hi || !Used(g, disk, lo) then lo else FirstClear(g, disk, lo + 1, hi)
  }

  lemma {:induction false} FirstClearIsFirst(g: Geometry, disk: Disk, lo: nat, hi: nat)
    requires g.Formed() && |disk| == g.size && lo <= hi <= g.size
    ensures forall b: nat :: lo <= b < FirstClear(g, disk, lo, hi) ==> Used(g, disk, b)
    ensures FirstClear(g, disk, lo, hi) < hi ==> !Used(g, disk, FirstClear(g, disk, lo, hi))
    decreases hi - lo
  {
    hide Used;
    if lo >= hi || !Used(g, disk, lo) {
    } else {
      FirstClearIsFirst(g, disk, lo + 1, hi);
    }
  }

  /** The block the allocator will hand out next; 0 when the volume is full. */
  function Pick(v: Vol): (b: uint)
    requires v.Ok()
    ensures b == 0 || v.g.IsData(b)
  {
    if v.hint < v.g.size && FirstClear(v.g, v.disk, v.hint, v.g.size) < v.g.size then
      FirstClear(v.g, v.disk, v.hint, v.g.size)
    else if v.g.DataStart() < v.hint && FirstClear(v.g, v.disk, v.g.DataStart(), v.hint) < v.hint then
      FirstClear(v.g, v.disk, v.g.DataStart(), v.hint)
    else
      0
  }

  /** The volume after `Pick(v)` is zeroed, then marked, in that order. */
  function Take(v: Vol, b: nat): (v': Vol)
    requires v.Sized() && v.g.IsData(b)
    ensures v'.Sized() && v'.g == v.g
    ensures v.Ok() ==> v'.Ok()
  {
    var v1 := v.Put(b, ZeroBlock());
    var v2 := v1.Put(BitmapBlock(v.g, b), Marked(v.g, v.disk, b, true));
    v2.(hint := if b + 1 >= v.g.size then v.g.DataStart() else b + 1)
  }

  /** `xv6_balloc`. */
  function Balloc(v: Vol): (v': Vol)
    requires v.Ok()
    ensures v'.Ok() && v'.g == v.g
  {
    if Pick(v) == 0 then v else Take(v, Pick(v))
  }

  /** How far `b` is from the hint when walking the data region in a circle. */
  function CircularIndex(v: Vol, b: nat): int {
    if v.hint <= b then b - v.hint else b - v.g.DataStart() + v.g.size - v.hint
  }

  lemma PickSound(v: Vol)
    requires v.Ok()
    ensures Pick(v) != 0 ==> v.g.IsData(Pick(v)) && !Used(v.g, v.disk, Pick(v))
  {
    FirstClearIsFirst(v.g, v.disk, v.hint, v.g.size);
    FirstClearIsFirst(v.g, v.disk, v.g.DataStart(), v.hint);
  }

  /** Circular first fit, sound and complete: the pick is a clear data block, all
      data blocks met earlier in hint order are in use, and 0 means full. */
  lemma PickFirstFit(v: Vol)
    requires v.Ok()
    ensures Pick(v) == 0 <==> forall b: nat :: v.g.IsData(b) ==> Used(v.g, v.disk, b)
    ensures Pick(v) != 0 ==>
      && v.g.IsData(Pick(v)) && !Used(v.g, v.disk, Pick(v))
      && forall b: nat :: v.g.IsData(b) && CircularIndex(v, b) < CircularIndex(v, Pick(v))
           ==> Used(v.g, v.disk, b)
  {
    FirstClearIsFirst(v.g, v.disk, v.hint, v.g.size);
    FirstClearIsFirst(v.g, v.disk, v.g.DataStart(), v.hint);
  }

  /** Allocation changes exactly one bit of the free map, zeroes exactly that
      block, touches no other data block, and first makes the zeroes durable. */
  lemma TakeEffect(v: Vol, b: nat)
    requires v.Ok() && v.g.IsData(b) && !Used(v.g, v.disk, b)
    ensures UsedSet(v.g, Take(v, b).disk) == UsedSet(v.g, v.disk) + {b}
    ensures Take(v, b).disk[b] == ZeroBlock()
    ensures forall c :: v.g.IsData(c) && c != b ==> Take(v, b).disk[c] == v.disk[c]
    ensures forall c :: 0 <= c < v.g.bmapstart ==> Take(v, b).disk[c] == v.disk[c]
    ensures Take(v, b).trace == v.trace + [v.disk[b := ZeroBlock()], Take(v, b).disk]
  {
    var d1 := v.disk[b := ZeroBlock()];
    UsedFrame(v.g, v.disk, d1);
    BitmapInRange(v.g, b);
    assert Marked(v.g, d1, b, true) == Marked(v.g, v.disk, b, true);
    forall c: nat | c < v.g.size
      ensures Used(v.g, Take(v, b).disk, c) == (c == b || Used(v.g, v.disk, c))
    {
      MarkedUsed(v.g, d1, b, true, c);
    }
  }

  /** The hint rotates: the next search comes to the block just handed out last of
      all, so a block is not reused before the search has gone round. */
  lemma HintRotates(v: Vol, b: nat)
    requires v.Ok() && v.g.IsData(b)
    ensures forall c: nat :: v.g.IsData(c) ==> CircularIndex(Take(v, b), c) <= CircularIndex(Take(v, b), b)
    ensures forall c: nat :: v.g.IsData(c) ==> 0 <= CircularIndex(Take(v, b), c)
  {
    hide Marked;
  }

  // ----- when the scan terminates -----

  /** End of one pass of the inner loop: the offset rounded up to a bitmap block
      in 32-bit arithmetic, capped by `end`. An aligned offset rounds to itself. */
  function IterEnd(alloc: nat, end: nat): nat {
    Min((alloc + BPB - 1) % U32 / BPB * BPB, end)
  }

  /** The first bitmap-block boundary above `b`. */
  function NextBoundary(b: nat): nat { (b / BPB + 1) * BPB }

  lemma IterEndValue(alloc: nat, end: nat)
    requires alloc < end < U32
    ensures alloc % BPB == 0 || alloc + BPB - 1 >= U32 ==> IterEnd(alloc, end) <= alloc
    ensures alloc % BPB != 0 && alloc + BPB - 1 < U32 ==> IterEnd(alloc, end) == Min(NextBoundary(alloc), end) > alloc
  {}

  lemma SameBitmapBlock(start: nat, alloc: nat)
    requires start <= alloc < NextBoundary(start)
    ensures alloc / BPB == start / BPB
  {}

  /** Where `alloc` stands after one pass. */
  function Pass(g: Geometry, disk: Disk, alloc: nat, end: nat): nat
    requires g.Formed() && |disk| == g.size && alloc <= end <= g.size
  {
    if alloc < IterEnd(alloc, end) then FirstClear(g, disk, alloc, IterEnd(alloc, end)) else alloc
  }

  /** The scan stops within `n` passes. */
  predicate HaltsIn(g: Geometry, disk: Disk, alloc: nat, end: nat, n: nat)
    requires g.Formed() && |disk| == g.size && alloc <= end <= g.size
    decreases n
  {
    && n > 0
    && var a := Pass(g, disk, alloc, end);
       (a < IterEnd(alloc, end) || a >= end || HaltsIn(g, disk, a, end, n - 1))
  }

  /** What a caller of the scan has to know for it to come back. */
  predicate ScanEnds(g: Geometry, disk: Disk, start: nat, end: nat)
    requires g.Formed() && |disk| == g.size && start <= end <= g.size
  {
    && start % BPB != 0
    && start + BPB - 1 < U32
    && (end <= NextBoundary(start) || FirstClear(g, disk, start, NextBoundary(start)) < NextBoundary(start))
  }

  lemma {:induction false} StuckForever(g: Geometry, disk: Disk, alloc: nat, end: nat, n: nat)
    requires g.Formed() && |disk| == g.size && alloc < end <= g.size
    requires alloc % BPB == 0 || alloc + BPB - 1 >= U32
    ensures !HaltsIn(g, disk, alloc, end, n)
    decreases n
  {
    hide FirstClear;
    IterEndValue(alloc, end);
    if n == 0 {
    } else {
      assert Pass(g, disk, alloc, end) == alloc;
      StuckForever(g, disk, alloc, end, n - 1);
    }
  }

  ghost predicate Halts(g: Geometry, disk: Disk, start: nat, end: nat)
    requires g.Formed() && |disk| == g.size && start <= end <= g.size
  {
    exists n: nat :: HaltsIn(g, disk, start, end, n)
  }

  /** Where the scan stands when it stops, or after `n` passes. */
  function StopsAt(g: Geometry, disk: Disk, alloc: nat, end: nat, n: nat): nat
    requires g.Formed() && |disk| == g.size && alloc <= end <= g.size
    decreases n
  {
    if n == 0 then alloc
    else
      var a := Pass(g, disk, alloc, end);
      if a < IterEnd(alloc, end) || a >= end then a else StopsAt(g, disk, a, end, n - 1)
  }

  /** A scan that stops does so in its first pass, at the first clear bit. */
  lemma OnePassHalts(g: Geometry, disk: Disk, start: nat, end: nat, n: nat)
    requires g.Formed() && |disk| == g.size && start < end <= g.size && n > 0
    requires ScanEnds(g, disk, start, end)
    ensures HaltsIn(g, disk, start, end, n) && StopsAt(g, disk, start, end, n) == FirstClear(g, disk, start, end)
  {
    hide FirstClear, NextBoundary;
    IterEndValue(start, end);
    FirstClearExtends(g, disk, start, IterEnd(start, end), end);
  }

  lemma NeverHalts(g: Geometry, disk: Disk, start: nat, end: nat, n: nat)
    requires g.Formed() && |disk| == g.size && start < end <= g.size
    requires !ScanEnds(g, disk, start, end)
    ensures !HaltsIn(g, disk, start, end, n)
  {
    if start % BPB == 0 || start + BPB - 1 >= U32 {
      StuckForever(g, disk, start, end, n);
    } else if n > 0 {
      IterEndValue(start, end);
      var a := NextBoundary(start);
      assert Pass(g, disk, start, end) == a == IterEnd(start, end) < end;
      StuckForever(g, disk, a, end, n - 1);
    }
  }

  /** The scan of a nonempty range comes back exactly when its start is not the
      first block of a bitmap block, rounding up does not overflow, and a clear
      bit or the end of the range comes before the next bitmap block. */
  lemma ScanTermination(g: Geometry, disk: Disk, start: nat, end: nat)
    requires g.Formed() && |disk| == g.size && start < end <= g.size
    ensures Halts(g, disk, start, end) <==> ScanEnds(g, disk, start, end)
  {
    if ScanEnds(g, disk, start, end) {
      OnePassHalts(g, disk, start, end, 1);
    } else {
      forall n: nat ensures !HaltsIn(g, disk, start, end, n) {
        NeverHalts(g, disk, start, end, n);
      }
    }
  }

  /** A clear bit before `mid` is the first one before any later bound too. */
  lemma FirstClearExtends(g: Geometry, disk: Disk, lo: nat, mid: nat, hi: nat)
    requires g.Formed() && |disk| == g.size && lo <= mid <= hi <= g.size
    ensures FirstClear(g, disk, lo, mid) < mid ==> FirstClear(g, disk, lo, hi) == FirstClear(g, disk, lo, mid)
    decreases mid - lo
  {}

  /** The whole search comes back. */
  predicate BallocEnds(v: Vol)
    requires v.Ok()
  {
    && (v.hint < v.g.size ==> ScanEnds(v.g, v.disk, v.hint, v.g.size))
    && ((v.hint < v.g.size ==> FirstClear(v.g, v.disk, v.hint, v.g.size) == v.g.size) && v.g.DataStart() < v.hint
        ==> ScanEnds(v.g, v.disk, v.g.DataStart(), v.hint))
  }

  /** Neither range of the search takes more than `n` passes; the second is only looked
      at if the first has nothing. */
  predicate SearchIn(v: Vol, n: nat)
    requires v.Ok()
  {
    && (v.hint < v.g.size ==> HaltsIn(v.g, v.disk, v.hint, v.g.size, n))
    && ((v.hint < v.g.size ==> StopsAt(v.g, v.disk, v.hint, v.g.size, n) == v.g.size) && v.g.DataStart() < v.hint
        ==> HaltsIn(v.g, v.disk, v.g.DataStart(), v.hint, n))
  }

  /** The search for a block comes back exactly when `BallocEnds` says so. */
  lemma SearchTermination(v: Vol)
    requires v.Ok()
    ensures (exists n: nat :: SearchIn(v, n)) <==> BallocEnds(v)
  {
    hide FirstClear, ScanEnds, HaltsIn, StopsAt;
    var g, lo := v.g, v.g.DataStart();
    if v.hint < g.size { ScanTermination(g, v.disk, v.hint, g.size); }
    if lo < v.hint { ScanTermination(g, v.disk, lo, v.hint); }
    if BallocEnds(v) {
      OncePerRange(v, 1);
      assert SearchIn(v, 1);
    }
    if n: nat :| SearchIn(v, n) {
      NeedsPass(v);
      if n > 0 { OncePerRange(v, n); }
    }
  }

  lemma NeedsPass(v: Vol)
    requires v.Ok()
    ensures !HaltsIn(v.g, v.disk, v.hint, v.g.size, 0) && !HaltsIn(v.g, v.disk, v.g.DataStart(), v.hint, 0)
  {}

  /** What `n` passes over each range do, if they end at all. */
  lemma OncePerRange(v: Vol, n: nat)
    requires v.Ok() && n > 0
    ensures v.hint < v.g.size && ScanEnds(v.g, v.disk, v.hint, v.g.size) ==>
      && HaltsIn(v.g, v.disk, v.hint, v.g.size, n)
      && StopsAt(v.g, v.disk, v.hint, v.g.size, n) == FirstClear(v.g, v.disk, v.hint, v.g.size)
    ensures v.g.DataStart() < v.hint && ScanEnds(v.g, v.disk, v.g.DataStart(), v.hint) ==>
      HaltsIn(v.g, v.disk, v.g.DataStart(), v.hint, n)
  {
    hide FirstClear, ScanEnds, HaltsIn, StopsAt;
    if v.hint < v.g.size && ScanEnds(v.g, v.disk, v.hint, v.g.size) {
      OnePassHalts(v.g, v.disk, v.hint, v.g.size, n);
    }
    if v.g.DataStart() < v.hint && ScanEnds(v.g, v.disk, v.g.DataStart(), v.hint) {
      OnePassHalts(v.g, v.disk, v.g.DataStart(), v.hint, n);
    }
  }

  /** With a single bitmap block's worth of blocks, as every image the builder
      makes has, the search always comes back. */
  lemma SmallVolumeEnds(v: Vol)
    requires v.Ok() && v.g.size <= BPB
    ensures BallocEnds(v)
  {
    hide FirstClear, Used;
    assert 0 < v.g.DataStart() <= v.hint;
    assert v.hint < v.g.size ==> NextBoundary(v.hint) == BPB;
    assert v.g.DataStart() < v.g.size ==> NextBoundary(v.g.DataStart()) == BPB;
  }

  // ----- implementation -----

  method Bzero(vol: Volume, block: nat)
    requires block < |vol.disk|
    modifies vol`disk, vol`trace
    ensures vol.V() == old(vol.V()).Put(block, ZeroBlock())
  {
    vol.Write(block, ZeroBlock());
  }

  /** Zero a clear block, then set its bit and move the hint past it. */
  method Claim(vol: Volume, alloc: nat)
    requires vol.V().Ok() && vol.g.IsData(alloc)
    modifies vol
    ensures vol.V() == Take(old(vol.V()), alloc).(hint := alloc + 1)
  {
    var bitblock := alloc / BPB + vol.g.bmapstart;
    BitmapInRange(vol.g, alloc);
    var buf := Marked(vol.g, vol.disk, alloc, true);
    Bzero(vol, alloc);
    vol.Write(bitblock, buf);
    vol.hint := alloc + 1;
  }

  /** One pass of the scan, within the bitmap block of `start`: stop at the
      first clear bit and claim it, or stop at `iterEnd`. */
  method BallocPass(vol: Volume, start: nat, iterEnd: nat) returns (alloc: nat, succ: bool)
    requires vol.V().Ok() && vol.g.DataStart() <= start < iterEnd <= vol.g.size
    requires iterEnd <= NextBoundary(start)
    modifies vol
    ensures alloc == FirstClear(vol.g, old(vol.disk), start, iterEnd)
    ensures succ <==> alloc < iterEnd
    ensures vol.V() == if succ then Take(old(vol.V()), alloc).(hint := alloc + 1) else old(vol.V())
  {
    hide Take, Marked, NextBoundary, BitmapBlocks, UsedSet, Bit, Word;
    BitmapInRange(vol.g, start);
    var bitblock := start / BPB + vol.g.bmapstart;
    alloc, succ := start, false;
    while alloc < iterEnd
      invariant start <= alloc <= iterEnd
      invariant !succ && vol.V() == old(vol.V())
      invariant FirstClear(vol.g, vol.disk, start, iterEnd) == FirstClear(vol.g, vol.disk, alloc, iterEnd)
    {
      SameBitmapBlock(start, alloc);
      if !Bit(Word(vol.disk[bitblock], alloc % BPB / 32), alloc % 32) {
        Claim(vol, alloc);
        succ := true;
        return;
      }
      alloc := alloc + 1;
    }
  }

  /** `xv6_balloc_rng`: scan [start, end), one bitmap block a pass. */
  method BallocRange(vol: Volume, start: nat, end: nat) returns (block: uint)
    requires vol.V().Ok() && vol.g.DataStart() <= start < end <= vol.g.size
    requires ScanEnds(vol.g, vol.disk, start, end)
    modifies vol
    ensures block == 0 <==> FirstClear(vol.g, old(vol.disk), start, end) == end
    ensures block == 0 ==> vol.V() == old(vol.V())
    ensures block != 0 ==> block == FirstClear(vol.g, old(vol.disk), start, end)
    ensures block != 0 ==> vol.V() == Take(old(vol.V()), block).(hint := block + 1)
  {
    hide Take, NextBoundary, FirstClear, Used;
    block := 0;
    var alloc, again := start, true;
    IterEndValue(start, end);
    ghost var mid := Min(NextBoundary(start), end);
    FirstClearExtends(vol.g, vol.disk, start, mid, end);
    while again
      invariant again ==> alloc == start && block == 0
      invariant block == 0 ==> vol.V() == old(vol.V())
      invariant !again && block == 0 ==> mid == end == FirstClear(vol.g, old(vol.disk), start, mid)
      invariant block != 0 ==> block == FirstClear(vol.g, old(vol.disk), start, mid) < mid
      invariant block != 0 ==> vol.V() == Take(old(vol.V()), block).(hint := block + 1)
      decreases again
    {
      var iterEnd := Min((alloc + BPB - 1) % U32 / BPB * BPB, end);
      var succ := false;
      if alloc < iterEnd {
        alloc, succ := BallocPass(vol, alloc, iterEnd);
        if succ {
          block := alloc;
        }
      }
      again := !succ && alloc < end;
    }
  }

  /** `xv6_balloc`: search from the hint to the end, then from the first data
      block to the hint. */
  method BallocBlock(vol: Volume) returns (block: uint)
    requires vol.V().Ok() && BallocEnds(vol.V())
    modifies vol
    ensures block == Pick(old(vol.V()))
    ensures vol.V() == Balloc(old(vol.V()))
  {
    block := 0;
    var dataStart := vol.g.DataStart();
    var dataEnd := vol.g.size;
    var hint := vol.hint;
    if hint < dataEnd {
      block := BallocRange(vol, hint, dataEnd);
      if block != 0 {
        hint := vol.hint;
        vol.hint := if hint >= dataEnd then dataStart else hint;
        return;
      }
    }
    if dataStart < hint {
      block := BallocRange(vol, dataStart, hint);
      if block != 0 {
        hint := vol.hint;
        vol.hint := if hint >= dataEnd then dataStart else hint;
        return;
      }
    }
  }

  // ----- freeing -----

  /** `xv6_bfree` on a data block. Freeing a free block only warns. */
  function Bfree(v: Vol, b: nat): (v': Vol)
    requires v.Sized() && v.g.IsData(b)
    ensures v'.Sized() && v'.g == v.g && v'.hint == v.hint
  {
    if !Used(v.g, v.disk, b) then v
    else v.Put(BitmapBlock(v.g, b), Marked(v.g, v.disk, b, false))
  }

  /** Freeing clears exactly one bit, leaves every block outside the bitmap
      alone, and writes only if the block was in use. */
  lemma BfreeEffect(v: Vol, b: nat)
    requires v.Sized() && v.g.IsData(b)
    ensures UsedSet(v.g, Bfree(v, b).disk) == UsedSet(v.g, v.disk) - {b}
    ensures forall c :: v.g.IsData(c) || 0 <= c < v.g.bmapstart ==> Bfree(v, b).disk[c] == v.disk[c]
    ensures |Bfree(v, b).trace| == |v.trace| + if b in UsedSet(v.g, v.disk) then 1 else 0
  {
    BitmapInRange(v.g, b);
    if Used(v.g, v.disk, b) {
      forall c: nat | c < v.g.size
        ensures Used(v.g, Bfree(v, b).disk, c) == (c != b && Used(v.g, v.disk, c))
      {
        MarkedUsed(v.g, v.disk, b, false, c);
      }
    }
  }

  /** `xv6_bfree_unsafe`; the requires is its two range assertions. */
  method BfreeBlock(vol: Volume, block: nat)
    requires vol.V().Sized() && vol.g.IsData(block)
    modifies vol`disk, vol`trace
    ensures vol.V() == Bfree(old(vol.V()), block)
  {
    var bitmapBlock := block / BPB + vol.g.bmapstart;
    BitmapInRange(vol.g, block);
    if !Bit(Word(vol.disk[bitmapBlock], block % BPB / 32), block % 32) {
      return;
    }
    vol.Write(bitmapBlock, Marked(vol.g, vol.disk, block, false));
  }
}
