/** How far a write gets: to the end exactly when the block map reaches it and the
    blocks the file does not have yet are there to be allocated. */
module WriteRoom {
  import opened Layout
  import opened Bytes
  import opened Volumes
  import opened BlockMap
  import opened Space
  import opened Inodes
  import opened FileData

  /** How many of the blocks [i, j) a file does not have. */
  function Holes(disk: Disk, a: Addrs, i: nat, j: nat): nat
    requires j <= MAXFILE
    decreases j - i
  {
    if i >= j then 0 else (if FileBlock(disk, a, i) == 0 then 1 else 0) + Holes(disk, a, i + 1, j)
  }

  /** How many blocks it takes for a file to have all of [i, j). */
  function Missing(disk: Disk, a: Addrs, i: nat, j: nat): nat
    requires j <= MAXFILE
  {
    Holes(disk, a, i, j) + if i < j && j > NDIRECT && a[ROOT] == 0 then 1 else 0
  }

  /** One past the last block that `len` bytes at `q` lie in. */
  function BlockEnd(q: nat, len: nat): nat { (q + len + BSIZE - 1) / BSIZE }

  /** What a write of `len` bytes at `q` comes back with. */
  function WriteSupply(v: Vol, a: Addrs, q: nat, len: nat): Errno
    requires v.Sized()
  {
    if len == 0 then OK
    else if Missing(v.disk, a, q / BSIZE, Min(BlockEnd(q, len), MAXFILE)) > ClearCount(v) then ENOSPC
    else if BlockEnd(q, len) > MAXFILE then EFBIG
    else OK
  }

  /** How many bytes are stored: all; or as far as the block map reaches; or up to
      the first block that cannot be had. */
  ghost predicate StoredTo(v: Vol, a: Addrs, q: nat, len: nat, count: nat, err: Errno)
    requires v.Sized()
  {
    && (err == OK ==> count == len)
    && (err == EFBIG ==> count == Max(0, MAXBYTES - q))
    && (err == ENOSPC ==>
          var i, k := q / BSIZE, (q + count) / BSIZE;
          && i <= k < MAXFILE && (count == 0 || (q + count) % BSIZE == 0)
          && Missing(v.disk, a, i, k) <= ClearCount(v) < Missing(v.disk, a, i, k + 1))
  }

  /** The first block from `k` on that cannot be had, on the way from block `i`. */
  function FirstShort(disk: Disk, a: Addrs, i: nat, k: nat, clear: nat): (r: nat)
    ensures r >= k
    decreases MAXFILE - k
  {
    if k >= MAXFILE || Missing(disk, a, i, k + 1) > clear then k else FirstShort(disk, a, i, k + 1, clear)
  }

  function Left(q: nat, end: nat): nat { if q < end then end - q else 0 }

  /** How many bytes of `len` at `q` a write stores, by the state before it. */
  function Stored(v: Vol, a: Addrs, q: nat, len: nat): nat
    requires v.Sized()
  {
    var end := FirstShort(v.disk, a, q / BSIZE, q / BSIZE, ClearCount(v)) * BSIZE;
    if WriteSupply(v, a, q, len) == OK then len
    else if WriteSupply(v, a, q, len) == EFBIG then Left(q, MAXBYTES)
    else Left(q, end)
  }

  lemma {:induction false} HolesMore(disk: Disk, a: Addrs, i: nat, j: nat, k: nat)
    requires j <= k <= MAXFILE
    ensures Holes(disk, a, i, j) <= Holes(disk, a, i, k)
    decreases k - i
  {
    hide FileBlock;
    if i >= k {
    } else {
      HolesMore(disk, a, i + 1, j, k);
    }
  }

  /** Where the store stops is the first block that cannot be had. */
  lemma {:induction false} FirstShortIs(disk: Disk, a: Addrs, i: nat, m: nat, clear: nat, k: nat)
    requires i <= m <= k < MAXFILE && Missing(disk, a, i, k) <= clear < Missing(disk, a, i, k + 1)
    ensures FirstShort(disk, a, i, m, clear) == k
    decreases k - m
  {
    hide FileBlock, Holes;
    if m == k {
    } else {
      HolesMore(disk, a, i, m + 1, k);
      FirstShortIs(disk, a, i, m + 1, clear, k);
    }
  }

  lemma StoredIs(v: Vol, a: Addrs, q: nat, len: nat, count: nat)
    requires v.Sized() && StoredTo(v, a, q, len, count, WriteSupply(v, a, q, len))
    ensures count == Stored(v, a, q, len)
  {
    hide Missing, ClearCount, FirstShort;
    var i, k := q / BSIZE, (q + count) / BSIZE;
    if WriteSupply(v, a, q, len) == ENOSPC {
      FirstShortIs(v.disk, a, i, i, ClearCount(v), k);
    }
  }

  lemma {:induction false} HolesSame(disk: Disk, a: Addrs, disk': Disk, a': Addrs, i: nat, j: nat)
    requires j <= MAXFILE
    requires forall m: nat :: i <= m < j ==> FileBlock(disk', a', m) == FileBlock(disk, a, m)
    ensures Holes(disk', a', i, j) == Holes(disk, a, i, j)
    decreases j - i
  {
    hide FileBlock;
    if i >= j {
    } else {
      HolesSame(disk, a, disk', a', i + 1, j);
    }
  }

  /** Having got block `i`, the rest needs that much less. */
  lemma MissingStep(disk: Disk, a: Addrs, disk': Disk, a': Addrs, i: nat, j: nat)
    requires i < j <= MAXFILE
    requires a'[ROOT] != 0 <==> a[ROOT] != 0 || i >= NDIRECT
    requires forall m: nat :: m < MAXFILE && m != i ==> FileBlock(disk', a', m) == FileBlock(disk, a, m)
    ensures Missing(disk, a, i, j) == Cost(disk, a, i) + Missing(disk', a', i + 1, j)
  {
    HolesSame(disk, a, disk', a', i + 1, j);
    if i >= NDIRECT && a[ROOT] == 0 { NoRootNoBlock(disk, a, i); }
    hide FileBlock;
  }

  lemma MissingOne(disk: Disk, a: Addrs, i: nat)
    requires i < MAXFILE
    ensures Missing(disk, a, i, i) == 0 && Missing(disk, a, i, i + 1) == Cost(disk, a, i)
    ensures forall j: nat :: i < j <= MAXFILE ==> Missing(disk, a, i, j) >= Cost(disk, a, i)
  {
    if i >= NDIRECT && a[ROOT] == 0 { NoRootNoBlock(disk, a, i); }
    hide FileBlock;
    assert Holes(disk, a, i + 1, i + 1) == 0;
  }

  /** The volume after one turn of the write loop. */
  ghost predicate TurnSpent(v: Vol, a: Addrs, v1: Vol, a1: Addrs, i: nat) {
    && i < MAXFILE && v.Sized() && v1.Sized()
    && Cost(v.disk, a, i) <= ClearCount(v) && ClearCount(v1) == ClearCount(v) - Cost(v.disk, a, i)
    && (a1[ROOT] != 0 <==> a[ROOT] != 0 || i >= NDIRECT)
    && forall j: nat :: j < MAXFILE && j != i ==> FileBlock(v1.disk, a1, j) == FileBlock(v.disk, a, j)
  }

  lemma ChunkSpent(v: Vol, files: Files, f: nat, n: Node, block: nat, boff: nat, chunk: seq<byte>)
    requires SoundVol(v, files) && f in files && files[f] == n.addrs
    requires boff + |chunk| <= BSIZE && WriteBlock(v, n, block).err == OK
    ensures var w := WriteBlock(v, n, block);
      TurnSpent(v, n.addrs, w.v.Put(w.blockno, Blit(w.v.disk[w.blockno], boff, chunk)), w.n.addrs, block)
  {
    hide WriteBlock, InodeAddr, Slot, ByteAt, UsedSet, Used, FileBlock, ClearBlocks, Blit;
    WriteBlockKeeps(v, files, f, n, block);
    InodeAddrExact(v, files, f, false, block);
    var w := WriteBlock(v, n, block);
    var blk := Blit(w.v.disk[w.blockno], boff, chunk);
    var v1, files1 := w.v.Put(w.blockno, blk), files[f := w.n.addrs];
    DataWrite(w.v.disk, v.g.DataStart(), UsedSet(v.g, w.v.disk), files1, f, block, blk);
    DataPutUsed(w.v, w.blockno, blk);
    ClearSame(w.v, v1);
    assert SameSlots(w.v.disk, v1.disk, files1[f]);
    SameBlocks(w.v.disk, v1.disk, w.n.addrs);
  }

  lemma FirstFails(v: Vol, files: Files, f: nat, n: Node, block: nat, boff: nat, len: nat)
    requires SoundVol(v, files) && f in files && files[f] == n.addrs && boff < BSIZE && len > 0
    requires WriteBlock(v, n, block).err != OK
    ensures var q := block * BSIZE + boff;
      && WriteBlock(v, n, block).err == WriteSupply(v, n.addrs, q, len)
      && StoredTo(v, n.addrs, q, len, 0, WriteBlock(v, n, block).err)
  {
    hide WriteBlock, InodeAddr, UsedSet, Used, ClearBlocks, Keeps, Missing, Cost;
    WriteBlockKeeps(v, files, f, n, block);
    InodeAddrExact(v, files, f, false, block);
    assert (block * BSIZE + boff) / BSIZE == block;
    if block < MAXFILE {
      MissingOne(v.disk, n.addrs, block);
    } else {
      assert Missing(v.disk, n.addrs, block, MAXFILE) == 0 by { MissingNone(v.disk, n.addrs, block); }
    }
  }

  lemma MissingNone(disk: Disk, a: Addrs, i: nat)
    requires i >= MAXFILE
    ensures Missing(disk, a, i, MAXFILE) == 0
  {}

  /** A first block that was had, and a rest that went as far as it could. */
  lemma StoredStep(v: Vol, a: Addrs, v1: Vol, a1: Addrs, block: nat, boff: nat, len: nat, m: nat, count: nat,
      err: Errno)
    requires TurnSpent(v, a, v1, a1, block) && boff < BSIZE && m == Min(BSIZE - boff, len) && len > 0
    requires err == WriteSupply(v1, a1, (block + 1) * BSIZE, len - m)
    requires StoredTo(v1, a1, (block + 1) * BSIZE, len - m, count, err)
    ensures err == WriteSupply(v, a, block * BSIZE + boff, len)
    ensures StoredTo(v, a, block * BSIZE + boff, len, m + count, err)
  {
    hide Missing, Cost, ClearBlocks, FileBlock, Vol.Sized;
    var q, q' := block * BSIZE + boff, (block + 1) * BSIZE;
    assert q / BSIZE == block && q' / BSIZE == block + 1;
    forall j: nat | block < j <= MAXFILE
      ensures Missing(v.disk, a, block, j) == Cost(v.disk, a, block) + Missing(v1.disk, a1, block + 1, j)
    {
      MissingStep(v.disk, a, v1.disk, a1, block, j);
    }
    if len == m {
      MissingOne(v.disk, a, block);
      assert BlockEnd(q, len) == block + 1;
    } else {
      assert q + len == q' + (len - m);
    }
  }

  /** A write stores all its bytes exactly when the block map reaches them and the
      blocks missing are there; otherwise it stores as far as the block map reaches,
      or up to the first block that cannot be had. */
  lemma {:induction false} WriteLoopExact(v: Vol, files: Files, f: nat, n: Node, block: nat, boff: nat, buf: seq<byte>)
    requires SoundVol(v, files) && f in files && files[f] == n.addrs && boff < BSIZE
    ensures var r, q := WriteLoop(v, n, block, boff, buf), block * BSIZE + boff;
      r.err == WriteSupply(v, n.addrs, q, |buf|) && StoredTo(v, n.addrs, q, |buf|, r.count, r.err)
    decreases |buf|
  {
    hide InodeAddr, Blit, WriteBlock, Spliced, SoundVol, WriteSupply, StoredTo, TurnSpent, SameBytes;
    SoundOk(v, files);
    if buf == [] {
      StoredNone(v, n.addrs, block * BSIZE + boff);
    } else if WriteBlock(v, n, block).err != OK {
      FirstFails(v, files, f, n, block, boff, |buf|);
    } else {
      var w, m := WriteBlock(v, n, block), Min(BSIZE - boff, |buf|);
      var v1 := w.v.Put(w.blockno, Blit(w.v.disk[w.blockno], boff, buf[..m]));
      ChunkWritten(v, files, f, n, block, boff, buf[..m]);
      ChunkSpent(v, files, f, n, block, boff, buf[..m]);
      WriteLoopExact(v1, files[f := w.n.addrs], f, w.n, block + 1, 0, buf[m..]);
      var r := WriteLoop(v1, w.n, block + 1, 0, buf[m..]);
      StoredStep(v, n.addrs, v1, w.n.addrs, block, boff, |buf|, m, r.count, r.err);
    }
  }

  lemma StoredNone(v: Vol, a: Addrs, q: nat)
    requires v.Sized()
    ensures WriteSupply(v, a, q, 0) == OK && StoredTo(v, a, q, 0, 0, OK)
  {}

  /** Result and number of bytes stored are fixed by the state before the write. */
  lemma WriteExact(v: Vol, files: Files, f: nat, n: Node, cpos: nat, buf: seq<byte>)
    requires SoundVol(v, files) && f in files && files[f] == n.addrs
    ensures v.Sized()
    ensures var r, q := FileWrite(v, n, cpos, buf), EffectivePos(cpos);
      && r.err == WriteSupply(v, n.addrs, q, |buf|) && StoredTo(v, n.addrs, q, |buf|, r.count, r.err)
      && r.count == Stored(v, n.addrs, q, |buf|) <= |buf|
  {
    hide SoundVol, WriteLoop, WriteSupply, StoredTo, Stored, Wrote, SizeKept, EffectivePos;
    SoundOk(v, files);
    WriteLoopExact(v, files, f, n, cpos / BSIZE % U32, cpos % BSIZE, buf);
    EffectiveParts(cpos);
    var r := FileWrite(v, n, cpos, buf);
    StoredIs(v, n.addrs, EffectivePos(cpos), |buf|, r.count);
    WriteRefinesSplice(v, files, f, n, cpos, buf);
    WroteSplice(v, files, f, EffectivePos(cpos), buf, r);
  }

  lemma EffectiveParts(cpos: nat)
    ensures EffectivePos(cpos) == cpos / BSIZE % U32 * BSIZE + cpos % BSIZE
  {}

  /** A write is a splice of the contents, and leaves the size a splice has, under
      conditions on the state before it alone. */
  lemma WriteIsSplice(v: Vol, files: Files, f: nat, n: Node, cpos: nat, buf: seq<byte>)
    requires SoundVol(v, files) && f in files && files[f] == n.addrs
    ensures v.Sized() && Stored(v, n.addrs, EffectivePos(cpos), |buf|) <= |buf|
    ensures var r, c := FileWrite(v, n, cpos, buf), Stored(v, n.addrs, EffectivePos(cpos), |buf|);
      && r.count == c
      && (r.n.size == Max(n.size, cpos + c) <==> SizeKept(n, cpos, c))
      && (Content(r.v.disk, r.n.addrs, r.n.size) == Splice(Content(v.disk, n.addrs, n.size), cpos, buf[..c])
          <==> SizeKept(n, cpos, c) && InPlace(v.disk, n.addrs, n.size, cpos, buf[..c]))
  {
    hide SoundVol, FileWrite, WriteSupply, StoredTo, Stored, Wrote, SizeKept, EffectivePos, InPlace, Content, Splice;
    WriteExact(v, files, f, n, cpos, buf);
    WriteRefinesSplice(v, files, f, n, cpos, buf);
    WriteRefinesContent(v, files, f, n, cpos, buf);
  }
}
