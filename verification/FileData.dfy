/** Reading and writing file data (file.c) through the block map. */
module FileData {
  import opened Layout
  import opened Bytes
  import opened Volumes
  import opened Allocator
  import opened BlockMap
  import opened Inodes

  const U64 := 0x1_0000_0000_0000_0000

  /** The first byte position the block map cannot reach. */
  const MAXBYTES := 274432   // MAXFILE * BSIZE

  // ----- finding a block for writing -----

  datatype BlockResult = BlockResult(v: Vol, n: Node, blockno: uint, err: Errno)

  /** `xv6_inode_wblock`: the block is allocated if missing. The size goes
      through the 32-bit context only when the inode became dirty, and not on
      the error exits. */
  function WriteBlock(v: Vol, n: Node, i: nat): (r: BlockResult)
    requires v.Ok()
    ensures r.v.Ok() && r.v.g == v.g
    ensures r.err == OK ==> r.blockno < |r.v.disk|
  {
    var r := InodeAddr(v, n.addrs, false, i, true);
    var n1 := n.(addrs := r.addrs);
    if r.err != OK then BlockResult(r.v, n1, 0, r.err)
    else if r.blockno == 0 then BlockResult(r.v, n1, 0, ENOSPC)
    else if r.blockno >= |r.v.disk| then BlockResult(r.v, n1, 0, EIO)
    else BlockResult(r.v, if r.dirty then n1.(size := n.size % U32) else n1, r.blockno, OK)
  }

  // ----- writing -----

  datatype WriteResult = WriteResult(v: Vol, n: Node, count: nat, err: Errno)

  /** The loop of `xv6_file_write`: one block a turn, stopping at an error. */
  function WriteLoop(v: Vol, n: Node, block: nat, boff: nat, buf: seq<byte>): (r: WriteResult)
    requires v.Ok() && boff < BSIZE
    ensures r.v.Ok() && r.v.g == v.g
    decreases |buf|
  {
    if buf == [] then WriteResult(v, n, 0, OK)
    else
      var w := WriteBlock(v, n, block);
      if w.err != OK then WriteResult(w.v, w.n, 0, w.err)
      else
        var m := Min(BSIZE - boff, |buf|);
        var v1 := w.v.Put(w.blockno, Blit(w.v.disk[w.blockno], boff, buf[..m]));
        var r := WriteLoop(v1, w.n, block + 1, 0, buf[m..]);
        r.(count := m + r.count)
  }

  /** The block number is held in 32 bits, so a position is taken modulo 4 TiB. */
  function EffectivePos(pos: nat): nat {
    pos / BSIZE % U32 * BSIZE + pos % BSIZE
  }

  /** `xv6_file_write` at `cpos`, which O_APPEND sets to the size. The new size is
      the larger of the old one and the final position, also after an error. */
  function FileWrite(v: Vol, n: Node, cpos: nat, buf: seq<byte>): (r: WriteResult)
    requires v.Ok()
    ensures r.v.Ok() && r.v.g == v.g
  {
    var w := WriteLoop(v, n, cpos / BSIZE % U32, cpos % BSIZE, buf);
    w.(n := w.n.(size := Max(w.n.size, cpos + w.count)))
  }

  /** `data` has replaced the bytes from `q` on, and nothing else has changed. */
  ghost predicate Spliced(disk: Disk, a: Addrs, disk': Disk, a': Addrs, q: nat, data: seq<byte>) {
    forall p: nat :: ByteAt(disk', a', p) == if q <= p < q + |data| then data[p - q] else ByteAt(disk, a, p)
  }

  /** What writing `r.count` bytes of `buf` at `q` to file `f` leaves. */
  ghost predicate Wrote(v: Vol, files: Files, f: nat, q: nat, buf: seq<byte>, r: WriteResult) {
    && f in files && r.count <= |buf|
    && SoundVol(v, files) && r.v.g == v.g && SameTable(v.g, v.disk, r.v.disk)
    && SoundVol(r.v, files[f := r.n.addrs])
    && (forall f' :: f' in files && f' != f ==> SameBytes(v.disk, files[f'], r.v.disk, files[f']))
    && Spliced(v.disk, files[f], r.v.disk, r.n.addrs, q, buf[..r.count])
    && UsedSet(v.g, v.disk) <= UsedSet(v.g, r.v.disk)
    && (r.err == OK <==> r.count == |buf|)
    && r.err in {OK, EFBIG, ENOSPC}
    && (r.err == EFBIG ==> q + r.count >= MAXBYTES)
    && (r.err == ENOSPC ==> Pick(r.v) == 0)
    && (r.count > 0 ==> q + r.count <= MAXBYTES)
  }

  lemma WriteBlockKeeps(v: Vol, files: Files, f: nat, n: Node, i: nat)
    requires SoundVol(v, files) && f in files && files[f] == n.addrs
    ensures Keeps(v, files, f, i, true, InodeAddr(v, n.addrs, false, i, true))
    ensures var r, w := InodeAddr(v, n.addrs, false, i, true), WriteBlock(v, n, i);
      && w.v == r.v && w.n.addrs == r.addrs && w.err == r.err
      && (w.err == OK ==> i < MAXFILE && w.blockno == FileBlock(w.v.disk, w.n.addrs, i) != 0 && w.v.g.IsData(w.blockno))
  {
    InodeAddrKeeps(v, files, f, false, i, true);
    hide InodeAddr, Slot, ByteAt, UsedSet;
    var r := InodeAddr(v, n.addrs, false, i, true);
    if r.err == OK {
      var files1 := files[f := r.addrs];
      assert Slot(r.v.disk, files1[f], DataSlot(i)) == r.blockno;
    }
  }

  /** One turn of the loop: the chunk is in place, nothing else has changed. */
  lemma ChunkWritten(v: Vol, files: Files, f: nat, n: Node, block: nat, boff: nat, chunk: seq<byte>)
    requires SoundVol(v, files) && f in files && files[f] == n.addrs
    requires boff + |chunk| <= BSIZE && WriteBlock(v, n, block).err == OK
    ensures var w := WriteBlock(v, n, block);
      var v1 := w.v.Put(w.blockno, Blit(w.v.disk[w.blockno], boff, chunk));
      && block < MAXFILE
      && SoundVol(v1, files[f := w.n.addrs])
      && (forall f' :: f' in files && f' != f ==> SameBytes(v.disk, files[f'], v1.disk, files[f']))
      && Spliced(v.disk, files[f], v1.disk, w.n.addrs, block * BSIZE + boff, chunk)
      && UsedSet(v.g, v.disk) <= UsedSet(v.g, v1.disk)
      && SameTable(v.g, v.disk, v1.disk)
  {
    WriteBlockKeeps(v, files, f, n, block);
    hide WriteBlock, InodeAddr, Slot, ByteAt, UsedSet, Used, FileBlock;
    var w := WriteBlock(v, n, block);
    var files1 := files[f := w.n.addrs];
    var blk := Blit(w.v.disk[w.blockno], boff, chunk);
    var v1 := w.v.Put(w.blockno, blk);
    DataWrite(w.v.disk, v.g.DataStart(), UsedSet(v.g, w.v.disk), files1, f, block, blk);
    DataPutUsed(w.v, w.blockno, blk);
    forall f' | f' in files && f' != f ensures SameBytes(v.disk, files[f'], v1.disk, files[f']) {
      assert SameBytes(w.v.disk, files1[f'], v1.disk, files1[f']);
      assert SameBytes(v.disk, files[f'], w.v.disk, files1[f']);
    }
    assert SameBytes(v.disk, files[f], w.v.disk, files1[f]);
    ChunkBytes(v.disk, files[f], w.v.disk, v1.disk, w.n.addrs, block, boff, chunk, w.blockno);
  }

  lemma ChunkBytes(d0: Disk, a0: Addrs, d1: Disk, d2: Disk, a: Addrs, block: nat, boff: nat, chunk: seq<byte>, b: nat)
    requires block < MAXFILE && boff + |chunk| <= BSIZE && 0 < b < |d1| && b == FileBlock(d1, a, block)
    requires SameBytes(d0, a0, d1, a)
    requires forall p: nat ::
      ByteAt(d2, a, p) == if p / BSIZE == block then Blit(d1[b], boff, chunk)[p % BSIZE] else ByteAt(d1, a, p)
    ensures Spliced(d0, a0, d2, a, block * BSIZE + boff, chunk)
  {
    hide Slot, FileBlock;
    forall p: nat
      ensures ByteAt(d2, a, p)
           == if block * BSIZE + boff <= p < block * BSIZE + boff + |chunk| then chunk[p - (block * BSIZE + boff)]
              else ByteAt(d0, a0, p)
    {
      if p / BSIZE == block {
        assert p == block * BSIZE + p % BSIZE;
        assert ByteAt(d1, a, p) == d1[b][p % BSIZE];
      }
    }
  }

  /** A chunk at `q` followed by a write of the rest is a write of the whole. */
  lemma WroteStep(v: Vol, v1: Vol, files: Files, f: nat, a1: Addrs, q: nat, q': nat, buf: seq<byte>, m: nat,
      r: WriteResult)
    requires SoundVol(v, files) && f in files && v1.g == v.g && 0 < m <= |buf|
    requires q' == q + m <= MAXBYTES || (m == |buf| && q + m <= MAXBYTES)
    requires Spliced(v.disk, files[f], v1.disk, a1, q, buf[..m])
    requires forall f' :: f' in files && f' != f ==> SameBytes(v.disk, files[f'], v1.disk, files[f'])
    requires v1.Ok() && UsedSet(v.g, v.disk) <= UsedSet(v.g, v1.disk) && SameTable(v.g, v.disk, v1.disk)
    requires Wrote(v1, files[f := a1], f, q', buf[m..], r)
    ensures Wrote(v, files, f, q, buf, r.(count := m + r.count))
  {
    hide ByteAt, Slot, UsedSet, Used, Pick, Sound;
    var files1 := files[f := a1];
    assert files1[f := r.n.addrs] == files[f := r.n.addrs];
    forall f' | f' in files && f' != f ensures SameBytes(v.disk, files[f'], r.v.disk, files[f']) {
      assert f' in files1 && files1[f'] == files[f'];
      assert SameBytes(v1.disk, files1[f'], r.v.disk, files1[f']);
      assert SameBytes(v.disk, files[f'], v1.disk, files[f']);
    }
    SpliceTwice(v.disk, files[f], v1.disk, a1, r.v.disk, r.n.addrs, q, q', buf, m, r.count);
  }

  lemma SpliceTwice(d0: Disk, a0: Addrs, d1: Disk, a1: Addrs, d2: Disk, a2: Addrs, q: nat, q': nat, buf: seq<byte>,
      m: nat, c: nat)
    requires 0 < m && m + c <= |buf| && (q' == q + m || m == |buf|)
    requires Spliced(d0, a0, d1, a1, q, buf[..m])
    requires Spliced(d1, a1, d2, a2, q', buf[m..][..c])
    ensures Spliced(d0, a0, d2, a2, q, buf[..m + c])
  {
    hide ByteAt;
  }

  /** A write that fails before storing anything still leaves all bytes alone. */
  lemma WroteNothing(v: Vol, files: Files, f: nat, n: Node, block: nat, boff: nat, buf: seq<byte>)
    requires SoundVol(v, files) && f in files && files[f] == n.addrs && boff < BSIZE && buf != []
    requires WriteBlock(v, n, block).err != OK
    ensures Wrote(v, files, f, block * BSIZE + boff, buf, WriteLoop(v, n, block, boff, buf))
  {
    WriteBlockKeeps(v, files, f, n, block);
    hide Slot, ByteAt, InodeAddr, UsedSet, Used, Blit, Pick, Sound, WriteBlock;
    var w := WriteBlock(v, n, block);
    assert SameBytes(v.disk, files[f], w.v.disk, w.n.addrs);
    forall f' | f' in files && f' != f ensures SameBytes(v.disk, files[f'], w.v.disk, files[f']) {
      assert SameBytes(v.disk, files[f'], w.v.disk, files[f := w.n.addrs][f']);
    }
  }

  /** The write loop refines a splice, and interferes with nothing. */
  lemma {:induction false} WriteLoopSplices(v: Vol, files: Files, f: nat, n: Node, block: nat, boff: nat,
      buf: seq<byte>)
    requires SoundVol(v, files) && f in files && files[f] == n.addrs && boff < BSIZE
    ensures Wrote(v, files, f, block * BSIZE + boff, buf, WriteLoop(v, n, block, boff, buf))
    decreases |buf|
  {
    hide Slot, ByteAt, InodeAddr, UsedSet, Used, Blit, Pick, Sound, Wrote, Spliced, WriteBlock;
    if buf == [] {
      WroteEmpty(v, files, f, n, block * BSIZE + boff);
    } else if WriteBlock(v, n, block).err != OK {
      WroteNothing(v, files, f, n, block, boff, buf);
    } else {
      var w, m := WriteBlock(v, n, block), Min(BSIZE - boff, |buf|);
      ChunkWritten(v, files, f, n, block, boff, buf[..m]);
      var v1 := w.v.Put(w.blockno, Blit(w.v.disk[w.blockno], boff, buf[..m]));
      WriteLoopSplices(v1, files[f := w.n.addrs], f, w.n, block + 1, 0, buf[m..]);
      WroteStep(v, v1, files, f, w.n.addrs, block * BSIZE + boff, (block + 1) * BSIZE, buf, m,
                WriteLoop(v1, w.n, block + 1, 0, buf[m..]));
    }
  }

  lemma WroteEmpty(v: Vol, files: Files, f: nat, n: Node, q: nat)
    requires SoundVol(v, files) && f in files && files[f] == n.addrs
    ensures Wrote(v, files, f, q, [], WriteResult(v, n, 0, OK))
  {
    hide Slot, ByteAt;
    assert files[f := n.addrs] == files;
  }

  // ----- the size -----

  /** The cached address that block `i` hangs on is empty. */
  predicate EmptyAt(a: Addrs, i: nat) {
    i < MAXFILE && a[if i < NDIRECT then i else ROOT] == 0
  }

  /** Among the blocks that `count` bytes at `q` lie in, one hangs on an empty cached
      address: storing it leaves the context dirty. */
  ghost predicate Dirties(a: Addrs, q: nat, count: nat) {
    count > 0 && exists i: nat :: q / BSIZE <= i && i * BSIZE < q + count && EmptyAt(a, i)
  }

  lemma WriteBlockSize(v: Vol, n: Node, i: nat)
    requires v.Ok()
    ensures var w := WriteBlock(v, n, i);
      && w.n.isDir == n.isDir && w.n.nlink == n.nlink
      && w.n.size == (if w.err == OK && EmptyAt(n.addrs, i) then n.size % U32 else n.size)
      && (forall j: nat :: EmptyAt(w.n.addrs, j) ==> EmptyAt(n.addrs, j))
      && (w.err == OK && !EmptyAt(n.addrs, i) ==> w.n.addrs == n.addrs)
  {
    hide Word, Take, Pick;
  }

  /** The size goes through the 32-bit context exactly when the context is dirty. */
  lemma {:induction false} WriteLoopSize(v: Vol, n: Node, block: nat, boff: nat, buf: seq<byte>)
    requires v.Ok() && boff < BSIZE
    ensures var r := WriteLoop(v, n, block, boff, buf);
      && r.n.isDir == n.isDir && r.n.nlink == n.nlink
      && r.n.size == if Dirties(n.addrs, block * BSIZE + boff, r.count) then n.size % U32 else n.size
    decreases |buf|
  {
    hide InodeAddr, Blit, Dirties, EmptyAt, WriteBlock;
    WriteBlockSize(v, n, block);
    if buf != [] && WriteBlock(v, n, block).err == OK {
      var w, m := WriteBlock(v, n, block), Min(BSIZE - boff, |buf|);
      var v1 := w.v.Put(w.blockno, Blit(w.v.disk[w.blockno], boff, buf[..m]));
      var r := WriteLoop(v1, w.n, block + 1, 0, buf[m..]);
      WriteLoopSize(v1, w.n, block + 1, 0, buf[m..]);
      DirtiesStep(n.addrs, w.n.addrs, block, boff, m, r.count);
    } else {
      DirtiesNone(n.addrs, block * BSIZE + boff);
    }
  }

  lemma DirtiesNone(a: Addrs, q: nat)
    ensures !Dirties(a, q, 0)
  {}

  lemma DirtiesStep(a: Addrs, a': Addrs, block: nat, boff: nat, m: nat, count: nat)
    requires 0 < m <= BSIZE - boff && (count > 0 ==> boff + m == BSIZE)
    requires forall j: nat :: EmptyAt(a', j) ==> EmptyAt(a, j)
    requires !EmptyAt(a, block) ==> a' == a
    ensures EmptyAt(a, block) ==> Dirties(a, block * BSIZE + boff, m + count)
    ensures !EmptyAt(a, block) ==>
      (Dirties(a, block * BSIZE + boff, m + count) <==> Dirties(a', (block + 1) * BSIZE, count))
  {
    hide EmptyAt;
    var q := block * BSIZE + boff;
    assert q / BSIZE == block && (block + 1) * BSIZE / BSIZE == block + 1;
    if EmptyAt(a, block) {
      assert block * BSIZE < q + (m + count);
    } else if count > 0 {
      assert q + (m + count) == (block + 1) * BSIZE + count;
    }
  }

  /** The size that storing `count` bytes at `cpos` leaves is the larger of the old
      size and the final position. */
  ghost predicate SizeKept(n: Node, cpos: nat, count: nat) {
    || n.size < U32
    || cpos + count >= n.size
    || !Dirties(n.addrs, EffectivePos(cpos), count)
  }

  /** A position is its own effective position exactly below 4 TiB. */
  lemma EffectivePosExact(pos: nat)
    ensures EffectivePos(pos) == pos <==> pos < U32 * BSIZE
  {
    assert pos == pos / BSIZE * BSIZE + pos % BSIZE;
  }

  /** A write of n bytes is a splice at the effective position that interferes with
      no other file. The new size is the larger of the old one and the final position,
      even when nothing was written, exactly when the old size fits 32 bits, or is
      not past that position, or no stored block needed an address of the inode. */
  lemma WriteRefinesSplice(v: Vol, files: Files, f: nat, n: Node, cpos: nat, buf: seq<byte>)
    requires SoundVol(v, files) && f in files && files[f] == n.addrs
    ensures var r := FileWrite(v, n, cpos, buf);
      && Wrote(v, files, f, EffectivePos(cpos), buf, r)
      && r.n.size == Max(if Dirties(n.addrs, EffectivePos(cpos), r.count) then n.size % U32 else n.size, cpos + r.count)
      && (r.n.size == Max(n.size, cpos + r.count) <==> SizeKept(n, cpos, r.count))
      && r.n.size >= cpos + r.count && r.n.size <= Max(n.size, cpos + r.count)
      && r.n.isDir == n.isDir && r.n.nlink == n.nlink
  {
    hide WriteLoop, Wrote, Dirties;
    WriteLoopSplices(v, files, f, n, cpos / BSIZE % U32, cpos % BSIZE, buf);
    WriteLoopSize(v, n, cpos / BSIZE % U32, cpos % BSIZE, buf);
    var w := WriteLoop(v, n, cpos / BSIZE % U32, cpos % BSIZE, buf);
    WroteResized(v, files, f, EffectivePos(cpos), buf, w, FileWrite(v, n, cpos, buf));
  }

  lemma WroteResized(v: Vol, files: Files, f: nat, q: nat, buf: seq<byte>, w: WriteResult, r: WriteResult)
    requires Wrote(v, files, f, q, buf, w)
    requires r.v == w.v && r.n.addrs == w.n.addrs && r.count == w.count && r.err == w.err
    ensures Wrote(v, files, f, q, buf, r)
  {
    hide SoundVol, Spliced, UsedSet, Used, SameBytes, Pick;
  }

  // ----- contents -----

  /** The `m` bytes of a file from `q` on. */
  function BytesFrom(disk: Disk, a: Addrs, q: nat, m: nat): (c: seq<byte>)
    ensures |c| == m
  {
    seq<byte>(m, i requires 0 <= i => ByteAt(disk, a, q + i))
  }

  /** The contents of a file as a byte sequence. */
  function Content(disk: Disk, a: Addrs, size: nat): (c: seq<byte>)
    ensures |c| == size
  {
    BytesFrom(disk, a, 0, size)
  }

  /** Nothing but zeros is stored past the end of the file. */
  ghost predicate ZeroTail(disk: Disk, a: Addrs, size: nat) {
    forall p: nat :: p >= size ==> ByteAt(disk, a, p) == 0
  }

  /** `old` zero-extended to `pos`, with `data` laid over it. */
  function Splice(before: seq<byte>, pos: nat, data: seq<byte>): seq<byte> {
    seq(Max(|before|, pos + |data|), p requires 0 <= p =>
      if pos <= p < pos + |data| then data[p - pos] else if p < |before| then before[p] else 0)
  }

  predicate AllZero(s: seq<byte>) { forall i :: 0 <= i < |s| ==> s[i] == 0 }

  /** What is stored between the end of the file and a later position. */
  function Gap(disk: Disk, a: Addrs, size: nat, cpos: nat): seq<byte> {
    if cpos <= size then [] else BytesFrom(disk, a, size, cpos - size)
  }

  /** Storing `data` through the 32-bit block number shows as storing it at `cpos`. Below
      4 TiB that is so unless stale bytes lie between the end of the file and `cpos`.
      From there on the bytes are stored elsewhere, so they have to be zeros, and what is
      not zero before has to be inside the file, or outside it and under them. */
  predicate InPlace(disk: Disk, a: Addrs, size: nat, cpos: nat, data: seq<byte>) {
    if cpos < U32 * BSIZE then
      AllZero(Gap(disk, a, size, cpos))
    else
      && AllZero(data)
      && forall p: nat :: p < MAXBYTES && ByteAt(disk, a, p) != 0 ==>
           (p < size <==> !(EffectivePos(cpos) <= p < EffectivePos(cpos) + |data|))
  }

  /** A write refines `Splice` on the contents of the file if and only if the size is not
      cut to 32 bits on the way and the bytes show in place, whatever is stored past the
      end; and where that was nothing but zeros and the size is kept, it still is. */
  lemma WriteRefinesContent(v: Vol, files: Files, f: nat, n: Node, cpos: nat, buf: seq<byte>)
    requires SoundVol(v, files) && f in files && files[f] == n.addrs
    ensures var r := FileWrite(v, n, cpos, buf);
      && r.count <= |buf|
      && (Content(r.v.disk, r.n.addrs, r.n.size) == Splice(Content(v.disk, n.addrs, n.size), cpos, buf[..r.count])
          <==> SizeKept(n, cpos, r.count) && InPlace(v.disk, n.addrs, n.size, cpos, buf[..r.count]))
      && (ZeroTail(v.disk, n.addrs, n.size) && SizeKept(n, cpos, r.count) ==> ZeroTail(r.v.disk, r.n.addrs, r.n.size))
  {
    hide FileWrite, SoundVol, Wrote, Spliced, EffectivePos, ZeroTail, Content, Splice, SizeKept, InPlace;
    SoundOk(v, files);
    EffectivePosExact(cpos);
    WriteRefinesSplice(v, files, f, n, cpos, buf);
    var r, q := FileWrite(v, n, cpos, buf), EffectivePos(cpos);
    WroteSplice(v, files, f, q, buf, r);
    WroteReach(v, files, f, q, buf, r);
    var data := buf[..r.count];
    SpliceSize(Content(v.disk, n.addrs, n.size), cpos, data);
    if r.n.size == Max(n.size, cpos + r.count) {
      SplicedTail(v.disk, n.addrs, n.size, r.v.disk, r.n.addrs, cpos, q, data);
      if cpos < U32 * BSIZE {
        SplicedHere(v.disk, n.addrs, n.size, r.v.disk, r.n.addrs, cpos, data);
      } else {
        SplicedElsewhere(v.disk, n.addrs, n.size, r.v.disk, r.n.addrs, cpos, data);
      }
    }
  }

  lemma SpliceSize(before: seq<byte>, pos: nat, data: seq<byte>)
    ensures |Splice(before, pos, data)| == Max(|before|, pos + |data|)
  {}

  lemma SplicedTail(disk: Disk, a: Addrs, size: nat, disk': Disk, a': Addrs, pos: nat, q: nat, data: seq<byte>)
    requires Spliced(disk, a, disk', a', q, data) && (q == pos || q + |data| <= pos || data == [])
    ensures ZeroTail(disk, a, size) ==> ZeroTail(disk', a', Max(size, pos + |data|))
  {
    hide ByteAt;
  }

  /** The contents after a write, byte by byte, and those of a splice. */
  lemma SpliceBytes(disk: Disk, a: Addrs, size: nat, disk': Disk, a': Addrs, pos: nat, data: seq<byte>, p: nat)
    requires p < Max(size, pos + |data|)
    ensures Content(disk', a', Max(size, pos + |data|))[p] == ByteAt(disk', a', p)
    ensures Splice(Content(disk, a, size), pos, data)[p]
         == if pos <= p < pos + |data| then data[p - pos] else if p < size then ByteAt(disk, a, p) else 0
  {
    hide ByteAt;
    assert p < size ==> Content(disk, a, size)[p] == ByteAt(disk, a, p);
  }

  lemma SplicedHere(disk: Disk, a: Addrs, size: nat, disk': Disk, a': Addrs, pos: nat, data: seq<byte>)
    requires Spliced(disk, a, disk', a', pos, data) && pos < U32 * BSIZE
    ensures Content(disk', a', Max(size, pos + |data|)) == Splice(Content(disk, a, size), pos, data)
      <==> InPlace(disk, a, size, pos, data)
  {
    hide ByteAt, Splice, Content, EffectivePos;
    var size', gap := Max(size, pos + |data|), Gap(disk, a, size, pos);
    var c, s := Content(disk', a', size'), Splice(Content(disk, a, size), pos, data);
    SpliceSize(Content(disk, a, size), pos, data);
    forall p: nat | p < size' ensures c[p] == s[p] <==> (size <= p < pos ==> gap[p - size] == 0) {
      SpliceBytes(disk, a, size, disk', a', pos, data, p);
    }
    if c == s {
      forall i | 0 <= i < |gap| ensures gap[i] == 0 { assert c[size + i] == s[size + i]; }
    }
  }

  /** Bytes laid over another place, out of reach of the block map where they should
      have been. */
  lemma SplicedElsewhere(disk: Disk, a: Addrs, size: nat, disk': Disk, a': Addrs, pos: nat, data: seq<byte>)
    requires Spliced(disk, a, disk', a', EffectivePos(pos), data) && pos >= U32 * BSIZE
    requires data != [] ==> EffectivePos(pos) + |data| <= MAXBYTES
    ensures Content(disk', a', Max(size, pos + |data|)) == Splice(Content(disk, a, size), pos, data)
      <==> InPlace(disk, a, size, pos, data)
  {
    hide ByteAt, Splice, Content, EffectivePos;
    var q, size' := EffectivePos(pos), Max(size, pos + |data|);
    var c, s := Content(disk', a', size'), Splice(Content(disk, a, size), pos, data);
    SpliceSize(Content(disk, a, size), pos, data);
    forall p: nat | p >= MAXBYTES ensures ByteAt(disk, a, p) == 0 { PastReach(disk, a, p); }
    forall p: nat | p < size'
      ensures c[p] == if q <= p < q + |data| then data[p - q] else ByteAt(disk, a, p)
      ensures s[p] == if pos <= p < pos + |data| then data[p - pos] else if p < size then ByteAt(disk, a, p) else 0
    {
      SpliceBytes(disk, a, size, disk', a', pos, data, p);
    }
    if c == s {
      forall i | 0 <= i < |data| ensures data[i] == 0 { assert c[pos + i] == s[pos + i]; }
      forall p: nat | p < MAXBYTES && ByteAt(disk, a, p) != 0 ensures p < size <==> !(q <= p < q + |data|) {
        assert c[p] == s[p];
      }
    }
    if InPlace(disk, a, size, pos, data) {
      forall p: nat | p < size' ensures c[p] == s[p] {
        if pos <= p < pos + |data| { assert data[p - pos] == 0; }
        if q <= p < q + |data| { assert data[p - q] == 0; }
      }
    }
  }

  lemma WroteSplice(v: Vol, files: Files, f: nat, q: nat, buf: seq<byte>, r: WriteResult)
    requires Wrote(v, files, f, q, buf, r)
    ensures f in files && r.count <= |buf| && Spliced(v.disk, files[f], r.v.disk, r.n.addrs, q, buf[..r.count])
  {
    hide SoundVol, UsedSet, SameBytes, Spliced, Pick;
  }

  /** From 4 TiB on a write lands elsewhere: the bytes stored are at the effective
      position, and the positions written to read as 0. */
  lemma WriteWraps(v: Vol, files: Files, f: nat, n: Node, cpos: nat, buf: seq<byte>, i: nat)
    requires SoundVol(v, files) && f in files && files[f] == n.addrs
    requires cpos >= U32 * BSIZE && i < FileWrite(v, n, cpos, buf).count
    ensures var r := FileWrite(v, n, cpos, buf);
      && r.count <= |buf| && EffectivePos(cpos) + i < MAXBYTES
      && ByteAt(r.v.disk, r.n.addrs, EffectivePos(cpos) + i) == buf[i]
      && ByteAt(r.v.disk, r.n.addrs, cpos + i) == 0
  {
    hide FileWrite, Wrote, ByteAt, EffectivePos, Sound, SizeKept;
    WriteRefinesSplice(v, files, f, n, cpos, buf);
    var r := FileWrite(v, n, cpos, buf);
    WroteReads(v, files, f, EffectivePos(cpos), buf, r);
    assert BytesFrom(r.v.disk, r.n.addrs, EffectivePos(cpos), r.count)[i] == buf[..r.count][i];
    PastReach(r.v.disk, r.n.addrs, cpos + i);
  }

  lemma NoStaleGap(disk: Disk, a: Addrs, size: nat, cpos: nat)
    requires ZeroTail(disk, a, size)
    ensures AllZero(Gap(disk, a, size, cpos))
  {
    hide ByteAt;
  }

  /** Below 4 GiB, where no size is ever cut, a write refines `Splice` exactly when no
      stale bytes lie before it, and leaves none where there were none. */
  lemma SmallWriteRefines(v: Vol, files: Files, f: nat, n: Node, cpos: nat, buf: seq<byte>)
    requires SoundVol(v, files) && f in files && files[f] == n.addrs
    requires n.size < U32 && cpos < U32
    ensures var r := FileWrite(v, n, cpos, buf);
      && r.count <= |buf| && r.n.size < U32
      && (Content(r.v.disk, r.n.addrs, r.n.size) == Splice(Content(v.disk, n.addrs, n.size), cpos, buf[..r.count])
          <==> AllZero(Gap(v.disk, n.addrs, n.size, cpos)))
      && (ZeroTail(v.disk, n.addrs, n.size) ==>
            AllZero(Gap(v.disk, n.addrs, n.size, cpos)) && ZeroTail(r.v.disk, r.n.addrs, r.n.size))
  {
    hide FileWrite, Wrote, ByteAt, EffectivePos, SoundVol, ZeroTail, Content, Splice, AllZero, Gap;
    SoundOk(v, files);
    WriteRefinesContent(v, files, f, n, cpos, buf);
    WriteRefinesSplice(v, files, f, n, cpos, buf);
    EffectivePosExact(cpos);
    WroteReach(v, files, f, cpos, buf, FileWrite(v, n, cpos, buf));
    if ZeroTail(v.disk, n.addrs, n.size) { NoStaleGap(v.disk, n.addrs, n.size, cpos); }
  }

  lemma WroteReach(v: Vol, files: Files, f: nat, q: nat, buf: seq<byte>, r: WriteResult)
    requires Wrote(v, files, f, q, buf, r)
    ensures r.count > 0 ==> q + r.count <= MAXBYTES
  {
    hide SoundVol, UsedSet, SameBytes, Spliced, Pick;
  }

  /** How a size is lost, in two writes. At 8 GiB nothing is stored, and the size
      becomes 8 GiB; the next byte that needs a direct block cuts it to what that byte
      calls for, and whatever is stored further on is then past the end. */
  lemma SizeCollapses(v: Vol, files: Files, f: nat, n: Node, k: nat, p: nat)
    requires SoundVol(v, files) && f in files && files[f] == n.addrs && Pick(v) != 0
    requires n.size < 0x2_0000_0000 && k < NDIRECT && n.addrs[k] == 0 && p > k * BSIZE
    ensures var r := FileWrite(v, n, 0x2_0000_0000, [1]);
      && r == WriteResult(v, n.(size := 0x2_0000_0000), 0, EFBIG)
      && var r2 := FileWrite(r.v, r.n, k * BSIZE, [1]);
         && r2.err == OK && r2.count == 1 && r2.n.size == k * BSIZE + 1
         && (ByteAt(v.disk, n.addrs, p) != 0 ==> !ZeroTail(r2.v.disk, r2.n.addrs, r2.n.size))
  {
    hide Wrote, ByteAt, Sound, SizeKept, WriteBlock, Spliced, Pick, UsedSet;
    SoundOk(v, files);
    assert 0x2_0000_0000 / BSIZE % U32 == 0x80_0000 && 0x2_0000_0000 % BSIZE == 0;
    assert k * BSIZE / BSIZE % U32 == k && k * BSIZE % BSIZE == 0;
    TooFarWrites(v, n);
    var n1 := n.(size := 0x2_0000_0000);
    FirstByte(v, n1, k);
    var r2 := FileWrite(v, n1, k * BSIZE, [1]);
    WriteRefinesSplice(v, files, f, n1, k * BSIZE, [1]);
    EffectivePosExact(k * BSIZE);
    WroteSplice(v, files, f, k * BSIZE, [1], r2);
    SplicedAt(v.disk, n.addrs, r2.v.disk, r2.n.addrs, k * BSIZE, [1][..1], p);
  }

  /** A third write then is no splice, though it is below 4 TiB and the size is kept: what
      is stale before it comes back into the file. */
  lemma StaleBytesShow(v: Vol, files: Files, f: nat, n: Node, k: nat, p: nat)
    requires SoundVol(v, files) && f in files && files[f] == n.addrs && Pick(v) != 0
    requires n.size < 0x2_0000_0000 && k < NDIRECT && n.addrs[k] == 0 && k * BSIZE < p < MAXBYTES
    requires ByteAt(v.disk, n.addrs, p) != 0
    ensures var r1 := FileWrite(v, n, 0x2_0000_0000, [1]);
      var r2 := FileWrite(r1.v, r1.n, k * BSIZE, [1]);
      var r3 := FileWrite(r2.v, r2.n, p + 1, [1]);
      && r3.count <= 1 && SizeKept(r2.n, p + 1, r3.count)
      && Content(r3.v.disk, r3.n.addrs, r3.n.size)
         != Splice(Content(r2.v.disk, r2.n.addrs, r2.n.size), p + 1, [1][..r3.count])
  {
    hide FileWrite, Wrote, ByteAt, SoundVol, Spliced, Pick, Content, Splice, Dirties, EffectivePos, ZeroTail;
    SoundOk(v, files);
    SizeCollapses(v, files, f, n, k, p);
    var n1 := n.(size := 0x2_0000_0000);
    var r2 := FileWrite(v, n1, k * BSIZE, [1]);
    WriteRefinesSplice(v, files, f, n1, k * BSIZE, [1]);
    EffectivePosExact(k * BSIZE);
    WroteSplice(v, files, f, k * BSIZE, [1], r2);
    SplicedAt(v.disk, n.addrs, r2.v.disk, r2.n.addrs, k * BSIZE, [1][..1], p);
    WroteReads(v, files, f, k * BSIZE, [1], r2);
    SmallWriteRefines(r2.v, files[f := r2.n.addrs], f, r2.n, p + 1, [1]);
    StaleGap(r2.v.disk, r2.n.addrs, r2.n.size, p);
  }

  lemma StaleGap(disk: Disk, a: Addrs, size: nat, p: nat)
    requires size <= p && ByteAt(disk, a, p) != 0
    ensures !AllZero(Gap(disk, a, size, p + 1))
  {
    hide ByteAt;
    assert Gap(disk, a, size, p + 1)[p - size] == ByteAt(disk, a, p);
  }

  lemma SplicedAt(disk: Disk, a: Addrs, disk': Disk, a': Addrs, q: nat, data: seq<byte>, p: nat)
    requires Spliced(disk, a, disk', a', q, data) && p >= q + |data|
    ensures ByteAt(disk', a', p) == ByteAt(disk, a, p)
  {
    hide ByteAt;
  }

  lemma TooFarWrites(v: Vol, n: Node)
    requires v.Ok()
    ensures WriteLoop(v, n, 0x80_0000, 0, [1]) == WriteResult(v, n, 0, EFBIG)
  {
    assert WriteBlock(v, n, 0x80_0000) == BlockResult(v, n.(addrs := n.addrs), 0, EFBIG);
  }

  /** One byte stored in an empty direct block. */
  lemma FirstByte(v: Vol, n: Node, k: nat)
    requires v.Ok() && Pick(v) != 0 && k < NDIRECT && n.addrs[k] == 0
    ensures var r := WriteLoop(v, n, k, 0, [1]); r.count == 1 && r.err == OK && r.n.size == n.size % U32
  {
    hide Take, Pick, Blit;
    PickData(v);
    var w := WriteBlock(v, n, k);
    assert w.err == OK && w.n.size == n.size % U32;
    assert [1][1..] == [];
  }

  lemma PickData(v: Vol)
    requires v.Ok() && Pick(v) != 0
    ensures Pick(v) < |v.disk| == |Take(v, Pick(v)).disk|
  {
    hide Used, Marked;
  }

  lemma PastReach(disk: Disk, a: Addrs, p: nat)
    requires p >= MAXBYTES
    ensures ByteAt(disk, a, p) == 0
  {
    hide FileBlock;
  }

  // ----- reading -----

  /** How much one turn of the read loop copies. */
  function Chunk(n: Node, boff: nat, cpos: nat, len: nat): (m: nat)
    requires boff < BSIZE
    ensures boff + m <= BSIZE && m <= len && m <= (n.size - cpos) % U64
    ensures 0 < len <= (n.size - cpos) % U64 ==> m > 0
  {
    Min(Min(BSIZE - boff, len), (n.size - cpos) % U64)
  }

  /** Part of a block; a hole reads as zeros. */
  function BlockBytes(disk: Disk, b: nat, boff: nat, m: nat): (s: seq<byte>)
    requires b < |disk| && boff + m <= BSIZE
    ensures |s| == m
  {
    if b == 0 then seq(m, _ => 0) else disk[b][boff..boff + m]
  }

  /** The loop of `xv6_file_read`. */
  function ReadLoop(v: Vol, n: Node, block: nat, boff: nat, cpos: nat, len: nat): (r: (seq<byte>, Errno))
    requires v.Ok() && boff < BSIZE && len <= (n.size - cpos) % U64
    ensures |r.0| <= len
    decreases len
  {
    if len == 0 then ([], OK)
    else
      var a := InodeAddr(v, n.addrs, false, block, false);
      if a.err != OK then ([], a.err)
      else if a.blockno >= |v.disk| then ([], EIO)
      else
        var m := Chunk(n, boff, cpos, len);
        var chunk := BlockBytes(v.disk, a.blockno, boff, m);
        RestAfter(n.size, cpos, m);
        var r := ReadLoop(v, n, block + 1, 0, cpos + m, len - m);
        (chunk + r.0, r.1)
  }

  /** 64-bit unsigned distance to the end shrinks by what is read. */
  lemma RestAfter(size: nat, cpos: nat, m: nat)
    requires m <= (size - cpos) % U64
    ensures (size - (cpos + m)) % U64 == (size - cpos) % U64 - m
  {}

  /** `xv6_file_read`. The length is clamped by an unsigned comparison, so past
      the end of the file it is not clamped. */
  function FileRead(v: Vol, n: Node, pos: nat, len: nat): (r: (seq<byte>, Errno))
    requires v.Ok()
    ensures |r.0| <= len
  {
    var rest := (n.size - pos) % U64;
    ReadLoop(v, n, pos / BSIZE % U32, pos % BSIZE, pos, if len > rest then rest else len)
  }

  /** How many bytes the block map lets a read of `want` bytes at `q` have. */
  function Reach(q: nat, want: nat): nat { Min(want, Max(0, MAXBYTES - q)) }

  lemma {:induction false} ReadLoopBytes(v: Vol, files: Files, f: nat, n: Node, block: nat, boff: nat, cpos: nat,
      len: nat)
    requires SoundVol(v, files) && f in files && files[f] == n.addrs
    requires boff < BSIZE && len <= (n.size - cpos) % U64
    ensures ReadLoop(v, n, block, boff, cpos, len)
         == (BytesFrom(v.disk, n.addrs, block * BSIZE + boff, Reach(block * BSIZE + boff, len)),
             if Reach(block * BSIZE + boff, len) < len then EFBIG else OK)
    decreases len
  {
    hide SoundVol, BytesFrom, ReadLoop, Chunk;
    var q := block * BSIZE + boff;
    if len == 0 || block >= MAXFILE {
      ReadStops(v, files, f, n, block, boff, cpos, len);
    } else {
      var m := Chunk(n, boff, cpos, len);
      ReadTurn(v, files, f, n, block, boff, cpos, len);
      ReadLoopBytes(v, files, f, n, block + 1, 0, cpos + m, len - m);
      if boff + m == BSIZE {
        BytesFromAppend(v.disk, n.addrs, q, m, Reach(q + m, len - m));
      } else {
        BytesFromAppend(v.disk, n.addrs, q, m, 0);
        BytesFromNone(v.disk, n.addrs, (block + 1) * BSIZE, q + m);
      }
    }
  }

  lemma ReadStops(v: Vol, files: Files, f: nat, n: Node, block: nat, boff: nat, cpos: nat, len: nat)
    requires SoundVol(v, files) && f in files && files[f] == n.addrs
    requires boff < BSIZE && len <= (n.size - cpos) % U64 && (len == 0 || block >= MAXFILE)
    ensures ReadLoop(v, n, block, boff, cpos, len)
         == (BytesFrom(v.disk, n.addrs, block * BSIZE + boff, 0), if len == 0 then OK else EFBIG)
  {
    BlockFound(v, files, f, n, block);
    hide SoundVol, InodeAddr, ByteAt;
  }

  /** One turn of the loop appends the next bytes of the file. */
  lemma ReadTurn(v: Vol, files: Files, f: nat, n: Node, block: nat, boff: nat, cpos: nat, len: nat)
    requires SoundVol(v, files) && f in files && files[f] == n.addrs
    requires boff < BSIZE && 0 < len <= (n.size - cpos) % U64 && block < MAXFILE
    ensures var m := Chunk(n, boff, cpos, len);
      && 0 < m <= len && boff + m <= BSIZE && (m < len ==> boff + m == BSIZE)
      && len - m <= (n.size - (cpos + m)) % U64
      && ReadLoop(v, n, block, boff, cpos, len)
         == (BytesFrom(v.disk, n.addrs, block * BSIZE + boff, m) + ReadLoop(v, n, block + 1, 0, cpos + m, len - m).0,
             ReadLoop(v, n, block + 1, 0, cpos + m, len - m).1)
  {
    BlockFound(v, files, f, n, block);
    hide SoundVol, InodeAddr, ByteAt, BytesFrom, FileBlock;
    var m := Chunk(n, boff, cpos, len);
    RestAfter(n.size, cpos, m);
    ChunkRead(v.disk, n.addrs, block, boff, m);
  }

  lemma BlockFound(v: Vol, files: Files, f: nat, n: Node, block: nat)
    requires SoundVol(v, files) && f in files && files[f] == n.addrs
    ensures var a := InodeAddr(v, n.addrs, false, block, false);
      && a.err == (if block < MAXFILE then OK else EFBIG)
      && (block < MAXFILE ==> a.blockno == FileBlock(v.disk, n.addrs, block) < |v.disk|)
  {
    InodeAddrKeeps(v, files, f, false, block, false);
    hide InodeAddr, SoundVol, SameContents, UsedSet;
    if block < MAXFILE {
      BlockInRange(v, files, f, block);
    }
  }

  lemma BytesFromAppend(disk: Disk, a: Addrs, q: nat, m: nat, k: nat)
    ensures BytesFrom(disk, a, q, m) + BytesFrom(disk, a, q + m, k) == BytesFrom(disk, a, q, m + k)
  {
    hide ByteAt;
  }

  lemma BytesFromNone(disk: Disk, a: Addrs, q: nat, q': nat)
    ensures BytesFrom(disk, a, q, 0) == BytesFrom(disk, a, q', 0)
  {}

  lemma BlockInRange(v: Vol, files: Files, f: nat, i: nat)
    requires SoundVol(v, files) && f in files && i < MAXFILE
    ensures FileBlock(v.disk, files[f], i) < |v.disk|
  {
    hide Slot;
    assert FileBlock(v.disk, files[f], i) == Slot(v.disk, files[f], DataSlot(i));
  }

  lemma ChunkRead(disk: Disk, a: Addrs, block: nat, boff: nat, m: nat)
    requires block < MAXFILE && boff + m <= BSIZE && FileBlock(disk, a, block) < |disk|
    ensures BytesFrom(disk, a, block * BSIZE + boff, m)
         == BlockBytes(disk, FileBlock(disk, a, block), boff, m)
  {
    hide FileBlock;
    var c := BytesFrom(disk, a, block * BSIZE + boff, m);
    forall i | 0 <= i < m
      ensures c[i] == if FileBlock(disk, a, block) == 0 then 0 else disk[FileBlock(disk, a, block)][boff + i]
    {
      PosInBlock(block, boff + i);
      assert c[i] == ByteAt(disk, a, block * BSIZE + (boff + i));
    }
  }

  lemma PosInBlock(block: nat, o: nat)
    requires o < BSIZE
    ensures (block * BSIZE + o) / BSIZE == block && (block * BSIZE + o) % BSIZE == o
  {}

  /** What a read returns, for every position and length: the bytes from the
      effective position on, as far as the block map reaches, with `EFBIG` when
      that cuts it short. */
  lemma ReadBytes(v: Vol, files: Files, f: nat, n: Node, pos: nat, len: nat)
    requires SoundVol(v, files) && f in files && files[f] == n.addrs
    ensures var q, want := EffectivePos(pos), Min(len, (n.size - pos) % U64);
      FileRead(v, n, pos, len)
      == (BytesFrom(v.disk, n.addrs, q, Reach(q, want)), if Reach(q, want) < want then EFBIG else OK)
  {
    hide SoundVol, ReadLoop, BytesFrom;
    ReadLoopBytes(v, files, f, n, pos / BSIZE % U32, pos % BSIZE, pos, Min(len, (n.size - pos) % U64));
  }

  /** The slice of the contents a read asks for: empty past the end. */
  function Slice(c: seq<byte>, pos: nat, len: nat): seq<byte> {
    if pos <= |c| then c[pos..Min(pos + len, |c|)] else []
  }

  /** Reading `want` bytes, none past the end, finds those bytes: the block map reaches
      them, and their position is below 4 TiB or there are only zeros to read. */
  predicate Readable(disk: Disk, a: Addrs, pos: nat, want: nat) {
    || want == 0
    || (EffectivePos(pos) + want <= MAXBYTES
        && (pos < U32 * BSIZE || AllZero(BytesFrom(disk, a, EffectivePos(pos), want))))
  }

  lemma ReadInside(v: Vol, files: Files, f: nat, n: Node, pos: nat, len: nat)
    requires SoundVol(v, files) && f in files && files[f] == n.addrs
    requires pos <= n.size < U64
    ensures Min(len, n.size - pos) >= 0
    ensures FileRead(v, n, pos, len) == (Slice(Content(v.disk, n.addrs, n.size), pos, len), OK)
      <==> Readable(v.disk, n.addrs, pos, Min(len, n.size - pos))
  {
    hide SoundVol, ByteAt, FileRead, EffectivePos, Content, Slice, BytesFrom, Reach, Sound, Readable;
    ReadBytes(v, files, f, n, pos, len);
    EffectivePosExact(pos);
    RestInside(n.size, pos);
    SliceIs(v.disk, n.addrs, n.size, pos, len);
    var q, want := EffectivePos(pos), Min(len, n.size - pos);
    ReachAll(q, want);
    BytesMatch(v.disk, n.addrs, pos, want);
  }

  /** The bytes at the effective position, and those that belong there. */
  lemma BytesMatch(disk: Disk, a: Addrs, pos: nat, want: nat)
    ensures Readable(disk, a, pos, want)
      <==> (want == 0 || EffectivePos(pos) + want <= MAXBYTES)
           && BytesFrom(disk, a, EffectivePos(pos), want) == BytesFrom(disk, a, pos, want)
  {
    hide ByteAt, EffectivePos;
    EffectivePosExact(pos);
    var q := EffectivePos(pos);
    var c, d := BytesFrom(disk, a, q, want), BytesFrom(disk, a, pos, want);
    if pos >= U32 * BSIZE {
      forall i | 0 <= i < want ensures d[i] == 0 { PastReach(disk, a, pos + i); }
      assert c == d ==> forall i :: 0 <= i < want ==> c[i] == d[i];
    }
  }

  lemma RestInside(size: nat, pos: nat)
    requires pos <= size < U64
    ensures (size - pos) % U64 == size - pos
  {}

  lemma SliceIs(disk: Disk, a: Addrs, size: nat, pos: nat, len: nat)
    requires pos <= size && 0 <= Min(len, size - pos)
    ensures BytesFrom(disk, a, pos, Min(len, size - pos)) == Slice(Content(disk, a, size), pos, len)
  {
    hide ByteAt;
  }

  lemma ReadPastEnd(v: Vol, files: Files, f: nat, n: Node, pos: nat, len: nat)
    requires SoundVol(v, files) && f in files && files[f] == n.addrs
    requires n.size < pos < U64 && 0 < len
    ensures FileRead(v, n, pos, len) != ([], OK)
  {
    ReadBytes(v, files, f, n, pos, len);
    hide SoundVol, ByteAt, FileRead, EffectivePos;
    assert (n.size - pos) % U64 == U64 + n.size - pos;
  }

  /** A read is a slice of the contents if and only if it asks for nothing, or starts
      at or before the end and what it then wants can be read in place. */
  lemma ReadIsSlice(v: Vol, files: Files, f: nat, n: Node, pos: nat, len: nat)
    requires SoundVol(v, files) && f in files && files[f] == n.addrs
    requires n.size < U64 && pos < U64 && len < U64
    ensures FileRead(v, n, pos, len) == (Slice(Content(v.disk, n.addrs, n.size), pos, len), OK)
      <==> len == 0 || (pos <= n.size && Readable(v.disk, n.addrs, pos, Min(len, n.size - pos)))
  {
    hide SoundVol, Content, Readable;
    if pos <= n.size {
      ReadInside(v, files, f, n, pos, len);
      if len == 0 { NothingReadable(v.disk, n.addrs, pos); }
    } else if len == 0 {
      hide EffectivePos;
    } else {
      hide FileRead;
      ReadPastEnd(v, files, f, n, pos, len);
    }
  }

  lemma NothingReadable(disk: Disk, a: Addrs, pos: nat)
    ensures Readable(disk, a, pos, 0)
  {}

  /** Reading back what a write stored returns the bytes written, at any position that
      64 bits can hold: a read goes astray where the write did. */
  lemma ReadBack(v: Vol, files: Files, f: nat, n: Node, cpos: nat, buf: seq<byte>)
    requires SoundVol(v, files) && f in files && files[f] == n.addrs
    requires n.size < U64 && cpos + |buf| < U64
    ensures var r := FileWrite(v, n, cpos, buf);
      r.count <= |buf| && FileRead(r.v, r.n, cpos, r.count) == (buf[..r.count], OK)
  {
    hide FileWrite, FileRead, Wrote, EffectivePos, SoundVol, BytesFrom, Reach, SizeKept;
    SoundOk(v, files);
    WriteRefinesSplice(v, files, f, n, cpos, buf);
    var r := FileWrite(v, n, cpos, buf);
    WroteReads(v, files, f, EffectivePos(cpos), buf, r);
    SoundOk(r.v, files[f := r.n.addrs]);
    ReadBytes(r.v, files[f := r.n.addrs], f, r.n, cpos, r.count);
    RestAtLeast(r.n.size, cpos, r.count);
    ReachAll(EffectivePos(cpos), r.count);
  }

  lemma ReachAll(q: nat, want: nat)
    ensures Reach(q, want) == want <==> want == 0 || q + want <= MAXBYTES
    ensures Reach(q, want) <= want
  {}

  lemma RestAtLeast(size: nat, cpos: nat, count: nat)
    requires cpos + count <= size < U64
    ensures (size - cpos) % U64 >= count
  {}

  lemma WroteReads(v: Vol, files: Files, f: nat, q: nat, buf: seq<byte>, r: WriteResult)
    requires Wrote(v, files, f, q, buf, r)
    ensures SoundVol(r.v, files[f := r.n.addrs]) && f in files && r.count <= |buf|
    ensures BytesFrom(r.v.disk, r.n.addrs, q, r.count) == buf[..r.count]
    ensures r.count > 0 ==> q + r.count <= MAXBYTES
  {
    hide SoundVol, UsedSet, Used, ByteAt, SameBytes, Pick;
    assert Spliced(v.disk, files[f], r.v.disk, r.n.addrs, q, buf[..r.count]);
  }

  // ----- implementation -----

  /** `xv6_inode_block`: find a block for reading. */
  method GetReadBlock(vol: Volume, ino: Inode, i: nat) returns (blockno: uint, err: Errno)
    requires ino.Valid(vol)
    modifies vol, ino.addrs
    ensures vol.V() == old(vol.V()) && ino.N() == old(ino.N())
    ensures var r := InodeAddr(vol.V(), ino.N().addrs, false, i, false);
      && err == (if r.err == OK && r.blockno >= |vol.disk| then EIO else r.err)
      && (err == OK ==> blockno == r.blockno)
  {
    hide InodeAddr;
    LookupIdle(vol.V(), ino.addrs[..], i);
    var ctx := new InodeCtx(ino.addrs, ino.size % U32);
    blockno, err := GetAddr(vol, ctx, i, false);
    if err == OK && blockno >= |vol.disk| {
      err := EIO;
    }
  }

  /** `xv6_inode_wblock`: find or allocate a block for writing, then copy the
      context back if it is dirty. */
  method GetWriteBlock(vol: Volume, ino: Inode, i: nat) returns (blockno: uint, err: Errno)
    requires ino.Valid(vol) && AddrEnds(vol.V(), ino.addrs[..], i, true)
    modifies vol, ino`size, ino.addrs
    ensures BlockResult(vol.V(), ino.N(), if err == OK then blockno else 0, err)
         == WriteBlock(old(vol.V()), old(ino.N()), i)
  {
    hide InodeAddr, AddrEnds;
    var ctx := new InodeCtx(ino.addrs, ino.size % U32);
    blockno, err := GetAddr(vol, ctx, i, true);
    if err != OK {
      return;
    }
    if blockno == 0 {
      err := ENOSPC;
    } else if blockno >= |vol.disk| {
      err := EIO;
    }
    if err == OK && ctx.dirty {
      ino.size := ctx.size;
    }
  }

  /** Every search for a block that the loop makes comes back. */
  predicate WriteEnds(v: Vol, n: Node, block: nat, boff: nat, buf: seq<byte>)
    requires v.Ok() && boff < BSIZE
    decreases |buf|
  {
    buf != [] ==>
      && AddrEnds(v, n.addrs, block, true)
      && var w, m := WriteBlock(v, n, block), Min(BSIZE - boff, |buf|);
         (w.err == OK ==>
            WriteEnds(w.v.Put(w.blockno, Blit(w.v.disk[w.blockno], boff, buf[..m])), w.n, block + 1, 0, buf[m..]))
  }

  lemma {:induction false} SmallWriteEnds(v: Vol, n: Node, block: nat, boff: nat, buf: seq<byte>)
    requires v.Ok() && boff < BSIZE && v.g.size <= BPB
    ensures WriteEnds(v, n, block, boff, buf)
    decreases |buf|
  {
    hide AddrEnds, WriteBlock, Blit;
    if buf == [] {
    } else {
      SmallAddrEnds(v, n.addrs, block, true);
      var w, m := WriteBlock(v, n, block), Min(BSIZE - boff, |buf|);
      if w.err == OK {
        SmallWriteEnds(w.v.Put(w.blockno, Blit(w.v.disk[w.blockno], boff, buf[..m])), w.n, block + 1, 0, buf[m..]);
      }
    }
  }

  /** `xv6_file_write`. */
  method Write(vol: Volume, ino: Inode, pos: nat, append: bool, buf: seq<byte>)
    returns (count: nat, err: Errno, newpos: nat)
    requires ino.Valid(vol)
    requires var cpos := if append then ino.size else pos;
      WriteEnds(vol.V(), ino.N(), cpos / BSIZE % U32, cpos % BSIZE, buf)
    modifies vol, ino`size, ino.addrs
    ensures WriteResult(vol.V(), ino.N(), count, err)
         == FileWrite(old(vol.V()), old(ino.N()), if append then old(ino.size) else pos, buf)
    ensures newpos == (if append then old(ino.size) else pos) + count
  {
    hide WriteBlock, Blit, BitmapBlocks, AddrEnds;
    var cpos: nat := pos;
    if append {
      cpos := ino.size;
    }
    ghost var w := WriteLoop(vol.V(), ino.N(), cpos / BSIZE % U32, cpos % BSIZE, buf);
    ghost var start := cpos;
    var block: nat, boff: nat := cpos / BSIZE % U32, cpos % BSIZE;
    var rest := buf;
    count, err := 0, OK;
    while rest != [] && err == OK
      invariant ino.Valid(vol) && boff < BSIZE && cpos == start + count
      invariant err == OK ==> WriteEnds(vol.V(), ino.N(), block, boff, rest)
      invariant err == OK ==>
        w == var r := WriteLoop(vol.V(), ino.N(), block, boff, rest); r.(count := count + r.count)
      invariant err != OK ==> w == WriteResult(vol.V(), ino.N(), count, err)
      decreases |rest|, err == OK
    {
      var b, e := GetWriteBlock(vol, ino, block);
      err := e;
      if err == OK {
        var m := Min(BSIZE - boff, |rest|);
        vol.Write(b, Blit(vol.disk[b], boff, rest[..m]));
        rest := rest[m..];
        count, cpos, block, boff := count + m, cpos + m, block + 1, 0;
      }
    }
    ino.size := Max(ino.size, cpos);
    newpos := cpos;
  }

  /** `xv6_file_read`; what is copied to user memory is collected in `out`. */
  method Read(vol: Volume, ino: Inode, pos: nat, len: nat)
    returns (out: seq<byte>, err: Errno, newpos: nat)
    requires ino.Valid(vol)
    modifies vol, ino.addrs
    ensures vol.V() == old(vol.V()) && ino.N() == old(ino.N())
    ensures (out, err) == FileRead(vol.V(), ino.N(), pos, len)
    ensures newpos == pos + |out|
  {
    hide InodeAddr, Chunk, ReadLoop, BlockBytes;
    var cpos: nat, left: nat := pos, len;
    var rest := (ino.size - cpos) % U64;
    if left > rest {
      left := rest;
    }
    ghost var v, n := vol.V(), ino.N();
    ghost var r := ReadLoop(v, n, pos / BSIZE % U32, pos % BSIZE, pos, left);
    var block: nat, boff: nat := cpos / BSIZE % U32, cpos % BSIZE;
    out, err := [], OK;
    assert out + r.0 == r.0;
    while left > 0 && err == OK
      invariant ino.Valid(vol) && vol.V() == v && ino.N() == n
      invariant boff < BSIZE && left <= (n.size - cpos) % U64 && cpos == pos + |out|
      invariant r == if err == OK then Prepend(out, ReadLoop(v, n, block, boff, cpos, left)) else (out, err)
      decreases left, err == OK
    {
      ReadLoopTurn(v, n, block, boff, cpos, left, out);
      var b, e := GetReadBlock(vol, ino, block);
      err := e;
      if err == OK {
        var m := Min(Min(BSIZE - boff, left), (ino.size - cpos) % U64);
        ChunkIs(n, boff, cpos, left);
        RestAfter(ino.size, cpos, m);
        out := out + BlockBytes(vol.disk, b, boff, m);
        left, cpos, block, boff := left - m, cpos + m, block + 1, 0;
      }
    }
    EndOfRead(v, n, block, boff, cpos, left, out);
    newpos := cpos;
  }

  function Prepend(out: seq<byte>, r: (seq<byte>, Errno)): (seq<byte>, Errno) { (out + r.0, r.1) }

  lemma EndOfRead(v: Vol, n: Node, block: nat, boff: nat, cpos: nat, left: nat, out: seq<byte>)
    requires v.Ok() && boff < BSIZE && left <= (n.size - cpos) % U64
    ensures left == 0 ==> Prepend(out, ReadLoop(v, n, block, boff, cpos, left)) == (out, OK)
  {
    assert out + [] == out;
  }

  /** What one turn of the read loop does to the bytes collected so far. */
  lemma ReadLoopTurn(v: Vol, n: Node, block: nat, boff: nat, cpos: nat, len: nat, out: seq<byte>)
    requires v.Ok() && boff < BSIZE && 0 < len <= (n.size - cpos) % U64
    ensures var a, m := InodeAddr(v, n.addrs, false, block, false), Chunk(n, boff, cpos, len);
      && len - m <= (n.size - (cpos + m)) % U64
      && Prepend(out, ReadLoop(v, n, block, boff, cpos, len))
         == if a.err != OK then (out, a.err)
            else if a.blockno >= |v.disk| then (out, EIO)
            else Prepend(out + BlockBytes(v.disk, a.blockno, boff, m), ReadLoop(v, n, block + 1, 0, cpos + m, len - m))
  {
    hide InodeAddr, BlockBytes, Chunk;
    var a, m := InodeAddr(v, n.addrs, false, block, false), Chunk(n, boff, cpos, len);
    RestAfter(n.size, cpos, m);
    if a.err == OK && a.blockno < |v.disk| {
      var chunk, t := BlockBytes(v.disk, a.blockno, boff, m), ReadLoop(v, n, block + 1, 0, cpos + m, len - m);
      assert out + (chunk + t.0) == out + chunk + t.0;
    } else {
      assert out + [] == out;
    }
  }

  lemma ChunkIs(n: Node, boff: nat, cpos: nat, len: nat)
    requires boff < BSIZE
    ensures Chunk(n, boff, cpos, len) == Min(Min(BSIZE - boff, len), (n.size - cpos) % U64)
  {}
}
