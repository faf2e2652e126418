/** The directory iterator (fs.cpp, `xv6_dir_iterate`): a callback is driven over
    the entries of a directory file from an offset, with early stop, holes, and
    one optional call past the end. */
module DirIter {
  import opened Layout
  import opened Bytes
  import opened Volumes
  import opened BlockMap
  import opened FileData

  // ----- entries -----

  type Name = s: seq<byte> | |s| == DIRSIZ witness seq(DIRSIZ, _ => 0)

  /** `struct dirent`. */
  datatype Dirent = Dirent(inum: ushort, name: Name)

  function EncodeDirent(de: Dirent): (s: seq<byte>)
    ensures |s| == DESIZE
  {
    ToLe16(de.inum) + de.name
  }

  function DecodeDirent(s: seq<byte>): Dirent
    requires |s| == DESIZE
  {
    Dirent(Le16(s[..2]), s[2..])
  }

  lemma DirentRoundTrip(de: Dirent, s: seq<byte>)
    requires |s| == DESIZE
    ensures DecodeDirent(EncodeDirent(de)) == de
    ensures EncodeDirent(DecodeDirent(s)) == s
  {
    assert EncodeDirent(de)[..2] == ToLe16(de.inum);
    assert EncodeDirent(DecodeDirent(s)) == s;
  }

  /** Entry `k` of a block of entries. */
  function DirentOf(b: Block, k: nat): Dirent
    requires k < NENTS
  {
    DecodeDirent(b[DESIZE * k..DESIZE * k + DESIZE])
  }

  function PutDirent(b: Block, k: nat, de: Dirent): Block
    requires k < NENTS
  {
    Blit(b, DESIZE * k, EncodeDirent(de))
  }

  lemma DirentPut(b: Block, k: nat, de: Dirent, j: nat)
    requires k < NENTS && j < NENTS
    ensures DirentOf(PutDirent(b, k, de), j) == if j == k then de else DirentOf(b, j)
  {
    DirentRoundTrip(de, EncodeDirent(de));
    hide EncodeDirent, DecodeDirent;
    BlitSlice(b, DESIZE * k, EncodeDirent(de), DESIZE * j, DESIZE);
  }

  lemma DirentPutSame(b: Block, k: nat)
    requires k < NENTS
    ensures PutDirent(b, k, DirentOf(b, k)) == b
  {
    DirentRoundTrip(DirentOf(b, k), b[DESIZE * k..DESIZE * k + DESIZE]);
    hide EncodeDirent, DecodeDirent;
  }

  /** Entry `n` of a directory file; a hole reads as zeroed entries. */
  function Entry(disk: Disk, a: Addrs, n: nat): Dirent {
    DecodeDirent(BytesFrom(disk, a, DESIZE * n, DESIZE))
  }

  lemma EntryInBlock(disk: Disk, a: Addrs, i: nat, k: nat)
    requires i < MAXFILE && k < NENTS && FileBlock(disk, a, i) < |disk|
    ensures FileBlock(disk, a, i) != 0 ==>
      Entry(disk, a, i * NENTS + k) == DirentOf(disk[FileBlock(disk, a, i)], k)
    ensures FileBlock(disk, a, i) == 0 ==> Entry(disk, a, i * NENTS + k) == NullDirent()
  {
    hide FileBlock, ByteAt, DecodeDirent, BytesFrom;
    assert DESIZE * (i * NENTS + k) == i * BSIZE + DESIZE * k;
    ChunkRead(disk, a, i, DESIZE * k, DESIZE);
  }

  function NullDirent(): Dirent { DecodeDirent(seq(DESIZE, _ => 0)) }

  lemma NullIsFree()
    ensures NullDirent().inum == 0 && forall i :: 0 <= i < DIRSIZ ==> NullDirent().name[i] == 0
  {}

  /** Files that read the same have the same entries. */
  lemma SameEntry(disk: Disk, a: Addrs, disk': Disk, a': Addrs, n: nat)
    requires SameBytes(disk, a, disk', a')
    ensures Entry(disk', a', n) == Entry(disk, a, n)
  {
    hide ByteAt;
    assert BytesFrom(disk', a', DESIZE * n, DESIZE) == BytesFrom(disk, a, DESIZE * n, DESIZE);
  }

  /** Laying one entry over the bytes of a file changes that entry only. */
  lemma SplicedEntry(disk: Disk, a: Addrs, disk': Disk, a': Addrs, k: nat, de: Dirent, n: nat)
    requires Spliced(disk, a, disk', a', DESIZE * k, EncodeDirent(de))
    ensures Entry(disk', a', n) == if n == k then de else Entry(disk, a, n)
  {
    hide ByteAt, EncodeDirent, DecodeDirent;
    DirentRoundTrip(de, EncodeDirent(de));
    var b, b' := BytesFrom(disk, a, DESIZE * n, DESIZE), BytesFrom(disk', a', DESIZE * n, DESIZE);
    if n == k {
      assert b' == EncodeDirent(de);
    } else {
      assert b' == b;
    }
  }

  // ----- callbacks -----

  /** `struct xv6_diter_action`. */
  datatype Action = Action(cont: bool, deDirty: bool, dirExt: bool, dirDirty: bool)

  function InitAction(): Action { Action(false, false, false, false) }

  /** What a callback does with an entry: the action, the entry as it leaves it,
      and its updated context. */
  datatype Reply<C> = Reply(act: Action, de: Dirent, ctx: C)

  type Callback<!C> = (nat, Dirent, C) -> Reply<C>

  /** A callback edits an entry only when it stops there and says so; all five
      of the module's callbacks are like this. */
  ghost predicate EditsAtStop<C(!new)>(cb: Callback<C>) {
    forall n, de, c :: var r := cb(n, de, c);
      (r.act.deDirty ==> !r.act.cont) && (!r.act.deDirty ==> r.de == de)
  }

  // ----- the operation -----

  datatype ScanResult<C> = ScanResult(buf: Block, ctx: C, act: Action, flush: bool)

  /** The inner loop: entries `k` to `lim` of one block. */
  function Scan<C>(cb: Callback<C>, buf: Block, base: nat, k: nat, lim: nat, ctx: C, act: Action,
      flush: bool): ScanResult<C>
    requires lim <= NENTS
    decreases lim - k
  {
    if k >= lim then ScanResult(buf, ctx, act, flush)
    else
      var r := cb(base + k, DirentOf(buf, k), ctx);
      var buf1 := PutDirent(buf, k, r.de);
      if !r.act.cont then ScanResult(buf1, r.ctx, r.act, flush || r.act.deDirty)
      else Scan(cb, buf1, base, k + 1, lim, r.ctx, r.act, flush || r.act.deDirty)
  }

  datatype VisitResult<C> = VisitResult(v: Vol, ctx: C, act: Action)

  /** One block: a hole costs a single call on a zeroed entry. */
  function Visit<C>(cb: Callback<C>, v: Vol, blockno: nat, i: nat, off: nat, lim: nat, ctx: C,
      act: Action): (r: VisitResult<C>)
    requires v.Ok() && blockno < |v.disk| && lim <= NENTS
    ensures r.v.Ok() && r.v.g == v.g
  {
    if blockno == 0 then
      var p := cb(i * NENTS, NullDirent(), ctx);
      VisitResult(v, p.ctx, p.act)
    else
      var s := Scan(cb, v.disk[blockno], i * NENTS, off, lim, ctx, act, false);
      VisitResult(if s.flush then v.Put(blockno, s.buf) else v, s.ctx, s.act)
  }

  datatype IterResult<C> = IterResult(v: Vol, addrs: Addrs, dirty: bool, ctx: C, act: Action, err: Errno)

  /** The outer loop from block `i`, entry `off` of it, with `size` entries left. */
  function IterBlocks<C>(cb: Callback<C>, v: Vol, a: Addrs, dirty: bool, i: nat, off: nat, size: nat, ctx: C,
      act: Action, rw: bool): (r: IterResult<C>)
    requires v.Ok() && off < NENTS
    ensures r.v.Ok() && r.v.g == v.g
    decreases size
  {
    var r := InodeAddr(v, a, dirty, i, rw);
    if r.err != OK then IterResult(r.v, r.addrs, r.dirty, ctx, act, r.err)
    else if r.blockno >= |r.v.disk| then IterResult(r.v, r.addrs, r.dirty, ctx, act, EIO)
    else
      var lim := Min(NENTS, size + off);
      var t := Visit(cb, r.v, r.blockno, i, off, lim, ctx, act);
      if !t.act.cont || size == lim - off then IterResult(t.v, r.addrs, r.dirty, t.ctx, t.act, OK)
      else IterBlocks(cb, t.v, r.addrs, r.dirty, i + 1, 0, size - (lim - off), t.ctx, t.act, rw)
  }

  /** The value of a `struct xv6_inode_ctx`. */
  datatype DirCtx = DirCtx(addrs: Addrs, size: uint, dirty: bool)

  datatype DirResult<C> = DirResult(v: Vol, d: DirCtx, ctx: C, err: Errno)

  /** What the code panics on otherwise. */
  predicate DirSized(size: nat) { size % DESIZE == 0 && size >= 2 * DESIZE }

  /** One more call, on the entry just past the end. */
  function Extend<C>(cb: Callback<C>, v: Vol, d: DirCtx, ctx: C, rw: bool): (r: DirResult<C>)
    requires v.Ok()
    ensures r.v.Ok() && r.v.g == v.g
  {
    var n := d.size / DESIZE;
    var r := InodeAddr(v, d.addrs, d.dirty, n / NENTS, rw);
    var d1 := d.(addrs := r.addrs, dirty := r.dirty);
    if r.err != OK then DirResult(r.v, d1, ctx, r.err)
    else if r.blockno >= |r.v.disk| then DirResult(r.v, d1, ctx, EIO)
    else
      var buf := r.v.disk[r.blockno];
      var p := cb(n, DirentOf(buf, n % NENTS), ctx);
      var d2 := if p.act.dirDirty then d1.(dirty := true, size := (d1.size + DESIZE) % U32) else d1;
      DirResult(if p.act.deDirty then r.v.Put(r.blockno, PutDirent(buf, n % NENTS, p.de)) else r.v, d2, p.ctx, OK)
  }

  /** `xv6_dir_iterate`. */
  function DirIterate<C>(cb: Callback<C>, v: Vol, d: DirCtx, ctx: C, off: nat, rw: bool): (r: DirResult<C>)
    requires v.Ok() && DirSized(d.size)
    ensures r.v.Ok() && r.v.g == v.g
  {
    var size := d.size / DESIZE;
    if off > size then DirResult(v, d, ctx, OK)
    else
      var r := IterBlocks(cb, v, d.addrs, d.dirty, off / NENTS, off % NENTS, size - off, ctx, InitAction(), rw);
      var d1 := d.(addrs := r.addrs, dirty := r.dirty);
      if r.err == OK && r.act.cont && r.act.dirExt then Extend(cb, r.v, d1, r.ctx, rw)
      else DirResult(r.v, d1, r.ctx, r.err)
  }

  // ----- when the searches come back -----

  /** Every search for a block that the loop makes comes back. */
  predicate IterEnds<C>(cb: Callback<C>, v: Vol, a: Addrs, dirty: bool, i: nat, off: nat, size: nat, ctx: C,
      act: Action, rw: bool)
    requires v.Ok() && off < NENTS
    decreases size
  {
    && AddrEnds(v, a, i, rw)
    && var r := InodeAddr(v, a, dirty, i, rw);
       (r.err == OK && r.blockno < |r.v.disk| ==>
          var lim := Min(NENTS, size + off);
          var t := Visit(cb, r.v, r.blockno, i, off, lim, ctx, act);
          t.act.cont && size != lim - off ==>
            IterEnds(cb, t.v, r.addrs, r.dirty, i + 1, 0, size - (lim - off), t.ctx, t.act, rw))
  }

  /** The same for the iteration as a whole. */
  predicate DirEnds<C>(cb: Callback<C>, v: Vol, d: DirCtx, ctx: C, off: nat, rw: bool)
    requires v.Ok() && DirSized(d.size)
  {
    var size := d.size / DESIZE;
    off <= size ==>
      && IterEnds(cb, v, d.addrs, d.dirty, off / NENTS, off % NENTS, size - off, ctx, InitAction(), rw)
      && var r := IterBlocks(cb, v, d.addrs, d.dirty, off / NENTS, off % NENTS, size - off, ctx, InitAction(), rw);
         (r.err == OK && r.act.cont && r.act.dirExt ==> AddrEnds(r.v, r.addrs, size / NENTS, rw))
  }

  /** An iteration that allocates nothing, or on a small volume. */
  lemma {:induction false} ReadIterEnds<C>(cb: Callback<C>, v: Vol, a: Addrs, dirty: bool, i: nat, off: nat, size: nat,
      ctx: C, act: Action, rw: bool)
    requires v.Ok() && off < NENTS && (rw ==> v.g.size <= BPB)
    ensures IterEnds(cb, v, a, dirty, i, off, size, ctx, act, rw)
    decreases size
  {
    hide InodeAddr, Visit, AddrEnds;
    AnyAddrEnds(v, a, i, rw);
    var r := InodeAddr(v, a, dirty, i, rw);
    if r.err != OK || r.blockno >= |r.v.disk| {
    } else {
      var lim := Min(NENTS, size + off);
      var t := Visit(cb, r.v, r.blockno, i, off, lim, ctx, act);
      if t.act.cont && size != lim - off {
        ReadIterEnds(cb, t.v, r.addrs, r.dirty, i + 1, 0, size - (lim - off), t.ctx, t.act, rw);
      }
    }
  }

  lemma AnyAddrEnds(v: Vol, a: Addrs, i: nat, rw: bool)
    requires v.Ok() && (rw ==> v.g.size <= BPB)
    ensures AddrEnds(v, a, i, rw)
  {
    if rw { SmallAddrEnds(v, a, i, rw); }
  }

  lemma ReadEnds<C>(cb: Callback<C>, v: Vol, d: DirCtx, ctx: C, off: nat, rw: bool)
    requires v.Ok() && DirSized(d.size) && (rw ==> v.g.size <= BPB)
    ensures DirEnds(cb, v, d, ctx, off, rw)
  {
    hide IterEnds, IterBlocks, AddrEnds;
    var size := d.size / DESIZE;
    if off <= size {
      ReadIterEnds(cb, v, d.addrs, d.dirty, off / NENTS, off % NENTS, size - off, ctx, InitAction(), rw);
      var r := IterBlocks(cb, v, d.addrs, d.dirty, off / NENTS, off % NENTS, size - off, ctx, InitAction(), rw);
      AnyAddrEnds(r.v, r.addrs, size / NENTS, rw);
    }
  }

  // ----- implementation -----

  ghost function CtxValue(dir: InodeCtx): DirCtx
    requires dir.addrs.Length == NDIRECT + 1
    reads dir, dir.addrs
  {
    DirCtx(dir.addrs[..], dir.size, dir.dirty)
  }

  /** The inner loop of `xv6_dir_iterate`, on a local copy of the buffer. */
  method ScanBlock<C>(cb: Callback<C>, buf0: Block, base: nat, off: nat, lim: nat, ctx0: C, act0: Action)
    returns (buf: Block, ctx: C, act: Action, flush: bool)
    requires off <= lim <= NENTS
    ensures ScanResult(buf, ctx, act, flush) == Scan(cb, buf0, base, off, lim, ctx0, act0, false)
  {
    buf, ctx, act, flush := buf0, ctx0, act0, false;
    var k := off;
    while k < lim
      invariant off <= k <= lim
      invariant Scan(cb, buf, base, k, lim, ctx, act, flush) == Scan(cb, buf0, base, off, lim, ctx0, act0, false)
    {
      var r := cb(base + k, DirentOf(buf, k), ctx);
      buf := PutDirent(buf, k, r.de);
      ctx, act, flush := r.ctx, r.act, flush || r.act.deDirty;
      if !act.cont {
        break;
      }
      k := k + 1;
    }
  }

  /** The body of the outer loop. */
  method VisitBlock<C>(vol: Volume, cb: Callback<C>, blockno: nat, i: nat, off: nat, lim: nat, ctx0: C, act0: Action)
    returns (ctx: C, act: Action)
    requires vol.V().Ok() && blockno < |vol.disk| && off <= lim <= NENTS
    modifies vol
    ensures VisitResult(vol.V(), ctx, act) == Visit(cb, old(vol.V()), blockno, i, off, lim, ctx0, act0)
  {
    if blockno == 0 {
      var p := cb(i * NENTS, NullDirent(), ctx0);
      ctx, act := p.ctx, p.act;
    } else {
      var buf, flush;
      buf, ctx, act, flush := ScanBlock(cb, vol.disk[blockno], i * NENTS, off, lim, ctx0, act0);
      if flush {
        vol.Write(blockno, buf);
      }
    }
  }

  /** The call past the end. */
  method ExtendDir<C>(vol: Volume, dir: InodeCtx, cb: Callback<C>, ctx0: C, rw: bool) returns (ctx: C, err: Errno)
    requires dir.Valid(vol) && AddrEnds(vol.V(), dir.addrs[..], dir.size / DESIZE / NENTS, rw)
    modifies vol, dir, dir.addrs
    ensures DirResult(vol.V(), CtxValue(dir), ctx, err) == Extend(cb, old(vol.V()), old(CtxValue(dir)), ctx0, rw)
  {
    hide InodeAddr, PutDirent, DirentOf, AddrEnds;
    ctx := ctx0;
    var size := dir.size / DESIZE;
    var blockno, e := GetAddr(vol, dir, size / NENTS, rw);
    if e != OK {
      return ctx, e;
    }
    if blockno >= |vol.disk| {
      return ctx, EIO;
    }
    var buf := vol.disk[blockno];
    var act := cb(size, DirentOf(buf, size % NENTS), ctx);
    if act.act.dirDirty {
      dir.dirty := true;
      dir.size := (dir.size + DESIZE) % U32;
    }
    if act.act.deDirty {
      vol.Write(blockno, PutDirent(buf, size % NENTS, act.de));
    }
    return act.ctx, OK;
  }

  /** The outer loop of `xv6_dir_iterate`, from entry `off0` of block `i0`. */
  method IterateBlocks<C>(vol: Volume, dir: InodeCtx, cb: Callback<C>, i0: nat, off0: nat, size0: nat, ctx0: C,
      rw: bool)
    returns (ctx: C, act: Action, err: Errno)
    requires dir.Valid(vol) && off0 < NENTS
    requires IterEnds(cb, vol.V(), dir.addrs[..], dir.dirty, i0, off0, size0, ctx0, InitAction(), rw)
    modifies vol, dir`dirty, dir.addrs
    ensures IterResult(vol.V(), dir.addrs[..], dir.dirty, ctx, act, err)
         == IterBlocks(cb, old(vol.V()), old(dir.addrs[..]), old(dir.dirty), i0, off0, size0, ctx0, InitAction(), rw)
  {
    hide InodeAddr, Visit, AddrEnds;
    ghost var r := IterBlocks(cb, vol.V(), dir.addrs[..], dir.dirty, i0, off0, size0, ctx0, InitAction(), rw);
    ctx, act, err := ctx0, InitAction(), OK;
    var i: nat, off: nat, size: nat := i0, off0, size0;
    while true
      invariant dir.Valid(vol) && off < NENTS
      invariant r == IterBlocks(cb, vol.V(), dir.addrs[..], dir.dirty, i, off, size, ctx, act, rw)
      invariant IterEnds(cb, vol.V(), dir.addrs[..], dir.dirty, i, off, size, ctx, act, rw)
      decreases size
    {
      var blockno;
      blockno, err := GetAddr(vol, dir, i, rw);
      if err != OK {
        return;
      }
      if blockno >= |vol.disk| {
        return ctx, act, EIO;
      }
      var lim := Min(NENTS, size + off);
      ctx, act := VisitBlock(vol, cb, blockno, i, off, lim, ctx, act);
      if !act.cont || size == lim - off {
        return;
      }
      i, size, off := i + 1, size - (lim - off), 0;
    }
  }

  /** `xv6_dir_iterate`. */
  method Iterate<C>(vol: Volume, dir: InodeCtx, cb: Callback<C>, ctx0: C, off: nat, rw: bool) returns (ctx: C,
      err: Errno)
    requires dir.Valid(vol) && DirSized(dir.size) && DirEnds(cb, vol.V(), CtxValue(dir), ctx0, off, rw)
    modifies vol, dir, dir.addrs
    ensures DirResult(vol.V(), CtxValue(dir), ctx, err)
         == DirIterate(cb, old(vol.V()), old(CtxValue(dir)), ctx0, off, rw)
  {
    hide IterBlocks, Extend, IterEnds, AddrEnds;
    var size := dir.size / DESIZE;
    if off > size {
      return ctx0, OK;
    }
    var act;
    ctx, act, err := IterateBlocks(vol, dir, cb, off / NENTS, off % NENTS, size - off, ctx0, rw);
    if err == OK && act.cont && act.dirExt {
      ctx, err := ExtendDir(vol, dir, cb, ctx, rw);
    }
  }
}
