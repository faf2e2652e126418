/** The directory operations as they run (dir.c): each drives the iterator with its
    callback over a context that shares the inode's cached addresses. */
module DirDrivers {
  import opened Layout
  import opened Volumes
  import opened BlockMap
  import opened Inodes
  import opened DirIter
  import opened Directory
  import opened Listing
  import opened Namespace

  // ----- iterations that change nothing -----

  ghost predicate NeverEdits<C(!new)>(cb: Callback<C>) {
    forall n, de, c :: !cb(n, de, c).act.deDirty
  }

  lemma {:induction false} ScanClean<C(!new)>(cb: Callback<C>, buf: Block, base: nat, k: nat, lim: nat, ctx: C,
      act: Action)
    requires NeverEdits(cb) && lim <= NENTS
    ensures !Scan(cb, buf, base, k, lim, ctx, act, false).flush
    decreases lim - k
  {
    hide PutDirent, DirentOf;
    if k >= lim {
    } else {
      var r := cb(base + k, DirentOf(buf, k), ctx);
      ScanClean(cb, PutDirent(buf, k, r.de), base, k + 1, lim, r.ctx, r.act);
    }
  }

  /** Without allocation an iteration leaves the cached addresses alone, and with a
      callback that edits nothing, the whole volume. */
  lemma {:induction false} IterIdle<C(!new)>(cb: Callback<C>, v: Vol, a: Addrs, dirty: bool, i: nat, off: nat,
      size: nat, ctx: C, act: Action)
    requires v.Ok() && off < NENTS
    ensures var r := IterBlocks(cb, v, a, dirty, i, off, size, ctx, act, false);
      r.addrs == a && (NeverEdits(cb) ==> r.v == v)
    decreases size
  {
    hide InodeAddr, NeverEdits, Scan, Visit;
    LookupKeeps(v, a, dirty, i);
    var w := InodeAddr(v, a, dirty, i, false);
    if w.err != OK || w.blockno >= |v.disk| {
    } else {
      var lim := Min(NENTS, size + off);
      var t := Visit(cb, v, w.blockno, i, off, lim, ctx, act);
      VisitIdle(cb, v, w.blockno, i, off, lim, ctx, act);
      if t.act.cont && size != lim - off {
        IterIdle(cb, t.v, a, w.dirty, i + 1, 0, size - (lim - off), t.ctx, t.act);
      }
    }
  }

  lemma VisitIdle<C(!new)>(cb: Callback<C>, v: Vol, blockno: nat, i: nat, off: nat, lim: nat, ctx: C, act: Action)
    requires v.Ok() && blockno < |v.disk| && lim <= NENTS
    ensures NeverEdits(cb) ==> Visit(cb, v, blockno, i, off, lim, ctx, act).v == v
  {
    hide Scan, NeverEdits;
    if NeverEdits(cb) && blockno != 0 { ScanClean(cb, v.disk[blockno], i * NENTS, off, lim, ctx, act); }
  }

  lemma LookupKeeps(v: Vol, a: Addrs, dirty: bool, i: nat)
    requires v.Ok()
    ensures InodeAddr(v, a, dirty, i, false).v == v && InodeAddr(v, a, dirty, i, false).addrs == a
  {}

  lemma ExtendIdle<C(!new)>(cb: Callback<C>, v: Vol, d: DirCtx, ctx: C)
    requires v.Ok()
    ensures var r := Extend(cb, v, d, ctx, false);
      r.d.addrs == d.addrs && (NeverEdits(cb) ==> r.v == v)
  {
    hide InodeAddr, PutDirent, DirentOf;
    LookupKeeps(v, d.addrs, d.dirty, d.size / DESIZE / NENTS);
  }

  lemma IterateIdle<C(!new)>(cb: Callback<C>, v: Vol, d: DirCtx, ctx: C, off: nat)
    requires v.Ok() && DirSized(d.size)
    ensures var r := DirIterate(cb, v, d, ctx, off, false);
      r.d.addrs == d.addrs && (NeverEdits(cb) ==> r.v == v)
  {
    hide IterBlocks, Extend, NeverEdits;
    var size := d.size / DESIZE;
    if off <= size {
      IterIdle(cb, v, d.addrs, d.dirty, off / NENTS, off % NENTS, size - off, ctx, InitAction());
      var r := IterBlocks(cb, v, d.addrs, d.dirty, off / NENTS, off % NENTS, size - off, ctx, InitAction(), false);
      ExtendIdle(cb, r.v, d.(addrs := r.addrs, dirty := r.dirty), r.ctx);
    }
  }

  // ----- the operations -----

  /** What the callers of the iterator know of an inode. */
  ghost predicate Ready(vol: Volume, dir: Inode)
    reads dir, dir.addrs, vol
  {
    dir.Valid(vol) && (dir.isDir ==> DirSized(dir.size % U32))
  }

  /** `xv6_find_inum`. */
  method Find(vol: Volume, dir: Inode, name: seq<byte>) returns (dnum: nat, de: Dirent, err: Errno)
    requires Ready(vol, dir)
    modifies vol, dir.addrs
    ensures vol.V() == old(vol.V()) && dir.N() == old(dir.N())
    ensures (dnum, de, err) == FindInum(old(vol.V()), old(dir.N()), name)
  {
    hide DirIterate, StrnEq, NeverEdits, DirEnds;
    dnum, de, err := 0, NullDirent(), ENOTDIR;
    if dir.isDir {
      var ictx := new InodeCtx(dir.addrs, dir.size % U32);
      var c := FindCtx(name, 0, NullDirent());
      ReadersNeverEdit();
      IterateIdle(DeFind, vol.V(), CtxOf(dir.N()), c, 0);
      ReadEnds(DeFind, vol.V(), CtxOf(dir.N()), c, 0, false);
      c, err := Iterate(vol, ictx, DeFind, c, 0, false);
      dnum, de := c.dnum, c.de;
    }
  }

  lemma ReadersNeverEdit()
    ensures NeverEdits(DeFind) && NeverEdits(DeRmtest) && NeverEdits(DeList)
  {
    hide StrnEq, Shown;
  }

  /** `xv6_dir_erase`. */
  method Erase(vol: Volume, dir: Inode, name: seq<byte>) returns (err: Errno)
    requires Ready(vol, dir)
    modifies vol, dir.addrs
    ensures dir.N() == old(dir.N()) && (vol.V(), err) == DirErase(old(vol.V()), old(dir.N()), name)
  {
    hide DirIterate, StrnEq, DirEnds;
    if !dir.isDir {
      return ENOTDIR;
    }
    var ictx := new InodeCtx(dir.addrs, dir.size % U32);
    var c := EraseCtx(name, false);
    IterateIdle(DeErase, vol.V(), CtxOf(dir.N()), c, 2);
    ReadEnds(DeErase, vol.V(), CtxOf(dir.N()), c, 2, false);
    c, err := Iterate(vol, ictx, DeErase, c, 2, false);
    if !c.success {
      err := ENOENT;
    }
  }

  /** Every search for a block that the insertion makes comes back. */
  predicate InsertEnds(v: Vol, n: Node, name: seq<byte>, inum: nat)
    requires v.Ok() && (n.isDir ==> DirSized(n.size % U32))
  {
    n.isDir && |name| <= DIRSIZ && name != Dot() && name != DotDot() ==>
      DirEnds(DeInsert, v, CtxOf(n), InsertCtx(Dirent(inum % U16, Pad(name)), true), 0, true)
  }

  lemma SmallInsertEnds(v: Vol, n: Node, name: seq<byte>, inum: nat)
    requires v.Ok() && (n.isDir ==> DirSized(n.size % U32)) && v.g.size <= BPB
    ensures InsertEnds(v, n, name, inum)
  {
    hide DirEnds, Pad;
    if n.isDir { ReadEnds(DeInsert, v, CtxOf(n), InsertCtx(Dirent(inum % U16, Pad(name)), true), 0, true); }
  }

  /** `xv6_dentry_insert`; `sane` tells whether the callback's assertion held. */
  method Insert(vol: Volume, dir: Inode, name: seq<byte>, inum: nat) returns (err: Errno, sane: bool)
    requires Ready(vol, dir) && InsertEnds(vol.V(), dir.N(), name, inum)
    modifies vol, dir`size, dir.addrs
    ensures InsertResult(vol.V(), dir.N(), err, sane) == DentryInsert(old(vol.V()), old(dir.N()), name, inum)
  {
    hide DirIterate, DeInsert, DirEnds;
    sane := true;
    if !dir.isDir {
      return ENOTDIR, sane;
    }
    if |name| > DIRSIZ {
      return ENAMETOOLONG, sane;
    }
    if name == Dot() || name == DotDot() {
      return EEXIST, sane;
    }
    var newde := Dirent(inum % U16, Pad(name));
    var ictx := new InodeCtx(dir.addrs, dir.size % U32);
    var c := InsertCtx(newde, true);
    c, err := Iterate(vol, ictx, DeInsert, c, 0, true);
    if err == OK && ictx.dirty {
      dir.size := ictx.size;
    }
    sane := c.sane;
  }

  /** `xv6_dir_rmtest`. */
  method TestEmpty(vol: Volume, dir: Inode) returns (err: Errno, sane: bool)
    requires Ready(vol, dir) && dir.isDir
    modifies vol, dir.addrs
    ensures vol.V() == old(vol.V()) && dir.N() == old(dir.N())
    ensures (err, sane) == DirRmtest(old(vol.V()), old(dir.N()))
  {
    hide DirIterate, NeverEdits, DirEnds;
    var ictx := new InodeCtx(dir.addrs, dir.size % U32);
    var c := RmCtx(true, true);
    ReadersNeverEdit();
    IterateIdle(DeRmtest, vol.V(), CtxOf(dir.N()), c, 2);
    ReadEnds(DeRmtest, vol.V(), CtxOf(dir.N()), c, 2, false);
    c, err := Iterate(vol, ictx, DeRmtest, c, 2, false);
    sane := c.sane;
    if err == OK && !c.empty {
      err := ENOTEMPTY;
    }
  }

  /** `xv6_readdir`. */
  method ListDir(vol: Volume, dir: Inode, ctx: DirContext) returns (ctx': DirContext, err: Errno)
    requires Ready(vol, dir)
    modifies vol, dir.addrs
    ensures vol.V() == old(vol.V()) && dir.N() == old(dir.N())
    ensures (ctx', err) == Readdir(old(vol.V()), old(dir.N()), ctx)
  {
    hide DirIterate, NeverEdits, DeList, DirEnds;
    if !dir.isDir {
      return ctx, ENOTDIR;
    }
    var ictx := new InodeCtx(dir.addrs, dir.size % U32);
    ReadersNeverEdit();
    IterateIdle(DeList, vol.V(), CtxOf(dir.N()), ctx, ctx.pos % U32);
    ReadEnds(DeList, vol.V(), CtxOf(dir.N()), ctx, ctx.pos % U32, false);
    ctx', err := Iterate(vol, ictx, DeList, ctx, ctx.pos % U32, false);
  }

  /** `xv6_dir_init`. */
  method InitDir(vol: Volume, block: nat, parent: ushort, this_: ushort)
    requires vol.V().Ok() && vol.g.IsData(block)
    modifies vol`disk, vol`trace
    ensures vol.V() == old(vol.V()).Put(block, DotBlock(old(vol.disk)[block], parent, this_))
  {
    hide PutDirent, DirentOf, Strcpy;
    var buf := vol.disk[block];
    var de := DirentOf(buf, 0);
    buf := PutDirent(buf, 0, Dirent(this_, Strcpy(de.name, Dot())));
    de := DirentOf(vol.disk[block], 1);
    buf := PutDirent(buf, 1, Dirent(parent, Strcpy(de.name, DotDot())));
    vol.Write(block, buf);
  }
}
