/** Crash ordering on the allocation path. Every image the disk goes through
    satisfies the invariant for the inodes as they were before the operation, so
    whatever part of them the on-disk inode table holds is safe at any crash. */
module Durability {
  import opened Layout
  import opened Bytes
  import opened Volumes
  import opened Allocator
  import opened BlockMap

  /** Each image from `v` on keeps the invariant for `files`. */
  ghost predicate Durable(v: Vol, v': Vol, files: Files) {
    && v'.g == v.g && v.Sized() && v'.Sized()
    && SameTable(v.g, v.disk, v'.disk)
    && |v.trace| <= |v'.trace| && v'.trace[..|v.trace|] == v.trace
    && forall t :: |v.trace| <= t < |v'.trace| ==> SafeImage(v.g, v.disk, v'.trace[t], files)
  }

  ghost predicate SafeImage(g: Geometry, before: Disk, disk: Disk, files: Files)
    requires g.Formed()
  {
    SameTable(g, before, disk) && Sound(disk, g.DataStart(), UsedSet(g, disk), files)
  }

  lemma DurableRefl(v: Vol, files: Files)
    requires v.Ok()
    ensures Durable(v, v, files)
  {}

  lemma DurableLonger(v: Vol, v': Vol, files: Files)
    requires Durable(v, v', files)
    ensures |v.trace| <= |v'.trace| && v'.trace[..|v.trace|] == v.trace
  {
    hide Sound, UsedSet, SameTable;
  }

  /** Every address `a` holds, `a'` holds too. */
  ghost predicate Extends(a: Addrs, a': Addrs) {
    forall k :: 0 <= k <= ROOT ==> a[k] == 0 || a[k] == a'[k]
  }

  lemma ExtendsRefl(files: Files)
    ensures forall f :: f in files ==> Extends(files[f], files[f])
  {}

  /** An inode that lags behind refers to no more than the current one does. */
  lemma SoundLagging(disk: Disk, lo: nat, used: set<nat>, files: Files, stale: Files)
    requires Sound(disk, lo, used, files)
    requires stale.Keys <= files.Keys && forall f :: f in stale ==> Extends(stale[f], files[f])
    ensures Sound(disk, lo, used, stale)
  {
    forall f, k: nat | f in stale && k < NSLOTS
      ensures Slot(disk, stale[f], k) == 0 || Slot(disk, stale[f], k) == Slot(disk, files[f], k)
    {
      assert Extends(stale[f], files[f]);
      assert stale[f][ROOT] == 0 || stale[f][ROOT] == files[f][ROOT];
    }
    hide Slot;
  }

  lemma DurableTrans(v: Vol, v': Vol, v'': Vol, files: Files)
    requires Durable(v, v', files) && Durable(v', v'', files)
    ensures Durable(v, v'', files)
  {
    hide Sound, Used, UsedSet;
    forall t | |v.trace| <= t < |v''.trace|
      ensures SafeImage(v.g, v.disk, v''.trace[t], files)
    {
      if t < |v'.trace| {
        assert v''.trace[t] == v'.trace[t];
      } else {
        assert SafeImage(v.g, v'.disk, v''.trace[t], files);
      }
    }
  }

  lemma DurableLagging(v: Vol, v': Vol, files: Files, stale: Files)
    requires Durable(v, v', files)
    requires stale.Keys <= files.Keys && forall f :: f in stale ==> Extends(stale[f], files[f])
    ensures Durable(v, v', stale)
  {
    forall t | |v.trace| <= t < |v'.trace|
      ensures SafeImage(v.g, v.disk, v'.trace[t], stale)
    {
      assert SafeImage(v.g, v.disk, v'.trace[t], files);
      SoundLagging(v'.trace[t], v.g.DataStart(), UsedSet(v.g, v'.trace[t]), files, stale);
    }
  }

  /** Zeroing the picked block and then marking it: safe in between. */
  lemma TakeDurable(v: Vol, files: Files)
    requires SoundVol(v, files) && Pick(v) != 0
    ensures Durable(v, Take(v, Pick(v)), files)
  {
    var b := Pick(v);
    PickSound(v);
    TakeEffect(v, b);
    TakeSafe(v, files);
    hide Take, Used, Pick, Slot;
    var d1 := v.disk[b := ZeroBlock()];
    UsedFrame(v.g, v.disk, d1);
    assert b !in UsedSet(v.g, v.disk) by { PickNotUsed(v); }
    Frame(v.disk, d1, v.g.DataStart(), UsedSet(v.g, v.disk), UsedSet(v.g, v.disk), files);
    var v' := Take(v, b);
    assert v'.trace == v.trace + [d1, v'.disk];
  }

  lemma PutDurable(v: Vol, b: nat, blk: Block, files: Files)
    requires v.Ok() && v.g.IsData(b) && SoundVol(v.Put(b, blk), files)
    ensures Durable(v, v.Put(b, blk), files)
  {}

  lemma ChildDurable(v: Vol, files: Files, f: nat, dirty: bool, j: nat, alloc: bool)
    requires SoundVol(v, files) && f in files && j < NINDIRECT && files[f][ROOT] != 0
    ensures Durable(v, ChildAddr(v, files[f], dirty, j, alloc).v, files)
  {
    var a := files[f];
    RootInRange(v, files, f);
    ChildAddrSafe(v, files, f, dirty, j, alloc);
    hide Word, PutWord, Used, Pick, Slot;
    if Word(v.disk[a[ROOT]], j) == 0 && alloc && Pick(v) != 0 {
      TakeDurable(v, files);
      var v1 := Take(v, Pick(v));
      hide Take, UsedSet;
      PutDurable(v1, a[ROOT], PutWord(v1.disk[a[ROOT]], j, Pick(v)), files);
      DurableTrans(v, v1, ChildAddr(v, a, dirty, j, alloc).v, files);
    }
  }

  /** The map only ever gains addresses. */
  lemma InodeAddrExtends(v: Vol, a: Addrs, dirty: bool, i: nat, alloc: bool)
    requires v.Ok()
    ensures Extends(a, InodeAddr(v, a, dirty, i, alloc).addrs)
  {
    hide Word, Take, Pick;
  }

  /** After every prefix of the writes `xv6_inode_addr` makes, every block the
      inodes referred to before the call is a data block, marked in use, and
      referenced once. */
  lemma InodeAddrDurable(v: Vol, files: Files, f: nat, dirty: bool, i: nat, alloc: bool)
    requires SoundVol(v, files) && f in files
    ensures Durable(v, InodeAddr(v, files[f], dirty, i, alloc).v, files)
  {
    var a := files[f];
    hide Word, Used, Take, ChildAddr, Durable, Sound, Pick, SoundVol;
    SoundOk(v, files);
    if i < NDIRECT && a[i] == 0 && alloc && Pick(v) != 0 {
      TakeDurable(v, files);
    } else if NDIRECT <= i < MAXFILE && a[ROOT] != 0 {
      ChildDurable(v, files, f, false, i - NDIRECT, alloc);
    } else if NDIRECT <= i < MAXFILE && alloc && Pick(v) != 0 {
      RootDurable(v, files, f, dirty, i);
    } else {
      DurableRefl(v, files);
    }
  }

  lemma RootDurable(v: Vol, files: Files, f: nat, dirty: bool, i: nat)
    requires SoundVol(v, files) && f in files
    requires NDIRECT <= i < MAXFILE && files[f][ROOT] == 0 && Pick(v) != 0
    ensures Durable(v, InodeAddr(v, files[f], dirty, i, true).v, files)
  {
    hide Word, Take, Used, UsedSet, ChildAddr, Pick, Slot;
    var a := files[f];
    TakeSafe(v, files);
    TakeDurable(v, files);
    var v1 := Take(v, Pick(v));
    Attach(v1.disk, v.g.DataStart(), UsedSet(v.g, v1.disk), files, f, ROOT, Pick(v));
    var files1 := files[f := a[ROOT := Pick(v)]];
    ChildAddrSafe(v1, files1, f, true, i - NDIRECT, true);
    ChildDurable(v1, files1, f, true, i - NDIRECT, true);
    var r := InodeAddr(v, a, dirty, i, true);
    DurableLagging(v1, r.v, files1, files);
    DurableTrans(v, v1, r.v, files);
  }

  /** A fresh indirect block is zeroed before anything else is written; and from the
      write that marks it in use on, an inode that has it is in order, so whenever its
      address reaches the disk, what is found there is no stale block. */
  lemma FreshRootZeroed(v: Vol, files: Files, f: nat, dirty: bool, i: nat)
    requires SoundVol(v, files) && f in files
    requires NDIRECT <= i < MAXFILE && files[f][ROOT] == 0 && Pick(v) != 0
    ensures var r, n := InodeAddr(v, files[f], dirty, i, true), |v.trace|;
      && r.addrs == files[f][ROOT := Pick(v)]
      && |r.v.trace| >= n + 2 && Pick(v) < |v.disk| && r.v.trace[n] == v.disk[Pick(v) := ZeroBlock()]
      && (forall t :: n < t < |r.v.trace| ==> SafeImage(v.g, v.disk, r.v.trace[t], files[f := r.addrs]))
  {
    hide Word, Take, Used, UsedSet, ChildAddr, Pick, Slot, Sound;
    var a, b := files[f], Pick(v);
    TakeSafe(v, files);
    TakeTrace(v);
    var v1 := Take(v, b);
    Attach(v1.disk, v.g.DataStart(), UsedSet(v.g, v1.disk), files, f, ROOT, b);
    var files1 := files[f := a[ROOT := b]];
    ChildDurable(v1, files1, f, true, i - NDIRECT, true);
    ChildAddrSafe(v1, files1, f, true, i - NDIRECT, true);
    var r := InodeAddr(v, a, dirty, i, true);
    assert r == ChildAddr(v1, files1[f], true, i - NDIRECT, true);
    forall t | |v.trace| < t < |r.v.trace| ensures SafeImage(v.g, v.disk, r.v.trace[t], files1) {
      if t < |v1.trace| {
        assert r.v.trace[t] == v1.trace[t] == v1.disk;
      } else {
        assert SafeImage(v.g, v1.disk, r.v.trace[t], files1);
      }
    }
    assert r.v.trace[|v.trace|] == v1.trace[|v.trace|];
  }

  lemma TakeTrace(v: Vol)
    requires v.Ok() && Pick(v) != 0
    ensures Pick(v) < |v.disk|
    ensures Take(v, Pick(v)).trace == v.trace + [v.disk[Pick(v) := ZeroBlock()], Take(v, Pick(v)).disk]
  {
    PickSound(v);
    TakeEffect(v, Pick(v));
  }
}
