/** Conservation of blocks: what is marked in use and not referred to by any file stays the
    same through everything the block map does (fs.cpp, balloc.c). */
module Balance {
  import opened Layout
  import opened Bytes
  import opened Volumes
  import opened Allocator
  import opened BlockMap
  import opened Space
  import opened Inodes

  /** The blocks that files refer to. */
  function Referenced(disk: Disk, files: Files): set<nat> {
    set f, k: nat | f in files && k < NSLOTS && Slot(disk, files[f], k) != 0 :: Slot(disk, files[f], k) as nat
  }

  /** The blocks in use that no file refers to: superblock, log, inodes, bitmap, and any
      data block that is lost. */
  function Orphans(v: Vol, files: Files): set<nat>
    requires v.Sized()
  {
    UsedSet(v.g, v.disk) - Referenced(v.disk, files)
  }

  /** No block is lost and none that was is found. */
  predicate Balanced(v: Vol, files: Files, v': Vol, files': Files) {
    v.Sized() && v'.Sized() && v'.g == v.g && Orphans(v', files') == Orphans(v, files)
  }

  lemma ReferencedHas(disk: Disk, files: Files, f: nat, k: nat)
    requires f in files && k < NSLOTS && Slot(disk, files[f], k) != 0
    ensures Slot(disk, files[f], k) as nat in Referenced(disk, files)
  {
    hide Slot;
  }

  lemma ReferencedSame(disk: Disk, disk': Disk, files: Files)
    requires forall f :: f in files ==> SameSlots(disk, disk', files[f])
    ensures Referenced(disk', files) == Referenced(disk, files)
  {
    hide Slot;
    forall f, k: nat | f in files && k < NSLOTS ensures Slot(disk', files[f], k) == Slot(disk, files[f], k) {
      assert SameSlots(disk, disk', files[f]);
    }
  }

  /** The same slots and the same free map. */
  lemma BalancedSame(v: Vol, v': Vol, files: Files)
    requires v.Sized() && v'.Sized() && v'.g == v.g && UsedSet(v.g, v'.disk) == UsedSet(v.g, v.disk)
    requires forall f :: f in files ==> SameSlots(v.disk, v'.disk, files[f])
    ensures Balanced(v, files, v', files)
  {
    hide Referenced, UsedSet, SameSlots;
    ReferencedSame(v.disk, v'.disk, files);
  }

  /** One empty slot becomes a block. */
  lemma ReferencedMore(disk: Disk, disk': Disk, files: Files, f: nat, a': Addrs, k: nat, b: uint)
    requires f in files && k < NSLOTS && Slot(disk, files[f], k) == 0 && b != 0
    requires forall j: nat :: j < NSLOTS ==> Slot(disk', a', j) == if j == k then b else Slot(disk, files[f], j)
    requires forall e :: e in files && e != f ==> SameSlots(disk, disk', files[e])
    ensures Referenced(disk', files[f := a']) == Referenced(disk, files) + {b as nat}
  {
    hide Slot;
    var files' := files[f := a'];
    forall e, j: nat | e in files && j < NSLOTS
      ensures Slot(disk', files'[e], j) == if e == f && j == k then b else Slot(disk, files[e], j)
    {
      if e != f { assert SameSlots(disk, disk', files[e]); }
    }
    forall x: nat | x in Referenced(disk, files) ensures x in Referenced(disk', files') {
      var e, j: nat :| e in files && j < NSLOTS && Slot(disk, files[e], j) != 0 && x == Slot(disk, files[e], j) as nat;
      assert Slot(disk', files'[e], j) == Slot(disk, files[e], j);
    }
    assert Slot(disk', files'[f], k) as nat in Referenced(disk', files');
    forall x: nat | x in Referenced(disk', files') ensures x == b as nat || x in Referenced(disk, files) {
      var e, j: nat :|
        e in files' && j < NSLOTS && Slot(disk', files'[e], j) != 0 && x == Slot(disk', files'[e], j) as nat;
      assert e in files;
    }
  }

  /** A block that is taken and attached is no orphan. */
  lemma AttachedBalanced(v: Vol, files: Files, v': Vol, files': Files, b: nat)
    requires v.Sized() && v'.Sized() && v'.g == v.g && b !in UsedSet(v.g, v.disk)
    requires UsedSet(v'.g, v'.disk) == UsedSet(v.g, v.disk) + {b}
    requires Referenced(v'.disk, files') == Referenced(v.disk, files) + {b}
    ensures Balanced(v, files, v', files')
  {
    hide UsedSet, Referenced;
  }

  lemma CachedBalanced(v: Vol, files: Files, f: nat, k: nat)
    requires SoundVol(v, files) && f in files && k <= ROOT && files[f][k] == 0 && Pick(v) != 0
    ensures Balanced(v, files, Take(v, Pick(v)), files[f := files[f][k := Pick(v)]])
    ensures SoundVol(Take(v, Pick(v)), files[f := files[f][k := Pick(v)]])
  {
    hide Take, Used, UsedSet, Pick, Slot, Sound, Balanced, SameSlots;
    TakeSafe(v, files);
    PickNotUsed(v);
    var v1, b := Take(v, Pick(v)), Pick(v);
    Attach(v1.disk, v.g.DataStart(), UsedSet(v.g, v1.disk), files, f, k, b);
    SlotCached(v1.disk, files[f], k);
    SlotsRefl(v1.disk, files);
    ReferencedSame(v.disk, v1.disk, files);
    ReferencedMore(v1.disk, v1.disk, files, f, files[f][k := b], k, b);
    AttachedBalanced(v, files, v1, files[f := files[f][k := b]], b);
  }

  lemma SlotCached(disk: Disk, a: Addrs, k: nat)
    requires k <= ROOT
    ensures Slot(disk, a, k) == a[k]
  {}

  lemma SlotsRefl(disk: Disk, files: Files)
    ensures forall e :: e in files ==> SameSlots(disk, disk, files[e])
  {
    hide Slot;
  }

  lemma ChildBalanced(v: Vol, files: Files, f: nat, dirty: bool, j: nat, alloc: bool)
    requires SoundVol(v, files) && f in files && j < NINDIRECT && files[f][ROOT] != 0
    ensures var r := ChildAddr(v, files[f], dirty, j, alloc);
      r.addrs == files[f] && Balanced(v, files, r.v, files)
  {
    hide Word, PutWord, Take, Used, UsedSet, Pick, Slot, Sound, Balanced, WithChild, SameSlots;
    var a, r := files[f], ChildAddr(v, files[f], dirty, j, alloc);
    RootInRange(v, files, f);
    BalancedRefl(v, files);
    ChildIs(v, a, j);
    if Slot(v.disk, a, j + 13) == 0 && alloc && Pick(v) != 0 {
      var b, v1 := Pick(v), Take(v, Pick(v));
      TakeSafe(v, files);
      PickNotUsed(v);
      ChildSlots(v1.disk, v.g.DataStart(), UsedSet(v.g, v1.disk), files, f, j, b);
      DataPutUsed(v1, a[ROOT], PutWord(v1.disk[a[ROOT]], j, b));
      ReferencedSame(v.disk, v1.disk, files);
      ChildEmpty(v.disk, v1.disk, a, j);
      PutChild(v1, a[ROOT], j, b);
      ReferencedMore(v1.disk, r.v.disk, files, f, a, j + 13, b);
      assert files[f := a] == files;
      AttachedBalanced(v, files, r.v, files, b);
    }
  }

  lemma ChildIs(v: Vol, a: Addrs, j: nat)
    requires j < NINDIRECT && 0 < a[ROOT] < |v.disk|
    ensures Slot(v.disk, a, j + 13) == Word(v.disk[a[ROOT]], j)
  {
    hide Word;
  }

  lemma ChildEmpty(disk: Disk, disk': Disk, a: Addrs, j: nat)
    requires j < NINDIRECT && SameSlots(disk, disk', a)
    ensures Slot(disk', a, j + 13) == Slot(disk, a, j + 13)
  {
    hide Slot;
  }

  lemma BalancedRefl(v: Vol, files: Files)
    requires v.Sized()
    ensures Balanced(v, files, v, files)
  {}

  lemma BalancedTrans(v: Vol, files: Files, v': Vol, files': Files, v'': Vol, files'': Files)
    requires Balanced(v, files, v', files') && Balanced(v', files', v'', files'')
    ensures Balanced(v, files, v'', files'')
  {}

  /** Looking up or allocating a block loses none: what it takes the file then refers to,
      the indirect block of a lookup that fails half way included. */
  lemma InodeAddrBalanced(v: Vol, files: Files, f: nat, dirty: bool, i: nat, alloc: bool)
    requires SoundVol(v, files) && f in files
    ensures var r := InodeAddr(v, files[f], dirty, i, alloc); Balanced(v, files, r.v, files[f := r.addrs])
  {
    hide Word, PutWord, Take, Used, UsedSet, Pick, Slot, Sound, Balanced, ChildAddr;
    var a := files[f];
    SoundOk(v, files);
    BalancedRefl(v, files);
    assert files[f := a] == files;
    if i < NDIRECT && a[i] == 0 && alloc && Pick(v) != 0 {
      CachedBalanced(v, files, f, i);
    } else if NDIRECT <= i < MAXFILE && a[ROOT] != 0 {
      ChildBalanced(v, files, f, false, i - NDIRECT, alloc);
    } else if NDIRECT <= i < MAXFILE && alloc && Pick(v) != 0 {
      CachedBalanced(v, files, f, ROOT);
      var v1, files1 := Take(v, Pick(v)), files[f := a[ROOT := Pick(v)]];
      ChildBalanced(v1, files1, f, true, i - NDIRECT, alloc);
      BalancedTrans(v, files, v1, files1, InodeAddr(v, a, dirty, i, alloc).v, files1);
    }
  }

  // ----- one file -----

  lemma ReferencedInside(disk: Disk, lo: nat, used: set<nat>, files: Files)
    requires Sound(disk, lo, used, files)
    ensures Referenced(disk, files) <= used
  {
    hide Slot;
  }

  /** What one of the files refers to, no other does. */
  lemma ReferencedLess(disk: Disk, lo: nat, used: set<nat>, files: Files, f: nat)
    requires Sound(disk, lo, used, files) && f in files
    ensures Referenced(disk, files) == Referenced(disk, files - {f}) + Refs(disk, files[f])
    ensures Referenced(disk, files - {f}) !! Refs(disk, files[f])
  {
    hide Slot;
    forall e, k: nat | e in files && k < NSLOTS && Slot(disk, files[e], k) != 0
      ensures e != f ==> Slot(disk, files[e], k) as nat in Referenced(disk, files - {f})
      ensures e != f ==> Slot(disk, files[e], k) as nat !in Refs(disk, files[f])
      ensures e == f ==> Slot(disk, files[e], k) as nat in Refs(disk, files[f])
    {
      if e != f { assert (files - {f})[e] == files[e]; }
    }
    forall x | x in Refs(disk, files[f]) ensures x in Referenced(disk, files) {}
  }

  // ----- sets -----

  lemma SubsetSame(a: set<nat>, b: set<nat>)
    requires a <= b && |b| <= |a|
    ensures a == b
  {
    if a != b {
      var x :| x in b && x !in a;
      assert a <= b - {x};
      SubsetCard(a, b - {x});
    }
  }

  lemma {:induction false} SubsetCard(a: set<nat>, b: set<nat>)
    requires a <= b
    ensures |a| <= |b|
    decreases a
  {
    if a != {} {
      var x :| x in a;
      SubsetCard(a - {x}, b - {x});
    }
  }
}
