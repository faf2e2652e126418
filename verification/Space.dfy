/** How many blocks an allocating lookup needs, and when it fails: exactly when the
    block map does not reach that far, or there are not that many clear blocks. */
module Space {
  import opened Layout
  import opened Bytes
  import opened Volumes
  import opened Allocator
  import opened BlockMap

  /** The data blocks that are not in use. */
  function ClearBlocks(v: Vol): set<nat>
    requires v.Sized()
  {
    set b: nat | v.g.DataStart() <= b < v.g.size && !Used(v.g, v.disk, b)
  }

  /** How many there are. */
  function ClearCount(v: Vol): nat
    requires v.Sized()
  {
    |ClearBlocks(v)|
  }

  lemma ClearMember(v: Vol, b: nat)
    requires v.Sized()
    ensures b in ClearBlocks(v) <==> v.g.IsData(b) && b !in UsedSet(v.g, v.disk)
  {
    hide Used;
  }

  /** The number of clear blocks depends on the free map alone. */
  lemma ClearSame(v: Vol, v': Vol)
    requires v.Sized() && v'.Sized() && v'.g == v.g && UsedSet(v.g, v'.disk) == UsedSet(v.g, v.disk)
    ensures ClearCount(v') == ClearCount(v)
  {
    hide Used, UsedSet, ClearBlocks;
    forall b: nat ensures b in ClearBlocks(v') <==> b in ClearBlocks(v) {
      ClearMember(v, b);
      ClearMember(v', b);
    }
    assert ClearBlocks(v') == ClearBlocks(v);
  }

  lemma PickClear(v: Vol)
    requires v.Ok()
    ensures Pick(v) == 0 <==> ClearCount(v) == 0
    ensures Pick(v) != 0 ==> ClearCount(Take(v, Pick(v))) == ClearCount(v) - 1
  {
    hide Used, UsedSet, ClearBlocks, Take, Pick;
    PickIsClear(v);
    if Pick(v) != 0 {
      var v' := Take(v, Pick(v));
      TakeUsed(v);
      forall b: nat ensures b in ClearBlocks(v') <==> b in ClearBlocks(v) - {Pick(v)} {
        ClearMember(v, b);
        ClearMember(v', b);
      }
      assert ClearBlocks(v') == ClearBlocks(v) - {Pick(v)};
    }
  }

  lemma PickIsClear(v: Vol)
    requires v.Ok()
    ensures Pick(v) == 0 <==> ClearBlocks(v) == {}
    ensures Pick(v) != 0 ==> Pick(v) in ClearBlocks(v)
  {
    hide Pick, Used;
    PickFirstFit(v);
    if ClearBlocks(v) == {} {
      forall b: nat | v.g.IsData(b) ensures Used(v.g, v.disk, b) {
        assert b !in ClearBlocks(v);
      }
    } else {
      var b :| b in ClearBlocks(v);
      assert v.g.IsData(b) && !Used(v.g, v.disk, b);
    }
  }

  lemma TakeUsed(v: Vol)
    requires v.Ok() && Pick(v) != 0
    ensures UsedSet(v.g, Take(v, Pick(v)).disk) == UsedSet(v.g, v.disk) + {Pick(v)}
  {
    PickSound(v);
    TakeEffect(v, Pick(v));
  }

  // ----- one block of a file -----

  /** Blocks that have to be allocated for an inode to have block `i`. */
  function Cost(disk: Disk, a: Addrs, i: nat): nat
    requires i < MAXFILE
  {
    if FileBlock(disk, a, i) != 0 then 0 else if i >= NDIRECT && a[ROOT] == 0 then 2 else 1
  }

  /** What an allocating lookup of block `i` comes back with, when `clear` blocks
      are not in use. */
  function SupplyOf(disk: Disk, a: Addrs, i: nat, clear: nat): (e: Errno)
    ensures e in {OK, ENOSPC, EFBIG}
  {
    if i >= MAXFILE then EFBIG else if Cost(disk, a, i) <= clear then OK else ENOSPC
  }

  function Supply(v: Vol, a: Addrs, i: nat): (e: Errno)
    requires v.Sized()
    ensures e in {OK, ENOSPC, EFBIG}
  {
    SupplyOf(v.disk, a, i, ClearCount(v))
  }

  /** Files with the same slots have the same costs. */
  lemma CostSame(disk: Disk, disk': Disk, a: Addrs, i: nat)
    requires i < MAXFILE && SameSlots(disk, disk', a)
    ensures Cost(disk', a, i) == Cost(disk, a, i)
  {
    hide Slot;
    assert DataSlot(i) < NSLOTS;
  }

  lemma SupplySame(v: Vol, v': Vol, a: Addrs, i: nat)
    requires v.Sized() && v'.Sized() && v'.g == v.g && UsedSet(v.g, v'.disk) == UsedSet(v.g, v.disk)
    requires SameSlots(v.disk, v'.disk, a)
    ensures Supply(v', a, i) == Supply(v, a, i)
  {
    hide Used, UsedSet, ClearBlocks, SameSlots, Cost;
    ClearSame(v, v');
    if i < MAXFILE { CostSame(v.disk, v'.disk, a, i); }
  }

  /** An allocating lookup of block `i`: its result, what it takes from the clear
      blocks, and that no other block of any file is another one afterwards. */
  ghost predicate Spent(v: Vol, files: Files, f: nat, i: nat, r: AddrResult) {
    && f in files && v.Sized() && r.v.Sized()
    && r.err == Supply(v, files[f], i)
    && (r.err == OK ==>
          && ClearCount(r.v) == ClearCount(v) - Cost(v.disk, files[f], i)
          && (r.addrs[ROOT] != 0 <==> files[f][ROOT] != 0 || i >= NDIRECT)
          && (forall j: nat :: j < MAXFILE && j != i ==>
                FileBlock(r.v.disk, r.addrs, j) == FileBlock(v.disk, files[f], j))
          && FileBlock(r.v.disk, r.addrs, i) != 0)
  }

  /** A block attached to an inode becomes that one block of the file. */
  lemma AttachedBlocks(v: Vol, files: Files, f: nat, k: nat, b: uint)
    requires SoundVol(v, files) && FreshIn(v, files, b) && f in files && k <= ROOT && files[f][k] == 0
    ensures var a' := files[f][k := b];
      forall j: nat :: j < MAXFILE ==>
        FileBlock(v.disk, a', j) == if j == k < NDIRECT then b else FileBlock(v.disk, files[f], j)
  {
    hide Slot, Sound, UsedSet;
    Attach(v.disk, v.g.DataStart(), UsedSet(v.g, v.disk), files, f, k, b);
    var a': Addrs := files[f][k := b];
    forall m: nat | m < NSLOTS ensures Slot(v.disk, a', m) == if m == k then b else Slot(v.disk, files[f], m) {
      assert Slot(v.disk, files[f], m) != b;
    }
    forall j: nat | j < MAXFILE ensures DataSlot(j) < NSLOTS && (DataSlot(j) == k <==> j == k && k < NDIRECT) {}
  }

  lemma SameBlocks(disk: Disk, disk': Disk, a: Addrs)
    requires SameSlots(disk, disk', a)
    ensures forall j: nat :: j < MAXFILE ==> FileBlock(disk', a, j) == FileBlock(disk, a, j)
  {
    hide Slot;
    forall j: nat | j < MAXFILE ensures DataSlot(j) < NSLOTS {}
  }

  lemma DirectSpent(v: Vol, files: Files, f: nat, dirty: bool, i: nat)
    requires SoundVol(v, files) && f in files && i < NDIRECT && files[f][i] == 0 && Pick(v) != 0
    ensures Spent(v, files, f, i, InodeAddr(v, files[f], dirty, i, true))
  {
    hide Word, Take, Used, UsedSet, ChildAddr, Pick, Slot, ClearBlocks, Sound;
    TakeSafe(v, files);
    PickClear(v);
    var v1, a := Take(v, Pick(v)), files[f];
    FirstBlocks(v.disk, a, i);
    SameBlocks(v.disk, v1.disk, a);
    AttachedBlocks(v1, files, f, i, Pick(v));
  }

  lemma ChildSpent(v: Vol, files: Files, f: nat, dirty: bool, i: nat)
    requires SoundVol(v, files) && f in files && NDIRECT <= i < MAXFILE && files[f][ROOT] != 0
    ensures Spent(v, files, f, i, ChildAddr(v, files[f], dirty, i - NDIRECT, true))
  {
    hide Word, PutWord, Take, Used, UsedSet, Pick, Slot, ClearBlocks, Sound, WithChild;
    var a, j := files[f], i - NDIRECT;
    RootInRange(v, files, f);
    PickClear(v);
    ChildWord(v.disk, a, i);
    if FileBlock(v.disk, a, i) == 0 && Pick(v) != 0 {
      ChildBlocks(v, files, f, i);
      ChildClear(v, files, f, j);
    }
  }

  lemma ChildWord(disk: Disk, a: Addrs, i: nat)
    requires NDIRECT <= i < MAXFILE && 0 < a[ROOT] < |disk|
    ensures FileBlock(disk, a, i) == Word(disk[a[ROOT]], i - NDIRECT)
  {}

  /** The volume after a block for an empty entry of the indirect block is taken. */
  function TakeChild(v: Vol, a: Addrs, j: nat): Vol
    requires v.Ok() && Pick(v) != 0 && j < NINDIRECT && a[ROOT] < |v.disk|
  {
    var v1 := Take(v, Pick(v));
    v1.Put(a[ROOT], PutWord(v1.disk[a[ROOT]], j, Pick(v)))
  }

  lemma ChildClear(v: Vol, files: Files, f: nat, j: nat)
    requires SoundVol(v, files) && f in files && j < NINDIRECT && 0 < files[f][ROOT] < |v.disk| && Pick(v) != 0
    ensures TakeChild(v, files[f], j).Sized() && ClearCount(TakeChild(v, files[f], j)) == ClearCount(v) - 1
  {
    hide PutWord, Take, Used, UsedSet, Pick, Slot, ClearBlocks, Sound;
    RootInRange(v, files, f);
    PickClear(v);
    var v1 := Take(v, Pick(v));
    DataPutUsed(v1, files[f][ROOT], PutWord(v1.disk[files[f][ROOT]], j, Pick(v)));
    ClearSame(v1, TakeChild(v, files[f], j));
  }

  lemma ChildBlocks(v: Vol, files: Files, f: nat, i: nat)
    requires SoundVol(v, files) && f in files && NDIRECT <= i < MAXFILE && 0 < files[f][ROOT] < |v.disk|
    requires Pick(v) != 0
    ensures var d := TakeChild(v, files[f], i - NDIRECT).disk;
      && (forall j: nat :: j < MAXFILE && j != i ==> FileBlock(d, files[f], j) == FileBlock(v.disk, files[f], j))
      && FileBlock(d, files[f], i) == Pick(v)
  {
    hide Word, PutWord, Take, Used, UsedSet, Pick, Slot, Sound;
    var a, j := files[f], i - NDIRECT;
    TakeSafe(v, files);
    var v1 := Take(v, Pick(v));
    SameBlocks(v.disk, v1.disk, a);
    ChildSlots(v1.disk, v.g.DataStart(), UsedSet(v.g, v1.disk), files, f, j, Pick(v));
    assert TakeChild(v, a, j).disk == WithChild(v1.disk, a[ROOT], j, Pick(v)) by { PutChild(v1, a[ROOT], j, Pick(v)); }
    forall m: nat | m < MAXFILE ensures DataSlot(m) < NSLOTS && (DataSlot(m) == j + 13 <==> m == i) {}
  }

  lemma PutChild(v: Vol, r: nat, j: nat, b: uint)
    requires r < |v.disk| && j < NINDIRECT
    ensures v.Put(r, PutWord(v.disk[r], j, b)).disk == WithChild(v.disk, r, j, b)
  {
    hide PutWord;
  }

  lemma RootSpent(v: Vol, files: Files, f: nat, dirty: bool, i: nat)
    requires SoundVol(v, files) && f in files && NDIRECT <= i < MAXFILE && files[f][ROOT] == 0 && Pick(v) != 0
    ensures Spent(v, files, f, i, InodeAddr(v, files[f], dirty, i, true))
  {
    hide Word, Take, Used, UsedSet, ChildAddr, Pick, Slot, ClearBlocks, Sound;
    TakeSafe(v, files);
    PickClear(v);
    var v1, a := Take(v, Pick(v)), files[f];
    var a1: Addrs := a[ROOT := Pick(v)];
    SameBlocks(v.disk, v1.disk, a);
    AttachedBlocks(v1, files, f, ROOT, Pick(v));
    Attach(v1.disk, v.g.DataStart(), UsedSet(v.g, v1.disk), files, f, ROOT, Pick(v));
    NoRootNoBlock(v.disk, a, i);
    NoRootNoBlock(v1.disk, a, i);
    NoSameBlock(v1.disk, a, a1, i);
    ChildSpent(v1, files[f := a1], f, true, i);
    ChildAddrs(v1, a1, true, i - NDIRECT);
  }

  lemma NoSameBlock(disk: Disk, a: Addrs, a1: Addrs, i: nat)
    requires i < MAXFILE && forall j: nat :: j < MAXFILE ==> FileBlock(disk, a1, j) == FileBlock(disk, a, j)
    ensures FileBlock(disk, a1, i) == FileBlock(disk, a, i)
  {}

  lemma ChildAddrs(v: Vol, a: Addrs, dirty: bool, j: nat)
    requires v.Ok() && j < NINDIRECT
    ensures ChildAddr(v, a, dirty, j, true).addrs == a
  {
    hide Take, Pick;
  }

  /** An allocating lookup succeeds exactly when the block map reaches the block and
      as many blocks are clear as it needs; it takes exactly those, and every other
      block of the file stays the one it was. */
  lemma InodeAddrExact(v: Vol, files: Files, f: nat, dirty: bool, i: nat)
    requires SoundVol(v, files) && f in files
    ensures Spent(v, files, f, i, InodeAddr(v, files[f], dirty, i, true))
  {
    hide Word, Take, Used, UsedSet, ChildAddr, Pick, Slot, ClearBlocks, Sound, Spent;
    RootInRange(v, files, f);
    PickClear(v);
    if i < NDIRECT && files[f][i] == 0 && Pick(v) != 0 {
      DirectSpent(v, files, f, dirty, i);
    } else if NDIRECT <= i < MAXFILE && files[f][ROOT] != 0 {
      ChildSpent(v, files, f, false, i);
    } else if NDIRECT <= i < MAXFILE && Pick(v) != 0 {
      RootSpent(v, files, f, dirty, i);
    } else {
      IdleSpent(v, files, f, dirty, i);
    }
  }

  lemma IdleSpent(v: Vol, files: Files, f: nat, dirty: bool, i: nat)
    requires SoundVol(v, files) && f in files
    requires i < NDIRECT ==> files[f][i] != 0 || Pick(v) == 0
    requires NDIRECT <= i < MAXFILE ==> files[f][ROOT] == 0 && Pick(v) == 0
    ensures Spent(v, files, f, i, InodeAddr(v, files[f], dirty, i, true))
  {
    hide Take, Used, UsedSet, ChildAddr, Pick, Slot, ClearBlocks, Sound;
    PickClear(v);
    if i < NDIRECT {
      FirstBlocks(v.disk, files[f], i);
    } else if i < MAXFILE {
      NoRootNoBlock(v.disk, files[f], i);
    }
  }
}
