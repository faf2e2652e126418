/** A new image has no waste (mkxv6.c): its files refer to every block that has been
    handed out, so the bitmap marks the metadata and their blocks and nothing else. */
module Packed {
  import opened Layout
  import opened Volumes
  import opened BlockMap
  import opened Balance
  import opened Inodes
  import opened Builder
  import opened Stamping
  import opened Capacity
  import opened Image
  import opened MkFs
  import opened ImageFits

  // ----- counting the blocks of one file -----

  /** The first `n` data blocks of a file. */
  function FirstRefs(disk: Disk, a: Addrs, n: nat): set<nat>
    requires n <= MAXFILE
  {
    if n == 0 then {} else FirstRefs(disk, a, n - 1) + {FileBlock(disk, a, n - 1) as nat}
  }

  /** Different data blocks of a file are different blocks. */
  ghost predicate Apart(disk: Disk, a: Addrs) {
    forall j: nat, k: nat :: j < NSLOTS && k < NSLOTS && Slot(disk, a, j) != 0 && Slot(disk, a, j) == Slot(disk, a, k)
      ==> j == k
  }

  lemma {:induction false} FirstRefsFrom(disk: Disk, a: Addrs, n: nat, x: nat) returns (i: nat)
    requires n <= MAXFILE && x in FirstRefs(disk, a, n)
    ensures i < n && x == FileBlock(disk, a, i) as nat
  {
    hide FileBlock;
    if x == FileBlock(disk, a, n - 1) as nat {
      i := n - 1;
    } else {
      i := FirstRefsFrom(disk, a, n - 1, x);
    }
  }

  lemma {:induction false} FirstRefsHas(disk: Disk, a: Addrs, n: nat, i: nat)
    requires i < n <= MAXFILE
    ensures FileBlock(disk, a, i) as nat in FirstRefs(disk, a, n)
  {
    hide FileBlock;
    if i < n - 1 { FirstRefsHas(disk, a, n - 1, i); }
  }

  lemma {:induction false} FirstRefsCount(disk: Disk, a: Addrs, n: nat)
    requires Apart(disk, a) && n <= MAXFILE && forall i: nat :: i < n ==> FileBlock(disk, a, i) != 0
    ensures |FirstRefs(disk, a, n)| == n
  {
    hide FileBlock, Apart;
    if n > 0 {
      FirstRefsCount(disk, a, n - 1);
      if FileBlock(disk, a, n - 1) as nat in FirstRefs(disk, a, n - 1) {
        var i := FirstRefsFrom(disk, a, n - 1, FileBlock(disk, a, n - 1) as nat);
        BlocksApart(disk, a, i, n - 1);
      }
    }
  }

  lemma BlocksApart(disk: Disk, a: Addrs, i: nat, j: nat)
    requires Apart(disk, a) && i < MAXFILE && j < MAXFILE && FileBlock(disk, a, i) != 0
    requires FileBlock(disk, a, i) == FileBlock(disk, a, j)
    ensures i == j
  {
    hide Slot;
    assert DataSlot(i) < NSLOTS && DataSlot(j) < NSLOTS;
  }

  /** A block of a file is one of its data blocks, or its indirect block. */
  lemma RefKinds(disk: Disk, a: Addrs, x: nat)
    requires x in Refs(disk, a)
    ensures (a[ROOT] != 0 && x == a[ROOT] as nat) || exists i: nat ::
      i < MAXFILE && FileBlock(disk, a, i) != 0 && x == FileBlock(disk, a, i) as nat
  {
    hide Slot;
    RootSlot(disk, a);
    var k: nat :| k < NSLOTS && Slot(disk, a, k) != 0 && x == Slot(disk, a, k) as nat;
    if k != ROOT {
      var i := if k < ROOT then k else k - 1;
      assert DataSlot(i) == k && FileBlock(disk, a, i) == Slot(disk, a, k);
    }
  }

  lemma RefHas(disk: Disk, a: Addrs, i: nat)
    requires i < MAXFILE && FileBlock(disk, a, i) != 0
    ensures FileBlock(disk, a, i) as nat in Refs(disk, a) && (Apart(disk, a) ==> FileBlock(disk, a, i) != a[ROOT])
  {
    RootSlot(disk, a);
    hide Slot;
    assert DataSlot(i) < NSLOTS && DataSlot(i) != ROOT;
  }

  lemma RefRoot(disk: Disk, a: Addrs)
    requires a[ROOT] != 0
    ensures a[ROOT] as nat in Refs(disk, a)
  {
    RootSlot(disk, a);
    hide Slot;
  }

  /** A file without holes refers to as many blocks as its size calls for. */
  lemma DenseCount(disk: Disk, a: Addrs, size: nat)
    requires Dense(disk, a, size) && Apart(disk, a)
    ensures |Refs(disk, a)| == Need(size)
  {
    var n := (size + BSIZE - 1) / BSIZE;
    hide FileBlock, Apart, Refs, FirstRefs;
    forall i: nat | i < MAXFILE ensures FileBlock(disk, a, i) != 0 <==> i < n { assert i * BSIZE < size <==> i < n; }
    FirstRefsCount(disk, a, n);
    var root: set<nat> := if a[ROOT] != 0 then {a[ROOT] as nat} else {};
    RefsAre(disk, a, n, root);
  }

  lemma RefsAre(disk: Disk, a: Addrs, n: nat, root: set<nat>)
    requires Apart(disk, a) && n <= MAXFILE && root == if a[ROOT] != 0 then {a[ROOT] as nat} else {}
    requires forall i: nat :: i < MAXFILE ==> (FileBlock(disk, a, i) != 0 <==> i < n)
    ensures Refs(disk, a) == FirstRefs(disk, a, n) + root && FirstRefs(disk, a, n) !! root
  {
    hide FileBlock, Apart, Refs, FirstRefs;
    if a[ROOT] != 0 { RefRoot(disk, a); }
    forall x | x in Refs(disk, a) ensures x in FirstRefs(disk, a, n) + root {
      RefKinds(disk, a, x);
      if x !in root {
        var i: nat :| i < MAXFILE && FileBlock(disk, a, i) != 0 && x == FileBlock(disk, a, i) as nat;
        FirstRefsHas(disk, a, n, i);
      }
    }
    forall x | x in FirstRefs(disk, a, n) ensures x in Refs(disk, a) && x !in root {
      var i := FirstRefsFrom(disk, a, n, x);
      RefHas(disk, a, i);
    }
  }

  lemma RootSlot(disk: Disk, a: Addrs)
    ensures Slot(disk, a, ROOT) == a[ROOT]
  {}

  // ----- counting the blocks of all files -----

  lemma {:induction false} ReferencedCount(g: Geometry, disk: Disk, used: set<nat>, want: seq<Spec>)
    requires Fits(g, disk) && |want| < TableSize(g)
    requires Sound(disk, g.DataStart(), used, TableFiles(g, disk, |want|))
    requires forall i: nat :: 1 <= i <= |want| ==> Dense(disk, DinodeAt(g, disk, i).addrs, |want[i - 1].bytes|)
    ensures |Referenced(disk, TableFiles(g, disk, |want|))| == Total(want)
  {
    hide DinodeAt, Sound, Dense, Need, Apart, Refs, Referenced;
    var n := |want|;
    if n == 0 {
      NoReferences(disk, TableFiles(g, disk, 0));
    } else {
      var files, a := TableFiles(g, disk, n - 1), DinodeAt(g, disk, n).addrs;
      assert TableFiles(g, disk, n) == files[n := a];
      assert files[n := a] - {n} == files;
      ReferencedLess(disk, g.DataStart(), used, files[n := a], n);
      SoundWithout(disk, g.DataStart(), used, files[n := a], n);
      SlotsApart(disk, g.DataStart(), used, files[n := a], n);
      var front := want[..n - 1];
      forall i: nat | 1 <= i <= |front| ensures Dense(disk, DinodeAt(g, disk, i).addrs, |front[i - 1].bytes|) {
        assert front[i - 1] == want[i - 1];
      }
      ReferencedCount(g, disk, used, front);
      assert Dense(disk, a, |want[n - 1].bytes|);
      DenseCount(disk, a, |want[n - 1].bytes|);
    }
  }

  lemma SlotsApart(disk: Disk, lo: nat, used: set<nat>, files: Files, f: nat)
    requires Sound(disk, lo, used, files) && f in files
    ensures Apart(disk, files[f])
  {
    hide Slot;
  }

  lemma NoReferences(disk: Disk, files: Files)
    requires files == map[]
    ensures Referenced(disk, files) == {}
  {
    hide Slot;
  }

  lemma {:induction false} SpanCount(lo: nat, hi: nat)
    requires lo <= hi
    ensures |Span(lo, hi)| == hi - lo
    decreases hi
  {
    if lo < hi { SpanCount(lo, hi - 1); }
  }

  /** Every block handed out belongs to a file. */
  lemma TightPacked(g: Geometry, sb: Block, img: Img, want: seq<Spec>)
    requires Holds(g, sb, img, want) && Tight(g, img, want)
    ensures Referenced(img.disk, TableFiles(g, img.disk, |want|)) == Span(g.DataStart(), img.freeblock)
  {
    hide DinodeAt, FileIs, Dense, Total, Sound, Referenced;
    var files := TableFiles(g, img.disk, |want|);
    ReferencedCount(g, img.disk, Span(g.DataStart(), img.freeblock), want);
    SpanCount(g.DataStart(), img.freeblock);
    ReferencedInside(img.disk, g.DataStart(), Span(g.DataStart(), img.freeblock), files);
    SubsetSame(Referenced(img.disk, files), Span(g.DataStart(), img.freeblock));
  }

  // ----- the finished image -----

  /** Finishing the image changes neither the data blocks nor what files refer to. */
  lemma FinishReferenced(g: Geometry, sb: Block, img: Img, want: seq<Spec>)
    requires Holds(g, sb, img, want) && want != [] && !Finish(g, img).dead
    ensures var disk' := Finish(g, img).disk;
      Referenced(disk', TableFiles(g, disk', |want|)) == Referenced(img.disk, TableFiles(g, img.disk, |want|))
  {
    hide DinodeAt, PutInode, Bits, UsedSet, Sound, Referenced, FileIs, SameSlots;
    var di := DinodeAt(g, img.disk, ROOTINO);
    var di' := di.(size := RoundUp(di.size) % U32);
    var v := Vol(g, img.disk, 0, []);
    PutInodeEffect(v, ROOTINO, di');
    var disk1 := Winode(g, img.disk, ROOTINO, di');
    var disk' := disk1[g.bmapstart := Bits(img.freeblock)];
    DinodeFrame(g, disk1, disk');
    var files := TableFiles(g, img.disk, |want|);
    assert TableFiles(g, disk', |want|) == files;
    var used := Span(g.DataStart(), img.freeblock);
    Frame(img.disk, disk', g.DataStart(), used, used, files);
    ReferencedSame(img.disk, disk', files);
  }

  /** Of the blocks in use in a new image exactly the metadata belong to no file, and every
      record in use is an inode's. */
  lemma NothingWasted(g: Geometry, sb: Block, items: seq<Item>)
    requires g.Formed() && 2 + |items| <= TableSize(g) && !MakeImage(g, sb, items).dead
    ensures var disk := MakeImage(g, sb, items).disk;
      && Referenced(disk, TableFiles(g, disk, |items| + 1)) == Span(g.DataStart(), MakeImage(g, sb, items).freeblock)
      && Orphans(MountedVol(g, disk), TableFiles(g, disk, |items| + 1)) == Span(0, g.DataStart())
      && forall i: nat :: i < TableSize(g) ==> (DinodeAt(g, disk, i).kind != 0 <==> 1 <= i <= |items| + 1)
  {
    hide AddItems, AllFit, Total, DinodeAt, Wanted, Finish, Holds, Tight, Referenced, UsedSet, Finished;
    var img := AddItems(g, sb, items).img;
    AddItemsTight(g, sb, items);
    FinishAlive(g, img);
    AddItemsHolds(g, sb, items);
    TightPacked(g, sb, img, Wanted(items));
    FinishReferenced(g, sb, img, Wanted(items));
    MakeImageFinishes(g, sb, items);
    WastedIn(g, sb, MakeImage(g, sb, items).disk, items, img.freeblock);
  }

  lemma FinishAlive(g: Geometry, img: Img)
    requires Fits(g, img.disk) && !Finish(g, img).dead
    ensures !img.dead && Finish(g, img).freeblock == img.freeblock
  {
    hide DinodeAt, Bits, Winode;
  }

  lemma WastedIn(g: Geometry, sb: Block, disk: Disk, items: seq<Item>, used: nat)
    requires Finished(g, sb, disk, Shipped(items), used)
    requires Referenced(disk, TableFiles(g, disk, |items| + 1)) == Span(g.DataStart(), used)
    ensures Orphans(MountedVol(g, disk), TableFiles(g, disk, |items| + 1)) == Span(0, g.DataStart())
    ensures forall i: nat :: i < TableSize(g) ==> (DinodeAt(g, disk, i).kind != 0 <==> 1 <= i <= |items| + 1)
  {
    hide DinodeAt, Shipped, UsedSet, Referenced, SoundVol, FileIs;
    forall i: nat | 1 <= i <= |items| + 1 ensures DinodeAt(g, disk, i).kind != 0 { UnpackOne(g, disk, items, i); }
  }
}
