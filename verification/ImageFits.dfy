/** When the builder gives up on an image (mkxv6.c): exactly when a name is too long,
    a file outgrows the block map, or the blocks all files need are not there. */
module ImageFits {
  import opened Layout
  import opened Volumes
  import opened BlockMap
  import opened Inodes
  import opened FileData
  import opened Directory
  import opened Builder
  import opened Stamping
  import opened Capacity
  import opened Image
  import opened MkFs

  /** Blocks that all files together hold. */
  function Total(want: seq<Spec>): nat {
    if want == [] then 0 else Total(want[..|want| - 1]) + Need(|want[|want| - 1].bytes|)
  }

  lemma {:induction false} TotalUpdate(want: seq<Spec>, i: nat, s: Spec)
    requires i < |want|
    ensures Total(want[i := s]) == Total(want) - Need(|want[i].bytes|) + Need(|s.bytes|)
  {
    hide Need;
    var n := |want| - 1;
    if i < n {
      TotalUpdate(want[..n], i, s);
      assert want[i := s][..n] == want[..n][i := s];
    } else {
      assert want[i := s][..n] == want[..n];
    }
  }

  lemma TotalAppend(want: seq<Spec>, s: Spec)
    ensures Total(want + [s]) == Total(want) + Need(|s.bytes|)
  {
    hide Need;
    assert (want + [s])[..|want|] == want;
  }

  /** All files are within reach and their blocks fit the image. */
  predicate RoomFor(g: Geometry, want: seq<Spec>) {
    && g.DataStart() + Total(want) <= g.size
    && forall i :: 0 <= i < |want| ==> |want[i].bytes| <= MAXBYTES
  }

  /** Files only get longer, and more. */
  predicate Shorter(want: seq<Spec>, want': seq<Spec>) {
    && |want| <= |want'|
    && forall i :: 0 <= i < |want| ==> |want[i].bytes| <= |want'[i].bytes|
  }

  lemma {:induction false} TotalGrows(want: seq<Spec>, want': seq<Spec>)
    requires Shorter(want, want')
    ensures Total(want) <= Total(want')
  {
    hide Need;
    if want != [] && |want| == |want'| {
      var n := |want| - 1;
      TotalGrows(want[..n], want'[..n]);
      NeedGrows(|want[n].bytes|, |want'[n].bytes|);
    } else if want' != [] && |want| < |want'| {
      TotalGrows(want, want'[..|want'| - 1]);
    }
  }

  lemma RoomForLess(g: Geometry, want: seq<Spec>, want': seq<Spec>)
    requires Shorter(want, want') && RoomFor(g, want')
    ensures RoomFor(g, want)
  {
    TotalGrows(want, want');
    hide Total;
  }

  // ----- images without waste -----

  /** The counter stands right after the blocks all files need, and every file holds
      what it needs. */
  ghost predicate Tight(g: Geometry, img: Img, want: seq<Spec>) {
    && Fits(g, img.disk) && |want| < TableSize(g)
    && img.freeblock == g.DataStart() + Total(want)
    && forall i: nat :: 1 <= i <= |want| ==> Dense(img.disk, DinodeAt(g, img.disk, i).addrs, |want[i - 1].bytes|)
  }

  /** What has been built so far had room. */
  lemma TightRoom(g: Geometry, sb: Block, img: Img, want: seq<Spec>)
    requires Holds(g, sb, img, want) && Tight(g, img, want)
    ensures RoomFor(g, want)
  {
    hide FileIs, DinodeAt, FileBlock, Sound, Total;
    forall i | 0 <= i < |want| ensures |want[i].bytes| <= MAXBYTES {
      assert Dense(img.disk, DinodeAt(g, img.disk, i + 1).addrs, |want[i + 1 - 1].bytes|);
    }
  }

  lemma EmptyDense(disk: Disk)
    ensures Dense(disk, NoAddrs(), 0)
  {}

  lemma NewInodeTight(g: Geometry, sb: Block, st: Mk, want: seq<Spec>, kind: ushort)
    requires Holds(g, sb, st.img, want) && Tight(g, st.img, want) && st.freeinode == |want| + 1 < TableSize(g)
    ensures Tight(g, NewInode(g, st, kind).img, want + [Spec(kind, [])])
  {
    hide DinodeAt, Clean, Winode, FileIs, Dense, Total, SameContents, SameSlots, NoAddrs;
    var files, di := TableFiles(g, st.img.disk, |want|), Dinode(kind, 0, 0, 1, 0, NoAddrs());
    WinodeKeeps(g, st.img, files, st.freeinode, di);
    var img', want' := NewInode(g, st, kind).img, want + [Spec(kind, [])];
    TotalAppend(want, Spec(kind, []));
    EmptyDense(img'.disk);
    forall i: nat | 1 <= i <= |want'| ensures Dense(img'.disk, DinodeAt(g, img'.disk, i).addrs, |want'[i - 1].bytes|) {
      if i <= |want| {
        assert SameSlots(st.img.disk, img'.disk, files[i]);
        DenseSame(st.img.disk, files[i], img'.disk, |want[i - 1].bytes|);
      }
    }
  }

  /** An append goes through exactly when the longer file fits. */
  lemma IAppendTight(g: Geometry, sb: Block, img: Img, want: seq<Spec>, inum: nat, p: seq<byte>)
    requires Holds(g, sb, img, want) && Tight(g, img, want) && 1 <= inum <= |want|
    ensures var want' := want[inum - 1 := Spec(want[inum - 1].kind, want[inum - 1].bytes + p)];
      && (!IAppend(g, img, inum, p).dead <==> RoomFor(g, want'))
      && (!IAppend(g, img, inum, p).dead ==> Tight(g, IAppend(g, img, inum, p), want'))
  {
    hide DinodeAt, Clean, Winode, FileIs, Dense, Total, AppendLoop, Filled, Need, RoomFor;
    var files, di, s := TableFiles(g, img.disk, |want|), DinodeAt(g, img.disk, inum), want[inum - 1];
    var s' := Spec(s.kind, s.bytes + p);
    SizeIs(img.disk, di, s);
    TightRoom(g, sb, img, want);
    AppendExact(g.DataStart(), img, files, inum, di.size, p);
    TotalUpdate(want, inum - 1, s');
    RoomForIs(g, want, inum - 1, s');
    var r := AppendLoop(img, di.addrs, di.size, p);
    if RoomFor(g, want[inum - 1 := s']) {
      FilledAlive(img, files, inum, di.size, di.size + |p|, r);
      AppendLoopWell(g.DataStart(), img, files, inum, di.size, p);
      AppendTight(g, img, want, inum, p, r);
    }
  }

  lemma FilledAlive(img: Img, files: Files, f: nat, off: nat, end: nat, r: Appended)
    requires Filled(img, files, f, off, end, r)
    ensures !r.img.dead
  {}

  lemma SizeIs(disk: Disk, di: Dinode, s: Spec)
    requires FileIs(disk, di, s)
    ensures di.size == |s.bytes|
  {}

  lemma RoomForIs(g: Geometry, want: seq<Spec>, i: nat, s: Spec)
    requires RoomFor(g, want) && i < |want|
    ensures RoomFor(g, want[i := s]) <==> |s.bytes| <= MAXBYTES && g.DataStart() + Total(want[i := s]) <= g.size
  {
    hide Total;
    assert RoomFor(g, want[i := s]) ==> |want[i := s][i].bytes| <= MAXBYTES;
  }

  lemma AppendTight(g: Geometry, img: Img, want: seq<Spec>, inum: nat, p: seq<byte>, r: Appended)
    requires Tight(g, img, want) && 1 <= inum <= |want|
    requires DinodeAt(g, img.disk, inum).size == |want[inum - 1].bytes|
    requires var n := |want[inum - 1].bytes|;
      Filled(img, TableFiles(g, img.disk, |want|), inum, n, n + |p|, r)
    requires AppendedWell(g.DataStart(), img, TableFiles(g, img.disk, |want|), inum, |want[inum - 1].bytes|, p, r)
    ensures var di := DinodeAt(g, img.disk, inum);
      && Fits(g, r.img.disk)
      && Tight(g, r.img.(disk := Winode(g, r.img.disk, inum, di.(addrs := r.addrs, size := r.off % U32))),
               want[inum - 1 := Spec(want[inum - 1].kind, want[inum - 1].bytes + p)])
  {
    hide DinodeAt, Clean, Winode, Dense, Total, SameContents, SameSlots, Need, SameBytes, Spliced;
    var files, di, s := TableFiles(g, img.disk, |want|), DinodeAt(g, img.disk, inum), want[inum - 1];
    var files', di' := files[inum := r.addrs], di.(addrs := r.addrs, size := r.off % U32);
    LoopTable(g, img.disk, r.img.disk);
    WinodeKeeps(g, r.img, files', inum, di');
    var disk' := Winode(g, r.img.disk, inum, di');
    var want' := want[inum - 1 := Spec(s.kind, s.bytes + p)];
    TotalUpdate(want, inum - 1, Spec(s.kind, s.bytes + p));
    forall i: nat | 1 <= i <= |want| ensures Dense(disk', DinodeAt(g, disk', i).addrs, |want'[i - 1].bytes|) {
      assert SameSlots(r.img.disk, disk', files'[i]);
      if i != inum {
        assert SameSlots(img.disk, r.img.disk, files[i]);
        DenseSame(img.disk, files[i], r.img.disk, |want[i - 1].bytes|);
      }
      DenseSame(r.img.disk, files'[i], disk', |want'[i - 1].bytes|);
    }
  }

  /** A file's pieces go through exactly when the whole file fits. */
  lemma {:induction false} IAppendAllTight(g: Geometry, sb: Block, img: Img, want: seq<Spec>, inum: nat,
      chunks: seq<seq<byte>>)
    requires Holds(g, sb, img, want) && Tight(g, img, want) && 1 <= inum <= |want|
    ensures var want' := want[inum - 1 := Spec(want[inum - 1].kind, want[inum - 1].bytes + Flatten(chunks))];
      && (!IAppendAll(g, img, inum, chunks).dead <==> RoomFor(g, want'))
      && (!IAppendAll(g, img, inum, chunks).dead ==> Tight(g, IAppendAll(g, img, inum, chunks), want'))
  {
    hide Holds, IAppend, Tight, RoomFor, Total;
    HoldsFits(g, sb, img, want);
    var s := want[inum - 1];
    if chunks == [] {
      assert s.bytes + [] == s.bytes && want[inum - 1 := s] == want;
      TightRoom(g, sb, img, want);
    } else {
      var front, last := chunks[..|chunks| - 1], chunks[|chunks| - 1];
      var img1, want1 := IAppendAll(g, img, inum, front), want[inum - 1 := Spec(s.kind, s.bytes + Flatten(front))];
      var want2 := want[inum - 1 := Spec(s.kind, s.bytes + Flatten(chunks))];
      IAppendAllTight(g, sb, img, want, inum, front);
      assert s.bytes + Flatten(chunks) == s.bytes + Flatten(front) + last;
      assert want1[inum - 1 := Spec(want1[inum - 1].kind, want1[inum - 1].bytes + last)] == want2;
      if RoomFor(g, want1) {
        IAppendAllHolds(g, sb, img, want, inum, front);
        IAppendTight(g, sb, img1, want1, inum, last);
      } else {
        if RoomFor(g, want2) { RoomForLess(g, want1, want2); }
        if !IAppend(g, img1, inum, last).dead { AliveBefore(g, img1, inum, last); }
      }
    }
  }

  // ----- items -----

  /** Two appends in a row go through exactly when the second does. */
  lemma TwoTight(g: Geometry, sb: Block, img: Img, want: seq<Spec>, kind: ushort, p: seq<byte>, q: seq<byte>)
    requires Holds(g, sb, img, want + [Spec(kind, [])]) && Tight(g, img, want + [Spec(kind, [])])
    ensures Fits(g, img.disk) && |want| + 1 < TableSize(g)
    ensures var img2 := IAppend(g, IAppend(g, img, |want| + 1, p), |want| + 1, q);
      && (!img2.dead <==> RoomFor(g, want + [Spec(kind, p + q)]))
      && (!img2.dead ==> Tight(g, img2, want + [Spec(kind, p + q)]))
  {
    hide Holds, IAppend, Tight, RoomFor, Total;
    var n, w := |want|, want + [Spec(kind, [])];
    HoldsFits(g, sb, img, w);
    var img1, w1, w2 := IAppend(g, img, n + 1, p), want + [Spec(kind, p)], want + [Spec(kind, p + q)];
    assert [] + p == p && w[n := Spec(kind, p)] == w1 && w1[n := Spec(kind, p + q)] == w2;
    IAppendTight(g, sb, img, w, n + 1, p);
    if RoomFor(g, w1) {
      IAppendHolds(g, sb, img, w, n + 1, p);
      IAppendTight(g, sb, img1, w1, n + 1, q);
    } else {
      if RoomFor(g, w2) { RoomForLess(g, w1, w2); }
      if !IAppend(g, img1, n + 1, q).dead { AliveBefore(g, img1, n + 1, q); }
    }
  }

  lemma ItemTight(g: Geometry, sb: Block, img: Img, want: seq<Spec>, item: Item)
    requires Holds(g, sb, img, want + [Spec(item.Kind(), [])]) && Tight(g, img, want + [Spec(item.Kind(), [])])
    ensures Fits(g, img.disk) && |want| + 1 < TableSize(g)
    ensures var r, want' := ItemImage(g, img, item, |want| + 1), want + [ItemSpec(item, |want| + 1)];
      && (!r.dead <==> RoomFor(g, want'))
      && (!r.dead ==> Tight(g, r, want') && Holds(g, sb, r, want'))
  {
    hide Holds, IAppend, IAppendAll, Tight, RoomFor, EntryBytes;
    var inum, w := |want| + 1, want + [Spec(item.Kind(), [])];
    HoldsFits(g, sb, img, w);
    ItemFilled(g, sb, img, want, item);
    match item
    case DirItem(_) =>
      TwoTight(g, sb, img, want, T_DIR, EntryBytes(inum, Dot()), EntryBytes(ROOTINO, DotDot()));
    case FileItem(_, chunks) =>
      IAppendAllTight(g, sb, img, w, inum, chunks);
      assert [] + Flatten(chunks) == Flatten(chunks);
      assert w[inum - 1 := Spec(T_FILE, Flatten(chunks))] == want + [ItemSpec(item, inum)];
  }

  /** One more item goes through exactly when its name is not too long and all files
      then fit. */
  lemma AddItemTight(g: Geometry, sb: Block, st: Mk, items: seq<Item>, item: Item)
    requires Holds(g, sb, st.img, Wanted(items)) && Tight(g, st.img, Wanted(items))
    requires st.freeinode == |items| + 2 < TableSize(g)
    ensures Fits(g, st.img.disk)
    ensures !AddItem(g, st, item).img.dead <==> |item.name| <= DIRSIZ && RoomFor(g, Wanted(items + [item]))
    ensures !AddItem(g, st, item).img.dead ==> Tight(g, AddItem(g, st, item).img, Wanted(items + [item]))
  {
    hide Holds, IAppend, ItemImage, Tight, RoomFor, EntryBytes, Wanted, NewInode, ItemSpec, RootBytes;
    var want, inum := Wanted(items), |items| + 2;
    HoldsFits(g, sb, st.img, want);
    if |item.name| <= DIRSIZ {
      NewInodeHolds(g, sb, st, want, item.Kind());
      NewInodeTight(g, sb, st, want, item.Kind());
      var img1 := ItemImage(g, NewInode(g, st, item.Kind()).img, item, inum);
      ItemTight(g, sb, NewInode(g, st, item.Kind()).img, want, item);
      var want1, e := want + [ItemSpec(item, inum)], EntryBytes(inum, item.name);
      WantedRoot(items);
      WantedAppend(items, item);
      if RoomFor(g, want1) {
        IAppendTight(g, sb, img1, want1, ROOTINO, e);
      } else {
        if RoomFor(g, Wanted(items + [item])) { RoomForLess(g, want1, Wanted(items + [item])); }
        if !IAppend(g, img1, ROOTINO, e).dead { AliveBefore(g, img1, ROOTINO, e); }
      }
    }
  }

  // ----- the whole image -----

  /** What the host's files must meet for an image with this layout. */
  predicate AllFit(g: Geometry, items: seq<Item>) {
    && (forall k :: 0 <= k < |items| ==> |items[k].name| <= DIRSIZ)
    && RoomFor(g, Wanted(items))
  }

  lemma StartTight(g: Geometry, sb: Block)
    requires g.Formed()
    ensures !Start(g, sb).img.dead <==> RoomFor(g, Wanted([]))
    ensures !Start(g, sb).img.dead ==> Tight(g, Start(g, sb).img, Wanted([]))
  {
    hide Holds, IAppend, EntryBytes, NewInode, Blank, RoomFor, Tight;
    BlankHolds(g, sb);
    BlankTight(g, sb);
    var st0 := Mk(Img(Blank(g, sb), g.DataStart(), false), ROOTINO);
    NewInodeHolds(g, sb, st0, [], T_DIR);
    NewInodeTight(g, sb, st0, [], T_DIR);
    var img1 := NewInode(g, st0, T_DIR).img;
    TwoTight(g, sb, img1, [], T_DIR, EntryBytes(ROOTINO, Dot()), EntryBytes(ROOTINO, DotDot()));
    assert [] + [Spec(T_DIR, RootBytes([]))] == Wanted([]);
  }

  lemma BlankTight(g: Geometry, sb: Block)
    requires g.Formed()
    ensures Tight(g, Img(Blank(g, sb), g.DataStart(), false), [])
  {
    hide DinodeAt;
  }

  lemma WantedLonger(items: seq<Item>, item: Item)
    ensures Shorter(Wanted(items), Wanted(items + [item]))
  {
    hide ItemSpec, EntryBytes;
    RootAppend(items, item);
    hide RootBytes;
    forall i | 0 <= i < |Wanted(items)| ensures |Wanted(items)[i].bytes| <= |Wanted(items + [item])[i].bytes| {
      if i > 0 {
        WantedAt(items, i);
        WantedAt(items + [item], i);
      }
    }
  }

  /** The loop over the command line goes through exactly when everything fits. */
  lemma {:induction false} AddItemsTight(g: Geometry, sb: Block, items: seq<Item>)
    requires g.Formed() && 2 + |items| <= TableSize(g)
    ensures !AddItems(g, sb, items).img.dead <==> AllFit(g, items)
    ensures !AddItems(g, sb, items).img.dead ==> Tight(g, AddItems(g, sb, items).img, Wanted(items))
  {
    hide Holds, Start, AddItem, Wanted, Tight, RoomFor;
    if items == [] {
      StartTight(g, sb);
    } else {
      var front, last := items[..|items| - 1], items[|items| - 1];
      var st := AddItems(g, sb, front);
      assert front + [last] == items;
      AddItemsTight(g, sb, front);
      WantedLonger(front, last);
      if st.img.dead {
        if !AddItem(g, st, last).img.dead { ItemAlive(g, st, last); }
        if RoomFor(g, Wanted(items)) { RoomForLess(g, Wanted(front), Wanted(items)); }
      } else {
        AddItemsHolds(g, sb, front);
        AddItemTight(g, sb, st, front, last);
      }
    }
  }

  /** The builder finishes an image if and only if no name is too long, no file and
      not the root outgrows the block map, and the metadata with the blocks all files
      need fit the image and one bitmap block; then the counter stands exactly behind
      those blocks. */
  lemma BuilderFinishes(g: Geometry, sb: Block, items: seq<Item>)
    requires g.Formed() && 2 + |items| <= TableSize(g)
    ensures !MakeImage(g, sb, items).dead <==> AllFit(g, items) && g.DataStart() + Total(Wanted(items)) < BPB
    ensures !MakeImage(g, sb, items).dead ==> MakeImage(g, sb, items).freeblock == g.DataStart() + Total(Wanted(items))
  {
    hide AddItems, AllFit, Total, Winode, DinodeAt, Dense, Wanted, Bits;
    AddItemsTight(g, sb, items);
  }

  /** Rounding the root up and writing the bitmap leaves all other records alone. */
  lemma FinishRecords(g: Geometry, img: Img, i: nat)
    requires Fits(g, img.disk) && !Finish(g, img).dead && i < TableSize(g) && i != ROOTINO
    ensures DinodeAt(g, Finish(g, img).disk, i) == DinodeAt(g, img.disk, i)
  {
    hide DinodeAt, PutInode, Bits, UsedSet;
    var di := DinodeAt(g, img.disk, ROOTINO);
    var di' := di.(size := RoundUp(di.size) % U32);
    PutInodeEffect(Vol(g, img.disk, 0, []), ROOTINO, di');
    var disk1 := Winode(g, img.disk, ROOTINO, di');
    DinodeFrame(g, disk1, disk1[g.bmapstart := Bits(img.freeblock)]);
  }

  /** In a finished image an item's record refers to blocks exactly if it has a byte. */
  lemma ItemRefs(g: Geometry, sb: Block, items: seq<Item>, k: nat)
    requires g.Formed() && 2 + |items| <= TableSize(g) && !MakeImage(g, sb, items).dead && k < |items|
    ensures var disk := MakeImage(g, sb, items).disk;
      Refs(disk, DinodeAt(g, disk, k + 2).addrs) == {} <==> ItemSpec(items[k], k + 2).bytes == []
  {
    hide AddItems, AllFit, Total, Winode, DinodeAt, ItemSpec, RootBytes, Bits, Dense, Refs;
    var img, want := AddItems(g, sb, items).img, Wanted(items);
    AddItemsTight(g, sb, items);
    WantedAt(items, k + 1);
    FinishRecords(g, img, k + 2);
    var di := DinodeAt(g, img.disk, k + 2);
    assert Dense(img.disk, di.addrs, |want[k + 2 - 1].bytes|);
    DenseRefs(img.disk, di.addrs, |want[k + 1].bytes|, MakeImage(g, sb, items).disk);
  }

  /** A file without holes refers to a block exactly if it has a byte. */
  lemma DenseRefs(disk: Disk, a: Addrs, size: nat, disk': Disk)
    requires Dense(disk, a, size)
    ensures Refs(disk', a) == {} <==> size == 0
  {
    if size == 0 {
      forall k: nat | k < NSLOTS ensures Slot(disk', a, k) == 0 {
        if k < NDIRECT { assert FileBlock(disk, a, k) == a[k]; }
      }
    } else {
      assert FileBlock(disk, a, 0) == Slot(disk', a, 0);
      assert Slot(disk', a, 0) as nat in Refs(disk', a);
    }
  }
}
