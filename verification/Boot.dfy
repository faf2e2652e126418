/** From the image builder through any run of the kernel module. */
module Boot {
  import opened Layout
  import opened Volumes
  import opened BlockMap
  import opened Inodes
  import opened FileData
  import opened DirIter
  import opened Directory
  import opened Namespace
  import opened NsProof
  import opened NsSteps
  import opened NsCreate
  import opened NsRuns
  import opened NsRename
  import opened Runs
  import opened Durability
  import opened Crash
  import opened NsCrash
  import opened CrashRuns
  import opened Balance
  import opened Losses
  import opened Refinement
  import opened Builder
  import opened Capacity
  import opened Image
  import opened ImageFits
  import opened Packed
  import opened MkFs
  import opened Superblock
  import opened Mount
  import opened Unmount

  /** The builder is given well-named files that fit the image and its inode table. */
  predicate Good(g: Geometry, items: seq<Item>) {
    && g.Formed() && 2 + |items| <= TableSize(g)
    && AllFit(g, items) && g.DataStart() + Total(Wanted(items)) < BPB
    && (forall k :: 0 <= k < |items| ==> CString(items[k].name)) && GoodNames(items) && |items| + 2 < MAXENTS
  }

  /** The file system that such an image mounts as. */
  function Booted(g: Geometry, sb: Block, items: seq<Item>): Fs
    requires Good(g, items)
  {
    hide MakeImage, AllFit, Total;
    Mounted(g, MakeImage(g, sb, items).disk, |items| + 1)
  }

  lemma BootedInOrder(g: Geometry, sb: Block, items: seq<Item>)
    requires Good(g, items)
    ensures !MakeImage(g, sb, items).dead && Inv(Booted(g, sb, items)) && Exact(Booted(g, sb, items))
    ensures Unpacked(g, MakeImage(g, sb, items).disk, items)
  {
    hide MakeImage, Inv, Exact, GoodNames, CString, AllFit, Total, Unpacked, Finished;
    BuilderFinishes(g, sb, items);
    BuilderEstablishes(g, sb, items);
    MakeImageFinishes(g, sb, items);
    Unpack(g, sb, MakeImage(g, sb, items).disk, items, MakeImage(g, sb, items).freeblock);
  }

  /** Every file of a new image is tidy. */
  lemma BootedTidy(g: Geometry, sb: Block, items: seq<Item>)
    requires Good(g, items)
    ensures TidyState(StateOf(Booted(g, sb, items))) && CountsFit(StateOf(Booted(g, sb, items)))
  {
    hide MakeImage, Good, ZeroTail, DinodeAt, SoundVol, Lists, TidyState, CountsFit, StateOf;
    BootedInOrder(g, sb, items);
    var fs := Booted(g, sb, items);
    TidyFiles(fs);
    BootedNodes(g, sb, items);
    forall f | f in fs.nodes
      ensures fs.nodes[f].size < U32 && ZeroTail(fs.v.disk, fs.nodes[f].addrs, fs.nodes[f].size)
      ensures fs.nodes[f].nlink < U16
    {}
  }

  lemma BootedNodes(g: Geometry, sb: Block, items: seq<Item>)
    requires Good(g, items)
    ensures Booted(g, sb, items) == Mounted(g, MakeImage(g, sb, items).disk, |items| + 1)
    ensures forall f :: f in Booted(g, sb, items).nodes <==> 1 <= f <= |items| + 1
  {
    hide MakeImage, DinodeAt, AllFit, Total, GoodNames;
  }

  /** Every run on an image made from well-named files that fit keeps the invariant,
      refines a run of steps, keeps link counts exact if it is clean, and files tidy if its
      writes start below 4 GiB. */
  lemma RunsFromImage(g: Geometry, sb: Block, items: seq<Item>)
    requires Good(g, items)
    ensures !MakeImage(g, sb, items).dead
    ensures var fs := Booted(g, sb, items);
      && Inv(fs) && Exact(fs) && TidyState(StateOf(fs))
      && (forall ops, fs', clean :: Run(fs, ops, fs', clean) ==>
            && Inv(fs') && Steps(StateOf(fs), ops, Rooms(fs, ops, fs', clean), StateOf(fs'))
            && (clean ==> Exact(fs')) && (Small(ops) ==> TidyState(StateOf(fs'))))
  {
    hide MakeImage, Inv, Exact, Run, Good, Steps, StateOf, Rooms, TidyState, Small;
    BootedInOrder(g, sb, items);
    BootedTidy(g, sb, items);
    var fs := Booted(g, sb, items);
    forall ops, fs', clean | Run(fs, ops, fs', clean)
      ensures Inv(fs') && Steps(StateOf(fs), ops, Rooms(fs, ops, fs', clean), StateOf(fs'))
      ensures (clean ==> Exact(fs')) && (Small(ops) ==> TidyState(StateOf(fs')))
    {
      RunKeepsInv(fs, ops, fs', clean);
      RunRefines(fs, ops, fs', clean);
      if clean { RunKeepsExact(fs, ops, fs'); }
      if Small(ops) { SmallRun(fs, ops, fs', clean); }
    }
  }

  /** Over a run whose writes start below 4 GiB, tidy files stay tidy. */
  lemma SmallRun(fs: Fs, ops: seq<Op>, fs': Fs, clean: bool)
    requires Inv(fs) && TidyState(StateOf(fs)) && Run(fs, ops, fs', clean) && Small(ops)
    ensures TidyState(StateOf(fs'))
  {
    hide Inv, Run, Steps, Rooms, TidyState, Small, StateOf;
    RunRefines(fs, ops, fs', clean);
    SmallRunsTidy(StateOf(fs), ops, Rooms(fs, ops, fs', clean), StateOf(fs'));
  }

  // ----- crashes -----

  /** The table of a new image is what its inodes have. */
  lemma BootedBacked(g: Geometry, sb: Block, items: seq<Item>)
    requires Good(g, items)
    ensures Backed(Booted(g, sb, items), Maps(Booted(g, sb, items)))
  {
    hide MakeImage, Good, DinodeAt, SoundVol, NoDangling, Excess, Exact, Unpacked, FileIs, Shipped;
    BootedInOrder(g, sb, items);
    BootedNodes(g, sb, items);
    GoodFits(g, items);
    var fs, img := Booted(g, sb, items), MakeImage(g, sb, items);
    MakeImageFinishes(g, sb, items);
    BaseSound(fs);
    forall f | f in fs.nodes ensures HasRecord(fs.v, f) { NodeIn(fs, f); }
    forall f | f in Table(g, img.disk) ensures f in Maps(fs) && Extends(Table(g, img.disk)[f], Maps(fs)[f]) {
      assert 1 <= f <= |items| + 1;
      assert fs.nodes[f] == NodeOf(DinodeAt(g, img.disk, f));
    }
  }

  lemma GoodFits(g: Geometry, items: seq<Item>)
    requires Good(g, items)
    ensures g.Formed() && 2 + |items| <= TableSize(g)
  {
    hide AllFit, Total, GoodNames;
  }

  /** A run on a new image goes through consistent images if and only if it releases no
      inode whose record on disk refers to blocks. */
  lemma BootedSurvives(g: Geometry, sb: Block, items: seq<Item>, ops: seq<Op>, fs': Fs, clean: bool)
    requires Good(g, items) && Inv(Booted(g, sb, items)) && Run(Booted(g, sb, items), ops, fs', clean)
    ensures Survives(Booted(g, sb, items).v, fs'.v) <==> SafeRun(Booted(g, sb, items), ops, fs', clean)
  {
    hide Good, Inv, Run, SafeRun, Backed, Survives, Booted;
    BootedBacked(g, sb, items);
    var files := RunSurvives(Booted(g, sb, items), ops, fs', clean, Maps(Booted(g, sb, items)));
  }

  /** Item `k` is entry `k + 2` of the root, and names inode `k + 2`. */
  lemma ItemNamed(g: Geometry, sb: Block, items: seq<Item>, k: nat)
    requires Good(g, items) && k < |items|
    ensures Names(Booted(g, sb, items), ROOTINO, items[k].name, k + 2, k + 2)
    ensures Booted(g, sb, items).nodes[k + 2].nlink == 1 && GoodName(items[k].name)
  {
    hide MakeImage, DinodeAt, SoundVol, ZeroTail, Lists, Pad, RootEntries, Entry, AllFit, Total, CString, Inv, Exact;
    BootedInOrder(g, sb, items);
    BootedNodes(g, sb, items);
    var disk := MakeImage(g, sb, items).disk;
    RootInums(items);
    RootEntryAt(items, k);
    NameOfItem(items, k);
    ListsAt(disk, Booted(g, sb, items).nodes[ROOTINO].addrs, RootEntries(items), k + 2);
  }

  /** What removes item `k` of a new image. */
  function Removal(items: seq<Item>, k: nat): Op
    requires k < |items|
  {
    match items[k]
    case FileItem(name, _) => OpUnlink(ROOTINO, name, k + 2)
    case DirItem(name) => OpRmdir(ROOTINO, name, k + 2)
  }

  /** Removing an item from a new image goes through consistent images if and only if the
      item has no byte: the blocks of any other are free while its record still refers to
      them. */
  lemma BootedReleaseUnsafe(g: Geometry, sb: Block, items: seq<Item>, k: nat)
    requires Good(g, items) && k < |items|
    ensures var fs, op := Booted(g, sb, items), Removal(items, k);
      && Inv(fs) && Legal(fs, op) && Exec(fs, op).1 == OK
      && (Survives(fs.v, Exec(fs, op).0.v) <==> ItemSpec(items[k], k + 2).bytes == [])
  {
    hide MakeImage, Inv, Good, Names, Backed, Survives, Booted, ItemSpec, DinodeAt, NoEntries, Refs, GoodName, Legal,
         Exec, Removal;
    var fs, op := Booted(g, sb, items), Removal(items, k);
    BootedInOrder(g, sb, items);
    BootedBacked(g, sb, items);
    RemovalReleases(g, sb, items, k);
    var files := StepCrash(fs, op, Maps(fs));
    BootedRefs(g, sb, items, k);
  }

  /** A removal is what the VFS may call, and releases the item's inode. */
  lemma RemovalReleases(g: Geometry, sb: Block, items: seq<Item>, k: nat)
    requires Good(g, items) && k < |items|
    ensures var fs, op := Booted(g, sb, items), Removal(items, k);
      && Inv(fs) && Legal(fs, op) && op.f == k + 2 && Releases(fs, op) && Exec(fs, op).1 == OK
  {
    hide MakeImage, Inv, Good, Names, Booted, ItemSpec, DinodeAt, NoEntries, GoodName, Unlink, Rmdir;
    var fs := Booted(g, sb, items);
    BootedInOrder(g, sb, items);
    ItemNamed(g, sb, items, k);
    BootedKinds(g, sb, items, k);
    var name := items[k].name;
    assert Resolves(fs, ROOTINO, name, k + 2);
    if items[k].FileItem? {
      FileHasNoEntries(fs, k + 2);
      UnlinkSteady(fs, ROOTINO, name, SlotOfName(fs, ROOTINO, name, k + 2), k + 2);
    } else {
      RmdirSteady(fs, ROOTINO, name, SlotOfName(fs, ROOTINO, name, k + 2), k + 2);
    }
  }

  /** Item `k` is a directory as given, and an empty one. */
  lemma BootedKinds(g: Geometry, sb: Block, items: seq<Item>, k: nat)
    requires Good(g, items) && k < |items|
    ensures var fs := Booted(g, sb, items);
      && k + 2 in fs.nodes && (fs.nodes[k + 2].isDir <==> items[k].DirItem?) && NoEntries(fs, k + 2)
  {
    hide MakeImage, DinodeAt, Good, Unpacked, Shipped, UsedSet, SoundVol, FileIs, ZeroTail, Lists, LinkAt, Inv, Exact;
    BootedInOrder(g, sb, items);
    BootedNodes(g, sb, items);
    GoodFits(g, items);
    var disk := MakeImage(g, sb, items).disk;
    MakeImageFinishes(g, sb, items);
    UnpackOne(g, disk, items, k + 2);
    forall p: Place | p.d == k + 2 ensures LinkAt(Booted(g, sb, items), p) == 0 { MountedLinks(g, disk, items, p); }
  }

  lemma BootedRefs(g: Geometry, sb: Block, items: seq<Item>, k: nat)
    requires Good(g, items) && k < |items|
    ensures NoStaleRecord(Booted(g, sb, items), k + 2) <==> ItemSpec(items[k], k + 2).bytes == []
  {
    hide MakeImage, DinodeAt, Good, Refs, ItemSpec, Unpacked, Inv, Exact;
    BootedInOrder(g, sb, items);
    BootedNodes(g, sb, items);
    GoodFits(g, items);
    ItemRefs(g, sb, items, k);
  }

  // ----- conservation -----

  /** On a new image the metadata are in use and belong to no file, every other block in
      use does, and every record in use is an inode's. */
  lemma BootedLosesNothing(g: Geometry, sb: Block, items: seq<Item>)
    requires Good(g, items)
    ensures var fs := Booted(g, sb, items);
      fs.v.Sized() && Orphans(fs.v, Maps(fs)) == Span(0, g.DataStart()) && Strays(fs) == {}
  {
    hide Good, MakeImage, DinodeAt, Orphans, Unpacked, Inv, Exact;
    GoodFits(g, items);
    BootedInOrder(g, sb, items);
    BootedNodes(g, sb, items);
    NothingWasted(g, sb, items);
    var disk := MakeImage(g, sb, items).disk;
    assert Maps(Booted(g, sb, items)) == TableFiles(g, disk, |items| + 1);
  }

  /** After any run on a new image the data blocks in use that no inode refers to are as
      many as creations have failed after taking a block. If none has, a data block is in
      use if and only if an inode refers to it, and a record if and only if there is an
      inode. */
  lemma RunsConserve(g: Geometry, sb: Block, items: seq<Item>, ops: seq<Op>, fs': Fs, clean: bool)
    requires Good(g, items) && Inv(Booted(g, sb, items)) && Run(Booted(g, sb, items), ops, fs', clean)
    ensures fs'.v.Sized() && fs'.v.g == g && Span(0, g.DataStart()) <= Orphans(fs'.v, Maps(fs'))
    ensures |Orphans(fs'.v, Maps(fs')) - Span(0, g.DataStart())| == LeaksOf(Booted(g, sb, items), ops, fs', clean)
    ensures LeaksOf(Booted(g, sb, items), ops, fs', clean) == 0 ==>
      && (forall b: nat :: g.IsData(b) ==> (Used(g, fs'.v.disk, b) <==> b in Referenced(fs'.v.disk, Maps(fs'))))
      && (forall i: nat :: 0 < i < TableSize(g) ==> (DinodeAt(g, fs'.v.disk, i).kind != 0 <==> i in fs'.nodes))
  {
    hide Good, Inv, Run, LeaksOf, Booted, Orphans, Strays;
    var fs := Booted(g, sb, items);
    BootedLosesNothing(g, sb, items);
    BootedGeometry(g, sb, items);
    RunLoses(fs, ops, fs', clean);
    CardDiff(Orphans(fs'.v, Maps(fs')), Span(0, g.DataStart()));
    RunKeepsInv(fs, ops, fs', clean);
    if LeaksOf(fs, ops, fs', clean) == 0 {
      NoLeaksNoLoss(fs, ops, fs', clean);
      AllAccounted(fs');
    }
  }

  lemma BootedGeometry(g: Geometry, sb: Block, items: seq<Item>)
    requires Good(g, items)
    ensures Booted(g, sb, items).v.g == g
  {
    hide MakeImage, DinodeAt, AllFit, Total, GoodNames;
  }

  /** What it means that nothing is lost. */
  lemma AllAccounted(fs: Fs)
    requires Inv(fs) && fs.v.Sized() && Orphans(fs.v, Maps(fs)) == Span(0, fs.v.g.DataStart()) && Strays(fs) == {}
    ensures forall b: nat :: fs.v.g.IsData(b) ==> (Used(fs.v.g, fs.v.disk, b) <==> b in Referenced(fs.v.disk, Maps(fs)))
    ensures forall i: nat :: 0 < i < TableSize(fs.v.g) ==>
      (DinodeAt(fs.v.g, fs.v.disk, i).kind != 0 <==> i in fs.nodes)
  {
    hide Base, NoDangling, Excess, DinodeAt, Used, Referenced, Sound;
    BaseSound(fs);
    ReferencedInside(fs.v.disk, fs.v.g.DataStart(), UsedSet(fs.v.g, fs.v.disk), Maps(fs));
    forall b: nat | fs.v.g.IsData(b)
      ensures Used(fs.v.g, fs.v.disk, b) <==> b in Referenced(fs.v.disk, Maps(fs))
    {
      assert b in UsedSet(fs.v.g, fs.v.disk) <==> Used(fs.v.g, fs.v.disk, b);
      assert b !in Orphans(fs.v, Maps(fs));
    }
    forall i: nat | 0 < i < TableSize(fs.v.g)
      ensures DinodeAt(fs.v.g, fs.v.disk, i).kind != 0 <==> i in fs.nodes
    {
      if i in fs.nodes { KindOf(fs, i); }
      assert i !in Strays(fs);
    }
  }

  // ----- unmounting -----

  /** After any run on a new image, writing all inodes back leaves an image that mounts
      again, through consistent images; with the invariant, the same tree of names and
      the same stored bytes; and with the same sizes too if and only if none has reached
      4 GiB, as is the case if all writes start below. */
  lemma MountsAgain(fssize: nat, ninodes: nat, nlog: nat, items: seq<Item>, ops: seq<Op>, fs': Fs, clean: bool,
      order: seq<nat>)
    requires fssize < 0x8000_0000 && ninodes <= 65535 && nlog < 0x4000_0000
    requires MkSuper(fssize, ninodes, nlog).MetaBlocks() <= fssize && Good(MkSuper(fssize, ninodes, nlog).G(), items)
    requires var sb := MkSuper(fssize, ninodes, nlog);
      var fs := Booted(sb.G(), SuperBlock(sb), items);
      Inv(fs) && Run(fs, ops, fs', clean)
    requires forall f :: f in order <==> f in fs'.nodes
    ensures fs'.v.Ok() && InTable(fs')
    ensures var fs1 := SyncAll(fs', order);
      && Survives(fs'.v, fs1.v) && Mounts(fs1.v.disk)
      && Steady(fs', Remounted(fs1)) && StateOf(Remounted(fs1)) == CutState(StateOf(fs'))
      && (StateOf(Remounted(fs1)) == StateOf(fs') <==> forall f :: f in fs'.nodes ==> fs'.nodes[f].size < U32)
      && (Small(ops) ==> StateOf(Remounted(fs1)) == StateOf(fs'))
  {
    hide Good, Inv, Run, Booted, Survives, Mounts, Steady, StateOf, CutState, Backed, Labelled, CountsFit, TidyState,
         Small, SuperBlock, Steps, Rooms, Flushed, UpToDate, SameHead, SyncAll, Remounted, InTable;
    var sb := MkSuper(fssize, ninodes, nlog);
    var g, b0 := sb.G(), SuperBlock(sb);
    var fs := Booted(g, b0, items);
    RunKeepsInv(fs, ops, fs', clean);
    AllHaveRecords(fs');
    BootedBacked(g, b0, items);
    var files := RunSurvives(fs, ops, fs', clean, Maps(fs));
    SyncAllSurvives(fs', order, files);
    BootedTidy(g, b0, items);
    RunRefines(fs, ops, fs', clean);
    RunCounts(StateOf(fs), ops, Rooms(fs, ops, fs', clean), StateOf(fs'));
    UnmountMount(fs', order);
    BootedLabelled(fssize, ninodes, nlog, items);
    RunHead(fs, ops, fs', clean);
    LabelKept(fs.v, fs'.v);
    FlushedMounts(fs', order);
    if Small(ops) {
      SmallRun(fs, ops, fs', clean);
      TidySizes(fs');
    }
  }

  lemma FlushedMounts(fs: Fs, order: seq<nat>)
    requires Inv(fs) && fs.v.Ok() && InTable(fs) && Labelled(fs.v) && forall f :: f in order <==> f in fs.nodes
    ensures Mounts(SyncAll(fs, order).v.disk)
  {
    hide Inv, Labelled, Mounts, UpToDate, Flushed, SyncAll;
    SyncAllFlushes(fs, order);
    var fs1 := SyncAll(fs, order);
    FlushedInv(fs, fs1);
    FlushedLabel(fs, fs1);
    AllHaveRecords(fs1);
    InvRoot(fs1);
    ChecksAgain(fs1);
  }

  lemma InvRoot(fs: Fs)
    requires Inv(fs)
    ensures ROOTINO in fs.nodes
  {
    hide NoDangling, Excess, SoundVol, GoodNodes;
  }

  lemma FlushedLabel(fs: Fs, fs': Fs)
    requires Flushed(fs, fs') && Labelled(fs.v)
    ensures fs'.v.Sized() && Labelled(fs'.v)
  {
    hide Inv, SameNode, Labelled, DinodeAt;
    LabelKept(fs.v, fs'.v);
  }

  lemma TidySizes(fs: Fs)
    requires Inv(fs) && TidyState(StateOf(fs))
    ensures forall f :: f in fs.nodes ==> fs.nodes[f].size < U32
  {
    hide Inv, TidyState, StateOf, ZeroTail;
    TidyFiles(fs);
    forall f | f in fs.nodes && fs.nodes[f].isDir ensures fs.nodes[f].size < U32 { DirSizeFits(fs, f); }
  }

  lemma BootedLabelled(fssize: nat, ninodes: nat, nlog: nat, items: seq<Item>)
    requires fssize < 0x8000_0000 && ninodes <= 65535 && nlog < 0x4000_0000
    requires MkSuper(fssize, ninodes, nlog).MetaBlocks() <= fssize && Good(MkSuper(fssize, ninodes, nlog).G(), items)
    ensures var sb := MkSuper(fssize, ninodes, nlog);
      var v := Booted(sb.G(), SuperBlock(sb), items).v;
      v.Sized() && Labelled(v)
  {
    hide Good, MakeImage, DinodeAt, SuperBlock, ReadSuper, Accepted, DoCheck, Inv, Exact, Unpacked;
    var sb := MkSuper(fssize, ninodes, nlog);
    GoodFits(sb.G(), items);
    BootedInOrder(sb.G(), SuperBlock(sb), items);
    BootedNodes(sb.G(), SuperBlock(sb), items);
    BuiltImageMounts(fssize, ninodes, nlog, items);
  }

  // ----- a rename that loses its entry -----

  /** On a new image, renaming one item to the name of another fails, and the item is
      lost: nothing names its inode any more, and its link count is still 1. */
  lemma BootedRenameLoses(g: Geometry, sb: Block, items: seq<Item>, i: nat, j: nat)
    requires Good(g, items) && i < |items| && j < |items| && i != j
    ensures var fs := Booted(g, sb, items);
      && Inv(fs) && Exact(fs) && fs.v.Ok() && DirSized(fs.nodes[ROOTINO].size % U32)
      && var (fs', err) := Rename(fs, ROOTINO, items[i].name, ROOTINO, items[j].name, i + 2, false);
         && err == EEXIST && Inv(fs') && !Exact(fs')
         && i + 2 in fs'.nodes && fs'.nodes[i + 2].nlink == 1 && Links(fs', i + 2) == {}
  {
    hide MakeImage, Inv, Exact, Good, Names, Links, Rename, CString, Booted, Taken, DirSized;
    BootedInOrder(g, sb, items);
    ItemNamed(g, sb, items, i);
    ItemTaken(g, sb, items, i, j);
    ItemNameFits(g, items, j);
    RenameLoses(Booted(g, sb, items), items[i].name, i + 2, items[j].name, i + 2);
  }

  /** With item `i` out of the way, the name of another is still taken. */
  lemma ItemTaken(g: Geometry, sb: Block, items: seq<Item>, i: nat, j: nat)
    requires Good(g, items) && i < |items| && j < |items| && i != j
    ensures var fs := Booted(g, sb, items);
      && ROOTINO in fs.nodes && fs.nodes[ROOTINO].isDir && GoodName(items[j].name)
      && Taken(fs, Place(ROOTINO, i + 2), ROOTINO, items[j].name)
  {
    hide MakeImage, Good, Names, Pad, Live, CString, Booted;
    ItemNamed(g, sb, items, j);
    NamesParts(Booted(g, sb, items), ROOTINO, items[j].name, j + 2, j + 2);
    assert Place(ROOTINO, j + 2) != Place(ROOTINO, i + 2);
  }

  lemma ItemNameFits(g: Geometry, items: seq<Item>, j: nat)
    requires Good(g, items) && j < |items|
    ensures |items[j].name| <= DIRSIZ
  {
    hide GoodNames, CString, RoomFor, Total;
  }

  /** Renaming within the root to a name that is taken. */
  lemma RenameLoses(fs: Fs, name: seq<byte>, k: nat, name2: seq<byte>, f: nat)
    requires Inv(fs) && Exact(fs) && Names(fs, ROOTINO, name, k, f) && f != 0 && GoodName(name)
    requires ROOTINO in fs.nodes && fs.nodes[ROOTINO].isDir && GoodName(name2) && |name2| <= DIRSIZ
    requires Taken(fs, Place(ROOTINO, k), ROOTINO, name2)
    ensures fs.v.Ok() && DirSized(fs.nodes[ROOTINO].size % U32)
    ensures var (fs', err) := Rename(fs, ROOTINO, name, ROOTINO, name2, f, false);
      && err == EEXIST && Inv(fs') && !Exact(fs')
      && f in fs.nodes && f in fs'.nodes && fs'.nodes[f].nlink == fs.nodes[f].nlink
      && |Links(fs', f)| == fs.nodes[f].nlink - 1
  {
    hide Base, NoDangling, Exact, Names, DirErase, FindInum, DentryInsert, Taken, LinkAt, Links, CString, RenameSupply;
    RenameExact(fs, ROOTINO, name, k, ROOTINO, name2, f, false);
    RenameCases(fs, ROOTINO, name, k, ROOTINO, name2, f, false);
    ExactAt(fs, f, name, k);
  }

  lemma ExactAt(fs: Fs, f: nat, name: seq<byte>, k: nat)
    requires Inv(fs) && Exact(fs) && Names(fs, ROOTINO, name, k, f) && f != 0
    ensures f in fs.nodes && f != ROOTINO && |Links(fs, f)| == fs.nodes[f].nlink
  {
    hide Base, NoDangling, LinkAt, Links;
    assert LinkAt(fs, Place(ROOTINO, k)) == f;
    NamedHasCount(fs, Place(ROOTINO, k));
    assert Excess(fs, f) == 0;
  }

  /** Two empty files. */
  function TwoFiles(): seq<Item> { [FileItem([97], []), FileItem([98], [])] }

  /** The smallest instance: an image of 2000 blocks with files `a` and `b`, on which
      renaming `a` to `b` loses `a`. */
  lemma TwoFilesRename()
    ensures var sb, items := MkSuper(2000, 200, 31), TwoFiles();
      && Good(sb.G(), items)
      && var fs := Booted(sb.G(), SuperBlock(sb), items);
         && Inv(fs) && Exact(fs) && fs.v.Ok() && DirSized(fs.nodes[ROOTINO].size % U32)
         && var (fs', err) := Rename(fs, ROOTINO, [97], ROOTINO, [98], 2, false);
            err == EEXIST && 2 in fs'.nodes && fs'.nodes[2].nlink == 1 && Links(fs', 2) == {} && !Exact(fs')
  {
    hide Inv, Exact, Rename, Links, SuperBlock, Booted;
    var sb, items := MkSuper(2000, 200, 31), TwoFiles();
    TwoFilesFit();
    BootedRenameLoses(sb.G(), SuperBlock(sb), items, 0, 1);
  }

  lemma TwoFilesFit()
    ensures Good(MkSuper(2000, 200, 31).G(), TwoFiles())
  {
    hide RootBytes;
    var items, w := TwoFiles(), Wanted(TwoFiles());
    RootLength(items);
    WantedRoot(items);
    assert w[1] == ItemSpec(items[0], 2) && w[2] == ItemSpec(items[1], 3);
    assert |w[0].bytes| == 64 && |w[1].bytes| == 0 && |w[2].bytes| == 0;
    assert Total(w) == Total(w[..2]) + Need(0);
    assert Total(w[..2]) == Total(w[..2][..1]) + Need(|w[..2][1].bytes|);
    assert w[..2][..1] == w[..1];
    assert Total(w[..1]) == Total(w[..1][..0]) + Need(64);
    assert w[..1][..0] == [];
  }

  // ----- inode numbers -----

  /** The number `ialloc` hands out is below the inode count, as `xv6_iget` asserts of
      every number it is given, if and only if a record below the count was free; the
      table it scans is longer than the count by up to a block of records. */
  lemma IallocBelowCount(sb: Super, v: Vol, di: Dinode)
    requires Accepted(sb) && v.Sized() && v.g == sb.G() && Ialloc(v, di).1 != 0
    ensures Ialloc(v, di).1 < TableSize(v.g) == InodeBlocks(sb.ninodes) * IPB
    ensures sb.ninodes < TableSize(v.g) <= sb.ninodes + IPB
    ensures Ialloc(v, di).1 < sb.ninodes
      <==> exists n: nat :: 2 <= n < sb.ninodes && DinodeAt(v.g, v.disk, n).kind == 0
  {
    hide DinodeAt, Ialloc;
    IallocFirstFit(v, di);
    var inum := Ialloc(v, di).1;
    if inum < sb.ninodes { assert DinodeAt(v.g, v.disk, inum).kind == 0; }
  }

  /** On a newly built image the first number handed out is the one after the last
      item's, or 0 if the items fill the table: at or above the inode count, where
      `xv6_iget` asserts it is not, exactly when the items have used up the count but
      not the table. */
  lemma FirstNewInode(fssize: nat, ninodes: nat, nlog: nat, items: seq<Item>, di: Dinode)
    requires fssize < 0x8000_0000 && ninodes <= 65535 && nlog < 0x4000_0000
    requires MkSuper(fssize, ninodes, nlog).MetaBlocks() <= fssize && 2 + |items| <= TableOf(fssize, ninodes, nlog)
    requires !Built(fssize, ninodes, nlog, items).dead
    ensures var g, disk := MkSuper(fssize, ninodes, nlog).G(), Built(fssize, ninodes, nlog, items).disk;
      && MountedVol(g, disk).Sized()
      && var inum := Ialloc(MountedVol(g, disk), di).1;
         && inum == (if |items| + 2 < TableSize(g) then |items| + 2 else 0)
         && (inum != 0 && inum >= ninodes <==> ninodes <= |items| + 2 < TableSize(g))
  {
    hide MakeImage, DinodeAt, SuperBlock, SoundVol, Shipped, FileIs, UsedSet, Ialloc, Encode;
    BuiltFits(fssize, ninodes, nlog);
    var sb := MkSuper(fssize, ninodes, nlog);
    var g, img := sb.G(), MakeImage(sb.G(), SuperBlock(sb), items);
    MakeImageFinishes(g, SuperBlock(sb), items);
    var v := MountedVol(g, img.disk);
    IallocFirstFit(v, di);
    forall n: nat | 2 <= n < |items| + 2 ensures DinodeAt(g, img.disk, n).kind != 0 {
      UnpackOne(g, img.disk, items, n);
    }
    if |items| + 2 < TableSize(g) { assert DinodeAt(g, img.disk, |items| + 2).kind == 0; }
  }

  /** The inode number under a name of the root (`xv6_lookup`). */
  function LookedUp(fs: Fs, name: seq<byte>): (nat, Errno)
    requires fs.v.Ok() && ROOTINO in fs.nodes && DirSized(fs.nodes[ROOTINO].size % U32)
  {
    var (_, de, err) := FindInum(fs.v, fs.nodes[ROOTINO], name);
    (de.inum, err)
  }

  /** Looking up item `k` in a mounted image comes back with inode number `k + 2`, for
      which `xv6_iget` asserts that it is below the inode count. So every item can be
      looked up if and only if there are at most `ninodes - 2`; the builder accepts up
      to a block of records more. */
  lemma ItemsInReach(fssize: nat, ninodes: nat, nlog: nat, items: seq<Item>)
    requires fssize < 0x8000_0000 && ninodes <= 65535 && nlog < 0x4000_0000
    requires MkSuper(fssize, ninodes, nlog).MetaBlocks() <= fssize && 2 + |items| <= TableOf(fssize, ninodes, nlog)
    requires !Built(fssize, ninodes, nlog, items).dead
    requires GoodNames(items) && |items| + 2 < MAXENTS && forall k :: 0 <= k < |items| ==> CString(items[k].name)
    ensures var g, disk := MkSuper(fssize, ninodes, nlog).G(), Built(fssize, ninodes, nlog, items).disk;
      var fs := Mounted(g, disk, |items| + 1);
      && fs.v.Ok() && DirSized(fs.nodes[ROOTINO].size % U32)
      && (forall k :: 0 <= k < |items| ==> LookedUp(fs, items[k].name) == (k + 2, OK))
      && ((forall k :: 0 <= k < |items| ==> LookedUp(fs, items[k].name).0 < ninodes)
          <==> items == [] || |items| + 2 <= ninodes)
  {
    hide MakeImage, DinodeAt, SuperBlock, FindInum, GoodNames, CString;
    BuiltFits(fssize, ninodes, nlog);
    var sb := MkSuper(fssize, ninodes, nlog);
    var g, img := sb.G(), MakeImage(sb.G(), SuperBlock(sb), items);
    MakeImageFinishes(g, SuperBlock(sb), items);
    var fs := Mounted(g, img.disk, |items| + 1);
    MountedReady(g, SuperBlock(sb), items);
    forall k | 0 <= k < |items| ensures LookedUp(fs, items[k].name) == (k + 2, OK) {
      MountedLookup(g, SuperBlock(sb), items, k);
    }
    if items != [] { assert LookedUp(fs, items[|items| - 1].name).0 == |items| + 1; }
  }

  /** The root of a finished image can be searched. */
  lemma MountedReady(g: Geometry, sb: Block, items: seq<Item>)
    requires g.Formed() && 2 + |items| <= TableSize(g) && !MakeImage(g, sb, items).dead && |items| + 2 < MAXENTS
    ensures var fs := Mounted(g, MakeImage(g, sb, items).disk, |items| + 1);
      fs.v.Ok() && ROOTINO in fs.nodes && DirSized(fs.nodes[ROOTINO].size % U32)
  {
    hide MakeImage, DinodeAt, SoundVol, Shipped, Finished, ZeroTail, Lists, RootEntries;
    MakeImageFinishes(g, sb, items);
    var disk := MakeImage(g, sb, items).disk;
    Unpack(g, sb, disk, items, MakeImage(g, sb, items).freeblock);
    SoundOk(MountedVol(g, disk), Maps(Mounted(g, disk, |items| + 1)));
  }
}
