/** Mounting (super.c, check.cpp): the superblock, the null inode and the root are
    checked, and the root is walked once. */
module Mount {
  import opened Layout
  import opened Bytes
  import opened Volumes
  import opened BlockMap
  import opened Inodes
  import opened FileData
  import opened DirIter
  import opened DirCalls
  import opened Directory
  import opened Namespace
  import opened NsProof
  import opened Builder
  import opened Image
  import opened MkFs
  import opened Superblock

  /** The callback of the check: it goes on whatever the entry is. */
  function DirCheck(n: nat, de: Dirent, c: ()): Reply<()> { Reply(Action(true, false, false, false), de, c) }

  /** What the walk over the root, from entry 2 on, comes back with. */
  function RootWalk(g: Geometry, disk: Disk): Errno
    requires MountedVol(g, disk).Ok() && DirSized(DinodeAt(g, disk, ROOTINO).size)
  {
    var root := DinodeAt(g, disk, ROOTINO);
    DirIterate(DirCheck, MountedVol(g, disk), DirCtx(root.addrs, root.size, false), (), 2, false).err
  }

  /** The check can be made: if the superblock is accepted the blocks are there, and the
      root has a size that the iterator does not panic on. */
  predicate Checkable(disk: Disk) {
    && |disk| > 0
    && var sb := ReadSuper(disk[0]);
       sb.magic == FSMAGIC && Accepted(sb) ==>
         MountedVol(sb.G(), disk).Ok() && DirSized(DinodeAt(sb.G(), disk, ROOTINO).size)
  }

  /** `xv6_docheck`; mounting is refused if it fails. */
  predicate DoCheck(disk: Disk)
    requires Checkable(disk)
  {
    var sb := ReadSuper(disk[0]);
    && sb.magic == FSMAGIC && Accepted(sb)
    && DinodeAt(sb.G(), disk, 0).kind == 0 && DinodeAt(sb.G(), disk, ROOTINO).kind == T_DIR
    && RootWalk(sb.G(), disk) == OK
  }

  /** An image that mounts. */
  predicate Mounts(disk: Disk) { Checkable(disk) && DoCheck(disk) }

  // ----- a walk that never stops -----

  ghost predicate AlwaysGoes<C(!new)>(cb: Callback<C>) {
    forall n, de, c :: cb(n, de, c).act.cont
  }

  lemma {:induction false} FoldGoes<C(!new)>(cb: Callback<C>, calls: seq<Call>, ctx: C, act: Action)
    requires AlwaysGoes(cb)
    ensures var f := Fold(cb, calls, ctx, act); !f.Stopped() && (calls != [] ==> f.act.cont)
  {
    if calls == [] {
    } else {
      var r := cb(calls[0].n, calls[0].de, ctx);
      FoldGoes(cb, calls[1..], r.ctx, r.act);
    }
  }

  lemma GoesKeeps<C(!new)>(cb: Callback<C>, v: Vol, a: Addrs, calls: seq<Call>, ctx: C, act: Action)
    requires v.Ok() && AlwaysGoes(cb) && EditsAtStop(cb)
    ensures AfterFold(v, a, calls, Fold(cb, calls, ctx, act)) == v
  {
    hide EntryPut, Fold, AlwaysGoes, EditsAtStop;
    FoldGoes(cb, calls, ctx, act);
    LastEdit(cb, calls, ctx, act);
  }

  /** A walk past what the block map reaches fails. */
  lemma {:induction false} WalkTooFar<C(!new)>(cb: Callback<C>, v: Vol, files: Files, f: nat, dirty: bool, i: nat,
      off: nat, size: nat, ctx: C, act: Action)
    requires SoundVol(v, files) && f in files && AlwaysGoes(cb) && EditsAtStop(cb)
    requires off < NENTS && i <= MAXFILE && i * NENTS + off + size > MAXFILE * NENTS
    ensures v.Ok() && IterBlocks(cb, v, files[f], dirty, i, off, size, ctx, act, false).err == EFBIG
    decreases size
  {
    hide SoundVol, AlwaysGoes, EditsAtStop, Fold, AfterFold, BlockCalls, IterBlocks;
    SoundOk(v, files);
    if i == MAXFILE {
      OutOfReach(cb, v, files[f], dirty, off, size, ctx, act);
    } else {
      var lim := Min(NENTS, size + off);
      var calls := BlockCalls(v.disk, files[f], i, off, lim);
      IterTurn(cb, v, files, f, dirty, i, off, size, ctx, act);
      GoesKeeps(cb, v, files[f], calls, ctx, act);
      FoldGoes(cb, calls, ctx, act);
      var fo := Fold(cb, calls, ctx, act);
      WalkTooFar(cb, v, files, f, false, i + 1, 0, size - (lim - off), fo.ctx, fo.act);
    }
  }

  lemma OutOfReach<C>(cb: Callback<C>, v: Vol, a: Addrs, dirty: bool, off: nat, size: nat, ctx: C, act: Action)
    requires v.Ok() && off < NENTS
    ensures IterBlocks(cb, v, a, dirty, MAXFILE, off, size, ctx, act, false).err == EFBIG
  {}

  /** Within reach it succeeds. */
  lemma WalkReaches<C(!new)>(cb: Callback<C>, v: Vol, files: Files, f: nat, d: DirCtx, ctx: C, off: nat)
    requires SoundVol(v, files) && f in files && files[f] == d.addrs && EditsAtStop(cb) && NeverExtends(cb)
    requires DirSized(d.size) && off <= d.size / DESIZE <= MAXFILE * NENTS && off < MAXFILE * NENTS
    ensures v.Ok() && DirIterate(cb, v, d, ctx, off, false).err == OK
  {
    hide SoundVol, EditsAtStop, NeverExtends, IterBlocks, Fold, AfterFold, CallList, Extend;
    SoundOk(v, files);
    var calls := CallList(v.disk, d.addrs, off / NENTS, off % NENTS, d.size / DESIZE - off);
    IterIsFold(cb, v, files, f, d.dirty, off / NENTS, off % NENTS, d.size / DESIZE - off, ctx, InitAction());
    FoldNeverExtends(cb, calls, ctx, InitAction());
  }

  lemma WalkFails<C(!new)>(cb: Callback<C>, v: Vol, files: Files, f: nat, d: DirCtx, ctx: C, off: nat)
    requires SoundVol(v, files) && f in files && files[f] == d.addrs && AlwaysGoes(cb) && EditsAtStop(cb)
    requires DirSized(d.size) && d.size / DESIZE > MAXFILE * NENTS && off <= MAXFILE * NENTS
    ensures v.Ok() && DirIterate(cb, v, d, ctx, off, false).err == EFBIG
  {
    hide SoundVol, EditsAtStop, AlwaysGoes, IterBlocks, Extend;
    SoundOk(v, files);
    WalkTooFar(cb, v, files, f, d.dirty, off / NENTS, off % NENTS, d.size / DESIZE - off, ctx, InitAction());
  }

  lemma DirCheckGoes()
    ensures AlwaysGoes(DirCheck) && EditsAtStop(DirCheck) && NeverExtends(DirCheck)
  {}

  /** The walk over a finished root succeeds exactly when its rounded size is within
      reach of the block map. */
  lemma RootWalkExact(g: Geometry, disk: Disk, items: seq<Item>)
    requires Unpacked(g, disk, items) && |items| + 2 <= MAXENTS
    ensures MountedVol(g, disk).Ok() && DirSized(DinodeAt(g, disk, ROOTINO).size)
    ensures RootWalk(g, disk) == OK <==> |items| + 2 < MAXENTS
  {
    hide DinodeAt, SoundVol, Lists, RootEntries, DirIterate, AlwaysGoes, EditsAtStop, NeverExtends;
    var v, root := MountedVol(g, disk), DinodeAt(g, disk, ROOTINO);
    var fs := Mounted(g, disk, |items| + 1);
    assert fs.nodes[ROOTINO] == NodeOf(root) && Maps(fs)[ROOTINO] == root.addrs;
    SoundOk(v, Maps(fs));
    DirCheckGoes();
    var d := DirCtx(root.addrs, root.size, false);
    if |items| + 2 < MAXENTS {
      WalkReaches(DirCheck, v, Maps(fs), ROOTINO, d, (), 2);
    } else {
      WalkFails(DirCheck, v, Maps(fs), ROOTINO, d, (), 2);
    }
  }

  // ----- mounting what was built -----

  /** Records in the inode table of the layout the builder computes. */
  function TableOf(fssize: nat, ninodes: nat, nlog: nat): int
    requires fssize < 0x8000_0000 && ninodes <= 65535 && nlog < 0x4000_0000
  {
    TableSize(MkSuper(fssize, ninodes, nlog).G())
  }

  /** The image built with the layout the builder computes. */
  function Built(fssize: nat, ninodes: nat, nlog: nat, items: seq<Item>): (r: Img)
    requires fssize < 0x8000_0000 && ninodes <= 65535 && nlog < 0x4000_0000
    requires MkSuper(fssize, ninodes, nlog).MetaBlocks() <= fssize && 2 + |items| <= TableOf(fssize, ninodes, nlog)
  {
    BuiltFits(fssize, ninodes, nlog);
    var sb := MkSuper(fssize, ninodes, nlog);
    MakeImage(sb.G(), SuperBlock(sb), items)
  }

  lemma BuiltFits(fssize: nat, ninodes: nat, nlog: nat)
    requires fssize < 0x8000_0000 && ninodes <= 65535 && nlog < 0x4000_0000
    requires MkSuper(fssize, ninodes, nlog).MetaBlocks() <= fssize
    ensures var sb := MkSuper(fssize, ninodes, nlog);
      Accepted(sb) && sb.G().Formed() && sb.ninodes < TableSize(sb.G()) == InodeBlocks(sb.ninodes) * IPB
  {
    var sb := MkSuper(fssize, ninodes, nlog);
    MkSuperAccepted(fssize, ninodes, nlog);
    AcceptedGeometry(sb);
  }

  /** An image built with the layout the builder computes passes the whole check of
      mounting if and only if the root has fewer entries than the block map reaches,
      because its size is rounded up past its end; and the allocator starts at the
      first data block. */
  lemma BuiltImageMounts(fssize: nat, ninodes: nat, nlog: nat, items: seq<Item>)
    requires fssize < 0x8000_0000 && ninodes <= 65535 && nlog < 0x4000_0000
    requires MkSuper(fssize, ninodes, nlog).MetaBlocks() <= fssize && 2 + |items| <= TableOf(fssize, ninodes, nlog)
    requires !Built(fssize, ninodes, nlog, items).dead
    ensures var sb, disk := MkSuper(fssize, ninodes, nlog), Built(fssize, ninodes, nlog, items).disk;
      && ReadSuper(disk[0]) == sb && sb.magic == FSMAGIC && Accepted(sb) && MountHint(sb) == sb.G().DataStart()
      && DinodeAt(sb.G(), disk, 0).kind == 0 && DinodeAt(sb.G(), disk, ROOTINO).kind == T_DIR
      && MountedVol(sb.G(), disk).Ok() && DirSized(DinodeAt(sb.G(), disk, ROOTINO).size)
      && (DoCheck(disk) <==> |items| + 2 < MAXENTS)
  {
    hide MakeImage, DinodeAt, SuperBlock, ReadSuper, Accepted, MountHint, SoundVol, Shipped, RootWalk, Lists, Finished;
    BuiltFits(fssize, ninodes, nlog);
    var sb := MkSuper(fssize, ninodes, nlog);
    HintIsDataStart(sb);
    ReadSuperBlock(sb);
    var g := sb.G();
    var img := MakeImage(g, SuperBlock(sb), items);
    MakeImageFinishes(g, SuperBlock(sb), items);
    FinishedParts(g, SuperBlock(sb), img.disk, items, img.freeblock);
    Unpack(g, SuperBlock(sb), img.disk, items, img.freeblock);
    RootWalkExact(g, img.disk, items);
  }

  /** The check looks at no names: a built image mounts with all invariants exactly when
      it passes the check and the names are good. */
  lemma CheckedInOrder(fssize: nat, ninodes: nat, nlog: nat, items: seq<Item>)
    requires fssize < 0x8000_0000 && ninodes <= 65535 && nlog < 0x4000_0000
    requires MkSuper(fssize, ninodes, nlog).MetaBlocks() <= fssize && 2 + |items| <= TableOf(fssize, ninodes, nlog)
    requires !Built(fssize, ninodes, nlog, items).dead && forall k :: 0 <= k < |items| ==> CString(items[k].name)
    ensures var g, disk := MkSuper(fssize, ninodes, nlog).G(), Built(fssize, ninodes, nlog, items).disk;
      && Fits(g, disk) && |items| + 1 < TableSize(g) && g == ReadSuper(disk[0]).G()
      && MountedVol(g, disk).Ok() && DirSized(DinodeAt(g, disk, ROOTINO).size)
      && (Inv(Mounted(g, disk, |items| + 1)) <==> DoCheck(disk) && GoodNames(items))
  {
    hide MakeImage, DinodeAt, SuperBlock, ReadSuper, DoCheck, SoundVol, Inv, Exact, GoodNames, CString, Content,
         UsedSet, ItemSpec;
    BuiltFits(fssize, ninodes, nlog);
    BuiltImageMounts(fssize, ninodes, nlog, items);
    var sb := MkSuper(fssize, ninodes, nlog);
    BuilderEstablishes(sb.G(), SuperBlock(sb), items);
  }

  /** What the check looks at in a finished image. */
  lemma FinishedParts(g: Geometry, sb: Block, disk: Disk, items: seq<Item>, used: nat)
    requires Finished(g, sb, disk, Shipped(items), used) && 2 + |items| <= TableSize(g)
    ensures Fits(g, disk) && disk[0] == sb
    ensures DinodeAt(g, disk, 0).kind == 0 && DinodeAt(g, disk, ROOTINO).kind == T_DIR
  {
    hide DinodeAt, SoundVol, Shipped, FileIs;
    UnpackOne(g, disk, items, ROOTINO);
  }

  // ----- what the check refuses -----

  /** Of an image that mounts, no other magic number, log start, log size, inode start or
      bitmap start is accepted in block 0; another inode count is if it needs as many
      blocks, and another number of data blocks if they fit. */
  lemma OtherSuperRefused(disk: Disk, k: nat, w: uint)
    requires Mounts(disk) && k in {0, 2, 3, 4, 5, 6, 7}
    ensures var w0, disk' := Word(disk[0], k), disk[0 := PutWord(disk[0], k, w)];
      && (k in {0, 4, 5, 6, 7} && w != w0 ==> Checkable(disk') && !DoCheck(disk'))
      && (k == 2 && MetaOf(disk) + w > Word(disk[0], 1) ==> Checkable(disk') && !DoCheck(disk'))
      && (k == 3 && w / IPB != w0 / IPB ==> Checkable(disk') && !DoCheck(disk'))
  {
    hide PutWord, Word, DinodeAt, RootWalk;
    forall j: nat | j < 8 ensures Word(PutWord(disk[0], k, w), j) == if k == j then w else Word(disk[0], j) {
      WordPut(disk[0], k, w, j);
    }
  }

  /** The blocks before the data, by what block 0 says. */
  function MetaOf(disk: Disk): nat
    requires |disk| > 0
  {
    1 + Word(disk[0], 4) + (Word(disk[0], 3) / 16 + 1) + (Word(disk[0], 1) / 8192 + 1)
  }

  /** Of an image that mounts, no type but 0 is accepted in record 0, and none but a
      directory's in the record of the root. */
  lemma OtherRecordRefused(disk: Disk, i: nat, di: Dinode)
    requires Mounts(disk) && i in {0, ROOTINO} && di.size == DinodeAt(ReadSuper(disk[0]).G(), disk, ROOTINO).size
    ensures var v := MountedVol(ReadSuper(disk[0]).G(), disk);
      && v.Sized() && Checkable(PutInode(v, i, di).disk)
      && (DoCheck(PutInode(v, i, di).disk) ==> di.kind == if i == 0 then 0 else T_DIR)
  {
    hide PutInode, ReadSuper, DinodeAt, RootWalk, Accepted;
    var v := MountedVol(ReadSuper(disk[0]).G(), disk);
    PutInodeEffect(v, i, di);
    PutInodeFirst(v, i, di);
  }

  /** The image with one record replaced. */
  function WithRecord(g: Geometry, disk: Disk, i: nat, di: Dinode): Disk
    requires MountedVol(g, disk).Sized() && i < TableSize(g)
  {
    PutInode(MountedVol(g, disk), i, di).disk
  }

  /** On a built image that mounts this is all there is to it: with another type in one of
      these records it mounts exactly if that is 0, or a directory's. */
  lemma BuiltRecords(fssize: nat, ninodes: nat, nlog: nat, items: seq<Item>, kind: ushort)
    requires fssize < 0x8000_0000 && ninodes <= 65535 && nlog < 0x4000_0000
    requires MkSuper(fssize, ninodes, nlog).MetaBlocks() <= fssize && 2 + |items| <= TableOf(fssize, ninodes, nlog)
    requires !Built(fssize, ninodes, nlog, items).dead && |items| + 2 < MAXENTS
    ensures var g, disk := MkSuper(fssize, ninodes, nlog).G(), Built(fssize, ninodes, nlog, items).disk;
      && MountedVol(g, disk).Sized()
      && (Mounts(WithRecord(g, disk, 0, DinodeAt(g, disk, 0).(kind := kind))) <==> kind == 0)
      && (Mounts(WithRecord(g, disk, ROOTINO, DinodeAt(g, disk, ROOTINO).(kind := kind))) <==> kind == T_DIR)
  {
    hide MakeImage, DinodeAt, SuperBlock, ReadSuper, Accepted, SoundVol, Shipped, Lists, Finished, WithRecord, DoCheck,
         RootEntries, ZeroTail;
    BuiltImageMounts(fssize, ninodes, nlog, items);
    BuiltFits(fssize, ninodes, nlog);
    var sb := MkSuper(fssize, ninodes, nlog);
    var g, img := sb.G(), MakeImage(sb.G(), SuperBlock(sb), items);
    MakeImageFinishes(g, SuperBlock(sb), items);
    Unpack(g, SuperBlock(sb), img.disk, items, img.freeblock);
    OneRecord(g, img.disk, items, 0, DinodeAt(g, img.disk, 0).(kind := kind));
    OneRecord(g, img.disk, items, ROOTINO, DinodeAt(g, img.disk, ROOTINO).(kind := kind));
  }

  /** Replacing one of the two records. */
  lemma OneRecord(g: Geometry, disk: Disk, items: seq<Item>, i: nat, di: Dinode)
    requires Unpacked(g, disk, items) && |items| + 2 < MAXENTS && i in {0, ROOTINO}
    requires Mounts(disk) && g == ReadSuper(disk[0]).G()
    requires di == DinodeAt(g, disk, i).(kind := di.kind)
    ensures Mounts(WithRecord(g, disk, i, di)) <==> di.kind == if i == 0 then 0 else T_DIR
  {
    hide DinodeAt, SoundVol, Lists, ReadSuper, Accepted, PutInode, RootEntries, ZeroTail, SameContents, RootWalk;
    var v, fs := MountedVol(g, disk), Mounted(g, disk, |items| + 1);
    PutInodeEffect(v, i, di);
    PutInodeFirst(v, i, di);
    PutInodeSafe(v, Maps(fs), i, di);
    var disk' := PutInode(v, i, di).disk;
    var root := DinodeAt(g, disk, ROOTINO);
    assert fs.nodes[ROOTINO] == NodeOf(root) && Maps(fs)[ROOTINO] == root.addrs;
    SoundAgain(PutInode(v, i, di), Maps(fs));
    SoundRootWalks(g, disk', Maps(fs));
  }

  lemma SoundRootWalks(g: Geometry, disk: Disk, files: Files)
    requires MountedVol(g, disk).Sized() && SoundVol(MountedVol(g, disk), files) && ROOTINO in files
    requires var root := DinodeAt(g, disk, ROOTINO);
      files[ROOTINO] == root.addrs && DirSized(root.size) && 2 <= root.size / DESIZE <= MAXFILE * NENTS
    ensures MountedVol(g, disk).Ok() && RootWalk(g, disk) == OK
  {
    hide DinodeAt, SoundVol, DirIterate, AlwaysGoes, EditsAtStop, NeverExtends;
    SoundOk(MountedVol(g, disk), files);
    DirCheckGoes();
    var root := DinodeAt(g, disk, ROOTINO);
    WalkReaches(DirCheck, MountedVol(g, disk), files, ROOTINO, DirCtx(root.addrs, root.size, false), (), 2);
  }
}
