/** Preparing a new inode (`xv6_create` before the directory entry) keeps the file
    system in order, and a new directory starts out good. */
module NsCreate {
  import opened Layout
  import opened Volumes
  import opened Allocator
  import opened BlockMap
  import opened Space
  import opened Inodes
  import opened FileData
  import opened DirIter
  import opened Directory
  import opened DirInsert
  import opened Namespace
  import opened NsProof
  import opened NsSteps

  // ----- the first block of a directory -----

  lemma StrcpyPads(field: Name, t: seq<byte>)
    requires |t| < DIRSIZ && forall i :: 0 <= i < DIRSIZ ==> field[i] == 0
    ensures Strcpy(field, t) == Pad(t)
  {}

  /** On a zeroed block, the two entries and nothing else. */
  lemma DotBlockEntries(parent: ushort, this_: ushort)
    ensures var b := DotBlock(ZeroBlock(), parent, this_);
      && DirentOf(b, 0) == Dirent(this_, Pad(Dot())) && DirentOf(b, 1) == Dirent(parent, Pad(DotDot()))
      && (forall k :: 2 <= k < NENTS ==> DirentOf(b, k) == NullDirent())
      && (forall i :: 2 * DESIZE <= i < BSIZE ==> b[i] == 0)
  {
    var z := ZeroBlock();
    NullIsFree();
    forall k: nat | k < NENTS ensures DirentOf(z, k) == NullDirent() {
      assert z[DESIZE * k..DESIZE * k + DESIZE] == seq<byte>(DESIZE, _ => 0);
    }
    hide NullDirent, DirentOf, PutDirent, Pad, Strcpy;
    StrcpyPads(DirentOf(z, 0).name, Dot());
    StrcpyPads(DirentOf(z, 1).name, DotDot());
    var de0, de1 := Dirent(this_, Pad(Dot())), Dirent(parent, Pad(DotDot()));
    var b1 := PutDirent(z, 0, de0);
    var b := PutDirent(b1, 1, de1);
    forall k: nat | k < NENTS ensures DirentOf(b, k) == if k == 0 then de0 else if k == 1 then de1 else NullDirent() {
      DirentPut(z, 0, de0, k);
      DirentPut(b1, 1, de1, k);
    }
    PutTail(z, 0, de0);
    PutTail(b1, 1, de1);
    assert DirentOf(z, 0) == DirentOf(z, 1);
    DirentPut(z, 0, de0, 1);
    assert DotBlock(z, parent, this_) == b by { DotBlockIs(z, parent, this_); }
  }

  lemma DotBlockIs(z: Block, parent: ushort, this_: ushort)
    requires Strcpy(DirentOf(z, 0).name, Dot()) == Pad(Dot()) && Strcpy(DirentOf(z, 1).name, DotDot()) == Pad(DotDot())
    ensures DotBlock(z, parent, this_)
         == PutDirent(PutDirent(z, 0, Dirent(this_, Pad(Dot()))), 1, Dirent(parent, Pad(DotDot())))
  {
    hide PutDirent, DirentOf, Pad, Strcpy;
  }

  lemma PutTail(b: Block, k: nat, de: Dirent)
    requires k < NENTS
    ensures forall i :: DESIZE * k + DESIZE <= i < BSIZE ==> PutDirent(b, k, de)[i] == b[i]
  {
    hide EncodeDirent;
  }

  /** A file whose one block is `b`. */
  predicate SingleBlock(a: Addrs, b: nat) { a[0] == b && forall k :: 0 < k <= ROOT ==> a[k] == 0 }

  lemma SingleEntries(disk: Disk, a: Addrs, b: nat, k: nat)
    requires SingleBlock(a, b) && 0 < b < |disk|
    ensures Entry(disk, a, k) == if k < NENTS then DirentOf(disk[b], k) else NullDirent()
  {
    hide DirentOf, NullDirent;
    if k < MAXFILE * NENTS {
      SingleMap(disk, a, b, k / NENTS);
      assert k / NENTS * NENTS + k % NENTS == k;
      EntryInBlock(disk, a, k / NENTS, k % NENTS);
    } else {
      SinglePast(disk, a, k);
    }
  }

  lemma SinglePast(disk: Disk, a: Addrs, k: nat)
    requires k >= MAXFILE * NENTS
    ensures Entry(disk, a, k) == NullDirent()
  {
    hide ByteAt;
    var c := BytesFrom(disk, a, DESIZE * k, DESIZE);
    forall i | 0 <= i < DESIZE ensures c[i] == 0 {
      PastReach(disk, a, DESIZE * k + i);
    }
    assert c == seq<byte>(DESIZE, _ => 0);
  }

  lemma SingleMap(disk: Disk, a: Addrs, b: nat, i: nat)
    requires SingleBlock(a, b) && i < MAXFILE
    ensures FileBlock(disk, a, i) == if i == 0 then b else 0
  {}

  lemma SingleTail(disk: Disk, a: Addrs, b: nat, size: nat)
    requires SingleBlock(a, b) && 0 < b < |disk|
    requires forall i :: size <= i < BSIZE ==> disk[b][i] == 0
    ensures ZeroTail(disk, a, size)
  {
    forall p: nat | p >= size ensures ByteAt(disk, a, p) == 0 {
      if p / BSIZE < MAXFILE {
        SingleMap(disk, a, b, p / BSIZE);
      }
    }
  }

  /** The first two entries of a directory. */
  ghost predicate DotsAt(disk: Disk, a: Addrs, this_: ushort, parent: ushort) {
    Entry(disk, a, 0) == Dirent(this_, Pad(Dot())) && Entry(disk, a, 1) == Dirent(parent, Pad(DotDot()))
  }

  /** A new directory is good and names nothing but itself and its parent. */
  lemma NewDirGood(disk: Disk, a: Addrs, b: nat, parent: ushort, this_: ushort)
    requires SingleBlock(a, b) && 0 < b < |disk| && parent != 0 && this_ != 0
    requires disk[b] == DotBlock(ZeroBlock(), parent, this_)
    ensures GoodDir(disk, Node(true, a, 2 * DESIZE, 1)) && DotsAt(disk, a, this_, parent)
    ensures forall k: nat :: k >= 2 ==> Entry(disk, a, k).inum == 0
  {
    hide ZeroBlock, DotBlock, DirentOf, NullDirent, Entry, FileBlock, ByteAt, SingleBlock;
    DotBlockEntries(parent, this_);
    NullIsFree();
    SingleTail(disk, a, b, 2 * DESIZE);
    var de0, de1 := Dirent(this_, Pad(Dot())), Dirent(parent, Pad(DotDot()));
    forall k: nat ensures Entry(disk, a, k) == if k == 0 then de0 else if k == 1 then de1 else NullDirent() {
      SingleEntries(disk, a, b, k);
    }
    PadGood(Dot(), this_);
    PadGood(DotDot(), parent);
    hide Padded;
    assert Pad(Dot())[1] == 0 && Pad(DotDot())[1] == 46;
    assert GoodSlot(NullDirent());
  }

  // ----- preparing -----

  /** One clear block is taken, and every inode has the blocks it had. */
  ghost predicate OneTaken(fs: Fs, v': Vol) {
    && fs.v.Sized() && v'.Sized() && ClearCount(v') == ClearCount(fs.v) - 1
    && forall e :: e in fs.nodes ==> SameSlots(fs.v.disk, v'.disk, fs.nodes[e].addrs)
  }

  lemma TakeOne(fs: Fs)
    requires SoundVol(fs.v, Maps(fs)) && Pick(fs.v) != 0
    ensures OneTaken(fs, Take(fs.v, Pick(fs.v)))
  {
    hide Sound, UsedSet, Used, Take, Pick, ClearBlocks, Slot;
    TakeSafe(fs.v, Maps(fs));
    PickClear(fs.v);
    forall e | e in fs.nodes ensures SameSlots(fs.v.disk, Take(fs.v, Pick(fs.v)).disk, fs.nodes[e].addrs) {
      assert SameSlots(fs.v.disk, Take(fs.v, Pick(fs.v)).disk, Maps(fs)[e]);
    }
  }

  lemma StillOne(fs: Fs, v1: Vol, v2: Vol, files: Files)
    requires OneTaken(fs, v1) && SameRoom(v1, v2, files)
    requires forall e :: e in fs.nodes ==> e in files && files[e] == fs.nodes[e].addrs
    ensures OneTaken(fs, v2)
  {
    hide UsedSet, ClearBlocks, Slot;
    ClearSame(v1, v2);
    forall e | e in fs.nodes ensures SameSlots(fs.v.disk, v2.disk, fs.nodes[e].addrs) {
      assert SameSlots(v1.disk, v2.disk, files[e]) && SameSlots(fs.v.disk, v1.disk, fs.nodes[e].addrs);
    }
  }

  lemma RecordRoom(v: Vol, files: Files, inum: nat, di: Dinode)
    requires SoundVol(v, files) && inum < TableSize(v.g)
    ensures SameRoom(v, PutInode(v, inum, di), files)
  {
    hide PutInode, Sound, UsedSet, Slot;
    PutInodeSafe(v, files, inum, di);
    PutInodeEffect(v, inum, di);
  }

  /** Allocating a block for no one in particular changes nothing that is read. */
  lemma TakeKeeps(fs: Fs)
    requires Base(fs) && Pick(fs.v) != 0
    ensures fs.v.g.IsData(Pick(fs.v))
    ensures var v' := Take(fs.v, Pick(fs.v));
      && Base(Fs(v', fs.nodes)) && FreshIn(v', Maps(fs), Pick(fs.v))
      && forall e :: e in fs.nodes ==> SameNode(fs.v, fs.nodes[e], v', fs.nodes[e])
  {
    hide Sound, UsedSet, Used, DinodeAt, GoodDir, Take, Pick, ByteAt, SameSlots, Fresh;
    TakeSafe(fs.v, Maps(fs));
    var fs' := Fs(Take(fs.v, Pick(fs.v)), fs.nodes);
    assert Maps(fs') == Maps(fs);
    forall e | e in fs.nodes ensures SameNode(fs.v, fs.nodes[e], fs'.v, fs'.nodes[e]) {
      assert SameBytes(fs.v.disk, Maps(fs)[e], fs'.v.disk, Maps(fs)[e]);
    }
    hide SameBytes, SameContents, SameTable;
    TableKindsKept(fs.nodes, fs.v, fs'.v);
    BaseSame(fs, fs');
  }

  lemma FreshKept(v: Vol, files: Files, b: nat, inum: nat, di: Dinode)
    requires SoundVol(v, files) && FreshIn(v, files, b) && inum < TableSize(v.g)
    ensures FreshIn(PutInode(v, inum, di), files, b)
  {
    hide PutInode, Sound, Slot, UsedSet, Used, SameContents;
    PutInodeSafe(v, files, inum, di);
    PutInodeEffect(v, inum, di);
    var v' := PutInode(v, inum, di);
    forall f, k: nat | f in files && k < NSLOTS ensures Slot(v'.disk, files[f], k) != b {
      assert SameSlots(v.disk, v'.disk, files[f]);
    }
  }

  /** The record `ialloc` finds belongs to no inode in use. */
  lemma IallocFresh(fs: Fs)
    requires Base(fs)
    ensures var n := FreeInum(fs.v.g, fs.v.disk, 2);
      (n < TableSize(fs.v.g) ==> n !in fs.nodes && 2 <= n < U16) && (n == TableSize(fs.v.g) <==> TableFull(fs.v))
  {
    hide Base, DinodeAt;
    BaseOk(fs);
    FreeInumFirstFit(fs.v.g, fs.v.disk, 2);
    if FreeInum(fs.v.g, fs.v.disk, 2) in fs.nodes { NodeIn(fs, FreeInum(fs.v.g, fs.v.disk, 2)); }
  }

  /** A new inode with one fresh block joins the others. */
  lemma JoinKeeps(fs: Fs, n: nat, node: Node, b: nat)
    requires Base(fs) && FreshIn(fs.v, Maps(fs), b) && SingleBlock(node.addrs, b)
    requires n !in fs.nodes
    ensures SoundVol(fs.v, Maps(Fs(fs.v, fs.nodes[n := node])))
    ensures forall p: nat :: ByteAt(fs.v.disk, node.addrs, p) == 0
  {
    hide Sound, UsedSet, Used, DinodeAt, GoodDir, Fresh;
    AddFile(fs.v.disk, fs.v.g.DataStart(), UsedSet(fs.v.g, fs.v.disk), Maps(fs), n, node.addrs, b);
    MapsAt(fs, n, node);
  }

  /** Adding an inode whose number is free and that reads well. */
  lemma BaseJoined(fs: Fs, fs': Fs, n: nat, node: Node)
    requires Base(fs) && fs'.nodes == fs.nodes[n := node] && n !in fs.nodes && SoundVol(fs'.v, Maps(fs'))
    requires KindsKept(fs.nodes, fs.v, fs'.v) && 0 < n < TableSize(fs.v.g)
    requires DinodeAt(fs'.v.g, fs'.v.disk, n).kind != 0
    requires DinodeAt(fs'.v.g, fs'.v.disk, n).kind == T_DIR <==> node.isDir
    requires forall e :: e in fs.nodes ==> SameNode(fs.v, fs.nodes[e], fs'.v, fs.nodes[e])
    requires node.isDir ==>
      GoodDir(fs'.v.disk, node) && forall k: nat :: k >= 2 ==> Entry(fs'.v.disk, node.addrs, k).inum == 0
    ensures Base(fs') && forall p :: LinkAt(fs', p) == LinkAt(fs, p)
  {
    hide Sound, UsedSet, DinodeAt, GoodDir, SameNode, Entry;
    forall f | f in fs.nodes
      ensures fs'.nodes[f] == fs.nodes[f] && GoodNode(fs', f)
    {
      NodeIn(fs, f);
      NodeKept(fs, fs', f);
    }
    assert GoodNode(fs', n);
    forall p ensures LinkAt(fs', p) == LinkAt(fs, p) {
      if p.d in fs.nodes { LinkAtSame(fs, fs', p); }
    }
  }

  /** Writing the first block of a new directory. */
  lemma DotsKeep(v: Vol, files: Files, n: nat, b: nat, parent: ushort, this_: ushort)
    requires SoundVol(v, files) && n in files && SingleBlock(files[n], b) && v.g.IsData(b) && v.disk[b] == ZeroBlock()
    requires parent != 0 && this_ != 0
    ensures var v' := v.Put(b, DotBlock(v.disk[b], parent, this_));
      && SoundVol(v', files) && SameTable(v.g, v.disk, v'.disk) && SameRoom(v, v', files)
      && (forall f :: f in files && f != n ==> SameBytes(v.disk, files[f], v'.disk, files[f]))
      && GoodDir(v'.disk, Node(true, files[n], 2 * DESIZE, 1)) && DotsAt(v'.disk, files[n], this_, parent)
      && forall k: nat :: k >= 2 ==> Entry(v'.disk, files[n], k).inum == 0
  {
    hide Sound, UsedSet, Used, GoodDir, ByteAt, Slot, DotBlock, Entry, FileBlock, ZeroBlock, SingleBlock;
    var blk := DotBlock(v.disk[b], parent, this_);
    SingleMap(v.disk, files[n], b, 0);
    DataWrite(v.disk, v.g.DataStart(), UsedSet(v.g, v.disk), files, n, 0, blk);
    DataPutUsed(v, b, blk);
    NewDirGood(v.Put(b, blk).disk, files[n], b, parent, this_);
  }

  lemma AllSameTrans(nodes: map<nat, Node>, v: Vol, v': Vol, v'': Vol)
    requires forall e :: e in nodes ==> SameNode(v, nodes[e], v', nodes[e])
    requires forall e :: e in nodes ==> SameNode(v', nodes[e], v'', nodes[e])
    ensures forall e :: e in nodes ==> SameNode(v, nodes[e], v'', nodes[e])
  {
    hide SameNode;
    forall e | e in nodes ensures SameNode(v, nodes[e], v'', nodes[e]) {
      SameNodeTrans(v, v', v'', nodes[e]);
    }
  }

  /** A new file reads as zeros; a new directory has `.` and `..`. */
  ghost predicate NewContents(disk: Disk, node: Node, inum: ushort, d: ushort) {
    if node.isDir then DotsAt(disk, node.addrs, inum, d) else forall p: nat :: ByteAt(disk, node.addrs, p) == 0
  }

  /** What preparing an inode leaves: the others untouched, and the new one among
      them, unless no block was clear or no record free. */
  ghost predicate Prepared(fs: Fs, d: nat, isDir: bool, b: uint, v1: Vol, inum: nat) {
    && v1.g == fs.v.g && fs.v.Sized()
    && (forall e :: e in fs.nodes ==> SameNode(fs.v, fs.nodes[e], v1, fs.nodes[e]))
    && (inum == 0 <==> ClearCount(fs.v) == 0 || TableFull(fs.v))
    && (inum == 0 ==> Base(Fs(v1, fs.nodes)))
    && (inum != 0 ==> OneTaken(fs, v1))
    && (inum != 0 ==>
          && inum !in fs.nodes && 2 <= inum < U16 && d < U16 && NewContents(v1.disk, NewNode(isDir, b), inum, d)
          && var fs1 := Fs(v1, fs.nodes[inum := NewNode(isDir, b)]);
             Base(fs1) && forall p :: LinkAt(fs1, p) == LinkAt(fs, p))
  }

  lemma PrepareKeeps(fs: Fs, d: nat, isDir: bool)
    requires Base(fs) && 0 < d < U16
    ensures Prepared(fs, d, isDir, Pick(fs.v), Prepare(fs.v, d, isDir).0, Prepare(fs.v, d, isDir).1)
  {
    hide Base, Take, PutInode, SameNode, DotBlock, LinkAt, FreeInum, Pick, NewDinode, Prepared, ClearCount, TableFull,
         OneTaken, SoundVol;
    BaseOk(fs);
    BaseSound(fs);
    PickClear(fs.v);
    var b := Pick(fs.v);
    if b == 0 {
      PreparedNone(fs, d, isDir, b, fs.v);
    } else {
      TakeKeeps(fs);
      TakeOne(fs);
      var fs1 := Fs(Take(fs.v, b), fs.nodes);
      IallocFresh(fs1);
      FullSame(fs.v, b);
      PreparedTake(fs, fs1);
      var n := FreeInum(fs1.v.g, fs1.v.disk, 2);
      if n == TableSize(fs.v.g) {
        PreparedNone(fs, d, isDir, b, fs1.v);
      } else {
        PrepareRecord(fs, fs1, d, isDir, b, n);
      }
    }
  }

  lemma BaseOk(fs: Fs)
    requires Base(fs)
    ensures fs.v.Ok()
  {}

  /** Taking a block leaves the inode table alone. */
  lemma FullSame(v: Vol, b: uint)
    requires v.Ok() && b == Pick(v) != 0
    ensures v.g.IsData(b) && (TableFull(Take(v, b)) <==> TableFull(v))
  {
    hide Take, DinodeAt, Pick, Used;
    PickSound(v);
    TakeEffect(v, b);
    DinodeFrame(v.g, v.disk, Take(v, b).disk);
  }

  lemma PreparedTake(fs: Fs, fs1: Fs)
    requires Base(fs) && Base(fs1) && fs1.nodes == fs.nodes
    requires forall e :: e in fs.nodes ==> SameNode(fs.v, fs.nodes[e], fs1.v, fs.nodes[e])
    ensures forall p :: LinkAt(fs1, p) == LinkAt(fs, p)
  {
    AllLinksSame(fs, fs1);
  }

  lemma PreparedNone(fs: Fs, d: nat, isDir: bool, b: uint, v1: Vol)
    requires Base(Fs(v1, fs.nodes)) && v1.g == fs.v.g && fs.v.Sized() && (ClearCount(fs.v) == 0 || TableFull(fs.v))
    requires v1 == fs.v || forall e :: e in fs.nodes ==> SameNode(fs.v, fs.nodes[e], v1, fs.nodes[e])
    ensures Prepared(fs, d, isDir, b, v1, 0)
  {
    hide Base, ByteAt, ClearCount, TableFull;
  }

  /** The record, and the first block of a directory. */
  lemma PrepareRecord(fs: Fs, fs1: Fs, d: nat, isDir: bool, b: uint, n: nat)
    requires Base(fs) && Base(fs1) && fs1.nodes == fs.nodes && fs1.v.g == fs.v.g && fs1.v.g.IsData(b)
    requires forall e :: e in fs.nodes ==> SameNode(fs.v, fs.nodes[e], fs1.v, fs.nodes[e])
    requires forall p :: LinkAt(fs1, p) == LinkAt(fs, p)
    requires FreshIn(fs1.v, Maps(fs1), b) && n !in fs.nodes && 2 <= n < TableSize(fs.v.g) <= U16 && 0 < d < U16
    requires fs.v.Sized() && OneTaken(fs, fs1.v) && ClearCount(fs.v) > 0 && !TableFull(fs.v)
    ensures var v2 := PutInode(fs1.v, n, NewDinode(isDir, b));
      Prepared(fs, d, isDir, b, if isDir then v2.Put(b, DotBlock(v2.disk[b], d, n)) else v2, n)
  {
    hide Base, PutInode, SameNode, DotBlock, LinkAt, DinodeAt, Sound, UsedSet, GoodDir, Entry, ClearCount, TableFull,
         OneTaken, SameRoom;
    var di, node := NewDinode(isDir, b), NewNode(isDir, b);
    BaseOk(fs1);
    RecordKeeps(fs1, n, di);
    BaseSound(fs1);
    FreshKept(fs1.v, Maps(fs1), b, n, di);
    PutInodeEffect(fs1.v, n, di);
    var fs2 := Fs(PutInode(fs1.v, n, di), fs.nodes);
    AllSameTrans(fs.nodes, fs.v, fs1.v, fs2.v);
    assert Maps(fs2) == Maps(fs1);
    RecordRoom(fs1.v, Maps(fs1), n, di);
    StillOne(fs, fs1.v, fs2.v, Maps(fs1));
    JoinKeeps(fs2, n, node, b);
    var fs3 := Fs(fs2.v, fs.nodes[n := node]);
    if isDir {
      PrepareDots(fs, fs2, d, b, n);
    } else {
      AllSameRefl(fs.nodes, fs2.v);
      KindsRefl(fs.nodes, fs2.v);
      BaseJoined(fs2, fs3, n, node);
    }
  }

  lemma BaseSound(fs: Fs)
    requires Base(fs)
    ensures SoundVol(fs.v, Maps(fs))
  {}

  lemma AllSameRefl(nodes: map<nat, Node>, v: Vol)
    ensures forall e :: e in nodes ==> SameNode(v, nodes[e], v, nodes[e])
  {
    hide ByteAt;
  }

  lemma KindsRefl(nodes: map<nat, Node>, v: Vol)
    requires v.Sized()
    ensures KindsKept(nodes, v, v)
  {
    hide DinodeAt;
  }

  lemma PrepareDots(fs: Fs, fs2: Fs, d: nat, b: uint, n: nat)
    requires Base(fs2) && fs2.nodes == fs.nodes && fs2.v.g == fs.v.g && fs2.v.g.IsData(b)
    requires forall e :: e in fs.nodes ==> SameNode(fs.v, fs.nodes[e], fs2.v, fs.nodes[e])
    requires forall p :: LinkAt(fs2, p) == LinkAt(fs, p)
    requires SoundVol(fs2.v, Maps(Fs(fs2.v, fs.nodes[n := NewNode(true, b)])))
    requires n !in fs.nodes && 2 <= n < TableSize(fs.v.g) <= U16 && 0 < d < U16
    requires fs2.v.disk[b] == ZeroBlock() && DinodeAt(fs2.v.g, fs2.v.disk, n).kind == T_DIR
    requires fs.v.Sized() && OneTaken(fs, fs2.v) && ClearCount(fs.v) > 0 && !TableFull(fs.v)
    ensures Prepared(fs, d, true, b, fs2.v.Put(b, DotBlock(fs2.v.disk[b], d, n)), n)
  {
    hide Base, DotBlock, LinkAt, DinodeAt, Sound, UsedSet, GoodDir, Entry, ByteAt, ZeroBlock, ClearCount, TableFull,
         OneTaken, SameRoom;
    var node := NewNode(true, b);
    var files := Maps(Fs(fs2.v, fs.nodes[n := node]));
    var v3 := fs2.v.Put(b, DotBlock(fs2.v.disk[b], d, n));
    DotsKeep(fs2.v, files, n, b, d, n);
    var fs3 := Fs(v3, fs.nodes[n := node]);
    assert Maps(fs3) == files;
    StillOne(fs, fs2.v, v3, files);
    forall e | e in fs.nodes ensures SameNode(fs2.v, fs.nodes[e], v3, fs.nodes[e]) {
      assert SameBytes(fs2.v.disk, files[e], v3.disk, files[e]);
    }
    hide SameNode, SameTable;
    AllSameTrans(fs.nodes, fs.v, fs2.v, v3);
    TableKindsKept(fs.nodes, fs2.v, v3);
    assert SameTableDinode(fs2.v, v3, n) by { DinodeSame(fs2.v, v3, n); }
    BaseJoined(fs2, fs3, n, node);
  }

  ghost predicate SameTableDinode(v: Vol, v': Vol, n: nat)
    requires v.Sized() && v'.Sized() && v'.g == v.g && n < TableSize(v.g)
  {
    DinodeAt(v.g, v'.disk, n) == DinodeAt(v.g, v.disk, n)
  }

  lemma DinodeSame(v: Vol, v': Vol, n: nat)
    requires v.Sized() && v'.Sized() && v'.g == v.g && SameTable(v.g, v.disk, v'.disk) && n < TableSize(v.g)
    ensures SameTableDinode(v, v', n)
  {
    DinodeFrame(v.g, v.disk, v'.disk);
  }
}
