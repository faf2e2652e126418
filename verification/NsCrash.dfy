/** What a crash can leave of creating, linking, writing and syncing, and of releasing an
    inode. An inode whose creation failed halfway is in no directory, but
    it stays in the table, so the maps it has count among `files` from then on. */
module NsCrash {
  import opened Layout
  import opened Bytes
  import opened Volumes
  import opened Allocator
  import opened BlockMap
  import opened Durability
  import opened Inodes
  import opened FileData
  import opened DirIter
  import opened Directory
  import opened DirInsert
  import opened Crash
  import opened Namespace
  import opened NsProof
  import opened NsSteps
  import opened NsCreate
  import opened NsRuns

  /** The volume is sound for `files`, all of which have records, and the on-disk table
      holds no more than they do. */
  ghost predicate Recoverable(v: Vol, files: Files) {
    && SoundVol(v, files) && Lags(v.g, v.disk, files)
    && forall f :: f in files ==> HasRecord(v, f)
  }

  /** Every image the disk goes through from `v` to `v'` is consistent. */
  ghost predicate Survives(v: Vol, v': Vol) {
    && v'.g == v.g && |v.trace| <= |v'.trace| && v'.trace[..|v.trace|] == v.trace
    && forall t :: |v.trace| <= t < |v'.trace| ==> Consistent(v.g, v'.trace[t])
  }

  lemma SurvivesRefl(v: Vol)
    ensures Survives(v, v)
  {}

  lemma SurvivesTrans(v: Vol, v': Vol, v'': Vol)
    requires Survives(v, v') && Survives(v', v'')
    ensures Survives(v, v'')
  {
    hide Consistent;
    forall t | |v.trace| <= t < |v''.trace| ensures Consistent(v.g, v''.trace[t]) {
      if t < |v'.trace| { assert v''.trace[t] == v'.trace[t]; }
    }
  }

  lemma RecoverableConsistent(v: Vol, files: Files)
    requires Recoverable(v, files)
    ensures Consistent(v.g, v.disk)
  {
    hide Sound, UsedSet, Table, Extends;
    SoundLagging(v.disk, v.g.DataStart(), UsedSet(v.g, v.disk), files, Table(v.g, v.disk));
  }

  lemma DurableSurvives(v: Vol, v': Vol, files: Files)
    requires Durable(v, v', files) && Recoverable(v, files)
    ensures Survives(v, v')
  {
    hide Consistent, SafeImage, Lags, SoundVol;
    forall t | |v.trace| <= t < |v'.trace| ensures Consistent(v.g, v'.trace[t]) {
      DurableConsistent(v, v', files, t);
    }
  }

  /** The table is as it was, the maps have only grown. */
  lemma StillRecoverable(v: Vol, files: Files, v': Vol, files': Files)
    requires Recoverable(v, files) && SoundVol(v', files') && v'.g == v.g && SameTable(v.g, v.disk, v'.disk)
    requires files'.Keys == files.Keys && forall f :: f in files ==> Extends(files[f], files'[f])
    ensures Recoverable(v', files')
  {
    hide Sound, UsedSet, Extends, DinodeAt;
    TableFrame(v.g, v.disk, v'.disk);
    DinodeFrame(v.g, v.disk, v'.disk);
    forall f | f in Table(v.g, v'.disk) ensures Extends(Table(v.g, v'.disk)[f], files'[f]) {
      ExtendsTrans(Table(v.g, v.disk)[f], files[f], files'[f]);
    }
  }

  // ----- the building blocks -----

  lemma TakeRecovers(v: Vol, files: Files)
    requires Recoverable(v, files) && Pick(v) != 0
    ensures v.g.IsData(Pick(v)) && Recoverable(Take(v, Pick(v)), files) && FreshIn(Take(v, Pick(v)), files, Pick(v))
    ensures Survives(v, Take(v, Pick(v)))
  {
    hide Sound, UsedSet, Used, Take, Pick, SameContents, Lags, Durable, Extends, Fresh, SameSlots;
    TakeSafe(v, files);
    TakeDurable(v, files);
    DurableSurvives(v, Take(v, Pick(v)), files);
    ExtendsRefl(files);
    StillRecoverable(v, files, Take(v, Pick(v)), files);
  }

  /** A record for a fresh block joins the table. */
  lemma RecordRecovers(v: Vol, files: Files, n: nat, di: Dinode, b: nat)
    requires Recoverable(v, files) && FreshIn(v, files, b) && n !in files && 0 < n < TableSize(v.g)
    requires di.kind != 0 && SingleBlock(di.addrs, b)
    ensures Recoverable(PutInode(v, n, di), files[n := di.addrs]) && Survives(v, PutInode(v, n, di))
  {
    hide Sound, UsedSet, Used, PutInode, SameContents, SameSlots, Extends, DinodeAt, Fresh, Slot, Consistent;
    var v', files' := PutInode(v, n, di), files[n := di.addrs];
    PutInodeSafe(v, files, n, di);
    PutInodeEffect(v, n, di);
    FreshKept(v, files, b, n, di);
    AddFile(v'.disk, v.g.DataStart(), UsedSet(v.g, v'.disk), files, n, di.addrs, b);
    TableWith(v, n, di);
    ExtendsRefl(files');
    RecoverableConsistent(v', files');
    PutTrace(v, n, di);
  }

  lemma TableWith(v: Vol, n: nat, di: Dinode)
    requires v.Sized() && 0 < n < TableSize(v.g) && di.kind != 0
    ensures Table(v.g, PutInode(v, n, di).disk) == Table(v.g, v.disk)[n := di.addrs]
  {
    hide PutInode, DinodeAt, UsedSet;
    PutInodeEffect(v, n, di);
  }

  /** The one block of a new directory is written. */
  lemma DotsRecover(v: Vol, files: Files, n: nat, b: nat, blk: Block)
    requires Recoverable(v, files) && n in files && SingleBlock(files[n], b) && v.g.IsData(b)
    ensures Recoverable(v.Put(b, blk), files) && Survives(v, v.Put(b, blk))
  {
    hide Sound, UsedSet, Used, SameSlots, Extends, Slot, ByteAt, Durable, Lags, FileBlock, SingleBlock;
    SingleMap(v.disk, files[n], b, 0);
    DataWrite(v.disk, v.g.DataStart(), UsedSet(v.g, v.disk), files, n, 0, blk);
    DataPutUsed(v, b, blk);
    PutDurable(v, b, blk, files);
    DurableSurvives(v, v.Put(b, blk), files);
    ExtendsRefl(files);
    StillRecoverable(v, files, v.Put(b, blk), files);
  }

  lemma InsertRecovers(v: Vol, files: Files, d: nat, n: Node, name: seq<byte>, inum: nat)
    requires Recoverable(v, files) && d in files && files[d] == n.addrs && GoodDir(v.disk, n)
    requires CString(name) && 0 < |name| <= DIRSIZ && 0 < inum < U16
    requires forall k: nat :: !Live(v.disk, n.addrs, k, Pad(name))
    ensures v.Ok() && DirSized(n.size % U32)
    ensures var r := DentryInsert(v, n, name, inum);
      Recoverable(r.v, files[d := r.n.addrs]) && Survives(v, r.v)
  {
    hide SoundVol, GoodDir, DentryInsert, Lags, Pad, Live, EntryAdded, CString, HasRecord;
    InsertSound(v, files, d, n, name, inum);
    SoundOk(v, files);
    AddedRecovers(v, files, d, n, Dirent(inum, Pad(name)), DentryInsert(v, n, name, inum));
  }

  lemma AddedRecovers(v: Vol, files: Files, d: nat, n: Node, de: Dirent, r: InsertResult)
    requires Recoverable(v, files) && EntryAdded(v, files, d, n, de, r)
    ensures Recoverable(r.v, files[d := r.n.addrs]) && Survives(v, r.v)
  {
    hide SoundVol, GoodDir, Lags, Entry, SameBytes, Durable, Extends, FreeSlot, InsertSupply, HasRecord, SameTable,
         Pick;
    DurableSurvives(v, r.v, files);
    ExtendsRefl(files);
    StillRecoverable(v, files, r.v, files[d := r.n.addrs]);
  }

  lemma EraseRecovers(v: Vol, files: Files, d: nat, n: Node, name: seq<byte>, k: nat)
    requires Recoverable(v, files) && d in files && files[d] == n.addrs && GoodDir(v.disk, n)
    requires CString(name) && name != [] && k >= 2 && Live(v.disk, n.addrs, k, Pad(name))
    ensures v.Ok() && DirSized(n.size % U32)
    ensures var v' := DirErase(v, n, name).0; Recoverable(v', files) && Survives(v, v')
  {
    hide SoundVol, GoodDir, DirErase, Lags, Pad, Live, CString, HasRecord, SameTable, Durable, Extends, Spliced,
         SameRoom;
    EraseSound(v, files, d, n, name);
    SoundOk(v, files);
    var v' := DirErase(v, n, name).0;
    assert ErasedAt(v, files, d, n, k, v');
    DurableSurvives(v, v', files);
    ExtendsRefl(files);
    StillRecoverable(v, files, v', files);
  }

  lemma SyncRecovers(v: Vol, files: Files, f: nat, n: Node)
    requires Recoverable(v, files) && f in files && files[f] == n.addrs
    ensures f < TableSize(v.g) && v.Sized()
    ensures Recoverable(SyncInode(v, f, n), files) && Survives(v, SyncInode(v, f, n))
  {
    hide Sound, UsedSet, PutInode, DinodeAt, Lags, SameContents, SameSlots, Consistent;
    assert HasRecord(v, f);
    SyncConsistent(v, files, f, n);
    var di := DinodeAt(v.g, v.disk, f).(addrs := n.addrs, size := n.size % U32, nlink := n.nlink % U16);
    PutInodeSafe(v, files, f, di);
    PutInodeEffect(v, f, di);
    PutTrace(v, f, di);
  }

  lemma WriteRecovers(v: Vol, files: Files, f: nat, n: Node, cpos: nat, buf: seq<byte>)
    requires Recoverable(v, files) && f in files && files[f] == n.addrs
    ensures v.Ok()
    ensures var r := FileWrite(v, n, cpos, buf);
      Recoverable(r.v, files[f := r.n.addrs]) && Survives(v, r.v)
  {
    hide SoundVol, Lags, WriteLoop, Durable, Extends, HasRecord, Wrote;
    SoundOk(v, files);
    var r := FileWrite(v, n, cpos, buf);
    WriteLoopDurable(v, files, f, n, cpos / BSIZE % U32, cpos % BSIZE, buf);
    WriteRefinesSplice(v, files, f, n, cpos, buf);
    WroteSafe(v, files, f, EffectivePos(cpos), buf, r);
    DurableSurvives(v, r.v, files);
    ExtendsRefl(files);
    StillRecoverable(v, files, r.v, files[f := r.n.addrs]);
  }

  lemma WroteSafe(v: Vol, files: Files, f: nat, q: nat, buf: seq<byte>, r: WriteResult)
    requires Wrote(v, files, f, q, buf, r)
    ensures r.v.g == v.g && SoundVol(r.v, files[f := r.n.addrs]) && SameTable(v.g, v.disk, r.v.disk)
  {
    hide SoundVol, SameBytes, Spliced, UsedSet, Pick;
  }

  /** An inode is prepared. */
  lemma PrepareRecovers(v: Vol, files: Files, d: nat, isDir: bool)
    requires Recoverable(v, files)
    ensures v.Ok()
    ensures var (v', inum) := Prepare(v, d, isDir);
      && Survives(v, v')
      && if inum == 0 then Recoverable(v', files)
         else inum !in files && Recoverable(v', files[inum := NewNode(isDir, Pick(v)).addrs])
  {
    hide SoundVol, Lags, Take, PutInode, DotBlock, Pick, DinodeAt, Fresh, NoAddrs, Survives, FreeInum;
    SoundOk(v, files);
    SurvivesRefl(v);
    var b := Pick(v);
    if b != 0 {
      TakeRecovers(v, files);
      var v1 := Take(v, b);
      FreeInumFirstFit(v1.g, v1.disk, 2);
      var n, di := FreeInum(v1.g, v1.disk, 2), NewDinode(isDir, b);
      if n < TableSize(v1.g) {
        FreeNotIn(v1, files, n);
        NewSingle(isDir, b);
        RecordRecovers(v1, files, n, di, b);
        var v2 := PutInode(v1, n, di);
        SurvivesTrans(v, v1, v2);
        if isDir {
          var blk := DotBlock(v2.disk[b], d % U16, n % U16);
          DotsRecover(v2, files[n := di.addrs], n, b, blk);
          SurvivesTrans(v, v2, v2.Put(b, blk));
        }
      }
    }
  }

  lemma FreeNotIn(v: Vol, files: Files, n: nat)
    requires Recoverable(v, files) && n < TableSize(v.g) && DinodeAt(v.g, v.disk, n).kind == 0
    ensures n !in files
  {
    hide DinodeAt, SoundVol, Lags;
  }

  lemma NewSingle(isDir: bool, b: uint)
    ensures SingleBlock(NewNode(isDir, b).addrs, b) && NewDinode(isDir, b).kind != 0
    ensures NewDinode(isDir, b).addrs == NewNode(isDir, b).addrs
  {}

  // ----- releasing -----

  /** Freeing a block that no file refers to. */
  lemma FreeOneSound(v: Vol, files: Files, b: nat)
    requires v.Sized() && Sound(v.disk, v.g.DataStart(), UsedSet(v.g, v.disk), files) && v.g.IsData(b)
    requires forall f, k: nat :: f in files && k < NSLOTS ==> Slot(v.disk, files[f], k) != b
    ensures var v' := Bfree(v, b);
      && Sound(v'.disk, v.g.DataStart(), UsedSet(v.g, v'.disk), files) && SameTable(v.g, v.disk, v'.disk)
      && forall f, k: nat :: f in files && k < NSLOTS ==> Slot(v'.disk, files[f], k) == Slot(v.disk, files[f], k)
  {
    hide Slot, UsedSet, Used, Bfree;
    BfreeEffect(v, b);
    var v' := Bfree(v, b);
    Frame(v.disk, v'.disk, v.g.DataStart(), UsedSet(v.g, v.disk), UsedSet(v.g, v.disk), files);
    forall f, k: nat | f in files && k < NSLOTS ensures Slot(v'.disk, files[f], k) == Slot(v.disk, files[f], k) {
      assert SameSlots(v.disk, v'.disk, files[f]);
    }
  }

  /** The files refer to none of these blocks. */
  ghost predicate Apart(disk: Disk, files: Files, bs: seq<uint>) {
    forall f, k: nat :: f in files && k < NSLOTS && Slot(disk, files[f], k) != 0 ==> Slot(disk, files[f], k) !in bs
  }

  lemma {:induction false} FreeAllSurvives(v: Vol, bs: seq<uint>)
    requires v.Sized() && Consistent(v.g, v.disk) && forall b :: b in bs && b != 0 ==> v.g.IsData(b)
    requires Apart(v.disk, Table(v.g, v.disk), bs)
    ensures Survives(v, FreeAll(v, bs))
    decreases |bs|
  {
    hide Slot, UsedSet, Used, Bfree, Sound, Table, Survives;
    if bs == [] {
      SurvivesRefl(v);
    } else if bs[0] == 0 {
      FreeAllSurvives(v, bs[1..]);
    } else {
      var v1 := Bfree(v, bs[0]);
      FreeOneSound(v, Table(v.g, v.disk), bs[0]);
      TableFrame(v.g, v.disk, v1.disk);
      FreeAllSurvives(v1, bs[1..]);
      BfreeTrace(v, bs[0]);
      OneSurvives(v, v1);
      SurvivesTrans(v, v1, FreeAll(v1, bs[1..]));
    }
  }

  lemma BfreeTrace(v: Vol, b: nat)
    requires v.Sized() && v.g.IsData(b)
    ensures Bfree(v, b) == v || Bfree(v, b).trace == v.trace + [Bfree(v, b).disk]
  {
    hide Used, Marked;
  }

  /** At most one write, that leaves a consistent image. */
  lemma OneSurvives(v: Vol, v': Vol)
    requires v'.g == v.g && (v' == v || v'.trace == v.trace + [v'.disk]) && Consistent(v.g, v'.disk)
    ensures Survives(v, v')
  {
    hide Consistent;
  }

  /** The last image that freeing leaves. */
  lemma {:induction false} FreeAllLast(v: Vol, bs: seq<uint>)
    requires v.Sized() && forall b :: b in bs && b != 0 ==> v.g.IsData(b)
    ensures var v' := FreeAll(v, bs);
      && |v'.trace| >= |v.trace| && v'.trace[..|v.trace|] == v.trace
      && (|v'.trace| == |v.trace| ==> v'.disk == v.disk)
      && (|v'.trace| > |v.trace| ==> v'.trace[|v'.trace| - 1] == v'.disk)
    decreases |bs|
  {
    hide Used, Marked;
    if bs == [] {
    } else {
      FreeAllLast(if bs[0] != 0 then Bfree(v, bs[0]) else v, bs[1..]);
    }
  }

  /** Releasing an inode frees its blocks while its record is still on disk. Every image
      on the way is consistent if and only if that record refers to no block. */
  lemma ReleaseSurvives(v: Vol, files: Files, f: nat)
    requires Recoverable(v, files) && f in files
    ensures f in Table(v.g, v.disk)
    ensures forall b :: b in Held(v.disk, files[f]) && b != 0 ==> v.g.IsData(b)
    ensures Survives(v, FreeAll(v, Held(v.disk, files[f]))) <==> Refs(v.disk, Table(v.g, v.disk)[f]) == {}
  {
    hide Slot, UsedSet, Used, FreeAll, Held, Sound, Refs, DinodeAt, Survives, SameContents;
    assert HasRecord(v, f);
    HeldIsData(v, files, f);
    ReleaseExact(v, files, f);
    var bs, t := Held(v.disk, files[f]), Table(v.g, v.disk);
    var v' := FreeAll(v, bs);
    FreeAllLast(v, bs);
    FreeAllEffect(v, bs);
    FreeAllTable(v, bs);
    if Refs(v.disk, t[f]) == {} {
      RecoverableConsistent(v, files);
      ReleaseApart(v, files, f);
      FreeAllSurvives(v, bs);
    } else {
      StaleRefs(v, files, f, v');
      NotSurvived(v, v');
    }
  }

  /** No record refers to a block that is freed. */
  lemma ReleaseApart(v: Vol, files: Files, f: nat)
    requires Recoverable(v, files) && f in files && f in Table(v.g, v.disk) && Refs(v.disk, Table(v.g, v.disk)[f]) == {}
    ensures Apart(v.disk, Table(v.g, v.disk), Held(v.disk, files[f]))
  {
    hide Slot, UsedSet, Held, Table, Extends, HasRecord;
    HeldIsData(v, files, f);
    var t, bs := Table(v.g, v.disk), Held(v.disk, files[f]);
    forall g, k: nat | g in t && k < NSLOTS && Slot(v.disk, t[g], k) != 0 ensures Slot(v.disk, t[g], k) !in bs {
      LaggingSlot(v.disk, t[g], files[g], k);
      RefHeld(v.disk, t[f], k);
      BlocksHave(bs, Slot(v.disk, t[g], k));
    }
  }

  lemma BlocksHave(bs: seq<uint>, b: uint)
    ensures b != 0 && b in bs ==> b as nat in Blocks(bs)
  {}

  lemma RefHeld(disk: Disk, a: Addrs, k: nat)
    requires k < NSLOTS
    ensures Slot(disk, a, k) != 0 ==> Slot(disk, a, k) as nat in Refs(disk, a)
  {
    hide Slot;
  }

  lemma LaggingSlot(disk: Disk, a: Addrs, a': Addrs, k: nat)
    requires Extends(a, a') && k < NSLOTS
    ensures Slot(disk, a, k) == 0 || Slot(disk, a, k) == Slot(disk, a', k)
  {
    hide Word;
    assert a[ROOT] == 0 || a[ROOT] == a'[ROOT];
  }

  /** What the record on disk still refers to is free now. */
  lemma StaleRefs(v: Vol, files: Files, f: nat, v': Vol)
    requires Recoverable(v, files) && f in files && f in Table(v.g, v.disk) && Refs(v.disk, Table(v.g, v.disk)[f]) != {}
    requires v'.g == v.g && v'.Sized() && SameTable(v.g, v.disk, v'.disk)
    requires forall b :: v.g.IsData(b) ==> v'.disk[b] == v.disk[b]
    requires UsedSet(v.g, v'.disk) == UsedSet(v.g, v.disk) - Refs(v.disk, files[f])
    ensures !Consistent(v.g, v'.disk) && v'.disk != v.disk
  {
    hide UsedSet, Extends, HasRecord, Word;
    var t := Table(v.g, v.disk);
    TableFrame(v.g, v.disk, v'.disk);
    hide Table;
    var k: nat :| k < NSLOTS && Slot(v.disk, t[f], k) != 0;
    LaggingSlot(v.disk, t[f], files[f], k);
    var b: nat := Slot(v.disk, t[f], k);
    assert b in Refs(v.disk, files[f]);
    assert b in UsedSet(v.g, v.disk) && b !in UsedSet(v.g, v'.disk);
    RootInRange(v, files, f);
    assert Extends(t[f], files[f]);
    RootKept(t[f], files[f]);
    assert Slot(v'.disk, t[f], k) == b;
  }

  lemma RootKept(a: Addrs, a': Addrs)
    requires Extends(a, a')
    ensures a[ROOT] == 0 || a[ROOT] == a'[ROOT]
  {}

  lemma NotSurvived(v: Vol, v': Vol)
    requires |v'.trace| > |v.trace| && v'.trace[|v'.trace| - 1] == v'.disk && !Consistent(v.g, v'.disk)
    ensures !Survives(v, v')
  {
    hide Consistent;
  }

  // ----- the operations -----

  /** The in-core inodes are among `files`. */
  ghost predicate Backed(fs: Fs, files: Files) {
    && Recoverable(fs.v, files)
    && forall f :: f in fs.nodes ==> f in files && files[f] == fs.nodes[f].addrs
  }

  lemma CreateSurvives(fs: Fs, files: Files, d: nat, name: seq<byte>, isDir: bool) returns (files': Files)
    requires Inv(fs) && NewName(fs, d, name) && Backed(fs, files)
    ensures fs.v.Ok() && DirSized(fs.nodes[d].size % U32)
    ensures var fs' := Create(fs, d, name, isDir).0; Backed(fs', files') && Survives(fs.v, fs'.v)
  {
    hide Base, NoDangling, Excess, Prepare, DentryInsert, CString, FreshName, Recoverable, Survives, GoodDir, NewNode,
         SameNode, LinkAt, NewContents, OneTaken, Pick;
    DirReady(fs, d);
    SurvivesRefl(fs.v);
    files' := files;
    if |name| <= DIRSIZ {
      PrepareRecovers(fs.v, files, d, isDir);
      PrepareKeeps(fs, d, isDir);
      var (v1, inum) := Prepare(fs.v, d, isDir);
      if inum != 0 {
        var node := NewNode(isDir, Pick(fs.v));
        var fs1, files1 := Fs(v1, fs.nodes[inum := node]), files[inum := node.addrs];
        FreshSame(fs, fs1, d, name);
        NodeIn(fs1, d);
        FreshLive(fs1, d, name);
        InsertRecovers(v1, files1, d, fs.nodes[d], name, inum);
        var r := DentryInsert(v1, fs.nodes[d], name, inum);
        files' := files1[d := r.n.addrs];
        SurvivesTrans(fs.v, v1, r.v);
      }
    }
  }

  lemma LinkSurvives(fs: Fs, files: Files, d: nat, name: seq<byte>, f: nat) returns (files': Files)
    requires Inv(fs) && NewName(fs, d, name) && f in fs.nodes && !fs.nodes[f].isDir && Backed(fs, files)
    ensures fs.v.Ok() && DirSized(fs.nodes[d].size % U32) && f < TableSize(fs.v.g)
    ensures var fs' := Link(fs, d, name, f).0; Backed(fs', files') && Survives(fs.v, fs'.v)
  {
    hide Base, NoDangling, Excess, DentryInsert, CString, FreshName, Recoverable, Survives, GoodDir, SyncInode;
    DirReady(fs, d);
    DirReady(fs, f);
    SurvivesRefl(fs.v);
    files' := files;
    if fs.nodes[f].nlink < MAXLINKS {
      if |name| > DIRSIZ {
        TooLong(fs, d, name, f);
      } else {
        NodeIn(fs, d);
        FreshLive(fs, d, name);
        InsertRecovers(fs.v, files, d, fs.nodes[d], name, f);
        var r := DentryInsert(fs.v, fs.nodes[d], name, f);
        files' := files[d := r.n.addrs];
        if r.err == OK {
          var n := fs.nodes[f].(nlink := fs.nodes[f].nlink + 1);
          SyncRecovers(r.v, files', f, n);
          SurvivesTrans(fs.v, r.v, SyncInode(r.v, f, n));
        }
      }
    }
  }

  lemma WriteSurvives(fs: Fs, files: Files, f: nat, cpos: nat, buf: seq<byte>) returns (files': Files)
    requires fs.v.Ok() && f in fs.nodes && Backed(fs, files)
    ensures var fs' := WriteFile(fs, f, cpos, buf).0; Backed(fs', files') && Survives(fs.v, fs'.v)
  {
    hide FileWrite, Recoverable, Survives;
    WriteRecovers(fs.v, files, f, fs.nodes[f], cpos, buf);
    files' := files[f := FileWrite(fs.v, fs.nodes[f], cpos, buf).n.addrs];
  }
}
