/** Unmounting and mounting again (super.c, `xv6_kill_block_super`): the in-core inodes
    are written back one after the other, and the image is read afresh. */
module Unmount {
  import opened Layout
  import opened Volumes
  import opened BlockMap
  import opened Inodes
  import opened FileData
  import opened DirIter
  import opened Directory
  import opened DirMap
  import opened Namespace
  import opened NsProof
  import opened NsSteps
  import opened NsCreate
  import opened NsRuns
  import opened NsEffect
  import opened NsData
  import opened NsCrash
  import opened CrashRuns
  import opened Refinement
  import opened Losses
  import opened MkFs
  import opened Superblock
  import opened Mount

  /** The record of `f` says what the in-core inode says, in as many bits as it has. */
  predicate UpToDate(fs: Fs, f: nat)
    requires InTable(fs) && f in fs.nodes
  {
    var di, n := DinodeAt(fs.v.g, fs.v.disk, f), fs.nodes[f];
    di.addrs == n.addrs && di.size == n.size % U32 && di.nlink == n.nlink % U16
  }

  /** All records are, and no link count is too long for one. */
  predicate AllUpToDate(fs: Fs) {
    InTable(fs) && forall f :: f in fs.nodes ==> UpToDate(fs, f) && fs.nodes[f].nlink < U16
  }

  /** What writing inodes back leaves: everything as it was, but for records. */
  ghost predicate Flushed(fs: Fs, fs': Fs) {
    && Inv(fs') && fs'.nodes == fs.nodes && SameHead(fs.v, fs'.v)
    && forall e :: e in fs.nodes ==> SameNode(fs.v, fs.nodes[e], fs'.v, fs.nodes[e])
  }

  lemma FlushedRefl(fs: Fs)
    requires Inv(fs)
    ensures Flushed(fs, fs)
  {
    hide Base, NoDangling, Excess, SameHead, ByteAt;
    BaseOk(fs);
    HeadRefl(fs.v);
  }

  lemma FlushedTrans(fs: Fs, fs': Fs, fs'': Fs)
    requires Flushed(fs, fs') && Flushed(fs', fs'')
    ensures Flushed(fs, fs'')
  {
    hide Inv, SameHead, SameNode;
    HeadTrans(fs.v, fs'.v, fs''.v);
    AllSameTrans(fs.nodes, fs.v, fs'.v, fs''.v);
  }

  lemma SyncOne(fs: Fs, f: nat)
    requires Inv(fs) && f in fs.nodes
    ensures fs.v.Ok() && InTable(fs) && Flushed(fs, Sync(fs, f)) && UpToDate(Sync(fs, f), f)
    ensures forall e :: e in fs.nodes && UpToDate(fs, e) ==> UpToDate(Sync(fs, f), e)
  {
    hide Base, NoDangling, Excess, SameHead, SameNode, DinodeAt, PutInode, ExcessMoved;
    AllHaveRecords(fs);
    SyncSteady(fs, f);
    SyncHead(fs, f);
    var n := fs.nodes[f];
    PutInodeEffect(fs.v, f,
                   DinodeAt(fs.v.g, fs.v.disk, f).(addrs := n.addrs, size := n.size % U32, nlink := n.nlink % U16));
  }

  lemma AllHaveRecords(fs: Fs)
    requires Inv(fs)
    ensures fs.v.Ok() && InTable(fs)
  {
    hide Base, NoDangling, Excess;
    BaseOk(fs);
    forall f | f in fs.nodes ensures f < TableSize(fs.v.g) { DirReady(fs, f); }
  }

  /** After all inodes of the list are written back, their records are up to date, and
      everything reads as before. */
  lemma {:induction false} SyncAllFlushes(fs: Fs, order: seq<nat>)
    requires Inv(fs) && forall f :: f in order ==> f in fs.nodes
    ensures fs.v.Ok() && InTable(fs)
    ensures Flushed(fs, SyncAll(fs, order))
    ensures forall f :: f in fs.nodes && (f in order || UpToDate(fs, f)) ==> UpToDate(SyncAll(fs, order), f)
    decreases |order|
  {
    hide Inv, Flushed, UpToDate, Sync;
    AllHaveRecords(fs);
    if order == [] {
      FlushedRefl(fs);
    } else {
      var fs1 := Sync(fs, order[0]);
      SyncOne(fs, order[0]);
      FlushedInv(fs, fs1);
      SyncAllFlushes(fs1, order[1..]);
      FlushedTrans(fs, fs1, SyncAll(fs1, order[1..]));
    }
  }

  lemma FlushedInv(fs: Fs, fs': Fs)
    requires Flushed(fs, fs')
    ensures Inv(fs') && fs'.nodes == fs.nodes
  {
    hide Inv, SameNode, SameHead;
  }

  /** Every image on the way is consistent. */
  lemma {:induction false} SyncAllSurvives(fs: Fs, order: seq<nat>, files: Files)
    requires Inv(fs) && Backed(fs, files) && forall f :: f in order ==> f in fs.nodes
    ensures fs.v.Ok() && InTable(fs)
    ensures Backed(SyncAll(fs, order), files) && Survives(fs.v, SyncAll(fs, order).v)
    decreases |order|
  {
    hide Inv, Backed, Survives, Sync, Flushed;
    AllHaveRecords(fs);
    if order == [] {
      SurvivesRefl(fs.v);
    } else {
      var fs1 := Sync(fs, order[0]);
      SyncOne(fs, order[0]);
      FlushedInv(fs, fs1);
      SyncSurvives(fs, files, order[0]);
      SyncAllSurvives(fs1, order[1..], files);
      SurvivesTrans(fs.v, fs1.v, SyncAll(fs1, order[1..]).v);
    }
  }

  // ----- mounting again -----

  /** The same inodes, read from the disk afresh. */
  function Remounted(fs: Fs): Fs
    requires InTable(fs)
  {
    Fs(MountedVol(fs.v.g, fs.v.disk), map f | f in fs.nodes :: NodeOf(DinodeAt(fs.v.g, fs.v.disk, f)))
  }

  /** As much of an inode as a record has room for. */
  function Cut(n: Node): Node { n.(size := n.size % U32, nlink := n.nlink % U16) }

  lemma RemountedNode(fs: Fs, f: nat)
    requires Base(fs) && InTable(fs) && f in fs.nodes && UpToDate(fs, f)
    ensures NodeOf(DinodeAt(fs.v.g, fs.v.disk, f)) == Cut(fs.nodes[f])
    ensures fs.nodes[f].isDir ==> fs.nodes[f].size % U32 == fs.nodes[f].size
  {
    hide Base, DinodeAt, GoodSlots, ZeroTail;
    NodeIn(fs, f);
  }

  /** A freshly mounted state with the same inodes, sizes cut to 32 bits. */
  lemma RemountedInOrder(fs: Fs)
    requires Inv(fs) && AllUpToDate(fs)
    ensures var fs' := Remounted(fs);
      && fs'.v.disk == fs.v.disk && fs'.nodes.Keys == fs.nodes.Keys
      && (forall f :: f in fs.nodes ==> fs'.nodes[f] == fs.nodes[f].(size := fs.nodes[f].size % U32))
      && (forall f :: f in fs.nodes && fs.nodes[f].isDir ==> fs'.nodes[f] == fs.nodes[f])
      && Base(fs') && forall p :: LinkAt(fs', p) == LinkAt(fs, p)
  {
    hide Base, NoDangling, Excess, DinodeAt, SoundVol, GoodDir, Entry;
    BaseSound(fs);
    BaseParts(fs);
    var fs' := Remounted(fs);
    forall f | f in fs.nodes
      ensures fs'.nodes[f] == fs.nodes[f].(size := fs.nodes[f].size % U32)
      ensures fs.nodes[f].isDir ==> fs'.nodes[f] == fs.nodes[f]
    {
      RemountedNode(fs, f);
    }
    assert Maps(fs') == Maps(fs);
    SoundAgain(fs.v, Maps(fs));
    forall f | f in fs'.nodes ensures GoodNode(fs', f) { NodeIn(fs, f); }
    assert Base(fs') by { BaseFrom(fs'); }
  }

  lemma BaseParts(fs: Fs)
    requires Base(fs)
    ensures fs.v.Ok() && ROOTINO in fs.nodes && fs.nodes[ROOTINO].isDir
  {}

  lemma BaseFrom(fs: Fs)
    requires SoundVol(fs.v, Maps(fs)) && ROOTINO in fs.nodes && fs.nodes[ROOTINO].isDir
    requires forall f {:trigger GoodNode(fs, f)} :: f in fs.nodes ==> fs.v.Ok() && GoodNode(fs, f)
    ensures Base(fs)
  {
    hide GoodNode, Sound;
  }

  /** It has the invariant, with every excess as it was. */
  lemma RemountedSteady(fs: Fs)
    requires Inv(fs) && AllUpToDate(fs)
    ensures Steady(fs, Remounted(fs))
  {
    hide Base, NoDangling, Excess, LinkAt, AllUpToDate, Steady, DinodeAt, Remounted;
    AllHaveRecords(fs);
    RemountedInOrder(fs);
    SteadySame(fs, Remounted(fs));
  }

  /** The state with the sizes of files cut to 32 bits. */
  function CutState(s: State): State { s.(data := CutData(s.data)) }

  function CutData(data: map<nat, File>): map<nat, File> {
    map f | f in data :: data[f].(size := data[f].size % U32)
  }

  lemma RemountedState(fs: Fs)
    requires Inv(fs) && AllUpToDate(fs)
    ensures StateOf(Remounted(fs)) == CutState(StateOf(fs))
    ensures StateOf(Remounted(fs)) == StateOf(fs) <==> forall f :: f in fs.nodes ==> fs.nodes[f].size < U32
  {
    hide Base, NoDangling, Excess, Dirs, Counts, Data, LinkAt, AllUpToDate, DinodeAt, Remounted;
    AllHaveRecords(fs);
    RemountedInOrder(fs);
    RemountedTree(fs, Remounted(fs));
    RemountedData(fs, Remounted(fs));
    forall f | f in fs.nodes && fs.nodes[f].isDir ensures fs.nodes[f].size < U32 { DirSizeFits(fs, f); }
  }

  lemma RemountedTree(fs: Fs, fs': Fs)
    requires fs'.v.disk == fs.v.disk && fs'.nodes.Keys == fs.nodes.Keys
    requires forall f :: f in fs.nodes ==> fs'.nodes[f] == fs.nodes[f].(size := fs.nodes[f].size % U32)
    requires forall f :: f in fs.nodes && fs.nodes[f].isDir ==> fs'.nodes[f] == fs.nodes[f]
    ensures TreeOf(fs') == TreeOf(fs)
  {
    hide NameMap;
    assert Dirs(fs') == Dirs(fs);
    assert Counts(fs') == Counts(fs);
  }

  lemma RemountedData(fs: Fs, fs': Fs)
    requires fs'.v.disk == fs.v.disk && fs'.nodes.Keys == fs.nodes.Keys
    requires forall f :: f in fs.nodes ==> fs'.nodes[f] == fs.nodes[f].(size := fs.nodes[f].size % U32)
    ensures Data(fs') == CutData(Data(fs))
    ensures Data(fs') == Data(fs) <==> forall f :: f in fs.nodes && !fs.nodes[f].isDir ==> fs.nodes[f].size < U32
  {
    hide BytesFrom;
    assert Data(fs') == CutData(Data(fs));
    if Data(fs') == Data(fs) {
      forall f | f in fs.nodes && !fs.nodes[f].isDir ensures fs.nodes[f].size < U32 {
        assert Data(fs')[f].size == Data(fs)[f].size;
      }
    }
    if forall f :: f in fs.nodes && !fs.nodes[f].isDir ==> fs.nodes[f].size < U32 {
      assert Data(fs') == Data(fs);
    }
  }

  lemma DirSizeFits(fs: Fs, f: nat)
    requires Inv(fs) && f in fs.nodes && fs.nodes[f].isDir
    ensures fs.nodes[f].size < U32
  {
    hide Base, NoDangling, Excess, GoodSlots, ZeroTail, DinodeAt;
    NodeIn(fs, f);
  }

  /** Unmounting and mounting again keeps the invariant and every excess, the tree of
      names and the stored bytes, and cuts the sizes of files to 32 bits; so the state is
      the same if and only if no file has 4 GiB or more. Inodes that are not written back
      must have records that are up to date. */
  lemma UnmountMount(fs: Fs, order: seq<nat>)
    requires Inv(fs) && CountsFit(StateOf(fs)) && forall f :: f in order ==> f in fs.nodes
    requires InTable(fs) && forall f :: f in fs.nodes ==> f in order || UpToDate(fs, f)
    ensures fs.v.Ok()
    ensures var fs' := Remounted(SyncAll(fs, order));
      && Steady(fs, fs') && StateOf(fs') == CutState(StateOf(fs))
      && (StateOf(fs') == StateOf(fs) <==> forall f :: f in fs.nodes ==> fs.nodes[f].size < U32)
  {
    hide Inv, Flushed, UpToDate, StateOf, Steady, CountsFit, CutState;
    AllHaveRecords(fs);
    SyncAllFlushes(fs, order);
    var fs1 := SyncAll(fs, order);
    FlushedInv(fs, fs1);
    FlushedState(fs, fs1);
    TidyFiles(fs);
    RemountedSteady(fs1);
    RemountedState(fs1);
    FlushedSteady(fs, fs1);
    SteadyTrans(fs, fs1, Remounted(fs1));
  }

  lemma FlushedState(fs: Fs, fs': Fs)
    requires Inv(fs) && Flushed(fs, fs')
    ensures StateOf(fs') == StateOf(fs)
  {
    hide Base, NoDangling, Excess, Dirs, Counts, Reads, Data, SameNode, SameHead;
    NodesRead(fs, fs');
    BaseNoNull(fs);
    DirsSame(fs, fs');
    CountsSame(fs, fs');
    RootIsDir(fs);
    ReadsWeaken(fs, fs', ROOTINO);
    DataSame(fs, fs', ROOTINO);
  }

  lemma FlushedSteady(fs: Fs, fs': Fs)
    requires Inv(fs) && Flushed(fs, fs')
    ensures Steady(fs, fs')
  {
    hide Base, NoDangling, Excess, SameNode, SameHead, LinkAt, Steady;
    AllLinksSame(fs, fs');
    SteadySame(fs, fs');
  }

  lemma SteadyTrans(fs: Fs, fs': Fs, fs'': Fs)
    requires Steady(fs, fs') && Steady(fs', fs'') && fs''.nodes.Keys == fs'.nodes.Keys == fs.nodes.Keys
    ensures Steady(fs, fs'')
  {
    hide Inv, Excess;
  }

  /** A write leaves the record as it is, so it is out of date unless neither the blocks
      nor the size, as far as the record holds it, have changed. */
  lemma WriteOutdates(fs: Fs, f: nat, cpos: nat, buf: seq<byte>)
    requires Inv(fs) && f in fs.nodes && !fs.nodes[f].isDir && InTable(fs) && UpToDate(fs, f)
    ensures fs.v.Ok()
    ensures var fs' := WriteFile(fs, f, cpos, buf).0; var n, n' := fs.nodes[f], fs'.nodes[f];
      UpToDate(fs', f) <==> n'.addrs == n.addrs && n'.size % U32 == n.size % U32
  {
    hide Base, NoDangling, Excess, FileWrite, SoundVol, EffectivePos, DinodeAt, Wrote;
    BaseSound(fs);
    WriteRefinesSplice(fs.v, Maps(fs), f, fs.nodes[f], cpos, buf);
    WriteSteady(fs, f, cpos, buf);
    WroteRecord(fs.v, Maps(fs), f, EffectivePos(cpos), buf, FileWrite(fs.v, fs.nodes[f], cpos, buf));
  }

  lemma WroteRecord(v: Vol, files: Files, f: nat, q: nat, buf: seq<byte>, r: WriteResult)
    requires Wrote(v, files, f, q, buf, r)
    ensures v.Sized() && r.v.Sized() && r.v.g == v.g
    ensures forall i: nat :: i < TableSize(v.g) ==> DinodeAt(v.g, r.v.disk, i) == DinodeAt(v.g, v.disk, i)
  {
    hide DinodeAt, SameBytes, Spliced, Sound, SameTable;
    DinodeFrame(v.g, v.disk, r.v.disk);
  }

  // ----- the check on mounting again -----

  /** What the check looks at outside the root. */
  predicate Labelled(v: Vol)
    requires v.Sized()
  {
    var sb := ReadSuper(v.disk[0]);
    sb.magic == FSMAGIC && Accepted(sb) && sb.G() == v.g && DinodeAt(v.g, v.disk, 0).kind == 0
  }

  lemma LabelKept(v: Vol, v': Vol)
    requires SameHead(v, v') && Labelled(v)
    ensures Labelled(v')
  {
    hide DinodeAt, Accepted;
  }

  /** An image whose root is up to date passes the check of mounting. */
  lemma ChecksAgain(fs: Fs)
    requires Inv(fs) && InTable(fs) && Labelled(fs.v) && ROOTINO in fs.nodes && UpToDate(fs, ROOTINO)
    ensures Mounts(fs.v.disk)
  {
    hide Base, NoDangling, Excess, DinodeAt, SoundVol, ReadSuper, Accepted, DirIterate, AlwaysGoes, EditsAtStop,
         NeverExtends, GoodSlots, ZeroTail;
    var v := MountedVol(fs.v.g, fs.v.disk);
    RootIsDir(fs);
    NodeIn(fs, ROOTINO);
    RemountedNode(fs, ROOTINO);
    BaseSound(fs);
    SoundAgain(fs.v, Maps(fs));
    SoundOk(v, Maps(fs));
    DirCheckGoes();
    var root := DinodeAt(fs.v.g, fs.v.disk, ROOTINO);
    RootHasDots(fs);
    WalkReaches(DirCheck, v, Maps(fs), ROOTINO, DirCtx(root.addrs, root.size, false), (), 2);
  }

  lemma RootHasDots(fs: Fs)
    requires Base(fs)
    ensures ROOTINO in fs.nodes && DirSized(fs.nodes[ROOTINO].size) && 2 <= fs.nodes[ROOTINO].size / DESIZE
    ensures fs.nodes[ROOTINO].size <= MAXBYTES
  {
    hide Base, Entry, DinodeAt, ZeroTail;
    RootIsDir(fs);
    NodeIn(fs, ROOTINO);
    LiveInside(fs.v.disk, fs.nodes[ROOTINO], 1);
  }
}
