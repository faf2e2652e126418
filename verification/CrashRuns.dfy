/** What a crash can leave of whole runs: after every operation the in-core inodes are
    backed by the table, and every image on the way is consistent exactly if no operation
    releases an inode whose record on disk refers to blocks. */
module CrashRuns {
  import opened Layout
  import opened Volumes
  import opened BlockMap
  import opened Durability
  import opened Inodes
  import opened DirIter
  import opened Directory
  import opened Crash
  import opened Namespace
  import opened NsProof
  import opened NsSteps
  import opened NsRuns
  import opened NsRename
  import opened NsEffect
  import opened NsCrash
  import opened Runs

  /** The trace has only got longer. */
  ghost predicate Extended(v: Vol, v': Vol) {
    v'.g == v.g && |v.trace| <= |v'.trace| && v'.trace[..|v.trace|] == v.trace
  }

  lemma SurvivesExtends(v: Vol, v': Vol)
    requires Survives(v, v')
    ensures Extended(v, v')
  {
    hide Consistent;
  }

  /** Every image on a way of two parts is consistent exactly when those on both are. */
  lemma SurvivesBoth(v: Vol, v': Vol, v'': Vol)
    requires Extended(v, v') && Extended(v', v'')
    ensures Extended(v, v'')
    ensures Survives(v, v'') <==> Survives(v, v') && Survives(v', v'')
  {
    hide Consistent;
    assert v''.trace[..|v.trace|] == v'.trace[..|v.trace|];
    forall t | |v.trace| <= t < |v'.trace| ensures v''.trace[t] == v'.trace[t] {}
    if Survives(v, v') && Survives(v', v'') { SurvivesTrans(v, v', v''); }
  }

  // ----- unlink -----

  /** The volume after the blocks of the last name's inode are free. */
  function Freed(fs: Fs, f: nat): Vol
    requires fs.v.Sized() && f in fs.nodes && Clearable(fs, f)
  {
    FreeAll(fs.v, Held(fs.v.disk, fs.nodes[f].addrs))
  }

  /** The emptied record is written: from here on everything is in order again. */
  lemma EmptiedRecovers(fs: Fs, files: Files, f: nat)
    requires Backed(fs, files) && Base(fs) && f in fs.nodes && Clearable(fs, f) && f < TableSize(fs.v.g)
    ensures var vf := Freed(fs, f);
      var v1 := ClearInode(fs.v, f, fs.nodes[f].(nlink := 0));
      && Extended(fs.v, vf) && vf.Sized() && f < TableSize(vf.g)
      && Recoverable(v1, files[f := NoAddrs()]) && Survives(vf, v1)
  {
    hide Base, Sound, UsedSet, Used, FreeAll, Held, PutInode, DinodeAt, NoAddrs, Refs, Slot, Extends, SameContents,
         SameSlots, Consistent, Lags;
    var v, a := fs.v, fs.nodes[f].addrs;
    ReleaseExact(v, files, f);
    FreeAllLast(v, Held(v.disk, a));
    FreeAllTable(v, Held(v.disk, a));
    FreeAllRest(v, Held(v.disk, a));
    var vf := Freed(fs, f);
    AddEmpty(vf.disk, v.g.DataStart(), UsedSet(v.g, vf.disk), files, f);
    EmptySynced(v, files, vf, f, fs.nodes[f].(nlink := 0, addrs := NoAddrs(), size := 0));
  }

  lemma FreeAllRest(v: Vol, bs: seq<uint>)
    requires v.Ok() && forall b :: b in bs && b != 0 ==> v.g.IsData(b)
    ensures FreeAll(v, bs).Ok()
  {
    hide FreeAll, Used;
  }

  /** Writing the record of an inode that holds nothing any more. */
  lemma EmptySynced(v: Vol, files: Files, vf: Vol, f: nat, n: Node)
    requires Recoverable(v, files) && f in files && n.addrs == NoAddrs()
    requires vf.g == v.g && SameTable(v.g, v.disk, vf.disk) && SoundVol(vf, files[f := NoAddrs()])
    ensures f < TableSize(vf.g)
    ensures Recoverable(SyncInode(vf, f, n), files[f := NoAddrs()]) && Survives(vf, SyncInode(vf, f, n))
  {
    hide Sound, UsedSet, Used, PutInode, DinodeAt, NoAddrs, Extends, SameContents, SameSlots, Consistent;
    assert HasRecord(v, f);
    var files', v' := files[f := NoAddrs()], SyncInode(vf, f, n);
    var di := DinodeAt(vf.g, vf.disk, f).(addrs := n.addrs, size := n.size % U32, nlink := n.nlink % U16);
    TableFrame(v.g, v.disk, vf.disk);
    DinodeFrame(v.g, v.disk, vf.disk);
    PutInodeSafe(vf, files', f, di);
    PutInodeEffect(vf, f, di);
    PutTrace(vf, f, di);
    TableWith(vf, f, di);
    ExtendsRefl(files');
    RecoverableConsistent(v', files');
  }

  /** The record is freed, once nothing names the inode any more. */
  lemma GoneRecovers(v: Vol, files: Files, f: nat)
    requires Recoverable(v, files) && f in files
    ensures f < TableSize(v.g) && v.Sized()
    ensures Recoverable(Ifree(v, f), files - {f}) && Survives(v, Ifree(v, f))
  {
    hide Sound, UsedSet, Used, PutInode, DinodeAt, NoAddrs, Extends, SameContents, SameSlots, Consistent;
    assert HasRecord(v, f);
    var v', files' := Ifree(v, f), files - {f};
    PutInodeSafe(v, files, f, NullDinode());
    PutInodeEffect(v, f, NullDinode());
    PutTrace(v, f, NullDinode());
    SoundWithout(v'.disk, v.g.DataStart(), UsedSet(v.g, v'.disk), files, f);
    TableWithout(v, f);
    RecoverableConsistent(v', files');
  }

  lemma TableWithout(v: Vol, f: nat)
    requires v.Sized() && 0 < f < TableSize(v.g)
    ensures Table(v.g, Ifree(v, f).disk) == Table(v.g, v.disk) - {f}
  {
    hide PutInode, DinodeAt, UsedSet;
    PutInodeEffect(v, f, NullDinode());
  }

  /** At the last name: the table backs what is left, and the way there is consistent
      exactly when the record on disk refers to no block. */
  lemma UnlinkLastCrash(fs: Fs, files: Files, d: nat, name: seq<byte>, k: nat, f: nat)
    requires Inv(fs) && Backed(fs, files) && Names(fs, d, name, k, f) && GoodName(name)
    requires f in fs.nodes && f != ROOTINO && f != d
    ensures fs.v.Ok() && DirSized(fs.nodes[d].size % U32) && f < TableSize(fs.v.g) && Clearable(fs, f)
    ensures var v1 := ClearInode(fs.v, f, fs.nodes[f].(nlink := 0));
      && v1.Ok()
      && var fs' := Fs(Ifree(DirErase(v1, fs.nodes[d], name).0, f), fs.nodes - {f});
         && Backed(fs', files - {f}) && Extended(fs.v, fs'.v)
         && (Survives(fs.v, fs'.v) <==> Refs(fs.v.disk, DinodeAt(fs.v.g, fs.v.disk, f).addrs) == {})
  {
    hide Base, NoDangling, Excess, Names, DirErase, ClearInode, Ifree, Held, Refs, DinodeAt, Survives, GoodDir,
         NoAddrs, Recoverable, Table, FreeAll, SameNode, CString, Live, Pad;
    NamesParts(fs, d, name, k, f);
    DirReady(fs, d);
    DirReady(fs, f);
    var n := fs.nodes[f].(nlink := 0);
    ClearKeeps(fs, f, n);
    var fs1 := Fs(ClearInode(fs.v, f, n), fs.nodes - {f});
    NamesKept(fs, fs1, d, name, k, f);
    NamesParts(fs1, d, name, k, f);
    NodeIn(fs1, d);
    EmptiedRecovers(fs, files, f);
    var v0, vf, v1, files1 := fs.v, Freed(fs, f), fs1.v, files[f := NoAddrs()];
    EraseRecovers(v1, files1, d, fs.nodes[d], name, k);
    var v2 := DirErase(v1, fs.nodes[d], name).0;
    GoneRecovers(v2, files1, f);
    var v3 := Ifree(v2, f);
    SurvivesTrans(v1, v2, v3);
    SurvivesTrans(vf, v1, v3);
    SurvivesExtends(vf, v3);
    SurvivesBoth(v0, vf, v3);
    ReleaseSurvives(v0, files, f);
    TableAt(v0, f);
    assert files1 - {f} == files - {f};
  }

  lemma TableAt(v: Vol, f: nat)
    requires v.Sized() && f in Table(v.g, v.disk)
    ensures f < TableSize(v.g) && Table(v.g, v.disk)[f] == DinodeAt(v.g, v.disk, f).addrs
  {
    hide DinodeAt;
  }

  lemma UnlinkMoreCrash(fs: Fs, files: Files, d: nat, name: seq<byte>, k: nat, f: nat)
    requires Inv(fs) && Backed(fs, files) && Names(fs, d, name, k, f) && GoodName(name) && f in fs.nodes
    ensures fs.v.Ok() && DirSized(fs.nodes[d].size % U32)
    ensures forall nlink: nat ::
      var fs' := Fs(DirErase(fs.v, fs.nodes[d], name).0, fs.nodes[f := fs.nodes[f].(nlink := nlink)]);
      Backed(fs', files) && Survives(fs.v, fs'.v)
  {
    hide Base, NoDangling, Excess, Names, DirErase, Survives, GoodDir, Recoverable, CString, Live, Pad;
    NamesParts(fs, d, name, k, f);
    DirReady(fs, d);
    NodeIn(fs, d);
    EraseRecovers(fs.v, files, d, fs.nodes[d], name, k);
  }

  /** An unlink of the last name of an inode. */
  predicate LastName(fs: Fs, f: nat) { f in fs.nodes && fs.nodes[f].nlink == 1 }

  /** The record of `f` on disk refers to no block. */
  predicate NoStaleRecord(fs: Fs, f: nat) {
    fs.v.Sized() && f < TableSize(fs.v.g) && Refs(fs.v.disk, DinodeAt(fs.v.g, fs.v.disk, f).addrs) == {}
  }

  lemma UnlinkCrash(fs: Fs, files: Files, d: nat, name: seq<byte>, k: nat, f: nat) returns (files': Files)
    requires Inv(fs) && Backed(fs, files) && Names(fs, d, name, k, f) && GoodName(name) && f != 0 && NoEntries(fs, f)
    ensures f in fs.nodes && fs.nodes[f].nlink > 0 && f < TableSize(fs.v.g)
    ensures fs.v.Ok() && DirSized(fs.nodes[d].size % U32) && Clearable(fs, f)
    ensures var fs' := Unlink(fs, d, name, f).0;
      && Backed(fs', files') && Extended(fs.v, fs'.v)
      && (Survives(fs.v, fs'.v) <==> (LastName(fs, f) ==> NoStaleRecord(fs, f)))
  {
    hide Base, LinkAt, Links, DirErase, Excess, NoDangling, ClearInode, Held, PutInode, Pad, Live, Steady, Names,
         Backed, Survives, Refs, DinodeAt, Extended, Clearable, NoEntries, Ifree;
    UnlinkSteady(fs, d, name, k, f);
    NotItself(fs, d, name, k, f);
    NamedHasCount(fs, Place(d, k));
    files' := files;
    NamesParts(fs, d, name, k, f);
    if fs.nodes[f].nlink > 1 {
      UnlinkMoreCrash(fs, files, d, name, k, f);
      SurvivesExtends(fs.v, DirErase(fs.v, fs.nodes[d], name).0);
    } else {
      UnlinkLastCrash(fs, files, d, name, k, f);
      files' := files - {f};
    }
  }

  // ----- rename and sync -----

  lemma RenameSurvives(fs: Fs, files: Files, d1: nat, name1: seq<byte>, k: nat, d2: nat, name2: seq<byte>, f: nat,
      badFlags: bool) returns (files': Files)
    requires Inv(fs) && Backed(fs, files) && Names(fs, d1, name1, k, f) && f != 0 && GoodName(name1)
    requires d2 in fs.nodes && fs.nodes[d2].isDir && GoodName(name2)
    ensures fs.v.Ok() && DirSized(fs.nodes[d1].size % U32) && DirSized(fs.nodes[d2].size % U32)
    ensures var fs' := Rename(fs, d1, name1, d2, name2, f, badFlags).0; Backed(fs', files') && Survives(fs.v, fs'.v)
  {
    hide Base, Links, Excess, NoDangling, Pad, Live, DirErase, FindInum, DentryInsert, Entry, Taken, SameNode,
         KindsKept, CString, Erased, FreshName, Recoverable, Survives, LinkAt, GoodDir, Names, LinkAdded, SameRoom;
    NamesParts(fs, d1, name1, k, f);
    DirReady(fs, d1);
    DirReady(fs, d2);
    SurvivesRefl(fs.v);
    files' := files;
    if !badFlags && |name2| <= DIRSIZ {
      EraseKeeps(fs, d1, name1, k, f);
      NodeIn(fs, d1);
      EraseRecovers(fs.v, files, d1, fs.nodes[d1], name1, k);
      var v1 := DirErase(fs.v, fs.nodes[d1], name1).0;
      var fs1 := Fs(v1, fs.nodes);
      ErasedView(fs, v1, d1, k, d2);
      FindAfterErase(fs, fs1, Place(d1, k), d2, name2);
      if FindInum(v1, fs.nodes[d2], name2).0 == 0 {
        if name2 == Dot() {
          DotRefused(v1, fs.nodes[d2], name2, f);
          assert fs.nodes[d2 := fs.nodes[d2]] == fs.nodes;
        } else {
          NodeIn(fs1, d2);
          FreshLive(fs1, d2, name2);
          NamedSmall(fs, d1, name1, k, f);
          InsertRecovers(v1, files, d2, fs.nodes[d2], name2, f);
          var r := DentryInsert(v1, fs.nodes[d2], name2, f);
          SurvivesTrans(fs.v, v1, r.v);
          files' := files[d2 := r.n.addrs];
        }
      }
    }
  }

  lemma SyncSurvives(fs: Fs, files: Files, f: nat)
    requires fs.v.Ok() && f in fs.nodes && f < TableSize(fs.v.g) && Backed(fs, files)
    ensures Backed(Sync(fs, f), files) && Survives(fs.v, Sync(fs, f).v)
  {
    hide SyncInode, Recoverable, Survives;
    SyncRecovers(fs.v, files, f, fs.nodes[f]);
  }

  // ----- runs -----

  /** The operation releases an inode. */
  ghost predicate Releases(fs: Fs, op: Op) {
    match op
    case OpUnlink(_, _, f) => LastName(fs, f)
    case OpRmdir(_, _, f) => LastName(fs, f) && fs.nodes[f].isDir && NoEntries(fs, f)
    case _ => false
  }

  /** If it releases an inode, its record on disk refers to no block. */
  ghost predicate SafeStep(fs: Fs, op: Op) {
    Releases(fs, op) ==> NoStaleRecord(fs, op.f)
  }

  lemma StepCrash(fs: Fs, op: Op, files: Files) returns (files': Files)
    requires Inv(fs) && Legal(fs, op) && Backed(fs, files)
    ensures var fs' := Exec(fs, op).0;
      && Backed(fs', files') && Extended(fs.v, fs'.v)
      && (Survives(fs.v, fs'.v) <==> SafeStep(fs, op))
  {
    hide Inv, Backed, Survives, Create, Link, WriteFile, Unlink, Rmdir, Rename, Sync, Extended, NewName, Names,
         GoodName, NoEntries, LastName, NoStaleRecord;
    InvOk(fs);
    SurvivesRefl(fs.v);
    match op {
      case OpCreate(d, name, isDir) => files' := CreateSurvives(fs, files, d, name, isDir);
      case OpLink(d, name, f) => files' := LinkSurvives(fs, files, d, name, f);
      case OpUnlink(d, name, f) =>
        FileHasNoEntries(fs, f);
        files' := UnlinkCrash(fs, files, d, name, SlotOfName(fs, d, name, f), f);
      case OpRmdir(d, name, f) => files' := RmdirCrash(fs, files, d, name, SlotOfName(fs, d, name, f), f);
      case OpRename(d, name, d2, name2, f, badFlags) =>
        files' := RenameSurvives(fs, files, d, name, SlotOfName(fs, d, name, f), d2, name2, f, badFlags);
      case OpWrite(f, cpos, buf) => files' := WriteSurvives(fs, files, f, cpos, buf);
      case OpSync(f) =>
        SyncSteady(fs, f);
        files' := files;
        SyncSurvives(fs, files, f);
    }
    if Survives(fs.v, Exec(fs, op).0.v) { SurvivesExtends(fs.v, Exec(fs, op).0.v); }
  }

  lemma RmdirCrash(fs: Fs, files: Files, d: nat, name: seq<byte>, k: nat, f: nat) returns (files': Files)
    requires Inv(fs) && Backed(fs, files) && Names(fs, d, name, k, f) && GoodName(name) && f != 0
    ensures f in fs.nodes && fs.nodes[f].nlink > 0 && f < TableSize(fs.v.g)
    ensures fs.v.Ok() && DirSized(fs.nodes[d].size % U32) && Clearable(fs, f)
    ensures fs.nodes[f].isDir ==> DirSized(fs.nodes[f].size % U32)
    ensures var fs' := Rmdir(fs, d, name, f).0;
      && Backed(fs', files') && Extended(fs.v, fs'.v)
      && (Survives(fs.v, fs'.v)
          <==> (LastName(fs, f) && fs.nodes[f].isDir && NoEntries(fs, f) ==> NoStaleRecord(fs, f)))
  {
    hide Base, Links, Excess, NoDangling, Held, Pad, Live, Steady, Unlink, DirRmtest, Entry, Names, Backed, Survives,
         Extended, LastName, NoStaleRecord, Clearable, NoEntries;
    RmdirSteady(fs, d, name, k, f);
    NamesParts(fs, d, name, k, f);
    SurvivesRefl(fs.v);
    SurvivesExtends(fs.v, fs.v);
    files' := files;
    if fs.nodes[f].isDir {
      RmtestLinks(fs, f);
      if NoEntries(fs, f) { files' := UnlinkCrash(fs, files, d, name, k, f); }
    }
  }

  lemma InvOk(fs: Fs)
    requires Inv(fs)
    ensures fs.v.Ok()
  {
    hide NoDangling, Excess;
  }

  /** Every operation of a run is safe where it is called. */
  ghost predicate SafeRun(fs: Fs, ops: seq<Op>, fs': Fs, clean: bool)
    requires Inv(fs) && Run(fs, ops, fs', clean)
    decreases |ops|
  {
    hide Inv, Legal, Exec, LostEntry, SafeStep;
    ops != [] ==>
      && SafeStep(fs, ops[0])
      && (StepKeeps(fs, ops[0]); SafeRun(Exec(fs, ops[0]).0, ops[1..], fs', clean))
  }

  /** After every run, failing operations and syncs included, the table backs the in-core
      inodes; and every image on the way has all blocks its inodes refer to marked in use,
      and referred to once, if and only if no inode is released while its record on disk
      refers to blocks. */
  lemma {:induction false} RunSurvives(fs: Fs, ops: seq<Op>, fs': Fs, clean: bool, files: Files) returns (files': Files)
    requires Inv(fs) && Run(fs, ops, fs', clean) && Backed(fs, files)
    ensures Backed(fs', files') && Extended(fs.v, fs'.v)
    ensures Survives(fs.v, fs'.v) <==> SafeRun(fs, ops, fs', clean)
    decreases |ops|
  {
    hide Inv, Legal, Exec, LostEntry, Backed, Survives, Extended, SafeStep;
    if ops == [] {
      files' := files;
      SurvivesRefl(fs.v);
      SurvivesExtends(fs.v, fs.v);
    } else {
      StepKeeps(fs, ops[0]);
      var fs1 := Exec(fs, ops[0]).0;
      var files1 := StepCrash(fs, ops[0], files);
      files' := RunSurvives(fs1, ops[1..], fs', clean, files1);
      SurvivesBoth(fs.v, fs1.v, fs'.v);
    }
  }
}
