/** What runs lose (inode.c, `xv6_create`): blocks and records in use that belong to no
    inode, and when there come to be more of them. No operation writes the superblock or
    the record of the null inode. */
module Losses {
  import opened Layout
  import opened Volumes
  import opened Space
  import opened Balance
  import opened Inodes
  import opened FileData
  import opened DirIter
  import opened Directory
  import opened Namespace
  import opened NsProof
  import opened NsSteps
  import opened NsCreate
  import opened NsRuns
  import opened NsEffect
  import opened Runs
  import opened OnDisk

  // ----- what no operation writes -----

  /** The superblock and the record of the null inode are as they were. */
  ghost predicate SameHead(v: Vol, v': Vol) {
    && v.Sized() && v'.Sized() && v'.g == v.g
    && v'.disk[0] == v.disk[0] && DinodeAt(v.g, v'.disk, 0) == DinodeAt(v.g, v.disk, 0)
  }

  lemma KeptHead(v: Vol, v': Vol, rs: set<nat>)
    requires Kept(v, v', rs) && 0 !in rs
    ensures SameHead(v, v')
  {
    hide DinodeAt;
  }

  lemma HeadRefl(v: Vol)
    requires v.Sized()
    ensures SameHead(v, v)
  {
    hide DinodeAt;
  }

  lemma HeadTrans(v: Vol, v': Vol, v'': Vol)
    requires SameHead(v, v') && SameHead(v', v'')
    ensures SameHead(v, v'')
  {
    hide DinodeAt;
  }

  lemma SyncHead(fs: Fs, f: nat)
    requires Inv(fs) && f in fs.nodes
    ensures fs.v.Ok() && f < TableSize(fs.v.g) && SameHead(fs.v, Sync(fs, f).v)
  {
    hide Base, NoDangling, Excess, Kept, Balanced, SyncInode, SameHead;
    BaseNoNull(fs);
    SyncOnDisk(fs, f);
    KeptHead(fs.v, Sync(fs, f).v, {f});
  }

  // ----- runs -----

  /** Records in use that belong to no inode. */
  function Strays(fs: Fs): set<nat>
    requires fs.v.Sized()
  {
    set i: nat | 0 < i < TableSize(fs.v.g) && DinodeAt(fs.v.g, fs.v.disk, i).kind != 0 && i !in fs.nodes
  }

  /** A creation that fails after it has taken a block. */
  ghost predicate Leaks(fs: Fs, op: Op)
    requires Inv(fs) && Legal(fs, op)
  {
    op.OpCreate? && Exec(fs, op).1 != OK && |op.name| <= DIRSIZ && fs.v.Sized() && ClearCount(fs.v) > 0
  }

  /** No block and no record is lost or found. */
  ghost predicate NothingLost(fs: Fs, fs': Fs) {
    && fs.v.Sized() && fs'.v.Sized() && fs'.v.g == fs.v.g
    && Orphans(fs'.v, Maps(fs')) == Orphans(fs.v, Maps(fs)) && Strays(fs') == Strays(fs)
  }

  /** One block is lost, and one record at most. */
  ghost predicate OneLost(fs: Fs, fs': Fs) {
    && fs.v.Sized() && fs'.v.Sized() && fs'.v.g == fs.v.g
    && (exists b: nat :: b !in Orphans(fs.v, Maps(fs)) && Orphans(fs'.v, Maps(fs')) == Orphans(fs.v, Maps(fs)) + {b})
    && if TableFull(fs.v) then Strays(fs') == Strays(fs)
       else exists i: nat :: i !in Strays(fs) && Strays(fs') == Strays(fs) + {i}
  }

  lemma ConservesNodes(fs: Fs, fs': Fs, rs: set<nat>)
    requires Inv(fs) && Inv(fs') && Conserves(fs, fs', rs) && rs <= fs.nodes.Keys && fs'.nodes.Keys == fs.nodes.Keys
    ensures NothingLost(fs, fs')
  {
    hide Base, NoDangling, Excess, DinodeAt, Orphans;
  }

  lemma UnlinkedLoses(fs: Fs, fs': Fs, f: nat)
    requires Inv(fs) && fs.v.Sized() && f in fs.nodes && f < TableSize(fs.v.g) && Unlinked(fs, f, fs')
    requires fs'.nodes.Keys == if fs.nodes[f].nlink > 1 then fs.nodes.Keys else fs.nodes.Keys - {f}
    ensures NothingLost(fs, fs')
  {
    hide Base, NoDangling, Excess, DinodeAt, Orphans, UsedSet, Refs;
  }

  lemma MadeLoses(fs: Fs, fs': Fs, d: nat, isDir: bool, inum: nat)
    requires MadeOnDisk(fs, fs', d, isDir, inum)
    ensures NothingLost(fs, fs')
  {
    hide DinodeAt, Orphans, FirstRecord, SizeWithOne;
  }

  lemma LeftLoses(fs: Fs, fs': Fs, name: seq<byte>)
    requires Inv(fs) && fs.v.Sized() && LeftOnDisk(fs, fs', name)
    ensures if |name| > DIRSIZ || ClearCount(fs.v) == 0 then NothingLost(fs, fs') else OneLost(fs, fs')
  {
    hide Base, NoDangling, Excess, DinodeAt, UsedSet, Referenced, ClearCount, TableFull;
    if |name| <= DIRSIZ && ClearCount(fs.v) > 0 && !TableFull(fs.v) {
      var inum: nat :| StrayRecord(fs, fs', inum);
      assert inum !in Strays(fs);
      assert Strays(fs') == Strays(fs) + {inum};
    }
  }

  lemma CreateLoses(fs: Fs, d: nat, name: seq<byte>, isDir: bool)
    requires Inv(fs) && NewName(fs, d, name)
    ensures fs.v.Ok() && DirSized(fs.nodes[d].size % U32)
    ensures var (fs', err) := Create(fs, d, name, isDir);
      && SameHead(fs.v, fs'.v)
      && if err != OK && |name| <= DIRSIZ && ClearCount(fs.v) > 0 then OneLost(fs, fs') else NothingLost(fs, fs')
  {
    hide Base, NoDangling, Excess, Create, CString, FreshName, MadeOnDisk, LeftOnDisk, OneLost, NothingLost, SameHead,
         ClearCount;
    CreateOnDisk(fs, d, name, isDir);
    var (fs', err) := Create(fs, d, name, isDir);
    if err == OK {
      var inum: nat :| MadeOnDisk(fs, fs', d, isDir, inum);
      MadeLoses(fs, fs', d, isDir, inum);
      MadeHead(fs, fs', d, isDir, inum);
    } else {
      LeftLoses(fs, fs', name);
      LeftHead(fs, fs', name);
    }
  }

  lemma MadeHead(fs: Fs, fs': Fs, d: nat, isDir: bool, inum: nat)
    requires MadeOnDisk(fs, fs', d, isDir, inum)
    ensures SameHead(fs.v, fs'.v)
  {
    hide DinodeAt, Balanced, SizeWithOne, Kept, SameHead;
    KeptHead(fs.v, fs'.v, {inum});
  }

  lemma LeftHead(fs: Fs, fs': Fs, name: seq<byte>)
    requires Inv(fs) && fs.v.Sized() && LeftOnDisk(fs, fs', name)
    ensures SameHead(fs.v, fs'.v)
  {
    hide Base, NoDangling, Excess, DinodeAt, Orphans, UsedSet, ClearCount, TableFull, Kept, SameHead;
    if |name| > DIRSIZ || ClearCount(fs.v) == 0 {
      HeadRefl(fs.v);
    } else if TableFull(fs.v) {
      KeptHead(fs.v, fs'.v, {});
    } else {
      var inum: nat :| StrayRecord(fs, fs', inum);
      KeptHead(fs.v, fs'.v, {inum});
    }
  }

  lemma UnlinkLoses(fs: Fs, d: nat, name: seq<byte>, k: nat, f: nat)
    requires Inv(fs) && Names(fs, d, name, k, f) && GoodName(name) && f != 0 && NoEntries(fs, f)
    ensures f in fs.nodes && fs.nodes[f].nlink > 0 && f < TableSize(fs.v.g)
    ensures fs.v.Ok() && DirSized(fs.nodes[d].size % U32) && Clearable(fs, f)
    ensures var fs' := Unlink(fs, d, name, f).0; NothingLost(fs, fs') && SameHead(fs.v, fs'.v)
  {
    hide Base, NoDangling, Excess, NoEntries, CString, Unlinked, NothingLost, SameHead, Pad, Live, LinkAt, DirErase,
         ClearInode, Clearable, Names, PutInode;
    UnlinkOnDisk(fs, d, name, k, f);
    NotItself(fs, d, name, k, f);
    NamedHasCount(fs, Place(d, k));
    NamesParts(fs, d, name, k, f);
    UnlinkedLoses(fs, Unlink(fs, d, name, f).0, f);
    UnlinkedHead(fs, Unlink(fs, d, name, f).0, f);
  }

  lemma UnlinkedHead(fs: Fs, fs': Fs, f: nat)
    requires Inv(fs) && fs.v.Sized() && f in fs.nodes && f < TableSize(fs.v.g) && Unlinked(fs, f, fs')
    ensures SameHead(fs.v, fs'.v)
  {
    hide Base, NoDangling, Excess, DinodeAt, Balanced, UsedSet, Refs, Kept, SameHead;
    BaseNoNull(fs);
    if fs.nodes[f].nlink > 1 { KeptHead(fs.v, fs'.v, {}); } else { KeptHead(fs.v, fs'.v, {f}); }
  }

  lemma RmdirLoses(fs: Fs, d: nat, name: seq<byte>, k: nat, f: nat)
    requires Inv(fs) && Names(fs, d, name, k, f) && GoodName(name) && f != 0
    ensures f in fs.nodes && fs.nodes[f].nlink > 0 && f < TableSize(fs.v.g)
    ensures fs.v.Ok() && DirSized(fs.nodes[d].size % U32) && Clearable(fs, f)
    ensures fs.nodes[f].isDir ==> DirSized(fs.nodes[f].size % U32)
    ensures var fs' := Rmdir(fs, d, name, f).0; NothingLost(fs, fs') && SameHead(fs.v, fs'.v)
  {
    hide Base, NoDangling, Excess, Links, Held, Pad, Live, Steady, Unlink, DirRmtest, Entry, Names, Clearable,
         NoEntries, Orphans, Strays, SameHead, Unlinked;
    RmdirOnDisk(fs, d, name, k, f);
    NamesParts(fs, d, name, k, f);
    HeadRefl(fs.v);
    if fs.nodes[f].isDir && NoEntries(fs, f) { UnlinkLoses(fs, d, name, k, f); }
  }

  lemma ConservesLoses(fs: Fs, fs': Fs, rs: set<nat>)
    requires Inv(fs) && Inv(fs') && Conserves(fs, fs', rs) && rs <= fs.nodes.Keys && fs'.nodes.Keys == fs.nodes.Keys
    ensures NothingLost(fs, fs') && SameHead(fs.v, fs'.v)
  {
    hide Inv, Kept, Balanced, NothingLost, SameHead;
    ConservesNodes(fs, fs', rs);
    InvNoNull(fs);
    KeptHead(fs.v, fs'.v, rs);
  }

  lemma InvNoNull(fs: Fs)
    requires Inv(fs)
    ensures 0 !in fs.nodes
  {
    hide Base, NoDangling, Excess;
    BaseNoNull(fs);
  }

  /** No operation but a creation that fails loses a block or a record, and none writes the
      superblock or the record of the null inode. */
  lemma StepLoses(fs: Fs, op: Op)
    requires Inv(fs) && Legal(fs, op)
    ensures var fs' := Exec(fs, op).0;
      SameHead(fs.v, fs'.v) && if Leaks(fs, op) then OneLost(fs, fs') else NothingLost(fs, fs')
  {
    hide Inv, Create, Link, WriteFile, Unlink, Rmdir, Rename, Sync, SameHead, Names, CString, FreshName, NoEntries,
         Clearable, Conserves, NothingLost, OneLost, SizeWithOne, ClearCount;
    StepKeeps(fs, op);
    match op {
      case OpCreate(d, name, isDir) => CreateLoses(fs, d, name, isDir);
      case OpLink(d, name, f) =>
        LinkOnDisk(fs, d, name, f);
        LinkNodes(fs, d, name, f);
        ConservesLoses(fs, Link(fs, d, name, f).0, if Link(fs, d, name, f).1 == OK then {f} else {});
      case OpUnlink(d, name, f) =>
        FileHasNoEntries(fs, f);
        UnlinkLoses(fs, d, name, SlotOfName(fs, d, name, f), f);
      case OpRmdir(d, name, f) => RmdirLoses(fs, d, name, SlotOfName(fs, d, name, f), f);
      case OpRename(d, name, d2, name2, f, badFlags) =>
        NamesParts(fs, d, name, SlotOfName(fs, d, name, f), f);
        RenameOnDisk(fs, d, name, SlotOfName(fs, d, name, f), d2, name2, f, badFlags);
        ConservesLoses(fs, Rename(fs, d, name, d2, name2, f, badFlags).0, {});
      case OpWrite(f, cpos, buf) =>
        WriteOnDisk(fs, f, cpos, buf);
        WriteNodes(fs, f, cpos, buf);
        ConservesLoses(fs, WriteFile(fs, f, cpos, buf).0, {});
      case OpSync(f) =>
        SyncOnDisk(fs, f);
        ConservesLoses(fs, Sync(fs, f), {f});
    }
  }

  lemma LinkNodes(fs: Fs, d: nat, name: seq<byte>, f: nat)
    requires fs.v.Ok() && d in fs.nodes && (fs.nodes[d].isDir ==> DirSized(fs.nodes[d].size % U32))
    requires f in fs.nodes && f < TableSize(fs.v.g)
    ensures Link(fs, d, name, f).0.nodes.Keys == fs.nodes.Keys
  {
    hide DentryInsert, SyncInode;
  }

  lemma WriteNodes(fs: Fs, f: nat, cpos: nat, buf: seq<byte>)
    requires fs.v.Ok() && f in fs.nodes
    ensures WriteFile(fs, f, cpos, buf).0.nodes.Keys == fs.nodes.Keys
  {
    hide FileWrite;
  }

  /** Over every run the superblock and the record of the null inode stay as they are. */
  lemma {:induction false} RunHead(fs: Fs, ops: seq<Op>, fs': Fs, clean: bool)
    requires Inv(fs) && Run(fs, ops, fs', clean)
    ensures SameHead(fs.v, fs'.v)
    decreases |ops|
  {
    hide Base, NoDangling, Excess, Legal, Exec, LostEntry, SameHead, Leaks, OneLost, NothingLost;
    if ops == [] {
      BaseOk(fs);
      HeadRefl(fs.v);
    } else {
      StepKeeps(fs, ops[0]);
      StepLoses(fs, ops[0]);
      RunHead(Exec(fs, ops[0]).0, ops[1..], fs', clean);
      HeadTrans(fs.v, Exec(fs, ops[0]).0.v, fs'.v);
    }
  }

  /** How many creations of a run fail after they have taken a block. */
  ghost function LeaksOf(fs: Fs, ops: seq<Op>, fs': Fs, clean: bool): nat
    requires Inv(fs) && Run(fs, ops, fs', clean)
    decreases |ops|
  {
    hide Inv, Legal, Exec, LostEntry, Leaks;
    if ops == [] then 0
    else
      StepKeeps(fs, ops[0]);
      (if Leaks(fs, ops[0]) then 1 else 0) + LeaksOf(Exec(fs, ops[0]).0, ops[1..], fs', clean)
  }

  /** Over every run the blocks in use that no inode refers to only become more, by exactly
      one for each creation that fails after it has taken a block; and records in use that
      belong to no inode by no more than that. */
  lemma {:induction false} RunLoses(fs: Fs, ops: seq<Op>, fs': Fs, clean: bool)
    requires Inv(fs) && Run(fs, ops, fs', clean)
    ensures fs.v.Sized() && fs'.v.Sized() && fs'.v.g == fs.v.g
    ensures Orphans(fs.v, Maps(fs)) <= Orphans(fs'.v, Maps(fs')) && Strays(fs) <= Strays(fs')
    ensures |Orphans(fs'.v, Maps(fs'))| == |Orphans(fs.v, Maps(fs))| + LeaksOf(fs, ops, fs', clean)
    ensures |Strays(fs')| <= |Strays(fs)| + LeaksOf(fs, ops, fs', clean)
    decreases |ops|
  {
    hide Base, NoDangling, Excess, Legal, Exec, LostEntry, SameHead, Leaks, Orphans, Strays, TableFull;
    if ops == [] {
      BaseOk(fs);
    } else {
      StepKeeps(fs, ops[0]);
      StepLoses(fs, ops[0]);
      RunLoses(Exec(fs, ops[0]).0, ops[1..], fs', clean);
    }
  }

  /** A run without such creations loses nothing. */
  lemma NoLeaksNoLoss(fs: Fs, ops: seq<Op>, fs': Fs, clean: bool)
    requires Inv(fs) && Run(fs, ops, fs', clean) && LeaksOf(fs, ops, fs', clean) == 0
    ensures NothingLost(fs, fs')
  {
    hide Inv, Run, Orphans, Strays, LeaksOf;
    RunLoses(fs, ops, fs', clean);
    SubsetSame(Orphans(fs.v, Maps(fs)), Orphans(fs'.v, Maps(fs')));
    SubsetSame(Strays(fs), Strays(fs'));
  }
}
