/** Runs: any sequence of the operations, each called as the VFS may call it in the
    state it meets, failures included. */
module Runs {
  import opened Layout
  import opened DirIter
  import opened Namespace
  import opened NsProof
  import opened NsSteps
  import opened NsRuns
  import opened NsRename

  datatype Op =
    | OpCreate(d: nat, name: seq<byte>, isDir: bool)
    | OpLink(d: nat, name: seq<byte>, f: nat)
    | OpUnlink(d: nat, name: seq<byte>, f: nat)
    | OpRmdir(d: nat, name: seq<byte>, f: nat)
    | OpRename(d: nat, name: seq<byte>, d2: nat, name2: seq<byte>, f: nat, badFlags: bool)
    | OpWrite(f: nat, cpos: nat, buf: seq<byte>)
    | OpSync(f: nat)

  /** `name` in directory `d` is an existing entry, not `.` or `..`, for `f`. */
  ghost predicate Resolves(fs: Fs, d: nat, name: seq<byte>, f: nat) {
    GoodName(name) && f != 0 && exists k: nat :: Names(fs, d, name, k, f)
  }

  /** What the VFS has established before it calls the operation. */
  ghost predicate Legal(fs: Fs, op: Op) {
    match op
    case OpCreate(d, name, isDir) => NewName(fs, d, name)
    case OpLink(d, name, f) => NewName(fs, d, name) && f in fs.nodes && !fs.nodes[f].isDir
    case OpUnlink(d, name, f) => Resolves(fs, d, name, f) && (f in fs.nodes ==> !fs.nodes[f].isDir)
    case OpRmdir(d, name, f) => Resolves(fs, d, name, f)
    case OpRename(d, name, d2, name2, f, _) =>
      Resolves(fs, d, name, f) && d2 in fs.nodes && fs.nodes[d2].isDir && GoodName(name2)
    case OpWrite(f, _, _) => f in fs.nodes && !fs.nodes[f].isDir
    case OpSync(f) => f in fs.nodes
  }

  /** The slot that an existing name is in. */
  ghost function SlotOfName(fs: Fs, d: nat, name: seq<byte>, f: nat): (k: nat)
    requires Resolves(fs, d, name, f)
    ensures Names(fs, d, name, k, f)
  {
    var k: nat :| Names(fs, d, name, k, f); k
  }

  /** A file has no entries of its own. */
  lemma FileHasNoEntries(fs: Fs, f: nat)
    requires f in fs.nodes ==> !fs.nodes[f].isDir
    ensures NoEntries(fs, f)
  {
    hide Entry;
  }

  /** One operation: the state it leaves and its result. */
  ghost function Exec(fs: Fs, op: Op): (Fs, Errno)
    requires Inv(fs) && Legal(fs, op)
  {
    hide Inv, Steady, ExcessMoved, Base;
    match op
    case OpCreate(d, name, isDir) => CreateSteady(fs, d, name, isDir); Create(fs, d, name, isDir)
    case OpLink(d, name, f) => LinkSteady(fs, d, name, f); Link(fs, d, name, f)
    case OpUnlink(d, name, f) =>
      FileHasNoEntries(fs, f);
      UnlinkSteady(fs, d, name, SlotOfName(fs, d, name, f), f);
      Unlink(fs, d, name, f)
    case OpRmdir(d, name, f) =>
      RmdirSteady(fs, d, name, SlotOfName(fs, d, name, f), f);
      Rmdir(fs, d, name, f)
    case OpRename(d, name, d2, name2, f, badFlags) =>
      RenameCases(fs, d, name, SlotOfName(fs, d, name, f), d2, name2, f, badFlags);
      Rename(fs, d, name, d2, name2, f, badFlags)
    case OpWrite(f, cpos, buf) => WriteSteady(fs, f, cpos, buf); WriteFile(fs, f, cpos, buf)
    case OpSync(f) => SyncSteady(fs, f); (Sync(fs, f), OK)
  }

  /** A rename that failed after erasing the old entry. */
  predicate LostEntry(op: Op, err: Errno) { op.OpRename? && err in {EEXIST, ENOSPC, EFBIG} }

  /** Every operation keeps the invariant, and exactness of the link counts too,
      unless it is a rename that lost its entry. */
  lemma StepKeeps(fs: Fs, op: Op)
    requires Inv(fs) && Legal(fs, op)
    ensures Inv(Exec(fs, op).0)
    ensures !LostEntry(op, Exec(fs, op).1) ==> ExcessMoved(fs, Exec(fs, op).0, 0, 0)
  {
    hide Base, NoDangling, Excess, Create, Link, Unlink, Rmdir, Rename, WriteFile, NewName, Names, NoEntries, Taken,
         GoodName;
    match op
    case OpCreate(d, name, isDir) => CreateSteady(fs, d, name, isDir);
    case OpLink(d, name, f) => LinkSteady(fs, d, name, f);
    case OpUnlink(d, name, f) =>
      FileHasNoEntries(fs, f);
      UnlinkSteady(fs, d, name, SlotOfName(fs, d, name, f), f);
    case OpRmdir(d, name, f) => RmdirSteady(fs, d, name, SlotOfName(fs, d, name, f), f);
    case OpRename(d, name, d2, name2, f, badFlags) =>
      RenameCases(fs, d, name, SlotOfName(fs, d, name, f), d2, name2, f, badFlags);
    case OpWrite(f, cpos, buf) => WriteSteady(fs, f, cpos, buf);
    case OpSync(f) => SyncSteady(fs, f);
  }

  /** `ops` leads from `fs` to `fs'`, every operation legal where it is called;
      `clean` runs have no rename that lost its entry. */
  ghost predicate Run(fs: Fs, ops: seq<Op>, fs': Fs, clean: bool)
    requires Inv(fs)
    decreases |ops|
  {
    if ops == [] then fs' == fs
    else
      && Legal(fs, ops[0])
      && (clean ==> !LostEntry(ops[0], Exec(fs, ops[0]).1))
      && (StepKeeps(fs, ops[0]); Run(Exec(fs, ops[0]).0, ops[1..], fs', clean))
  }

  /** Over every run: blocks referenced by inodes are pairwise distinct data blocks
      marked in use, directories are good, no entry names a free inode, and no
      inode has more entries than its link count. */
  lemma {:induction false} RunKeepsInv(fs: Fs, ops: seq<Op>, fs': Fs, clean: bool)
    requires Inv(fs) && Run(fs, ops, fs', clean)
    ensures Inv(fs')
    decreases |ops|
  {
    hide Inv, Legal, Exec, LostEntry;
    if ops == [] {
    } else {
      StepKeeps(fs, ops[0]);
      RunKeepsInv(Exec(fs, ops[0]).0, ops[1..], fs', clean);
    }
  }

  lemma ExactKept(fs: Fs, fs': Fs)
    requires Exact(fs) && ExcessMoved(fs, fs', 0, 0) && 0 !in fs'.nodes
    ensures Exact(fs')
  {
    hide Excess;
  }

  /** Over every clean run that starts exact, the link count of every inode but the
      root is the number of directory entries naming it. */
  lemma {:induction false} RunKeepsExact(fs: Fs, ops: seq<Op>, fs': Fs)
    requires Inv(fs) && Exact(fs) && Run(fs, ops, fs', true)
    ensures Exact(fs')
    decreases |ops|
  {
    hide Base, NoDangling, Excess, Legal, Exec, LostEntry, Exact, ExcessMoved;
    if ops == [] {
    } else {
      StepKeeps(fs, ops[0]);
      BaseNoNull(Exec(fs, ops[0]).0);
      ExactKept(fs, Exec(fs, ops[0]).0);
      RunKeepsExact(Exec(fs, ops[0]).0, ops[1..], fs');
    }
  }
}
