/** Whole runs against a simple picture: every operation of the module refines one
    step on directories-as-maps, link counts, and the bytes of files. */
module Refinement {
  import opened Layout
  import opened Directory
  import opened DirInsert
  import opened DirMap
  import opened FileData
  import opened Namespace
  import opened NsProof
  import opened NsSteps
  import opened NsRuns
  import opened NsRename
  import opened NsEffect
  import opened NsData
  import opened Runs

  /** The tree of names, and the bytes of every file. */
  datatype State = State(tree: Tree, data: map<nat, File>)

  function StateOf(fs: Fs): State { State(TreeOf(fs), Data(fs)) }

  /** `name` is bound to `f` in directory `d`. */
  predicate Bound(t: Tree, d: nat, name: seq<byte>, f: nat) {
    d in t.dirs && Pad(name) in t.dirs[d] && t.dirs[d][Pad(name)] == f
  }

  /** `name` can be given to a new entry of `d`. */
  predicate Unbound(t: Tree, d: nat, name: seq<byte>) {
    d in t.dirs && d < U16 && (|name| <= DIRSIZ ==> Pad(name) !in t.dirs[d])
  }

  /** What an operation is to come back with, as far as room on the volume goes. */
  ghost function StepRoom(fs: Fs, op: Op): Room
    requires Inv(fs) && Legal(fs, op)
  {
    match op
    case OpCreate(d, _, _) => Room(CreateSupply(fs, d), 0, false)
    case OpLink(d, _, _) => Room(InsertSupply(fs.v, fs.nodes[d]), 0, false)
    case OpRename(d, name, d2, _, f, _) => Room(RenameSupply(fs, d, SlotOfName(fs, d, name, f), d2), 0, false)
    case OpWrite(f, cpos, buf) => RoomToWrite(fs.v, fs.nodes[f], cpos, |buf|)
    case _ => Room(OK, 0, false)
  }

  /** One operation that comes back with `err`, there being as much room as `room` says. */
  ghost predicate Step(s: State, op: Op, room: Room, err: Errno, s': State) {
    match op
    case OpCreate(d, name, isDir) =>
      && Unbound(s.tree, d, name)
      && err == (if |name| > DIRSIZ then ENAMETOOLONG else room.err)
      && (if err != OK then s' == s else exists inum: nat :: Makes(s, d, name, isDir, inum, s'))
    case OpLink(d, name, f) =>
      Unbound(s.tree, d, name) && Linked(s.tree, d, name, f, room.err, err, s'.tree) && s'.data == s.data
    case OpUnlink(d, name, f) =>
      Bound(s.tree, d, name, f) && Has(s.tree, f) && err == OK && Drops(s, d, name, f, s')
    case OpRmdir(d, name, f) =>
      && Bound(s.tree, d, name, f) && Has(s.tree, f)
      && err == (if f !in s.tree.dirs then ENOTDIR
                 else if s.tree.dirs[f].Keys == {Pad(Dot()), Pad(DotDot())} then OK else ENOTEMPTY)
      && if err == OK then Drops(s, d, name, f, s') else s' == s
    case OpRename(d, name, d2, name2, f, badFlags) =>
      && Bound(s.tree, d, name, f) && d2 in s.tree.dirs && f < U16
      && err == TreeRenameResult(s.tree.dirs, d, name, d2, name2, badFlags, room.err)
      && s' == State(Renamed(s.tree, d, name, d2, name2, f, err), s.data)
    case OpWrite(f, cpos, buf) =>
      && f !in s.tree.dirs && f in s.tree.counts
      && err == room.err && s'.tree == s.tree && DataWritten(s.data, f, cpos, buf, room, s'.data)
    case OpSync(f) => f in s.tree.counts && err == OK && s' == s
  }

  /** A new inode is there under the name: an empty file or an empty directory. */
  ghost predicate Makes(s: State, d: nat, name: seq<byte>, isDir: bool, inum: nat, s': State)
    requires d in s.tree.dirs && d < U16
  {
    && 2 <= inum < U16 && inum !in s.tree.counts
    && s'.tree == Created(s.tree, d, name, isDir, inum)
    && s'.data == if isDir then s.data else s.data[inum := NoBytes()]
  }

  predicate Has(t: Tree, f: nat) { f in t.counts && t.counts[f] > 0 }

  /** One name less for `f`, and at the last one its bytes are gone too. */
  predicate Drops(s: State, d: nat, name: seq<byte>, f: nat, s': State)
    requires d in s.tree.dirs && Has(s.tree, f)
  {
    && s'.tree == Removed(s.tree, d, name, f)
    && s'.data == if s.tree.counts[f] > 1 then s.data else s.data - {f}
  }

  // ----- what becomes of the bytes -----

  lemma InTree(fs: Fs)
    ensures forall f :: f in Dirs(fs) <==> f in fs.nodes && fs.nodes[f].isDir
    ensures Counts(fs).Keys == fs.nodes.Keys
  {
    hide NameMap;
  }

  lemma DropsData(fs: Fs, fs': Fs, d: nat, name: seq<byte>, f: nat)
    requires d in Dirs(fs) && Has(TreeOf(fs), f) && f != d
    requires TreeOf(fs') == Removed(TreeOf(fs), d, name, f) && Reads(fs, fs', d)
    ensures Drops(StateOf(fs), d, name, f, StateOf(fs'))
  {
    hide Dirs, Counts, Data, Reads;
    InTree(fs);
    InTree(fs');
    if Counts(fs)[f] > 1 {
      assert Counts(fs').Keys == Counts(fs).Keys;
      DataSame(fs, fs', d);
    } else {
      DataWithout(fs, fs', d, f);
    }
  }

  lemma SameKeysData(fs: Fs, fs': Fs, d: nat)
    requires d in Dirs(fs) && d in Dirs(fs') && Counts(fs').Keys == Counts(fs).Keys && Reads(fs, fs', d)
    ensures Data(fs') == Data(fs)
  {
    hide Dirs, Counts, Data, Reads;
    InTree(fs);
    InTree(fs');
    DataSame(fs, fs', d);
  }

  lemma CreateStep(fs: Fs, d: nat, name: seq<byte>, isDir: bool)
    requires Inv(fs) && Legal(fs, OpCreate(d, name, isDir))
    ensures var op := OpCreate(d, name, isDir);
      Step(StateOf(fs), op, StepRoom(fs, op), Exec(fs, op).1, StateOf(Exec(fs, op).0))
  {
    hide Base, NoDangling, Excess, Create, Dirs, Counts, Created, CString, FreshName, Reads, Pad, Prepare, Data,
         CreateSupply, EmptyFile, StepRoom;
    CreateEffect(fs, d, name, isDir);
    NewInTree(fs, d, name);
    InTree(fs);
    var (fs', err) := Create(fs, d, name, isDir);
    var inum := Prepare(fs.v, d, isDir).1;
    InTree(fs');
    assert StepRoom(fs, OpCreate(d, name, isDir)).err == CreateSupply(fs, d) by { CreateStepRoom(fs, d, name, isDir); }
    if err == OK {
      CreatedIn(TreeOf(fs), d, name, isDir, inum);
      DataJoined(fs, fs', d, inum);
      assert Makes(StateOf(fs), d, name, isDir, inum, StateOf(fs'));
    } else {
      SameKeysData(fs, fs', d);
    }
  }

  lemma CreateStepRoom(fs: Fs, d: nat, name: seq<byte>, isDir: bool)
    requires Inv(fs) && Legal(fs, OpCreate(d, name, isDir))
    ensures fs.v.Sized() && StepRoom(fs, OpCreate(d, name, isDir)).err == CreateSupply(fs, d)
  {
    hide Base, NoDangling, Excess, FreshName, CreateSupply;
    DirReady(fs, d);
  }

  /** What the tree with a new inode has in it. */
  lemma CreatedIn(t: Tree, d: nat, name: seq<byte>, isDir: bool, inum: nat)
    requires d in t.dirs && d < U16 && inum < U16
    ensures var t' := Created(t, d, name, isDir, inum);
      && t'.counts.Keys == t.counts.Keys + {inum} && d in t'.dirs
      && (inum !in t.dirs && inum != d ==> (inum in t'.dirs <==> isDir))
  {
    hide DotMap, Pad;
  }

  lemma LinkStep(fs: Fs, d: nat, name: seq<byte>, f: nat)
    requires Inv(fs) && Legal(fs, OpLink(d, name, f))
    ensures var op := OpLink(d, name, f);
      Step(StateOf(fs), op, StepRoom(fs, op), Exec(fs, op).1, StateOf(Exec(fs, op).0))
  {
    hide Base, NoDangling, Excess, Link, Dirs, Counts, CString, FreshName, Reads, Pad, Data, InsertSupply, Enter;
    LinkEffect(fs, d, name, f);
    NewInTree(fs, d, name);
    var (fs', err) := Link(fs, d, name, f);
    DirReady(fs, d);
    EnterKeys(Dirs(fs), d, name, f);
    SameKeysData(fs, fs', d);
  }

  lemma EnterKeys(dirs: DirMaps, d: nat, name: seq<byte>, f: nat)
    requires d in dirs && f < U16
    ensures Enter(dirs, d, name, f).Keys == dirs.Keys
  {
    hide Pad;
  }

  lemma LeaveKeys(dirs: DirMaps, d: nat, name: seq<byte>)
    requires d in dirs
    ensures Leave(dirs, d, name).Keys == dirs.Keys
  {
    hide Pad;
  }

  lemma NamedThere(fs: Fs, d: nat, name: seq<byte>, k: nat, f: nat)
    requires Inv(fs) && Names(fs, d, name, k, f) && f != 0
    ensures d in fs.nodes && f in fs.nodes && fs.nodes[f].nlink > 0 && Has(TreeOf(fs), f)
  {
    hide Base, NoDangling, Excess, LinkAt;
    assert LinkAt(fs, Place(d, k)) == f;
    NamedHasCount(fs, Place(d, k));
  }

  lemma UnlinkStep(fs: Fs, d: nat, name: seq<byte>, f: nat)
    requires Inv(fs) && Legal(fs, OpUnlink(d, name, f))
    ensures var op := OpUnlink(d, name, f);
      Step(StateOf(fs), op, StepRoom(fs, op), Exec(fs, op).1, StateOf(Exec(fs, op).0))
  {
    hide Base, NoDangling, Excess, Unlink, Names, NoEntries, Dirs, Counts, Removed, CString, Reads, Pad, Data;
    var k := SlotOfName(fs, d, name, f);
    FileHasNoEntries(fs, f);
    NamesInTree(fs, d, name, k, f);
    InTree(fs);
    NamedThere(fs, d, name, k, f);
    UnlinkEffect(fs, d, name, k, f);
    NotItself(fs, d, name, k, f);
    DropsData(fs, Unlink(fs, d, name, f).0, d, name, f);
  }

  lemma RmdirStep(fs: Fs, d: nat, name: seq<byte>, f: nat)
    requires Inv(fs) && Legal(fs, OpRmdir(d, name, f))
    ensures var op := OpRmdir(d, name, f);
      Step(StateOf(fs), op, StepRoom(fs, op), Exec(fs, op).1, StateOf(Exec(fs, op).0))
  {
    hide Base, NoDangling, Excess, Rmdir, Names, NoEntries, Dirs, Counts, Removed, CString, Reads, Pad, Data;
    var k := SlotOfName(fs, d, name, f);
    NamesInTree(fs, d, name, k, f);
    InTree(fs);
    NamedThere(fs, d, name, k, f);
    RmdirEffect(fs, d, name, k, f);
    RmdirInTree(fs, f);
    if Rmdir(fs, d, name, f).1 == OK {
      NotItself(fs, d, name, k, f);
      DropsData(fs, Rmdir(fs, d, name, f).0, d, name, f);
    }
  }

  lemma RenameStep(fs: Fs, d: nat, name: seq<byte>, d2: nat, name2: seq<byte>, f: nat, badFlags: bool)
    requires Inv(fs) && Legal(fs, OpRename(d, name, d2, name2, f, badFlags))
    ensures var op := OpRename(d, name, d2, name2, f, badFlags);
      Step(StateOf(fs), op, StepRoom(fs, op), Exec(fs, op).1, StateOf(Exec(fs, op).0))
  {
    hide Base, NoDangling, Excess, Rename, Names, Dirs, Counts, CString, Reads, ReadsBut, Pad, Data, RenameSupply,
         Enter, Leave;
    var k := SlotOfName(fs, d, name, f);
    NamesInTree(fs, d, name, k, f);
    NamesParts(fs, d, name, k, f);
    RenameEffect(fs, d, name, k, d2, name2, f, badFlags);
    var fs' := Rename(fs, d, name, d2, name2, f, badFlags).0;
    LeaveKeys(Dirs(fs), d, name);
    EnterKeys(Leave(Dirs(fs), d, name), d2, name2, f);
    InTree(fs);
    InTree(fs');
    DataSameBut(fs, fs', d, d2);
  }

  lemma WriteStep(fs: Fs, f: nat, cpos: nat, buf: seq<byte>)
    requires Inv(fs) && Legal(fs, OpWrite(f, cpos, buf))
    ensures var op := OpWrite(f, cpos, buf);
      Step(StateOf(fs), op, StepRoom(fs, op), Exec(fs, op).1, StateOf(Exec(fs, op).0))
  {
    hide Base, NoDangling, Excess, WriteFile, Dirs, Counts, Reads, Data, DataWritten, RoomToWrite, EffectivePos;
    InTree(fs);
    WriteEffect(fs, f, cpos, buf);
    WriteData(fs, f, cpos, buf);
  }

  lemma SyncStep(fs: Fs, f: nat)
    requires Inv(fs) && Legal(fs, OpSync(f))
    ensures var op := OpSync(f);
      Step(StateOf(fs), op, StepRoom(fs, op), Exec(fs, op).1, StateOf(Exec(fs, op).0))
  {
    hide Base, NoDangling, Excess, Sync, Dirs, Counts, Reads, Data, SameNode;
    InTree(fs);
    SyncSteady(fs, f);
    var fs' := Sync(fs, f);
    NodesRead(fs, fs');
    BaseNoNull(fs);
    DirsSame(fs, fs');
    CountsSame(fs, fs');
    RootIsDir(fs);
    ReadsWeaken(fs, fs', ROOTINO);
    DataSame(fs, fs', ROOTINO);
  }

  /** Every operation refines its step, and fails exactly where the step does. */
  lemma StepRefines(fs: Fs, op: Op)
    requires Inv(fs) && Legal(fs, op)
    ensures Step(StateOf(fs), op, StepRoom(fs, op), Exec(fs, op).1, StateOf(Exec(fs, op).0))
  {
    hide Inv, Legal, Exec, StepRoom, Step, StateOf;
    match op
    case OpCreate(d, name, isDir) => CreateStep(fs, d, name, isDir);
    case OpLink(d, name, f) => LinkStep(fs, d, name, f);
    case OpUnlink(d, name, f) => UnlinkStep(fs, d, name, f);
    case OpRmdir(d, name, f) => RmdirStep(fs, d, name, f);
    case OpRename(d, name, d2, name2, f, badFlags) => RenameStep(fs, d, name, d2, name2, f, badFlags);
    case OpWrite(f, cpos, buf) => WriteStep(fs, f, cpos, buf);
    case OpSync(f) => SyncStep(fs, f);
  }

  lemma NewInTree(fs: Fs, d: nat, name: seq<byte>)
    requires Base(fs) && NewName(fs, d, name)
    ensures d in Dirs(fs) && (|name| <= DIRSIZ ==> Pad(name) !in Dirs(fs)[d])
    ensures d < U16
  {
    hide Base, FreshName, CString, Pad;
    DirReady(fs, d);
    if |name| <= DIRSIZ { FreshNotMapped(fs, d, name); }
  }

  lemma RmdirInTree(fs: Fs, f: nat)
    requires Base(fs) && f in Counts(fs)
    ensures f in fs.nodes && (f in Dirs(fs) <==> fs.nodes[f].isDir)
    ensures f in Dirs(fs) ==> (NoEntries(fs, f) <==> Dirs(fs)[f].Keys == {Pad(Dot()), Pad(DotDot())})
  {
    hide Base, NoEntries, Pad;
    if fs.nodes[f].isDir { EmptyInTree(fs, f); }
  }

  // ----- runs -----

  /** A run of steps, with the room there is for each operation. */
  ghost predicate Steps(s: State, ops: seq<Op>, rooms: seq<Room>, s': State)
    decreases |ops|
  {
    if ops == [] then rooms == [] && s' == s
    else
      && rooms != []
      && exists err, s1 :: Step(s, ops[0], rooms[0], err, s1) && Steps(s1, ops[1..], rooms[1..], s')
  }

  /** The room that the operations of a run of the module meet. */
  ghost function Rooms(fs: Fs, ops: seq<Op>, fs': Fs, clean: bool): (r: seq<Room>)
    requires Inv(fs) && Run(fs, ops, fs', clean)
    ensures |r| == |ops|
    decreases |ops|
  {
    hide Inv, Legal, Exec, LostEntry, StepRoom;
    if ops == [] then []
    else
      StepKeeps(fs, ops[0]);
      [StepRoom(fs, ops[0])] + Rooms(Exec(fs, ops[0]).0, ops[1..], fs', clean)
  }

  /** Every run of the module is a run of steps that do as much, and fail exactly for lack
      of as much, as the volume allows at that point. */
  lemma {:induction false} RunRefines(fs: Fs, ops: seq<Op>, fs': Fs, clean: bool)
    requires Inv(fs) && Run(fs, ops, fs', clean)
    ensures Steps(StateOf(fs), ops, Rooms(fs, ops, fs', clean), StateOf(fs'))
    decreases |ops|
  {
    hide Inv, Legal, Exec, LostEntry, Step, StepRoom, StateOf;
    if ops == [] {
      assert fs' == fs;
    } else {
      var fs1 := Exec(fs, ops[0]).0;
      StepKeeps(fs, ops[0]);
      StepRefines(fs, ops[0]);
      RunRefines(fs1, ops[1..], fs', clean);
      var rest := Rooms(fs1, ops[1..], fs', clean);
      var rooms := [StepRoom(fs, ops[0])] + rest;
      assert rooms == Rooms(fs, ops, fs', clean) && rooms[1..] == rest;
      assert Step(StateOf(fs), ops[0], rooms[0], Exec(fs, ops[0]).1, StateOf(fs1));
    }
  }

  // ----- what runs keep -----

  /** Link counts fit the 16 bits of a record. */
  predicate CountsFit(s: State) { forall f :: f in s.tree.counts ==> s.tree.counts[f] < U16 }

  lemma StepCounts(s: State, op: Op, room: Room, err: Errno, s': State)
    requires CountsFit(s) && Step(s, op, room, err, s')
    ensures CountsFit(s')
  {
    hide NoBytes, DotMap, Pad, Written, EffectivePos, Leave, Enter;
  }

  /** Link counts fit 16 bits over every run: no link goes past 32767. */
  lemma {:induction false} RunCounts(s: State, ops: seq<Op>, rooms: seq<Room>, s': State)
    requires CountsFit(s) && Steps(s, ops, rooms, s')
    ensures CountsFit(s')
    decreases |ops|
  {
    hide CountsFit, Step;
    if ops == [] {
    } else {
      var err, s1 :| Step(s, ops[0], rooms[0], err, s1) && Steps(s1, ops[1..], rooms[1..], s');
      StepCounts(s, ops[0], rooms[0], err, s1);
      RunCounts(s1, ops[1..], rooms[1..], s');
    }
  }

  /** Every file is tidy. */
  predicate TidyState(s: State) {
    forall f :: f in s.data ==> Tidy(s.data[f]) && |s.data[f].store| == MAXBYTES
  }

  /** Writes start below 4 GiB. */
  predicate Small(ops: seq<Op>) { forall op :: op in ops && op.OpWrite? ==> op.cpos < U32 }

  lemma NoBytesTidy()
    ensures Tidy(NoBytes()) && |NoBytes().store| == MAXBYTES
  {}

  lemma StepTidy(s: State, op: Op, room: Room, err: Errno, s': State)
    requires TidyState(s) && Step(s, op, room, err, s') && Small([op])
    ensures TidyState(s')
    ensures op.OpWrite? ==>
      Contents(s'.data[op.f]) == Splice(Contents(s.data[op.f]), op.cpos, op.buf[..room.count])
  {
    hide Tidy, NoBytes, DotMap, Pad, Written, Contents, Splice, EffectivePos, Leave, Enter;
    assert op in [op];
    NoBytesTidy();
    if op.OpWrite? {
      EffectivePosExact(op.cpos);
      TidyWrite(s.data[op.f], op.cpos, op.buf[..room.count], room.cut);
    }
  }

  /** Over any run whose writes start below 4 GiB all files stay tidy, so that every write
      is a splice of the contents. */
  lemma {:induction false} SmallRunsTidy(s: State, ops: seq<Op>, rooms: seq<Room>, s': State)
    requires TidyState(s) && Steps(s, ops, rooms, s') && Small(ops)
    ensures TidyState(s')
    decreases |ops|
  {
    hide TidyState, Step;
    if ops == [] {
    } else {
      var err, s1 :| Step(s, ops[0], rooms[0], err, s1) && Steps(s1, ops[1..], rooms[1..], s');
      assert ops[0] in ops;
      StepTidy(s, ops[0], rooms[0], err, s1);
      SmallRunsTidy(s1, ops[1..], rooms[1..], s');
    }
  }

  /** What this says of the module's state. */
  lemma TidyFiles(fs: Fs)
    ensures TidyState(StateOf(fs)) <==>
      forall f :: f in fs.nodes && !fs.nodes[f].isDir ==>
        fs.nodes[f].size < U32 && ZeroTail(fs.v.disk, fs.nodes[f].addrs, fs.nodes[f].size)
    ensures CountsFit(StateOf(fs)) <==> forall f :: f in fs.nodes ==> fs.nodes[f].nlink < U16
  {
    hide Tidy, ZeroTail, FileOf, Dirs;
    forall f | f in fs.nodes && !fs.nodes[f].isDir
      ensures f in Data(fs) && Data(fs)[f] == FileOf(fs.v.disk, fs.nodes[f])
      ensures Tidy(Data(fs)[f]) <==>
        fs.nodes[f].size < U32 && ZeroTail(fs.v.disk, fs.nodes[f].addrs, fs.nodes[f].size)
    {
      DataIs(fs, f);
      TidyMeans(fs.v.disk, fs.nodes[f]);
    }
    InTree(fs);
    forall f | f in fs.nodes ensures Counts(fs)[f] == fs.nodes[f].nlink { CountInTree(fs, f); }
    assert StateOf(fs).tree.counts == Counts(fs);
  }
}
