/** The order of the writes within one operation (inode.c, file.c): a record is there
    before a name for it is, and a name is gone before its record is. */
module WriteOrder {
  import opened Layout
  import opened Volumes
  import opened Allocator
  import opened BlockMap
  import opened Durability
  import opened Inodes
  import opened FileData
  import opened DirIter
  import opened Directory
  import opened DirInsert
  import opened Namespace
  import opened NsProof
  import opened NsSteps
  import opened NsCreate
  import opened NsRuns
  import opened NsRename
  import opened NsEffect
  import opened OnDisk

  /** The image that the `k`th last write left. */
  function LastImage(v: Vol, k: nat): Disk
    requires 0 < k <= |v.trace|
  {
    v.trace[|v.trace| - k]
  }

  // ----- unlink -----

  /** At the last name, after as many writes as there are blocks to free: the record is
      emptied, then the entry goes, then the record is freed. */
  ghost predicate UnlinkedInOrder(fs: Fs, d: nat, k: nat, f: nat, v': Vol) {
    && fs.v.Sized() && d in fs.nodes && f in fs.nodes && f < TableSize(fs.v.g)
    && |v'.trace| == |fs.v.trace| + |Refs(fs.v.disk, fs.nodes[f].addrs)| + 3
    && var emptied, erased, freed := LastImage(v', 3), LastImage(v', 2), LastImage(v', 1);
    && |emptied| == |erased| == |freed| == fs.v.g.size
    && UsedSet(fs.v.g, emptied) == UsedSet(fs.v.g, fs.v.disk) - Refs(fs.v.disk, fs.nodes[f].addrs)
    && Entry(emptied, fs.nodes[d].addrs, k).inum == f && Empty(fs.v, emptied, f)
    && Entry(erased, fs.nodes[d].addrs, k).inum == 0 && Empty(fs.v, erased, f)
    && DinodeAt(fs.v.g, freed, f).kind == 0 && freed == v'.disk
  }

  /** The record is in use, of the kind it was, and refers to nothing. */
  ghost predicate Empty(v: Vol, image: Disk, f: nat)
    requires v.Sized() && |image| == v.g.size && f < TableSize(v.g)
  {
    DinodeAt(v.g, image, f) == DinodeAt(v.g, v.disk, f).(addrs := NoAddrs(), size := 0, nlink := 0)
  }

  lemma EraseTrace(fs: Fs, d: nat, name: seq<byte>, k: nat, f: nat)
    requires Base(fs) && Names(fs, d, name, k, f) && CString(name) && name != []
    ensures DirSized(fs.nodes[d].size % U32)
    ensures var v' := DirErase(fs.v, fs.nodes[d], name).0; v'.trace == fs.v.trace + [v'.disk]
  {
    hide Base, DirErase, CString, Pad, Live, SoundVol, GoodDir, DinodeAt, SameTable, Spliced, Names, SameRoom,
         Durable;
    NamesParts(fs, d, name, k, f);
    NodeIn(fs, d);
    BaseSound(fs);
    EraseSound(fs.v, Maps(fs), d, fs.nodes[d], name);
    assert ErasedAt(fs.v, Maps(fs), d, fs.nodes[d], k, DirErase(fs.v, fs.nodes[d], name).0);
  }

  lemma ClearTrace(fs: Fs, f: nat, n: Node)
    requires Base(fs) && f in fs.nodes && f != ROOTINO && n.addrs == fs.nodes[f].addrs
    ensures fs.v.Ok() && Clearable(fs, f) && f < TableSize(fs.v.g)
    ensures var v1 := ClearInode(fs.v, f, n);
      && |v1.trace| == |fs.v.trace| + |Refs(fs.v.disk, n.addrs)| + 1
      && v1.trace[|v1.trace| - 1] == v1.disk
  {
    hide Base, FreeAll, Held, DinodeAt, PutInode, SoundVol, UsedSet, Refs, NoAddrs, SameContents;
    BaseSound(fs);
    DirReady(fs, f);
    FreeKeeps(fs, f);
    ReleaseExact(fs.v, Maps(fs), f);
    var v1 := FreeAll(fs.v, Held(fs.v.disk, n.addrs));
    PutTrace(v1, f, DinodeAt(v1.g, v1.disk, f).(addrs := NoAddrs(), size := 0, nlink := n.nlink % U16));
  }

  lemma UnlinkOrder(fs: Fs, d: nat, name: seq<byte>, k: nat, f: nat)
    requires Inv(fs) && Names(fs, d, name, k, f) && GoodName(name) && f != 0 && NoEntries(fs, f)
    requires f in fs.nodes && fs.nodes[f].nlink == 1
    ensures fs.v.Ok() && DirSized(fs.nodes[d].size % U32) && f < TableSize(fs.v.g) && Clearable(fs, f)
    ensures UnlinkedInOrder(fs, d, k, f, Unlink(fs, d, name, f).0.v)
  {
    hide Base, NoDangling, Excess, LinkAt, Links, DirErase, ClearInode, Held, PutInode, Pad, Live, Steady, Names,
         NoEntries, CString, Conserves, SameNode, UsedSet, Refs, DinodeAt, Entry, NoAddrs, KindsKept, LinkAdded,
         SameRoom, Erased;
    UnlinkSteady(fs, d, name, k, f);
    NotItself(fs, d, name, k, f);
    NamesParts(fs, d, name, k, f);
    var n := fs.nodes[f].(nlink := 0);
    ClearKeeps(fs, f, n);
    ClearConserves(fs, f, n);
    ClearTrace(fs, f, n);
    var fs1 := Fs(ClearInode(fs.v, f, n), fs.nodes - {f});
    NamesKept(fs, fs1, d, name, k, f);
    NamedBy(fs1, d, name, k, f);
    EraseKeeps(fs1, d, name, k, f);
    EraseConserves(fs1, d, name, k, f);
    EraseTrace(fs1, d, name, k, f);
    var fs2 := Fs(DirErase(fs1.v, fs.nodes[d], name).0, fs1.nodes);
    RecordThen(fs1, fs2, f);
    PutTrace(fs2.v, f, NullDinode());
    PutConserves(fs2, f, NullDinode());
    ErasedIsFree();
  }

  lemma NamedBy(fs: Fs, d: nat, name: seq<byte>, k: nat, f: nat)
    requires Names(fs, d, name, k, f)
    ensures d in fs.nodes && Entry(fs.v.disk, fs.nodes[d].addrs, k).inum == f
  {
    hide Entry, Pad;
  }

  // ----- link and create -----

  /** What an insertion that succeeds says of its writes. */
  lemma InsertOrder(fs: Fs, d: nat, name: seq<byte>, f: nat)
    requires Base(fs) && d in fs.nodes && fs.nodes[d].isDir
    requires CString(name) && 0 < |name| <= DIRSIZ && FreshName(fs, d, name) && 0 < f < U16
    ensures DirSized(fs.nodes[d].size % U32)
    ensures var r := DentryInsert(fs.v, fs.nodes[d], name, f);
      r.err == OK ==>
        && LastShows(fs.v, Maps(fs), d, r.v, r.n.addrs) && r.v.g == fs.v.g
        && SameRecords(fs.v, r.v) && NamesNow(r.v.disk, r.n.addrs, name, f)
  {
    hide Base, FreshName, DentryInsert, EntryAdded, CString, Pad, SoundVol, GoodDir, DinodeAt, LastShows, SameRecords,
         NamesNow;
    NodeIn(fs, d);
    BaseSound(fs);
    FreshLive(fs, d, name);
    InsertSound(fs.v, Maps(fs), d, fs.nodes[d], name, f);
    var r := DentryInsert(fs.v, fs.nodes[d], name, f);
    if r.err == OK { AddedOrder(fs.v, Maps(fs), d, fs.nodes[d], name, f, r); }
  }

  /** An entry binds the name. */
  ghost predicate NamesNow(image: Disk, a: Addrs, name: seq<byte>, f: nat) {
    exists k: nat :: Entry(image, a, k).inum == f && Entry(image, a, k).name == Pad(name)
  }

  /** All images since `v` have the records that `v` has. */
  ghost predicate SameRecords(v: Vol, v': Vol) {
    && v.Sized() && v'.g == v.g && |v.trace| <= |v'.trace| && v'.trace[..|v.trace|] == v.trace
    && (forall t :: |v.trace| <= t < |v'.trace| ==> |v'.trace[t]| == v.g.size)
    && forall t, i: nat :: |v.trace| <= t < |v'.trace| && i < TableSize(v.g) ==>
         DinodeAt(v.g, v'.trace[t], i) == DinodeAt(v.g, v.disk, i)
  }

  lemma AddedOrder(v: Vol, files: Files, d: nat, n: Node, name: seq<byte>, f: nat, r: InsertResult)
    requires 0 < f < U16 && EntryAdded(v, files, d, n, Dirent(f, Pad(name)), r) && r.err == OK
    ensures LastShows(v, files, d, r.v, r.n.addrs) && SameRecords(v, r.v) && NamesNow(r.v.disk, r.n.addrs, name, f)
  {
    hide Entry, ByteAt, SoundVol, GoodDir, InsertSupply, Extends, Pick, FreeSlot, Pad, LastShows, SameRecords;
    DurableRecords(v, r.v, files);
    var k := FreeSlot(v.disk, n);
    assert Entry(r.v.disk, r.n.addrs, k) == Dirent(f, Pad(name));
  }

  lemma DurableRecords(v: Vol, v': Vol, files: Files)
    requires Durable(v, v', files)
    ensures SameRecords(v, v')
  {
    hide Sound, UsedSet, DinodeAt;
    forall t | |v.trace| <= t < |v'.trace|
      ensures |v'.trace[t]| == v.g.size
      ensures forall i: nat :: i < TableSize(v.g) ==> DinodeAt(v.g, v'.trace[t], i) == DinodeAt(v.g, v.disk, i)
    {
      assert SafeImage(v.g, v.disk, v'.trace[t], files);
      DinodeFrame(v.g, v.disk, v'.trace[t]);
    }
  }

  /** A link enters the name first, and only then raises the count on disk. */
  lemma LinkOrder(fs: Fs, d: nat, name: seq<byte>, f: nat)
    requires Inv(fs) && NewName(fs, d, name) && f in fs.nodes && !fs.nodes[f].isDir
    ensures fs.v.Ok() && DirSized(fs.nodes[d].size % U32) && f < TableSize(fs.v.g)
    ensures var (fs', err) := Link(fs, d, name, f);
      err == OK ==>
        && |fs'.v.trace| >= |fs.v.trace| + 2 && LastImage(fs'.v, 1) == fs'.v.disk
        && |LastImage(fs'.v, 2)| == fs.v.g.size
        && NamesNow(LastImage(fs'.v, 2), fs'.nodes[d].addrs, name, f)
        && DinodeAt(fs.v.g, LastImage(fs'.v, 2), f) == DinodeAt(fs.v.g, fs.v.disk, f)
  {
    hide Base, NoDangling, Excess, DentryInsert, CString, FreshName, DinodeAt, PutInode, Pad, NamesNow;
    DirReady(fs, d);
    DirReady(fs, f);
    if fs.nodes[f].nlink < MAXLINKS {
      if |name| > DIRSIZ {
        TooLong(fs, d, name, f);
      } else {
        InsertOrder(fs, d, name, f);
        var r := DentryInsert(fs.v, fs.nodes[d], name, f);
        var n := fs.nodes[d := r.n][f].(nlink := fs.nodes[d := r.n][f].nlink + 1);
        if r.err == OK {
          PutTrace(r.v, f,
                     DinodeAt(r.v.g, r.v.disk, f).(addrs := n.addrs, size := n.size % U32, nlink := n.nlink % U16));
          assert SyncInode(r.v, f, n).trace[..|r.v.trace|] == r.v.trace;
        }
      }
    }
  }

  /** The last write of a preparation leaves the disk as it is after it. */
  lemma PrepareLogged(v: Vol, d: nat, isDir: bool)
    requires v.Ok() && Prepare(v, d, isDir).1 != 0
    ensures var v1 := Prepare(v, d, isDir).0; |v.trace| < |v1.trace| && Logged(v, v1)
  {
    hide Take, FreeInum, Pick, DotBlock, NewDinode, Encode;
    var v1 := Take(v, Pick(v));
    TakeLogged(v);
    PutTrace(v1, FreeInum(v1.g, v1.disk, 2), NewDinode(isDir, Pick(v)));
  }

  lemma TakeLogged(v: Vol)
    requires v.Ok() && Pick(v) != 0
    ensures |v.trace| < |Take(v, Pick(v)).trace|
  {
    hide Pick, Marked;
  }

  /** A creation has the record written, with the first block of a directory, before the
      entry, which is the last write: just before it the record is there, and the
      directory reads as it did before the call. */
  lemma CreateOrder(fs: Fs, d: nat, name: seq<byte>, isDir: bool)
    requires Inv(fs) && NewName(fs, d, name)
    ensures fs.v.Ok() && DirSized(fs.nodes[d].size % U32)
    ensures var (fs', err) := Create(fs, d, name, isDir);
      err == OK ==> forall inum :: inum in fs'.nodes && inum !in fs.nodes ==> CreatedInOrder(fs, d, name, inum, fs')
  {
    hide Base, NoDangling, Excess, Prepare, DentryInsert, CString, FreshName, Prepared, CreatedInOrder, NewNode;
    DirReady(fs, d);
    if |name| <= DIRSIZ && Prepare(fs.v, d, isDir).1 != 0 { CreatedOrder(fs, d, name, isDir); }
  }

  ghost predicate CreatedInOrder(fs: Fs, d: nat, name: seq<byte>, inum: nat, fs': Fs) {
    && fs.v.Sized() && d in fs.nodes && d in fs'.nodes && inum < TableSize(fs.v.g)
    && |fs'.v.trace| >= |fs.v.trace| + 2 && LastImage(fs'.v, 1) == fs'.v.disk
    && |LastImage(fs'.v, 2)| == fs.v.g.size == |fs'.v.disk|
    && DinodeAt(fs.v.g, LastImage(fs'.v, 2), inum) == DinodeAt(fs.v.g, fs'.v.disk, inum)
    && SameBytes(fs.v.disk, fs.nodes[d].addrs, LastImage(fs'.v, 2), fs'.nodes[d].addrs)
    && NamesNow(fs'.v.disk, fs'.nodes[d].addrs, name, inum)
  }

  lemma CreatedOrder(fs: Fs, d: nat, name: seq<byte>, isDir: bool)
    requires Inv(fs) && NewName(fs, d, name) && |name| <= DIRSIZ && fs.v.Ok() && DirSized(fs.nodes[d].size % U32)
    requires Prepare(fs.v, d, isDir).1 != 0
    ensures var (v1, inum) := Prepare(fs.v, d, isDir);
      var r := DentryInsert(v1, fs.nodes[d], name, inum);
      r.err == OK ==> CreatedInOrder(fs, d, name, inum, Fs(r.v, fs.nodes[d := r.n][inum := NewNode(isDir, Pick(fs.v))]))
  {
    hide Base, NoDangling, Excess, Prepare, DentryInsert, CString, FreshName, Prepared, Conserves, UsedSet, DinodeAt,
         NewNode, FirstRecord, NamesNow, ByteAt, Pad;
    DirReady(fs, d);
    PrepareKeeps(fs, d, isDir);
    PreparedOnDisk(fs, d, isDir);
    PrepareLogged(fs.v, d, isDir);
    var (v1, inum) := Prepare(fs.v, d, isDir);
    PreparedReady(fs, d, name, isDir, v1, inum);
    PreparedSame(fs, d, isDir, v1, inum);
    var fs1 := Fs(v1, fs.nodes[inum := NewNode(isDir, Pick(fs.v))]);
    InsertOrder(fs1, d, name, inum);
    InsertConserves(fs1, d, name, inum);
    var r := DentryInsert(v1, fs.nodes[d], name, inum);
    if r.err == OK {
      RecordThen(fs1, Fs(r.v, fs1.nodes[d := r.n]), inum);
      assert Maps(fs1)[d] == fs.nodes[d].addrs;
      BeforeIs(v1, r.v);
    }
  }

  /** The image before the last write. */
  lemma BeforeIs(v: Vol, v': Vol)
    requires SameRecords(v, v') && |v.trace| < |v'.trace| && 0 < |v.trace| && v.trace[|v.trace| - 1] == v.disk
    ensures LastImage(v', 2) == BeforeLast(v, v') && |LastImage(v', 2)| == v.g.size
    ensures forall i: nat :: i < TableSize(v.g) ==> DinodeAt(v.g, LastImage(v', 2), i) == DinodeAt(v.g, v.disk, i)
  {
    hide DinodeAt;
    assert v'.trace[|v.trace| - 1] == v'.trace[..|v.trace|][|v.trace| - 1];
  }
}
