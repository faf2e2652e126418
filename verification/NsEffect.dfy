/** What the namespace operations do, stated on a simple tree: for every directory a
    finite map from names to inode numbers, for every inode a link count. */
module NsEffect {
  import opened Layout
  import opened Volumes
  import opened Allocator
  import opened BlockMap
  import opened Space
  import opened Inodes
  import opened FileData
  import opened DirIter
  import opened Directory
  import opened DirInsert
  import opened DirMap
  import opened Namespace
  import opened NsProof
  import opened NsSteps
  import opened NsCreate
  import opened NsRuns
  import opened NsRename

  type DirMaps = map<nat, map<Name, ushort>>

  datatype Tree = Tree(dirs: DirMaps, counts: map<nat, nat>)

  /** Bind a name in directory `d`. */
  function Enter(dirs: DirMaps, d: nat, name: seq<byte>, f: nat): DirMaps
    requires d in dirs && f < U16
  {
    var m: map<Name, ushort> := dirs[d][Pad(name) := f];
    dirs[d := m]
  }

  /** Unbind a name in directory `d`. */
  function Leave(dirs: DirMaps, d: nat, name: seq<byte>): DirMaps
    requires d in dirs
  {
    dirs[d := dirs[d] - {Pad(name)}]
  }

  function Dirs(fs: Fs): DirMaps {
    map f | f in fs.nodes && fs.nodes[f].isDir :: NameMap(fs.v.disk, fs.nodes[f])
  }

  function Counts(fs: Fs): map<nat, nat> { map f | f in fs.nodes :: fs.nodes[f].nlink }

  function TreeOf(fs: Fs): Tree { Tree(Dirs(fs), Counts(fs)) }

  /** Every inode in both states, other than `e`, reads the same. */
  ghost predicate Reads(fs: Fs, fs': Fs, e: nat) {
    forall g :: g in fs.nodes && g in fs'.nodes && g != e ==> SameNode(fs.v, fs.nodes[g], fs'.v, fs'.nodes[g])
  }

  // ----- directories that read the same -----

  lemma {:induction false} NamesToSame(disk: Disk, a: Addrs, disk': Disk, a': Addrs, end: nat)
    requires forall k: nat :: Entry(disk', a', k) == Entry(disk, a, k)
    ensures NamesTo(disk', a', end) == NamesTo(disk, a, end)
  {
    hide Entry;
    if end == 0 {
    } else {
      NamesToSame(disk, a, disk', a', end - 1);
    }
  }

  lemma NameMapSame(v: Vol, n: Node, v': Vol, n': Node)
    requires SameNode(v, n, v', n')
    ensures NameMap(v'.disk, n') == NameMap(v.disk, n)
  {
    hide Entry, ByteAt, NamesTo;
    forall k: nat ensures Entry(v'.disk, n'.addrs, k) == Entry(v.disk, n.addrs, k) {
      SameEntry(v.disk, n.addrs, v'.disk, n'.addrs, k);
    }
    NamesToSame(v.disk, n.addrs, v'.disk, n'.addrs, n.size / DESIZE);
  }

  /** Only directory `d` has changed, and it now is `m`. */
  lemma DirsChanged(fs: Fs, fs': Fs, d: nat, m: map<Name, ushort>)
    requires fs'.nodes.Keys == fs.nodes.Keys && Reads(fs, fs', d) && d in fs.nodes
    requires fs.nodes[d].isDir && fs'.nodes[d].isDir && NameMap(fs'.v.disk, fs'.nodes[d]) == m
    ensures Dirs(fs') == Dirs(fs)[d := m]
  {
    hide NameMap, SameBytes;
    forall f | f in fs.nodes && f != d
      ensures fs'.nodes[f].isDir == fs.nodes[f].isDir
      ensures NameMap(fs'.v.disk, fs'.nodes[f]) == NameMap(fs.v.disk, fs.nodes[f])
    {
      NameMapSame(fs.v, fs.nodes[f], fs'.v, fs'.nodes[f]);
    }
  }

  lemma DirsSame(fs: Fs, fs': Fs)
    requires fs'.nodes.Keys == fs.nodes.Keys && Reads(fs, fs', 0) && 0 !in fs.nodes
    ensures Dirs(fs') == Dirs(fs)
  {
    hide NameMap, SameBytes;
    forall f | f in fs.nodes
      ensures fs'.nodes[f].isDir == fs.nodes[f].isDir
      ensures NameMap(fs'.v.disk, fs'.nodes[f]) == NameMap(fs.v.disk, fs.nodes[f])
    {
      NameMapSame(fs.v, fs.nodes[f], fs'.v, fs'.nodes[f]);
    }
  }

  // ----- inserting and erasing -----

  lemma FreshNotMapped(fs: Fs, d: nat, name: seq<byte>)
    requires Base(fs) && d in fs.nodes && fs.nodes[d].isDir && FreshName(fs, d, name)
    ensures Pad(name) !in NameMap(fs.v.disk, fs.nodes[d])
  {
    hide Base, NameMap, Pad, Entry, GoodDir;
    NodeIn(fs, d);
    FreshLive(fs, d, name);
    if Pad(name) in NameMap(fs.v.disk, fs.nodes[d]) {
      var k := NameMapOnly(fs.v.disk, fs.nodes[d], Pad(name));
    }
  }

  /** What an insertion leaves. */
  ghost predicate TreeInserted(fs: Fs, d: nat, name: seq<byte>, f: nat, fs': Fs, err: Errno) {
    && d in Dirs(fs) && f < U16
    && fs'.nodes.Keys == fs.nodes.Keys && Counts(fs') == Counts(fs)
    && fs.v.Sized() && err == InsertSupply(fs.v, fs.nodes[d])
    && Reads(fs, fs', if err == OK then d else 0)
    && Dirs(fs') == if err == OK then Enter(Dirs(fs), d, name, f) else Dirs(fs)
  }

  lemma InsertTree(fs: Fs, d: nat, name: seq<byte>, f: nat)
    requires Base(fs) && d in fs.nodes && fs.nodes[d].isDir
    requires CString(name) && 0 < |name| <= DIRSIZ && FreshName(fs, d, name) && 0 < f < U16
    ensures DirSized(fs.nodes[d].size % U32)
    ensures var r := DentryInsert(fs.v, fs.nodes[d], name, f);
      TreeInserted(fs, d, name, f, Fs(r.v, fs.nodes[d := r.n]), r.err)
  {
    hide Base, FreshName, DentryInsert, EntryAdded, CString, Pad, Dirs, Counts, SoundVol, GoodDir, DinodeAt, NameMap;
    NodeIn(fs, d);
    BaseSound(fs);
    BaseNoNull(fs);
    FreshNotMapped(fs, d, name);
    FreshLive(fs, d, name);
    InsertSound(fs.v, Maps(fs), d, fs.nodes[d], name, f);
    InsertIsUpdate(fs.v, Maps(fs), d, fs.nodes[d], name, f);
    InsertedTree(fs, d, name, f, DentryInsert(fs.v, fs.nodes[d], name, f));
  }

  lemma InsertedTree(fs: Fs, d: nat, name: seq<byte>, f: nat, r: InsertResult)
    requires d in fs.nodes && fs.nodes[d].isDir && 0 < f < U16 && 0 !in fs.nodes
    requires EntryAdded(fs.v, Maps(fs), d, fs.nodes[d], Dirent(f, Pad(name)), r)
    requires r.err == OK ==> NameMap(r.v.disk, r.n) == NameMap(fs.v.disk, fs.nodes[d])[Pad(name) := f]
    ensures TreeInserted(fs, d, name, f, Fs(r.v, fs.nodes[d := r.n]), r.err)
  {
    hide SoundVol, GoodSlots, ZeroTail, Entry, ByteAt, NameMap, Pad, UsedSet, FreeSlot, InsertSupply, Pick;
    var fs' := Fs(r.v, fs.nodes[d := r.n]);
    forall g | g in fs.nodes && g != d ensures SameNode(fs.v, fs.nodes[g], fs'.v, fs'.nodes[g]) {
      assert SameBytes(fs.v.disk, Maps(fs)[g], r.v.disk, Maps(fs)[g]);
    }
    hide SameBytes, SameNode;
    if r.err == OK {
      DirsChanged(fs, fs', d, NameMap(r.v.disk, r.n));
    } else {
      assert SameNode(fs.v, fs.nodes[d], r.v, r.n) by { NodeUnchanged(fs, d, r, Dirent(f, Pad(name))); }
      DirsSame(fs, fs');
    }
  }

  lemma NodeUnchanged(fs: Fs, d: nat, r: InsertResult, de: Dirent)
    requires d in fs.nodes && fs.nodes[d].isDir && r.err != OK
    requires EntryAdded(fs.v, Maps(fs), d, fs.nodes[d], de, r)
    ensures SameNode(fs.v, fs.nodes[d], r.v, r.n)
  {
    hide SoundVol, GoodSlots, ZeroTail, Entry, ByteAt, UsedSet, FreeSlot;
  }

  /** Erasing the entry of a name takes its binding away. */
  lemma EraseTree(fs: Fs, d: nat, name: seq<byte>, k: nat, f: nat)
    requires Base(fs) && Names(fs, d, name, k, f) && CString(name) && name != []
    ensures DirSized(fs.nodes[d].size % U32)
    ensures var (v', err) := DirErase(fs.v, fs.nodes[d], name);
      var fs' := Fs(v', fs.nodes);
      && err == OK && Base(fs') && d in Dirs(fs) && Reads(fs, fs', d)
      && Dirs(fs') == Leave(Dirs(fs), d, name)
  {
    hide Base, DirErase, Pad, CString, SoundVol, GoodDir, DinodeAt, NameMap, Entry, Names, LinkAt, SameNode, KindsKept;
    NamesParts(fs, d, name, k, f);
    NodeIn(fs, d);
    BaseSound(fs);
    EraseKeeps(fs, d, name, k, f);
    EraseIsRemove(fs.v, Maps(fs), d, fs.nodes[d], name);
    var v' := DirErase(fs.v, fs.nodes[d], name).0;
    DirsChanged(fs, Fs(v', fs.nodes), d, NameMap(fs.v.disk, fs.nodes[d]) - {Pad(name)});
  }

  /** A name resolves as in the tree. */
  lemma NamesInTree(fs: Fs, d: nat, name: seq<byte>, k: nat, f: nat)
    requires Base(fs) && Names(fs, d, name, k, f)
    ensures d in Dirs(fs) && Pad(name) in Dirs(fs)[d] && Dirs(fs)[d][Pad(name)] == f
  {
    hide Base, Entry, Pad, NameMap, GoodDir;
    NodeIn(fs, d);
    NameMapAt(fs.v.disk, fs.nodes[d], k);
  }

  // ----- link -----

  /** A new name for `f`, or on an error nothing new; `supply` tells whether there is
      room for the entry. */
  ghost predicate Linked(t: Tree, d: nat, name: seq<byte>, f: nat, supply: Errno, err: Errno, t': Tree) {
    && d in t.dirs && f in t.counts && f < U16
    && err == (if t.counts[f] >= MAXLINKS then ETOOMANYREFS else if |name| > DIRSIZ then ENAMETOOLONG else supply)
    && (if err == OK then t' == Tree(Enter(t.dirs, d, name, f), t.counts[f := t.counts[f] + 1]) else t' == t)
  }

  lemma LinkEffect(fs: Fs, d: nat, name: seq<byte>, f: nat)
    requires Inv(fs) && NewName(fs, d, name) && f in fs.nodes && !fs.nodes[f].isDir
    ensures fs.v.Ok() && DirSized(fs.nodes[d].size % U32) && f < TableSize(fs.v.g)
    ensures var (fs', err) := Link(fs, d, name, f);
      Linked(TreeOf(fs), d, name, f, InsertSupply(fs.v, fs.nodes[d]), err, TreeOf(fs')) && Reads(fs, fs', d)
  {
    hide Base, DentryInsert, Excess, NoDangling, Enter, FreshName, Dirs, Counts, CString, SyncInode, Reads,
         InsertSupply;
    DirReady(fs, d);
    DirReady(fs, f);
    BaseNoNull(fs);
    DirInTree(fs, d);
    CountInTree(fs, f);
    ReadsRefl(fs, d);
    if fs.nodes[f].nlink < MAXLINKS {
      if |name| > DIRSIZ {
        TooLong(fs, d, name, f);
        assert fs == Link(fs, d, name, f).0;
      } else {
        LinkInsert(fs, d, name, f);
      }
    }
  }

  /** Where there is room for one more link and the name is not too long. */
  lemma LinkInsert(fs: Fs, d: nat, name: seq<byte>, f: nat)
    requires Base(fs) && NewName(fs, d, name) && |name| <= DIRSIZ && f in fs.nodes && 0 < f < U16
    ensures fs.v.Ok() && DirSized(fs.nodes[d].size % U32) && d in Dirs(fs) && f in Counts(fs)
    ensures var r := DentryInsert(fs.v, fs.nodes[d], name, f);
      var fs1 := Fs(r.v, fs.nodes[d := r.n]);
      && r.err == InsertSupply(fs.v, fs.nodes[d])
      && (r.err != OK ==> TreeOf(fs1) == TreeOf(fs) && Reads(fs, fs1, d))
      && (r.err == OK ==>
            && r.v.Sized() && f < TableSize(r.v.g)
            && var n := fs1.nodes[f].(nlink := fs1.nodes[f].nlink + 1);
               var fs' := Fs(SyncInode(r.v, f, n), fs1.nodes[f := n]);
               && TreeOf(fs') == Tree(Enter(Dirs(fs), d, name, f), Counts(fs)[f := Counts(fs)[f] + 1])
               && Reads(fs, fs', d))
  {
    hide Base, DentryInsert, Enter, FreshName, Dirs, Counts, CString, SyncInode, LinkAdded, Reads, KindsKept,
         InsertSupply;
    DirReady(fs, d);
    InsertTree(fs, d, name, f);
    InsertKeeps(fs, d, name, f);
    BaseNoNull(fs);
    InsertReads(fs, d, name, f);
    var r := DentryInsert(fs.v, fs.nodes[d], name, f);
    var fs1 := Fs(r.v, fs.nodes[d := r.n]);
    CountInTree(fs, f);
    DirReady(fs1, d);
    if r.err == OK {
      LinkSynced(fs, fs1, d, f);
    }
  }

  lemma CountInTree(fs: Fs, f: nat)
    requires f in fs.nodes
    ensures f in Counts(fs) && Counts(fs)[f] == fs.nodes[f].nlink
  {}

  lemma DirInTree(fs: Fs, d: nat)
    requires d in fs.nodes && fs.nodes[d].isDir
    ensures d in Dirs(fs)
  {}

  lemma ReadsRefl(fs: Fs, e: nat)
    ensures Reads(fs, fs, e)
  {
    hide ByteAt;
  }

  lemma ReadsTrans(fs: Fs, fs1: Fs, fs2: Fs, e: nat)
    requires Reads(fs, fs1, e) && Reads(fs1, fs2, e) && fs.nodes.Keys * fs2.nodes.Keys <= fs1.nodes.Keys
    ensures Reads(fs, fs2, e)
  {
    hide ByteAt;
    forall g | g in fs.nodes && g in fs2.nodes && g != e ensures SameNode(fs.v, fs.nodes[g], fs2.v, fs2.nodes[g]) {
      assert g in fs1.nodes;
      assert SameNode(fs.v, fs.nodes[g], fs1.v, fs1.nodes[g]) && SameNode(fs1.v, fs1.nodes[g], fs2.v, fs2.nodes[g]);
    }
  }

  /** Syncing the record of `f` with its new count. */
  lemma LinkSynced(fs: Fs, fs1: Fs, d: nat, f: nat)
    requires Base(fs1) && f in fs1.nodes && Reads(fs, fs1, d) && fs1.nodes.Keys == fs.nodes.Keys && 0 !in fs1.nodes
    ensures fs1.v.Ok() && f < TableSize(fs1.v.g)
    ensures var n := fs1.nodes[f].(nlink := fs1.nodes[f].nlink + 1);
      var fs' := Fs(SyncInode(fs1.v, f, n), fs1.nodes[f := n]);
      Dirs(fs') == Dirs(fs1) && Counts(fs') == Counts(fs1)[f := Counts(fs1)[f] + 1] && Reads(fs, fs', d)
  {
    hide Base, LinkAt, PutInode, DinodeAt, Dirs;
    KindOf(fs1, f);
    var n := fs1.nodes[f].(nlink := fs1.nodes[f].nlink + 1);
    var di := DinodeAt(fs1.v.g, fs1.v.disk, f).(addrs := n.addrs, size := n.size % U32, nlink := n.nlink % U16);
    RecordKeeps(fs1, f, di);
    var fs' := Fs(SyncInode(fs1.v, f, n), fs1.nodes[f := n]);
    assert Reads(fs1, fs', 0) by { CountReads(fs1, fs', f); }
    hide SameNode;
    DirsSame(fs1, fs');
    assert Reads(fs1, fs', d);
    ReadsTrans(fs, fs1, fs', d);
  }

  /** A different link count reads the same. */
  lemma CountReads(fs: Fs, fs': Fs, f: nat)
    requires f in fs.nodes && f in fs'.nodes && fs'.nodes == fs.nodes[f := fs.nodes[f].(nlink := fs'.nodes[f].nlink)]
    requires forall e :: e in fs.nodes ==> SameNode(fs.v, fs.nodes[e], fs'.v, fs.nodes[e])
    ensures Reads(fs, fs', 0)
  {
    hide ByteAt;
  }

  // ----- unlink and rmdir -----

  /** One name less for `f`; at the last one the inode goes too. */
  function Removed(t: Tree, d: nat, name: seq<byte>, f: nat): Tree
    requires d in t.dirs && f in t.counts && t.counts[f] > 0
  {
    if t.counts[f] > 1 then Tree(Leave(t.dirs, d, name), t.counts[f := t.counts[f] - 1])
    else Tree(Leave(t.dirs, d, name) - {f}, t.counts - {f})
  }

  lemma DirsWithout(fs: Fs, fs1: Fs, f: nat)
    requires fs1.nodes == fs.nodes - {f}
    requires forall e :: e in fs.nodes && e != f ==> SameNode(fs.v, fs.nodes[e], fs1.v, fs.nodes[e])
    ensures Dirs(fs1) == Dirs(fs) - {f} && Counts(fs1) == Counts(fs) - {f}
  {
    hide NameMap, SameBytes;
    forall e | e in fs1.nodes ensures NameMap(fs1.v.disk, fs1.nodes[e]) == NameMap(fs.v.disk, fs.nodes[e]) {
      NameMapSame(fs.v, fs.nodes[e], fs1.v, fs1.nodes[e]);
    }
  }

  lemma LeaveWithout(dirs: DirMaps, d: nat, name: seq<byte>, f: nat)
    requires d in dirs && f != d
    ensures Leave(dirs - {f}, d, name) == Leave(dirs, d, name) - {f}
  {
    hide Pad;
  }

  lemma SomeReads(fs: Fs, fs1: Fs, f: nat, e: nat)
    requires fs1.nodes == fs.nodes - {f}
    requires forall g :: g in fs.nodes && g != f ==> SameNode(fs.v, fs.nodes[g], fs1.v, fs.nodes[g])
    ensures Reads(fs, fs1, e)
  {
    hide SameNode;
  }

  lemma UnlinkMoreTree(fs: Fs, d: nat, name: seq<byte>, k: nat, f: nat)
    requires Base(fs) && Names(fs, d, name, k, f) && GoodName(name) && f in fs.nodes && fs.nodes[f].nlink > 1
    ensures fs.v.Ok() && DirSized(fs.nodes[d].size % U32) && d in Dirs(fs) && f in Counts(fs)
    ensures var n := fs.nodes[f].(nlink := fs.nodes[f].nlink - 1);
      var fs' := Fs(DirErase(fs.v, fs.nodes[d], name).0, fs.nodes[f := n]);
      TreeOf(fs') == Tree(Leave(Dirs(fs), d, name), Counts(fs)[f := Counts(fs)[f] - 1]) && Reads(fs, fs', d)
  {
    hide Base, DirErase, Leave, Names, Dirs, Reads, CString;
    NamesParts(fs, d, name, k, f);
    DirReady(fs, d);
    BaseNoNull(fs);
    EraseTree(fs, d, name, k, f);
    var fs1 := Fs(DirErase(fs.v, fs.nodes[d], name).0, fs.nodes);
    var fs' := Fs(fs1.v, fs.nodes[f := fs.nodes[f].(nlink := fs.nodes[f].nlink - 1)]);
    AllSameRefl(fs.nodes, fs1.v);
    CountReads(fs1, fs', f);
    hide SameNode;
    DirsSame(fs1, fs');
    ReadsWeaken(fs1, fs', d);
    ReadsTrans(fs, fs1, fs', d);
  }

  lemma ReadsWeaken(fs: Fs, fs': Fs, e: nat)
    requires Reads(fs, fs', 0) && 0 !in fs.nodes
    ensures Reads(fs, fs', e)
  {
    hide SameNode;
  }

  lemma UnlinkLastTree(fs: Fs, d: nat, name: seq<byte>, k: nat, f: nat)
    requires Base(fs) && Names(fs, d, name, k, f) && GoodName(name)
    requires f in fs.nodes && f != ROOTINO && f != d
    ensures fs.v.Ok() && DirSized(fs.nodes[d].size % U32) && f < TableSize(fs.v.g) && Clearable(fs, f) && d in Dirs(fs)
    ensures var v1 := ClearInode(fs.v, f, fs.nodes[f].(nlink := 0));
      && v1.Ok()
      && var fs' := Fs(Ifree(DirErase(v1, fs.nodes[d], name).0, f), fs.nodes - {f});
         TreeOf(fs') == Tree(Leave(Dirs(fs), d, name) - {f}, Counts(fs) - {f}) && Reads(fs, fs', d)
  {
    hide Base, DirErase, Names, Dirs, Counts, Reads, CString, ClearInode, Held, Leave, PutInode, SameNode;
    NamesParts(fs, d, name, k, f);
    DirReady(fs, d);
    DirReady(fs, f);
    DirInTree(fs, d);
    var n := fs.nodes[f].(nlink := 0);
    ClearKeeps(fs, f, n);
    var fs1 := Fs(ClearInode(fs.v, f, n), fs.nodes - {f});
    DirsWithout(fs, fs1, f);
    SomeReads(fs, fs1, f, d);
    NamesKept(fs, fs1, d, name, k, f);
    DirReady(fs1, d);
    EraseTree(fs1, d, name, k, f);
    var fs2 := Fs(DirErase(fs1.v, fs1.nodes[d], name).0, fs1.nodes);
    CountsSame(fs1, fs2);
    LastFreed(fs, fs1, fs2, d, name, f);
  }

  lemma CountsSame(fs: Fs, fs': Fs)
    requires fs'.nodes == fs.nodes
    ensures Counts(fs') == Counts(fs)
  {}

  /** Freeing the record of an inode that is gone. */
  lemma LastFreed(fs: Fs, fs1: Fs, fs2: Fs, d: nat, name: seq<byte>, f: nat)
    requires fs1.nodes == fs.nodes - {f} && fs2.nodes == fs1.nodes && Base(fs2) && d in Dirs(fs) && f != d
    requires 0 < f < TableSize(fs2.v.g) && Reads(fs, fs1, d) && Reads(fs1, fs2, d) && d in Dirs(fs1)
    requires Dirs(fs1) == Dirs(fs) - {f} && Counts(fs2) == Counts(fs1) == Counts(fs) - {f}
    requires Dirs(fs2) == Leave(Dirs(fs1), d, name)
    ensures var fs' := Fs(Ifree(fs2.v, f), fs.nodes - {f});
      fs2.v.Ok() && TreeOf(fs') == Tree(Leave(Dirs(fs), d, name) - {f}, Counts(fs) - {f}) && Reads(fs, fs', d)
  {
    hide Base, Dirs, Counts, Reads, Leave, PutInode, SameNode, LinkAt;
    BaseOk(fs2);
    BaseNoNull(fs2);
    RecordKeeps(fs2, f, NullDinode());
    var fs' := Fs(Ifree(fs2.v, f), fs2.nodes);
    NodesRead(fs2, fs');
    DirsSame(fs2, fs');
    CountsSame(fs2, fs');
    LeaveWithout(Dirs(fs), d, name, f);
    ReadsWeaken(fs2, fs', d);
    ReadsTrans(fs1, fs2, fs', d);
    ReadsTrans(fs, fs1, fs', d);
  }

  lemma NodesRead(fs: Fs, fs': Fs)
    requires fs'.nodes == fs.nodes
    requires forall e :: e in fs.nodes ==> SameNode(fs.v, fs.nodes[e], fs'.v, fs.nodes[e])
    ensures Reads(fs, fs', 0)
  {
    hide SameNode;
  }

  /** Unlink takes away the name, and the inode with its last name; every other
      inode reads as before. */
  lemma UnlinkEffect(fs: Fs, d: nat, name: seq<byte>, k: nat, f: nat)
    requires Inv(fs) && Names(fs, d, name, k, f) && GoodName(name) && f != 0 && NoEntries(fs, f)
    ensures d in Dirs(fs) && f in Counts(fs) && Counts(fs)[f] > 0 && f < TableSize(fs.v.g)
    ensures fs.v.Ok() && DirSized(fs.nodes[d].size % U32) && Clearable(fs, f)
    ensures var (fs', err) := Unlink(fs, d, name, f);
      err == OK && TreeOf(fs') == Removed(TreeOf(fs), d, name, f) && Reads(fs, fs', d)
  {
    hide Base, LinkAt, DirErase, NoDangling, ClearInode, Clearable, PutInode, CString, Steady, Dirs, Counts, Reads,
         Leave, NoEntries, Live;
    UnlinkSteady(fs, d, name, k, f);
    NamesParts(fs, d, name, k, f);
    DirInTree(fs, d);
    CountInTree(fs, f);
    NotItself(fs, d, name, k, f);
    NamedHasCount(fs, Place(d, k));
    if fs.nodes[f].nlink > 1 {
      UnlinkMoreTree(fs, d, name, k, f);
    } else {
      UnlinkLastTree(fs, d, name, k, f);
    }
  }

  lemma NotItself(fs: Fs, d: nat, name: seq<byte>, k: nat, f: nat)
    requires Names(fs, d, name, k, f) && f != 0 && NoEntries(fs, f)
    ensures f != d && LinkAt(fs, Place(d, k)) == f
  {
    hide LinkAt;
  }

  /** Rmdir does what unlink does on an empty directory, and nothing at all
      otherwise. */
  lemma RmdirEffect(fs: Fs, d: nat, name: seq<byte>, k: nat, f: nat)
    requires Inv(fs) && Names(fs, d, name, k, f) && GoodName(name) && f != 0
    ensures d in Dirs(fs) && f in Counts(fs) && Counts(fs)[f] > 0 && f < TableSize(fs.v.g)
    ensures fs.v.Ok() && DirSized(fs.nodes[d].size % U32) && Clearable(fs, f)
    ensures fs.nodes[f].isDir ==> DirSized(fs.nodes[f].size % U32)
    ensures var (fs', err) := Rmdir(fs, d, name, f);
      && err == (if !fs.nodes[f].isDir then ENOTDIR else if NoEntries(fs, f) then OK else ENOTEMPTY)
      && (if err == OK then TreeOf(fs') == Removed(TreeOf(fs), d, name, f) && Reads(fs, fs', d) else fs' == fs)
  {
    hide Base, LinkAt, NoDangling, Clearable, CString, Steady, Dirs, Counts, Reads, Leave, NoEntries, Live, Unlink,
         DirRmtest;
    RmdirSteady(fs, d, name, k, f);
    NamesParts(fs, d, name, k, f);
    DirInTree(fs, d);
    CountInTree(fs, f);
    if fs.nodes[f].isDir { RmtestLinks(fs, f); }
    if Rmdir(fs, d, name, f).1 == OK {
      UnlinkEffect(fs, d, name, k, f);
    }
  }

  // ----- rename -----

  /** The tree after a rename that came back with `err`. */
  function Renamed(t: Tree, d1: nat, name1: seq<byte>, d2: nat, name2: seq<byte>, f: nat, err: Errno): Tree
    requires d1 in t.dirs && d2 in t.dirs && f < U16
  {
    if err == OK then t.(dirs := Enter(Leave(t.dirs, d1, name1), d2, name2, f))
    else if err in {EINVAL, ENAMETOOLONG} then t
    else t.(dirs := Leave(t.dirs, d1, name1))
  }

  /** All inodes but the two directories read the same. */
  ghost predicate ReadsBut(fs: Fs, fs': Fs, d1: nat, d2: nat) {
    fs'.nodes.Keys == fs.nodes.Keys
    && forall g :: g in fs.nodes && g != d1 && g != d2 ==> SameNode(fs.v, fs.nodes[g], fs'.v, fs'.nodes[g])
  }

  lemma ReadsButTrans(fs: Fs, fs1: Fs, fs2: Fs, d1: nat, d2: nat)
    requires Reads(fs, fs1, d1) && Reads(fs1, fs2, d2)
    requires fs1.nodes.Keys == fs.nodes.Keys && fs2.nodes.Keys == fs.nodes.Keys
    ensures ReadsBut(fs, fs2, d1, d2)
  {
    hide ByteAt;
    forall g | g in fs.nodes && g != d1 && g != d2 ensures SameNode(fs.v, fs.nodes[g], fs2.v, fs2.nodes[g]) {
      assert SameNode(fs.v, fs.nodes[g], fs1.v, fs1.nodes[g]) && SameNode(fs1.v, fs1.nodes[g], fs2.v, fs2.nodes[g]);
    }
  }

  /** What happens once the old entry is gone. */
  lemma RenameTail(fs: Fs, fs1: Fs, p: Place, d2: nat, name2: seq<byte>, f: nat)
    requires Base(fs1) && fs1.nodes == fs.nodes && d2 in fs.nodes && fs.nodes[d2].isDir && 0 < f < U16
    requires GoodName(name2) && |name2| <= DIRSIZ
    requires forall j: nat ::
      Entry(fs1.v.disk, fs.nodes[d2].addrs, j)
      == if Place(d2, j) == p then Erased() else Entry(fs.v.disk, fs.nodes[d2].addrs, j)
    ensures fs1.v.Ok() && DirSized(fs1.nodes[d2].size % U32) && d2 in Dirs(fs1)
    ensures var (fs2, err) := AfterErase(fs1, d2, name2, f);
      && err == (if Pad(name2) in Dirs(fs1)[d2] then EEXIST else InsertSupply(fs1.v, fs1.nodes[d2]))
      && fs2.nodes.Keys == fs1.nodes.Keys && Counts(fs2) == Counts(fs1) && Reads(fs1, fs2, d2)
      && Dirs(fs2) == if err == OK then Enter(Dirs(fs1), d2, name2, f) else Dirs(fs1)
  {
    hide Base, FindInum, DentryInsert, Entry, Erased, Dirs, Counts, Enter, Taken, CString, FreshName, InsertSupply;
    DirReady(fs1, d2);
    DirInTree(fs1, d2);
    BaseNoNull(fs1);
    ReadsRefl(fs1, d2);
    FindAfterErase(fs, fs1, p, d2, name2);
    FindInTree(fs1, d2, name2);
    if FindInum(fs1.v, fs1.nodes[d2], name2).0 == 0 {
      if name2 == Dot() {
        DotRefused(fs1.v, fs1.nodes[d2], name2, f);
        assert fs1.nodes[d2 := fs1.nodes[d2]] == fs1.nodes;
      } else {
        InsertTree(fs1, d2, name2, f);
        InsertReads(fs1, d2, name2, f);
      }
    }
  }

  /** Lookup agrees with the tree: it finds what is bound, except under `.`. */
  lemma FindInTree(fs: Fs, d: nat, name: seq<byte>)
    requires Base(fs) && d in fs.nodes && fs.nodes[d].isDir && GoodName(name) && |name| <= DIRSIZ
    ensures fs.v.Ok() && DirSized(fs.nodes[d].size % U32) && d in Dirs(fs)
    ensures var (dnum, de, err) := FindInum(fs.v, fs.nodes[d], name);
      var m := Dirs(fs)[d];
      && err == OK
      && (dnum != 0 ==> Pad(name) in m && m[Pad(name)] == de.inum)
      && (dnum == 0 <==> (Pad(name) !in m || name == Dot()))
      && Pad(Dot()) in m
  {
    hide Base, FindInum, NameMap, GoodDir, Entry, Pad, SoundVol;
    DirReady(fs, d);
    NodeIn(fs, d);
    BaseSound(fs);
    FindIsLookup(fs.v, Maps(fs), d, fs.nodes[d], name);
    DotTaken(fs, d);
    NameMapAt(fs.v.disk, fs.nodes[d], 0);
    if Pad(name) == Pad(Dot()) { DotString(); PadInjective(name, Dot()); }
  }

  lemma DotString()
    ensures CString(Dot()) && CString(DotDot())
  {}

  lemma InsertReads(fs: Fs, d: nat, name: seq<byte>, f: nat)
    requires fs.v.Ok() && d in fs.nodes && fs.nodes[d].isDir && DirSized(fs.nodes[d].size % U32) && 0 !in fs.nodes
    requires var r := DentryInsert(fs.v, fs.nodes[d], name, f);
      TreeInserted(fs, d, name, f, Fs(r.v, fs.nodes[d := r.n]), r.err)
    ensures var r := DentryInsert(fs.v, fs.nodes[d], name, f); Reads(fs, Fs(r.v, fs.nodes[d := r.n]), d)
  {
    hide DentryInsert, SameNode, Dirs, Counts, Enter;
  }

  /** What a rename comes back with: the flags, the length of the name, and the
      directory without the old name are looked at in this order. */
  function TreeRenameResult(dirs: DirMaps, d1: nat, name1: seq<byte>, d2: nat, name2: seq<byte>, badFlags: bool,
      supply: Errno): Errno
    requires d1 in dirs && d2 in dirs
  {
    if badFlags then EINVAL
    else if |name2| > DIRSIZ then ENAMETOOLONG
    else if Pad(name2) in Leave(dirs, d1, name1)[d2] then EEXIST
    else supply
  }

  /** Rename moves the name on success, does nothing when it refuses its arguments,
      and loses the old name when it fails later. */
  lemma RenameEffect(fs: Fs, d1: nat, name1: seq<byte>, k: nat, d2: nat, name2: seq<byte>, f: nat, badFlags: bool)
    requires Inv(fs) && Names(fs, d1, name1, k, f) && f != 0 && GoodName(name1)
    requires d2 in fs.nodes && fs.nodes[d2].isDir && GoodName(name2)
    ensures fs.v.Ok() && DirSized(fs.nodes[d1].size % U32) && DirSized(fs.nodes[d2].size % U32)
    ensures d1 in Dirs(fs) && d2 in Dirs(fs) && f < U16
    ensures var (fs', err) := Rename(fs, d1, name1, d2, name2, f, badFlags);
      && TreeOf(fs') == Renamed(TreeOf(fs), d1, name1, d2, name2, f, err) && ReadsBut(fs, fs', d1, d2)
      && err == TreeRenameResult(Dirs(fs), d1, name1, d2, name2, badFlags, RenameSupply(fs, d1, k, d2))
  {
    hide Base, NoDangling, Excess, DirErase, FindInum, DentryInsert, CString, Dirs, Counts, Leave, Enter, SameNode,
         Names, LinkAt, AfterErase, Reads, RenameSupply, InsertSupply, Taken, Steady, ExcessMoved;
    RenameCases(fs, d1, name1, k, d2, name2, f, badFlags);
    NamesParts(fs, d1, name1, k, f);
    DirReady(fs, d1);
    DirReady(fs, d2);
    DirInTree(fs, d1);
    DirInTree(fs, d2);
    NamedSmall(fs, d1, name1, k, f);
    AllSameRefl(fs.nodes, fs.v);
    if !badFlags && |name2| <= DIRSIZ {
      EraseTree(fs, d1, name1, k, f);
      EraseView(fs, d1, name1, k, d2, f);
      var fs1 := Fs(DirErase(fs.v, fs.nodes[d1], name1).0, fs.nodes);
      CountsSame(fs, fs1);
      RenameTail(fs, fs1, Place(d1, k), d2, name2, f);
      var (fs2, err) := AfterErase(fs1, d2, name2, f);
      ReadsButTrans(fs, fs1, fs2, d1, d2);
    }
  }

  lemma NamedSmall(fs: Fs, d: nat, name: seq<byte>, k: nat, f: nat)
    requires Inv(fs) && Names(fs, d, name, k, f) && f != 0
    ensures f in fs.nodes && f < U16
  {
    hide Base, LinkAt, NoDangling;
    assert LinkAt(fs, Place(d, k)) == f;
    NamedHasCount(fs, Place(d, k));
    DirReady(fs, f);
  }

  lemma EraseView(fs: Fs, d1: nat, name1: seq<byte>, k: nat, d2: nat, f: nat)
    requires Base(fs) && Names(fs, d1, name1, k, f) && GoodName(name1) && d2 in fs.nodes
    ensures fs.v.Ok() && DirSized(fs.nodes[d1].size % U32)
    ensures forall j: nat ::
      Entry(DirErase(fs.v, fs.nodes[d1], name1).0.disk, fs.nodes[d2].addrs, j)
      == if Place(d2, j) == Place(d1, k) then Erased() else Entry(fs.v.disk, fs.nodes[d2].addrs, j)
  {
    hide Base, DirErase, Entry, Erased, SameNode, LinkAdded, KindsKept;
    NamesParts(fs, d1, name1, k, f);
    DirReady(fs, d1);
    EraseKeeps(fs, d1, name1, k, f);
    ErasedView(fs, DirErase(fs.v, fs.nodes[d1], name1).0, d1, k, d2);
  }

  // ----- write -----

  /** A write leaves the tree as it is, and every other inode reads as before. */
  lemma WriteEffect(fs: Fs, f: nat, cpos: nat, buf: seq<byte>)
    requires Inv(fs) && f in fs.nodes && !fs.nodes[f].isDir
    ensures fs.v.Ok()
    ensures var fs' := WriteFile(fs, f, cpos, buf).0; TreeOf(fs') == TreeOf(fs) && Reads(fs, fs', f)
  {
    hide Base, NoDangling, Excess, FileWrite, Dirs;
    BaseOk(fs);
    BaseSound(fs);
    WriteRefinesSplice(fs.v, Maps(fs), f, fs.nodes[f], cpos, buf);
    WriteReads(fs, f, EffectivePos(cpos), buf, FileWrite(fs.v, fs.nodes[f], cpos, buf));
  }

  lemma WriteReads(fs: Fs, f: nat, q: nat, buf: seq<byte>, w: WriteResult)
    requires f in fs.nodes && !fs.nodes[f].isDir && Wrote(fs.v, Maps(fs), f, q, buf, w)
    requires w.n.isDir == fs.nodes[f].isDir && w.n.nlink == fs.nodes[f].nlink
    ensures var fs' := Fs(w.v, fs.nodes[f := w.n]);
      Reads(fs, fs', f) && Dirs(fs') == Dirs(fs) && Counts(fs') == Counts(fs)
  {
    hide SoundVol, UsedSet, ByteAt, Pick, Spliced, NameMap;
    var fs' := Fs(w.v, fs.nodes[f := w.n]);
    forall e | e in fs.nodes && e != f ensures SameNode(fs.v, fs.nodes[e], fs'.v, fs'.nodes[e]) {
      assert SameBytes(fs.v.disk, Maps(fs)[e], w.v.disk, Maps(fs)[e]);
    }
    hide SameBytes, SameTable;
    forall e | e in fs.nodes && e != f ensures NameMap(fs'.v.disk, fs'.nodes[e]) == NameMap(fs.v.disk, fs.nodes[e]) {
      NameMapSame(fs.v, fs.nodes[e], fs'.v, fs'.nodes[e]);
    }
  }

  // ----- create -----

  /** A directory with `.` and `..` alone. */
  function DotMap(this_: ushort, parent: ushort): map<Name, ushort> {
    map[Pad(Dot()) := this_][Pad(DotDot()) := parent]
  }

  /** The tree with inode `inum` added and entered in `d`. */
  function Created(t: Tree, d: nat, name: seq<byte>, isDir: bool, inum: nat): Tree
    requires d in t.dirs && d < U16 && inum < U16
  {
    var dirs1: DirMaps := if isDir then t.dirs[inum := DotMap(inum, d)] else t.dirs;
    Tree(Enter(dirs1, d, name, inum), t.counts[inum := 1])
  }

  lemma DotMapIs(disk: Disk, n: Node, this_: ushort, parent: ushort)
    requires DotsAt(disk, n.addrs, this_, parent) && this_ != 0 && parent != 0 && n.size == 2 * DESIZE
    ensures NameMap(disk, n) == DotMap(this_, parent)
  {
    hide Entry, Pad;
    assert NamesTo(disk, n.addrs, 0) == map[];
    assert NamesTo(disk, n.addrs, 1) == map[Pad(Dot()) := this_];
  }

  /** The tree with a prepared inode that has no name yet. */
  lemma PreparedTree(fs: Fs, fs1: Fs, d: nat, isDir: bool, b: uint, inum: nat)
    requires fs1.nodes == fs.nodes[inum := NewNode(isDir, b)] && inum !in fs.nodes && 0 < inum < U16 && 0 < d < U16
    requires forall e :: e in fs.nodes ==> SameNode(fs.v, fs.nodes[e], fs1.v, fs.nodes[e])
    requires NewContents(fs1.v.disk, NewNode(isDir, b), inum, d)
    ensures Dirs(fs1) == if isDir then Dirs(fs)[inum := DotMap(inum, d)] else Dirs(fs)
    ensures Counts(fs1) == Counts(fs)[inum := 1] && Reads(fs, fs1, 0)
  {
    hide NameMap, SameNode, DotMap, DotsAt, Dirs, Counts, NewNode;
    var node := NewNode(isDir, b);
    NewNodeIs(isDir, b);
    NodesJoined(fs, fs1, inum, node);
    forall e | e in fs.nodes ensures NameMap(fs1.v.disk, fs.nodes[e]) == NameMap(fs.v.disk, fs.nodes[e]) {
      NameMapSame(fs.v, fs.nodes[e], fs1.v, fs.nodes[e]);
    }
    if isDir { DotMapIs(fs1.v.disk, node, inum, d); }
    DirsJoined(fs, fs1, inum, node);
  }

  lemma NewNodeIs(isDir: bool, b: uint)
    ensures var n := NewNode(isDir, b); n.isDir == isDir && n.size == (if isDir then 2 * DESIZE else 0) && n.nlink == 1
  {
    hide NoAddrs;
  }

  lemma NodesJoined(fs: Fs, fs1: Fs, inum: nat, node: Node)
    requires fs1.nodes == fs.nodes[inum := node] && inum !in fs.nodes
    requires forall e :: e in fs.nodes ==> SameNode(fs.v, fs.nodes[e], fs1.v, fs.nodes[e])
    ensures Counts(fs1) == Counts(fs)[inum := node.nlink] && Reads(fs, fs1, 0)
  {
    hide SameNode;
  }

  lemma DirsJoined(fs: Fs, fs1: Fs, inum: nat, node: Node)
    requires fs1.nodes == fs.nodes[inum := node] && inum !in fs.nodes
    requires forall e :: e in fs.nodes ==> NameMap(fs1.v.disk, fs.nodes[e]) == NameMap(fs.v.disk, fs.nodes[e])
    ensures Dirs(fs1) == if node.isDir then Dirs(fs)[inum := NameMap(fs1.v.disk, node)] else Dirs(fs)
  {
    hide NameMap;
  }

  /** Inode `inum` is an empty file: no bytes, and none stored. */
  ghost predicate EmptyFile(fs: Fs, inum: nat) {
    && inum in fs.nodes && fs.nodes[inum].size == 0
    && forall p: nat :: ByteAt(fs.v.disk, fs.nodes[inum].addrs, p) == 0
  }

  /** What a creation has done when it is over. */
  ghost predicate CreateDone(fs: Fs, d: nat, name: seq<byte>, isDir: bool, inum: nat, fs': Fs, err: Errno) {
    && d in Dirs(fs) && d < U16 && Reads(fs, fs', d)
    && (err != OK ==> TreeOf(fs') == TreeOf(fs))
    && (err == OK ==>
          && inum !in fs.nodes && 2 <= inum < U16 && TreeOf(fs') == Created(TreeOf(fs), d, name, isDir, inum)
          && (!isDir ==> EmptyFile(fs', inum)))
  }

  /** Whether there is room for a new file or directory in `d`: a clear block, a free
      record, and then, with one clear block less, room for the entry. */
  ghost function CreateSupply(fs: Fs, d: nat): (e: Errno)
    requires fs.v.Sized() && d in fs.nodes
    ensures e in {OK, ENOSPC, EFBIG}
  {
    if ClearCount(fs.v) == 0 || TableFull(fs.v) then ENOSPC
    else SupplyOf(fs.v.disk, fs.nodes[d].addrs, FreeSlot(fs.v.disk, fs.nodes[d]) / NENTS, ClearCount(fs.v) - 1)
  }

  /** The room for the entry once the inode is prepared. */
  lemma PreparedRoom(fs: Fs, v1: Vol, d: nat)
    requires fs.v.Sized() && ClearCount(fs.v) > 0 && !TableFull(fs.v) && OneTaken(fs, v1)
    requires d in fs.nodes && SameNode(fs.v, fs.nodes[d], v1, fs.nodes[d])
    ensures v1.Sized() && InsertSupply(v1, fs.nodes[d]) == CreateSupply(fs, d)
  {
    hide Entry, ByteAt, FirstFree, ClearBlocks, SameSlots, Cost, TableFull;
    var n := fs.nodes[d];
    forall j: nat ensures Entry(v1.disk, n.addrs, j) == Entry(fs.v.disk, n.addrs, j) {
      SameEntry(fs.v.disk, n.addrs, v1.disk, n.addrs, j);
    }
    FirstFreeSame(fs.v.disk, n.addrs, v1.disk, n.addrs, 0, n.size / DESIZE);
    var i := FreeSlot(fs.v.disk, n) / NENTS;
    if i < MAXFILE { CostSame(fs.v.disk, v1.disk, n.addrs, i); }
  }

  /** What a creation comes back with, by the state before it. */
  lemma CreateErr(fs: Fs, d: nat, name: seq<byte>, isDir: bool)
    requires Inv(fs) && NewName(fs, d, name)
    ensures fs.v.Ok() && DirSized(fs.nodes[d].size % U32)
    ensures Create(fs, d, name, isDir).1 == if |name| > DIRSIZ then ENAMETOOLONG else CreateSupply(fs, d)
  {
    hide Base, NoDangling, Excess, Prepare, DentryInsert, CString, InsertSupply, CreateSupply, SameNode, LinkAt,
         NewContents, FreshName, ClearCount, TableFull, OneTaken, NewNode, LinkAdded, KindsKept;
    DirReady(fs, d);
    if |name| <= DIRSIZ {
      PrepareKeeps(fs, d, isDir);
      var (v1, inum) := Prepare(fs.v, d, isDir);
      if inum == 0 {
        NoSupply(fs, d);
      } else {
        var fs1 := Fs(v1, fs.nodes[inum := NewNode(isDir, Pick(fs.v))]);
        FreshSame(fs, fs1, d, name);
        InsertKeeps(fs1, d, name, inum);
        PreparedRoom(fs, v1, d);
      }
    }
  }

  lemma NoSupply(fs: Fs, d: nat)
    requires fs.v.Sized() && d in fs.nodes && (ClearCount(fs.v) == 0 || TableFull(fs.v))
    ensures CreateSupply(fs, d) == ENOSPC
  {
    hide ClearCount, TableFull;
  }

  /** Creation enters one new inode under the name, an empty file or a directory
      with `.` and `..` alone, or on an error leaves the tree as it was. */
  lemma CreateEffect(fs: Fs, d: nat, name: seq<byte>, isDir: bool)
    requires Inv(fs) && NewName(fs, d, name)
    ensures fs.v.Ok() && DirSized(fs.nodes[d].size % U32)
    ensures var (fs', err) := Create(fs, d, name, isDir);
      && CreateDone(fs, d, name, isDir, Prepare(fs.v, d, isDir).1, fs', err)
      && err == if |name| > DIRSIZ then ENAMETOOLONG else CreateSupply(fs, d)
  {
    hide CreateSupply, Base, NoDangling, Excess, Prepare, DentryInsert, Prepared, CString, Dirs, Counts, Reads,
         Created;
    CreateErr(fs, d, name, isDir);
    DirReady(fs, d);
    DirInTree(fs, d);
    ReadsRefl(fs, d);
    if |name| <= DIRSIZ {
      PrepareKeeps(fs, d, isDir);
      var (v1, inum) := Prepare(fs.v, d, isDir);
      if inum == 0 {
        CreateFailed(fs, d, isDir, v1);
      } else {
        CreateEntered(fs, d, name, isDir, v1, inum);
      }
    }
  }

  lemma CreateFailed(fs: Fs, d: nat, isDir: bool, v1: Vol)
    requires Base(fs) && Prepared(fs, d, isDir, Pick(fs.v), v1, 0)
    ensures TreeOf(fs.(v := v1)) == TreeOf(fs) && Reads(fs, fs.(v := v1), d)
  {
    hide Base, LinkAt, SameNode, Dirs;
    BaseNoNull(fs);
    var fs' := Fs(v1, fs.nodes);
    NodesRead(fs, fs');
    DirsSame(fs, fs');
    ReadsWeaken(fs, fs', d);
    assert fs.(v := v1) == fs';
  }

  lemma CreateEntered(fs: Fs, d: nat, name: seq<byte>, isDir: bool, v1: Vol, inum: nat)
    requires fs.v.Ok() && v1.Ok() && d in fs.nodes && fs.nodes[d].isDir && DirSized(fs.nodes[d].size % U32)
    requires Base(fs) && NewName(fs, d, name) && |name| <= DIRSIZ
    requires inum != 0 && Prepared(fs, d, isDir, Pick(fs.v), v1, inum)
    ensures EndsDone(fs, d, name, isDir, NewNode(isDir, Pick(fs.v)), v1, inum)
  {
    hide Base, LinkAt, DentryInsert, SameNode, CString, FreshName, Dirs, Counts, NewContents, Reads, Enter, NewNode,
         Pick, DotMap, EmptyFile, OneTaken, TableFull, InsertSupply, ClearCount, DirSized;
    var node := NewNode(isDir, Pick(fs.v));
    var fs1 := Fs(v1, fs.nodes[inum := node]);
    DirReady(fs, d);
    PreparedTree(fs, fs1, d, isDir, Pick(fs.v), inum);
    DirInTree(fs, d);
    BaseNoNull(fs1);
    FreshSame(fs, fs1, d, name);
    DirReady(fs1, d);
    InsertTree(fs1, d, name, inum);
    InsertReads(fs1, d, name, inum);
    var r := DentryInsert(v1, fs.nodes[d], name, inum);
    var fs2 := Fs(r.v, fs1.nodes[d := r.n]);
    MapSwap(fs.nodes, inum, node, d, r.n);
    BaseNoNull(fs);
    ReadsWeaken(fs, fs1, d);
    ReadsTrans(fs, fs1, fs2, d);
    NewNodeIs(isDir, Pick(fs.v));
    if r.err == OK {
      if !isDir { StaysEmpty(fs1, fs2, d, node, inum); }
    } else {
      var fs3 := Fs(r.v, fs.nodes[d := r.n]);
      Undone(fs, fs1, fs2, fs3, isDir, inum, d);
    }
  }

  lemma MapSwap<V>(m: map<nat, V>, i: nat, x: V, j: nat, y: V)
    requires i !in m && j in m
    ensures m[i := x][j := y] == m[j := y][i := x] && m[i := x][j := y] - {i} == m[j := y]
    ensures m[i := x][j := y][i] == m[i := x][i] == x
  {}

  /** The rest of a creation, from a prepared inode on. */
  ghost predicate EndsDone(fs: Fs, d: nat, name: seq<byte>, isDir: bool, node: Node, v1: Vol, inum: nat)
    requires v1.Ok() && d in fs.nodes && DirSized(fs.nodes[d].size % U32)
  {
    var r := DentryInsert(v1, fs.nodes[d], name, inum);
    var nodes1 := fs.nodes[d := r.n];
    CreateDone(fs, d, name, isDir, inum, Fs(r.v, if r.err != OK then nodes1 else nodes1[inum := node]), r.err)
  }

  /** A file that reads as before is still empty. */
  lemma StaysEmpty(fs1: Fs, fs2: Fs, d: nat, node: Node, inum: nat)
    requires inum in fs1.nodes && inum in fs2.nodes && fs1.nodes[inum] == node == fs2.nodes[inum] && inum != d
    requires inum < U16 && d < U16
    requires Reads(fs1, fs2, d) && !node.isDir && node.size == 0 && NewContents(fs1.v.disk, node, inum, d)
    ensures EmptyFile(fs2, inum)
  {
    hide ByteAt;
    assert SameNode(fs1.v, fs1.nodes[inum], fs2.v, fs2.nodes[inum]);
  }

  /** Leaving the new inode out again. */
  lemma Undone(fs: Fs, fs1: Fs, fs2: Fs, fs3: Fs, isDir: bool, inum: nat, d: nat)
    requires inum !in fs.nodes && fs3.v == fs2.v && fs3.nodes == fs2.nodes - {inum} && fs3.nodes.Keys == fs.nodes.Keys
    requires fs1.nodes.Keys == fs.nodes.Keys + {inum} && inum < U16 && d < U16
    requires Dirs(fs1) == if isDir then Dirs(fs)[inum := DotMap(inum, d)] else Dirs(fs)
    requires Counts(fs1) == Counts(fs)[inum := 1]
    requires Dirs(fs2) == Dirs(fs1) && Counts(fs2) == Counts(fs1) && Reads(fs, fs2, d)
    ensures TreeOf(fs3) == TreeOf(fs) && Reads(fs, fs3, d)
  {
    hide NameMap, DotMap, Dirs, Counts;
    NodeDropped(fs2, fs3, inum);
    KeysOf(fs);
    AddDrop(Dirs(fs), inum, DotMap(inum, d));
    AddDrop(Counts(fs), inum, 1);
    DropAbsent(Dirs(fs), inum);
    ReadsDropped(fs, fs2, fs3, d);
  }

  lemma NodeDropped(fs2: Fs, fs3: Fs, inum: nat)
    requires fs3.v == fs2.v && fs3.nodes == fs2.nodes - {inum}
    ensures Dirs(fs3) == Dirs(fs2) - {inum} && Counts(fs3) == Counts(fs2) - {inum}
  {
    hide NameMap;
  }

  lemma KeysOf(fs: Fs)
    ensures Dirs(fs).Keys <= fs.nodes.Keys && Counts(fs).Keys == fs.nodes.Keys
  {
    hide NameMap;
  }

  lemma AddDrop<V>(m: map<nat, V>, k: nat, x: V)
    requires k !in m
    ensures m[k := x] - {k} == m
  {}

  lemma DropAbsent<V>(m: map<nat, V>, k: nat)
    requires k !in m
    ensures m - {k} == m
  {}

  lemma ReadsDropped(fs: Fs, fs2: Fs, fs3: Fs, d: nat)
    requires Reads(fs, fs2, d) && fs3.v == fs2.v && fs3.nodes.Keys <= fs2.nodes.Keys
    requires forall g :: g in fs3.nodes ==> fs3.nodes[g] == fs2.nodes[g]
    ensures Reads(fs, fs3, d)
  {
    hide SameNode;
  }

  // ----- empty directories -----

  /** A directory without entries of its own is one with `.` and `..` alone in the
      tree. */
  lemma EmptyInTree(fs: Fs, f: nat)
    requires Base(fs) && f in fs.nodes && fs.nodes[f].isDir
    ensures f in Dirs(fs) && (NoEntries(fs, f) <==> Dirs(fs)[f].Keys == {Pad(Dot()), Pad(DotDot())})
  {
    hide Base, NameMap, Entry, Pad, GoodSlot, ZeroTail;
    NodeIn(fs, f);
    DirReady(fs, f);
    var disk, n, m := fs.v.disk, fs.nodes[f], NameMap(fs.v.disk, fs.nodes[f]);
    forall k: nat ensures LinkAt(fs, Place(f, k)) == if k >= 2 then Entry(disk, n.addrs, k).inum else 0 {}
    NameMapAt(disk, n, 0);
    NameMapAt(disk, n, 1);
    if NoEntries(fs, f) {
      forall name | name in m ensures name in {Pad(Dot()), Pad(DotDot())} {
        var k := NameMapOnly(disk, n, name);
        assert LinkAt(fs, Place(f, k)) == 0;
      }
    } else {
      var k: nat :| LinkAt(fs, Place(f, k)) != 0;
      NameMapAt(disk, n, k);
      assert Entry(disk, n.addrs, k).name in m;
    }
  }
}
