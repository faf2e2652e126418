/** Whole runs of namespace operations: the invariant holds in every state, and
    link counts stay exact unless a rename fails after erasing the old entry. */
module NsRuns {
  import opened Layout
  import opened Volumes
  import opened Allocator
  import opened BlockMap
  import opened Inodes
  import opened FileData
  import opened DirIter
  import opened Directory
  import opened DirInsert
  import opened Namespace
  import opened NsProof
  import opened NsSteps
  import opened NsCreate

  predicate GoodName(name: seq<byte>) { CString(name) && name != [] }

  /** The names the VFS passes for a new entry: not there yet. */
  ghost predicate NewName(fs: Fs, d: nat, name: seq<byte>) {
    d in fs.nodes && fs.nodes[d].isDir && GoodName(name) && (|name| <= DIRSIZ ==> FreshName(fs, d, name))
  }

  lemma DirReady(fs: Fs, d: nat)
    requires Base(fs) && d in fs.nodes
    ensures fs.v.Ok() && 0 < d < TableSize(fs.v.g) <= U16
    ensures fs.nodes[d].isDir ==> DirSized(fs.nodes[d].size % U32)
  {
    hide Base, GoodSlots, ZeroTail;
    NodeIn(fs, d);
    if fs.nodes[d].isDir { assert fs.nodes[d].size % U32 == fs.nodes[d].size; }
  }

  /** The link count of an inode plays no part in the rest. */
  lemma CountFree(fs: Fs, f: nat, n: Node)
    requires Base(fs) && f in fs.nodes && n == fs.nodes[f].(nlink := n.nlink)
    ensures Base(Fs(fs.v, fs.nodes[f := n]))
    ensures forall p :: LinkAt(Fs(fs.v, fs.nodes[f := n]), p) == LinkAt(fs, p)
  {
    hide Sound, UsedSet, DinodeAt, GoodSlots, ZeroTail, Entry, ByteAt;
    var fs' := Fs(fs.v, fs.nodes[f := n]);
    assert Maps(fs') == Maps(fs);
    KindsRefl(fs'.nodes, fs.v);
    hide KindsKept;
    BaseSame(fs, fs');
  }

  /** An inode without entries of its own can be left out. */
  lemma BaseWithout(fs: Fs, f: nat)
    requires Base(fs) && f in fs.nodes && f != ROOTINO
    ensures Base(Fs(fs.v, fs.nodes - {f}))
    ensures forall p: Place :: p.d != f ==> LinkAt(Fs(fs.v, fs.nodes - {f}), p) == LinkAt(fs, p)
  {
    hide Sound, UsedSet, DinodeAt, GoodDir, Entry, ByteAt;
    var fs' := Fs(fs.v, fs.nodes - {f});
    SoundWithout(fs.v.disk, fs.v.g.DataStart(), UsedSet(fs.v.g, fs.v.disk), Maps(fs), f);
    assert Maps(fs') == Maps(fs) - {f};
    KindsRefl(fs'.nodes, fs.v);
    hide KindsKept;
    AllSameRefl(fs.nodes, fs.v);
    BaseSame(fs, fs');
  }

  // ----- create -----

  /** Create keeps everything, whether it succeeds or runs out of space. */
  lemma CreateSteady(fs: Fs, d: nat, name: seq<byte>, isDir: bool)
    requires Inv(fs) && NewName(fs, d, name)
    ensures fs.v.Ok() && DirSized(fs.nodes[d].size % U32)
    ensures Steady(fs, Create(fs, d, name, isDir).0)
  {
    hide Base, LinkAt, Links, Prepare, DentryInsert, Steady, Prepared, CString;
    DirReady(fs, d);
    SteadyRefl(fs);
    if |name| <= DIRSIZ {
      PrepareKeeps(fs, d, isDir);
      var (v1, inum) := Prepare(fs.v, d, isDir);
      if inum == 0 {
        CreateNoSpace(fs, d, isDir, v1);
      } else {
        CreateInsert(fs, d, name, isDir, v1, inum);
      }
    }
  }

  lemma SteadyRefl(fs: Fs)
    requires Inv(fs)
    ensures Steady(fs, fs)
  {
    hide Base, Excess, NoDangling;
  }

  lemma CreateNoSpace(fs: Fs, d: nat, isDir: bool, v1: Vol)
    requires Inv(fs) && Prepared(fs, d, isDir, Pick(fs.v), v1, 0)
    ensures Steady(fs, fs.(v := v1))
  {
    hide Base, LinkAt, SameNode, Excess, NoDangling;
    assert fs.(v := v1) == Fs(v1, fs.nodes);
    AllLinksSame(fs, Fs(v1, fs.nodes));
    SteadySame(fs, Fs(v1, fs.nodes));
  }

  /** A name is as fresh as before when the directory reads the same. */
  lemma FreshSame(fs: Fs, fs': Fs, d: nat, name: seq<byte>)
    requires d in fs.nodes && d in fs'.nodes && FreshName(fs, d, name)
    requires SameNode(fs.v, fs.nodes[d], fs'.v, fs'.nodes[d])
    ensures FreshName(fs', d, name)
  {
    hide Entry, ByteAt, Pad;
    forall k: nat ensures !Live(fs'.v.disk, fs'.nodes[d].addrs, k, Pad(name)) {
      SameEntry(fs.v.disk, fs.nodes[d].addrs, fs'.v.disk, fs'.nodes[d].addrs, k);
      assert !Live(fs.v.disk, fs.nodes[d].addrs, k, Pad(name));
    }
  }

  /** The rest of a creation, from a prepared inode on, keeps everything. */
  ghost predicate EndsSteady(fs: Fs, d: nat, name: seq<byte>, node: Node, v1: Vol, inum: nat)
    requires v1.Ok() && d in fs.nodes && DirSized(fs.nodes[d].size % U32)
  {
    var r := DentryInsert(v1, fs.nodes[d], name, inum);
    var nodes1 := fs.nodes[d := r.n];
    Steady(fs, Fs(r.v, if r.err != OK then nodes1 else nodes1[inum := node]))
  }

  lemma CreateInsert(fs: Fs, d: nat, name: seq<byte>, isDir: bool, v1: Vol, inum: nat)
    requires fs.v.Ok() && v1.Ok() && d in fs.nodes && DirSized(fs.nodes[d].size % U32)
    requires Inv(fs) && NewName(fs, d, name) && |name| <= DIRSIZ
    requires inum != 0 && Prepared(fs, d, isDir, Pick(fs.v), v1, inum)
    ensures EndsSteady(fs, d, name, NewNode(isDir, Pick(fs.v)), v1, inum)
  {
    hide Base, LinkAt, Links, DentryInsert, SameNode, Excess, NoDangling, Pad, Live, FreeSlot, KindsKept, CString;
    BaseOk(fs);
    var node := NewNode(isDir, Pick(fs.v));
    var fs1 := Fs(v1, fs.nodes[inum := node]);
    FreshSame(fs, fs1, d, name);
    DirReady(fs1, d);
    InsertKeeps(fs1, d, name, inum);
    var r := DentryInsert(v1, fs.nodes[d], name, inum);
    var fs2 := Fs(r.v, fs1.nodes[d := r.n]);
    var nodes1 := fs.nodes[d := r.n];
    assert nodes1[inum := node] == fs2.nodes;
    if r.err == OK {
      SteadyAdd(fs, fs2, Place(d, FreeSlot(v1.disk, fs.nodes[d])), inum);
    } else {
      assert fs2.nodes - {inum} == nodes1;
      BaseWithout(fs2, inum);
      forall p ensures LinkAt(Fs(r.v, nodes1), p) == LinkAt(fs, p) {
        if p.d == inum { NotADir(Fs(r.v, nodes1), p); NotADir(fs, p); }
      }
      SteadySame(fs, Fs(r.v, nodes1));
    }
  }

  lemma NotADir(fs: Fs, p: Place)
    requires p.d !in fs.nodes
    ensures LinkAt(fs, p) == 0
  {}

  // ----- link -----

  lemma LinkSteady(fs: Fs, d: nat, name: seq<byte>, f: nat)
    requires Inv(fs) && NewName(fs, d, name) && f in fs.nodes && !fs.nodes[f].isDir
    ensures fs.v.Ok() && DirSized(fs.nodes[d].size % U32) && f < TableSize(fs.v.g)
    ensures Steady(fs, Link(fs, d, name, f).0)
  {
    hide Base, LinkAt, Links, DentryInsert, Excess, NoDangling, Pad, FreshName, KindsKept, PutInode, FreeSlot, CString,
         Steady, DinodeAt;
    DirReady(fs, d);
    DirReady(fs, f);
    SteadyRefl(fs);
    if fs.nodes[f].nlink < MAXLINKS {
      if |name| > DIRSIZ {
        TooLong(fs, d, name, f);
        assert fs == Link(fs, d, name, f).0;
      } else {
        InsertKeeps(fs, d, name, f);
        var r := DentryInsert(fs.v, fs.nodes[d], name, f);
        var fs1 := Fs(r.v, fs.nodes[d := r.n]);
        RootIsDir(fs);
        if r.err == OK {
          var n := fs1.nodes[f].(nlink := fs1.nodes[f].nlink + 1);
          LinkInserted(fs, fs1, Place(d, FreeSlot(fs.v.disk, fs.nodes[d])), f, n);
        } else {
          SteadySame(fs, fs1);
        }
      }
    }
  }

  lemma TooLong(fs: Fs, d: nat, name: seq<byte>, f: nat)
    requires Base(fs) && d in fs.nodes && fs.nodes[d].isDir && |name| > DIRSIZ
    ensures fs.v.Ok() && DirSized(fs.nodes[d].size % U32)
    ensures DentryInsert(fs.v, fs.nodes[d], name, f) == InsertResult(fs.v, fs.nodes[d], ENAMETOOLONG, true)
    ensures fs == Fs(fs.v, fs.nodes[d := fs.nodes[d]])
  {
    DirReady(fs, d);
    hide DirIterate, Base;
  }

  lemma RootIsDir(fs: Fs)
    requires Base(fs)
    ensures ROOTINO in fs.nodes && fs.nodes[ROOTINO].isDir
  {}

  /** The count goes up and the inode is written back, after its new entry. */
  lemma LinkInserted(fs: Fs, fs1: Fs, p: Place, f: nat, n: Node)
    requires Inv(fs) && Base(fs1) && LinkAdded(fs, fs1, p, f) && f != ROOTINO
    requires fs1.nodes.Keys == fs.nodes.Keys && SameCounts(fs, fs1, 0) && f in fs.nodes
    requires n == fs1.nodes[f].(nlink := fs1.nodes[f].nlink + 1)
    ensures fs1.v.Ok() && f < TableSize(fs1.v.g)
    ensures Steady(fs, Fs(SyncInode(fs1.v, f, n), fs1.nodes[f := n]))
  {
    hide Base, LinkAt, Links, Excess, NoDangling, PutInode, Steady, DinodeAt;
    KindOf(fs1, f);
    BaseNoNull(fs);
    var di := DinodeAt(fs1.v.g, fs1.v.disk, f).(addrs := n.addrs, size := n.size % U32, nlink := n.nlink % U16);
    RecordKeeps(fs1, f, di);
    var fs2 := Fs(PutInode(fs1.v, f, di), fs1.nodes);
    CountFree(fs2, f, n);
    SteadyAdd(fs, Fs(fs2.v, fs1.nodes[f := n]), p, f);
  }

  lemma KindOf(fs: Fs, f: nat)
    requires Base(fs) && f in fs.nodes
    ensures fs.v.Ok() && f < TableSize(fs.v.g) && DinodeAt(fs.v.g, fs.v.disk, f).kind != 0
  {
    hide Base, DinodeAt;
    NodeIn(fs, f);
  }

  // ----- unlink and rmdir -----

  /** Unlinking a name that is not the last one: entry and count go together. */
  lemma UnlinkMore(fs: Fs, d: nat, name: seq<byte>, k: nat, f: nat)
    requires Inv(fs) && Names(fs, d, name, k, f) && GoodName(name)
    requires f in fs.nodes && fs.nodes[f].nlink > 1
    ensures fs.v.Ok() && DirSized(fs.nodes[d].size % U32)
    ensures var (v1, err) := DirErase(fs.v, fs.nodes[d], name);
      err == OK && Steady(fs, Fs(v1, fs.nodes[f := fs.nodes[f].(nlink := fs.nodes[f].nlink - 1)]))
  {
    hide Base, Links, DirErase, Excess, NoDangling, KindsKept, SameNode, Entry, Pad;
    DirReady(fs, d);
    EraseKeeps(fs, d, name, k, f);
    hide LinkAt;
    var v1 := DirErase(fs.v, fs.nodes[d], name).0;
    var n := fs.nodes[f].(nlink := fs.nodes[f].nlink - 1);
    CountFree(Fs(v1, fs.nodes), f, n);
    ExcessDrop(fs, Fs(v1, fs.nodes[f := n]), Place(d, k), f);
  }

  /** Nothing but `.` and `..` is live in an inode, if it is a directory at all. */
  ghost predicate NoEntries(fs: Fs, f: nat) {
    forall k: nat :: LinkAt(fs, Place(f, k)) == 0
  }

  /** Unlinking the last name: the inode goes with it. */
  lemma UnlinkLast(fs: Fs, d: nat, name: seq<byte>, k: nat, f: nat)
    requires Inv(fs) && Names(fs, d, name, k, f) && GoodName(name)
    requires f in fs.nodes && f != ROOTINO && fs.nodes[f].nlink == 1 && NoEntries(fs, f)
    ensures f != d && fs.v.Ok() && DirSized(fs.nodes[d].size % U32) && f < TableSize(fs.v.g) && Clearable(fs, f)
    ensures var v1 := ClearInode(fs.v, f, fs.nodes[f].(nlink := 0));
      && v1.Ok() && v1.g == fs.v.g
      && Steady(fs, Fs(Ifree(DirErase(v1, fs.nodes[d], name).0, f), fs.nodes - {f}))
  {
    hide Base, Links, DirErase, Excess, NoDangling, KindsKept, SameNode, Entry, Pad, ClearInode, Held, PutInode,
         Erased;
    assert LinkAt(fs, Place(d, k)) == f;
    NonZeroLink(fs, f);
    DirReady(fs, d);
    DirReady(fs, f);
    var n := fs.nodes[f].(nlink := 0);
    ClearKeeps(fs, f, n);
    var v1 := ClearInode(fs.v, f, n);
    var fs1 := Fs(v1, fs.nodes - {f});
    NamesKept(fs, fs1, d, name, k, f);
    EraseKeeps(fs1, d, name, k, f);
    var fs2 := Fs(DirErase(v1, fs.nodes[d], name).0, fs1.nodes);
    RecordKeeps(fs2, f, NullDinode());
    var fs3 := Fs(Ifree(fs2.v, f), fs2.nodes);
    LinksWithout(fs, fs1, f);
    hide LinkAt;
    SteadyDropLast(fs, fs3, Place(d, k), f);
  }

  lemma NonZeroLink(fs: Fs, f: nat)
    requires Base(fs) && f in fs.nodes
    ensures f != 0
  {
    BaseNoNull(fs);
  }

  lemma NamesKept(fs: Fs, fs1: Fs, d: nat, name: seq<byte>, k: nat, f: nat)
    requires Names(fs, d, name, k, f) && d in fs1.nodes && SameNode(fs.v, fs.nodes[d], fs1.v, fs1.nodes[d])
    ensures Names(fs1, d, name, k, f)
  {
    hide Entry, ByteAt, Pad;
    SameEntry(fs.v.disk, fs.nodes[d].addrs, fs1.v.disk, fs1.nodes[d].addrs, k);
  }

  lemma LinksWithout(fs: Fs, fs1: Fs, f: nat)
    requires NoEntries(fs, f) && fs1.nodes == fs.nodes - {f}
    requires forall e :: e in fs.nodes && e != f ==> SameNode(fs.v, fs.nodes[e], fs1.v, fs.nodes[e])
    ensures forall p :: LinkAt(fs1, p) == LinkAt(fs, p)
  {
    hide SameNode, Entry;
    forall p ensures LinkAt(fs1, p) == LinkAt(fs, p) {
      if p.d == f {
        assert p == Place(f, p.k);
      } else if p.d in fs.nodes {
        LinkAtSame(fs, fs1, p);
      }
    }
  }

  /** Unlink, as the VFS calls it on an existing name, succeeds and keeps
      everything; at the last name the inode is released. */
  lemma UnlinkSteady(fs: Fs, d: nat, name: seq<byte>, k: nat, f: nat)
    requires Inv(fs) && Names(fs, d, name, k, f) && GoodName(name) && f != 0 && NoEntries(fs, f)
    ensures f in fs.nodes && fs.nodes[f].nlink > 0 && f < TableSize(fs.v.g)
    ensures fs.v.Ok() && DirSized(fs.nodes[d].size % U32) && Clearable(fs, f)
    ensures Unlink(fs, d, name, f).1 == OK && Steady(fs, Unlink(fs, d, name, f).0)
  {
    hide Base, LinkAt, Links, DirErase, Excess, NoDangling, ClearInode, Held, PutInode, Pad, Live, Steady;
    NamedHasCount(fs, Place(d, k));
    DirReady(fs, d);
    DirReady(fs, f);
    ClearKeeps(fs, f, fs.nodes[f]);
    if fs.nodes[f].nlink > 1 {
      UnlinkMore(fs, d, name, k, f);
    } else {
      UnlinkLast(fs, d, name, k, f);
    }
  }

  /** Rmdir keeps everything, and removes a directory exactly when it is empty. */
  lemma RmdirSteady(fs: Fs, d: nat, name: seq<byte>, k: nat, f: nat)
    requires Inv(fs) && Names(fs, d, name, k, f) && GoodName(name) && f != 0
    ensures f in fs.nodes && fs.nodes[f].nlink > 0 && f < TableSize(fs.v.g)
    ensures fs.v.Ok() && DirSized(fs.nodes[d].size % U32) && Clearable(fs, f)
    ensures fs.nodes[f].isDir ==> DirSized(fs.nodes[f].size % U32)
    ensures Steady(fs, Rmdir(fs, d, name, f).0)
    ensures Rmdir(fs, d, name, f).1 == OK <==> fs.nodes[f].isDir && NoEntries(fs, f)
  {
    hide Base, Links, Excess, NoDangling, Held, Pad, Live, Steady, Unlink, DirRmtest, Entry;
    NamedHasCount(fs, Place(d, k));
    DirReady(fs, d);
    DirReady(fs, f);
    ClearKeeps(fs, f, fs.nodes[f]);
    SteadyRefl(fs);
    if fs.nodes[f].isDir {
      RmtestLinks(fs, f);
      if NoEntries(fs, f) {
        UnlinkSteady(fs, d, name, k, f);
      }
    }
  }

  lemma RmtestLinks(fs: Fs, f: nat)
    requires Base(fs) && f in fs.nodes && fs.nodes[f].isDir
    ensures fs.v.Ok() && DirSized(fs.nodes[f].size % U32)
    ensures DirRmtest(fs.v, fs.nodes[f]).0 == if NoEntries(fs, f) then OK else ENOTEMPTY
  {
    hide SoundVol, GoodDir, DinodeAt, DirRmtest, Entry, GoodNode;
    NodeIn(fs, f);
    RmtestSound(fs.v, Maps(fs), f, fs.nodes[f]);
    assert forall k: nat ::
      LinkAt(fs, Place(f, k)) == if k >= 2 then Entry(fs.v.disk, fs.nodes[f].addrs, k).inum else 0;
  }

  // ----- write -----

  lemma WriteSteady(fs: Fs, f: nat, cpos: nat, buf: seq<byte>)
    requires Inv(fs) && f in fs.nodes && !fs.nodes[f].isDir
    ensures fs.v.Ok() && Steady(fs, WriteFile(fs, f, cpos, buf).0)
  {
    hide Base, Links, Excess, NoDangling, FileWrite, Steady, LinkAt;
    BaseOk(fs);
    BaseSound(fs);
    WriteRefinesSplice(fs.v, Maps(fs), f, fs.nodes[f], cpos, buf);
    WriteBase(fs, f, EffectivePos(cpos), buf, FileWrite(fs.v, fs.nodes[f], cpos, buf));
    SteadySame(fs, WriteFile(fs, f, cpos, buf).0);
  }

  lemma WriteBase(fs: Fs, f: nat, q: nat, buf: seq<byte>, w: WriteResult)
    requires Base(fs) && f in fs.nodes && !fs.nodes[f].isDir && Wrote(fs.v, Maps(fs), f, q, buf, w)
    requires w.n.isDir == fs.nodes[f].isDir
    ensures Base(Fs(w.v, fs.nodes[f := w.n]))
    ensures forall p :: LinkAt(Fs(w.v, fs.nodes[f := w.n]), p) == LinkAt(fs, p)
  {
    hide Sound, UsedSet, Used, DinodeAt, GoodDir, ByteAt, Pick, Entry, Spliced;
    var fs' := Fs(w.v, fs.nodes[f := w.n]);
    assert Maps(fs') == Maps(fs)[f := w.n.addrs];
    forall e | e in fs.nodes && e != f ensures SameNode(fs.v, fs.nodes[e], fs'.v, fs'.nodes[e]) {
      assert SameBytes(fs.v.disk, Maps(fs)[e], w.v.disk, Maps(fs)[e]);
    }
    hide SameBytes, SameTable, SameNode;
    TableKindsKept(fs'.nodes, fs.v, w.v);
    BaseKept(fs, fs', f);
    forall p ensures LinkAt(fs', p) == LinkAt(fs, p) {
      if p.d != f { OtherLinks(fs, fs', f, p); }
    }
  }

  // ----- sync -----

  lemma SyncSteady(fs: Fs, f: nat)
    requires Inv(fs) && f in fs.nodes
    ensures fs.v.Ok() && f < TableSize(fs.v.g) && Steady(fs, Sync(fs, f))
    ensures forall e :: e in fs.nodes ==> SameNode(fs.v, fs.nodes[e], Sync(fs, f).v, fs.nodes[e])
  {
    hide Base, Links, Excess, NoDangling, PutInode, Steady, LinkAt, DinodeAt, SameNode;
    KindOf(fs, f);
    var n := fs.nodes[f];
    var di := DinodeAt(fs.v.g, fs.v.disk, f).(addrs := n.addrs, size := n.size % U32, nlink := n.nlink % U16);
    RecordKeeps(fs, f, di);
    SteadySame(fs, Sync(fs, f));
  }
}
