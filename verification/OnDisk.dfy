/** What operations leave in the inode table and the free map (inode.c, file.c, dir.c):
    which records change and to what, that no block is lost, and that the superblock, the
    log and the record of the null inode, which mounting checks, are never written. */
module OnDisk {
  import opened Layout
  import opened Bytes
  import opened Volumes
  import opened Allocator
  import opened BlockMap
  import opened Space
  import opened Balance
  import opened Durability
  import opened Inodes
  import opened FileData
  import opened DirIter
  import opened Directory
  import opened DirInsert
  import opened Namespace
  import opened NsProof
  import opened NsSteps
  import opened NsCreate
  import opened NsRuns
  import opened NsRename
  import opened NsEffect

  /** Nothing before the inode table has changed, and in it only the records `rs`. */
  ghost predicate Kept(v: Vol, v': Vol, rs: set<nat>) {
    && v.Sized() && v'.Sized() && v'.g == v.g
    && (forall b :: 0 <= b < v.g.inodestart ==> v'.disk[b] == v.disk[b])
    && forall i: nat :: i < TableSize(v.g) && i !in rs ==> DinodeAt(v.g, v'.disk, i) == DinodeAt(v.g, v.disk, i)
  }

  lemma KeptRefl(v: Vol)
    requires v.Sized()
    ensures Kept(v, v, {})
  {
    hide DinodeAt;
  }

  lemma KeptTrans(v: Vol, v': Vol, v'': Vol, rs: set<nat>, rs': set<nat>)
    requires Kept(v, v', rs) && Kept(v', v'', rs')
    ensures Kept(v, v'', rs + rs')
  {
    hide DinodeAt;
  }

  /** Writes outside the inode table. */
  lemma TableKept(v: Vol, v': Vol)
    requires v.Sized() && v'.Sized() && v'.g == v.g && SameTable(v.g, v.disk, v'.disk)
    ensures Kept(v, v', {})
  {
    hide DinodeAt;
    DinodeFrame(v.g, v.disk, v'.disk);
  }

  /** Storing a record. */
  lemma RecordKept(v: Vol, inum: nat, di: Dinode)
    requires v.Sized() && inum < TableSize(v.g)
    ensures Kept(v, PutInode(v, inum, di), {inum}) && DinodeAt(v.g, PutInode(v, inum, di).disk, inum) == di
  {
    PutInodeEffect(v, inum, di);
    PutInodeFirst(v, inum, di);
    hide PutInode, DinodeAt;
  }

  // ----- whole file systems -----

  /** Only the records `rs` change, and no block is lost: those in use that no inode refers
      to are the same. */
  ghost predicate Conserves(fs: Fs, fs': Fs, rs: set<nat>) {
    Kept(fs.v, fs'.v, rs) && Balanced(fs.v, Maps(fs), fs'.v, Maps(fs'))
  }

  lemma ConservesTrans(fs: Fs, fs': Fs, fs'': Fs, rs: set<nat>, rs': set<nat>)
    requires Conserves(fs, fs', rs) && Conserves(fs', fs'', rs')
    ensures Conserves(fs, fs'', rs + rs')
    ensures rs == {} ==> Conserves(fs, fs'', rs')
    ensures rs' == {} || rs' == rs ==> Conserves(fs, fs'', rs)
  {
    hide Kept, Orphans;
    KeptTrans(fs.v, fs'.v, fs''.v, rs, rs');
    assert rs == {} ==> rs + rs' == rs';
    assert rs' == {} || rs' == rs ==> rs + rs' == rs;
  }

  /** Only what inodes say beside their addresses. */
  lemma NodesConserve(fs: Fs, nodes: map<nat, Node>)
    requires fs.v.Sized() && Maps(Fs(fs.v, nodes)) == Maps(fs)
    ensures Conserves(fs, Fs(fs.v, nodes), {})
  {
    hide Kept, Orphans;
    KeptRefl(fs.v);
  }

  lemma PutConserves(fs: Fs, inum: nat, di: Dinode)
    requires Base(fs) && inum < TableSize(fs.v.g)
    ensures fs.v.Ok()
    ensures Conserves(fs, Fs(PutInode(fs.v, inum, di), fs.nodes), {inum})
    ensures DinodeAt(fs.v.g, PutInode(fs.v, inum, di).disk, inum) == di
  {
    hide Base, PutInode, DinodeAt, Kept, Balanced, SoundVol, UsedSet, SameSlots, SameContents;
    BaseOk(fs);
    BaseSound(fs);
    RecordKept(fs.v, inum, di);
    PutInodeEffect(fs.v, inum, di);
    PutInodeSafe(fs.v, Maps(fs), inum, di);
    var fs' := Fs(PutInode(fs.v, inum, di), fs.nodes);
    assert Maps(fs') == Maps(fs);
    BalancedSame(fs.v, fs'.v, Maps(fs));
  }

  lemma InsertConserves(fs: Fs, d: nat, name: seq<byte>, f: nat)
    requires Base(fs) && d in fs.nodes && fs.nodes[d].isDir
    requires CString(name) && 0 < |name| <= DIRSIZ && FreshName(fs, d, name) && 0 < f < U16
    ensures DirSized(fs.nodes[d].size % U32)
    ensures var r := DentryInsert(fs.v, fs.nodes[d], name, f);
      && Conserves(fs, Fs(r.v, fs.nodes[d := r.n]), {})
      && (r.err == OK ==> r.n.size == Max(fs.nodes[d].size, DESIZE * (FreeSlot(fs.v.disk, fs.nodes[d]) + 1)))
  {
    hide Base, FreshName, DentryInsert, EntryAdded, CString, Pad, SoundVol, GoodDir, DinodeAt, Kept, Balanced,
         FreeSlot;
    NodeIn(fs, d);
    BaseSound(fs);
    FreshLive(fs, d, name);
    InsertSound(fs.v, Maps(fs), d, fs.nodes[d], name, f);
    var r := DentryInsert(fs.v, fs.nodes[d], name, f);
    AddedConserves(fs.v, Maps(fs), d, fs.nodes[d], Dirent(f, Pad(name)), r);
    assert Maps(Fs(r.v, fs.nodes[d := r.n])) == Maps(fs)[d := r.n.addrs];
  }

  lemma AddedConserves(v: Vol, files: Files, f: nat, n: Node, de: Dirent, r: InsertResult)
    requires EntryAdded(v, files, f, n, de, r)
    ensures Kept(v, r.v, {}) && Balanced(v, files, r.v, files[f := r.n.addrs])
    ensures r.err == OK ==> r.n.size == Max(n.size, DESIZE * (FreeSlot(v.disk, n) + 1))
  {
    hide DinodeAt, Entry, ByteAt, Sound, GoodDir, FreeSlot, InsertSupply, Durable, Extends, Pick, SameTable, Kept,
         Orphans;
    TableKept(v, r.v);
  }

  lemma EraseConserves(fs: Fs, d: nat, name: seq<byte>, k: nat, f: nat)
    requires Base(fs) && Names(fs, d, name, k, f) && CString(name) && name != []
    ensures DirSized(fs.nodes[d].size % U32)
    ensures var v' := DirErase(fs.v, fs.nodes[d], name).0;
      Conserves(fs, Fs(v', fs.nodes), {}) && UsedSet(fs.v.g, v'.disk) == UsedSet(fs.v.g, fs.v.disk)
  {
    hide Base, DirErase, CString, Pad, Live, SoundVol, GoodDir, DinodeAt, Kept, SameTable, Spliced, Balanced, Names,
         SameSlots, UsedSet, Durable;
    NamesParts(fs, d, name, k, f);
    NodeIn(fs, d);
    BaseSound(fs);
    EraseSound(fs.v, Maps(fs), d, fs.nodes[d], name);
    var v' := DirErase(fs.v, fs.nodes[d], name).0;
    assert ErasedAt(fs.v, Maps(fs), d, fs.nodes[d], k, v');
    TableKept(fs.v, v');
    BalancedSame(fs.v, v', Maps(fs));
    assert Maps(Fs(v', fs.nodes)) == Maps(fs);
  }

  /** A slot of directory `d` is free, before its end. */
  ghost predicate HasFreeSlot(fs: Fs, d: nat)
    requires d in fs.nodes
  {
    exists k: nat :: k < fs.nodes[d].size / DESIZE && Entry(fs.v.disk, fs.nodes[d].addrs, k).inum == 0
  }

  /** What a directory's size is after one more entry. */
  ghost function SizeWithOne(fs: Fs, d: nat): nat
    requires d in fs.nodes
  {
    fs.nodes[d].size + if HasFreeSlot(fs, d) then 0 else 16
  }

  lemma FreeSlotSize(fs: Fs, d: nat)
    requires d in fs.nodes && DirSized(fs.nodes[d].size)
    ensures Max(fs.nodes[d].size, DESIZE * (FreeSlot(fs.v.disk, fs.nodes[d]) + 1)) == SizeWithOne(fs, d)
  {
    hide Entry, FirstFree;
    FirstFreeIsFirst(fs.v.disk, fs.nodes[d].addrs, 0, fs.nodes[d].size / DESIZE);
  }

  /** The record of `f` has become what the inode was in core, with another link count. */
  ghost predicate RecordSays(fs: Fs, fs': Fs, f: nat, nlink: nat)
    requires fs.v.Sized() && fs'.v.Sized() && fs'.v.g == fs.v.g && f in fs.nodes && f < TableSize(fs.v.g)
  {
    var n := fs.nodes[f];
    DinodeAt(fs.v.g, fs'.v.disk, f)
    == DinodeAt(fs.v.g, fs.v.disk, f).(addrs := n.addrs, size := n.size % U32, nlink := nlink % U16)
  }

  // ----- link -----

  /** A link that succeeds brings the record of the file up to date, with one link more than
      it had in core; a link that fails touches no record. */
  lemma LinkOnDisk(fs: Fs, d: nat, name: seq<byte>, f: nat)
    requires Inv(fs) && NewName(fs, d, name) && f in fs.nodes && !fs.nodes[f].isDir
    ensures fs.v.Ok() && DirSized(fs.nodes[d].size % U32) && f < TableSize(fs.v.g)
    ensures var (fs', err) := Link(fs, d, name, f);
      && Conserves(fs, fs', if err == OK then {f} else {})
      && (err == OK ==> RecordSays(fs, fs', f, fs.nodes[f].nlink + 1) && fs'.nodes[d].size == SizeWithOne(fs, d))
  {
    hide Base, NoDangling, Excess, DentryInsert, CString, FreshName, Conserves, DinodeAt, PutInode, HasFreeSlot,
         FreeSlot, Pad;
    DirReady(fs, d);
    DirReady(fs, f);
    NodesConserve(fs, fs.nodes);
    if fs.nodes[f].nlink < MAXLINKS {
      if |name| > DIRSIZ {
        TooLong(fs, d, name, f);
      } else {
        InsertConserves(fs, d, name, f);
        InsertKeeps(fs, d, name, f);
        FreeSlotSize(fs, d) by { DirUncut(fs, d); }
        var r := DentryInsert(fs.v, fs.nodes[d], name, f);
        var fs1 := Fs(r.v, fs.nodes[d := r.n]);
        if r.err == OK { LinkRecorded(fs, fs1, f); }
      }
    }
  }

  lemma DirUncut(fs: Fs, d: nat)
    requires Base(fs) && d in fs.nodes && fs.nodes[d].isDir
    ensures DirSized(fs.nodes[d].size) && fs.nodes[d].size % U32 == fs.nodes[d].size
  {
    hide Base, GoodSlots, ZeroTail, DinodeAt;
    NodeIn(fs, d);
  }

  lemma LinkRecorded(fs: Fs, fs1: Fs, f: nat)
    requires Base(fs1) && f in fs1.nodes && Conserves(fs, fs1, {}) && f < TableSize(fs.v.g)
    ensures fs1.v.Sized() && fs1.v.g == fs.v.g && fs.v.Sized()
    ensures var n := fs1.nodes[f].(nlink := fs1.nodes[f].nlink + 1);
      var fs' := Fs(SyncInode(fs1.v, f, n), fs1.nodes[f := n]);
      && Conserves(fs, fs', {f})
      && DinodeAt(fs.v.g, fs'.v.disk, f)
         == DinodeAt(fs.v.g, fs.v.disk, f).(addrs := n.addrs, size := n.size % U32, nlink := n.nlink % U16)
  {
    hide Base, DinodeAt, PutInode, Balanced, SoundVol;
    BaseOk(fs1);
    var n := fs1.nodes[f].(nlink := fs1.nodes[f].nlink + 1);
    var di := DinodeAt(fs1.v.g, fs1.v.disk, f).(addrs := n.addrs, size := n.size % U32, nlink := n.nlink % U16);
    PutConserves(fs1, f, di);
    var fs2 := Fs(PutInode(fs1.v, f, di), fs1.nodes);
    assert Maps(Fs(fs2.v, fs1.nodes[f := n])) == Maps(fs2);
    NodesConserve(fs2, fs1.nodes[f := n]);
    ConservesTrans(fs1, fs2, Fs(fs2.v, fs1.nodes[f := n]), {f}, {});
    ConservesTrans(fs, fs1, Fs(fs2.v, fs1.nodes[f := n]), {}, {f});
  }

  // ----- unlink and rmdir -----

  /** Freeing what a file refers to, and forgetting it. */
  lemma FreeBalanced(v: Vol, files: Files, f: nat)
    requires SoundVol(v, files) && f in files
    ensures forall b :: b in Held(v.disk, files[f]) && b != 0 ==> v.g.IsData(b)
    ensures var v' := FreeAll(v, Held(v.disk, files[f]));
      Balanced(v, files, v', files - {f}) && SameTable(v.g, v.disk, v'.disk)
  {
    hide Held, FreeAll, Slot, Refs, UsedSet, Used, Sound, Referenced;
    ReleaseExact(v, files, f);
    var bs := Held(v.disk, files[f]);
    FreeAllTable(v, bs);
    FreeAllEffect(v, bs);
    var v' := FreeAll(v, bs);
    ReferencedLess(v.disk, v.g.DataStart(), UsedSet(v.g, v.disk), files, f);
    SoundOk(v, files);
    SoundWithout(v.disk, v.g.DataStart(), UsedSet(v.g, v.disk), files, f);
    Frame(v.disk, v'.disk, v.g.DataStart(), UsedSet(v.g, v.disk), UsedSet(v.g, v.disk), files - {f});
    ReferencedSame(v.disk, v'.disk, files - {f});
  }

  lemma ClearConserves(fs: Fs, f: nat, n: Node)
    requires Base(fs) && f in fs.nodes && f != ROOTINO && n.addrs == fs.nodes[f].addrs
    ensures fs.v.Ok() && Clearable(fs, f) && f < TableSize(fs.v.g)
    ensures var v1 := ClearInode(fs.v, f, n);
      && Conserves(fs, Fs(v1, fs.nodes - {f}), {f})
      && UsedSet(fs.v.g, v1.disk) == UsedSet(fs.v.g, fs.v.disk) - Refs(fs.v.disk, n.addrs)
      && DinodeAt(fs.v.g, v1.disk, f)
         == DinodeAt(fs.v.g, fs.v.disk, f).(addrs := NoAddrs(), size := 0, nlink := n.nlink % U16)
  {
    hide Base, FreeAll, Held, DinodeAt, PutInode, Kept, Balanced, SoundVol, UsedSet, Refs, NoAddrs, SameContents;
    BaseOk(fs);
    BaseSound(fs);
    DirReady(fs, f);
    FreeKeeps(fs, f);
    FreeBalanced(fs.v, Maps(fs), f);
    ReleaseExact(fs.v, Maps(fs), f);
    var v1 := FreeAll(fs.v, Held(fs.v.disk, n.addrs));
    TableKept(fs.v, v1);
    var fs1 := Fs(v1, fs.nodes - {f});
    assert Maps(fs1) == Maps(fs) - {f};
    DinodeOf(fs.v, v1, f);
    var di := DinodeAt(v1.g, v1.disk, f).(addrs := NoAddrs(), size := 0, nlink := n.nlink % U16);
    PutConserves(fs1, f, di);
    PutInodeEffect(v1, f, di);
    ConservesTrans(fs, fs1, Fs(PutInode(v1, f, di), fs1.nodes), {}, {f});
  }

  lemma DinodeOf(v: Vol, v': Vol, f: nat)
    requires Kept(v, v', {}) && f < TableSize(v.g)
    ensures DinodeAt(v.g, v'.disk, f) == DinodeAt(v.g, v.disk, f)
  {
    hide DinodeAt;
  }

  /** An unlink of a name that is not the last touches no record and frees no block. At the
      last name the record is freed, and exactly the blocks of the inode. */
  lemma UnlinkOnDisk(fs: Fs, d: nat, name: seq<byte>, k: nat, f: nat)
    requires Inv(fs) && Names(fs, d, name, k, f) && GoodName(name) && f != 0 && NoEntries(fs, f)
    ensures f in fs.nodes && fs.nodes[f].nlink > 0 && f < TableSize(fs.v.g)
    ensures fs.v.Ok() && DirSized(fs.nodes[d].size % U32) && Clearable(fs, f)
    ensures Unlinked(fs, f, Unlink(fs, d, name, f).0)
  {
    hide Base, NoDangling, Excess, LinkAt, Links, DirErase, ClearInode, Held, PutInode, Pad, Live, Steady, Names,
         NoEntries, CString, Conserves, SameNode, UsedSet, Refs, DinodeAt;
    UnlinkSteady(fs, d, name, k, f);
    NotItself(fs, d, name, k, f);
    NamedHasCount(fs, Place(d, k));
    NamesParts(fs, d, name, k, f);
    if fs.nodes[f].nlink > 1 {
      EraseConserves(fs, d, name, k, f);
      var v1 := DirErase(fs.v, fs.nodes[d], name).0;
      var nodes1 := fs.nodes[f := fs.nodes[f].(nlink := fs.nodes[f].nlink - 1)];
      assert Maps(Fs(v1, nodes1)) == Maps(Fs(v1, fs.nodes));
      NodesConserve(Fs(v1, fs.nodes), nodes1);
      ConservesTrans(fs, Fs(v1, fs.nodes), Fs(v1, nodes1), {}, {});
    } else {
      var n := fs.nodes[f].(nlink := 0);
      ClearKeeps(fs, f, n);
      ClearConserves(fs, f, n);
      var fs1 := Fs(ClearInode(fs.v, f, n), fs.nodes - {f});
      NamesKept(fs, fs1, d, name, k, f);
      EraseKeeps(fs1, d, name, k, f);
      EraseConserves(fs1, d, name, k, f);
      var fs2 := Fs(DirErase(fs1.v, fs.nodes[d], name).0, fs1.nodes);
      PutConserves(fs2, f, NullDinode());
      PutInodeEffect(fs2.v, f, NullDinode());
      var fs3 := Fs(Ifree(fs2.v, f), fs2.nodes);
      ConservesTrans(fs, fs1, fs2, {f}, {});
      ConservesTrans(fs, fs2, fs3, {f}, {f});
    }
  }

  /** What taking away a name of `f` leaves on disk. */
  ghost predicate Unlinked(fs: Fs, f: nat, fs': Fs)
    requires fs.v.Sized() && f in fs.nodes && f < TableSize(fs.v.g)
  {
    if fs.nodes[f].nlink > 1 then
      Conserves(fs, fs', {}) && UsedSet(fs.v.g, fs'.v.disk) == UsedSet(fs.v.g, fs.v.disk)
    else
      && Conserves(fs, fs', {f})
      && UsedSet(fs.v.g, fs'.v.disk) == UsedSet(fs.v.g, fs.v.disk) - Refs(fs.v.disk, fs.nodes[f].addrs)
      && DinodeAt(fs.v.g, fs'.v.disk, f) == Dinode(0, 0, 0, 0, 0, seq(13, _ => 0))
  }

  /** Rmdir does the same on an empty directory, and touches nothing otherwise. */
  lemma RmdirOnDisk(fs: Fs, d: nat, name: seq<byte>, k: nat, f: nat)
    requires Inv(fs) && Names(fs, d, name, k, f) && GoodName(name) && f != 0
    ensures f in fs.nodes && fs.nodes[f].nlink > 0 && f < TableSize(fs.v.g)
    ensures fs.v.Ok() && DirSized(fs.nodes[d].size % U32) && Clearable(fs, f)
    ensures fs.nodes[f].isDir ==> DirSized(fs.nodes[f].size % U32)
    ensures var (fs', err) := Rmdir(fs, d, name, f);
      && err == (if !fs.nodes[f].isDir then ENOTDIR else if NoEntries(fs, f) then OK else ENOTEMPTY)
      && if err == OK then Unlinked(fs, f, fs') else fs' == fs
  {
    hide Base, NoDangling, Excess, Links, Held, Pad, Live, Steady, Unlink, DirRmtest, Entry, Names, Clearable,
         NoEntries, Unlinked;
    RmdirSteady(fs, d, name, k, f);
    NamesParts(fs, d, name, k, f);
    if fs.nodes[f].isDir {
      RmtestLinks(fs, f);
      if NoEntries(fs, f) {
        UnlinkOnDisk(fs, d, name, k, f);
        UnlinkSteady(fs, d, name, k, f);
      }
    }
  }

  // ----- rename, write and sync -----

  /** A rename touches no record; its new directory grows by one entry at most. */
  lemma RenameOnDisk(fs: Fs, d1: nat, name1: seq<byte>, k: nat, d2: nat, name2: seq<byte>, f: nat, badFlags: bool)
    requires Inv(fs) && Names(fs, d1, name1, k, f) && f != 0 && GoodName(name1)
    requires d2 in fs.nodes && fs.nodes[d2].isDir && GoodName(name2)
    ensures fs.v.Ok() && DirSized(fs.nodes[d1].size % U32) && DirSized(fs.nodes[d2].size % U32)
    ensures var (fs', err) := Rename(fs, d1, name1, d2, name2, f, badFlags);
      && Conserves(fs, fs', {}) && d2 in fs'.nodes && fs'.nodes == fs.nodes[d2 := fs'.nodes[d2]]
      && (err == OK ==> fs'.nodes[d2].size == if d1 == d2 then fs.nodes[d2].size else SizeWithOne(fs, d2))
  {
    hide Base, Links, Excess, NoDangling, Pad, Live, DirErase, FindInum, DentryInsert, Entry, Taken, SameNode,
         KindsKept, CString, Erased, FreshName, LinkAt, GoodDir, Names, LinkAdded, SameRoom, Conserves, SizeWithOne,
         UsedSet;
    NamesParts(fs, d1, name1, k, f);
    DirReady(fs, d1);
    DirReady(fs, d2);
    NodesConserve(fs, fs.nodes);
    assert fs.nodes == fs.nodes[d2 := fs.nodes[d2]];
    if !badFlags && |name2| <= DIRSIZ {
      EraseKeeps(fs, d1, name1, k, f);
      EraseConserves(fs, d1, name1, k, f);
      var v1 := DirErase(fs.v, fs.nodes[d1], name1).0;
      var fs1 := Fs(v1, fs.nodes);
      ErasedView(fs, v1, d1, k, d2);
      FindAfterErase(fs, fs1, Place(d1, k), d2, name2);
      if FindInum(v1, fs.nodes[d2], name2).0 == 0 {
        if name2 == Dot() {
          DotRefused(v1, fs.nodes[d2], name2, f);
        } else {
          NamedSmall(fs, d1, name1, k, f);
          InsertConserves(fs1, d2, name2, f);
          var r := DentryInsert(v1, fs.nodes[d2], name2, f);
          ConservesTrans(fs, fs1, Fs(r.v, fs.nodes[d2 := r.n]), {}, {});
          DirUncut(fs, d2);
          FreeSlotSize(fs1, d2);
          SizeAfterErase(fs, fs1, d1, k, d2);
        }
      }
    }
  }

  /** The slot that an erase frees is there for the next entry. */
  lemma SizeAfterErase(fs: Fs, fs1: Fs, d1: nat, k: nat, d2: nat)
    requires Base(fs) && fs1.nodes == fs.nodes && d1 in fs.nodes && d2 in fs.nodes && fs.nodes[d1].isDir
    requires Entry(fs.v.disk, fs.nodes[d1].addrs, k).inum != 0
    requires forall j: nat ::
      Entry(fs1.v.disk, fs.nodes[d2].addrs, j)
      == if Place(d2, j) == Place(d1, k) then Erased() else Entry(fs.v.disk, fs.nodes[d2].addrs, j)
    ensures SizeWithOne(fs1, d2) == if d1 == d2 then fs.nodes[d2].size else SizeWithOne(fs, d2)
  {
    hide Base, Entry, GoodDir, DinodeAt;
    NodeIn(fs, d1);
    LiveInside(fs.v.disk, fs.nodes[d1], k);
    if d1 == d2 { assert Entry(fs1.v.disk, fs.nodes[d2].addrs, k).inum == 0; }
  }

  lemma {:induction false} WriteLoopBalanced(v: Vol, files: Files, f: nat, n: Node, block: nat, boff: nat,
      buf: seq<byte>)
    requires SoundVol(v, files) && f in files && files[f] == n.addrs && boff < BSIZE
    ensures var r := WriteLoop(v, n, block, boff, buf); Balanced(v, files, r.v, files[f := r.n.addrs])
    decreases |buf|
  {
    hide Slot, ByteAt, InodeAddr, UsedSet, Used, Blit, Sound, Spliced, Balanced, FileBlock, SameSlots;
    SoundOk(v, files);
    if buf == [] {
      assert files[f := n.addrs] == files;
      BalancedRefl(v, files);
    } else {
      WriteBlockKeeps(v, files, f, n, block);
      InodeAddrBalanced(v, files, f, false, block, true);
      var w, m := WriteBlock(v, n, block), Min(BSIZE - boff, |buf|);
      if w.err == OK {
        var files1 := files[f := w.n.addrs];
        var blk := Blit(w.v.disk[w.blockno], boff, buf[..m]);
        var v1 := w.v.Put(w.blockno, blk);
        ChunkWritten(v, files, f, n, block, boff, buf[..m]);
        DataWrite(w.v.disk, v.g.DataStart(), UsedSet(v.g, w.v.disk), files1, f, block, blk);
        DataPutUsed(w.v, w.blockno, blk);
        BalancedSame(w.v, v1, files1);
        BalancedTrans(v, files, w.v, files1, v1, files1);
        WriteLoopBalanced(v1, files1, f, w.n, block + 1, 0, buf[m..]);
        var r := WriteLoop(v1, w.n, block + 1, 0, buf[m..]);
        assert files1[f := r.n.addrs] == files[f := r.n.addrs];
        BalancedTrans(v, files, v1, files1, r.v, files[f := r.n.addrs]);
      }
    }
  }

  /** A write touches no record and loses no block. */
  lemma WriteOnDisk(fs: Fs, f: nat, cpos: nat, buf: seq<byte>)
    requires Inv(fs) && f in fs.nodes
    ensures fs.v.Ok() && Conserves(fs, WriteFile(fs, f, cpos, buf).0, {})
  {
    hide Base, NoDangling, Excess, WriteLoop, SoundVol, Wrote, EffectivePos, Kept, Balanced;
    BaseOk(fs);
    BaseSound(fs);
    WriteRefinesSplice(fs.v, Maps(fs), f, fs.nodes[f], cpos, buf);
    var w := FileWrite(fs.v, fs.nodes[f], cpos, buf);
    WroteKept(fs.v, Maps(fs), f, EffectivePos(cpos), buf, w);
    WriteLoopBalanced(fs.v, Maps(fs), f, fs.nodes[f], cpos / BSIZE % U32, cpos % BSIZE, buf);
    assert Maps(Fs(w.v, fs.nodes[f := w.n])) == Maps(fs)[f := w.n.addrs];
  }

  lemma WroteKept(v: Vol, files: Files, f: nat, q: nat, buf: seq<byte>, r: WriteResult)
    requires Wrote(v, files, f, q, buf, r)
    ensures Kept(v, r.v, {})
  {
    hide DinodeAt, SameBytes, Spliced, Sound, Pick, SameTable, Kept;
    TableKept(v, r.v);
  }

  /** A sync brings the record up to date and touches no other, and no block. */
  lemma SyncOnDisk(fs: Fs, f: nat)
    requires Inv(fs) && f in fs.nodes
    ensures fs.v.Ok() && f < TableSize(fs.v.g) && Conserves(fs, Sync(fs, f), {f})
    ensures RecordSays(fs, Sync(fs, f), f, fs.nodes[f].nlink)
  {
    hide Base, NoDangling, Excess, DinodeAt, PutInode, Conserves;
    DirReady(fs, f);
    var n := fs.nodes[f];
    PutConserves(fs, f,
                 DinodeAt(fs.v.g, fs.v.disk, f).(addrs := n.addrs, size := n.size % U32, nlink := n.nlink % U16));
  }

  // ----- create -----

  /** A file that is new and refers to one block. */
  lemma ReferencedJoin(disk: Disk, files: Files, f: nat, a: Addrs, b: uint)
    requires f !in files && SingleBlock(a, b) && b != 0
    ensures Referenced(disk, files[f := a]) == Referenced(disk, files) + {b as nat}
  {
    var files' := files[f := a];
    forall e, k: nat | e in files' && k < NSLOTS
      ensures Slot(disk, files'[e], k) == if e == f then (if k == 0 then b else 0) else Slot(disk, files[e], k)
      ensures e != f ==> e in files && files'[e] == files[e]
    {}
    hide Slot;
    assert Slot(disk, files'[f], 0) == b;
    forall x: nat | x in Referenced(disk, files) ensures x in Referenced(disk, files') {
      var e, k: nat :| e in files && k < NSLOTS && Slot(disk, files[e], k) != 0 && x == Slot(disk, files[e], k) as nat;
      assert Slot(disk, files'[e], k) == Slot(disk, files[e], k);
    }
  }

  /** A block is taken, and belongs to no one yet. */
  lemma TakeOrphan(fs: Fs)
    requires Base(fs) && Pick(fs.v) != 0
    ensures fs.v.Ok() && fs.v.g.IsData(Pick(fs.v))
    ensures var v1 := Take(fs.v, Pick(fs.v));
      && Kept(fs.v, v1, {}) && Referenced(v1.disk, Maps(fs)) == Referenced(fs.v.disk, Maps(fs))
      && UsedSet(fs.v.g, v1.disk) == UsedSet(fs.v.g, fs.v.disk) + {Pick(fs.v) as nat}
      && Orphans(v1, Maps(fs)) == Orphans(fs.v, Maps(fs)) + {Pick(fs.v) as nat}
    ensures Pick(fs.v) as nat !in UsedSet(fs.v.g, fs.v.disk)
  {
    hide Base, Take, Pick, UsedSet, Used, SameContents, SameSlots, Kept, Referenced, FreshIn, Slot, Sound;
    BaseOk(fs);
    BaseSound(fs);
    TakeSafe(fs.v, Maps(fs));
    PickNotUsed(fs.v);
    var v1 := Take(fs.v, Pick(fs.v));
    TableKept(fs.v, v1);
    ReferencedSame(fs.v.disk, v1.disk, Maps(fs));
    ReferencedInside(fs.v.disk, fs.v.g.DataStart(), UsedSet(fs.v.g, fs.v.disk), Maps(fs));
  }

  /** The record of a new file or directory. */
  function NewRecord(isDir: bool, a: Addrs): Dinode {
    if isDir then Dinode(1, 0, 0, 1, 32, a) else Dinode(2, 0, 0, 1, 0, a)
  }

  /** The prepared inode has its record and its block. */
  lemma PreparedOnDisk(fs: Fs, d: nat, isDir: bool)
    requires Base(fs) && 0 < d < U16 && Prepare(fs.v, d, isDir).1 != 0
    ensures fs.v.Ok() && Pick(fs.v) != 0
    ensures var (v1, inum) := Prepare(fs.v, d, isDir);
      var node := NewNode(isDir, Pick(fs.v));
      && inum < TableSize(fs.v.g) && inum !in fs.nodes
      && Conserves(fs, Fs(v1, fs.nodes[inum := node]), {inum})
      && UsedSet(fs.v.g, v1.disk) == UsedSet(fs.v.g, fs.v.disk) + {Pick(fs.v) as nat}
      && DinodeAt(fs.v.g, fs.v.disk, inum).kind == 0 && FirstRecord(fs.v, inum)
      && DinodeAt(fs.v.g, v1.disk, inum) == NewRecord(isDir, node.addrs)
  {
    hide Base, Take, PutInode, DotBlock, FreeInum, Pick, NewDinode, SoundVol, DinodeAt, UsedSet, FreshIn, Referenced,
         SameRoom, Kept, NewNode, SameNode, Slot;
    BaseOk(fs);
    var v, b := fs.v, Pick(fs.v);
    TakeOrphan(fs);
    TakeKeeps(fs);
    var fs1 := Fs(Take(v, b), fs.nodes);
    var n := FreeInum(v.g, fs1.v.disk, 2);
    IallocFresh(fs1);
    FirstFree2(v, fs1.v, n);
    JoinedOnDisk(fs, fs1, isDir, b, n);
    if isDir { DottedOnDisk(fs, fs1, d, b, n); }
  }

  /** The record is written. */
  lemma JoinedOnDisk(fs: Fs, fs1: Fs, isDir: bool, b: uint, n: nat)
    requires Base(fs1) && fs1.nodes == fs.nodes && Kept(fs.v, fs1.v, {}) && FreshIn(fs1.v, Maps(fs1), b) && b != 0
    requires fs.v.Sized() && fs1.v.g == fs.v.g
    requires Referenced(fs1.v.disk, Maps(fs)) == Referenced(fs.v.disk, Maps(fs))
    requires b as nat !in UsedSet(fs.v.g, fs.v.disk)
    requires UsedSet(fs.v.g, fs1.v.disk) == UsedSet(fs.v.g, fs.v.disk) + {b as nat}
    requires n !in fs.nodes && 2 <= n < TableSize(fs.v.g)
    ensures var di, node := NewDinode(isDir, b), NewNode(isDir, b);
      var v2 := PutInode(fs1.v, n, di);
      && Conserves(fs, Fs(v2, fs.nodes[n := node]), {n}) && FreshIn(v2, Maps(fs1), b)
      && UsedSet(fs.v.g, v2.disk) == UsedSet(fs1.v.g, fs1.v.disk)
      && DinodeAt(fs.v.g, v2.disk, n) == NewRecord(isDir, node.addrs)
      && SoundVol(v2, Maps(fs)[n := node.addrs]) && SingleBlock(node.addrs, b)
  {
    hide Base, PutInode, NewDinode, SoundVol, DinodeAt, UsedSet, SameContents, SameSlots, FreshIn, Referenced, Kept,
         Slot, NewNode, SameNode;
    var di, node := NewDinode(isDir, b), NewNode(isDir, b);
    NewRecordIs(isDir, b);
    BaseOk(fs1);
    BaseSound(fs1);
    RecordKept(fs1.v, n, di);
    KeptTrans(fs.v, fs1.v, PutInode(fs1.v, n, di), {}, {n});
    assert {} + {n} == {n};
    PutInodeEffect(fs1.v, n, di);
    PutInodeSafe(fs1.v, Maps(fs1), n, di);
    RecordKeeps(fs1, n, di);
    FreshKept(fs1.v, Maps(fs1), b, n, di);
    var fs2 := Fs(PutInode(fs1.v, n, di), fs.nodes);
    assert Maps(fs2) == Maps(fs1) == Maps(fs);
    ReferencedSame(fs1.v.disk, fs2.v.disk, Maps(fs));
    JoinKeeps(fs2, n, node, b);
    ReferencedJoin(fs2.v.disk, Maps(fs), n, node.addrs, b);
    assert Maps(Fs(fs2.v, fs.nodes[n := node])) == Maps(fs)[n := node.addrs];
    AttachedBalanced(fs.v, Maps(fs), fs2.v, Maps(fs)[n := node.addrs], b);
  }

  /** The first block of a directory is written. */
  lemma DottedOnDisk(fs: Fs, fs1: Fs, d: nat, b: uint, n: nat)
    requires fs1.v.Sized() && fs1.v.g == fs.v.g && n !in fs.nodes && 2 <= n < TableSize(fs.v.g) <= U16 && 0 < d < U16
    requires var node := NewNode(true, b);
      var v2 := PutInode(fs1.v, n, NewDinode(true, b));
      && Conserves(fs, Fs(v2, fs.nodes[n := node]), {n}) && FreshIn(v2, Maps(fs1), b)
      && SoundVol(v2, Maps(fs)[n := node.addrs]) && SingleBlock(node.addrs, b)
    ensures var node := NewNode(true, b);
      var v2 := PutInode(fs1.v, n, NewDinode(true, b));
      && b < |v2.disk|
      && var v3 := v2.Put(b, DotBlock(v2.disk[b], d % U16, n % U16));
         && Conserves(fs, Fs(v3, fs.nodes[n := node]), {n})
         && UsedSet(fs.v.g, v3.disk) == UsedSet(fs.v.g, v2.disk)
         && DinodeAt(fs.v.g, v3.disk, n) == DinodeAt(fs.v.g, v2.disk, n)
  {
    hide PutInode, NewDinode, SoundVol, DinodeAt, UsedSet, SameContents, SameSlots, FreshIn, Referenced, Kept, Slot,
         NewNode, DotBlock, SameRoom, ByteAt, GoodDir, Entry, SingleBlock, Orphans;
    var node := NewNode(true, b);
    var v2 := PutInode(fs1.v, n, NewDinode(true, b));
    var files := Maps(fs)[n := node.addrs];
    FreshZero(v2, Maps(fs1), b);
    DotsKeep(v2, files, n, b, d, n);
    var v3 := v2.Put(b, DotBlock(v2.disk[b], d, n));
    RoomBalanced(v2, v3, files);
    TableKept(v2, v3);
    DinodeOf(v2, v3, n);
    assert Maps(Fs(v3, fs.nodes[n := node])) == files == Maps(Fs(v2, fs.nodes[n := node]));
    ConservesTrans(fs, Fs(v2, fs.nodes[n := node]), Fs(v3, fs.nodes[n := node]), {n}, {});
  }

  lemma FreshZero(v: Vol, files: Files, b: nat)
    requires FreshIn(v, files, b)
    ensures v.g.IsData(b) && v.disk[b] == ZeroBlock()
  {
    hide Slot, UsedSet, ZeroBlock;
  }

  lemma RoomBalanced(v: Vol, v': Vol, files: Files)
    requires SameRoom(v, v', files)
    ensures Balanced(v, files, v', files) && UsedSet(v.g, v'.disk) == UsedSet(v.g, v.disk)
  {
    hide SameSlots, UsedSet, Orphans;
    BalancedSame(v, v', files);
  }

  lemma NewRecordIs(isDir: bool, b: uint)
    ensures var n := NewNode(isDir, b);
      && NewDinode(isDir, b) == NewRecord(isDir, n.addrs) && SingleBlock(n.addrs, b)
  {}

  /** `inum` is the first free record from 2 on. */
  ghost predicate FirstRecord(v: Vol, inum: nat)
    requires v.Sized() && inum < TableSize(v.g)
  {
    inum >= 2 && forall n: nat :: 2 <= n < inum ==> DinodeAt(v.g, v.disk, n).kind != 0
  }

  lemma FirstFree2(v: Vol, v': Vol, n: nat)
    requires Kept(v, v', {}) && n == FreeInum(v.g, v'.disk, 2) < TableSize(v.g)
    ensures DinodeAt(v.g, v.disk, n).kind == 0 && FirstRecord(v, n)
  {
    hide DinodeAt, FreeInum;
    FreeInumFirstFit(v.g, v'.disk, 2);
  }

  /** What a creation has made on disk: the record says all that the in-core inode does. */
  ghost predicate MadeOnDisk(fs: Fs, fs': Fs, d: nat, isDir: bool, inum: nat) {
    && fs.v.Sized() && d in fs.nodes && inum !in fs.nodes && inum < TableSize(fs.v.g)
    && fs'.nodes.Keys == fs.nodes.Keys + {inum} && Conserves(fs, fs', {inum})
    && DinodeAt(fs.v.g, fs.v.disk, inum).kind == 0 && FirstRecord(fs.v, inum)
    && DinodeAt(fs.v.g, fs'.v.disk, inum) == NewRecord(isDir, fs'.nodes[inum].addrs)
    && fs'.nodes[inum].isDir == isDir && fs'.nodes[inum].size == NewRecord(isDir, fs'.nodes[inum].addrs).size
    && fs'.nodes[inum].nlink == 1 && d in fs'.nodes && fs'.nodes[d].size == SizeWithOne(fs, d)
  }

  /** What a creation that fails leaves behind: nothing if there is no clear block. Otherwise
      one clear block is lost, and with it the first free record, if there is one, which
      is in use from then on. */
  ghost predicate LeftOnDisk(fs: Fs, fs': Fs, name: seq<byte>)
    requires fs.v.Sized()
  {
    if |name| > DIRSIZ || ClearCount(fs.v) == 0 then fs' == fs
    else
      && fs'.nodes.Keys == fs.nodes.Keys && fs'.v.Sized() && fs'.v.g == fs.v.g
      && (exists b: nat :: b !in UsedSet(fs.v.g, fs.v.disk)
                        && Orphans(fs'.v, Maps(fs')) == Orphans(fs.v, Maps(fs)) + {b})
      && if TableFull(fs.v) then Kept(fs.v, fs'.v, {})
         else exists inum: nat :: StrayRecord(fs, fs', inum)
  }

  ghost predicate StrayRecord(fs: Fs, fs': Fs, inum: nat) {
    && fs.v.Sized() && inum < TableSize(fs.v.g) && inum !in fs.nodes && Kept(fs.v, fs'.v, {inum})
    && DinodeAt(fs.v.g, fs.v.disk, inum).kind == 0 && FirstRecord(fs.v, inum)
    && DinodeAt(fs.v.g, fs'.v.disk, inum).kind != 0
  }

  lemma CreateOnDisk(fs: Fs, d: nat, name: seq<byte>, isDir: bool)
    requires Inv(fs) && NewName(fs, d, name)
    ensures fs.v.Ok() && DirSized(fs.nodes[d].size % U32)
    ensures var (fs', err) := Create(fs, d, name, isDir);
      if err == OK then exists inum: nat :: MadeOnDisk(fs, fs', d, isDir, inum) else LeftOnDisk(fs, fs', name)
  {
    hide Base, NoDangling, Excess, Prepare, DentryInsert, CString, FreshName, Prepared, Conserves, SizeWithOne, Kept,
         Orphans, UsedSet, ClearCount, TableFull, MadeOnDisk, StrayRecord;
    DirReady(fs, d);
    if |name| <= DIRSIZ {
      PrepareKeeps(fs, d, isDir);
      PickClear(fs.v);
      var (v1, inum) := Prepare(fs.v, d, isDir);
      if inum == 0 {
        NonePrepared(fs, d, isDir, v1);
      } else {
        CreateOutcome(fs, d, name, isDir, v1, inum);
      }
    }
  }

  /** The record or the block is not to be had. */
  lemma NonePrepared(fs: Fs, d: nat, isDir: bool, v1: Vol)
    requires Inv(fs) && (v1, 0) == Prepare(fs.v, d, isDir)
    ensures if Pick(fs.v) == 0 then v1 == fs.v
            else Kept(fs.v, v1, {}) && Orphans(v1, Maps(fs)) == Orphans(fs.v, Maps(fs)) + {Pick(fs.v) as nat}
    ensures Pick(fs.v) != 0 ==> TableFull(fs.v) && Pick(fs.v) as nat !in UsedSet(fs.v.g, fs.v.disk)
  {
    hide Base, NoDangling, Excess, Take, PutInode, DotBlock, FreeInum, Pick, NewDinode, SoundVol, DinodeAt, UsedSet,
         Kept, Orphans, TableFull;
    BaseOk(fs);
    if Pick(fs.v) != 0 {
      TakeOrphan(fs);
      TakeKeeps(fs);
      IallocFresh(Fs(Take(fs.v, Pick(fs.v)), fs.nodes));
      FullSame(fs.v, Pick(fs.v));
    }
  }

  /** The prepared inode is entered, or that fails. */
  lemma CreateOutcome(fs: Fs, d: nat, name: seq<byte>, isDir: bool, v1: Vol, inum: nat)
    requires Inv(fs) && NewName(fs, d, name) && |name| <= DIRSIZ && fs.v.Ok() && DirSized(fs.nodes[d].size % U32)
    requires (v1, inum) == Prepare(fs.v, d, isDir) && inum != 0 && v1.Ok()
    ensures var r, node := DentryInsert(v1, fs.nodes[d], name, inum), NewNode(isDir, Pick(fs.v));
      var nodes1 := fs.nodes[d := r.n];
      if r.err == OK then MadeOnDisk(fs, Fs(r.v, nodes1[inum := node]), d, isDir, inum)
      else LeftOnDisk(fs, Fs(r.v, nodes1), name) && ClearCount(fs.v) > 0
  {
    hide Base, NoDangling, Excess, Prepare, DentryInsert, CString, FreshName, Prepared, Conserves, SizeWithOne,
         Orphans, UsedSet, ClearCount, TableFull, DinodeAt, NewNode, FirstRecord, LinkAdded, LinkAt, MadeOnDisk,
         LeftOnDisk, KindsKept, FreeSlot;
    DirReady(fs, d);
    PrepareKeeps(fs, d, isDir);
    PreparedOnDisk(fs, d, isDir);
    PreparedNotFull(fs, d, isDir, v1, inum);
    PreparedReady(fs, d, name, isDir, v1, inum);
    PreparedSame(fs, d, isDir, v1, inum);
    var node := NewNode(isDir, Pick(fs.v));
    var fs1 := Fs(v1, fs.nodes[inum := node]);
    InsertConserves(fs1, d, name, inum);
    InsertKeeps(fs1, d, name, inum);
    var r := DentryInsert(v1, fs.nodes[d], name, inum);
    var fs2 := Fs(r.v, fs1.nodes[d := r.n]);
    assert fs2.nodes == fs.nodes[d := r.n][inum := node];
    ConservesTrans(fs, fs1, fs2, {inum}, {});
    RecordThen(fs1, fs2, inum);
    if r.err == OK {
      SizeSame(fs, fs1, d);
      FreeSlotSize(fs1, d) by { DirUncut(fs, d); }
      MadeIs(fs, fs2, d, isDir, inum);
    } else {
      LeftIs(fs, fs2, name, isDir, inum);
      assert fs2.nodes - {inum} == fs.nodes[d := r.n];
      assert Fs(r.v, fs.nodes[d := r.n]) == Fs(fs2.v, fs2.nodes - {inum});
    }
  }

  lemma MadeIs(fs: Fs, fs2: Fs, d: nat, isDir: bool, inum: nat)
    requires fs.v.Ok() && d in fs.nodes && inum !in fs.nodes && inum < TableSize(fs.v.g) && Pick(fs.v) != 0
    requires fs2.nodes.Keys == fs.nodes.Keys + {inum} && Conserves(fs, fs2, {inum}) && FirstRecord(fs.v, inum)
    requires fs2.nodes[inum] == NewNode(isDir, Pick(fs.v)) && fs2.nodes[d].size == SizeWithOne(fs, d)
    requires DinodeAt(fs.v.g, fs.v.disk, inum).kind == 0
    requires fs2.v.Sized() && fs2.v.g == fs.v.g
    requires DinodeAt(fs.v.g, fs2.v.disk, inum) == NewRecord(isDir, NewNode(isDir, Pick(fs.v)).addrs)
    ensures MadeOnDisk(fs, fs2, d, isDir, inum)
  {
    hide Pick, Conserves, SizeWithOne, DinodeAt, FirstRecord, NewNode;
    NewNodeSays(isDir, Pick(fs.v));
  }

  lemma LeftIs(fs: Fs, fs2: Fs, name: seq<byte>, isDir: bool, inum: nat)
    requires fs.v.Ok() && Base(fs2) && inum !in fs.nodes && inum < TableSize(fs.v.g) && Pick(fs.v) != 0
    requires fs2.nodes.Keys == fs.nodes.Keys + {inum} && Conserves(fs, fs2, {inum}) && FirstRecord(fs.v, inum)
    requires fs2.nodes[inum] == NewNode(isDir, Pick(fs.v)) && !TableFull(fs.v)
    requires DinodeAt(fs.v.g, fs.v.disk, inum).kind == 0 && ClearCount(fs.v) > 0
    requires fs2.v.Sized() && fs2.v.g == fs.v.g && |name| <= DIRSIZ
    requires DinodeAt(fs.v.g, fs2.v.disk, inum) == NewRecord(isDir, NewNode(isDir, Pick(fs.v)).addrs)
    ensures LeftOnDisk(fs, Fs(fs2.v, fs2.nodes - {inum}), name)
  {
    hide Base, Pick, DinodeAt, FirstRecord, NewNode, TableFull, ClearCount, Orphans, UsedSet, Balanced, Kept;
    var b := Pick(fs.v);
    PickNotUsed(fs.v);
    NewRecordIs(isDir, b);
    NewKind(isDir, NewNode(isDir, b).addrs);
    LostWithout(fs, fs2, inum, b);
    assert StrayRecord(fs, Fs(fs2.v, fs2.nodes - {inum}), inum);
  }

  lemma PreparedSame(fs: Fs, d: nat, isDir: bool, v1: Vol, inum: nat)
    requires fs.v.Ok() && Prepared(fs, d, isDir, Pick(fs.v), v1, inum) && inum != 0 && d in fs.nodes
    ensures SameNode(fs.v, fs.nodes[d], v1, fs.nodes[d])
  {
    hide Base, SameNode, OneTaken, NewContents, TableFull, LinkAt;
  }

  /** The prepared inode is in order, and the name still fresh. */
  lemma PreparedReady(fs: Fs, d: nat, name: seq<byte>, isDir: bool, v1: Vol, inum: nat)
    requires fs.v.Ok() && d in fs.nodes && FreshName(fs, d, name) && inum != 0
    requires Prepared(fs, d, isDir, Pick(fs.v), v1, inum)
    ensures var fs1 := Fs(v1, fs.nodes[inum := NewNode(isDir, Pick(fs.v))]);
      Base(fs1) && d != inum && inum < U16 && FreshName(fs1, d, name)
  {
    hide Base, SameNode, FreshName, OneTaken, NewContents, TableFull, ClearCount, LinkAt;
    FreshSame(fs, Fs(v1, fs.nodes[inum := NewNode(isDir, Pick(fs.v))]), d, name);
  }

  lemma PreparedNotFull(fs: Fs, d: nat, isDir: bool, v1: Vol, inum: nat)
    requires fs.v.Ok() && Prepared(fs, d, isDir, Pick(fs.v), v1, inum) && inum != 0
    ensures fs.v.Sized() && ClearCount(fs.v) > 0 && !TableFull(fs.v)
  {
    hide Base, SameNode, OneTaken, NewContents, TableFull, LinkAt;
  }

  lemma NewKind(isDir: bool, a: Addrs)
    ensures NewRecord(isDir, a).kind != 0
  {}

  /** What follows touches no record. */
  lemma RecordThen(fs: Fs, fs': Fs, inum: nat)
    requires Conserves(fs, fs', {}) && inum < TableSize(fs.v.g)
    ensures fs.v.Sized() && fs'.v.Sized() && fs'.v.g == fs.v.g
    ensures DinodeAt(fs.v.g, fs'.v.disk, inum) == DinodeAt(fs.v.g, fs.v.disk, inum)
  {
    hide DinodeAt, Balanced;
  }

  lemma SizeSame(fs: Fs, fs': Fs, d: nat)
    requires d in fs.nodes && d in fs'.nodes && SameNode(fs.v, fs.nodes[d], fs'.v, fs'.nodes[d])
    ensures SizeWithOne(fs', d) == SizeWithOne(fs, d)
  {
    hide Entry, ByteAt;
    forall k: nat ensures Entry(fs'.v.disk, fs'.nodes[d].addrs, k) == Entry(fs.v.disk, fs.nodes[d].addrs, k) {
      SameEntry(fs.v.disk, fs.nodes[d].addrs, fs'.v.disk, fs'.nodes[d].addrs, k);
    }
  }

  lemma NewNodeSays(isDir: bool, b: uint)
    ensures var n := NewNode(isDir, b); n.isDir == isDir && n.nlink == 1 && n.size == NewRecord(isDir, n.addrs).size
  {
    hide NoAddrs;
  }

  /** The new inode is forgotten after all, and its block is lost. */
  lemma LostWithout(fs: Fs, fs2: Fs, inum: nat, b: nat)
    requires Conserves(fs, fs2, {inum}) && Base(fs2) && inum in fs2.nodes && SingleBlock(fs2.nodes[inum].addrs, b)
    requires b != 0
    ensures Orphans(fs2.v, Maps(Fs(fs2.v, fs2.nodes - {inum}))) == Orphans(fs.v, Maps(fs)) + {b}
  {
    hide Base, Referenced, UsedSet, Kept, Refs, Sound;
    BaseOk(fs2);
    BaseSound(fs2);
    ReferencedLess(fs2.v.disk, fs2.v.g.DataStart(), UsedSet(fs2.v.g, fs2.v.disk), Maps(fs2), inum);
    ReferencedInside(fs2.v.disk, fs2.v.g.DataStart(), UsedSet(fs2.v.g, fs2.v.disk), Maps(fs2));
    assert Maps(Fs(fs2.v, fs2.nodes - {inum})) == Maps(fs2) - {inum};
    SingleRefs(fs2.v.disk, fs2.nodes[inum].addrs, b);
  }

  lemma SingleRefs(disk: Disk, a: Addrs, b: nat)
    requires SingleBlock(a, b) && b != 0
    ensures Refs(disk, a) == {b}
  {
    forall k: nat | k < NSLOTS ensures Slot(disk, a, k) == if k == 0 then b else 0 {}
    assert Slot(disk, a, 0) as nat in Refs(disk, a);
    hide Slot;
  }

}
