/** Rename (file.c, `xv6_rename`): exactly when it keeps the link counts. */
module NsRename {
  import opened Layout
  import opened Volumes
  import opened BlockMap
  import opened Space
  import opened Inodes
  import opened FileData
  import opened DirIter
  import opened Directory
  import opened DirInsert
  import opened Namespace
  import opened NsProof
  import opened NsSteps
  import opened NsRuns

  /** The link moved from one place to another. */
  lemma SteadyMove(fs: Fs, fs1: Fs, fs2: Fs, p: Place, p2: Place, f: nat)
    requires Inv(fs) && Base(fs1) && Base(fs2)
    requires LinkAdded(fs1, fs, p, f) && LinkAdded(fs1, fs2, p2, f) && f in fs.nodes && f != ROOTINO
    requires fs2.nodes.Keys == fs1.nodes.Keys == fs.nodes.Keys && SameCounts(fs, fs2, 0)
    ensures Steady(fs, fs2)
  {
    hide Base, LinkAt, Links;
    BaseNoNull(fs);
    LinksAdded(fs1, fs, p, f);
    LinksAdded(fs1, fs2, p2, f);
    assert NoDangling(fs1) by { DanglingAfterDrop(fs, fs1, p, f); }
    DanglingAfterAdd(fs1, fs2, p2, f);
    hide LinkAdded, NoDangling;
    assert forall g :: g in fs2.nodes && g != ROOTINO ==> |Links(fs2, g)| == |Links(fs, g)|;
    ExcessKept(fs, fs2, 0, 0);
  }

  /** Some entry other than the one being renamed has the new name. */
  ghost predicate Taken(fs: Fs, p: Place, d2: nat, name2: seq<byte>)
    requires d2 in fs.nodes
  {
    exists j: nat :: Place(d2, j) != p && Live(fs.v.disk, fs.nodes[d2].addrs, j, Pad(name2))
  }

  /** How the lookup of the new name comes out, once the old entry is gone: the
      name is fresh, or it is `.`, or it is taken. */
  lemma FindAfterErase(fs: Fs, fs1: Fs, p: Place, d2: nat, name2: seq<byte>)
    requires Base(fs1) && d2 in fs.nodes && fs1.nodes == fs.nodes && fs.nodes[d2].isDir
    requires GoodName(name2) && |name2| <= DIRSIZ
    requires forall j: nat ::
      Entry(fs1.v.disk, fs.nodes[d2].addrs, j)
      == if Place(d2, j) == p then Erased() else Entry(fs.v.disk, fs.nodes[d2].addrs, j)
    ensures fs1.v.Ok() && DirSized(fs.nodes[d2].size % U32)
    ensures var (dnum, _, err) := FindInum(fs1.v, fs.nodes[d2], name2);
      && err == OK
      && (dnum != 0 || name2 == Dot() ==> Taken(fs, p, d2, name2))
      && (dnum == 0 && name2 != Dot() ==> FreshName(fs1, d2, name2) && !Taken(fs, p, d2, name2))
  {
    hide FindInum, Base, Entry, Pad, CString, Erased;
    DirReady(fs1, d2);
    FindIn(fs1, d2, name2);
    DotTaken(fs1, d2);
    ErasedIsFree();
    var a := fs.nodes[d2].addrs;
    var (dnum, _, _) := FindInum(fs1.v, fs.nodes[d2], name2);
    assert forall j: nat ::
      Live(fs1.v.disk, a, j, Pad(name2)) ==> Place(d2, j) != p && Live(fs.v.disk, a, j, Pad(name2));
    assert forall j: nat ::
      Place(d2, j) != p && Live(fs.v.disk, a, j, Pad(name2)) ==> Live(fs1.v.disk, a, j, Pad(name2));
    if dnum != 0 {
      assert Live(fs1.v.disk, a, dnum, Pad(name2));
    } else if name2 == Dot() {
      assert Live(fs1.v.disk, a, 0, Pad(name2));
    } else if Live(fs1.v.disk, a, 0, Pad(name2)) {
      PadInjective(name2, Dot());
    }
  }

  /** Lookup in a directory of a file system in order. */
  lemma FindIn(fs: Fs, d: nat, name: seq<byte>)
    requires Base(fs) && d in fs.nodes && fs.nodes[d].isDir && GoodName(name)
    ensures fs.v.Ok() && DirSized(fs.nodes[d].size % U32)
    ensures var (dnum, de, err) := FindInum(fs.v, fs.nodes[d], name);
      && err == OK
      && (dnum != 0 ==>
            Live(fs.v.disk, fs.nodes[d].addrs, dnum, Pad(name)) && de == Entry(fs.v.disk, fs.nodes[d].addrs, dnum))
      && (dnum == 0 ==> forall k: nat :: k != 0 ==> !Live(fs.v.disk, fs.nodes[d].addrs, k, Pad(name)))
  {
    hide SoundVol, GoodDir, FindInum, DinodeAt, Live, Pad, Entry, CString;
    NodeIn(fs, d);
    FindSound(fs.v, Maps(fs), d, fs.nodes[d], name);
    DirReady(fs, d);
  }

  lemma ErasedIsFree()
    ensures Erased().inum == 0
  {}

  lemma DotTaken(fs: Fs, d: nat)
    requires Base(fs) && d in fs.nodes && fs.nodes[d].isDir
    ensures Live(fs.v.disk, fs.nodes[d].addrs, 0, Pad(Dot()))
  {
    hide Base, Entry, ZeroTail, Pad;
    NodeIn(fs, d);
  }

  /** The entries of `d2` once the entry at `p` is erased. */
  lemma ErasedView(fs: Fs, v1: Vol, d1: nat, k: nat, d2: nat)
    requires d1 in fs.nodes && d2 in fs.nodes
    requires forall j: nat ::
      Entry(v1.disk, fs.nodes[d1].addrs, j) == if j == k then Erased() else Entry(fs.v.disk, fs.nodes[d1].addrs, j)
    requires forall e :: e in fs.nodes && e != d1 ==> SameNode(fs.v, fs.nodes[e], v1, fs.nodes[e])
    ensures forall j: nat ::
      Entry(v1.disk, fs.nodes[d2].addrs, j)
      == if Place(d2, j) == Place(d1, k) then Erased() else Entry(fs.v.disk, fs.nodes[d2].addrs, j)
  {
    hide Entry, ByteAt;
    if d2 != d1 {
      forall j: nat ensures Entry(v1.disk, fs.nodes[d2].addrs, j) == Entry(fs.v.disk, fs.nodes[d2].addrs, j) {
        SameEntry(fs.v.disk, fs.nodes[d2].addrs, v1.disk, fs.nodes[d2].addrs, j);
      }
    }
  }

  /** The slot the new entry of a rename takes: in the directory it comes from, the
      slot just erased counts as free. */
  function RenameSlot(fs: Fs, d1: nat, k: nat, d2: nat): nat
    requires d2 in fs.nodes
  {
    var x := FreeSlot(fs.v.disk, fs.nodes[d2]);
    if d2 == d1 then Min(k, x) else x
  }

  /** Whether there is room for the new entry, before the rename. */
  function RenameSupply(fs: Fs, d1: nat, k: nat, d2: nat): (e: Errno)
    requires fs.v.Sized() && d2 in fs.nodes
    ensures e in {OK, ENOSPC, EFBIG}
  {
    Supply(fs.v, fs.nodes[d2].addrs, RenameSlot(fs, d1, k, d2) / NENTS)
  }

  /** What a rename comes back with, by the state before it. */
  ghost function RenameResult(fs: Fs, d1: nat, k: nat, d2: nat, name2: seq<byte>, badFlags: bool): Errno
    requires fs.v.Sized() && d2 in fs.nodes
  {
    if badFlags then EINVAL
    else if |name2| > DIRSIZ then ENAMETOOLONG
    else if Taken(fs, Place(d1, k), d2, name2) then EEXIST
    else RenameSupply(fs, d1, k, d2)
  }

  /** Once the old entry is erased, an insertion finds the room there was before. */
  lemma RoomAfterErase(fs: Fs, v1: Vol, d1: nat, k: nat, d2: nat)
    requires Base(fs) && d1 in fs.nodes && fs.nodes[d1].isDir && d2 in fs.nodes && SameRoom(fs.v, v1, Maps(fs))
    requires Entry(fs.v.disk, fs.nodes[d1].addrs, k).inum != 0
    requires forall j: nat ::
      Entry(v1.disk, fs.nodes[d2].addrs, j)
      == if Place(d2, j) == Place(d1, k) then Erased() else Entry(fs.v.disk, fs.nodes[d2].addrs, j)
    ensures fs.v.Sized() && v1.Sized() && InsertSupply(v1, fs.nodes[d2]) == RenameSupply(fs, d1, k, d2)
  {
    hide Base, Entry, Erased, GoodDir, FirstFree, UsedSet, SameSlots, Supply;
    var n := fs.nodes[d2];
    RoomIn(fs, v1, d2, RenameSlot(fs, d1, k, d2) / NENTS);
    if d2 == d1 {
      NodeIn(fs, d1);
      LiveInside(fs.v.disk, n, k);
      FirstFreeErased(fs.v.disk, n.addrs, v1.disk, k, n.size / DESIZE);
    } else {
      assert forall j: nat :: Place(d2, j) != Place(d1, k);
      FirstFreeSame(fs.v.disk, n.addrs, v1.disk, n.addrs, 0, n.size / DESIZE);
    }
  }

  lemma RoomIn(fs: Fs, v1: Vol, d: nat, i: nat)
    requires SameRoom(fs.v, v1, Maps(fs)) && d in fs.nodes
    ensures fs.v.Sized() && v1.Sized() && Supply(v1, fs.nodes[d].addrs, i) == Supply(fs.v, fs.nodes[d].addrs, i)
  {
    hide UsedSet, Slot, Supply;
    assert SameSlots(fs.v.disk, v1.disk, Maps(fs)[d]);
    SupplySame(fs.v, v1, fs.nodes[d].addrs, i);
  }

  /** The outcomes of a rename and what each keeps. Up to the name length check
      nothing has happened; success moves the link; any later failure leaves the
      count of `f` one above the number of its entries. */
  ghost predicate RenameOutcome(fs: Fs, d1: nat, k: nat, d2: nat, name2: seq<byte>, f: nat, badFlags: bool,
      fs': Fs, err: Errno)
    requires fs.v.Sized() && d2 in fs.nodes
  {
    && err == RenameResult(fs, d1, k, d2, name2, badFlags)
    && (err in {OK, EINVAL, ENAMETOOLONG} ==> Steady(fs, fs'))
    && (err in {EEXIST, ENOSPC, EFBIG} ==> f in fs'.nodes && f != ROOTINO && Inv(fs') && ExcessMoved(fs, fs', f, 1))
  }

  lemma RenameCases(fs: Fs, d1: nat, name1: seq<byte>, k: nat, d2: nat, name2: seq<byte>, f: nat, badFlags: bool)
    requires Inv(fs) && Names(fs, d1, name1, k, f) && f != 0 && GoodName(name1)
    requires d2 in fs.nodes && fs.nodes[d2].isDir && GoodName(name2)
    ensures fs.v.Ok() && DirSized(fs.nodes[d1].size % U32) && DirSized(fs.nodes[d2].size % U32)
    ensures var (fs', err) := Rename(fs, d1, name1, d2, name2, f, badFlags);
      RenameOutcome(fs, d1, k, d2, name2, f, badFlags, fs', err)
  {
    hide Base, Links, Excess, NoDangling, Pad, Live, Steady, DirErase, FindInum, DentryInsert, Entry, Taken,
         ExcessMoved, SameNode, KindsKept, CString, Erased, FreshName, RenameSupply, SameRoom, InsertSupply;
    DirReady(fs, d1);
    DirReady(fs, d2);
    NamedHasCount(fs, Place(d1, k));
    SteadyRefl(fs);
    if !badFlags && |name2| <= DIRSIZ {
      EraseKeeps(fs, d1, name1, k, f);
      var v1 := DirErase(fs.v, fs.nodes[d1], name1).0;
      var fs1 := Fs(v1, fs.nodes);
      ErasedView(fs, v1, d1, k, d2);
      NamesParts(fs, d1, name1, k, f);
      RoomAfterErase(fs, v1, d1, k, d2);
      FindAfterErase(fs, fs1, Place(d1, k), d2, name2);
      hide LinkAt;
      ExcessDrop(fs, fs1, Place(d1, k), f);
      DirReady(fs, f);
      if FindInum(v1, fs.nodes[d2], name2).0 == 0 {
        if name2 == Dot() {
          DotRefused(v1, fs.nodes[d2], name2, f);
          assert fs.nodes[d2 := fs.nodes[d2]] == fs.nodes;
        } else {
          RenameInsert(fs, fs1, Place(d1, k), d2, name2, f);
        }
      }
    }
  }

  lemma DotRefused(v: Vol, n: Node, name: seq<byte>, f: nat)
    requires v.Ok() && n.isDir && DirSized(n.size % U32) && name == Dot()
    ensures DentryInsert(v, n, name, f) == InsertResult(v, n, EEXIST, true)
  {
    hide DirIterate;
  }

  /** The last step: the fresh new name is inserted, or there is no space. */
  lemma RenameInsert(fs: Fs, fs1: Fs, p: Place, d2: nat, name2: seq<byte>, f: nat)
    requires Inv(fs) && Inv(fs1) && fs1.nodes == fs.nodes && LinkAdded(fs1, fs, p, f) && ExcessMoved(fs, fs1, f, 1)
    requires d2 in fs.nodes && fs.nodes[d2].isDir && GoodName(name2) && |name2| <= DIRSIZ && FreshName(fs1, d2, name2)
    requires f in fs.nodes && f != ROOTINO && f < U16
    ensures fs1.v.Ok() && DirSized(fs.nodes[d2].size % U32)
    ensures var r := DentryInsert(fs1.v, fs.nodes[d2], name2, f);
      var fs2 := Fs(r.v, fs.nodes[d2 := r.n]);
      && r.err == InsertSupply(fs1.v, fs.nodes[d2])
      && (r.err == OK ==> Steady(fs, fs2))
      && (r.err != OK ==> Inv(fs2) && ExcessMoved(fs, fs2, f, 1))
  {
    hide Base, LinkAt, Links, Excess, NoDangling, Pad, Live, DentryInsert, FreeSlot, KindsKept, CString, FreshName,
         InsertSupply;
    DirReady(fs1, d2);
    BaseNoNull(fs);
    InsertKeeps(fs1, d2, name2, f);
    var r := DentryInsert(fs1.v, fs.nodes[d2], name2, f);
    var fs2 := Fs(r.v, fs.nodes[d2 := r.n]);
    if r.err == OK {
      SteadyMove(fs, fs1, fs2, p, Place(d2, FreeSlot(fs1.v.disk, fs.nodes[d2])), f);
    } else {
      SteadySame(fs1, fs2);
      MovedThenSteady(fs, fs1, fs2, f);
    }
  }

  lemma MovedThenSteady(fs: Fs, fs1: Fs, fs2: Fs, f: nat)
    requires ExcessMoved(fs, fs1, f, 1) && Steady(fs1, fs2) && fs2.nodes.Keys == fs1.nodes.Keys && 0 !in fs1.nodes
    ensures Inv(fs2) && ExcessMoved(fs, fs2, f, 1)
  {
    hide Base, Excess, NoDangling;
  }

  /** Rename keeps the agreement between link counts and entries if and only if it
      refuses its arguments outright, or the new name is not taken and there is room
      for it, the slot of the old entry counting as free. Otherwise the old entry is
      gone by the time it fails. */
  lemma RenameExact(fs: Fs, d1: nat, name1: seq<byte>, k: nat, d2: nat, name2: seq<byte>, f: nat, badFlags: bool)
    requires Inv(fs) && Exact(fs) && Names(fs, d1, name1, k, f) && f != 0 && GoodName(name1)
    requires d2 in fs.nodes && fs.nodes[d2].isDir && GoodName(name2)
    ensures fs.v.Ok() && DirSized(fs.nodes[d1].size % U32) && DirSized(fs.nodes[d2].size % U32)
    ensures var (fs', err) := Rename(fs, d1, name1, d2, name2, f, badFlags);
      && Inv(fs')
      && (Exact(fs') <==> badFlags || |name2| > DIRSIZ
                          || (!Taken(fs, Place(d1, k), d2, name2) && RenameSupply(fs, d1, k, d2) == OK))
      && err == RenameResult(fs, d1, k, d2, name2, badFlags)
  {
    hide Base, Links, Excess, NoDangling, Pad, Live, Rename, Taken, LinkAt, RenameSlot, Cost, ClearCount;
    RenameCases(fs, d1, name1, k, d2, name2, f, badFlags);
    NamedHasCount(fs, Place(d1, k));
    var fs' := Rename(fs, d1, name1, d2, name2, f, badFlags).0;
    if Rename(fs, d1, name1, d2, name2, f, badFlags).1 in {EEXIST, ENOSPC, EFBIG} {
      assert Excess(fs', f) == Excess(fs, f) + 1 || f !in fs.nodes;
    }
  }
}
