/** What a listing shows (dir.c, `xv6_readdir`), held against the directory as a finite
    map: every bound name once, without its padding, and nothing else. */
module ListNames {
  import opened Layout
  import opened Volumes
  import opened BlockMap
  import opened Inodes
  import opened FileData
  import opened DirIter
  import opened Directory
  import opened DirInsert
  import opened DirMap
  import opened Listing

  // ----- one name -----

  /** A padded field shows the string that it pads to. */
  lemma ShownUnpads(de: Dirent)
    requires Padded(de.name)
    ensures CString(Shown(de).name) && |Shown(de).name| <= DIRSIZ && Pad(Shown(de).name) == de.name
    ensures Shown(de).inum == de.inum
  {
    StrnlenStops(de.name, 0);
  }

  lemma {:induction false} StrnlenStops(s: Name, i: nat)
    requires i <= DIRSIZ
    ensures forall j :: i <= j < Strnlen(s, i) ==> s[j] != 0
    ensures Strnlen(s, i) < DIRSIZ ==> s[Strnlen(s, i)] == 0
    decreases DIRSIZ - i
  {
    if i == DIRSIZ || s[i] == 0 {
    } else {
      StrnlenStops(s, i + 1);
    }
  }

  /** The callback hands the consumer the name as it was given, at the position it is at. */
  lemma EmitsName(k: nat, t: seq<byte>, inum: ushort, c: DirContext)
    requires CString(t) && 0 < |t| <= DIRSIZ && inum != 0 && c.pos <= k && c.room > 0
    ensures DeList(k, Dirent(inum, Pad(t)), c).ctx == DirContext(k + 1, c.room - 1, c.out + [Listed(t, inum)])
  {
    hide Pad;
    var de := Dirent(inum, Pad(t));
    PadIsPadded(t);
    ShownUnpads(de);
    PadInjective(Shown(de).name, t);
  }

  // ----- a whole directory -----

  /** `t` is bound to `inum`. */
  predicate Binds(m: map<Name, ushort>, x: Listed) {
    CString(x.name) && |x.name| <= DIRSIZ && Pad(x.name) in m && m[Pad(x.name)] == x.inum
  }

  /** A list of exactly the bindings of `m`, each once. */
  ghost predicate ListsAll(out: seq<Listed>, m: map<Name, ushort>) {
    && (forall x :: x in out <==> Binds(m, x))
    && forall i, j :: 0 <= i < j < |out| ==> out[i].name != out[j].name
  }

  /** Where an element of the list comes from. */
  lemma {:induction false} LiveListFrom(disk: Disk, a: Addrs, k: nat, end: nat, x: Listed) returns (j: nat)
    requires x in LiveList(disk, a, k, end)
    ensures k <= j < end && Entry(disk, a, j).inum != 0 && x == Shown(Entry(disk, a, j))
    decreases end - k
  {
    hide Entry, Shown;
    if Entry(disk, a, k).inum != 0 && x == Shown(Entry(disk, a, k)) {
      j := k;
    } else {
      j := LiveListFrom(disk, a, k + 1, end, x);
    }
  }

  lemma {:induction false} LiveListHas(disk: Disk, a: Addrs, k: nat, end: nat, j: nat)
    requires k <= j < end && Entry(disk, a, j).inum != 0
    ensures Shown(Entry(disk, a, j)) in LiveList(disk, a, k, end)
    decreases end - k
  {
    hide Entry, Shown;
    if j == k {
    } else {
      LiveListHas(disk, a, k + 1, end, j);
    }
  }

  /** Names are listed once. */
  lemma {:induction false} LiveListOnce(disk: Disk, a: Addrs, k: nat, end: nat)
    requires GoodSlots(disk, a)
    ensures forall i, j :: 0 <= i < j < |LiveList(disk, a, k, end)| ==>
      LiveList(disk, a, k, end)[i].name != LiveList(disk, a, k, end)[j].name
    decreases end - k
  {
    hide Entry, Shown, Pad, Padded, GoodSlots;
    if k >= end {
    } else {
      LiveListOnce(disk, a, k + 1, end);
      var rest := LiveList(disk, a, k + 1, end);
      if Entry(disk, a, k).inum != 0 {
        forall x | x in rest ensures x.name != Shown(Entry(disk, a, k)).name {
          var j := LiveListFrom(disk, a, k + 1, end, x);
          ShownApart(disk, a, k, j);
        }
        assert LiveList(disk, a, k, end) == [Shown(Entry(disk, a, k))] + rest;
      } else {
        assert LiveList(disk, a, k, end) == rest;
      }
    }
  }

  lemma ShownApart(disk: Disk, a: Addrs, k: nat, j: nat)
    requires GoodSlots(disk, a) && k != j && Entry(disk, a, k).inum != 0 && Entry(disk, a, j).inum != 0
    ensures Shown(Entry(disk, a, j)).name != Shown(Entry(disk, a, k)).name
  {
    hide Entry, Shown, Pad, Padded;
    assert GoodSlot(Entry(disk, a, k)) && GoodSlot(Entry(disk, a, j));
    ShownUnpads(Entry(disk, a, k));
    ShownUnpads(Entry(disk, a, j));
  }

  lemma LiveListIsMap(disk: Disk, n: Node)
    requires GoodDir(disk, n) && |disk| > 0
    ensures ListsAll(LiveList(disk, n.addrs, 0, n.size / DESIZE), NameMap(disk, n))
  {
    hide Entry, Shown, Pad, Padded, NameMap, LiveList, ZeroTail;
    var a, end, m := n.addrs, n.size / DESIZE, NameMap(disk, n);
    var all := LiveList(disk, a, 0, end);
    LiveListOnce(disk, a, 0, end);
    forall x ensures x in all <==> Binds(m, x) {
      if x in all {
        var j := LiveListFrom(disk, a, 0, end, x);
        assert GoodSlot(Entry(disk, a, j));
        ShownUnpads(Entry(disk, a, j));
        NameMapAt(disk, n, j);
      }
      if Binds(m, x) {
        var j := NameMapOnly(disk, n, Pad(x.name));
        assert GoodSlot(Entry(disk, a, j));
        ShownUnpads(Entry(disk, a, j));
        PadInjective(Shown(Entry(disk, a, j)).name, x.name);
        LiveListHas(disk, a, 0, end, j);
      }
    }
  }

  lemma {:induction false} LiveListShort(disk: Disk, a: Addrs, k: nat, end: nat)
    requires k <= end
    ensures |LiveList(disk, a, k, end)| <= end - k
    decreases end - k
  {
    hide Entry, Shown;
    if k < end { LiveListShort(disk, a, k + 1, end); }
  }

  /** Listing a good directory from the start, in however many calls, shows every bound
      name once, with its number, and nothing else. */
  lemma ListingIsMap(v: Vol, files: Files, f: nat, n: Node, rooms: seq<nat>)
    requires SoundVol(v, files) && f in files && files[f] == n.addrs && GoodDir(v.disk, n)
    requires Sum(rooms) >= n.size / DESIZE
    ensures DirSized(n.size % U32)
    ensures ListsAll(ListRun(v, n, rooms, DirContext(0, 0, [])).out, NameMap(v.disk, n))
  {
    hide SoundVol, GoodDir, LiveList, ListRun, NameMap, ListsAll;
    GoodDirSized(v, files, f, n);
    ResumedListing(v, files, f, n, rooms, DirContext(0, 0, []));
    LiveListShort(v.disk, n.addrs, 0, n.size / DESIZE);
    LiveListIsMap(v.disk, n);
    var all := LiveList(v.disk, n.addrs, 0, n.size / DESIZE);
    assert [] + all[..|all|] == all;
  }

  /** After a fresh name is inserted a listing shows what it showed before, and the name
      as it was given. */
  lemma InsertedIsListed(v: Vol, files: Files, f: nat, n: Node, t: seq<byte>, inum: nat, rooms: seq<nat>,
      rooms': seq<nat>)
    requires SoundVol(v, files) && f in files && files[f] == n.addrs && GoodDir(v.disk, n)
    requires CString(t) && 0 < |t| <= DIRSIZ && 0 < inum < U16 && Pad(t) !in NameMap(v.disk, n)
    requires v.Ok() && DirSized(n.size % U32) && DentryInsert(v, n, t, inum).err == OK
    requires Sum(rooms) >= n.size / DESIZE && Sum(rooms') >= DentryInsert(v, n, t, inum).n.size / DESIZE
    ensures var r, c := DentryInsert(v, n, t, inum), DirContext(0, 0, []);
      && (r.n.isDir ==> DirSized(r.n.size % U32))
      && forall x :: x in ListRun(r.v, r.n, rooms', c).out
           <==> x in ListRun(v, n, rooms, c).out || x == Listed(t, inum)
  {
    hide GoodDir, LiveList, ListRun, NameMap, DentryInsert, Pad, Sound;
    ListingIsMap(v, files, f, n, rooms);
    InsertIsUpdate(v, files, f, n, t, inum);
    InsertedSound(v, files, f, n, t, inum);
    var r := DentryInsert(v, n, t, inum);
    ListingIsMap(r.v, files[f := r.n.addrs], f, r.n, rooms');
    forall x ensures Binds(NameMap(r.v.disk, r.n), x) <==> Binds(NameMap(v.disk, n), x) || x == Listed(t, inum) {
      if Binds(NameMap(r.v.disk, r.n), x) && Pad(x.name) == Pad(t) { PadInjective(x.name, t); }
    }
  }

  lemma InsertedSound(v: Vol, files: Files, f: nat, n: Node, t: seq<byte>, inum: nat)
    requires SoundVol(v, files) && f in files && files[f] == n.addrs && GoodDir(v.disk, n)
    requires CString(t) && 0 < |t| <= DIRSIZ && 0 < inum < U16 && Pad(t) !in NameMap(v.disk, n)
    ensures v.Ok() && DirSized(n.size % U32)
    ensures var r := DentryInsert(v, n, t, inum); SoundVol(r.v, files[f := r.n.addrs])
  {
    hide GoodDir, NameMap, DentryInsert, Pad, Sound, Entry;
    forall k: nat ensures !Live(v.disk, n.addrs, k, Pad(t)) {
      if Live(v.disk, n.addrs, k, Pad(t)) {
        GoodDirSized(v, files, f, n);
        NameMapAt(v.disk, n, k);
      }
    }
    InsertSound(v, files, f, n, t, inum);
    EntryAddedSound(v, files, f, n, Dirent(inum, Pad(t)), DentryInsert(v, n, t, inum));
  }

  lemma EntryAddedSound(v: Vol, files: Files, f: nat, n: Node, de: Dirent, r: InsertResult)
    requires EntryAdded(v, files, f, n, de, r)
    ensures SoundVol(r.v, files[f := r.n.addrs])
  {
    hide SoundVol, GoodDir, Entry, SameBytes, FreeSlot, InsertSupply, SameTable, Grows;
  }
}
