/** A directory as a finite map from padded names to inode numbers. */
module DirMap {
  import opened Layout
  import opened Volumes
  import opened BlockMap
  import opened Inodes
  import opened FileData
  import opened DirIter
  import opened Directory
  import opened DirInsert

  /** The live entries before slot `end`, by name. */
  function NamesTo(disk: Disk, a: Addrs, end: nat): map<Name, ushort> {
    if end == 0 then map[]
    else if Entry(disk, a, end - 1).inum == 0 then NamesTo(disk, a, end - 1)
    else NamesTo(disk, a, end - 1)[Entry(disk, a, end - 1).name := Entry(disk, a, end - 1).inum]
  }

  /** A directory as a map. */
  function NameMap(disk: Disk, n: Node): map<Name, ushort> { NamesTo(disk, n.addrs, n.size / DESIZE) }

  lemma {:induction false} NamesToAt(disk: Disk, a: Addrs, end: nat, k: nat)
    requires GoodSlots(disk, a) && k < end && Entry(disk, a, k).inum != 0
    ensures Entry(disk, a, k).name in NamesTo(disk, a, end)
    ensures NamesTo(disk, a, end)[Entry(disk, a, k).name] == Entry(disk, a, k).inum
  {
    hide Entry, GoodSlot, Pad;
    if k >= end - 1 {
    } else {
      NamesToAt(disk, a, end - 1, k);
    }
  }

  lemma {:induction false} NamesToOnly(disk: Disk, a: Addrs, end: nat, name: Name) returns (k: nat)
    requires GoodSlots(disk, a) && name in NamesTo(disk, a, end)
    ensures k < end && Live(disk, a, k, name) && Entry(disk, a, k).inum == NamesTo(disk, a, end)[name]
  {
    hide Entry, GoodSlot;
    if Entry(disk, a, end - 1).inum != 0 && Entry(disk, a, end - 1).name == name {
      k := end - 1;
    } else {
      k := NamesToOnly(disk, a, end - 1, name);
    }
  }

  lemma NameMapAt(disk: Disk, n: Node, k: nat)
    requires GoodDir(disk, n) && |disk| > 0 && Entry(disk, n.addrs, k).inum != 0
    ensures Entry(disk, n.addrs, k).name in NameMap(disk, n)
    ensures NameMap(disk, n)[Entry(disk, n.addrs, k).name] == Entry(disk, n.addrs, k).inum
  {
    LiveInside(disk, n, k);
    NamesToAt(disk, n.addrs, n.size / DESIZE, k);
    hide Entry, ByteAt, FileBlock, NamesTo;
  }

  lemma NameMapOnly(disk: Disk, n: Node, name: Name) returns (k: nat)
    requires GoodDir(disk, n) && name in NameMap(disk, n)
    ensures k < n.size / DESIZE && Live(disk, n.addrs, k, name)
    ensures Entry(disk, n.addrs, k).inum == NameMap(disk, n)[name]
  {
    k := NamesToOnly(disk, n.addrs, n.size / DESIZE, name);
  }

  /** Lookup is map lookup, except that the entry in slot 0 is reported missing. */
  lemma FindIsLookup(v: Vol, files: Files, f: nat, n: Node, name: seq<byte>)
    requires SoundVol(v, files) && f in files && files[f] == n.addrs && GoodDir(v.disk, n)
    requires CString(name) && name != []
    ensures DirSized(n.size % U32)
    ensures var (dnum, de, err) := FindInum(v, n, name);
      var m := NameMap(v.disk, n);
      && err == OK
      && (dnum != 0 ==> Pad(name) in m && m[Pad(name)] == de.inum)
      && (dnum == 0 <==> (Pad(name) !in m || Pad(name) == Pad(Dot())))
  {
    FindSound(v, files, f, n, name);
    hide FindInum, Entry, ByteAt, Sound, NameMap, Pad;
    var (dnum, de, err) := FindInum(v, n, name);
    if dnum != 0 {
      NameMapAt(v.disk, n, dnum);
      assert Live(v.disk, n.addrs, 0, Pad(Dot()));
    } else if Pad(name) in NameMap(v.disk, n) {
      var k := NameMapOnly(v.disk, n, Pad(name));
      assert k == 0 && Live(v.disk, n.addrs, 0, Pad(Dot()));
    }
  }

  /** Two good directories whose live entries differ in one slot. */
  lemma NameMapUpdate(disk: Disk, n: Node, disk': Disk, n': Node, x: nat, de: Dirent)
    requires GoodDir(disk, n) && GoodDir(disk', n') && |disk| > 0 && |disk'| > 0
    requires Entry(disk, n.addrs, x).inum == 0 && de.inum != 0
    requires forall k: nat :: Entry(disk', n'.addrs, k) == if k == x then de else Entry(disk, n.addrs, k)
    ensures de.name !in NameMap(disk, n)
    ensures NameMap(disk', n') == NameMap(disk, n)[de.name := de.inum]
  {
    hide Entry, ByteAt, NameMap, GoodSlot;
    var m, m' := NameMap(disk, n), NameMap(disk', n');
    assert Entry(disk', n'.addrs, x) == de;
    if de.name in m {
      var k := NameMapOnly(disk, n, de.name);
      assert false;
    }
    NameMapAt(disk', n', x);
    forall name | name in m ensures name in m' && m'[name] == m[name] {
      var k := NameMapOnly(disk, n, name);
      NameMapAt(disk', n', k);
    }
    forall name | name in m' ensures name == de.name || name in m {
      var k := NameMapOnly(disk', n', name);
      if k != x { NameMapAt(disk, n, k); }
    }
    assert m'.Keys == m.Keys + {de.name};
  }

  /** Inserting a fresh name adds one binding and keeps all others. */
  lemma InsertIsUpdate(v: Vol, files: Files, f: nat, n: Node, name: seq<byte>, inum: nat)
    requires SoundVol(v, files) && f in files && files[f] == n.addrs && GoodDir(v.disk, n)
    requires CString(name) && 0 < |name| <= DIRSIZ && 0 < inum < U16
    requires Pad(name) !in NameMap(v.disk, n)
    ensures DirSized(n.size % U32)
    ensures var r := DentryInsert(v, n, name, inum);
      r.err == OK ==> GoodDir(r.v.disk, r.n) && NameMap(r.v.disk, r.n) == NameMap(v.disk, n)[Pad(name) := inum]
  {
    forall k: nat ensures !Live(v.disk, n.addrs, k, Pad(name)) {
      if Live(v.disk, n.addrs, k, Pad(name)) { NameMapAt(v.disk, n, k); }
    }
    InsertSound(v, files, f, n, name, inum);
    hide DentryInsert, Entry, ByteAt, Sound, NameMap, GoodDir, Pad, FreeSlot;
    var r := DentryInsert(v, n, name, inum);
    if r.err == OK {
      NameMapUpdate(v.disk, n, r.v.disk, r.n, FreeSlot(v.disk, n), Dirent(inum, Pad(name)));
    }
  }

  /** Erasing slot `k`, not one of the first two, leaves a good directory. */
  lemma GoodAfterErase(disk: Disk, n: Node, disk': Disk, k: nat)
    requires GoodDir(disk, n) && 2 <= k < n.size / DESIZE
    requires Spliced(disk, n.addrs, disk', n.addrs, DESIZE * k, EncodeDirent(Erased()))
    ensures GoodDir(disk', n)
    ensures forall j: nat :: Entry(disk', n.addrs, j) == if j == k then Erased() else Entry(disk, n.addrs, j)
  {
    hide ByteAt, EncodeDirent, Entry, Padded, Pad;
    forall j: nat ensures Entry(disk', n.addrs, j) == if j == k then Erased() else Entry(disk, n.addrs, j) {
      SplicedEntry(disk, n.addrs, disk', n.addrs, k, Erased(), j);
    }
    TailAfterSplice(disk, n.addrs, n.size, disk', n.addrs, n.size, DESIZE * k, EncodeDirent(Erased()));
  }

  /** Erasing removes the binding of the name and keeps all others; `.` and `..`
      are never erased, and a missing name changes nothing. */
  lemma EraseIsRemove(v: Vol, files: Files, f: nat, n: Node, name: seq<byte>)
    requires SoundVol(v, files) && f in files && files[f] == n.addrs && GoodDir(v.disk, n)
    requires CString(name) && name != []
    ensures DirSized(n.size % U32)
    ensures var (v', err) := DirErase(v, n, name);
      && (err == OK <==> Pad(name) in NameMap(v.disk, n) && Pad(name) !in {Pad(Dot()), Pad(DotDot())})
      && (err == OK ==> GoodDir(v'.disk, n) && NameMap(v'.disk, n) == NameMap(v.disk, n) - {Pad(name)})
      && (err != OK ==> err == ENOENT && v' == v)
  {
    EraseSound(v, files, f, n, name);
    hide DirErase, Entry, ByteAt, Sound, NameMap, Pad, EncodeDirent;
    var m := NameMap(v.disk, n);
    if Pad(name) in m {
      var k := NameMapOnly(v.disk, n, Pad(name));
      assert Live(v.disk, n.addrs, 0, Pad(Dot())) && Live(v.disk, n.addrs, 1, Pad(DotDot()));
      if k >= 2 {
        var v' := DirErase(v, n, name).0;
        assert ErasedAt(v, files, f, n, k, v');
        GoodAfterErase(v.disk, n, v'.disk, k);
        NameMapRemove(v, v', n, k, Pad(name));
      } else {
        OthersNotLive(v.disk, n, k, name);
      }
    } else {
      forall k: nat ensures !Live(v.disk, n.addrs, k, Pad(name)) {
        if Live(v.disk, n.addrs, k, Pad(name)) { NameMapAt(v.disk, n, k); }
      }
    }
  }

  lemma NameMapRemove(v: Vol, v': Vol, n: Node, k: nat, name: Name)
    requires GoodDir(v.disk, n) && GoodDir(v'.disk, n) && |v.disk| > 0 && |v'.disk| > 0
    requires Live(v.disk, n.addrs, k, name)
    requires forall j: nat :: Entry(v'.disk, n.addrs, j) == if j == k then Erased() else Entry(v.disk, n.addrs, j)
    ensures NameMap(v'.disk, n) == NameMap(v.disk, n) - {name}
  {
    hide Entry, ByteAt, NameMap, GoodSlot;
    var m, m' := NameMap(v.disk, n), NameMap(v'.disk, n);
    forall x | x in m && x != name ensures x in m' && m'[x] == m[x] {
      var j := NameMapOnly(v.disk, n, x);
      NameMapAt(v'.disk, n, j);
    }
    forall x | x in m' ensures x in m && x != name {
      var j := NameMapOnly(v'.disk, n, x);
      NameMapAt(v.disk, n, j);
    }
    assert m'.Keys == m.Keys - {name};
  }
}
