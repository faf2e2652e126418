/** The building blocks of the namespace operations keep the file system in order:
    inserting and erasing an entry, preparing and releasing an inode. */
module NsSteps {
  import opened Layout
  import opened Volumes
  import opened Allocator
  import opened BlockMap
  import opened Inodes
  import opened FileData
  import opened DirIter
  import opened Directory
  import opened DirInsert
  import opened DirMap
  import opened Namespace
  import opened NsProof

  /** No live entry of directory `d` has this name. */
  ghost predicate FreshName(fs: Fs, d: nat, name: seq<byte>)
    requires d in fs.nodes
  {
    forall k: nat :: !Live(fs.v.disk, fs.nodes[d].addrs, k, Pad(name))
  }

  /** In directory `d`, slot `k` is the entry under this name, and names `f`. */
  ghost predicate Names(fs: Fs, d: nat, name: seq<byte>, k: nat, f: nat) {
    && d in fs.nodes && fs.nodes[d].isDir
    && k >= 2 && Live(fs.v.disk, fs.nodes[d].addrs, k, Pad(name))
    && LinkAt(fs, Place(d, k)) == f
  }

  lemma FreshLive(fs: Fs, d: nat, name: seq<byte>)
    requires d in fs.nodes && FreshName(fs, d, name)
    ensures forall k: nat :: !Live(fs.v.disk, fs.nodes[d].addrs, k, Pad(name))
  {}

  lemma NamesParts(fs: Fs, d: nat, name: seq<byte>, k: nat, f: nat)
    requires Names(fs, d, name, k, f)
    ensures d in fs.nodes && fs.nodes[d].isDir && k >= 2 && Live(fs.v.disk, fs.nodes[d].addrs, k, Pad(name))
    ensures Entry(fs.v.disk, fs.nodes[d].addrs, k).inum != 0
  {
    hide Entry, Pad;
  }

  lemma MapsAt(fs: Fs, f: nat, n: Node)
    ensures Maps(Fs(fs.v, fs.nodes[f := n])) == Maps(fs)[f := n.addrs]
  {}

  /** All links but those of `d` stay. */
  lemma OtherLinks(fs: Fs, fs': Fs, d: nat, p: Place)
    requires p.d != d && fs'.nodes.Keys == fs.nodes.Keys
    requires forall f :: f in fs.nodes && f != d ==> SameNode(fs.v, fs.nodes[f], fs'.v, fs'.nodes[f])
    ensures LinkAt(fs', p) == LinkAt(fs, p)
  {
    hide SameNode, Entry;
    if p.d in fs.nodes { LinkAtSame(fs, fs', p); }
  }

  // ----- inserting -----

  /** Inserting a fresh name that is not too long: the file system stays in order,
      and either exactly one free slot of `d` becomes a link to `f`, or nothing
      that is read changes. */
  lemma InsertKeeps(fs: Fs, d: nat, name: seq<byte>, f: nat)
    requires Base(fs) && d in fs.nodes && fs.nodes[d].isDir
    requires CString(name) && 0 < |name| <= DIRSIZ && FreshName(fs, d, name) && 0 < f < U16
    ensures DirSized(fs.nodes[d].size % U32)
    ensures var r := DentryInsert(fs.v, fs.nodes[d], name, f);
      var fs' := Fs(r.v, fs.nodes[d := r.n]);
      && Base(fs') && r.v.g == fs.v.g && KindsKept(fs.nodes, fs.v, r.v)
      && r.err == InsertSupply(fs.v, fs.nodes[d]) && r.n.nlink == fs.nodes[d].nlink && r.n.isDir
      && (r.err == OK ==> LinkAdded(fs, fs', Place(d, FreeSlot(fs.v.disk, fs.nodes[d])), f))
      && (r.err != OK ==> forall p :: LinkAt(fs', p) == LinkAt(fs, p))
  {
    NodeIn(fs, d);
    var n := fs.nodes[d];
    InsertSound(fs.v, Maps(fs), d, n, name, f);
    hide DentryInsert, Sound, GoodDir, UsedSet, Used, Pick, Pad, Entry, DinodeAt, LinkAt, SameBytes, FreeSlot, Base,
         InsertSupply;
    var r := DentryInsert(fs.v, n, name, f);
    var fs' := Fs(r.v, fs.nodes[d := r.n]);
    MapsAt(fs, d, r.n);
    MapsAt(Fs(r.v, fs.nodes), d, r.n);
    TableKindsKept(fs.nodes, fs.v, r.v);
    InsertBase(fs, d, Dirent(f, Pad(name)), r);
    InsertLinks(fs, d, Dirent(f, Pad(name)), r);
  }

  lemma InsertBase(fs: Fs, d: nat, de: Dirent, r: InsertResult)
    requires Base(fs) && d in fs.nodes && fs.nodes[d].isDir && KindsKept(fs.nodes, fs.v, r.v)
    requires EntryAdded(fs.v, Maps(fs), d, fs.nodes[d], de, r)
    ensures Base(Fs(r.v, fs.nodes[d := r.n])) && r.n.isDir
  {
    hide Sound, UsedSet, Used, Pick, Entry, DinodeAt, GoodSlots, ByteAt, KindsKept, ZeroTail, FreeSlot;
    var fs' := Fs(r.v, fs.nodes[d := r.n]);
    assert Maps(fs') == Maps(fs)[d := r.n.addrs];
    forall f | f in fs.nodes && f != d ensures SameNode(fs.v, fs.nodes[f], fs'.v, fs'.nodes[f]) {
      assert SameBytes(fs.v.disk, Maps(fs)[f], r.v.disk, Maps(fs)[f]);
    }
    if r.err != OK {
      NodeIn(fs, d);
      GoodDirSame(fs.v.disk, fs.nodes[d], r.v.disk, r.n);
    }
    assert forall g :: g in fs'.nodes ==> g in fs.nodes;
    KindsSub(fs.nodes, fs'.nodes, fs.v, r.v);
    BaseKept(fs, fs', d);
  }

  lemma KindsSub(nodes: map<nat, Node>, nodes': map<nat, Node>, v: Vol, v': Vol)
    requires KindsKept(nodes, v, v') && nodes'.Keys <= nodes.Keys
    ensures KindsKept(nodes', v, v')
  {
    hide DinodeAt;
  }

  lemma InsertLinks(fs: Fs, d: nat, de: Dirent, r: InsertResult)
    requires Base(fs) && d in fs.nodes && fs.nodes[d].isDir && de.inum != 0 && r.n.isDir
    requires EntryAdded(fs.v, Maps(fs), d, fs.nodes[d], de, r)
    ensures var fs' := Fs(r.v, fs.nodes[d := r.n]);
      && (r.err == OK ==> LinkAdded(fs, fs', Place(d, FreeSlot(fs.v.disk, fs.nodes[d])), de.inum))
      && (r.err != OK ==> forall p :: LinkAt(fs', p) == LinkAt(fs, p))
  {
    hide Sound, UsedSet, Used, Pick, Entry, DinodeAt, GoodSlots, ByteAt, ZeroTail, FreeSlot;
    var fs' := Fs(r.v, fs.nodes[d := r.n]);
    forall f | f in fs.nodes && f != d ensures SameNode(fs.v, fs.nodes[f], fs'.v, fs'.nodes[f]) {
      assert SameBytes(fs.v.disk, Maps(fs)[f], r.v.disk, Maps(fs)[f]);
    }
    forall p: Place | p.d != d ensures LinkAt(fs', p) == LinkAt(fs, p) {
      OtherLinks(fs, fs', d, p);
    }
    if r.err == OK {
      NodeIn(fs, d);
      FirstTwoTaken(fs.v.disk, fs.nodes[d], FreeSlot(fs.v.disk, fs.nodes[d]));
    } else {
      forall k: nat ensures Entry(r.v.disk, r.n.addrs, k) == Entry(fs.v.disk, fs.nodes[d].addrs, k) {
        SameEntry(fs.v.disk, fs.nodes[d].addrs, r.v.disk, r.n.addrs, k);
      }
    }
  }

  lemma FirstTwoTaken(disk: Disk, n: Node, x: nat)
    requires GoodDir(disk, n) && Entry(disk, n.addrs, x).inum == 0
    ensures x >= 2
  {
    hide Entry;
  }

  // ----- erasing -----

  /** Erasing the entry under a name: the file system stays in order and exactly
      that link is gone. */
  lemma EraseKeeps(fs: Fs, d: nat, name: seq<byte>, k: nat, f: nat)
    requires Base(fs) && Names(fs, d, name, k, f) && CString(name) && name != []
    ensures DirSized(fs.nodes[d].size % U32)
    ensures var (v', err) := DirErase(fs.v, fs.nodes[d], name);
      && err == OK && v'.g == fs.v.g && KindsKept(fs.nodes, fs.v, v') && SameRoom(fs.v, v', Maps(fs))
      && Base(Fs(v', fs.nodes)) && LinkAdded(Fs(v', fs.nodes), fs, Place(d, k), f)
      && (forall j: nat ::
            Entry(v'.disk, fs.nodes[d].addrs, j) == if j == k then Erased() else Entry(fs.v.disk, fs.nodes[d].addrs, j))
      && (forall e :: e in fs.nodes && e != d ==> SameNode(fs.v, fs.nodes[e], v', fs.nodes[e]))
  {
    NodeIn(fs, d);
    var n := fs.nodes[d];
    EraseSound(fs.v, Maps(fs), d, n, name);
    hide DirErase, Sound, UsedSet, Used, Pad, Entry, DinodeAt, ByteAt, GoodSlots, ZeroTail, Spliced, KindsKept;
    var v' := DirErase(fs.v, n, name).0;
    assert ErasedAt(fs.v, Maps(fs), d, n, k, v');
    TableKindsKept(fs.nodes, fs.v, v');
    ErasedKeeps(fs, d, k, v');
  }

  lemma ErasedKeeps(fs: Fs, d: nat, k: nat, v': Vol)
    requires Base(fs) && d in fs.nodes && fs.nodes[d].isDir && k >= 2 && KindsKept(fs.nodes, fs.v, v')
    requires Entry(fs.v.disk, fs.nodes[d].addrs, k).inum != 0
    requires ErasedAt(fs.v, Maps(fs), d, fs.nodes[d], k, v')
    ensures Base(Fs(v', fs.nodes)) && LinkAdded(Fs(v', fs.nodes), fs, Place(d, k), LinkAt(fs, Place(d, k)))
    ensures forall j: nat ::
      Entry(v'.disk, fs.nodes[d].addrs, j) == if j == k then Erased() else Entry(fs.v.disk, fs.nodes[d].addrs, j)
    ensures forall e :: e in fs.nodes && e != d ==> SameNode(fs.v, fs.nodes[e], v', fs.nodes[e])
  {
    hide Sound, UsedSet, Used, Pad, Entry, DinodeAt, ByteAt, GoodSlots, ZeroTail, Spliced, KindsKept, EncodeDirent;
    var fs' := Fs(v', fs.nodes);
    assert Maps(fs') == Maps(fs);
    forall e | e in fs.nodes && e != d ensures SameNode(fs.v, fs.nodes[e], v', fs.nodes[e]) {
      assert SameBytes(fs.v.disk, Maps(fs)[e], v'.disk, Maps(fs)[e]);
    }
    NodeIn(fs, d);
    GoodAfterErase(fs.v.disk, fs.nodes[d], v'.disk, k);
    BaseKept(fs, fs', d);
    forall p: Place | p.d != d ensures LinkAt(fs', p) == LinkAt(fs, p) {
      OtherLinks(fs, fs', d, p);
    }
  }

  // ----- records -----

  /** Storing a record keeps the file system in order, whatever happens to the one
      inode concerned, if it is not among `nodes`. */
  lemma RecordKeeps(fs: Fs, f: nat, di: Dinode)
    requires Base(fs) && f < TableSize(fs.v.g) && (f in fs.nodes ==> di.kind == DinodeAt(fs.v.g, fs.v.disk, f).kind)
    ensures Base(Fs(PutInode(fs.v, f, di), fs.nodes))
    ensures forall e :: e in fs.nodes ==> SameNode(fs.v, fs.nodes[e], PutInode(fs.v, f, di), fs.nodes[e])
    ensures forall p :: LinkAt(Fs(PutInode(fs.v, f, di), fs.nodes), p) == LinkAt(fs, p)
  {
    hide PutInode, Sound, UsedSet, Used, Entry, DinodeAt, ByteAt, GoodDir;
    PutInodeSafe(fs.v, Maps(fs), f, di);
    PutInodeEffect(fs.v, f, di);
    var fs' := Fs(PutInode(fs.v, f, di), fs.nodes);
    assert Maps(fs') == Maps(fs);
    forall e | e in fs.nodes ensures SameNode(fs.v, fs.nodes[e], fs'.v, fs'.nodes[e]) {
      assert SameBytes(fs.v.disk, Maps(fs)[e], fs'.v.disk, Maps(fs)[e]);
    }
    hide SameBytes, SameContents, SameSlots;
    BaseSame(fs, fs');
    AllLinksSame(fs, fs');
  }

  lemma AllLinksSame(fs: Fs, fs': Fs)
    requires fs'.nodes.Keys == fs.nodes.Keys
    requires forall e :: e in fs.nodes ==> SameNode(fs.v, fs.nodes[e], fs'.v, fs'.nodes[e])
    ensures forall p :: LinkAt(fs', p) == LinkAt(fs, p)
  {
    hide SameNode, Entry;
    forall p ensures LinkAt(fs', p) == LinkAt(fs, p) {
      if p.d in fs.nodes { LinkAtSame(fs, fs', p); }
    }
  }

  // ----- releasing an inode -----

  lemma FreeAllTable(v: Vol, bs: seq<uint>)
    requires v.Sized() && forall b :: b in bs && b != 0 ==> v.g.IsData(b)
    ensures SameTable(v.g, v.disk, FreeAll(v, bs).disk)
  {
    FreeAllEffect(v, bs);
    hide FreeAll, UsedSet;
  }

  /** Freeing everything an inode holds keeps the rest of the file system in order
      and readable. */
  lemma FreeKeeps(fs: Fs, f: nat)
    requires Base(fs) && f in fs.nodes && f != ROOTINO
    ensures Clearable(fs, f)
    ensures var v' := FreeAll(fs.v, Held(fs.v.disk, fs.nodes[f].addrs));
      && Base(Fs(v', fs.nodes - {f})) && HasRecord(v', f)
      && forall e :: e in fs.nodes && e != f ==> SameNode(fs.v, fs.nodes[e], v', fs.nodes[e])
  {
    hide FreeAll, Held, Sound, UsedSet, Used, DinodeAt, GoodDir, Refs, SameContents, Base, SameNode;
    ReleaseInOrder(fs, f);
    var bs := Held(fs.v.disk, fs.nodes[f].addrs);
    FreeAllTable(fs.v, bs);
    FreedInOrder(fs, f, FreeAll(fs.v, bs));
  }

  lemma ReleaseInOrder(fs: Fs, f: nat)
    requires Base(fs) && f in fs.nodes
    ensures Clearable(fs, f) && fs.v.Ok()
    ensures var v' := FreeAll(fs.v, Held(fs.v.disk, fs.nodes[f].addrs));
      && SoundVol(v', Maps(fs) - {f})
      && SameContents(fs.v.disk, Maps(fs) - {f}, v'.disk, Maps(fs) - {f})
  {
    ReleaseExact(fs.v, Maps(fs), f);
    hide FreeAll, Held, SoundVol, Refs, SameContents;
  }

  lemma FreedInOrder(fs: Fs, f: nat, v': Vol)
    requires Base(fs) && f in fs.nodes && f != ROOTINO && v'.g == fs.v.g
    requires SoundVol(v', Maps(fs) - {f}) && SameTable(fs.v.g, fs.v.disk, v'.disk)
    requires SameContents(fs.v.disk, Maps(fs) - {f}, v'.disk, Maps(fs) - {f})
    ensures Base(Fs(v', fs.nodes - {f})) && v'.Sized() && HasRecord(v', f)
    ensures forall e :: e in fs.nodes && e != f ==> SameNode(fs.v, fs.nodes[e], v', fs.nodes[e])
  {
    hide Sound, UsedSet, Used, DinodeAt, ByteAt, GoodDir;
    NodeIn(fs, f);
    var fs' := Fs(v', fs.nodes - {f});
    assert Maps(fs') == Maps(fs) - {f};
    forall e | e in fs.nodes && e != f ensures SameNode(fs.v, fs.nodes[e], v', fs.nodes[e]) {
      assert SameBytes(fs.v.disk, (Maps(fs) - {f})[e], v'.disk, (Maps(fs) - {f})[e]);
    }
    hide SameBytes, SameContents, SameTable;
    TableKindsKept(fs.nodes, fs.v, v');
    KindsSub(fs.nodes, fs'.nodes, fs.v, v');
    BaseSame(fs, fs');
  }

  /** `xv6_inode_clear` keeps the rest of the file system in order and readable. */
  lemma ClearKeeps(fs: Fs, f: nat, n: Node)
    requires Base(fs) && f in fs.nodes && f != ROOTINO && n.addrs == fs.nodes[f].addrs
    ensures Clearable(fs, f) && f < TableSize(fs.v.g)
    ensures Base(Fs(ClearInode(fs.v, f, n), fs.nodes - {f}))
    ensures forall e :: e in fs.nodes && e != f ==> SameNode(fs.v, fs.nodes[e], ClearInode(fs.v, f, n), fs.nodes[e])
  {
    hide FreeAll, Held, Base, DinodeAt, PutInode, SameNode;
    FreeKeeps(fs, f);
    NodeIn(fs, f);
    var v1 := FreeAll(fs.v, Held(fs.v.disk, fs.nodes[f].addrs));
    var n' := n.(addrs := NoAddrs(), size := 0);
    var di := DinodeAt(v1.g, v1.disk, f).(addrs := n'.addrs, size := n'.size % U32, nlink := n'.nlink % U16);
    RecordKeeps(Fs(v1, fs.nodes - {f}), f, di);
    forall e | e in fs.nodes && e != f ensures SameNode(fs.v, fs.nodes[e], ClearInode(fs.v, f, n), fs.nodes[e]) {
      assert (fs.nodes - {f})[e] == fs.nodes[e];
      SameNodeTrans(fs.v, v1, ClearInode(fs.v, f, n), fs.nodes[e]);
    }
  }

  lemma SameNodeTrans(v: Vol, v': Vol, v'': Vol, n: Node)
    requires SameNode(v, n, v', n) && SameNode(v', n, v'', n)
    ensures SameNode(v, n, v'', n)
  {
    hide ByteAt;
  }
}
