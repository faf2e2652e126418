/** What every namespace operation keeps: the block invariant, good directories,
    and link counts that agree with the directory entries. */
module NsProof {
  import opened Layout
  import opened Volumes
  import opened BlockMap
  import opened Inodes
  import opened FileData
  import opened DirIter
  import opened Directory
  import opened Namespace

  // ----- the invariant -----

  /** Inode `f` has a record, and it is in use. */
  predicate HasRecord(v: Vol, f: nat)
    requires v.Sized()
  {
    0 < f < TableSize(v.g) && DinodeAt(v.g, v.disk, f).kind != 0
  }

  ghost predicate GoodNode(fs: Fs, f: nat)
    requires fs.v.Ok() && f in fs.nodes
  {
    && HasRecord(fs.v, f) && (DinodeAt(fs.v.g, fs.v.disk, f).kind == T_DIR <==> fs.nodes[f].isDir)
    && (fs.nodes[f].isDir ==> GoodDir(fs.v.disk, fs.nodes[f]))
  }

  ghost predicate GoodNodes(fs: Fs) {
    fs.v.Ok() && forall f {:trigger GoodNode(fs, f)} :: f in fs.nodes ==> GoodNode(fs, f)
  }

  /** Blocks, inode records and directories are in order. */
  ghost predicate Base(fs: Fs) {
    && SoundVol(fs.v, Maps(fs)) && GoodNodes(fs)
    && ROOTINO in fs.nodes && fs.nodes[ROOTINO].isDir
  }

  /** A place for a link: slot `k` of directory `d`. */
  datatype Place = Place(d: nat, k: nat)

  /** The inode that a place names; 0 for a free slot, for `.` and `..`, and for
      what is no directory. */
  function LinkAt(fs: Fs, p: Place): nat {
    if p.d in fs.nodes && fs.nodes[p.d].isDir && p.k >= 2 then Entry(fs.v.disk, fs.nodes[p.d].addrs, p.k).inum else 0
  }

  /** The directory entries naming `f`, other than `.` and `..`. */
  function Links(fs: Fs, f: nat): set<Place> {
    set d: nat, k: nat | d in fs.nodes && k < MAXENTS && LinkAt(fs, Place(d, k)) == f :: Place(d, k)
  }

  /** Every entry names a live inode other than the root. */
  ghost predicate NoDangling(fs: Fs) {
    forall p :: LinkAt(fs, p) != 0 ==> LinkAt(fs, p) in fs.nodes && LinkAt(fs, p) != ROOTINO
  }

  /** How far the link count of an inode is above the number of its entries. */
  function Excess(fs: Fs, f: nat): int
    requires f in fs.nodes
  {
    fs.nodes[f].nlink - |Links(fs, f)|
  }

  /** Holds in every state: no inode has more entries than its link count says. */
  ghost predicate Inv(fs: Fs) {
    Base(fs) && NoDangling(fs) && forall f :: f in fs.nodes && f != ROOTINO ==> Excess(fs, f) >= 0
  }

  /** The link count of every inode but the root is the number of its entries. */
  ghost predicate Exact(fs: Fs) {
    forall f :: f in fs.nodes && f != ROOTINO ==> Excess(fs, f) == 0
  }

  /** What is known of one inode. */
  lemma NodeIn(fs: Fs, f: nat)
    requires Base(fs) && f in fs.nodes
    ensures fs.v.Ok() && 0 < f < TableSize(fs.v.g) <= U16 && HasRecord(fs.v, f)
    ensures DinodeAt(fs.v.g, fs.v.disk, f).kind == T_DIR <==> fs.nodes[f].isDir
    ensures fs.nodes[f].isDir ==> GoodDir(fs.v.disk, fs.nodes[f])
  {
    hide SoundVol, GoodDir, DinodeAt;
    assert GoodNode(fs, f);
  }

  // ----- links as sets -----

  /** All live entries lie within the reach of the block map. */
  lemma LinksMember(fs: Fs, f: nat, p: Place)
    requires Base(fs) && f != 0
    ensures p in Links(fs, f) <==> LinkAt(fs, p) == f
  {
    if LinkAt(fs, p) == f {
      NodeIn(fs, p.d);
      LiveInside(fs.v.disk, fs.nodes[p.d], p.k);
    }
    hide Entry, Sound, DinodeAt, FileBlock, GoodSlots, ZeroTail, SoundVol;
    assert p == Place(p.d, p.k);
  }

  lemma LinksSame(fs: Fs, fs': Fs, f: nat)
    requires Base(fs) && Base(fs') && f != 0
    requires forall p :: LinkAt(fs, p) == f <==> LinkAt(fs', p) == f
    ensures Links(fs', f) == Links(fs, f)
  {
    hide LinkAt, Base, Links;
    forall p ensures p in Links(fs', f) <==> p in Links(fs, f) {
      LinksMember(fs, f, p);
      LinksMember(fs', f, p);
    }
  }

  /** `fs'` has one more link than `fs`: the free slot `p` now names `f`. */
  ghost predicate LinkAdded(fs: Fs, fs': Fs, p: Place, f: nat) {
    && LinkAt(fs, p) == 0 && LinkAt(fs', p) == f != 0
    && forall q :: q != p ==> LinkAt(fs', q) == LinkAt(fs, q)
  }

  lemma LinksAdded(fs: Fs, fs': Fs, p: Place, f: nat)
    requires Base(fs) && Base(fs') && LinkAdded(fs, fs', p, f)
    ensures p !in Links(fs, f) && Links(fs', f) == Links(fs, f) + {p}
    ensures forall g :: g != f && g != 0 ==> Links(fs', g) == Links(fs, g)
  {
    hide LinkAt, Base, Links;
    LinksMember(fs, f, p);
    forall q ensures q in Links(fs', f) <==> q in Links(fs, f) + {p} {
      LinksMember(fs, f, q);
      LinksMember(fs', f, q);
    }
    forall g | g != f && g != 0 ensures Links(fs', g) == Links(fs, g) { LinksSame(fs, fs', g); }
  }

  // ----- frames -----

  lemma GoodDirSame(disk: Disk, n: Node, disk': Disk, n': Node)
    requires GoodDir(disk, n) && SameBytes(disk, n.addrs, disk', n'.addrs)
    requires n'.isDir && n'.size == n.size
    ensures GoodDir(disk', n')
  {
    hide ByteAt, Entry, GoodSlot, Pad;
    forall k: nat ensures Entry(disk', n'.addrs, k) == Entry(disk, n.addrs, k) {
      SameEntry(disk, n.addrs, disk', n'.addrs, k);
    }
  }

  /** A file reads the same, and has the same kind and size. */
  ghost predicate SameNode(v: Vol, n: Node, v': Vol, n': Node) {
    SameBytes(v.disk, n.addrs, v'.disk, n'.addrs) && n'.isDir == n.isDir && n'.size == n.size
  }

  /** Directories that read the same have the same links. */
  lemma LinkAtSame(fs: Fs, fs': Fs, p: Place)
    requires p.d in fs.nodes && p.d in fs'.nodes && SameNode(fs.v, fs.nodes[p.d], fs'.v, fs'.nodes[p.d])
    ensures LinkAt(fs', p) == LinkAt(fs, p)
  {
    SameEntry(fs.v.disk, fs.nodes[p.d].addrs, fs'.v.disk, fs'.nodes[p.d].addrs, p.k);
    hide Entry, ByteAt;
  }

  /** No record of these inodes has become free, or of another kind. */
  ghost predicate KindsKept(nodes: map<nat, Node>, v: Vol, v': Vol) {
    && v.Sized() && v'.Sized() && v'.g == v.g
    && forall f :: f in nodes && HasRecord(v, f) ==>
         HasRecord(v', f) && DinodeAt(v.g, v'.disk, f).kind == DinodeAt(v.g, v.disk, f).kind
  }

  lemma TableKindsKept(nodes: map<nat, Node>, v: Vol, v': Vol)
    requires v.Sized() && v'.Sized() && v'.g == v.g && SameTable(v.g, v.disk, v'.disk)
    ensures KindsKept(nodes, v, v')
  {
    DinodeFrame(v.g, v.disk, v'.disk);
    hide DinodeAt;
  }

  /** Base survives when every inode but at most one reads the same and the records
      in use stay in use. */
  lemma BaseKept(fs: Fs, fs': Fs, e: nat)
    requires Base(fs) && SoundVol(fs'.v, Maps(fs')) && KindsKept(fs'.nodes, fs.v, fs'.v)
    requires fs'.nodes.Keys <= fs.nodes.Keys && ROOTINO in fs'.nodes
    requires forall f :: f in fs'.nodes && f != e ==> SameNode(fs.v, fs.nodes[f], fs'.v, fs'.nodes[f])
    requires e in fs'.nodes ==> fs'.nodes[e].isDir == fs.nodes[e].isDir
    requires e in fs'.nodes && fs.nodes[e].isDir ==> GoodDir(fs'.v.disk, fs'.nodes[e])
    ensures Base(fs')
  {
    hide GoodDir, SameNode, DinodeAt, Sound, UsedSet;
    forall f | f in fs'.nodes
      ensures fs'.nodes[f].isDir == fs.nodes[f].isDir && GoodNode(fs', f)
    {
      NodeIn(fs, f);
      if f != e { NodeKept(fs, fs', f); }
    }
  }

  lemma BaseSame(fs: Fs, fs': Fs)
    requires Base(fs) && SoundVol(fs'.v, Maps(fs')) && KindsKept(fs'.nodes, fs.v, fs'.v)
    requires fs'.nodes.Keys <= fs.nodes.Keys && ROOTINO in fs'.nodes
    requires forall f :: f in fs'.nodes ==> SameNode(fs.v, fs.nodes[f], fs'.v, fs'.nodes[f])
    ensures Base(fs')
  {
    hide Base, SoundVol, SameNode, KindsKept, GoodDir;
    BaseNoNull(fs);
    BaseKept(fs, fs', 0);
  }

  lemma NodeKept(fs: Fs, fs': Fs, f: nat)
    requires f in fs.nodes && f in fs'.nodes && SameNode(fs.v, fs.nodes[f], fs'.v, fs'.nodes[f])
    ensures fs'.nodes[f].isDir == fs.nodes[f].isDir
    ensures fs.nodes[f].isDir && GoodDir(fs.v.disk, fs.nodes[f]) ==> GoodDir(fs'.v.disk, fs'.nodes[f])
  {
    hide GoodDir, ByteAt;
    if fs.nodes[f].isDir && GoodDir(fs.v.disk, fs.nodes[f]) {
      GoodDirSame(fs.v.disk, fs.nodes[f], fs'.v.disk, fs'.nodes[f]);
    }
  }

  // ----- adding and dropping links -----

  /** The excess of `f` has gone up by `delta`; that of all others is the same, and
      an inode that is new has none. */
  ghost predicate ExcessMoved(fs: Fs, fs': Fs, f: nat, delta: int) {
    forall g :: g in fs'.nodes && g != ROOTINO ==>
      Excess(fs', g) == (if g in fs.nodes then Excess(fs, g) else 0) + (if g == f then delta else 0)
  }

  /** A step that keeps the invariant and every excess. */
  ghost predicate Steady(fs: Fs, fs': Fs) { Inv(fs') && ExcessMoved(fs, fs', 0, 0) }

  /** Link counts of all inodes but `f` are the same. */
  ghost predicate SameCounts(fs: Fs, fs': Fs, f: nat) {
    forall g :: g in fs'.nodes && g != f ==> g in fs.nodes && fs'.nodes[g].nlink == fs.nodes[g].nlink
  }

  lemma BaseNoNull(fs: Fs)
    requires Base(fs)
    ensures 0 !in fs.nodes
  {
    hide Base;
    if 0 in fs.nodes { NodeIn(fs, 0); }
  }

  lemma ExcessKept(fs: Fs, fs': Fs, f: nat, delta: int)
    requires Inv(fs) && Base(fs') && NoDangling(fs') && ExcessMoved(fs, fs', f, delta) && delta >= 0
    ensures Inv(fs')
  {
    hide Base, NoDangling, Excess;
  }

  lemma SteadySame(fs: Fs, fs': Fs)
    requires Inv(fs) && Base(fs')
    requires fs'.nodes.Keys == fs.nodes.Keys && SameCounts(fs, fs', 0)
    requires forall p :: LinkAt(fs', p) == LinkAt(fs, p)
    ensures Steady(fs, fs')
  {
    hide LinkAt, Links, Base;
    BaseNoNull(fs);
    forall f | f in fs'.nodes && f != ROOTINO ensures Excess(fs', f) == Excess(fs, f) {
      LinksSame(fs, fs', f);
    }
    ExcessKept(fs, fs', 0, 0);
  }

  lemma SteadyAdd(fs: Fs, fs': Fs, p: Place, f: nat)
    requires Inv(fs) && Base(fs') && LinkAdded(fs, fs', p, f) && f != ROOTINO
    requires fs'.nodes.Keys == fs.nodes.Keys + {f} && SameCounts(fs, fs', f)
    requires fs'.nodes[f].nlink == 1 + if f in fs.nodes then fs.nodes[f].nlink else 0
    ensures Steady(fs, fs')
  {
    hide LinkAt, Links, Base;
    DanglingAfterAdd(fs, fs', p, f);
    LinksAdded(fs, fs', p, f);
    if f !in fs.nodes { NoLinks(fs, f); }
    BaseNoNull(fs');
    hide LinkAdded, NoDangling;
    ExcessKept(fs, fs', 0, 0);
  }

  lemma NoLinks(fs: Fs, f: nat)
    requires Base(fs) && NoDangling(fs) && f !in fs.nodes && f != 0
    ensures |Links(fs, f)| == 0
  {
    hide LinkAt, Links, Base;
    forall p ensures p !in Links(fs, f) { LinksMember(fs, f, p); }
    assert Links(fs, f) == {};
  }

  lemma DanglingAfterAdd(fs: Fs, fs': Fs, p: Place, f: nat)
    requires LinkAdded(fs, fs', p, f) && f != ROOTINO
    requires f in fs'.nodes && fs.nodes.Keys <= fs'.nodes.Keys && NoDangling(fs)
    ensures NoDangling(fs')
  {
    hide LinkAt;
  }

  lemma DanglingAfterDrop(fs: Fs, fs': Fs, p: Place, f: nat)
    requires LinkAdded(fs', fs, p, f) && NoDangling(fs)
    ensures forall q :: LinkAt(fs', q) != 0 ==> LinkAt(fs', q) in fs.nodes && LinkAt(fs', q) != ROOTINO
  {
    hide LinkAt;
  }

  /** Dropping a link: the count goes down with it, or stays behind. */
  lemma ExcessDrop(fs: Fs, fs': Fs, p: Place, f: nat)
    requires Inv(fs) && Base(fs') && LinkAdded(fs', fs, p, f) && f in fs.nodes
    requires fs'.nodes.Keys == fs.nodes.Keys && SameCounts(fs, fs', f)
    requires 0 <= fs'.nodes[f].nlink - (fs.nodes[f].nlink - 1) <= 1
    ensures Inv(fs') && ExcessMoved(fs, fs', f, fs'.nodes[f].nlink - (fs.nodes[f].nlink - 1))
  {
    hide LinkAt, Links, Base;
    assert NoDangling(fs') by { DanglingAfterDrop(fs, fs', p, f); }
    LinksAdded(fs', fs, p, f);
    BaseNoNull(fs);
    hide LinkAdded, NoDangling;
    ExcessKept(fs, fs', f, fs'.nodes[f].nlink - (fs.nodes[f].nlink - 1));
  }

  /** Dropping the last link to an inode together with the inode. */
  lemma SteadyDropLast(fs: Fs, fs': Fs, p: Place, f: nat)
    requires Inv(fs) && Base(fs') && LinkAdded(fs', fs, p, f) && f in fs.nodes && f != ROOTINO
    requires fs'.nodes.Keys == fs.nodes.Keys - {f} && SameCounts(fs, fs', f)
    requires fs.nodes[f].nlink == 1
    ensures Steady(fs, fs')
  {
    hide LinkAt, Links, Base, SameCounts;
    LinksAdded(fs', fs, p, f);
    BaseNoNull(fs);
    assert Links(fs', f) == {} by { assert Excess(fs, f) >= 0; assert |Links(fs', f)| == 0; }
    assert NoDangling(fs') by {
      DanglingAfterDrop(fs, fs', p, f);
      forall q | LinkAt(fs', q) != 0 ensures LinkAt(fs', q) in fs'.nodes && LinkAt(fs', q) != ROOTINO {
        LinksMember(fs', f, q);
      }
    }
    hide LinkAdded, NoDangling;
    DropLastExcess(fs, fs', f);
    ExcessKept(fs, fs', 0, 0);
  }

  lemma DropLastExcess(fs: Fs, fs': Fs, f: nat)
    requires 0 !in fs.nodes && fs'.nodes.Keys == fs.nodes.Keys - {f} && SameCounts(fs, fs', f)
    requires forall g :: g != f && g != 0 ==> Links(fs, g) == Links(fs', g)
    ensures ExcessMoved(fs, fs', 0, 0)
  {
    hide Links;
  }

  /** An entry in use makes the link count of what it names positive. */
  lemma NamedHasCount(fs: Fs, p: Place)
    requires Inv(fs) && LinkAt(fs, p) != 0
    ensures LinkAt(fs, p) in fs.nodes && LinkAt(fs, p) != ROOTINO && fs.nodes[LinkAt(fs, p)].nlink > 0
  {
    hide LinkAt, Links, Base;
    var f := LinkAt(fs, p);
    LinksMember(fs, f, p);
    assert Excess(fs, f) >= 0;
    assert |Links(fs, f)| > 0;
  }
}
