/** The tree of a new image (mkxv6.c, `main`): the items it was made from. */
module NewTree {
  import opened Layout
  import opened Volumes
  import opened BlockMap
  import opened Inodes
  import opened FileData
  import opened DirIter
  import opened Directory
  import opened DirMap
  import opened Listing
  import opened ListNames
  import opened Namespace
  import opened NsProof
  import opened NsEffect
  import opened Image
  import opened MkFs
  import opened Boot

  /** The names in the root: the dots, and item `k` for inode `k + 2`. */
  predicate RootBinds(items: seq<Item>, x: Listed) {
    || x in [Listed([46], 1), Listed([46, 46], 1)]
    || exists k :: 0 <= k < |items| && Names1(items, x, k)
  }

  predicate Names1(items: seq<Item>, x: Listed, k: nat)
    requires k < |items|
  {
    x.name == items[k].name && x.inum == k + 2
  }

  predicate ShortStrings(items: seq<Item>) {
    |items| + 2 < U16 && forall k :: 0 <= k < |items| ==> CString(items[k].name) && |items[k].name| <= DIRSIZ
  }

  lemma RootMap(disk: Disk, n: Node, items: seq<Item>, x: Listed)
    requires GoodDir(disk, n) && |disk| > 0 && Lists(disk, n.addrs, RootEntries(items)) && ShortStrings(items)
    ensures Binds(NameMap(disk, n), x) <==> RootBinds(items, x)
  {
    hide GoodDir, Lists, RootEntries, NameMap, Pad, Entry;
    if Binds(NameMap(disk, n), x) {
      var k := NameMapOnly(disk, n, Pad(x.name));
      ListsAt(disk, n.addrs, RootEntries(items), k);
      NullIsFree();
      LiveEntry(disk, n.addrs, k, Pad(x.name));
      RootEntryBinds(items, k, x);
    }
    if RootBinds(items, x) {
      var k := RootBindsAt(items, x);
      ListsAt(disk, n.addrs, RootEntries(items), k);
      NameMapAt(disk, n, k);
    }
  }

  lemma LiveEntry(disk: Disk, a: Addrs, k: nat, name: Name)
    requires Live(disk, a, k, name)
    ensures Entry(disk, a, k).inum != 0 && Entry(disk, a, k).name == name
  {
    hide Entry;
  }

  /** Entry `k` of the root binds what it should. */
  lemma RootEntryBinds(items: seq<Item>, k: nat, x: Listed)
    requires ShortStrings(items) && k < |RootEntries(items)| && CString(x.name) && |x.name| <= DIRSIZ
    requires RootEntries(items)[k] == Dirent(x.inum, Pad(x.name))
    ensures RootBinds(items, x)
  {
    hide Pad;
    if k == 0 {
      PadInjective(x.name, Dot());
    } else if k == 1 {
      PadInjective(x.name, DotDot());
    } else {
      PadInjective(x.name, items[k - 2].name);
      assert Names1(items, x, k - 2);
    }
  }

  lemma RootBindsAt(items: seq<Item>, x: Listed) returns (k: nat)
    requires ShortStrings(items) && RootBinds(items, x)
    ensures k < |items| + 2 && x.inum != 0 && RootEntries(items)[k] == Dirent(x.inum, Pad(x.name))
    ensures CString(x.name) && |x.name| <= DIRSIZ
  {
    hide Pad;
    if x == Listed([46], 1) {
      k := 0;
    } else if x == Listed([46, 46], 1) {
      k := 1;
    } else {
      var j :| 0 <= j < |items| && Names1(items, x, j);
      k := j + 2;
    }
  }

  lemma DotsListed(disk: Disk, n: Node, i: nat)
    requires Lists(disk, n.addrs, DotEntries(i)) && n.size == 2 * DESIZE && 0 < i < U16
    ensures NameMap(disk, n) == DotMap(i, ROOTINO)
  {
    hide NameMap, Pad, Entry, Lists, DotMap;
    ListsAt(disk, n.addrs, DotEntries(i), 0);
    ListsAt(disk, n.addrs, DotEntries(i), 1);
    DotMapIs(disk, n, i, ROOTINO);
  }

  /** A new image holds the items it was made from, and nothing else. The root binds their
      names, each directory has `.` and `..` alone, each file its bytes, and every link
      count is 1. The root's size goes past its last entry, to the next end of a block. */
  ghost predicate TreeOfItems(fs: Fs, items: seq<Item>) {
    && (forall f :: f in fs.nodes <==> 1 <= f <= |items| + 1)
    && (forall f :: f in fs.nodes ==> fs.nodes[f].nlink == 1)
    && ROOTINO in Dirs(fs) && (forall x :: Binds(Dirs(fs)[ROOTINO], x) <==> RootBinds(items, x))
    && (forall k :: 0 <= k < |items| ==> ItemMade(fs, items[k], k + 2))
    && 16 * (|items| + 2) < fs.nodes[ROOTINO].size <= 16 * (|items| + 2) + 1024
    && fs.nodes[ROOTINO].size % 1024 == 0
  }

  ghost predicate ItemMade(fs: Fs, item: Item, inum: nat) {
    && inum in fs.nodes && 2 <= inum < U16
    && match item
       case DirItem(_) => inum in Dirs(fs) && Dirs(fs)[inum] == DotMap(inum, ROOTINO) && fs.nodes[inum].size == 32
       case FileItem(_, chunks) =>
         && inum !in Dirs(fs) && fs.nodes[inum].size == |Flatten(chunks)|
         && Content(fs.v.disk, fs.nodes[inum].addrs, fs.nodes[inum].size) == Flatten(chunks)
  }

  lemma BootedTree(g: Geometry, sb: Block, items: seq<Item>)
    requires Good(g, items)
    ensures TreeOfItems(Booted(g, sb, items), items)
  {
    hide Good, MakeImage, DinodeAt, RootBinds, NameMap, ItemMade, SoundVol, Lists, RootEntries, ZeroTail, Inv, Exact,
         Dirs, Binds;
    var fs := Booted(g, sb, items);
    BootedInOrder(g, sb, items);
    BootedNodes(g, sb, items);
    RootIsRight(g, sb, items);
    forall k: nat | k < |items| ensures ItemMade(fs, items[k], k + 2) { ItemIsRight(g, sb, items, k); }
  }

  lemma RootIsRight(g: Geometry, sb: Block, items: seq<Item>)
    requires Good(g, items)
    ensures var fs := Booted(g, sb, items);
      && ROOTINO in Dirs(fs) && forall x :: Binds(Dirs(fs)[ROOTINO], x) <==> RootBinds(items, x)
  {
    hide Good, MakeImage, DinodeAt, RootBinds, NameMap, SoundVol, Lists, RootEntries, ZeroTail, GoodDir, NoDangling,
         Excess, Exact, Base, Binds;
    var fs := Booted(g, sb, items);
    BootedInOrder(g, sb, items);
    BootedNodes(g, sb, items);
    RootStrings(g, sb, items);
    NodeIn(fs, ROOTINO);
    DirMapIs(fs, ROOTINO);
    forall x ensures Binds(Dirs(fs)[ROOTINO], x) <==> RootBinds(items, x) {
      RootMap(fs.v.disk, fs.nodes[ROOTINO], items, x);
    }
  }

  lemma DirMapIs(fs: Fs, d: nat)
    requires d in fs.nodes
    ensures d in Dirs(fs) <==> fs.nodes[d].isDir
    ensures fs.nodes[d].isDir ==> Dirs(fs)[d] == NameMap(fs.v.disk, fs.nodes[d])
  {
    hide NameMap;
  }

  lemma RootStrings(g: Geometry, sb: Block, items: seq<Item>)
    requires Good(g, items)
    ensures ShortStrings(items)
  {
    hide GoodNames, CString;
    forall k | 0 <= k < |items| ensures |items[k].name| <= DIRSIZ { ItemNameFits(g, items, k); }
  }

  lemma ItemIsRight(g: Geometry, sb: Block, items: seq<Item>, k: nat)
    requires Good(g, items) && k < |items|
    ensures ItemMade(Booted(g, sb, items), items[k], k + 2)
  {
    hide MakeImage, DinodeAt, NameMap, SoundVol, Lists, RootEntries, ZeroTail, Inv, Exact, DotMap, GoodNames, CString,
         Content, EntryBytes, UsedSet, DotEntries;
    var fs := Booted(g, sb, items);
    BootedInOrder(g, sb, items);
    BootedNodes(g, sb, items);
    BootedKinds(g, sb, items, k);
    BuilderEstablishes(g, sb, items);
    DirMapIs(fs, k + 2);
    assert fs.nodes[k + 2].size == |ItemSpec(items[k], k + 2).bytes|;
    if items[k].DirItem? {
      DotsListed(fs.v.disk, fs.nodes[k + 2], k + 2);
    }
  }
}
