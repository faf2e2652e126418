/** The finished image (mkxv6.c, `main`) and the file system it mounts as: the state
    from which all kernel invariants start. */
module MkFs {
  import opened Layout
  import opened Volumes
  import opened BlockMap
  import opened Inodes
  import opened FileData
  import opened DirIter
  import opened Directory
  import opened Namespace
  import opened NsProof
  import opened NsRename
  import opened Builder
  import opened Stamping
  import opened Image

  // ----- finishing -----

  /** The end of `main`: the root's size is rounded up past its end, and the bitmap
      written. Only one bitmap block can be filled in. */
  function Finish(g: Geometry, img: Img): (r: Img)
    requires Fits(g, img.disk)
    ensures Fits(g, r.disk)
  {
    if img.dead || img.freeblock >= BPB then img.(dead := true)
    else
      var di := DinodeAt(g, img.disk, ROOTINO);
      var disk1 := Winode(g, img.disk, ROOTINO, di.(size := RoundUp(di.size) % U32));
      img.(disk := disk1[g.bmapstart := Bits(img.freeblock)])
  }

  function RoundUp(size: nat): nat { (size / BSIZE + 1) * BSIZE }

  function MakeImage(g: Geometry, sb: Block, items: seq<Item>): (r: Img)
    requires g.Formed() && 2 + |items| <= TableSize(g)
    ensures Fits(g, r.disk)
  {
    Finish(g, AddItems(g, sb, items).img)
  }

  function Zeros(n: nat): seq<byte> { seq<byte>(n, _ => 0) }

  /** Rounding the root up appends zeros to it. */
  lemma RoundedHolds(g: Geometry, sb: Block, img: Img, want: seq<Spec>)
    requires Holds(g, sb, img, want) && want != [] && |want[0].bytes| <= MAXBYTES
    ensures var di := DinodeAt(g, img.disk, ROOTINO);
      && di.size == |want[0].bytes|
      && Holds(g, sb, img.(disk := Winode(g, img.disk, ROOTINO, di.(size := RoundUp(di.size) % U32))),
               want[0 := Spec(want[0].kind, want[0].bytes + Zeros(RoundUp(di.size) - di.size))])
  {
    hide DinodeAt, Clean, Winode, FileIs;
    var files, di := TableFiles(g, img.disk, |want|), DinodeAt(g, img.disk, ROOTINO);
    assert FileIs(img.disk, di, want[0]);
    RootPadded(img.disk, di, want[0]);
    var di' := di.(size := RoundUp(di.size) % U32);
    WinodeKeeps(g, img, files, ROOTINO, di');
    var disk' := Winode(g, img.disk, ROOTINO, di');
    TableFilesSet(g, img.disk, disk', |want|, ROOTINO, di.addrs);
    assert files[ROOTINO := di.addrs] == files;
    var s' := Spec(want[0].kind, want[0].bytes + Zeros(RoundUp(di.size) - di.size));
    forall i: nat | 1 <= i <= |want| ensures FileIs(disk', DinodeAt(g, disk', i), want[0 := s'][i - 1]) {
      assert SameBytes(img.disk, files[i], disk', files[i]);
      if i == ROOTINO {
        FileSame(img.disk, di', s', disk');
      } else {
        FileSame(img.disk, DinodeAt(g, img.disk, i), want[i - 1], disk');
      }
    }
  }

  lemma RootPadded(disk: Disk, di: Dinode, s: Spec)
    requires FileIs(disk, di, s) && |s.bytes| <= MAXBYTES
    ensures di.size == |s.bytes| <= RoundUp(di.size) == RoundUp(di.size) % U32
    ensures FileIs(disk, di.(size := RoundUp(di.size) % U32), Spec(s.kind, s.bytes + Zeros(RoundUp(di.size) - di.size)))
  {
    hide ByteAt;
    var m := RoundUp(di.size);
    var c := Content(disk, di.addrs, m);
    assert c == s.bytes + Zeros(m - di.size) by {
      forall p | 0 <= p < m ensures c[p] == (s.bytes + Zeros(m - di.size))[p] {
        if p < di.size { assert s.bytes[p] == Content(disk, di.addrs, di.size)[p]; }
      }
    }
  }

  // ----- the finished image -----

  /** The volume as it is right after mounting. */
  function MountedVol(g: Geometry, disk: Disk): Vol { Vol(g, disk, g.DataStart(), []) }

  lemma SoundAgain(v: Vol, files: Files)
    requires SoundVol(v, files)
    ensures SoundVol(MountedVol(v.g, v.disk), files)
  {
    hide Sound, UsedSet;
  }

  /** What a finished image is: files, free records, and a bitmap that marks the
      first `used` blocks, metadata and every referenced block among them. */
  ghost predicate Finished(g: Geometry, sb: Block, disk: Disk, want: seq<Spec>, used: nat) {
    && Fits(g, disk) && |want| < TableSize(g)
    && SoundVol(MountedVol(g, disk), TableFiles(g, disk, |want|))
    && (forall i: nat :: 1 <= i <= |want| ==> FileIs(disk, DinodeAt(g, disk, i), want[i - 1]))
    && (forall i: nat :: i < TableSize(g) && !(1 <= i <= |want|) ==> DinodeAt(g, disk, i).kind == 0)
    && disk[0] == sb
    && g.DataStart() <= used && UsedSet(g, disk) == Span(0, used)
  }

  lemma StampFinishes(g: Geometry, sb: Block, img: Img, want: seq<Spec>)
    requires Holds(g, sb, img, want) && img.freeblock <= BPB
    ensures Finished(g, sb, img.disk[g.bmapstart := Bits(img.freeblock)], want, img.freeblock)
  {
    hide DinodeAt, FileIs, Sound, Slot, Used, Bits, UsedSet, SameContents;
    var disk, lo, fb := img.disk, g.DataStart(), img.freeblock;
    var disk', files := disk[g.bmapstart := Bits(fb)], TableFiles(g, disk, |want|);
    StampUsed(g, disk, fb);
    Frame(disk, disk', lo, Span(lo, fb), Span(0, fb), files);
    DinodeFrame(g, disk, disk');
    assert TableFiles(g, disk', |want|) == files;
    forall i: nat | 1 <= i <= |want| ensures FileIs(disk', DinodeAt(g, disk', i), want[i - 1]) {
      StampedFile(disk, files, disk', i, DinodeAt(g, disk, i), want[i - 1]);
    }
  }

  lemma StampedFile(disk: Disk, files: Files, disk': Disk, i: nat, di: Dinode, s: Spec)
    requires SameContents(disk, files, disk', files) && i in files && files[i] == di.addrs && FileIs(disk, di, s)
    ensures FileIs(disk', di, s)
  {
    hide ByteAt, FileIs;
    FileSame(disk, di, s, disk');
  }

  /** The files of the finished image: as wanted, with the root padded. */
  function Shipped(items: seq<Item>): (w: seq<Spec>)
    ensures |w| == |items| + 1
  {
    var root := RootBytes(items);
    Wanted(items)[0 := Spec(T_DIR, root + Zeros(RoundUp(|root|) - |root|))]
  }

  /** Unless it gives up, the builder's image is finished and holds what it was given. */
  lemma MakeImageFinishes(g: Geometry, sb: Block, items: seq<Item>)
    requires g.Formed() && 2 + |items| <= TableSize(g) && !MakeImage(g, sb, items).dead
    ensures Finished(g, sb, MakeImage(g, sb, items).disk, Shipped(items), MakeImage(g, sb, items).freeblock)
    ensures forall k :: 0 <= k < |items| ==> |items[k].name| <= DIRSIZ
    ensures |items| + 2 <= MAXENTS
  {
    hide Holds, AddItems, Wanted, Winode, DinodeAt, Finished, Bits;
    var img := AddItems(g, sb, items).img;
    AddItemsHolds(g, sb, items);
    WantedRoot(items);
    RootLength(items);
    RootReach(g, sb, items, img);
    RoundedHolds(g, sb, img, Wanted(items));
    var di := DinodeAt(g, img.disk, ROOTINO);
    var disk1 := Winode(g, img.disk, ROOTINO, di.(size := RoundUp(di.size) % U32));
    StampFinishes(g, sb, img.(disk := disk1), Shipped(items));
  }

  lemma {:induction false} RootLength(items: seq<Item>)
    ensures |RootBytes(items)| == DESIZE * (|items| + 2)
  {
    hide EncodeDirent;
    if items == [] {
    } else {
      RootLength(items[..|items| - 1]);
    }
  }

  /** The last entry of the root is not all zeros. */
  lemma LastEntry(items: seq<Item>)
    requires |items| + 1 < U16
    ensures |RootBytes(items)| == DESIZE * (|items| + 2)
    ensures var p := DESIZE * (|items| + 1); RootBytes(items)[p] != 0 || RootBytes(items)[p + 1] != 0
  {
    hide Pad;
    RootLength(items);
    if items != [] { RootLength(items[..|items| - 1]); }
  }

  /** A root that could be written lies within the reach of the block map. */
  lemma RootReach(g: Geometry, sb: Block, items: seq<Item>, img: Img)
    requires Holds(g, sb, img, Wanted(items)) && 2 + |items| <= TableSize(g)
    ensures |RootBytes(items)| <= MAXBYTES
  {
    hide Clean, ByteAt, DinodeAt, RootBytes, Wanted;
    WantedRoot(items);
    var di, bytes := DinodeAt(g, img.disk, ROOTINO), RootBytes(items);
    assert FileIs(img.disk, di, Wanted(items)[0]);
    LastEntry(items);
    forall p | MAXBYTES <= p < |bytes| ensures bytes[p] == 0 {
      PastReach(img.disk, di.addrs, p);
      assert Content(img.disk, di.addrs, |bytes|)[p] == ByteAt(img.disk, di.addrs, p);
    }
  }

  // ----- directories of the image -----

  /** A directory's entries, one after the other. */
  function EncodeAll(es: seq<Dirent>): (s: seq<byte>)
    ensures |s| == DESIZE * |es|
  {
    if es == [] then [] else EncodeAll(es[..|es| - 1]) + EncodeDirent(es[|es| - 1])
  }

  lemma {:induction false} EncodeAllSlice(es: seq<Dirent>, k: nat)
    requires k < |es|
    ensures EncodeAll(es)[DESIZE * k..DESIZE * k + DESIZE] == EncodeDirent(es[k])
  {
    hide EncodeDirent;
    if k >= |es| - 1 {
    } else {
      EncodeAllSlice(es[..|es| - 1], k);
      assert EncodeAll(es)[DESIZE * k..DESIZE * k + DESIZE]
          == EncodeAll(es[..|es| - 1])[DESIZE * k..DESIZE * k + DESIZE];
    }
  }

  /** Nothing but `es` is in the directory: past them all slots are null. */
  ghost predicate Lists(disk: Disk, a: Addrs, es: seq<Dirent>) {
    forall k: nat :: Entry(disk, a, k) == if k < |es| then es[k] else NullDirent()
  }

  lemma DirLists(disk: Disk, di: Dinode, kind: ushort, es: seq<Dirent>, m: nat)
    requires FileIs(disk, di, Spec(kind, EncodeAll(es) + Zeros(m)))
    ensures Lists(disk, di.addrs, es)
  {
    hide ByteAt, EncodeAll, EncodeDirent, DecodeDirent;
    var bytes := EncodeAll(es) + Zeros(m);
    forall p: nat ensures ByteAt(disk, di.addrs, p) == if p < |EncodeAll(es)| then EncodeAll(es)[p] else 0 {
      if p < |bytes| { assert bytes[p] == Content(disk, di.addrs, |bytes|)[p]; }
    }
    forall k: nat ensures Entry(disk, di.addrs, k) == if k < |es| then es[k] else NullDirent() {
      var b := BytesFrom(disk, di.addrs, DESIZE * k, DESIZE);
      if k < |es| {
        EncodeAllSlice(es, k);
        DirentRoundTrip(es[k], b);
        assert b == EncodeAll(es)[DESIZE * k..DESIZE * k + DESIZE];
      } else {
        assert b == seq(DESIZE, _ => 0);
      }
    }
  }

  /** The entries a good directory may have. */
  ghost predicate GoodEntries(es: seq<Dirent>) {
    && |es| >= 2 && es[0].name == Pad(Dot()) && es[1].name == Pad(DotDot())
    && (forall k :: 0 <= k < |es| ==> es[k].inum != 0 && es[k].name[0] != 0 && Padded(es[k].name))
    && (forall j, k :: 0 <= j < k < |es| ==> es[j].name != es[k].name)
  }

  lemma ListsGood(disk: Disk, a: Addrs, es: seq<Dirent>)
    requires Lists(disk, a, es) && |es| >= 2 && forall k :: 0 <= k < |es| ==> es[k].inum != 0
    ensures GoodSlots(disk, a) <==> GoodEntries(es)
  {
    hide Entry, Pad, Padded;
    NullIsFree();
    forall k | 0 <= k < |es| ensures Entry(disk, a, k) == es[k] {}
  }

  // ----- names -----

  function DotEntries(inum: nat): seq<Dirent> { [Dirent(inum % U16, Pad(Dot())), Dirent(ROOTINO, Pad(DotDot()))] }

  function RootEntries(items: seq<Item>): (es: seq<Dirent>)
    ensures |es| == |items| + 2
  {
    DotEntries(ROOTINO) + seq(|items|, k requires 0 <= k < |items| => Dirent((k + 2) % U16, Pad(items[k].name)))
  }

  lemma DotBytes(inum: nat)
    ensures EncodeAll(DotEntries(inum)) == EntryBytes(inum, Dot()) + EntryBytes(ROOTINO, DotDot())
  {
    hide EncodeDirent, Pad;
    var es := DotEntries(inum);
    assert es[..1] == [es[0]] && [es[0]][..0] == [];
    assert EncodeAll([es[0]]) == EncodeAll([es[0]][..0]) + EncodeDirent(es[0]);
    assert [] + EncodeDirent(es[0]) == EncodeDirent(es[0]);
  }

  lemma {:induction false} RootBytesAre(items: seq<Item>)
    ensures RootBytes(items) == EncodeAll(RootEntries(items))
  {
    hide EncodeDirent, Pad;
    if items == [] {
      DotBytes(ROOTINO);
      assert RootEntries([]) == DotEntries(ROOTINO);
    } else {
      RootBytesAre(items[..|items| - 1]);
      var es := RootEntries(items);
      assert es[..|es| - 1] == RootEntries(items[..|items| - 1]);
    }
  }

  /** Names the host can give that make a good directory. */
  predicate GoodNames(items: seq<Item>) {
    && (forall k :: 0 <= k < |items| ==> items[k].name !in [[], Dot(), DotDot()])
    && (forall j, k :: 0 <= j < k < |items| ==> items[j].name != items[k].name)
  }

  /** Names as C strings of at most DIRSIZ characters. */
  predicate Strings(items: seq<Item>) {
    forall k :: 0 <= k < |items| ==> CString(items[k].name) && |items[k].name| <= DIRSIZ
  }

  /** The root's entries are good exactly when the names are. */
  lemma RootEntriesGood(items: seq<Item>)
    requires Strings(items) && |items| + 1 < U16
    ensures GoodEntries(RootEntries(items)) <==> GoodNames(items)
  {
    hide GoodEntries, GoodNames, RootEntries;
    if GoodEntries(RootEntries(items)) { EntriesGoodNames(items); }
    if GoodNames(items) { NamesGoodEntries(items); }
  }

  lemma NamesGoodEntries(items: seq<Item>)
    requires Strings(items) && |items| + 1 < U16 && GoodNames(items)
    ensures GoodEntries(RootEntries(items))
  {
    hide Pad, Padded, CString;
    var es := RootEntries(items);
    DotsPadded();
    forall k | 2 <= k < |es|
      ensures es[k].inum == k && es[k].name[0] != 0 && Padded(es[k].name)
      ensures es[k].name != Pad(Dot()) && es[k].name != Pad(DotDot())
    {
      var t := items[k - 2].name;
      PadIsPadded(t);
      PadsDiffer(t, Dot());
      PadsDiffer(t, DotDot());
    }
    forall j, k | 2 <= j < k < |es| ensures es[j].name != es[k].name {
      PadsDiffer(items[j - 2].name, items[k - 2].name);
    }
  }

  lemma EntriesGoodNames(items: seq<Item>)
    requires Strings(items) && |items| + 1 < U16 && GoodEntries(RootEntries(items))
    ensures GoodNames(items)
  {
    hide Pad, Padded, CString;
    var es := RootEntries(items);
    forall k | 0 <= k < |items| ensures items[k].name !in [[], Dot(), DotDot()] {
      assert es[k + 2].name == Pad(items[k].name) && es[k + 2].name[0] != 0;
      assert es[0].name != es[k + 2].name && es[1].name != es[k + 2].name;
      PadIsPadded(items[k].name);
    }
    forall j, k | 0 <= j < k < |items| ensures items[j].name != items[k].name {
      assert es[j + 2].name == Pad(items[j].name) && es[k + 2].name == Pad(items[k].name);
      assert es[j + 2].name != es[k + 2].name;
    }
  }

  lemma DotsPadded()
    ensures CString(Dot()) && CString(DotDot()) && Pad(Dot()) != Pad(DotDot())
    ensures Padded(Pad(Dot())) && Padded(Pad(DotDot())) && Pad(Dot())[0] != 0 && Pad(DotDot())[0] != 0
  {
    assert Pad(Dot())[1] == 0 && Pad(DotDot())[1] == 46;
    PadIsPadded(Dot());
    PadIsPadded(DotDot());
  }

  lemma PadsDiffer(s: seq<byte>, t: seq<byte>)
    requires CString(s) && CString(t) && |s| <= DIRSIZ && |t| <= DIRSIZ
    ensures Pad(s) == Pad(t) <==> s == t
  {
    if Pad(s) == Pad(t) { PadInjective(s, t); }
  }

  // ----- mounting -----

  /** `xv6_init_inode`: the in-core inode of a record. */
  function NodeOf(di: Dinode): Node { Node(di.kind == T_DIR, di.addrs, di.size, di.nlink) }

  /** The file system that is mounted from an image with inodes 1 to `n` in use. */
  function Mounted(g: Geometry, disk: Disk, n: nat): Fs
    requires Fits(g, disk) && n < TableSize(g)
  {
    Fs(MountedVol(g, disk), map i: nat | 1 <= i <= n :: NodeOf(DinodeAt(g, disk, i)))
  }

  /** The image with all its directories taken apart. */
  ghost predicate Unpacked(g: Geometry, disk: Disk, items: seq<Item>) {
    && Fits(g, disk) && 2 + |items| <= TableSize(g)
    && var fs := Mounted(g, disk, |items| + 1);
    && SoundVol(fs.v, Maps(fs))
    && (forall i: nat :: 1 <= i <= |items| + 1 ==>
          && fs.nodes[i].nlink == 1 && DinodeAt(g, disk, i).kind != 0
          && ZeroTail(disk, fs.nodes[i].addrs, fs.nodes[i].size))
    && fs.nodes[ROOTINO].isDir && fs.nodes[ROOTINO].size == RoundUp(DESIZE * (|items| + 2))
    && Lists(disk, fs.nodes[ROOTINO].addrs, RootEntries(items))
    && (forall i: nat :: 2 <= i <= |items| + 1 && fs.nodes[i].isDir ==>
          fs.nodes[i].size == 2 * DESIZE && Lists(disk, fs.nodes[i].addrs, DotEntries(i)))
  }

  lemma ShippedAt(items: seq<Item>, i: nat)
    requires 1 <= i <= |items| + 1
    ensures (i == ROOTINO ==>
      Shipped(items)[i - 1]
      == Spec(T_DIR, EncodeAll(RootEntries(items)) + Zeros(RoundUp(DESIZE * (|items| + 2)) - DESIZE * (|items| + 2))))
    ensures i != ROOTINO ==> Shipped(items)[i - 1] == ItemSpec(items[i - 2], i)
    ensures i != ROOTINO && items[i - 2].DirItem? ==>
      Shipped(items)[i - 1] == Spec(T_DIR, EncodeAll(DotEntries(i)) + Zeros(0))
  {
    hide EncodeDirent, EntryBytes, EncodeAll, RootEntries, RootBytes;
    RootLength(items);
    RootBytesAre(items);
    DotBytes(i);
    assert EncodeAll(DotEntries(i)) + Zeros(0) == EncodeAll(DotEntries(i));
  }

  lemma UnpackOne(g: Geometry, disk: Disk, items: seq<Item>, i: nat)
    requires Fits(g, disk) && 2 + |items| <= TableSize(g) && 1 <= i <= |items| + 1
    requires FileIs(disk, DinodeAt(g, disk, i), Shipped(items)[i - 1])
    ensures var di := DinodeAt(g, disk, i);
      && di.nlink == 1 && di.kind in {T_DIR, T_FILE} && ZeroTail(disk, di.addrs, di.size)
      && (i == ROOTINO ==>
            di.kind == T_DIR && di.size == RoundUp(DESIZE * (|items| + 2)) && Lists(disk, di.addrs, RootEntries(items)))
      && (i != ROOTINO ==> (di.kind == T_DIR <==> items[i - 2].DirItem?))
      && (i != ROOTINO && di.kind == T_DIR ==> di.size == 2 * DESIZE && Lists(disk, di.addrs, DotEntries(i)))
  {
    hide DinodeAt, EncodeAll, RootEntries, Shipped, Lists, ByteAt, RootBytes, EntryBytes, Pad;
    ShippedAt(items, i);
    var di := DinodeAt(g, disk, i);
    var n := DESIZE * (|items| + 2);
    if i == ROOTINO {
      DirLists(disk, di, T_DIR, RootEntries(items), RoundUp(n) - n);
    } else if items[i - 2].DirItem? {
      DirLists(disk, di, T_DIR, DotEntries(i), 0);
    }
  }

  lemma Unpack(g: Geometry, sb: Block, disk: Disk, items: seq<Item>, used: nat)
    requires Finished(g, sb, disk, Shipped(items), used) && 2 + |items| <= TableSize(g)
    ensures Unpacked(g, disk, items)
  {
    hide DinodeAt, Shipped, Lists, SoundVol, RootEntries, FileIs, ZeroTail, DotEntries, UsedSet;
    var fs := Mounted(g, disk, |items| + 1);
    assert Maps(fs) == TableFiles(g, disk, |items| + 1);
    forall i: nat | 1 <= i <= |items| + 1
      ensures fs.nodes[i].nlink == 1 && DinodeAt(g, disk, i).kind != 0
      ensures ZeroTail(disk, fs.nodes[i].addrs, fs.nodes[i].size)
      ensures i != ROOTINO && fs.nodes[i].isDir ==>
        fs.nodes[i].size == 2 * DESIZE && Lists(disk, fs.nodes[i].addrs, DotEntries(i))
    {
      UnpackOne(g, disk, items, i);
    }
    UnpackOne(g, disk, items, ROOTINO);
  }

  /** The root is a good directory exactly when the names are good and its rounded
      size is within reach. */
  lemma RootGood(g: Geometry, disk: Disk, items: seq<Item>)
    requires Unpacked(g, disk, items) && Strings(items)
    ensures GoodDir(disk, Mounted(g, disk, |items| + 1).nodes[ROOTINO]) <==> GoodNames(items) && |items| + 2 < MAXENTS
  {
    hide DinodeAt, Lists, SoundVol, RootEntries, ZeroTail, GoodNames, GoodSlots, GoodEntries;
    var n := Mounted(g, disk, |items| + 1).nodes[ROOTINO];
    RootInums(items);
    ListsGood(disk, n.addrs, RootEntries(items));
    RootEntriesGood(items);
    assert n.size <= MAXBYTES <==> |items| + 2 < MAXENTS;
  }

  lemma RootInums(items: seq<Item>)
    requires |items| + 1 < U16
    ensures forall k :: 2 <= k < |items| + 2 ==> RootEntries(items)[k].inum == k
    ensures forall k :: 0 <= k < |items| + 2 ==> RootEntries(items)[k].inum != 0
  {
    hide Pad;
  }

  lemma DotsGood(disk: Disk, n: Node, i: nat)
    requires Lists(disk, n.addrs, DotEntries(i)) && 0 < i < U16 && n.isDir && n.size == 2 * DESIZE
    requires ZeroTail(disk, n.addrs, n.size)
    ensures GoodDir(disk, n)
  {
    hide Lists, ZeroTail, Pad, Padded, GoodSlots;
    DotsPadded();
    ListsGood(disk, n.addrs, DotEntries(i));
  }

  /** The image mounts in order exactly when the names the host gave are nonempty,
      distinct and neither `.` nor `..`, and the rounded-up root is within reach. */
  lemma MountsInOrder(g: Geometry, disk: Disk, items: seq<Item>)
    requires Unpacked(g, disk, items) && Strings(items)
    ensures Base(Mounted(g, disk, |items| + 1)) <==> GoodNames(items) && |items| + 2 < MAXENTS
  {
    hide DinodeAt, Lists, SoundVol, RootEntries, ZeroTail, GoodDir, GoodNames;
    var fs := Mounted(g, disk, |items| + 1);
    RootGood(g, disk, items);
    SoundOk(fs.v, Maps(fs));
    forall i: nat | 2 <= i <= |items| + 1 ensures GoodNode(fs, i) {
      if fs.nodes[i].isDir { DotsGood(disk, fs.nodes[i], i); }
    }
    assert GoodNode(fs, ROOTINO) <==> GoodDir(disk, fs.nodes[ROOTINO]);
    if Base(fs) { NodeIn(fs, ROOTINO); }
  }

  /** Slot `k` of the root names inode `k`, and nothing else names anything. */
  lemma MountedLinks(g: Geometry, disk: Disk, items: seq<Item>, p: Place)
    requires Unpacked(g, disk, items)
    ensures LinkAt(Mounted(g, disk, |items| + 1), p) == if p.d == ROOTINO && 2 <= p.k <= |items| + 1 then p.k else 0
  {
    hide DinodeAt, SoundVol, RootEntries, ZeroTail, Entry, Pad, Lists;
    var fs := Mounted(g, disk, |items| + 1);
    NullIsFree();
    RootInums(items);
    if p.d in fs.nodes && fs.nodes[p.d].isDir {
      if p.d == ROOTINO {
        ListsAt(disk, fs.nodes[p.d].addrs, RootEntries(items), p.k);
      } else {
        ListsAt(disk, fs.nodes[p.d].addrs, DotEntries(p.d), p.k);
      }
    }
  }

  lemma ListsAt(disk: Disk, a: Addrs, es: seq<Dirent>, k: nat)
    requires Lists(disk, a, es)
    ensures Entry(disk, a, k) == if k < |es| then es[k] else NullDirent()
  {}

  /** A well-named image mounts in a state where every invariant of the kernel's runs
      holds, with every link count exact. */
  lemma MountEstablishes(g: Geometry, disk: Disk, items: seq<Item>)
    requires Unpacked(g, disk, items) && Strings(items) && GoodNames(items) && |items| + 2 < MAXENTS
    ensures Inv(Mounted(g, disk, |items| + 1)) && Exact(Mounted(g, disk, |items| + 1))
  {
    hide DinodeAt, SoundVol, RootEntries, ZeroTail, GoodNames, Lists, LinkAt, Base, Links;
    var fs := Mounted(g, disk, |items| + 1);
    MountsInOrder(g, disk, items);
    forall p ensures LinkAt(fs, p) == if p.d == ROOTINO && 2 <= p.k <= |items| + 1 then p.k else 0 {
      MountedLinks(g, disk, items, p);
    }
    forall f | f in fs.nodes && f != ROOTINO ensures Excess(fs, f) == 0 {
      forall p ensures p in Links(fs, f) <==> p == Place(ROOTINO, f) { LinksMember(fs, f, p); }
      assert Links(fs, f) == {Place(ROOTINO, f)};
    }
  }

  // ----- the main results -----

  /** The builder establishes the kernel's initial state: whenever it does not give
      up, its image mounts with all invariants and exact link counts if and only if
      the names are good and the rounded-up root is within reach; inode `k + 2` holds
      the bytes of item `k`; and the bitmap marks exactly the blocks before
      `freeblock`. */
  lemma BuilderEstablishes(g: Geometry, sb: Block, items: seq<Item>)
    requires g.Formed() && 2 + |items| <= TableSize(g) && forall k :: 0 <= k < |items| ==> CString(items[k].name)
    requires !MakeImage(g, sb, items).dead
    ensures var (disk, used) := (MakeImage(g, sb, items).disk, MakeImage(g, sb, items).freeblock);
      var fs := Mounted(g, disk, |items| + 1);
      && (Inv(fs) <==> GoodNames(items) && |items| + 2 < MAXENTS)
      && (Inv(fs) ==> Exact(fs))
      && (forall k :: 0 <= k < |items| ==>
            && fs.nodes[k + 2].size == |ItemSpec(items[k], k + 2).bytes|
            && Content(disk, fs.nodes[k + 2].addrs, fs.nodes[k + 2].size) == ItemSpec(items[k], k + 2).bytes)
      && UsedSet(g, disk) == Span(0, used)
  {
    hide MakeImage, DinodeAt, SoundVol, GoodNames, Base, NoDangling, Excess, Exact, UsedSet, Content, ItemSpec,
         Shipped, ZeroTail;
    MakeImageFinishes(g, sb, items);
    var disk, used := MakeImage(g, sb, items).disk, MakeImage(g, sb, items).freeblock;
    Unpack(g, sb, disk, items, used);
    MountsInOrder(g, disk, items);
    if GoodNames(items) && |items| + 2 < MAXENTS { MountEstablishes(g, disk, items); }
    forall k | 0 <= k < |items|
      ensures Shipped(items)[k + 1] == ItemSpec(items[k], k + 2)
      ensures FileIs(disk, DinodeAt(g, disk, k + 2), Shipped(items)[k + 1])
    {
      ShippedAt(items, k + 2);
    }
  }

  /** Looking an item up in the mounted root finds its inode. */
  lemma MountedLookup(g: Geometry, sb: Block, items: seq<Item>, k: nat)
    requires g.Formed() && 2 + |items| <= TableSize(g) && !MakeImage(g, sb, items).dead
    requires (forall j :: 0 <= j < |items| ==> CString(items[j].name)) && GoodNames(items) && |items| + 2 < MAXENTS
    requires k < |items|
    ensures var fs := Mounted(g, MakeImage(g, sb, items).disk, |items| + 1);
      && fs.v.Ok() && DirSized(fs.nodes[ROOTINO].size % U32)
      && var (pos, de, err) := FindInum(fs.v, fs.nodes[ROOTINO], items[k].name);
         err == OK && pos == k + 2 && de.inum == k + 2
  {
    hide MakeImage, DinodeAt, SoundVol, GoodNames, Base, UsedSet, Shipped, ZeroTail, Lists, Finished, FindInum, Pad,
         RootEntries, Entry, CString;
    MakeImageFinishes(g, sb, items);
    var disk := MakeImage(g, sb, items).disk;
    Unpack(g, sb, disk, items, MakeImage(g, sb, items).freeblock);
    MountsInOrder(g, disk, items);
    var fs := Mounted(g, disk, |items| + 1);
    var a := fs.nodes[ROOTINO].addrs;
    NameOfItem(items, k);
    FindIn(fs, ROOTINO, items[k].name);
    RootInums(items);
    RootEntryAt(items, k);
    ListsAt(disk, a, RootEntries(items), k + 2);
    assert Live(fs.v.disk, a, k + 2, Pad(items[k].name));
    OnlyOne(fs, ROOTINO, items[k].name, k + 2);
    var (pos, de, err) := FindInum(fs.v, fs.nodes[ROOTINO], items[k].name);
    assert pos == k + 2 && de == Entry(disk, a, k + 2);
  }

  lemma NameOfItem(items: seq<Item>, k: nat)
    requires GoodNames(items) && k < |items|
    ensures items[k].name != []
  {}

  lemma RootEntryAt(items: seq<Item>, k: nat)
    requires k < |items|
    ensures RootEntries(items)[k + 2].name == Pad(items[k].name)
  {
    hide Pad;
  }

  lemma OnlyOne(fs: Fs, d: nat, name: seq<byte>, k: nat)
    requires Base(fs) && d in fs.nodes && fs.nodes[d].isDir && Live(fs.v.disk, fs.nodes[d].addrs, k, Pad(name))
    ensures forall j: nat :: j != k ==> !Live(fs.v.disk, fs.nodes[d].addrs, j, Pad(name))
  {
    hide Entry, Pad, Base, GoodDir, Live;
    NodeIn(fs, d);
    OthersNotLive(fs.v.disk, fs.nodes[d], k, name);
  }
}
