/** The image builder's files (mkxv6.c): inode records, appends and whole items, and
    the invariant that says what every inode of the image holds. */
module Image {
  import opened Layout
  import opened Volumes
  import opened BlockMap
  import opened Inodes
  import opened FileData
  import opened DirIter
  import opened Directory
  import opened Builder

  predicate Fits(g: Geometry, disk: Disk) { g.Formed() && |disk| == g.size }

  // ----- operations -----

  /** `winode`. */
  function Winode(g: Geometry, disk: Disk, inum: nat, di: Dinode): (disk': Disk)
    requires Fits(g, disk) && inum < TableSize(g)
    ensures Fits(g, disk')
  {
    PutInode(Vol(g, disk, 0, []), inum, di).disk
  }

  /** `iappend`; nothing happens once the builder has given up. */
  function IAppend(g: Geometry, img: Img, inum: nat, p: seq<byte>): (r: Img)
    requires Fits(g, img.disk) && inum < TableSize(g)
    ensures Fits(g, r.disk)
  {
    if img.dead then img
    else
      var di := DinodeAt(g, img.disk, inum);
      var r := AppendLoop(img, di.addrs, di.size, p);
      if r.img.dead then r.img
      else r.img.(disk := Winode(g, r.img.disk, inum, di.(addrs := r.addrs, size := r.off % U32)))
  }

  /** The `read` loop of `main`: one append for each buffer read. */
  function IAppendAll(g: Geometry, img: Img, inum: nat, chunks: seq<seq<byte>>): (r: Img)
    requires Fits(g, img.disk) && inum < TableSize(g)
    ensures Fits(g, r.disk)
  {
    if chunks == [] then img
    else IAppend(g, IAppendAll(g, img, inum, chunks[..|chunks| - 1]), inum, chunks[|chunks| - 1])
  }

  /** The image and the next free inode number. */
  datatype Mk = Mk(img: Img, freeinode: nat)

  /** `ialloc`. */
  function NewInode(g: Geometry, st: Mk, kind: ushort): (r: Mk)
    requires Fits(g, st.img.disk) && st.freeinode < TableSize(g)
    ensures Fits(g, r.img.disk) && r.freeinode == st.freeinode + 1
  {
    Mk(if st.img.dead then st.img
       else st.img.(disk := Winode(g, st.img.disk, st.freeinode, Dinode(kind, 0, 0, 1, 0, NoAddrs()))),
       st.freeinode + 1)
  }

  /** What the host hands to the builder, in pieces as `read` returns them. */
  datatype Item = FileItem(name: seq<byte>, chunks: seq<seq<byte>>) | DirItem(name: seq<byte>)
  {
    function Kind(): ushort { if DirItem? then T_DIR else T_FILE }
  }

  /** A zeroed `struct dirent` with its number and name set. */
  function EntryBytes(inum: nat, name: seq<byte>): seq<byte> { EncodeDirent(Dirent(inum % U16, Pad(name))) }

  /** The image after a new inode has been filled with what an item holds. */
  function ItemImage(g: Geometry, img: Img, item: Item, inum: nat): (r: Img)
    requires Fits(g, img.disk) && inum < TableSize(g)
    ensures Fits(g, r.disk)
  {
    match item
    case DirItem(_) => IAppend(g, IAppend(g, img, inum, EntryBytes(inum, Dot())), inum, EntryBytes(ROOTINO, DotDot()))
    case FileItem(_, chunks) => IAppendAll(g, img, inum, chunks)
  }

  /** One turn of the loop over the command line. */
  function AddItem(g: Geometry, st: Mk, item: Item): (r: Mk)
    requires Fits(g, st.img.disk) && 1 < st.freeinode < TableSize(g)
    ensures Fits(g, r.img.disk) && r.freeinode == st.freeinode + 1
  {
    if |item.name| > DIRSIZ then Mk(st.img.(dead := true), st.freeinode + 1)
    else
      var inum := st.freeinode;
      var st1 := NewInode(g, st, item.Kind());
      st1.(img := IAppend(g, ItemImage(g, st1.img, item, inum), ROOTINO, EntryBytes(inum, item.name)))
  }

  /** `main` up to the loop: a zeroed image with its superblock, and the root with
      `.` and `..`. */
  function Start(g: Geometry, sb: Block): (r: Mk)
    requires g.Formed()
    ensures Fits(g, r.img.disk) && r.freeinode == 2
  {
    var st := NewInode(g, Mk(Img(Blank(g, sb), g.DataStart(), false), ROOTINO), T_DIR);
    var img1 := IAppend(g, st.img, ROOTINO, EntryBytes(ROOTINO, Dot()));
    st.(img := IAppend(g, img1, ROOTINO, EntryBytes(ROOTINO, DotDot())))
  }

  function Blank(g: Geometry, sb: Block): (disk: Disk)
    requires g.Formed()
    ensures Fits(g, disk)
  {
    seq(g.size, i => ZeroBlock())[0 := sb]
  }

  /** The loop over the command line. */
  function AddItems(g: Geometry, sb: Block, items: seq<Item>): (r: Mk)
    requires g.Formed() && 2 + |items| <= TableSize(g)
    ensures Fits(g, r.img.disk) && r.freeinode == 2 + |items|
  {
    if items == [] then Start(g, sb)
    else AddItem(g, AddItems(g, sb, items[..|items| - 1]), items[|items| - 1])
  }

  // ----- what the image holds -----

  /** A file as it should be: its type and its bytes. */
  datatype Spec = Spec(kind: ushort, bytes: seq<byte>)

  /** Record `di` describes a file with these bytes, and nothing stored after. */
  ghost predicate FileIs(disk: Disk, di: Dinode, s: Spec) {
    && di.kind == s.kind && di.nlink == 1 && di.size == |s.bytes|
    && Content(disk, di.addrs, |s.bytes|) == s.bytes && ZeroTail(disk, di.addrs, |s.bytes|)
  }

  /** The block maps of inodes 1 to `n`. */
  function TableFiles(g: Geometry, disk: Disk, n: nat): Files
    requires Fits(g, disk) && n < TableSize(g)
  {
    map i: nat | 1 <= i <= n :: DinodeAt(g, disk, i).addrs
  }

  /** The image holds exactly the files of `want`, inode `i + 1` the `i`th of them;
      every other record is free; block references are sound; the bitmap is still
      blank and the superblock in place. */
  ghost predicate Holds(g: Geometry, sb: Block, img: Img, want: seq<Spec>) {
    && Fits(g, img.disk) && |want| < TableSize(g) && !img.dead
    && Clean(g.DataStart(), img, TableFiles(g, img.disk, |want|))
    && (forall i: nat :: 1 <= i <= |want| ==> FileIs(img.disk, DinodeAt(g, img.disk, i), want[i - 1]))
    && (forall i: nat :: i < TableSize(g) && !(1 <= i <= |want|) ==> DinodeAt(g, img.disk, i).kind == 0)
    && (forall b :: g.bmapstart <= b < g.DataStart() ==> img.disk[b] == ZeroBlock())
    && img.disk[0] == sb
  }

  /** Files stay what they are when their record and their bytes do. */
  lemma FileSame(disk: Disk, di: Dinode, s: Spec, disk': Disk)
    requires FileIs(disk, di, s) && SameBytes(disk, di.addrs, disk', di.addrs)
    ensures FileIs(disk', di, s)
  {
    hide ByteAt;
    assert Content(disk', di.addrs, |s.bytes|) == Content(disk, di.addrs, |s.bytes|);
  }

  // ----- storing a record -----

  /** What storing one record leaves. */
  ghost predicate Recorded(g: Geometry, disk: Disk, files: Files, inum: nat, di: Dinode, disk': Disk) {
    && Fits(g, disk) && Fits(g, disk')
    && SameContents(disk, files, disk', files) && (forall f :: f in files ==> SameSlots(disk, disk', files[f]))
    && (forall n: nat :: n < TableSize(g) ==> DinodeAt(g, disk', n) == if n == inum then di else DinodeAt(g, disk, n))
    && (forall b :: g.bmapstart <= b < g.size ==> disk'[b] == disk[b])
    && disk'[0] == disk[0]
  }

  lemma WinodeKeeps(g: Geometry, img: Img, files: Files, inum: nat, di: Dinode)
    requires Fits(g, img.disk) && inum < TableSize(g) && Clean(g.DataStart(), img, files)
    ensures Recorded(g, img.disk, files, inum, di, Winode(g, img.disk, inum, di))
    ensures Clean(g.DataStart(), img.(disk := Winode(g, img.disk, inum, di)), files)
  {
    hide Sound, SameContents, PutInode, DinodeAt, UsedSet, Used, Slot;
    var v := Vol(g, img.disk, 0, []);
    PutInodeEffect(v, inum, di);
    PutInodeFirst(v, inum, di);
    var disk' := Winode(g, img.disk, inum, di);
    var used := Span(g.DataStart(), img.freeblock);
    Frame(img.disk, disk', g.DataStart(), used, used, files);
  }

  // ----- a new inode -----

  lemma NoAddrsClean(lo: nat, img: Img, files: Files, f: nat)
    requires Clean(lo, img, files) && f !in files
    ensures Clean(lo, img, files[f := NoAddrs()])
  {
    hide Sound, NoAddrs;
    assert files - {f} == files;
    AddEmpty(img.disk, lo, Span(lo, img.freeblock), files, f);
  }

  lemma EmptyFile(disk: Disk, kind: ushort)
    ensures FileIs(disk, Dinode(kind, 0, 0, 1, 0, NoAddrs()), Spec(kind, []))
  {
    forall p: nat ensures ByteAt(disk, NoAddrs(), p) == 0 {}
    hide ByteAt;
  }

  lemma TableFilesGrow(g: Geometry, disk: Disk, disk': Disk, n: nat, a: Addrs)
    requires Fits(g, disk) && Fits(g, disk') && n + 1 < TableSize(g)
    requires forall i: nat :: 1 <= i <= n ==> DinodeAt(g, disk', i) == DinodeAt(g, disk, i)
    requires DinodeAt(g, disk', n + 1).addrs == a
    ensures TableFiles(g, disk', n + 1) == TableFiles(g, disk, n)[n + 1 := a]
  {
    hide DinodeAt;
  }

  /** `ialloc` adds one empty file. */
  lemma NewInodeHolds(g: Geometry, sb: Block, st: Mk, want: seq<Spec>, kind: ushort)
    requires Holds(g, sb, st.img, want) && st.freeinode == |want| + 1 < TableSize(g)
    ensures Holds(g, sb, NewInode(g, st, kind).img, want + [Spec(kind, [])])
  {
    hide DinodeAt, Clean, Winode, FileIs, ByteAt, Slot;
    var n, disk, files := |want|, st.img.disk, TableFiles(g, st.img.disk, |want|);
    var di := Dinode(kind, 0, 0, 1, 0, NoAddrs());
    WinodeKeeps(g, st.img, files, n + 1, di);
    var img' := NewInode(g, st, kind).img;
    NoAddrsClean(g.DataStart(), img', files, n + 1);
    TableFilesGrow(g, disk, img'.disk, n, NoAddrs());
    EmptyFile(img'.disk, kind);
    var want' := want + [Spec(kind, [])];
    forall i: nat | 1 <= i <= |want'| ensures FileIs(img'.disk, DinodeAt(g, img'.disk, i), want'[i - 1]) {
      if i <= n {
        assert SameBytes(disk, files[i], img'.disk, files[i]);
        FileSame(disk, DinodeAt(g, disk, i), want[i - 1], img'.disk);
      }
    }
  }

  // ----- appending -----

  lemma TableFilesSet(g: Geometry, disk: Disk, disk': Disk, n: nat, inum: nat, a: Addrs)
    requires Fits(g, disk) && Fits(g, disk') && 1 <= inum <= n < TableSize(g)
    requires forall i: nat :: 1 <= i <= n && i != inum ==> DinodeAt(g, disk', i) == DinodeAt(g, disk, i)
    requires DinodeAt(g, disk', inum).addrs == a
    ensures TableFiles(g, disk', n) == TableFiles(g, disk, n)[inum := a]
  {
    hide DinodeAt;
  }

  /** What the loop of an append leaves, in terms of contents. */
  ghost predicate LoopLeft(g: Geometry, img: Img, files: Files, inum: nat, size: nat, p: seq<byte>, r: Appended) {
    && inum in files && g.DataStart() <= |img.disk| == |r.img.disk|
    && Clean(g.DataStart(), r.img, files[inum := r.addrs]) && r.off == size + |p|
    && (p != [] ==> r.off <= MAXBYTES)
    && (forall b :: 0 <= b < g.DataStart() ==> r.img.disk[b] == img.disk[b])
    && (forall f :: f in files && f != inum ==> SameBytes(img.disk, files[f], r.img.disk, files[f]))
    && Content(r.img.disk, r.addrs, r.off) == Content(img.disk, files[inum], size) + p
    && ZeroTail(r.img.disk, r.addrs, r.off)
  }

  lemma LoopLeaves(g: Geometry, img: Img, files: Files, inum: nat, size: nat, p: seq<byte>)
    requires Clean(g.DataStart(), img, files) && inum in files && ZeroTail(img.disk, files[inum], size)
    requires Fits(g, img.disk) && !AppendLoop(img, files[inum], size, p).img.dead
    ensures LoopLeft(g, img, files, inum, size, p, AppendLoop(img, files[inum], size, p))
  {
    hide AppendLoop, Clean, ByteAt, ZeroTail, Content, Spliced;
    CleanSized(g.DataStart(), img, files);
    AppendLoopWell(g.DataStart(), img, files, inum, size, p);
    AppendIsConcat(g.DataStart(), img, files, inum, size, p);
  }

  /** `iappend` appends to the file it names and changes no other. */
  lemma IAppendHolds(g: Geometry, sb: Block, img: Img, want: seq<Spec>, inum: nat, p: seq<byte>)
    requires Holds(g, sb, img, want) && 1 <= inum <= |want| && !IAppend(g, img, inum, p).dead
    ensures Holds(g, sb, IAppend(g, img, inum, p),
                  want[inum - 1 := Spec(want[inum - 1].kind, want[inum - 1].bytes + p)])
  {
    hide DinodeAt, Clean, Winode, ByteAt, Slot, AppendLoop, Content, ZeroTail, SameContents;
    var files, di := TableFiles(g, img.disk, |want|), DinodeAt(g, img.disk, inum);
    assert FileIs(img.disk, di, want[inum - 1]);
    LoopLeaves(g, img, files, inum, di.size, p);
    var r := AppendLoop(img, di.addrs, di.size, p);
    AppendRecord(g, sb, img, want, inum, p, r);
  }

  /** The record follows the loop. */
  lemma AppendRecord(g: Geometry, sb: Block, img: Img, want: seq<Spec>, inum: nat, p: seq<byte>, r: Appended)
    requires Holds(g, sb, img, want) && 1 <= inum <= |want|
    requires LoopLeft(g, img, TableFiles(g, img.disk, |want|), inum, DinodeAt(g, img.disk, inum).size, p, r)
      && !r.img.dead
    ensures var di := DinodeAt(g, img.disk, inum).(addrs := r.addrs, size := r.off % U32);
      Holds(g, sb, r.img.(disk := Winode(g, r.img.disk, inum, di)),
            want[inum - 1 := Spec(want[inum - 1].kind, want[inum - 1].bytes + p)])
  {
    hide DinodeAt, Clean, Winode, ByteAt, Content, ZeroTail, SameContents;
    var n, files, di := |want|, TableFiles(g, img.disk, |want|), DinodeAt(g, img.disk, inum);
    var di', files' := di.(addrs := r.addrs, size := r.off % U32), files[inum := r.addrs];
    assert FileIs(img.disk, di, want[inum - 1]);
    LoopTable(g, img.disk, r.img.disk);
    WinodeKeeps(g, r.img, files', inum, di');
    var disk' := Winode(g, r.img.disk, inum, di');
    TableFilesSet(g, img.disk, disk', n, inum, r.addrs);
    var want' := want[inum - 1 := Spec(want[inum - 1].kind, want[inum - 1].bytes + p)];
    forall i: nat | 1 <= i <= n ensures FileIs(disk', DinodeAt(g, disk', i), want'[i - 1]) {
      AppendedFile(g, img, want, inum, p, r, disk', i);
    }
  }

  /** The append reaches no record. */
  lemma LoopTable(g: Geometry, disk: Disk, disk': Disk)
    requires Fits(g, disk) && |disk'| == |disk|
    requires forall b :: 0 <= b < g.DataStart() ==> disk'[b] == disk[b]
    ensures forall i: nat :: i < TableSize(g) ==> DinodeAt(g, disk', i) == DinodeAt(g, disk, i)
  {
    DinodeFrame(g, disk, disk');
  }

  lemma AppendedFile(g: Geometry, img: Img, want: seq<Spec>, inum: nat, p: seq<byte>, r: Appended, disk': Disk, i: nat)
    requires Fits(g, img.disk) && 1 <= inum <= |want| < TableSize(g) && 1 <= i <= |want|
    requires FileIs(img.disk, DinodeAt(g, img.disk, i), want[i - 1])
    requires FileIs(img.disk, DinodeAt(g, img.disk, inum), want[inum - 1])
    requires LoopLeft(g, img, TableFiles(g, img.disk, |want|), inum, DinodeAt(g, img.disk, inum).size, p, r)
    requires LoopTableSame(g, img.disk, r.img.disk)
    requires Recorded(g, r.img.disk, TableFiles(g, img.disk, |want|)[inum := r.addrs], inum,
                      DinodeAt(g, img.disk, inum).(addrs := r.addrs, size := r.off % U32), disk')
    ensures FileIs(disk', DinodeAt(g, disk', i),
                   want[inum - 1 := Spec(want[inum - 1].kind, want[inum - 1].bytes + p)][i - 1])
  {
    hide DinodeAt, Clean, ByteAt, ZeroTail, Content;
    var files, di := TableFiles(g, img.disk, |want|), DinodeAt(g, img.disk, i);
    var files' := files[inum := r.addrs];
    assert SameBytes(r.img.disk, files'[i], disk', files'[i]);
    if i == inum {
      var di' := di.(addrs := r.addrs, size := r.off % U32);
      assert r.off % U32 == r.off;
      FileSame(r.img.disk, di', Spec(want[i - 1].kind, want[i - 1].bytes + p), disk');
    } else {
      assert SameBytes(img.disk, files[i], r.img.disk, files[i]);
      FileSame(img.disk, di, want[i - 1], r.img.disk);
      FileSame(r.img.disk, di, want[i - 1], disk');
    }
  }

  ghost predicate LoopTableSame(g: Geometry, disk: Disk, disk': Disk) {
    && Fits(g, disk) && Fits(g, disk')
    && forall i: nat :: i < TableSize(g) ==> DinodeAt(g, disk', i) == DinodeAt(g, disk, i)
  }

  /** A file is the concatenation of what was read of it. */
  lemma {:induction false} IAppendAllHolds(g: Geometry, sb: Block, img: Img, want: seq<Spec>, inum: nat,
      chunks: seq<seq<byte>>)
    requires Holds(g, sb, img, want) && 1 <= inum <= |want| && !IAppendAll(g, img, inum, chunks).dead
    ensures Holds(g, sb, IAppendAll(g, img, inum, chunks),
                  want[inum - 1 := Spec(want[inum - 1].kind, want[inum - 1].bytes + Flatten(chunks))])
  {
    hide Holds, IAppend;
    HoldsFits(g, sb, img, want);
    if chunks == [] {
      assert want[inum - 1].bytes + [] == want[inum - 1].bytes;
      assert want[inum - 1 := want[inum - 1]] == want;
    } else {
      var front, last := chunks[..|chunks| - 1], chunks[|chunks| - 1];
      AliveBefore(g, IAppendAll(g, img, inum, front), inum, last);
      IAppendAllHolds(g, sb, img, want, inum, front);
      var want1 := want[inum - 1 := Spec(want[inum - 1].kind, want[inum - 1].bytes + Flatten(front))];
      IAppendHolds(g, sb, IAppendAll(g, img, inum, front), want1, inum, last);
      assert want[inum - 1].bytes + Flatten(front) + last == want[inum - 1].bytes + (Flatten(front) + last);
      assert want1[inum - 1 := Spec(want1[inum - 1].kind, want1[inum - 1].bytes + last)]
          == want[inum - 1 := Spec(want[inum - 1].kind, want[inum - 1].bytes + Flatten(chunks))];
    }
  }

  function Flatten(chunks: seq<seq<byte>>): seq<byte> {
    if chunks == [] then [] else Flatten(chunks[..|chunks| - 1]) + chunks[|chunks| - 1]
  }

  lemma HoldsFits(g: Geometry, sb: Block, img: Img, want: seq<Spec>)
    requires Holds(g, sb, img, want)
    ensures Fits(g, img.disk) && |want| < TableSize(g) && !img.dead
  {
    hide Clean, FileIs, DinodeAt;
  }

  /** The builder never comes back once it has given up. */
  lemma AliveBefore(g: Geometry, img: Img, inum: nat, p: seq<byte>)
    requires Fits(g, img.disk) && inum < TableSize(g) && !IAppend(g, img, inum, p).dead
    ensures !img.dead
  {
    hide AppendLoop, Winode, DinodeAt;
  }

  // ----- items -----

  /** The bytes an item becomes. */
  function ItemSpec(item: Item, inum: nat): Spec {
    match item
    case FileItem(_, chunks) => Spec(T_FILE, Flatten(chunks))
    case DirItem(_) => Spec(T_DIR, EntryBytes(inum, Dot()) + EntryBytes(ROOTINO, DotDot()))
  }

  function RootBytes(items: seq<Item>): seq<byte> {
    if items == [] then EntryBytes(ROOTINO, Dot()) + EntryBytes(ROOTINO, DotDot())
    else RootBytes(items[..|items| - 1]) + EntryBytes(|items| + 1, items[|items| - 1].name)
  }

  /** The files of the image: the root, and one for each item, in order. */
  function Wanted(items: seq<Item>): (w: seq<Spec>)
    ensures |w| == |items| + 1
  {
    [Spec(T_DIR, RootBytes(items))] + seq(|items|, k requires 0 <= k < |items| => ItemSpec(items[k], k + 2))
  }

  /** Filling a new inode with two appends, or with a file's pieces. */
  lemma ItemFilled(g: Geometry, sb: Block, img: Img, want: seq<Spec>, item: Item)
    requires Holds(g, sb, img, want + [Spec(item.Kind(), [])]) && |want| + 1 < TableSize(g)
    ensures Fits(g, img.disk)
    ensures var r := ItemImage(g, img, item, |want| + 1);
      !r.dead ==> Holds(g, sb, r, want + [ItemSpec(item, |want| + 1)])
  {
    hide Holds, IAppend, IAppendAll, EntryBytes;
    var inum, w := |want| + 1, want + [Spec(item.Kind(), [])];
    HoldsFits(g, sb, img, w);
    match item
    case DirItem(_) =>
      var e1, e2 := EntryBytes(inum, Dot()), EntryBytes(ROOTINO, DotDot());
      var img1 := IAppend(g, img, inum, e1);
      if !IAppend(g, img1, inum, e2).dead {
        AliveBefore(g, img1, inum, e2);
        IAppendHolds(g, sb, img, w, inum, e1);
        assert [] + e1 == e1;
        assert w[inum - 1 := Spec(T_DIR, e1)] == want + [Spec(T_DIR, e1)];
        IAppendHolds(g, sb, img1, want + [Spec(T_DIR, e1)], inum, e2);
        assert (want + [Spec(T_DIR, e1)])[inum - 1 := Spec(T_DIR, e1 + e2)] == want + [ItemSpec(item, inum)];
      }
    case FileItem(_, chunks) =>
      if !IAppendAll(g, img, inum, chunks).dead {
        IAppendAllHolds(g, sb, img, w, inum, chunks);
        assert [] + Flatten(chunks) == Flatten(chunks);
        assert w[inum - 1 := Spec(T_FILE, Flatten(chunks))] == want + [ItemSpec(item, inum)];
      }
  }

  lemma WantedAppend(items: seq<Item>, item: Item)
    ensures Wanted(items + [item])
         == (Wanted(items) + [ItemSpec(item, |items| + 2)])
            [0 := Spec(T_DIR, RootBytes(items) + EntryBytes(|items| + 2, item.name))]
  {
    hide EntryBytes, ItemSpec, RootBytes;
    var w := (Wanted(items) + [ItemSpec(item, |items| + 2)])
             [0 := Spec(T_DIR, RootBytes(items) + EntryBytes(|items| + 2, item.name))];
    RootAppend(items, item);
    forall i | 0 <= i < |items| + 2 ensures Wanted(items + [item])[i] == w[i] {
      if i > 0 { WantedAt(items + [item], i); }
      if 0 < i <= |items| { WantedAt(items, i); }
    }
  }

  lemma RootAppend(items: seq<Item>, item: Item)
    ensures RootBytes(items + [item]) == RootBytes(items) + EntryBytes(|items| + 2, item.name)
  {
    hide EntryBytes;
    assert (items + [item])[..|items|] == items;
  }

  lemma WantedAt(items: seq<Item>, i: nat)
    requires 1 <= i <= |items|
    ensures Wanted(items)[i] == ItemSpec(items[i - 1], i + 1)
  {
    hide ItemSpec, RootBytes;
  }

  /** Adding an item adds its file, and its entry to the root. */
  lemma AddItemHolds(g: Geometry, sb: Block, st: Mk, items: seq<Item>, item: Item)
    requires Holds(g, sb, st.img, Wanted(items)) && st.freeinode == |items| + 2 < TableSize(g)
    requires !AddItem(g, st, item).img.dead
    ensures Holds(g, sb, AddItem(g, st, item).img, Wanted(items + [item]))
    ensures |item.name| <= DIRSIZ
  {
    hide Holds, IAppend, ItemImage, EntryBytes, Wanted, NewInode, ItemSpec;
    var want, inum := Wanted(items), |items| + 2;
    HoldsFits(g, sb, st.img, want);
    NewInodeHolds(g, sb, st, want, item.Kind());
    var st1 := NewInode(g, st, item.Kind());
    ItemFilled(g, sb, st1.img, want, item);
    var img1 := ItemImage(g, st1.img, item, inum);
    AliveBefore(g, img1, ROOTINO, EntryBytes(inum, item.name));
    var want1 := want + [ItemSpec(item, inum)];
    IAppendHolds(g, sb, img1, want1, ROOTINO, EntryBytes(inum, item.name));
    WantedRoot(items);
    WantedAppend(items, item);
  }

  lemma WantedRoot(items: seq<Item>)
    ensures Wanted(items)[0] == Spec(T_DIR, RootBytes(items))
  {}

  lemma ZeroRecord(g: Geometry, disk: Disk, i: nat)
    requires Fits(g, disk) && i < TableSize(g) && disk[InodeBlock(g, i)] == ZeroBlock()
    ensures DinodeAt(g, disk, i).kind == 0
  {}

  lemma BlankHolds(g: Geometry, sb: Block)
    requires g.Formed() && 0 < TableSize(g)
    ensures Holds(g, sb, Img(Blank(g, sb), g.DataStart(), false), [])
  {
    var disk := Blank(g, sb);
    hide DinodeAt;
    forall i: nat | i < TableSize(g) ensures DinodeAt(g, disk, i).kind == 0 {
      assert InodeBlock(g, i) < g.bmapstart;
      ZeroRecord(g, disk, i);
    }
    assert TableFiles(g, disk, 0) == map[];
  }

  lemma StartHolds(g: Geometry, sb: Block)
    requires g.Formed() && !Start(g, sb).img.dead
    ensures Holds(g, sb, Start(g, sb).img, Wanted([]))
  {
    hide Holds, IAppend, EntryBytes, NewInode, Blank;
    BlankHolds(g, sb);
    var st0 := Mk(Img(Blank(g, sb), g.DataStart(), false), ROOTINO);
    NewInodeHolds(g, sb, st0, [], T_DIR);
    var img1 := NewInode(g, st0, T_DIR).img;
    assert [] + [Spec(T_DIR, [])] == [Spec(T_DIR, [])];
    var e1, e2 := EntryBytes(ROOTINO, Dot()), EntryBytes(ROOTINO, DotDot());
    var img2 := IAppend(g, img1, ROOTINO, e1);
    AliveBefore(g, img2, ROOTINO, e2);
    AliveBefore(g, img1, ROOTINO, e1);
    IAppendHolds(g, sb, img1, [Spec(T_DIR, [])], ROOTINO, e1);
    assert [] + e1 == e1;
    assert [Spec(T_DIR, [])][0 := Spec(T_DIR, e1)] == [Spec(T_DIR, e1)];
    IAppendHolds(g, sb, img2, [Spec(T_DIR, e1)], ROOTINO, e2);
    assert [Spec(T_DIR, e1)][0 := Spec(T_DIR, e1 + e2)] == Wanted([]);
  }

  /** Unless it gives up, the builder puts every item's bytes into a file of its own
      and lists it in the root. */
  lemma {:induction false} AddItemsHolds(g: Geometry, sb: Block, items: seq<Item>)
    requires g.Formed() && 2 + |items| <= TableSize(g) && !AddItems(g, sb, items).img.dead
    ensures Holds(g, sb, AddItems(g, sb, items).img, Wanted(items))
    ensures forall k :: 0 <= k < |items| ==> |items[k].name| <= DIRSIZ
  {
    hide Holds, Start, AddItem, Wanted;
    if items == [] {
      StartHolds(g, sb);
    } else {
      var front, last := items[..|items| - 1], items[|items| - 1];
      var st := AddItems(g, sb, front);
      ItemAlive(g, st, last);
      AddItemsHolds(g, sb, front);
      AddItemHolds(g, sb, st, front, last);
      assert front + [last] == items;
    }
  }

  lemma ItemAlive(g: Geometry, st: Mk, item: Item)
    requires Fits(g, st.img.disk) && 1 < st.freeinode < TableSize(g) && !AddItem(g, st, item).img.dead
    ensures !st.img.dead
  {
    hide AppendLoop, Winode, DinodeAt, EntryBytes;
    if st.img.dead {
      var st1 := NewInode(g, st, item.Kind());
      assert st1.img.dead;
      if item.FileItem? { DeadAll(g, st1.img, st.freeinode, item.chunks); }
    }
  }

  lemma {:induction false} DeadAll(g: Geometry, img: Img, inum: nat, chunks: seq<seq<byte>>)
    requires Fits(g, img.disk) && inum < TableSize(g) && img.dead
    ensures IAppendAll(g, img, inum, chunks) == img
  {
    hide AppendLoop, Winode, DinodeAt;
    if chunks == [] {
    } else {
      DeadAll(g, img, inum, chunks[..|chunks| - 1]);
    }
  }
}
