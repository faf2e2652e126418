/** The block map of an inode (fs.cpp, `xv6_inode_addr`): twelve direct slots and
    one indirect block, allocated on demand. */
module BlockMap {
  import opened Layout
  import opened Bytes
  import opened Volumes
  import opened Allocator

  // ----- slots -----

  const ROOT := 12        // slot of the indirect block
  const NSLOTS := 269     // 12 direct, 1 indirect root, 256 children

  type Addrs = a: seq<uint> | |a| == NDIRECT + 1 witness seq(NDIRECT + 1, _ => 0)

  /** The block that slot `k` of an inode refers to; 0 if none. */
  function Slot(disk: Disk, a: Addrs, k: nat): uint
    requires k < NSLOTS
  {
    if k <= ROOT then a[k]
    else if 0 < a[ROOT] < |disk| then Word(disk[a[ROOT]], k - 13)
    else 0
  }

  /** The slot of the `i`th block of file data. */
  function DataSlot(i: nat): nat { if i < NDIRECT then i else i + 1 }

  function FileBlock(disk: Disk, a: Addrs, i: nat): uint
    requires i < MAXFILE
  {
    Slot(disk, a, DataSlot(i))
  }

  lemma FirstBlocks(disk: Disk, a: Addrs, i: nat)
    requires i < NDIRECT
    ensures FileBlock(disk, a, i) == a[i]
  {}

  /** Past the direct blocks, with no indirect block, all are missing. */
  lemma NoRootNoBlock(disk: Disk, a: Addrs, i: nat)
    requires NDIRECT <= i < MAXFILE && a[ROOT] == 0
    ensures FileBlock(disk, a, i) == 0
  {}

  /** Byte `p` of a file; holes, and everything past the last block the map can
      reach, read as zero. */
  function ByteAt(disk: Disk, a: Addrs, p: nat): byte {
    if p / BSIZE < MAXFILE && 0 < FileBlock(disk, a, p / BSIZE) < |disk| then
      disk[FileBlock(disk, a, p / BSIZE)][p % BSIZE]
    else
      0
  }

  // ----- the invariant over all files -----

  type Files = map<nat, Addrs>

  /** Every referenced block is a data block that is marked in use. */
  ghost predicate InUse(disk: Disk, lo: nat, used: set<nat>, files: Files) {
    forall f, k: nat :: f in files && k < NSLOTS && Slot(disk, files[f], k) != 0 ==>
      lo <= Slot(disk, files[f], k) < |disk| && Slot(disk, files[f], k) in used
  }

  /** No block is referenced twice, by one file or by two. */
  ghost predicate NoSharing(disk: Disk, files: Files) {
    forall f, k: nat, f', k': nat :: f in files && k < NSLOTS && f' in files && k' < NSLOTS
      && Slot(disk, files[f], k) != 0 && Slot(disk, files[f], k) == Slot(disk, files[f'], k')
      ==> f == f' && k == k'
  }

  ghost predicate Sound(disk: Disk, lo: nat, used: set<nat>, files: Files) {
    InUse(disk, lo, used, files) && NoSharing(disk, files)
  }

  ghost predicate SameBytes(disk: Disk, a: Addrs, disk': Disk, a': Addrs) {
    forall p: nat :: ByteAt(disk', a', p) == ByteAt(disk, a, p)
  }

  /** The same files with the same contents. */
  ghost predicate SameContents(disk: Disk, files: Files, disk': Disk, files': Files) {
    && files'.Keys == files.Keys
    && forall f :: f in files ==> SameBytes(disk, files[f], disk', files'[f])
  }

  ghost predicate SameSlots(disk: Disk, disk': Disk, a: Addrs) {
    forall k: nat :: k < NSLOTS ==> Slot(disk', a, k) == Slot(disk, a, k)
  }

  /** A zeroed data block, marked in use, that no file refers to. */
  ghost predicate Fresh(disk: Disk, lo: nat, used: set<nat>, files: Files, b: nat) {
    && 0 < lo <= b < |disk| < U32
    && b in used
    && disk[b] == ZeroBlock()
    && forall f, k: nat :: f in files && k < NSLOTS ==> Slot(disk, files[f], k) != b
  }

  /** Changing blocks that no file refers to is invisible. */
  lemma Frame(disk: Disk, disk': Disk, lo: nat, used: set<nat>, used': set<nat>, files: Files)
    requires |disk'| == |disk| && used <= used'
    requires Sound(disk, lo, used, files)
    requires forall b :: lo <= b < |disk| && b in used ==> disk'[b] == disk[b]
    ensures forall f :: f in files ==> SameSlots(disk, disk', files[f])
    ensures Sound(disk', lo, used', files)
    ensures SameContents(disk, files, disk', files)
  {
    forall f | f in files
      ensures SameSlots(disk, disk', files[f]) && SameBytes(disk, files[f], disk', files[f])
    {
      FrameOne(disk, disk', lo, used, files, f);
    }
    FrameSound(disk, disk', lo, used, used', files);
  }

  lemma FrameOne(disk: Disk, disk': Disk, lo: nat, used: set<nat>, files: Files, f: nat)
    requires |disk'| == |disk| && f in files
    requires InUse(disk, lo, used, files)
    requires forall b :: lo <= b < |disk| && b in used ==> disk'[b] == disk[b]
    ensures SameSlots(disk, disk', files[f]) && SameBytes(disk, files[f], disk', files[f])
  {
    hide Word;
    var a := files[f];
    assert Slot(disk, a, ROOT) == a[ROOT];
    forall p: nat ensures ByteAt(disk', a, p) == ByteAt(disk, a, p) {
      if p / BSIZE < MAXFILE {
        var k := DataSlot(p / BSIZE);
        assert Slot(disk', a, k) == Slot(disk, a, k);
      }
    }
  }

  lemma FrameSound(disk: Disk, disk': Disk, lo: nat, used: set<nat>, used': set<nat>, files: Files)
    requires |disk'| == |disk| && used <= used'
    requires Sound(disk, lo, used, files)
    requires forall f :: f in files ==> SameSlots(disk, disk', files[f])
    ensures Sound(disk', lo, used', files)
  {
    hide Slot;
    forall f, k: nat | f in files && k < NSLOTS
      ensures Slot(disk', files[f], k) == Slot(disk, files[f], k)
    {
      assert SameSlots(disk, disk', files[f]);
    }
  }

  /** Storing a fresh block in an empty cached slot keeps the invariant and
      every file's contents: a zeroed data block reads like a hole, a zeroed
      indirect block like 256 of them. */
  lemma Attach(disk: Disk, lo: nat, used: set<nat>, files: Files, f: nat, k: nat, b: nat)
    requires Sound(disk, lo, used, files) && Fresh(disk, lo, used, files, b)
    requires f in files && k <= ROOT && files[f][k] == 0
    ensures Sound(disk, lo, used, files[f := files[f][k := b]])
    ensures SameContents(disk, files, disk, files[f := files[f][k := b]])
    ensures forall j: nat :: j < NSLOTS ==>
      Slot(disk, files[f][k := b], j) == if j == k then b else Slot(disk, files[f], j)
  {
    hide Word;
    var a := files[f];
    var a': Addrs := a[k := b];
    forall j: nat | j < NSLOTS
      ensures Slot(disk, a', j) == if j == k then b else Slot(disk, a, j)
    {
      if k == ROOT < j {
        WordZero(j - 13);
      }
    }
    AttachSound(disk, disk, lo, used, files, f, a', k, b);
    forall p: nat ensures ByteAt(disk, a', p) == ByteAt(disk, a, p) {
      if p / BSIZE < MAXFILE {
        var j := DataSlot(p / BSIZE);
        assert Slot(disk, a', j) == if j == k then b else Slot(disk, a, j);
        assert Slot(disk, a, k) == 0;
      }
    }
  }

  /** The invariant part of attaching: one empty slot becomes a fresh block. */
  lemma AttachSound(disk: Disk, disk': Disk, lo: nat, used: set<nat>, files: Files, f: nat, a': Addrs, k: nat, b: nat)
    requires Sound(disk, lo, used, files) && Fresh(disk, lo, used, files, b)
    requires |disk'| == |disk|
    requires f in files && k < NSLOTS
    requires forall j: nat :: j < NSLOTS ==>
      Slot(disk', a', j) == if j == k then b else Slot(disk, files[f], j)
    requires forall f' :: f' in files && f' != f ==> SameSlots(disk, disk', files[f'])
    ensures Sound(disk', lo, used, files[f := a'])
  {
    hide Slot;
    var files' := files[f := a'];
    forall f', j: nat | f' in files && j < NSLOTS
      ensures Slot(disk', files'[f'], j) == if f' == f && j == k then b else Slot(disk, files[f'], j)
    {
      if f' != f {
        assert SameSlots(disk, disk', files[f']);
      }
    }
  }

  /** A new file whose only block is a fresh one reads as zeros. */
  lemma AddFile(disk: Disk, lo: nat, used: set<nat>, files: Files, f: nat, a: Addrs, b: nat)
    requires Sound(disk, lo, used, files) && Fresh(disk, lo, used, files, b) && f !in files
    requires a[0] == b && forall k :: 0 < k <= ROOT ==> a[k] == 0
    ensures Sound(disk, lo, used, files[f := a])
    ensures forall p: nat :: ByteAt(disk, a, p) == 0
  {
    var files' := files[f := a];
    forall f', k: nat | f' in files' && k < NSLOTS
      ensures f' != f ==> f' in files && files'[f'] == files[f']
      ensures f' == f ==> Slot(disk, files'[f'], k) == if k == 0 then b else 0
    {}
    hide Slot;
  }

  /** The disk after entry `j` of indirect block `r` is set to `b`. */
  function WithChild(disk: Disk, r: nat, j: nat, b: uint): Disk
    requires r < |disk| && j < NINDIRECT
  {
    disk[r := PutWord(disk[r], j, b)]
  }

  /** Storing a fresh block in an empty entry of a file's indirect block keeps
      the invariant and every file's contents. */
  lemma AttachChild(disk: Disk, lo: nat, used: set<nat>, files: Files, f: nat, j: nat, b: nat)
    requires Sound(disk, lo, used, files) && Fresh(disk, lo, used, files, b)
    requires f in files && j < NINDIRECT && files[f][ROOT] != 0
    requires Slot(disk, files[f], j + 13) == 0
    ensures 0 < files[f][ROOT] < |disk|
    ensures Sound(WithChild(disk, files[f][ROOT], j, b), lo, used, files)
    ensures SameContents(disk, files, WithChild(disk, files[f][ROOT], j, b), files)
    ensures Slot(WithChild(disk, files[f][ROOT], j, b), files[f], j + 13) == b
  {
    var a := files[f];
    assert Slot(disk, a, ROOT) == a[ROOT];
    var disk' := WithChild(disk, a[ROOT], j, b);
    ChildSlots(disk, lo, used, files, f, j, b);
    assert files[f := a] == files;
    AttachSound(disk, disk', lo, used, files, f, a, j + 13, b);
    forall f' | f' in files ensures SameBytes(disk, files[f'], disk', files[f']) {
      ChildBytes(disk, lo, used, files, f, j, b, f');
    }
  }

  lemma ChildSlots(disk: Disk, lo: nat, used: set<nat>, files: Files, f: nat, j: nat, b: nat)
    requires Sound(disk, lo, used, files) && b < U32
    requires f in files && j < NINDIRECT && 0 < files[f][ROOT] < |disk|
    ensures forall k: nat :: k < NSLOTS ==>
      Slot(WithChild(disk, files[f][ROOT], j, b), files[f], k) == if k == j + 13 then b else Slot(disk, files[f], k)
    ensures forall f' :: f' in files && f' != f ==> SameSlots(disk, WithChild(disk, files[f][ROOT], j, b), files[f'])
  {
    hide Word, PutWord;
    var r := files[f][ROOT];
    var disk' := WithChild(disk, r, j, b);
    forall k: nat | k < NSLOTS
      ensures Slot(disk', files[f], k) == if k == j + 13 then b else Slot(disk, files[f], k)
    {
      if k > ROOT {
        WordPut(disk[r], j, b, k - 13);
      }
    }
    forall f' | f' in files && f' != f ensures SameSlots(disk, disk', files[f']) {
      assert Slot(disk, files[f], ROOT) == r && Slot(disk, files[f'], ROOT) == files[f'][ROOT];
    }
  }

  lemma ChildBytes(disk: Disk, lo: nat, used: set<nat>, files: Files, f: nat, j: nat, b: nat, f': nat)
    requires Sound(disk, lo, used, files) && Fresh(disk, lo, used, files, b)
    requires f in files && j < NINDIRECT && 0 < files[f][ROOT] < |disk|
    requires Slot(disk, files[f], j + 13) == 0 && f' in files
    ensures SameBytes(disk, files[f'], WithChild(disk, files[f][ROOT], j, b), files[f'])
  {
    var r := files[f][ROOT];
    assert r == Slot(disk, files[f], ROOT);
    var disk' := WithChild(disk, r, j, b);
    ChildSlots(disk, lo, used, files, f, j, b);
    forall p: nat ensures ByteAt(disk', files[f'], p) == ByteAt(disk, files[f'], p) {
      if p / BSIZE < MAXFILE {
        hide Slot, WithChild;
        var k := DataSlot(p / BSIZE);
        assert f' != f ==> SameSlots(disk, disk', files[f']);
        assert Slot(disk', files[f'], k) == if f' == f && k == j + 13 then b else Slot(disk, files[f'], k);
      }
    }
  }

  /** Rewriting the `i`th block of a file keeps every slot, every other file, and
      every other block of that file. */
  lemma DataWrite(disk: Disk, lo: nat, used: set<nat>, files: Files, f: nat, i: nat, blk: Block)
    requires Sound(disk, lo, used, files) && f in files && i < MAXFILE
    requires FileBlock(disk, files[f], i) != 0
    ensures 0 < FileBlock(disk, files[f], i) < |disk|
    ensures var disk' := disk[FileBlock(disk, files[f], i) := blk];
      && Sound(disk', lo, used, files)
      && (forall f' :: f' in files ==> SameSlots(disk, disk', files[f']))
      && (forall f' :: f' in files && f' != f ==> SameBytes(disk, files[f'], disk', files[f']))
      && (forall p: nat :: ByteAt(disk', files[f], p)
           == if p / BSIZE == i then blk[p % BSIZE] else ByteAt(disk, files[f], p))
  {
    hide Word;
    var b := FileBlock(disk, files[f], i);
    var disk' := disk[b := blk];
    forall f' | f' in files ensures SameSlots(disk, disk', files[f']) {
      DataWriteSlots(disk, lo, used, files, f, i, blk, f');
    }
    FrameSound(disk, disk', lo, used, used, files);
    forall f', p: nat | f' in files
      ensures ByteAt(disk', files[f'], p)
           == if f' == f && p / BSIZE == i then blk[p % BSIZE] else ByteAt(disk, files[f'], p)
    {
      hide Slot;
      if p / BSIZE < MAXFILE {
        assert SameSlots(disk, disk', files[f']);
        assert Slot(disk', files[f'], DataSlot(p / BSIZE)) == Slot(disk, files[f'], DataSlot(p / BSIZE));
      }
    }
  }

  lemma DataWriteSlots(disk: Disk, lo: nat, used: set<nat>, files: Files, f: nat, i: nat, blk: Block, f': nat)
    requires Sound(disk, lo, used, files) && f in files && f' in files && i < MAXFILE
    requires FileBlock(disk, files[f], i) != 0
    ensures 0 < FileBlock(disk, files[f], i) < |disk|
    ensures SameSlots(disk, disk[FileBlock(disk, files[f], i) := blk], files[f'])
  {
    hide Word;
    assert Slot(disk, files[f'], ROOT) == files[f'][ROOT];
    assert FileBlock(disk, files[f], i) == Slot(disk, files[f], DataSlot(i));
  }

  // ----- the operation -----

  datatype AddrResult = AddrResult(v: Vol, addrs: Addrs, dirty: bool, blockno: uint, err: Errno)

  /** Entry `j` of the indirect block, which is present. */
  function ChildAddr(v: Vol, a: Addrs, dirty: bool, j: nat, alloc: bool): (r: AddrResult)
    requires v.Ok() && j < NINDIRECT
    ensures r.v.Ok() && r.v.g == v.g
  {
    if a[ROOT] >= |v.disk| then
      AddrResult(v, a, dirty, 0, EIO)
    else
      var c := Word(v.disk[a[ROOT]], j);
      if c != 0 || !alloc then
        AddrResult(v, a, dirty, c, OK)
      else if Pick(v) == 0 then
        AddrResult(v, a, dirty, 0, ENOSPC)
      else
        var v1 := Take(v, Pick(v));
        AddrResult(v1.Put(a[ROOT], PutWord(v1.disk[a[ROOT]], j, Pick(v))), a, dirty, Pick(v), OK)
  }

  /** `xv6_inode_addr`: look up, or allocate, block `i` of an inode. */
  function InodeAddr(v: Vol, a: Addrs, dirty: bool, i: nat, alloc: bool): (r: AddrResult)
    requires v.Ok()
    ensures r.v.Ok() && r.v.g == v.g
  {
    if i >= MAXFILE then
      AddrResult(v, a, dirty, 0, EFBIG)
    else if i < NDIRECT then
      if a[i] != 0 || !alloc then
        AddrResult(v, a, false, a[i], OK)
      else if Pick(v) == 0 then
        AddrResult(v, a, true, 0, ENOSPC)
      else
        AddrResult(Take(v, Pick(v)), a[i := Pick(v)], true, Pick(v), OK)
    else if a[ROOT] != 0 then
      ChildAddr(v, a, false, i - NDIRECT, alloc)
    else if !alloc then
      AddrResult(v, a, false, 0, OK)
    else if Pick(v) == 0 then
      AddrResult(v, a, true, 0, ENOSPC)
    else
      ChildAddr(Take(v, Pick(v)), a[ROOT := Pick(v)], true, i - NDIRECT, alloc)
  }

  // ----- what the operation keeps -----

  ghost predicate SoundVol(v: Vol, files: Files) {
    v.Ok() && Sound(v.disk, v.g.DataStart(), UsedSet(v.g, v.disk), files)
  }

  lemma SoundOk(v: Vol, files: Files)
    requires SoundVol(v, files)
    ensures v.Ok()
  {}

  ghost predicate FreshIn(v: Vol, files: Files, b: nat) {
    v.Ok() && Fresh(v.disk, v.g.DataStart(), UsedSet(v.g, v.disk), files, b)
  }

  /** Rewriting a data block keeps the free map. */
  lemma DataPutUsed(v: Vol, b: nat, blk: Block)
    requires v.Ok() && v.g.IsData(b)
    ensures v.Put(b, blk).Ok() && UsedSet(v.g, v.Put(b, blk).disk) == UsedSet(v.g, v.disk)
  {
    UsedFrame(v.g, v.disk, v.Put(b, blk).disk);
  }

  lemma TakeSafe(v: Vol, files: Files)
    requires SoundVol(v, files) && Pick(v) != 0
    ensures v.g.IsData(Pick(v)) && Take(v, Pick(v)).g == v.g
    ensures SoundVol(Take(v, Pick(v)), files)
    ensures SameContents(v.disk, files, Take(v, Pick(v)).disk, files)
    ensures forall f :: f in files ==> SameSlots(v.disk, Take(v, Pick(v)).disk, files[f])
    ensures FreshIn(Take(v, Pick(v)), files, Pick(v))
    ensures UsedSet(v.g, Take(v, Pick(v)).disk) == UsedSet(v.g, v.disk) + {Pick(v)}
    ensures SameTable(v.g, v.disk, Take(v, Pick(v)).disk)
  {
    var b := Pick(v);
    PickSound(v);
    TakeEffect(v, b);
    hide Take, Used, Pick, Slot, UsedSet;
    var v' := Take(v, b);
    assert b !in UsedSet(v.g, v.disk) by { PickNotUsed(v); }
    Frame(v.disk, v'.disk, v.g.DataStart(), UsedSet(v.g, v.disk), UsedSet(v.g, v'.disk), files);
    forall f, k: nat | f in files && k < NSLOTS
      ensures Slot(v'.disk, files[f], k) != b
    {
      assert SameSlots(v.disk, v'.disk, files[f]);
    }
  }

  lemma PickNotUsed(v: Vol)
    requires v.Ok() && Pick(v) != 0
    ensures Pick(v) !in UsedSet(v.g, v.disk)
  {
    PickSound(v);
  }

  /** The in-core map of `f` after the operation. */
  function Updated(files: Files, f: nat, r: AddrResult): Files
    requires f in files
  {
    files[f := r.addrs]
  }

  lemma SameContentsTrans(d: Disk, files: Files, d': Disk, files': Files, d'': Disk, files'': Files)
    requires SameContents(d, files, d', files') && SameContents(d', files', d'', files'')
    ensures SameContents(d, files, d'', files'')
  {
    hide ByteAt;
    forall f | f in files ensures SameBytes(d, files[f], d'', files''[f]) {
      assert SameBytes(d, files[f], d', files'[f]) && SameBytes(d', files'[f], d'', files''[f]);
    }
  }

  lemma RootInRange(v: Vol, files: Files, f: nat)
    requires SoundVol(v, files) && f in files
    ensures files[f][ROOT] < |v.disk|
    ensures files[f][ROOT] != 0 ==> v.g.IsData(files[f][ROOT])
  {
    assert Slot(v.disk, files[f], ROOT) == files[f][ROOT];
  }

  lemma ChildAddrSafe(v: Vol, files: Files, f: nat, dirty: bool, j: nat, alloc: bool)
    requires SoundVol(v, files) && f in files && j < NINDIRECT
    requires files[f][ROOT] != 0
    ensures var r := ChildAddr(v, files[f], dirty, j, alloc);
      && r.err in {OK, ENOSPC}
      && r.v.g == v.g && r.addrs == files[f] && SoundVol(r.v, files) && SameTable(v.g, v.disk, r.v.disk)
      && SameContents(v.disk, files, r.v.disk, files)
      && UsedSet(v.g, v.disk) <= UsedSet(v.g, r.v.disk)
      && (r.err == ENOSPC ==> Pick(r.v) == 0)
      && (r.err == OK ==> r.blockno == Slot(r.v.disk, r.addrs, j + 13))
      && (r.err == OK && alloc ==> r.blockno != 0)
  {
    hide Word, PutWord, Take, Used, Pick, UsedSet, Sound, SameContents, WithChild;
    var a := files[f];
    RootInRange(v, files, f);
    var c := Word(v.disk[a[ROOT]], j);
    assert c == Slot(v.disk, a, j + 13);
    if c == 0 && alloc && Pick(v) != 0 {
      ChildTaken(v, files, f, j);
    } else {
      SameContentsRefl(v.disk, files);
    }
  }

  lemma SameContentsRefl(disk: Disk, files: Files)
    ensures SameContents(disk, files, disk, files)
  {
    hide ByteAt;
  }

  /** Taking a block for an empty entry of the indirect block. */
  lemma ChildTaken(v: Vol, files: Files, f: nat, j: nat)
    requires SoundVol(v, files) && f in files && j < NINDIRECT && 0 < files[f][ROOT] < |v.disk|
    requires Slot(v.disk, files[f], j + 13) == 0 && Pick(v) != 0
    ensures v.g.IsData(Pick(v)) && Take(v, Pick(v)).Ok() && v.g.IsData(files[f][ROOT])
    ensures var v1 := Take(v, Pick(v));
      var v2 := v1.Put(files[f][ROOT], PutWord(v1.disk[files[f][ROOT]], j, Pick(v)));
      && SoundVol(v2, files) && v2.g == v.g && SameTable(v.g, v.disk, v2.disk)
      && SameContents(v.disk, files, v2.disk, files)
      && UsedSet(v.g, v.disk) <= UsedSet(v.g, v2.disk)
      && Slot(v2.disk, files[f], j + 13) == Pick(v) != 0
  {
    hide Word, PutWord, Take, Used, Pick, UsedSet, Sound, SameContents, Slot;
    var a, b := files[f], Pick(v);
    RootInRange(v, files, f);
    TakeSafe(v, files);
    var v1 := Take(v, b);
    assert SameSlots(v.disk, v1.disk, a);
    AttachChild(v1.disk, v.g.DataStart(), UsedSet(v.g, v1.disk), files, f, j, b);
    DataPutUsed(v1, a[ROOT], PutWord(v1.disk[a[ROOT]], j, b));
    SameContentsTrans(v.disk, files, v1.disk, files, WithChild(v1.disk, a[ROOT], j, b), files);
  }

  /** What one call leaves: the invariant, what every file reads as, and all bits
      already set; on success, the block the map now has in that place. */
  ghost predicate Keeps(v: Vol, files: Files, f: nat, i: nat, alloc: bool, r: AddrResult) {
    && f in files
    && r.v.g == v.g && SoundVol(v, files) && SoundVol(r.v, Updated(files, f, r)) && SameTable(v.g, v.disk, r.v.disk)
    && SameContents(v.disk, files, r.v.disk, Updated(files, f, r))
    && UsedSet(v.g, v.disk) <= UsedSet(v.g, r.v.disk)
    && r.err in {OK, EFBIG, ENOSPC}
    && (r.err == EFBIG <==> i >= MAXFILE)
    && (r.err == ENOSPC ==> alloc && Pick(r.v) == 0)
    && (r.err == OK ==> r.blockno == FileBlock(r.v.disk, r.addrs, i))
    && (r.err == OK && alloc ==> r.blockno != 0)
    && (!alloc ==> r.v == v && r.addrs == files[f])
  }

  lemma DirectKeeps(v: Vol, files: Files, f: nat, dirty: bool, i: nat)
    requires SoundVol(v, files) && f in files
    requires i < NDIRECT && files[f][i] == 0 && Pick(v) != 0
    ensures Keeps(v, files, f, i, true, InodeAddr(v, files[f], dirty, i, true))
  {
    RootInRange(v, files, f);
    hide Word, Take, Used, UsedSet, ChildAddr, Pick;
    var a := files[f];
    TakeSafe(v, files);
    var v1 := Take(v, Pick(v));
    Attach(v1.disk, v.g.DataStart(), UsedSet(v.g, v1.disk), files, f, i, Pick(v));
    SameContentsTrans(v.disk, files, v1.disk, files, v1.disk, files[f := a[i := Pick(v)]]);
  }

  lemma RootKeeps(v: Vol, files: Files, f: nat, dirty: bool, i: nat)
    requires SoundVol(v, files) && f in files
    requires NDIRECT <= i < MAXFILE && files[f][ROOT] == 0 && Pick(v) != 0
    ensures Keeps(v, files, f, i, true, InodeAddr(v, files[f], dirty, i, true))
  {
    hide Word, Take, Used, UsedSet, ChildAddr, Pick, Slot;
    var a := files[f];
    TakeSafe(v, files);
    var v1 := Take(v, Pick(v));
    Attach(v1.disk, v.g.DataStart(), UsedSet(v.g, v1.disk), files, f, ROOT, Pick(v));
    var files1 := files[f := a[ROOT := Pick(v)]];
    ChildAddrSafe(v1, files1, f, true, i - NDIRECT, true);
    var r := InodeAddr(v, a, dirty, i, true);
    assert Updated(files, f, r) == files1;
    SameContentsTrans(v.disk, files, v1.disk, files, v1.disk, files1);
    SameContentsTrans(v.disk, files, v1.disk, files1, r.v.disk, files1);
  }

  lemma ChildKeeps(v: Vol, files: Files, f: nat, dirty: bool, i: nat, alloc: bool)
    requires SoundVol(v, files) && f in files
    requires NDIRECT <= i < MAXFILE && files[f][ROOT] != 0
    ensures Keeps(v, files, f, i, alloc, InodeAddr(v, files[f], dirty, i, alloc))
  {
    hide Word, Take, Used, UsedSet, ChildAddr, Pick, Slot, ByteAt;
    ChildAddrSafe(v, files, f, false, i - NDIRECT, alloc);
    assert files[f := files[f]] == files;
    if !alloc { ChildLookup(v, files[f], false, i - NDIRECT); }
  }

  /** The calls that change nothing on disk. */
  lemma IdleKeeps(v: Vol, files: Files, f: nat, r: AddrResult, i: nat, alloc: bool)
    requires SoundVol(v, files) && f in files
    requires r.v == v && r.addrs == files[f]
    requires r.err in {OK, EFBIG, ENOSPC}
    requires r.err == EFBIG <==> i >= MAXFILE
    requires r.err == ENOSPC ==> alloc && Pick(v) == 0
    requires r.err == OK ==> r.blockno == FileBlock(v.disk, files[f], i)
    requires r.err == OK && alloc ==> r.blockno != 0
    ensures Keeps(v, files, f, i, alloc, r)
  {
    hide Slot, ByteAt, Used, FileBlock;
    assert files[f := files[f]] == files;
  }

  /** Looking up or allocating a block keeps the invariant, never changes what
      any file reads as, never clears a bitmap bit, and on success returns the
      block the map now has in that place. */
  lemma InodeAddrKeeps(v: Vol, files: Files, f: nat, dirty: bool, i: nat, alloc: bool)
    requires SoundVol(v, files) && f in files
    ensures Keeps(v, files, f, i, alloc, InodeAddr(v, files[f], dirty, i, alloc))
  {
    var a := files[f];
    RootInRange(v, files, f);
    hide Keeps, Take, ChildAddr, Used, Word, Pick;
    if i < NDIRECT && a[i] == 0 && alloc && Pick(v) != 0 {
      DirectKeeps(v, files, f, dirty, i);
    } else if NDIRECT <= i < MAXFILE && a[ROOT] != 0 {
      ChildKeeps(v, files, f, dirty, i, alloc);
    } else if NDIRECT <= i < MAXFILE && alloc && Pick(v) != 0 {
      RootKeeps(v, files, f, dirty, i);
    } else {
      IdleKeeps(v, files, f, InodeAddr(v, a, dirty, i, alloc), i, alloc);
    }
  }

  lemma ChildLookup(v: Vol, a: Addrs, dirty: bool, j: nat)
    requires v.Ok() && j < NINDIRECT
    ensures ChildAddr(v, a, dirty, j, false).v == v && ChildAddr(v, a, dirty, j, false).addrs == a
    ensures ChildAddr(v, a, dirty, j, false).err != ENOSPC
    ensures ChildAddr(v, a, dirty, j, false).dirty == dirty
  {}

  /** A lookup changes nothing and leaves the context clean. */
  lemma LookupIdle(v: Vol, a: Addrs, i: nat)
    requires v.Ok()
    ensures var r := InodeAddr(v, a, false, i, false); r.v == v && r.addrs == a && !r.dirty
  {
    hide ChildAddr;
    if NDIRECT <= i < MAXFILE && a[ROOT] != 0 {
      ChildLookup(v, a, false, i - NDIRECT);
    }
  }

  // ----- when the searches come back -----

  /** The search for a block for entry `j` of the indirect block, if there is one. */
  predicate ChildEnds(v: Vol, a: Addrs, j: nat)
    requires v.Ok() && j < NINDIRECT
  {
    a[ROOT] < |v.disk| && Word(v.disk[a[ROOT]], j) == 0 ==> BallocEnds(v)
  }

  /** Every search for a block that the lookup makes comes back. */
  predicate AddrEnds(v: Vol, a: Addrs, i: nat, alloc: bool)
    requires v.Ok()
  {
    alloc && i < MAXFILE ==>
      if i < NDIRECT then a[i] == 0 ==> BallocEnds(v)
      else if a[ROOT] != 0 then ChildEnds(v, a, i - NDIRECT)
      else BallocEnds(v) && (Pick(v) != 0 ==> ChildEnds(Take(v, Pick(v)), a[ROOT := Pick(v)], i - NDIRECT))
  }

  lemma SmallAddrEnds(v: Vol, a: Addrs, i: nat, alloc: bool)
    requires v.Ok() && v.g.size <= BPB
    ensures AddrEnds(v, a, i, alloc)
  {
    hide BallocEnds, Take, Pick, Word;
    SmallVolumeEnds(v);
    if Pick(v) != 0 { SmallVolumeEnds(Take(v, Pick(v))); }
  }

  // ----- implementation -----

  /** `struct xv6_inode_ctx`: the cached addresses are shared with the inode the
      context was made from; size and dirty flag are its own. */
  class InodeCtx {
    const addrs: array<uint>
    var size: uint
    var dirty: bool

    constructor (addrs: array<uint>, size: uint)
      requires addrs.Length == NDIRECT + 1
      ensures this.addrs == addrs && this.size == size && !dirty
    {
      this.addrs, this.size, this.dirty := addrs, size, false;
    }

    ghost predicate Valid(vol: Volume)
      reads this, addrs, vol
    {
      addrs.Length == NDIRECT + 1 && vol.V().Ok()
    }
  }

  /** `xv6_inode_addr`. */
  method GetAddr(vol: Volume, ctx: InodeCtx, i: nat, alloc: bool) returns (blockno: uint, err: Errno)
    requires ctx.Valid(vol) && AddrEnds(vol.V(), ctx.addrs[..], i, alloc)
    modifies vol, ctx`dirty, ctx.addrs
    ensures AddrResult(vol.V(), ctx.addrs[..], ctx.dirty, blockno, err)
         == InodeAddr(old(vol.V()), old(ctx.addrs[..]), old(ctx.dirty), i, alloc)
  {
    hide Take, Word, FirstClear, BallocEnds, Pick, ChildAddr, ChildEnds;
    blockno := 0;
    if i >= MAXFILE {
      return 0, EFBIG;
    }
    err := OK;
    var addrs := ctx.addrs;
    ctx.dirty := false;
    if i < NDIRECT {
      if addrs[i] == 0 && alloc {
        addrs[i] := BallocBlock(vol);
        if addrs[i] == 0 {
          err := ENOSPC;
        }
        ctx.dirty := true;
      }
      return addrs[i], err;
    }
    if addrs[ROOT] == 0 {
      if !alloc {
        return 0, OK;
      }
      ctx.dirty := true;
      addrs[ROOT] := BallocBlock(vol);
      if addrs[ROOT] == 0 {
        return 0, ENOSPC;
      }
    }
    blockno, err := GetChildAddr(vol, ctx, i - NDIRECT, alloc);
  }

  /** The second half of `xv6_inode_addr`: entry `j` of the indirect block. */
  method GetChildAddr(vol: Volume, ctx: InodeCtx, j: nat, alloc: bool) returns (blockno: uint, err: Errno)
    requires ctx.Valid(vol) && j < NINDIRECT && (alloc ==> ChildEnds(vol.V(), ctx.addrs[..], j))
    modifies vol
    ensures AddrResult(vol.V(), ctx.addrs[..], ctx.dirty, blockno, err)
         == ChildAddr(old(vol.V()), old(ctx.addrs[..]), old(ctx.dirty), j, alloc)
  {
    hide Take, FirstClear, BallocEnds, Pick;
    var indirno := ctx.addrs[ROOT];
    if indirno >= |vol.disk| {
      return 0, EIO;
    }
    var datano := Word(vol.disk[indirno], j);
    if datano == 0 {
      if !alloc {
        return 0, OK;
      }
      datano := BallocBlock(vol);
      if datano == 0 {
        return 0, ENOSPC;
      }
      vol.Write(indirno, PutWord(vol.disk[indirno], j, datano));
    }
    return datano, OK;
  }
}
