/** Inodes (inode.c): the on-disk table, first-fit allocation, write-back, and
    release of everything a file holds. */
module Inodes {
  import opened Layout
  import opened Bytes
  import opened Volumes
  import opened Allocator
  import opened BlockMap

  // ----- records -----

  /** `struct dinode`. */
  datatype Dinode = Dinode(kind: ushort, major: ushort, minor: ushort, nlink: ushort, size: uint, addrs: Addrs)

  function Encode(di: Dinode): (s: seq<byte>)
    ensures |s| == DISIZE
  {
    ToLe16(di.kind) + ToLe16(di.major) + ToLe16(di.minor) + ToLe16(di.nlink) + ToLe32(di.size)
    + seq(52, i requires 0 <= i < 52 => ToLe32(di.addrs[i / 4])[i % 4])
  }

  function Decode(s: seq<byte>): Dinode
    requires |s| == DISIZE
  {
    Dinode(Le16(s[0..2]), Le16(s[2..4]), Le16(s[4..6]), Le16(s[6..8]), Le32(s[8..12]),
           seq(NDIRECT + 1, j requires 0 <= j <= NDIRECT => Le32(s[12 + 4 * j..16 + 4 * j])))
  }

  lemma DecodeEncode(di: Dinode)
    ensures Decode(Encode(di)) == di
  {
    var s := Encode(di);
    assert s[0..2] == ToLe16(di.kind) && s[2..4] == ToLe16(di.major);
    assert s[4..6] == ToLe16(di.minor) && s[6..8] == ToLe16(di.nlink);
    assert s[8..12] == ToLe32(di.size);
    Le32Of(di.size);
    forall j | 0 <= j <= NDIRECT
      ensures Le32(s[12 + 4 * j..16 + 4 * j]) == di.addrs[j]
    {
      assert s[12 + 4 * j..16 + 4 * j] == ToLe32(di.addrs[j]);
      Le32Of(di.addrs[j]);
    }
    assert Decode(s).addrs == di.addrs;
  }

  // ----- the table -----

  /** The table is as long as the inode region: `ialloc` scans its last block to
      the end, past the superblock's inode count. */
  function TableSize(g: Geometry): int { (g.bmapstart - g.inodestart) * IPB }

  function InodeBlock(g: Geometry, inum: nat): nat { g.inodestart + inum / IPB }

  function DinodeAt(g: Geometry, disk: Disk, inum: nat): Dinode
    requires g.Formed() && |disk| == g.size && inum < TableSize(g)
  {
    Decode(disk[InodeBlock(g, inum)][DISIZE * (inum % IPB)..DISIZE * (inum % IPB) + DISIZE])
  }

  /** Store one record of the table and flush its block. */
  function PutInode(v: Vol, inum: nat, di: Dinode): (v': Vol)
    requires v.Sized() && inum < TableSize(v.g)
    ensures v'.Sized() && v'.g == v.g && v'.hint == v.hint
  {
    v.Put(InodeBlock(v.g, inum), Blit(v.disk[InodeBlock(v.g, inum)], DISIZE * (inum % IPB), Encode(di)))
  }

  /** Outside the inode region nothing matters to the table. */
  lemma DinodeFrame(g: Geometry, disk: Disk, disk': Disk)
    requires g.Formed() && SameTable(g, disk, disk')
    ensures forall f: nat :: f < TableSize(g) ==> DinodeAt(g, disk', f) == DinodeAt(g, disk, f)
  {
    hide Decode;
    forall f: nat | f < TableSize(g)
      ensures DinodeAt(g, disk', f) == DinodeAt(g, disk, f)
    {
      assert InodeBlock(g, f) < g.bmapstart;
    }
  }

  /** Storing a record changes that record, no other, and nothing outside the
      inode region. */
  lemma PutInodeEffect(v: Vol, inum: nat, di: Dinode)
    requires v.Sized() && inum < TableSize(v.g)
    ensures forall n: nat :: n < TableSize(v.g) ==>
      DinodeAt(v.g, PutInode(v, inum, di).disk, n) == if n == inum then di else DinodeAt(v.g, v.disk, n)
    ensures UsedSet(v.g, PutInode(v, inum, di).disk) == UsedSet(v.g, v.disk)
    ensures forall b :: v.g.bmapstart <= b < v.g.size ==> PutInode(v, inum, di).disk[b] == v.disk[b]
  {
    var v' := PutInode(v, inum, di);
    UsedFrame(v.g, v.disk, v'.disk);
    forall n: nat | n < TableSize(v.g)
      ensures DinodeAt(v.g, v'.disk, n) == if n == inum then di else DinodeAt(v.g, v.disk, n)
    {
      DecodeEncode(di);
      hide Encode, Decode;
      BlitSlice(v.disk[InodeBlock(v.g, inum)], DISIZE * (inum % IPB), Encode(di), DISIZE * (n % IPB), DISIZE);
    }
  }

  lemma PutInodeFirst(v: Vol, inum: nat, di: Dinode)
    requires v.Sized() && inum < TableSize(v.g)
    ensures forall b :: 0 <= b < v.g.inodestart ==> PutInode(v, inum, di).disk[b] == v.disk[b]
  {}

  lemma PutTrace(v: Vol, n: nat, di: Dinode)
    requires v.Sized() && n < TableSize(v.g)
    ensures PutInode(v, n, di).trace == v.trace + [PutInode(v, n, di).disk]
  {
    hide Encode;
  }

  /** Storing a record is invisible to files. */
  lemma PutInodeSafe(v: Vol, files: Files, inum: nat, di: Dinode)
    requires SoundVol(v, files) && inum < TableSize(v.g)
    ensures SoundVol(PutInode(v, inum, di), files)
    ensures SameContents(v.disk, files, PutInode(v, inum, di).disk, files)
    ensures forall f :: f in files ==> SameSlots(v.disk, PutInode(v, inum, di).disk, files[f])
  {
    PutInodeEffect(v, inum, di);
    hide PutInode;
    Frame(v.disk, PutInode(v, inum, di).disk, v.g.DataStart(), UsedSet(v.g, v.disk), UsedSet(v.g, v.disk), files);
  }

  // ----- in-core inodes -----

  /** The contents of an in-core inode. */
  datatype Node = Node(isDir: bool, addrs: Addrs, size: nat, nlink: nat)

  /** `xv6_sync_inode`: addresses, size and link count go back to the table. */
  function SyncInode(v: Vol, inum: nat, n: Node): (v': Vol)
    requires v.Sized() && inum < TableSize(v.g)
    ensures v'.Sized() && v'.g == v.g && v'.hint == v.hint
  {
    PutInode(v, inum, DinodeAt(v.g, v.disk, inum).(addrs := n.addrs, size := n.size % U32, nlink := n.nlink % U16))
  }

  // ----- allocation in the table -----

  /** The first record at or after `n` whose type is zero. */
  function FreeInum(g: Geometry, disk: Disk, n: nat): (r: nat)
    requires g.Formed() && |disk| == g.size && n <= TableSize(g)
    ensures n <= r <= TableSize(g)
    decreases TableSize(g) - n
  {
    if n == TableSize(g) || DinodeAt(g, disk, n).kind == 0 then n else FreeInum(g, disk, n + 1)
  }

  /** First fit: the record found is free and all before it are taken. */
  lemma {:induction false} FreeInumFirstFit(g: Geometry, disk: Disk, n: nat)
    requires g.Formed() && |disk| == g.size && n <= TableSize(g)
    ensures forall m: nat :: n <= m < FreeInum(g, disk, n) ==> DinodeAt(g, disk, m).kind != 0
    ensures FreeInum(g, disk, n) < TableSize(g) ==> DinodeAt(g, disk, FreeInum(g, disk, n)).kind == 0
    decreases TableSize(g) - n
  {
    hide DinodeAt;
    if n >= TableSize(g) || DinodeAt(g, disk, n).kind == 0 {
    } else {
      FreeInumFirstFit(g, disk, n + 1);
    }
  }

  /** No record that `ialloc` looks at is free. */
  ghost predicate TableFull(v: Vol)
    requires v.Sized()
  {
    forall n: nat :: 2 <= n < TableSize(v.g) ==> DinodeAt(v.g, v.disk, n).kind != 0
  }

  /** `xv6_ialloc`: inodes 0 (null) and 1 (root) are skipped; 0 means none left. */
  function Ialloc(v: Vol, di: Dinode): (r: (Vol, nat))
    requires v.Sized()
    ensures r.0.Sized() && r.0.g == v.g && r.0.hint == v.hint
    ensures r.1 < TableSize(v.g)
  {
    var n := FreeInum(v.g, v.disk, 2);
    if n == TableSize(v.g) then (v, 0) else (PutInode(v, n, di), n)
  }

  /** First fit over the whole table: it fails exactly when every record from 2 on is
      in use, and otherwise takes the first free one and no other. */
  lemma IallocFirstFit(v: Vol, di: Dinode)
    requires v.Sized()
    ensures var (v', inum) := Ialloc(v, di);
      && (inum == 0 <==> TableFull(v))
      && (inum == 0 ==> v' == v)
      && (inum != 0 ==>
            && 2 <= inum < TableSize(v.g) && DinodeAt(v.g, v.disk, inum).kind == 0
            && (forall n: nat :: 2 <= n < inum ==> DinodeAt(v.g, v.disk, n).kind != 0)
            && forall n: nat :: n < TableSize(v.g) ==>
                 DinodeAt(v.g, v'.disk, n) == if n == inum then di else DinodeAt(v.g, v.disk, n))
  {
    hide DinodeAt, PutInode;
    FreeInumFirstFit(v.g, v.disk, 2);
    var n := FreeInum(v.g, v.disk, 2);
    if n < TableSize(v.g) { PutInodeEffect(v, n, di); }
  }

  /** `xv6_ifree`. */
  function Ifree(v: Vol, inum: nat): (v': Vol)
    requires v.Sized() && inum < TableSize(v.g)
    ensures v'.Sized() && v'.g == v.g && v'.hint == v.hint
  {
    PutInode(v, inum, NullDinode())
  }

  function NoAddrs(): Addrs { seq(NDIRECT + 1, _ => 0) }

  function NullDinode(): Dinode { Dinode(0, 0, 0, 0, 0, NoAddrs()) }

  // ----- release -----

  /** Free every block of a list, in order, skipping zeros. */
  function FreeAll(v: Vol, bs: seq<uint>): (v': Vol)
    requires v.Sized() && forall b :: b in bs && b != 0 ==> v.g.IsData(b)
    ensures v'.Sized() && v'.g == v.g && v'.hint == v.hint
    decreases |bs|
  {
    if bs == [] then v
    else FreeAll(if bs[0] != 0 then Bfree(v, bs[0]) else v, bs[1..])
  }

  /** The entries of an indirect block. */
  function Children(disk: Disk, root: nat): (s: seq<uint>)
    requires root < |disk|
    ensures |s| == NINDIRECT
  {
    seq(NINDIRECT, j requires 0 <= j < NINDIRECT => Word(disk[root], j))
  }

  /** What `xv6_inode_clear` frees: direct blocks, children, then the root. */
  function Held(disk: Disk, a: Addrs): seq<uint> {
    a[..NDIRECT]
    + (if 0 < a[ROOT] < |disk| then Children(disk, a[ROOT]) else [])
    + [a[ROOT]]
  }

  function NonZero(bs: seq<uint>): nat {
    if bs == [] then 0 else (if bs[0] != 0 then 1 else 0) + NonZero(bs[1..])
  }

  ghost predicate AllDistinct(bs: seq<uint>) {
    forall i, j :: 0 <= i < j < |bs| && bs[i] != 0 ==> bs[i] != bs[j]
  }

  function Blocks(bs: seq<uint>): set<nat> { set b: nat | b in bs && b != 0 }

  /** Freeing a list clears exactly the bits of its blocks and leaves every
      block outside the bitmap alone. When the blocks are distinct and in use,
      each one costs one bitmap write: the double-free branch is never taken. */
  lemma {:induction false} FreeAllEffect(v: Vol, bs: seq<uint>)
    requires v.Sized() && forall b :: b in bs && b != 0 ==> v.g.IsData(b)
    ensures UsedSet(v.g, FreeAll(v, bs).disk) == UsedSet(v.g, v.disk) - Blocks(bs)
    ensures forall b :: v.g.IsData(b) || 0 <= b < v.g.bmapstart ==> FreeAll(v, bs).disk[b] == v.disk[b]
    ensures AllDistinct(bs) && Blocks(bs) <= UsedSet(v.g, v.disk) ==>
      |FreeAll(v, bs).trace| == |v.trace| + NonZero(bs)
    decreases |bs|
  {
    hide Used, Bfree, UsedSet;
    if bs == [] {
    } else {
      var v1 := if bs[0] != 0 then Bfree(v, bs[0]) else v;
      if bs[0] != 0 { BfreeEffect(v, bs[0]); }
      FreeAllEffect(v1, bs[1..]);
      assert Blocks(bs) == Blocks(bs[1..]) + if bs[0] != 0 then {bs[0] as nat} else {};
      assert AllDistinct(bs) ==> AllDistinct(bs[1..]) && (bs[0] != 0 ==> bs[0] as nat !in Blocks(bs[1..]));
    }
  }

  /** The set of blocks an inode refers to. */
  function Refs(disk: Disk, a: Addrs): set<nat> {
    set k: nat | k < NSLOTS && Slot(disk, a, k) != 0 :: Slot(disk, a, k) as nat
  }

  /** Where slot `k` stands in the release order. */
  function HeldIndex(disk: Disk, a: Addrs, k: nat): nat {
    if k < ROOT then k else if k > ROOT then k - 1 else |Held(disk, a)| - 1
  }

  lemma HeldSlot(disk: Disk, a: Addrs, k: nat)
    requires a[ROOT] < |disk| && k < NSLOTS
    ensures k <= ROOT || a[ROOT] != 0 ==>
      HeldIndex(disk, a, k) < |Held(disk, a)| && Held(disk, a)[HeldIndex(disk, a, k)] == Slot(disk, a, k)
    ensures k > ROOT && a[ROOT] == 0 ==> Slot(disk, a, k) == 0
  {
    hide Word;
  }

  /** The release order lists the slots, and every slot in use. */
  lemma HeldAll(disk: Disk, a: Addrs)
    requires a[ROOT] < |disk|
    ensures var h := Held(disk, a);
      && (forall t: nat :: t < |h| ==> SlotOf(h, t) < NSLOTS && h[t] == Slot(disk, a, SlotOf(h, t)))
      && (forall k: nat :: k < NSLOTS && Slot(disk, a, k) != 0 ==> Slot(disk, a, k) in h)
  {
    hide Slot, Held, HeldIndex, SlotOf;
    var h := Held(disk, a);
    forall t: nat | t < |h|
      ensures SlotOf(h, t) < NSLOTS && h[t] == Slot(disk, a, SlotOf(h, t))
    {
      IndexOfSlot(disk, a, t);
      HeldSlot(disk, a, SlotOf(h, t));
    }
    forall k: nat | k < NSLOTS && Slot(disk, a, k) != 0 ensures Slot(disk, a, k) in h {
      HeldSlot(disk, a, k);
    }
  }

  lemma IndexOfSlot(disk: Disk, a: Addrs, t: nat)
    requires a[ROOT] < |disk| && t < |Held(disk, a)|
    ensures var k := SlotOf(Held(disk, a), t);
      k < NSLOTS && HeldIndex(disk, a, k) == t && (k <= ROOT || a[ROOT] != 0)
  {
    hide Word;
  }

  /** The release order lists every slot once. */
  lemma HeldSlots(disk: Disk, a: Addrs)
    requires a[ROOT] < |disk|
    requires forall k: nat, k': nat ::
      (k < NSLOTS && k' < NSLOTS && Slot(disk, a, k) != 0 && Slot(disk, a, k) == Slot(disk, a, k')) ==> k == k'
    ensures Blocks(Held(disk, a)) == Refs(disk, a)
    ensures AllDistinct(Held(disk, a))
  {
    hide Slot, Held;
    HeldAll(disk, a);
    var h := Held(disk, a);
    forall i: nat, j: nat | i < j < |h| && h[i] != 0 ensures h[i] != h[j] {
      assert SlotOf(h, i) != SlotOf(h, j);
    }
  }

  function SlotOf(h: seq<uint>, t: nat): nat
    requires t < |h|
  {
    if t < ROOT then t else if t == |h| - 1 then ROOT else t + 1
  }

  lemma {:induction false} NonZeroCount(bs: seq<uint>)
    requires AllDistinct(bs)
    ensures |Blocks(bs)| == NonZero(bs)
  {
    if bs == [] {
    } else {
      NonZeroCount(bs[1..]);
      assert Blocks(bs) == Blocks(bs[1..]) + if bs[0] != 0 then {bs[0] as nat} else {};
      assert bs[0] != 0 ==> bs[0] as nat !in Blocks(bs[1..]);
    }
  }

  lemma HeldIsData(v: Vol, files: Files, f: nat)
    requires SoundVol(v, files) && f in files
    ensures forall b :: b in Held(v.disk, files[f]) && b != 0 ==> v.g.IsData(b)
    ensures Blocks(Held(v.disk, files[f])) == Refs(v.disk, files[f]) <= UsedSet(v.g, v.disk)
    ensures AllDistinct(Held(v.disk, files[f]))
  {
    RootInRange(v, files, f);
    HeldSlots(v.disk, files[f]);
    hide Slot, Held;
    forall b | b in Held(v.disk, files[f]) && b != 0
      ensures v.g.IsData(b) && b in UsedSet(v.g, v.disk)
    {
      assert (b as nat) in Blocks(Held(v.disk, files[f]));
    }
  }

  /** Release is exact: it frees precisely the direct, child and indirect blocks
      of the inode, each with one bitmap write (no double free), raises the free
      count by their number, and leaves all other files intact. */
  lemma ReleaseExact(v: Vol, files: Files, f: nat)
    requires SoundVol(v, files) && f in files
    ensures forall b :: b in Held(v.disk, files[f]) && b != 0 ==> v.g.IsData(b)
    ensures var v' := FreeAll(v, Held(v.disk, files[f]));
      && UsedSet(v.g, v'.disk) == UsedSet(v.g, v.disk) - Refs(v.disk, files[f])
      && |UsedSet(v.g, v'.disk)| == |UsedSet(v.g, v.disk)| - |Refs(v.disk, files[f])|
      && |v'.trace| == |v.trace| + |Refs(v.disk, files[f])|
      && SoundVol(v', files - {f})
      && SameContents(v.disk, files - {f}, v'.disk, files - {f})
  {
    HeldIsData(v, files, f);
    var bs := Held(v.disk, files[f]);
    hide Held, FreeAll, Slot, Refs, UsedSet, Used, Sound;
    FreeAllEffect(v, bs);
    NonZeroCount(bs);
    CardDiff(UsedSet(v.g, v.disk), Refs(v.disk, files[f]));
    OthersSurvive(v, files, f, FreeAll(v, bs).disk);
  }

  /** Dropping a file from the invariant. */
  lemma SoundWithout(disk: Disk, lo: nat, used: set<nat>, files: Files, f: nat)
    requires Sound(disk, lo, used, files)
    ensures Sound(disk, lo, used, files - {f})
  {
    hide Slot;
  }

  lemma OthersSurvive(v: Vol, files: Files, f: nat, disk': Disk)
    requires SoundVol(v, files) && f in files && |disk'| == |v.disk|
    requires forall b :: v.g.IsData(b) ==> disk'[b] == v.disk[b]
    ensures Sound(disk', v.g.DataStart(), UsedSet(v.g, v.disk) - Refs(v.disk, files[f]), files - {f})
    ensures SameContents(v.disk, files - {f}, disk', files - {f})
  {
    hide Slot, UsedSet, Used, Refs;
    var used := UsedSet(v.g, v.disk);
    SoundWithout(v.disk, v.g.DataStart(), used, files, f);
    Frame(v.disk, disk', v.g.DataStart(), used, used, files - {f});
    OthersKept(v, files, f, disk');
  }

  lemma OthersKept(v: Vol, files: Files, f: nat, disk': Disk)
    requires SoundVol(v, files) && f in files
    requires forall f' :: f' in files - {f} ==> SameSlots(v.disk, disk', files[f'])
    requires Sound(disk', v.g.DataStart(), UsedSet(v.g, v.disk), files - {f})
    ensures Sound(disk', v.g.DataStart(), UsedSet(v.g, v.disk) - Refs(v.disk, files[f]), files - {f})
  {
    hide Slot, UsedSet;
    forall f', k: nat | f' in files - {f} && k < NSLOTS && Slot(disk', files[f'], k) != 0
      ensures Slot(disk', files[f'], k) as nat !in Refs(v.disk, files[f])
    {
      assert SameSlots(v.disk, disk', files[f']);
      assert Slot(v.disk, files[f'], k) == Slot(disk', files[f'], k);
    }
  }

  lemma CardDiff(a: set<nat>, b: set<nat>)
    requires b <= a
    ensures |a - b| == |a| - |b|
  {
    assert a == (a - b) + b;
  }

  /** An inode with no addresses refers to nothing. */
  lemma AddEmpty(disk: Disk, lo: nat, used: set<nat>, files: Files, f: nat)
    requires Sound(disk, lo, used, files - {f})
    ensures Sound(disk, lo, used, files[f := NoAddrs()])
  {
    var files' := files[f := NoAddrs()];
    forall f', k: nat | f' in files' && k < NSLOTS
      ensures f' != f ==> f' in files - {f} && files'[f'] == (files - {f})[f']
      ensures f' == f ==> Slot(disk, files'[f'], k) == 0
    {}
    hide Slot;
  }

  /** `xv6_inode_clear`: the blocks first, then the emptied inode is written
      back. */
  function ClearInode(v: Vol, inum: nat, n: Node): (v': Vol)
    requires v.Sized() && inum < TableSize(v.g)
    requires forall b :: b in Held(v.disk, n.addrs) && b != 0 ==> v.g.IsData(b)
    ensures v'.Sized() && v'.g == v.g && v'.hint == v.hint
  {
    SyncInode(FreeAll(v, Held(v.disk, n.addrs)), inum, n.(addrs := NoAddrs(), size := 0))
  }

  // ----- implementation -----

  /** `struct inode` with the addresses cached in `i_private`. */
  class Inode {
    const inum: nat
    const isDir: bool
    const addrs: array<uint>
    var size: nat
    var nlink: nat

    constructor (inum: nat, di: Dinode)
      ensures this.inum == inum && fresh(addrs) && addrs.Length == NDIRECT + 1
      ensures N() == Node(di.kind == T_DIR, di.addrs, di.size, di.nlink)
    {
      this.inum, isDir, size, nlink := inum, di.kind == T_DIR, di.size, di.nlink;
      var a := new uint[NDIRECT + 1](i requires 0 <= i < NDIRECT + 1 => di.addrs[i]);
      addrs := a;
      new;
      assert addrs[..] == di.addrs;
    }

    ghost predicate Valid(vol: Volume)
      reads this, addrs, vol
    {
      && addrs.Length == NDIRECT + 1
      && vol.V().Ok()
      && 0 < inum < TableSize(vol.g)
    }

    ghost function N(): Node
      requires addrs.Length == NDIRECT + 1
      reads this, addrs
    {
      Node(isDir, addrs[..], size, nlink)
    }
  }

  /** `xv6_ialloc`. */
  method AllocInode(vol: Volume, di: Dinode) returns (inum: nat, err: Errno)
    requires vol.V().Sized()
    modifies vol`disk, vol`trace
    ensures (vol.V(), inum) == Ialloc(old(vol.V()), di)
    ensures err == if inum == 0 then ENOSPC else OK
  {
    hide DinodeAt, Decode, Encode;
    inum := 0;
    var node := 2;
    var block, off := vol.g.inodestart, node % IPB;
    while block < vol.g.bmapstart
      invariant vol.g.inodestart <= block <= vol.g.bmapstart
      invariant off == node % IPB && node == (block - vol.g.inodestart) * IPB + off
      invariant 2 <= node <= TableSize(vol.g) && (block < vol.g.bmapstart ==> node < TableSize(vol.g))
      invariant vol.V() == old(vol.V())
      invariant FreeInum(vol.g, vol.disk, 2) == FreeInum(vol.g, vol.disk, node)
    {
      var i := off;
      while i < IPB
        invariant off <= i <= IPB && node == (block - vol.g.inodestart) * IPB + i
        invariant 2 <= node <= TableSize(vol.g)
        invariant vol.V() == old(vol.V())
        invariant FreeInum(vol.g, vol.disk, 2) == FreeInum(vol.g, vol.disk, node)
      {
        assert InodeBlock(vol.g, node) == block && node % IPB == i;
        if DinodeAt(vol.g, vol.disk, node).kind == 0 {
          vol.Write(block, Blit(vol.disk[block], DISIZE * i, Encode(di)));
          return node, OK;
        }
        i, node := i + 1, node + 1;
      }
      block, off := block + 1, 0;
    }
    return 0, ENOSPC;
  }

  /** `xv6_ifree`. */
  method FreeInode(vol: Volume, inum: nat)
    requires vol.V().Sized() && inum < TableSize(vol.g)
    modifies vol`disk, vol`trace
    ensures vol.V() == Ifree(old(vol.V()), inum)
  {
    var block := vol.g.inodestart + inum / IPB;
    vol.Write(block, Blit(vol.disk[block], DISIZE * (inum % IPB), Encode(NullDinode())));
  }

  /** `xv6_sync_inode`. */
  method WriteBack(vol: Volume, ino: Inode)
    requires ino.Valid(vol)
    modifies vol`disk, vol`trace
    ensures vol.V() == SyncInode(old(vol.V()), ino.inum, ino.N())
  {
    var block := vol.g.inodestart + ino.inum / IPB;
    var di := DinodeAt(vol.g, vol.disk, ino.inum);
    di := di.(addrs := ino.addrs[..], size := ino.size % U32, nlink := ino.nlink % U16);
    vol.Write(block, Blit(vol.disk[block], DISIZE * (ino.inum % IPB), Encode(di)));
  }

  lemma {:induction false} FreeAllAppend(v: Vol, xs: seq<uint>, ys: seq<uint>)
    requires v.Sized() && forall b :: b in xs + ys && b != 0 ==> v.g.IsData(b)
    ensures FreeAll(v, xs + ys) == FreeAll(FreeAll(v, xs), ys)
    decreases |xs|
  {
    hide Bfree;
    if xs == [] {
      assert xs + ys == ys;
    } else {
      FreeAllAppend(if xs[0] != 0 then Bfree(v, xs[0]) else v, xs[1..], ys);
      assert (xs + ys)[1..] == xs[1..] + ys;
    }
  }

  /** Freeing one more block. */
  lemma FreeAllStep(v: Vol, bs: seq<uint>, i: nat)
    requires v.Sized() && i < |bs| && forall b :: b in bs && b != 0 ==> v.g.IsData(b)
    ensures FreeAll(v, bs[..i + 1])
         == if bs[i] != 0 then Bfree(FreeAll(v, bs[..i]), bs[i]) else FreeAll(v, bs[..i])
  {
    assert bs[..i + 1] == bs[..i] + [bs[i]];
    FreeAllAppend(v, bs[..i], [bs[i]]);
  }

  method FreeDirect(vol: Volume, addrs: array<uint>)
    requires addrs.Length == NDIRECT + 1 && vol.V().Sized()
    requires forall b :: b in addrs[..NDIRECT] && b != 0 ==> vol.g.IsData(b)
    modifies vol`disk, vol`trace, addrs
    ensures vol.V() == FreeAll(old(vol.V()), old(addrs[..NDIRECT]))
    ensures addrs[ROOT] == old(addrs[ROOT]) && forall i :: 0 <= i < NDIRECT ==> addrs[i] == 0
  {
    hide Bfree;
    ghost var v0, bs := vol.V(), addrs[..NDIRECT];
    for i := 0 to NDIRECT
      invariant vol.V().Sized() && vol.V() == FreeAll(v0, bs[..i])
      invariant forall j :: 0 <= j < i ==> addrs[j] == 0
      invariant addrs[ROOT] == old(addrs[ROOT]) && forall j :: i <= j < NDIRECT ==> addrs[j] == bs[j]
    {
      FreeAllStep(v0, bs, i);
      assert bs[i] in bs;
      if addrs[i] != 0 {
        BfreeBlock(vol, addrs[i]);
        addrs[i] := 0;
      }
    }
    assert bs[..NDIRECT] == bs;
  }

  method FreeChildren(vol: Volume, iaddr: nat)
    requires vol.V().Sized() && vol.g.IsData(iaddr)
    requires forall b :: b in Children(vol.disk, iaddr) && b != 0 ==> vol.g.IsData(b)
    modifies vol`disk, vol`trace
    ensures vol.V() == FreeAll(old(vol.V()), old(Children(vol.disk, iaddr)))
  {
    hide Bfree, Word, Used;
    ghost var v0, bs := vol.V(), Children(vol.disk, iaddr);
    for i := 0 to NINDIRECT
      invariant vol.V().Sized() && vol.V() == FreeAll(v0, bs[..i])
      invariant vol.disk[iaddr] == v0.disk[iaddr]
    {
      FreeAllStep(v0, bs, i);
      assert bs[i] in bs;
      var child := Word(vol.disk[iaddr], i);
      if child != 0 {
        BfreeEffect(vol.V(), child);
        BfreeBlock(vol, child);
      }
    }
    assert bs[..NINDIRECT] == bs;
  }

  /** `xv6_inode_clear`; the requires is what `xv6_bfree` asserts. */
  method Clear(vol: Volume, ino: Inode)
    requires ino.Valid(vol)
    requires forall b :: b in Held(vol.disk, ino.addrs[..]) && b != 0 ==> vol.g.IsData(b)
    modifies vol`disk, vol`trace, ino`size, ino.addrs
    ensures vol.V() == ClearInode(old(vol.V()), ino.inum, old(ino.N()))
    ensures ino.N() == old(ino.N()).(addrs := NoAddrs(), size := 0)
  {
    hide Bfree, Word, Used, SyncInode, FreeAll;
    ghost var v0, a0 := vol.V(), ino.addrs[..];
    ghost var bs := Held(v0.disk, a0);
    assert a0[ROOT] == bs[|bs| - 1] && bs[|bs| - 1] in bs;
    var iaddr := ino.addrs[ROOT];
    FreeAllEffect(v0, a0[..NDIRECT]);
    FreeDirect(vol, ino.addrs);
    if iaddr != 0 {
      ghost var v1, cs := vol.V(), Children(v0.disk, iaddr);
      assert cs == Children(vol.disk, iaddr);
      assert bs == a0[..NDIRECT] + cs + [iaddr];
      assert forall b :: b in cs ==> b in bs;
      FreeChildren(vol, iaddr);
      FreeAllStep(v0, bs, |bs| - 1);
      FreeAllAppend(v0, a0[..NDIRECT], cs);
      assert bs[..|bs| - 1] == a0[..NDIRECT] + cs && bs[..|bs|] == bs;
      BfreeBlock(vol, iaddr);
    } else {
      FreeAllStep(v0, bs, |bs| - 1);
      assert bs[..|bs| - 1] == a0[..NDIRECT] && bs[..|bs|] == bs;
    }
    ino.addrs[ROOT] := 0;
    assert ino.addrs[..] == NoAddrs();
    ino.size := 0;
    WriteBack(vol, ino);
  }
}
