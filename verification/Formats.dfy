/** The formats on disk (fs.h), byte by byte. */
module Formats {
  import opened Layout
  import opened Bytes
  import opened Volumes
  import opened BlockMap
  import opened Inodes
  import opened DirIter
  import opened Directory
  import opened Superblock

  /** A little-endian number of two bytes, and of four. */
  predicate Holds16(s: seq<byte>, p: nat, x: int) {
    p + 2 <= |s| && s[p] as int + 0x100 * (s[p + 1] as int) == x
  }

  predicate Holds32(s: seq<byte>, p: nat, x: int) {
    p + 4 <= |s|
    && s[p] as int + 0x100 * (s[p + 1] as int) + 0x1_0000 * (s[p + 2] as int) + 0x100_0000 * (s[p + 3] as int) == x
  }

  lemma At16(s: seq<byte>, p: nat, x: ushort)
    requires p + 2 <= |s| && s[p..p + 2] == ToLe16(x)
    ensures Holds16(s, p, x)
  {
    assert s[p] == s[p..p + 2][0] && s[p + 1] == s[p..p + 2][1];
  }

  lemma At32(s: seq<byte>, p: nat, x: uint)
    requires p + 4 <= |s| && s[p..p + 4] == ToLe32(x)
    ensures Holds32(s, p, x)
  {
    Le32Of(x);
    var t := s[p..p + 4];
    assert s[p] == t[0] && s[p + 1] == t[1] && s[p + 2] == t[2] && s[p + 3] == t[3];
  }

  /** A record: type, major, minor and link count in two bytes each, size in four, and
      thirteen addresses of four, 64 bytes in all. */
  lemma RecordLayout(di: Dinode)
    ensures var s := Encode(di);
      && |s| == 64 && Holds16(s, 0, di.kind) && Holds16(s, 2, di.major) && Holds16(s, 4, di.minor)
      && Holds16(s, 6, di.nlink) && Holds32(s, 8, di.size)
      && forall j :: 0 <= j < 13 ==> Holds32(s, 12 + 4 * j, di.addrs[j])
  {
    hide Holds16, Holds32;
    var s := Encode(di);
    At16(s, 0, di.kind);
    At16(s, 2, di.major);
    At16(s, 4, di.minor);
    At16(s, 6, di.nlink);
    At32(s, 8, di.size);
    forall j | 0 <= j < 13 ensures Holds32(s, 12 + 4 * j, di.addrs[j]) { AddrAt(di, j); }
  }

  lemma AddrAt(di: Dinode, j: nat)
    requires j < 13
    ensures Holds32(Encode(di), 12 + 4 * j, di.addrs[j])
  {
    hide Holds32;
    var s := Encode(di);
    assert s[12 + 4 * j..12 + 4 * j + 4] == ToLe32(di.addrs[j]);
    At32(s, 12 + 4 * j, di.addrs[j]);
  }

  /** Record `inum` is in the inode region, sixteen to a block. */
  lemma RecordPlace(v: Vol, inum: nat, di: Dinode)
    requires v.Sized() && inum < TableSize(v.g)
    ensures v.g.inodestart + inum / 16 < v.g.bmapstart
    ensures var b := PutInode(v, inum, di).disk[v.g.inodestart + inum / 16];
      b[64 * (inum % 16)..64 * (inum % 16) + 64] == Encode(di)
  {
    hide Encode;
  }

  /** An entry: a number of two bytes and a name of fourteen. */
  lemma EntryLayout(de: Dirent)
    ensures var s := EncodeDirent(de); |s| == 16 && Holds16(s, 0, de.inum) && s[2..] == de.name
  {
    At16(EncodeDirent(de), 0, de.inum);
  }

  /** Block 0: eight numbers of four bytes, and zeros. */
  lemma SuperLayout(sb: Super)
    ensures var b := SuperBlock(sb);
      && Holds32(b, 0, sb.magic) && Holds32(b, 4, sb.size) && Holds32(b, 8, sb.nblocks) && Holds32(b, 12, sb.ninodes)
      && Holds32(b, 16, sb.nlog) && Holds32(b, 20, sb.logstart) && Holds32(b, 24, sb.inodestart)
      && Holds32(b, 28, sb.bmapstart) && forall p :: 32 <= p < 1024 ==> b[p] == 0
  {
    hide Holds32;
    var b := SuperBlock(sb);
    At32(b, 0, sb.magic);
    At32(b, 4, sb.size);
    At32(b, 8, sb.nblocks);
    At32(b, 12, sb.ninodes);
    At32(b, 16, sb.nlog);
    At32(b, 20, sb.logstart);
    At32(b, 24, sb.inodestart);
    At32(b, 28, sb.bmapstart);
  }

  /** Erasing an entry leaves three zeros, and 0xfd in the thirteen bytes after them. */
  lemma ErasedBytes(v: Vol, files: Files, f: nat, n: Node, name: seq<byte>)
    requires SoundVol(v, files) && f in files && files[f] == n.addrs && GoodDir(v.disk, n)
    requires CString(name) && name != []
    ensures v.Ok() && DirSized(n.size % U32)
    ensures var (v', err) := DirErase(v, n, name);
      forall k: nat :: k >= 2 && Live(v.disk, n.addrs, k, Pad(name)) ==>
        && err == OK
        && forall p: nat ::
             ByteAt(v'.disk, n.addrs, p)
             == if p / 16 != k then ByteAt(v.disk, n.addrs, p) else if p % 16 < 3 then 0 else 0xfd
  {
    hide DirErase, SoundVol, GoodDir, Pad, Entry, ByteAt, SameRoom, SameTable;
    SoundOk(v, files);
    EraseSound(v, files, f, n, name);
    var v' := DirErase(v, n, name).0;
    forall k: nat | k >= 2 && Live(v.disk, n.addrs, k, Pad(name))
      ensures forall p: nat ::
        ByteAt(v'.disk, n.addrs, p)
        == if p / 16 != k then ByteAt(v.disk, n.addrs, p) else if p % 16 < 3 then 0 else 0xfd
    {
      assert ErasedAt(v, files, f, n, k, v');
      EntryLayout(Erased());
      forall p: nat
        ensures ByteAt(v'.disk, n.addrs, p)
             == if p / 16 != k then ByteAt(v.disk, n.addrs, p) else if p % 16 < 3 then 0 else 0xfd
      {
        assert p / 16 == k <==> 16 * k <= p < 16 * k + 16;
      }
    }
  }
}
