/** The namespace operations (inode.c, file.c, dir.c): create, link, unlink, rmdir,
    rename and write on the whole file system, as the VFS calls them. */
module Namespace {
  import opened Layout
  import opened Volumes
  import opened Allocator
  import opened BlockMap
  import opened Inodes
  import opened FileData
  import opened DirIter
  import opened Directory

  /** The volume and the in-core inodes, one for every inode in use. */
  datatype Fs = Fs(v: Vol, nodes: map<nat, Node>)

  function Maps(fs: Fs): Files { map f | f in fs.nodes :: fs.nodes[f].addrs }

  const MAXENTS := 17152     // MAXFILE * NENTS
  const MAXLINKS := 32767    // __INT16_MAX__

  // ----- operations -----

  /** `strcpy` into the name field of an entry. */
  function Strcpy(field: Name, t: seq<byte>): Name
    requires |t| < DIRSIZ
  {
    t + [0] + field[|t| + 1..]
  }

  /** The first block of a new directory (`xv6_dir_init`). */
  function DotBlock(b: Block, parent: ushort, this_: ushort): Block {
    PutDirent(PutDirent(b, 0, Dirent(this_, Strcpy(DirentOf(b, 0).name, Dot()))),
              1, Dirent(parent, Strcpy(DirentOf(b, 1).name, DotDot())))
  }

  /** The inode of a new file: one link and one zeroed block. */
  function NewNode(isDir: bool, b: uint): Node {
    Node(isDir, NoAddrs()[0 := b], if isDir then 2 * DESIZE else 0, 1)
  }

  function NewDinode(isDir: bool, b: uint): Dinode {
    Dinode(if isDir then T_DIR else T_FILE, 0, 0, 1, NewNode(isDir, b).size, NewNode(isDir, b).addrs)
  }

  /** `xv6_create` up to the directory entry: the block, the inode record, and the
      first block of a directory. Number 0 means there was no space. */
  function Prepare(v: Vol, d: nat, isDir: bool): (r: (Vol, nat))
    requires v.Ok()
    ensures r.0.Ok() && r.0.g == v.g && r.1 < Max(1, TableSize(v.g))
  {
    var b := Pick(v);
    if b == 0 then (v, 0)
    else
      var (v1, inum) := Ialloc(Take(v, b), NewDinode(isDir, b));
      if inum == 0 || !isDir then (v1, inum)
      else (v1.Put(b, DotBlock(v1.disk[b], d % U16, inum % U16)), inum)
  }

  /** `xv6_create`, for `mkdir` too. A failure after the block or the inode record
      is allocated leaves them allocated. */
  function Create(fs: Fs, d: nat, name: seq<byte>, isDir: bool): (r: (Fs, Errno))
    requires fs.v.Ok() && d in fs.nodes && (fs.nodes[d].isDir ==> DirSized(fs.nodes[d].size % U32))
    ensures r.0.v.Ok() && r.0.v.g == fs.v.g
  {
    hide Prepare, DentryInsert;
    if |name| > DIRSIZ then (fs, ENAMETOOLONG)
    else
      var (v1, inum) := Prepare(fs.v, d, isDir);
      if inum == 0 then (fs.(v := v1), ENOSPC)
      else
        var r := DentryInsert(v1, fs.nodes[d], name, inum);
        var nodes1 := fs.nodes[d := r.n];
        if r.err != OK then (Fs(r.v, nodes1), r.err)
        else (Fs(r.v, nodes1[inum := NewNode(isDir, Pick(fs.v))]), OK)
  }

  /** `xv6_link`. */
  function Link(fs: Fs, d: nat, name: seq<byte>, f: nat): (r: (Fs, Errno))
    requires fs.v.Ok() && d in fs.nodes && (fs.nodes[d].isDir ==> DirSized(fs.nodes[d].size % U32))
    requires f in fs.nodes && f < TableSize(fs.v.g)
    ensures r.0.v.Ok() && r.0.v.g == fs.v.g
  {
    hide DentryInsert, SyncInode;
    if fs.nodes[f].nlink >= MAXLINKS then (fs, ETOOMANYREFS)
    else
      var r := DentryInsert(fs.v, fs.nodes[d], name, f);
      if r.err != OK then (Fs(r.v, fs.nodes[d := r.n]), r.err)
      else
        var nodes1 := fs.nodes[d := r.n];
        var n := nodes1[f].(nlink := nodes1[f].nlink + 1);
        (Fs(SyncInode(r.v, f, n), nodes1[f := n]), OK)
  }

  /** What `xv6_bfree` asserts of every block the release of `f` frees. */
  predicate Clearable(fs: Fs, f: nat)
    requires fs.v.Sized() && f in fs.nodes
  {
    forall b :: b in Held(fs.v.disk, fs.nodes[f].addrs) && b != 0 ==> fs.v.g.IsData(b)
  }

  /** `xv6_unlink`: the link count drops first; at zero the inode is emptied, the
      entry erased, and the record freed. */
  function Unlink(fs: Fs, d: nat, name: seq<byte>, f: nat): (r: (Fs, Errno))
    requires fs.v.Ok() && d in fs.nodes && (fs.nodes[d].isDir ==> DirSized(fs.nodes[d].size % U32))
    requires f in fs.nodes && f < TableSize(fs.v.g) && Clearable(fs, f) && fs.nodes[f].nlink > 0
    ensures r.0.v.Ok() && r.0.v.g == fs.v.g
  {
    var n := fs.nodes[f].(nlink := fs.nodes[f].nlink - 1);
    var nodes1 := fs.nodes[f := n];
    if n.nlink > 0 then
      var (v1, err) := DirErase(fs.v, fs.nodes[d], name);
      (Fs(v1, nodes1), err)
    else if f == ROOTINO then (fs.(nodes := nodes1), EBUSY)
    else if f == d then (fs.(nodes := nodes1), EINVAL)
    else
      var v1 := ClearInode(fs.v, f, n);
      var (v2, _) := DirErase(v1, fs.nodes[d], name);
      (Fs(Ifree(v2, f), fs.nodes - {f}), OK)
  }

  /** `xv6_rmdir`. */
  function Rmdir(fs: Fs, d: nat, name: seq<byte>, f: nat): (r: (Fs, Errno))
    requires fs.v.Ok() && d in fs.nodes && (fs.nodes[d].isDir ==> DirSized(fs.nodes[d].size % U32))
    requires f in fs.nodes && f < TableSize(fs.v.g) && Clearable(fs, f) && fs.nodes[f].nlink > 0
    requires fs.nodes[f].isDir ==> DirSized(fs.nodes[f].size % U32)
    ensures r.0.v.Ok() && r.0.v.g == fs.v.g
  {
    if !fs.nodes[d].isDir || !fs.nodes[f].isDir then (fs, ENOTDIR)
    else
      var (err, _) := DirRmtest(fs.v, fs.nodes[f]);
      if err != OK then (fs, err) else Unlink(fs, d, name, f)
  }

  /** `xv6_rename`; `badFlags` is any flag but RENAME_NOREPLACE. The old entry is
      gone before the new name is looked at. */
  function Rename(fs: Fs, d1: nat, name1: seq<byte>, d2: nat, name2: seq<byte>, f: nat, badFlags: bool): (r: (Fs,
      Errno))
    requires fs.v.Ok() && d1 in fs.nodes && d2 in fs.nodes
    requires fs.nodes[d1].isDir ==> DirSized(fs.nodes[d1].size % U32)
    requires fs.nodes[d2].isDir ==> DirSized(fs.nodes[d2].size % U32)
    ensures r.0.v.Ok() && r.0.v.g == fs.v.g
  {
    if badFlags then (fs, EINVAL)
    else if |name2| > DIRSIZ then (fs, ENAMETOOLONG)
    else
      var (v1, err) := DirErase(fs.v, fs.nodes[d1], name1);
      if err != OK then (fs.(v := v1), err) else AfterErase(fs.(v := v1), d2, name2, f)
  }

  /** Rename from the lookup of the new name on. */
  function AfterErase(fs: Fs, d2: nat, name2: seq<byte>, f: nat): (r: (Fs, Errno))
    requires fs.v.Ok() && d2 in fs.nodes && (fs.nodes[d2].isDir ==> DirSized(fs.nodes[d2].size % U32))
    ensures r.0.v.Ok() && r.0.v.g == fs.v.g
  {
    var (dnum, _, err) := FindInum(fs.v, fs.nodes[d2], name2);
    if err != OK then (fs, err)
    else if dnum != 0 then (fs, EEXIST)
    else
      var r := DentryInsert(fs.v, fs.nodes[d2], name2, f);
      (Fs(r.v, fs.nodes[d2 := r.n]), r.err)
  }

  /** `xv6_file_write` on one of the inodes. */
  function WriteFile(fs: Fs, f: nat, cpos: nat, buf: seq<byte>): (r: (Fs, Errno))
    requires fs.v.Ok() && f in fs.nodes
    ensures r.0.v.Ok() && r.0.v.g == fs.v.g
  {
    var w := FileWrite(fs.v, fs.nodes[f], cpos, buf);
    (Fs(w.v, fs.nodes[f := w.n]), w.err)
  }

  /** `xv6_write_inode` on one of the inodes: its record is brought up to date. */
  function Sync(fs: Fs, f: nat): (fs': Fs)
    requires fs.v.Ok() && f in fs.nodes && f < TableSize(fs.v.g)
    ensures fs'.v.Ok() && fs'.v.g == fs.v.g && fs'.nodes == fs.nodes
  {
    Fs(SyncInode(fs.v, f, fs.nodes[f]), fs.nodes)
  }

  /** Every inode has a place in the table. */
  predicate InTable(fs: Fs) { fs.v.Sized() && forall f :: f in fs.nodes ==> f < TableSize(fs.v.g) }

  /** `write_inode_now` on one inode after the other. */
  function SyncAll(fs: Fs, order: seq<nat>): (fs': Fs)
    requires fs.v.Ok() && InTable(fs) && forall f :: f in order ==> f in fs.nodes
    ensures fs'.v.Ok() && fs'.v.g == fs.v.g && fs'.nodes == fs.nodes
    decreases |order|
  {
    if order == [] then fs else SyncAll(Sync(fs, order[0]), order[1..])
  }

  lemma StillInTable(fs: Fs, f: nat)
    requires fs.v.Ok() && InTable(fs) && f in fs.nodes
    ensures InTable(Sync(fs, f))
  {
    hide SyncInode;
  }
}
