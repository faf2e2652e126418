/** The namespace operations as they run (inode.c, file.c, dir.c): the volume and the
    in-core inodes are objects, updated in place. Each operation is proved to do what
    its function on values does, so the results about runs hold of it. */
module Kernel {
  import opened Layout
  import opened Volumes
  import opened Allocator
  import opened Inodes
  import opened FileData
  import opened DirIter
  import opened Directory
  import opened DirDrivers
  import opened Namespace

  /** Directory `d` can be iterated. */
  predicate DirAt(fs: Fs, d: nat) {
    d in fs.nodes && (fs.nodes[d].isDir ==> DirSized(fs.nodes[d].size % U32))
  }

  // ----- when the searches come back -----

  /** Every search for a block that a creation makes comes back. */
  predicate CreateEnds(fs: Fs, d: nat, name: seq<byte>, isDir: bool)
    requires fs.v.Ok() && DirAt(fs, d)
  {
    |name| <= DIRSIZ ==>
      && BallocEnds(fs.v)
      && var (v1, inum) := Prepare(fs.v, d, isDir);
         (inum != 0 ==> InsertEnds(v1, fs.nodes[d], name, inum))
  }

  predicate LinkEnds(fs: Fs, d: nat, name: seq<byte>, f: nat)
    requires fs.v.Ok() && DirAt(fs, d) && f in fs.nodes
  {
    fs.nodes[f].nlink < MAXLINKS ==> InsertEnds(fs.v, fs.nodes[d], name, f)
  }

  predicate RenameEnds(fs: Fs, d1: nat, name1: seq<byte>, d2: nat, name2: seq<byte>, f: nat, badFlags: bool)
    requires fs.v.Ok() && DirAt(fs, d1) && DirAt(fs, d2)
  {
    !badFlags && |name2| <= DIRSIZ ==>
      var (v1, err) := DirErase(fs.v, fs.nodes[d1], name1);
      err == OK ==>
        var (dnum, _, e) := FindInum(v1, fs.nodes[d2], name2);
        e == OK && dnum == 0 ==> InsertEnds(v1, fs.nodes[d2], name2, f)
  }

  predicate FileWriteEnds(fs: Fs, f: nat, pos: nat, buf: seq<byte>)
    requires fs.v.Ok() && f in fs.nodes
  {
    WriteEnds(fs.v, fs.nodes[f], pos / BSIZE % U32, pos % BSIZE, buf)
  }

  /** On a volume of at most 8192 blocks every operation comes back. */
  lemma SmallVolumesEnd(fs: Fs)
    requires fs.v.Ok() && fs.v.g.size <= BPB
    ensures forall d, name, isDir :: DirAt(fs, d) ==> CreateEnds(fs, d, name, isDir)
    ensures forall d, name, f :: DirAt(fs, d) && f in fs.nodes ==> LinkEnds(fs, d, name, f)
    ensures forall d1, name1, d2, name2, f: nat, badFlags :: DirAt(fs, d1) && DirAt(fs, d2) ==>
      RenameEnds(fs, d1, name1, d2, name2, f, badFlags)
    ensures forall f, pos: nat, buf :: f in fs.nodes ==> FileWriteEnds(fs, f, pos, buf)
  {
    hide InsertEnds, WriteEnds, BallocEnds, Prepare, DirErase, FindInum, DirSized;
    SmallVolumeEnds(fs.v);
    forall d, name, isDir | DirAt(fs, d) ensures CreateEnds(fs, d, name, isDir) {
      var (v1, inum) := Prepare(fs.v, d, isDir);
      SmallInsertEnds(v1, fs.nodes[d], name, inum);
    }
    forall d, name, f | DirAt(fs, d) && f in fs.nodes ensures LinkEnds(fs, d, name, f) {
      SmallInsertEnds(fs.v, fs.nodes[d], name, f);
    }
    forall d1, name1, d2, name2, f: nat, badFlags | DirAt(fs, d1) && DirAt(fs, d2)
      ensures RenameEnds(fs, d1, name1, d2, name2, f, badFlags)
    {
      SmallInsertEnds(DirErase(fs.v, fs.nodes[d1], name1).0, fs.nodes[d2], name2, f);
    }
    forall f, pos: nat, buf | f in fs.nodes ensures FileWriteEnds(fs, f, pos, buf) {
      SmallWriteEnds(fs.v, fs.nodes[f], pos / BSIZE % U32, pos % BSIZE, buf);
    }
  }

  /** A mounted file system with its in-core inodes, by number. */
  class FileSys {
    const vol: Volume
    var nodes: map<nat, Inode>

    constructor (vol: Volume)
      requires vol.V().Ok()
      ensures this.vol == vol && Valid() && F() == Fs(vol.V(), map[])
    {
      this.vol, nodes := vol, map[];
    }

    ghost function Objects(): set<object>
      reads this
    {
      {this, vol} + (set i | i in nodes :: nodes[i]) + (set i | i in nodes :: nodes[i].addrs)
    }

    /** Every inode is filed under its own number and has an address array of its
        own. */
    ghost predicate Filed()
      reads this
    {
      && (forall i :: i in nodes ==>
            nodes[i].inum == i && nodes[i].addrs.Length == NDIRECT + 1 && 0 < i < TableSize(vol.g))
      && (forall i, j :: i in nodes && j in nodes && i != j ==> nodes[i].addrs != nodes[j].addrs)
    }

    ghost predicate Valid()
      reads this, Objects()
    {
      vol.V().Ok() && Filed()
    }

    /** The file system as a value. */
    ghost function F(): (fs: Fs)
      requires Valid()
      reads this, Objects()
      ensures fs.nodes.Keys == nodes.Keys && fs.v == vol.V() && fs.v.Ok()
    {
      Fs(vol.V(), map i | i in nodes :: nodes[i].N())
    }

    /** What `F` says of each inode. */
    lemma Each()
      requires Valid()
      ensures vol.V().Ok() && forall i :: i in nodes ==> nodes[i].Valid(vol) && F().nodes[i] == nodes[i].N()
    {}

    /** `F` from its parts. */
    lemma Gather(m: map<nat, Node>)
      requires Valid() && m.Keys == nodes.Keys && forall i :: i in nodes ==> nodes[i].N() == m[i]
      ensures F() == Fs(vol.V(), m)
    {
      hide Vol.Ok;
      assert F().nodes == m;
    }

    // ----- steps -----

    /** `xv6_create` up to the directory entry. */
    method PrepareInode(d: nat, isDir: bool) returns (b: uint, inum: nat)
      requires Valid() && BallocEnds(F().v)
      modifies vol
      ensures Valid() && nodes == old(nodes)
      ensures b == Pick(old(vol.V())) && F() == old(F()).(v := vol.V())
      ensures (vol.V(), inum) == Prepare(old(vol.V()), d, isDir)
    {
      hide F, Filed, Pick, Take, Ialloc, NewDinode, DotBlock, BallocEnds;
      Each();
      ghost var m := F().nodes;
      PickSound(vol.V());
      b := BallocBlock(vol);
      inum := 0;
      if b != 0 {
        var err;
        inum, err := AllocInode(vol, NewDinode(isDir, b));
        if inum != 0 && isDir {
          InitDir(vol, b, d % U16, inum % U16);
        }
      }
      PrepareOk(old(vol.V()), d, isDir);
      Gather(m);
    }

    lemma PrepareOk(v: Vol, d: nat, isDir: bool)
      requires v.Ok()
      ensures Prepare(v, d, isDir).0.Ok()
    {
      hide Prepare;
    }

    /** File a new in-core inode. */
    method AddInode(inum: nat, isDir: bool, b: uint)
      requires Valid() && 0 < inum < TableSize(vol.g)
      modifies this`nodes
      ensures Valid() && F() == Fs(old(F()).v, old(F()).nodes[inum := NewNode(isDir, b)])
    {
      hide F, Vol.Ok, NoAddrs;
      Each();
      ghost var m := F().nodes;
      var newinode := new Inode(inum, NewDinode(isDir, b));
      nodes := nodes[inum := newinode];
      Gather(m[inum := NewNode(isDir, b)]);
    }

    method InsertEntry(d: nat, name: seq<byte>, inum: nat) returns (err: Errno)
      requires Valid() && DirAt(F(), d) && InsertEnds(F().v, F().nodes[d], name, inum)
      modifies Objects()
      ensures Valid() && nodes == old(nodes)
      ensures var r := DentryInsert(old(F()).v, old(F()).nodes[d], name, inum);
        F() == Fs(r.v, old(F()).nodes[d := r.n]) && err == r.err
    {
      hide F, Vol.Ok, DentryInsert, DirSized, InsertEnds;
      Each();
      ghost var m := F().nodes;
      var sane;
      err, sane := Insert(vol, nodes[d], name, inum);
      Gather(m[d := nodes[d].N()]);
    }

    method EraseEntry(d: nat, name: seq<byte>) returns (err: Errno)
      requires Valid() && DirAt(F(), d)
      modifies Objects()
      ensures Valid() && nodes == old(nodes)
      ensures var (v', e) := DirErase(old(F()).v, old(F()).nodes[d], name);
        F() == old(F()).(v := v') && err == e
    {
      hide F, Vol.Ok, DirErase, DirSized;
      Each();
      ghost var m := F().nodes;
      err := Erase(vol, nodes[d], name);
      Gather(m);
    }

    method FindEntry(d: nat, name: seq<byte>) returns (dnum: nat, err: Errno)
      requires Valid() && DirAt(F(), d)
      modifies Objects()
      ensures Valid() && nodes == old(nodes) && F() == old(F())
      ensures var (n, _, e) := FindInum(old(F()).v, old(F()).nodes[d], name); dnum == n && err == e
    {
      hide F, Vol.Ok, FindInum, DirSized;
      Each();
      ghost var m := F().nodes;
      var de;
      dnum, de, err := Find(vol, nodes[d], name);
      Gather(m);
    }

    method TestEmptyDir(d: nat) returns (err: Errno)
      requires Valid() && DirAt(F(), d) && F().nodes[d].isDir
      modifies Objects()
      ensures Valid() && nodes == old(nodes) && F() == old(F())
      ensures err == DirRmtest(old(F()).v, old(F()).nodes[d]).0
    {
      hide F, Vol.Ok, DirRmtest, DirSized;
      Each();
      ghost var m := F().nodes;
      var sane;
      err, sane := TestEmpty(vol, nodes[d]);
      Gather(m);
    }

    method LinkCount(f: nat) returns (n: nat)
      requires Valid() && f in nodes
      ensures Valid() && F() == old(F()) && n == F().nodes[f].nlink
    {
      hide F, Vol.Ok;
      Each();
      n := nodes[f].nlink;
    }

    /** `inode_inc_link_count` and `inode_dec_link_count`. */
    method SetLinks(f: nat, nlink: nat)
      requires Valid() && f in nodes
      modifies Objects()
      ensures Valid() && nodes == old(nodes)
      ensures F() == old(F()).(nodes := old(F()).nodes[f := old(F()).nodes[f].(nlink := nlink)])
    {
      hide F, Vol.Ok;
      Each();
      ghost var m := F().nodes;
      nodes[f].nlink := nlink;
      Gather(m[f := m[f].(nlink := nlink)]);
    }

    method SyncFile(f: nat)
      requires Valid() && f in nodes
      modifies Objects()
      ensures Valid() && nodes == old(nodes) && f < TableSize(old(F()).v.g)
      ensures F() == old(F()).(v := SyncInode(old(F()).v, f, old(F()).nodes[f]))
    {
      hide F, SyncInode;
      Each();
      ghost var m := F().nodes;
      WriteBack(vol, nodes[f]);
      Gather(m);
    }

    /** Before unmounting (`xv6_kill_block_super`): every inode on the list of the mount is
        written back. */
    method WriteAll(order: seq<nat>)
      requires Valid() && InTable(F()) && forall f :: f in order ==> f in nodes
      modifies Objects()
      ensures Valid() && nodes == old(nodes)
      ensures F() == SyncAll(old(F()), order)
    {
      hide F, SyncInode, Filed, InTable;
      var i := 0;
      while i < |order|
        invariant i <= |order| && Valid() && nodes == old(nodes)
        invariant InTable(F()) && SyncAll(F(), order[i..]) == SyncAll(old(F()), order)
      {
        ghost var fs := F();
        SyncFile(order[i]);
        StillInTable(fs, order[i]);
        assert order[i..][1..] == order[i + 1..];
        i := i + 1;
      }
    }

    method ClearFile(f: nat)
      requires Valid() && f in nodes && Clearable(F(), f)
      modifies Objects()
      ensures Valid() && nodes == old(nodes) && f < TableSize(old(F()).v.g)
      ensures var n := old(F()).nodes[f];
        F() == Fs(ClearInode(old(F()).v, f, n), old(F()).nodes[f := n.(addrs := NoAddrs(), size := 0)])
    {
      hide F, ClearInode, Held, NoAddrs;
      Each();
      ghost var m := F().nodes;
      Clear(vol, nodes[f]);
      Gather(m[f := m[f].(addrs := NoAddrs(), size := 0)]);
    }

    /** `xv6_ifree`; the in-core inode goes with the record. */
    method FreeFile(f: nat)
      requires Valid() && f in nodes
      modifies Objects()
      ensures Valid() && f < TableSize(old(F()).v.g)
      ensures F() == Fs(Ifree(old(F()).v, f), old(F()).nodes - {f})
    {
      hide F, Ifree;
      Each();
      ghost var m := F().nodes;
      FreeInode(vol, f);
      nodes := nodes - {f};
      Gather(m - {f});
    }

    // ----- operations -----

    /** `xv6_create` and, for directories, `xv6_mkdir`. */
    method CreateFile(d: nat, name: seq<byte>, isDir: bool) returns (err: Errno)
      requires Valid() && DirAt(F(), d) && CreateEnds(F(), d, name, isDir)
      modifies Objects()
      ensures Valid() && (F(), err) == Create(old(F()), d, name, isDir)
    {
      hide Valid, F, Prepare, DentryInsert, DirSized, Pick, NewNode, InsertEnds, BallocEnds;
      if |name| > DIRSIZ {
        return ENAMETOOLONG;
      }
      var b, inum := PrepareInode(d, isDir);
      if inum == 0 {
        return ENOSPC;
      }
      err := InsertEntry(d, name, inum);
      if err == OK {
        AddInode(inum, isDir, b);
      }
    }

    /** `xv6_link`. */
    method LinkFile(d: nat, name: seq<byte>, f: nat) returns (err: Errno)
      requires Valid() && DirAt(F(), d) && f in nodes && f < TableSize(vol.g) && LinkEnds(F(), d, name, f)
      modifies Objects()
      ensures Valid() && (F(), err) == Link(old(F()), d, name, f)
    {
      hide Valid, F, Vol.Ok, DentryInsert, DirSized, SyncInode, InsertEnds;
      var nlink := LinkCount(f);
      if nlink >= MAXLINKS {
        return ETOOMANYREFS;
      }
      ghost var fs := F();
      err := InsertEntry(d, name, f);
      assert err != OK ==> (F(), err) == Link(fs, d, name, f);
      if err == OK {
        nlink := LinkCount(f);
        SetLinks(f, nlink + 1);
        SyncFile(f);
      }
    }

    /** The end of `xv6_unlink`: empty the inode, erase its entry, free its record. */
    method UnlinkLast(d: nat, name: seq<byte>, f: nat)
      requires Valid() && DirAt(F(), d) && f in nodes && f != d && f < TableSize(vol.g) && Clearable(F(), f)
      modifies Objects()
      ensures Valid()
      ensures var v1 := ClearInode(old(F()).v, f, old(F()).nodes[f]);
        F() == Fs(Ifree(DirErase(v1, old(F()).nodes[d], name).0, f), old(F()).nodes - {f})
    {
      hide Valid, F, Vol.Ok, DirErase, DirSized, ClearInode, Ifree, Clearable, NoAddrs;
      ghost var m := F().nodes;
      ClearFile(f);
      var err := EraseEntry(d, name);
      FreeFile(f);
      assert m[f := m[f].(addrs := NoAddrs(), size := 0)] - {f} == m - {f};
    }

    /** `xv6_unlink`. */
    method UnlinkFile(d: nat, name: seq<byte>, f: nat) returns (err: Errno)
      requires Valid() && DirAt(F(), d) && f in nodes && f < TableSize(vol.g) && Clearable(F(), f)
        && F().nodes[f].nlink > 0
      modifies Objects()
      ensures Valid() && (F(), err) == Unlink(old(F()), d, name, f)
    {
      hide Valid, F, DirErase, DirSized, ClearInode, Ifree, Clearable, NoAddrs, SyncInode;
      var nlink := LinkCount(f);
      SetLinks(f, nlink - 1);
      ClearableSame(old(F()), F(), f);
      EraseSame(old(F()), F(), d, name);
      if nlink - 1 > 0 {
        err := EraseEntry(d, name);
        return;
      }
      if f == ROOTINO {
        return EBUSY;
      }
      if f == d {
        return EINVAL;
      }
      ghost var nodes1 := F().nodes;
      UnlinkLast(d, name, f);
      assert nodes1 - {f} == old(F()).nodes - {f};
      err := OK;
    }

    /** `xv6_rmdir`. */
    method RemoveDir(d: nat, name: seq<byte>, f: nat) returns (err: Errno)
      requires Valid() && DirAt(F(), d) && DirAt(F(), f) && f < TableSize(vol.g) && Clearable(F(), f)
        && F().nodes[f].nlink > 0
      modifies Objects()
      ensures Valid() && (F(), err) == Rmdir(old(F()), d, name, f)
    {
      hide Valid, F, DirRmtest, DirSized, Clearable, Unlink;
      Each();
      if !nodes[d].isDir || !nodes[f].isDir {
        return ENOTDIR;
      }
      err := TestEmptyDir(f);
      if err != OK {
        return;
      }
      err := UnlinkFile(d, name, f);
    }

    /** `xv6_rename`. */
    method RenameFile(d1: nat, name1: seq<byte>, d2: nat, name2: seq<byte>, f: nat, badFlags: bool) returns (err: Errno)
      requires Valid() && DirAt(F(), d1) && DirAt(F(), d2) && RenameEnds(F(), d1, name1, d2, name2, f, badFlags)
      modifies Objects()
      ensures Valid() && (F(), err) == Rename(old(F()), d1, name1, d2, name2, f, badFlags)
    {
      hide Valid, F, DirErase, FindInum, DentryInsert, DirSized, InsertEnds;
      if badFlags {
        return EINVAL;
      }
      if |name2| > DIRSIZ {
        return ENAMETOOLONG;
      }
      err := EraseEntry(d1, name1);
      if err != OK {
        return;
      }
      var dnum;
      dnum, err := FindEntry(d2, name2);
      if err != OK {
        return;
      }
      if dnum != 0 {
        return EEXIST;
      }
      err := InsertEntry(d2, name2, f);
    }

    /** `xv6_file_write`. */
    method WriteData(f: nat, pos: nat, buf: seq<byte>) returns (count: nat, err: Errno)
      requires Valid() && f in nodes && FileWriteEnds(F(), f, pos, buf)
      modifies Objects()
      ensures Valid() && (F(), err) == WriteFile(old(F()), f, pos, buf)
    {
      hide F, Vol.Ok, FileWrite, WriteEnds;
      Each();
      ghost var m := F().nodes;
      var newpos;
      count, err, newpos := Write(vol, nodes[f], pos, false, buf);
      Gather(m[f := nodes[f].N()]);
    }
  }

  /** Erasing an entry does not depend on link counts. */
  lemma EraseSame(fs: Fs, fs': Fs, d: nat, name: seq<byte>)
    requires fs.v.Ok() && DirAt(fs, d) && fs'.v == fs.v && d in fs'.nodes
    requires fs'.nodes[d] == fs.nodes[d].(nlink := fs'.nodes[d].nlink)
    ensures DirErase(fs'.v, fs'.nodes[d], name) == DirErase(fs.v, fs.nodes[d], name)
  {
    hide DirIterate;
  }

  /** What an inode holds does not depend on its link count. */
  lemma ClearableSame(fs: Fs, fs': Fs, f: nat)
    requires fs.v.Sized() && f in fs.nodes && fs'.v == fs.v && f in fs'.nodes && fs'.nodes[f].addrs == fs.nodes[f].addrs
    ensures Clearable(fs', f) <==> Clearable(fs, f)
  {}
}
