/** What a crash can leave: after every single disk write of a file write, and
    after the inode is synced last, the image on disk is consistent. */
module Crash {
  import opened Layout
  import opened Bytes
  import opened Volumes
  import opened BlockMap
  import opened Durability
  import opened Inodes
  import opened FileData

  /** The block maps recorded in the on-disk inode table. */
  function Table(g: Geometry, disk: Disk): Files
    requires g.Formed() && |disk| == g.size
  {
    map f: nat | 0 < f < TableSize(g) && DinodeAt(g, disk, f).kind != 0 :: DinodeAt(g, disk, f).addrs
  }

  /** Every block an on-disk inode refers to is a data block, marked in use in
      the on-disk bitmap, and referred to once. */
  ghost predicate Consistent(g: Geometry, disk: Disk) {
    && g.Formed() && |disk| == g.size
    && Sound(disk, g.DataStart(), UsedSet(g, disk), Table(g, disk))
  }

  /** The on-disk table holds no more than the in-core inodes do. */
  ghost predicate Lags(g: Geometry, disk: Disk, files: Files)
    requires g.Formed() && |disk| == g.size
  {
    && Table(g, disk).Keys <= files.Keys
    && forall f :: f in Table(g, disk) ==> Extends(Table(g, disk)[f], files[f])
  }

  lemma TableFrame(g: Geometry, disk: Disk, disk': Disk)
    requires g.Formed() && SameTable(g, disk, disk')
    ensures Table(g, disk') == Table(g, disk)
  {
    DinodeFrame(g, disk, disk');
    hide DinodeAt;
  }

  /** Each image of a durable step is consistent. */
  lemma DurableConsistent(v: Vol, v': Vol, files: Files, t: nat)
    requires Durable(v, v', files) && Lags(v.g, v.disk, files)
    requires |v.trace| <= t < |v'.trace|
    ensures Consistent(v.g, v'.trace[t])
  {
    hide Used, UsedSet, Sound, Table, Extends;
    assert SafeImage(v.g, v.disk, v'.trace[t], files);
    TableFrame(v.g, v.disk, v'.trace[t]);
    SoundLagging(v'.trace[t], v.g.DataStart(), UsedSet(v.g, v'.trace[t]), files, Table(v.g, v.disk));
  }

  lemma ExtendsTrans(a: Addrs, b: Addrs, c: Addrs)
    requires Extends(a, b) && Extends(b, c)
    ensures Extends(a, c)
  {}

  lemma ChunkDurable(v: Vol, files: Files, f: nat, n: Node, block: nat, boff: nat, chunk: seq<byte>)
    requires SoundVol(v, files) && f in files && files[f] == n.addrs
    requires boff + |chunk| <= BSIZE && WriteBlock(v, n, block).err == OK
    ensures var w := WriteBlock(v, n, block);
      && Extends(n.addrs, w.n.addrs)
      && Durable(v, w.v.Put(w.blockno, Blit(w.v.disk[w.blockno], boff, chunk)), files)
  {
    WriteBlockKeeps(v, files, f, n, block);
    InodeAddrDurable(v, files, f, false, block, true);
    InodeAddrExtends(v, n.addrs, false, block, true);
    ChunkWritten(v, files, f, n, block, boff, chunk);
    hide Slot, ByteAt, InodeAddr, UsedSet, Used, Durable, Sound, Extends, Spliced;
    var w := WriteBlock(v, n, block);
    var files1 := files[f := w.n.addrs];
    var blk := Blit(w.v.disk[w.blockno], boff, chunk);
    PutDurable(w.v, w.blockno, blk, files1);
    ExtendsRefl(files);
    DurableLagging(w.v, w.v.Put(w.blockno, blk), files1, files);
    DurableTrans(v, w.v, w.v.Put(w.blockno, blk), files);
  }

  lemma {:induction false} WriteLoopDurable(v: Vol, files: Files, f: nat, n: Node, block: nat, boff: nat,
      buf: seq<byte>)
    requires SoundVol(v, files) && f in files && files[f] == n.addrs && boff < BSIZE
    ensures Durable(v, WriteLoop(v, n, block, boff, buf).v, files)
    ensures Extends(n.addrs, WriteLoop(v, n, block, boff, buf).n.addrs)
    decreases |buf|
  {
    hide Slot, ByteAt, InodeAddr, UsedSet, Used, Blit, Durable, Sound, Extends, Spliced;
    ExtendsRefl(files);
    if buf == [] {
      DurableRefl(v, files);
    } else if WriteBlock(v, n, block).err != OK {
      WriteBlockKeeps(v, files, f, n, block);
      InodeAddrDurable(v, files, f, false, block, true);
      InodeAddrExtends(v, n.addrs, false, block, true);
    } else {
      var w, m := WriteBlock(v, n, block), Min(BSIZE - boff, |buf|);
      ChunkDurable(v, files, f, n, block, boff, buf[..m]);
      ChunkWritten(v, files, f, n, block, boff, buf[..m]);
      var v1 := w.v.Put(w.blockno, Blit(w.v.disk[w.blockno], boff, buf[..m]));
      hide WriteBlock;
      var files1 := files[f := w.n.addrs];
      WriteLoopDurable(v1, files1, f, w.n, block + 1, 0, buf[m..]);
      var r := WriteLoop(v1, w.n, block + 1, 0, buf[m..]);
      DurableLagging(v1, r.v, files1, files);
      DurableTrans(v, v1, r.v, files);
      ExtendsTrans(n.addrs, w.n.addrs, r.n.addrs);
    }
  }

  /** Syncing a sound in-core inode leaves a consistent image. */
  lemma SyncConsistent(v: Vol, files: Files, f: nat, n: Node)
    requires SoundVol(v, files) && Lags(v.g, v.disk, files)
    requires f in files && files[f] == n.addrs && f < TableSize(v.g)
    ensures Consistent(v.g, SyncInode(v, f, n).disk)
    ensures Lags(v.g, SyncInode(v, f, n).disk, files)
  {
    hide Sound, Used, Decode, Encode, UsedSet;
    var di := DinodeAt(v.g, v.disk, f).(addrs := n.addrs, size := n.size % U32, nlink := n.nlink % U16);
    PutInodeEffect(v, f, di);
    PutInodeSafe(v, files, f, di);
    hide PutInode;
    var v' := SyncInode(v, f, n);
    assert Table(v.g, v'.disk).Keys == Table(v.g, v.disk).Keys;
    ExtendsRefl(files);
    SoundLagging(v'.disk, v.g.DataStart(), UsedSet(v.g, v'.disk), files, Table(v.g, v'.disk));
  }

  /** Durable ordering: if the on-disk table lags behind sound in-core inodes,
      then after every prefix of the disk writes of a file write, and after the
      inode sync that may follow it, every block an on-disk inode refers to is
      marked in use and referred to once. */
  lemma WriteCrashConsistent(v: Vol, files: Files, f: nat, n: Node, cpos: nat, buf: seq<byte>)
    requires SoundVol(v, files) && Lags(v.g, v.disk, files)
    requires f in files && files[f] == n.addrs && f < TableSize(v.g)
    ensures var r := FileWrite(v, n, cpos, buf);
      && |v.trace| <= |r.v.trace|
      && (forall t :: |v.trace| <= t < |r.v.trace| ==> Consistent(v.g, r.v.trace[t]))
      && Consistent(v.g, SyncInode(r.v, f, r.n).disk)
      && Lags(v.g, SyncInode(r.v, f, r.n).disk, files[f := r.n.addrs])
  {
    hide Slot, ByteAt, UsedSet, Used, Sound, Extends, Spliced, WriteLoop, SyncInode, Table;
    var r := FileWrite(v, n, cpos, buf);
    WriteLoopDurable(v, files, f, n, cpos / BSIZE % U32, cpos % BSIZE, buf);
    WriteLoopSplices(v, files, f, n, cpos / BSIZE % U32, cpos % BSIZE, buf);
    forall t | |v.trace| <= t < |r.v.trace| ensures Consistent(v.g, r.v.trace[t]) {
      DurableConsistent(v, r.v, files, t);
    }
    TableFrame(v.g, v.disk, r.v.disk);
    forall f' | f' in Table(v.g, v.disk) ensures Extends(Table(v.g, v.disk)[f'], files[f := r.n.addrs][f']) {
      if f' == f {
        ExtendsTrans(Table(v.g, v.disk)[f], files[f], r.n.addrs);
      }
    }
    SyncConsistent(r.v, files[f := r.n.addrs], f, r.n);
  }
}
