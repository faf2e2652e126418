/** The bytes of the files, as part of what the namespace operations do. */
module NsData {
  import opened Layout
  import opened Volumes
  import opened BlockMap
  import opened Inodes
  import opened FileData
  import opened WriteRoom
  import opened Namespace
  import opened NsProof
  import opened NsCreate
  import opened NsEffect

  /** A file: its size, and all bytes the block map reaches, those past the end included. */
  datatype File = File(size: nat, store: seq<byte>)

  function FileOf(disk: Disk, n: Node): (file: File)
    ensures |file.store| == MAXBYTES
  {
    File(n.size, BytesFrom(disk, n.addrs, 0, MAXBYTES))
  }

  /** Every file of the file system. */
  function Data(fs: Fs): map<nat, File> {
    map f | f in fs.nodes && !fs.nodes[f].isDir :: FileOf(fs.v.disk, fs.nodes[f])
  }

  /** What is stored at a position. */
  function StoredAt(file: File, p: nat): byte { if p < |file.store| then file.store[p] else 0 }

  /** The contents of a file. */
  function Contents(file: File): (c: seq<byte>)
    ensures |c| == file.size
  {
    seq<byte>(file.size, p requires 0 <= p => StoredAt(file, p))
  }

  lemma StoredBytes(disk: Disk, n: Node, p: nat)
    ensures StoredAt(FileOf(disk, n), p) == ByteAt(disk, n.addrs, p)
  {
    hide ByteAt;
    if p >= MAXBYTES { PastReach(disk, n.addrs, p); }
  }

  lemma ContentsAre(disk: Disk, n: Node)
    ensures Contents(FileOf(disk, n)) == Content(disk, n.addrs, n.size)
  {
    hide ByteAt, StoredAt;
    var c, d := Contents(FileOf(disk, n)), Content(disk, n.addrs, n.size);
    forall p: nat | p < n.size ensures c[p] == d[p] { StoredBytes(disk, n, p); }
  }

  // ----- what reads the same -----

  lemma FileSame(v: Vol, n: Node, v': Vol, n': Node)
    requires SameNode(v, n, v', n')
    ensures FileOf(v'.disk, n') == FileOf(v.disk, n)
  {
    hide ByteAt;
    assert BytesFrom(v'.disk, n'.addrs, 0, MAXBYTES) == BytesFrom(v.disk, n.addrs, 0, MAXBYTES);
  }

  /** An inode that reads the same has the same bytes. */
  lemma DataAt(fs: Fs, fs': Fs, f: nat)
    requires f in fs.nodes && f in fs'.nodes && SameNode(fs.v, fs.nodes[f], fs'.v, fs'.nodes[f])
    ensures f in Data(fs') <==> f in Data(fs)
    ensures f in Data(fs) ==> Data(fs')[f] == Data(fs)[f]
  {
    hide FileOf, SameBytes;
    FileSame(fs.v, fs.nodes[f], fs'.v, fs'.nodes[f]);
  }

  lemma DataKeys(fs: Fs)
    ensures forall f :: f in Data(fs) <==> f in fs.nodes && !fs.nodes[f].isDir
  {
    hide FileOf;
  }

  /** All files that are in both states have the same bytes. */
  lemma DataBoth(fs: Fs, fs': Fs, d: nat)
    requires Reads(fs, fs', d)
    requires (d in fs.nodes ==> fs.nodes[d].isDir) && (d in fs'.nodes ==> fs'.nodes[d].isDir)
    ensures forall f :: f in fs.nodes && f in fs'.nodes ==>
      (f in Data(fs') <==> f in Data(fs)) && (f in Data(fs) ==> Data(fs')[f] == Data(fs)[f])
  {
    hide Data, SameNode;
    DataKeys(fs);
    DataKeys(fs');
    forall f | f in fs.nodes && f in fs'.nodes && f != d
      ensures (f in Data(fs') <==> f in Data(fs)) && (f in Data(fs) ==> Data(fs')[f] == Data(fs)[f])
    {
      DataAt(fs, fs', f);
    }
  }

  lemma DataSame(fs: Fs, fs': Fs, d: nat)
    requires Reads(fs, fs', d) && fs'.nodes.Keys == fs.nodes.Keys && d in fs.nodes
    requires fs.nodes[d].isDir && fs'.nodes[d].isDir
    ensures Data(fs') == Data(fs)
  {
    hide Data, Reads;
    DataBoth(fs, fs', d);
    DataKeys(fs);
    DataKeys(fs');
  }

  /** Two directories may have changed. */
  lemma DataSameBut(fs: Fs, fs': Fs, d1: nat, d2: nat)
    requires ReadsBut(fs, fs', d1, d2) && d1 in fs.nodes && d2 in fs.nodes
    requires fs.nodes[d1].isDir && fs'.nodes[d1].isDir && fs.nodes[d2].isDir && fs'.nodes[d2].isDir
    ensures Data(fs') == Data(fs)
  {
    hide Data, SameNode;
    DataKeys(fs);
    DataKeys(fs');
    forall f | f in fs.nodes && f != d1 && f != d2
      ensures (f in Data(fs') <==> f in Data(fs)) && (f in Data(fs) ==> Data(fs')[f] == Data(fs)[f])
    {
      DataAt(fs, fs', f);
    }
  }

  lemma DataWithout(fs: Fs, fs': Fs, d: nat, f: nat)
    requires Reads(fs, fs', d) && fs'.nodes.Keys == fs.nodes.Keys - {f} && d in fs'.nodes
    requires fs.nodes[d].isDir && fs'.nodes[d].isDir
    ensures Data(fs') == Data(fs) - {f}
  {
    hide Data, Reads;
    DataBoth(fs, fs', d);
    DataKeys(fs);
    DataKeys(fs');
  }

  /** A file without bytes. */
  function NoBytes(): File { File(0, seq(MAXBYTES, _ => 0)) }

  /** A new inode: a file without bytes, or a directory. */
  lemma DataJoined(fs: Fs, fs': Fs, d: nat, f: nat)
    requires Reads(fs, fs', d) && f !in fs.nodes && fs'.nodes.Keys == fs.nodes.Keys + {f} && d in fs.nodes
    requires fs.nodes[d].isDir && fs'.nodes[d].isDir && (!fs'.nodes[f].isDir ==> EmptyFile(fs', f))
    ensures Data(fs') == if fs'.nodes[f].isDir then Data(fs) else Data(fs)[f := NoBytes()]
  {
    hide Data, Reads, NoBytes;
    DataBoth(fs, fs', d);
    DataKeys(fs);
    DataKeys(fs');
    if !fs'.nodes[f].isDir { EmptyData(fs', f); }
  }

  lemma EmptyData(fs: Fs, f: nat)
    requires EmptyFile(fs, f) && !fs.nodes[f].isDir
    ensures f in Data(fs) && Data(fs)[f] == NoBytes()
  {
    hide ByteAt;
    assert BytesFrom(fs.v.disk, fs.nodes[f].addrs, 0, MAXBYTES) == seq<byte>(MAXBYTES, _ => 0);
  }

  // ----- write -----

  /** What a volume lets an operation do: its result, and for a write how many bytes are
      stored, and whether the size is cut to 32 bits on the way. */
  datatype Room = Room(err: Errno, count: nat, cut: bool)

  ghost function RoomToWrite(v: Vol, n: Node, cpos: nat, len: nat): Room
    requires v.Sized()
  {
    var q := EffectivePos(cpos);
    Room(WriteSupply(v, n.addrs, q, len), Stored(v, n.addrs, q, len), Dirties(n.addrs, q, Stored(v, n.addrs, q, len)))
  }

  /** `data` laid over `store` from `q` on. */
  function Lay(store: seq<byte>, q: nat, data: seq<byte>): seq<byte> {
    seq(|store|, p requires 0 <= p < |store| => if q <= p < q + |data| then data[p - q] else store[p])
  }

  /** A file after `data` is written to it at `cpos`. */
  function Written(file: File, cpos: nat, data: seq<byte>, cut: bool): File {
    File(Max(if cut then file.size % U32 else file.size, cpos + |data|), Lay(file.store, EffectivePos(cpos), data))
  }

  /** A write stores what there is room for in its file, and touches no other. */
  ghost predicate DataWritten(data: map<nat, File>, f: nat, cpos: nat, buf: seq<byte>, room: Room,
      data': map<nat, File>)
  {
    && f in data && room.count <= |buf| && (room.err == OK <==> room.count == |buf|)
    && (room.count > 0 ==> EffectivePos(cpos) + room.count <= MAXBYTES)
    && data' == data[f := Written(data[f], cpos, buf[..room.count], room.cut)]
  }

  lemma SplicedStore(disk: Disk, a: Addrs, disk': Disk, a': Addrs, q: nat, data: seq<byte>)
    requires Spliced(disk, a, disk', a', q, data)
    ensures BytesFrom(disk', a', 0, MAXBYTES) == Lay(BytesFrom(disk, a, 0, MAXBYTES), q, data)
  {
    hide ByteAt;
  }

  lemma WriteData(fs: Fs, f: nat, cpos: nat, buf: seq<byte>)
    requires Inv(fs) && f in fs.nodes && !fs.nodes[f].isDir
    ensures fs.v.Ok()
    ensures var (fs', err) := WriteFile(fs, f, cpos, buf);
      var room := RoomToWrite(fs.v, fs.nodes[f], cpos, |buf|);
      err == room.err && DataWritten(Data(fs), f, cpos, buf, room, Data(fs'))
  {
    hide Base, NoDangling, Excess, FileWrite, Data, Wrote, Reads, SoundVol, WriteSupply, StoredTo, EffectivePos,
         Stored, Dirties, SizeKept, FileOf, Written;
    BaseOk(fs);
    BaseSound(fs);
    var n, w := fs.nodes[f], FileWrite(fs.v, fs.nodes[f], cpos, buf);
    var fs' := WriteFile(fs, f, cpos, buf).0;
    WriteExact(fs.v, Maps(fs), f, n, cpos, buf);
    WriteRefinesSplice(fs.v, Maps(fs), f, n, cpos, buf);
    WroteErr(fs.v, Maps(fs), f, EffectivePos(cpos), buf, w);
    WriteEffect(fs, f, cpos, buf);
    DataOthers(fs, fs', f);
    DataKeys(fs);
    DataKeys(fs');
    DataIs(fs, f);
    DataIs(fs', f);
    WrittenIs(fs.v.disk, n, w.v.disk, w.n, cpos, buf[..w.count], Dirties(n.addrs, EffectivePos(cpos), w.count));
    DataPut(Data(fs), Data(fs'), f, FileOf(w.v.disk, w.n));
  }

  lemma WroteErr(v: Vol, files: Files, f: nat, q: nat, buf: seq<byte>, r: WriteResult)
    requires Wrote(v, files, f, q, buf, r)
    ensures f in files && r.count <= |buf| && (r.err == OK <==> r.count == |buf|)
    ensures r.count > 0 ==> q + r.count <= MAXBYTES
    ensures Spliced(v.disk, files[f], r.v.disk, r.n.addrs, q, buf[..r.count])
  {
    hide SoundVol, Spliced, SameBytes;
  }

  lemma WrittenIs(disk: Disk, n: Node, disk': Disk, n': Node, cpos: nat, data: seq<byte>, cut: bool)
    requires Spliced(disk, n.addrs, disk', n'.addrs, EffectivePos(cpos), data)
    requires n'.size == Max(if cut then n.size % U32 else n.size, cpos + |data|)
    ensures FileOf(disk', n') == Written(FileOf(disk, n), cpos, data, cut)
  {
    hide Spliced, Lay, EffectivePos, BytesFrom;
    SplicedStore(disk, n.addrs, disk', n'.addrs, EffectivePos(cpos), data);
  }

  lemma DataOthers(fs: Fs, fs': Fs, f: nat)
    requires Reads(fs, fs', f) && fs'.nodes.Keys == fs.nodes.Keys
    ensures Data(fs') - {f} == Data(fs) - {f}
  {
    hide Data, SameNode;
    DataKeys(fs);
    DataKeys(fs');
    forall g | g in fs.nodes && g != f
      ensures (g in Data(fs') <==> g in Data(fs)) && (g in Data(fs) ==> Data(fs')[g] == Data(fs)[g])
    {
      DataAt(fs, fs', g);
    }
  }

  lemma DataIs(fs: Fs, f: nat)
    requires f in fs.nodes && !fs.nodes[f].isDir
    ensures f in Data(fs) && Data(fs)[f] == FileOf(fs.v.disk, fs.nodes[f])
  {
    hide FileOf;
  }

  lemma DataPut(data: map<nat, File>, data': map<nat, File>, f: nat, file: File)
    requires f in data' && data'[f] == file && data' - {f} == data - {f}
    ensures data' == data[f := file]
  {
    forall g | g in data && g != f ensures g in data' && data'[g] == data[g] {
      assert g in data - {f} && (data - {f})[g] == data[g] && (data' - {f})[g] == data'[g];
    }
    forall g | g in data' && g != f ensures g in data {
      assert g in data' - {f};
    }
  }

  // ----- read -----

  /** What reading a file gives, by its size and stored bytes. */
  function ReadOf(file: File, pos: nat, len: nat): (seq<byte>, Errno) {
    var q, want := EffectivePos(pos), Min(len, (file.size - pos) % U64);
    (seq<byte>(Reach(q, want), i requires 0 <= i => StoredAt(file, q + i)), if Reach(q, want) < want then EFBIG else OK)
  }

  /** Every read of a file, at any position, is a reading of this picture of it. */
  lemma ReadIsOf(fs: Fs, f: nat, pos: nat, len: nat)
    requires Inv(fs) && f in fs.nodes && !fs.nodes[f].isDir
    ensures fs.v.Ok() && f in Data(fs) && FileRead(fs.v, fs.nodes[f], pos, len) == ReadOf(Data(fs)[f], pos, len)
  {
    hide Base, NoDangling, Excess, FileRead, Data, SoundVol, EffectivePos, FileOf, StoredAt, ByteAt, Reach;
    BaseOk(fs);
    BaseSound(fs);
    DataIs(fs, f);
    var n, q, want := fs.nodes[f], EffectivePos(pos), Min(len, (fs.nodes[f].size - pos) % U64);
    ReadBytes(fs.v, Maps(fs), f, n, pos, len);
    SizeOf(fs.v.disk, n);
    var c := BytesFrom(fs.v.disk, n.addrs, q, Reach(q, want));
    forall i | 0 <= i < |c| ensures c[i] == StoredAt(Data(fs)[f], q + i) { StoredBytes(fs.v.disk, n, q + i); }
    assert c == ReadOf(Data(fs)[f], pos, len).0;
  }

  lemma SizeOf(disk: Disk, n: Node)
    ensures FileOf(disk, n).size == n.size
  {
    hide BytesFrom;
  }

  // ----- tidy files -----

  /** A size that fits the 32 bits of a record, and nothing but zeros stored past it. */
  predicate Tidy(file: File) {
    file.size < U32 && forall p :: file.size <= p < |file.store| ==> file.store[p] == 0
  }

  /** Below 4 GiB a write to a tidy file splices the bytes into the contents, and leaves
      it tidy. */
  lemma TidyWrite(file: File, cpos: nat, data: seq<byte>, cut: bool)
    requires Tidy(file) && |file.store| == MAXBYTES && cpos < U32
    requires data != [] ==> cpos + |data| <= MAXBYTES
    ensures Contents(Written(file, cpos, data, cut)) == Splice(Contents(file), cpos, data)
    ensures Tidy(Written(file, cpos, data, cut)) && |Written(file, cpos, data, cut).store| == MAXBYTES
  {
    hide EffectivePos;
    EffectivePosExact(cpos);
    var file' := Written(file, cpos, data, cut);
    assert file'.size == Max(file.size, cpos + |data|);
    forall p: nat
      ensures StoredAt(file', p) == if cpos <= p < cpos + |data| then data[p - cpos] else StoredAt(file, p)
    {}
  }

  /** What tidiness says of an inode. */
  lemma TidyMeans(disk: Disk, n: Node)
    ensures Tidy(FileOf(disk, n)) <==> n.size < U32 && ZeroTail(disk, n.addrs, n.size)
  {
    hide ByteAt;
    var file := FileOf(disk, n);
    forall p: nat | p >= MAXBYTES ensures ByteAt(disk, n.addrs, p) == 0 { PastReach(disk, n.addrs, p); }
    assert forall p :: 0 <= p < MAXBYTES ==> file.store[p] == ByteAt(disk, n.addrs, p);
  }
}
