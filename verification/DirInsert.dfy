/** Inserting a directory entry: first fit over the slots, filling holes on the
    way and extending the directory by one slot when it is full. */
module DirInsert {
  import opened Layout
  import opened Bytes
  import opened Volumes
  import opened Allocator
  import opened BlockMap
  import opened Space
  import opened Balance
  import opened Durability
  import opened Inodes
  import opened FileData
  import opened DirIter
  import opened DirCalls
  import opened Directory

  /** The first free slot in [k, end), or `end`. */
  function FirstFree(disk: Disk, a: Addrs, k: nat, end: nat): (x: nat)
    requires k <= end
    ensures k <= x <= end
    decreases end - k
  {
    if k == end || Entry(disk, a, k).inum == 0 then k else FirstFree(disk, a, k + 1, end)
  }

  lemma {:induction false} FirstFreeIs(disk: Disk, a: Addrs, k: nat, end: nat, x: nat)
    requires k <= x <= end
    requires forall j: nat :: k <= j < x ==> Entry(disk, a, j).inum != 0
    requires x < end ==> Entry(disk, a, x).inum == 0
    ensures FirstFree(disk, a, k, end) == x
    decreases x - k
  {
    hide Entry;
    if k >= x {
    } else {
      FirstFreeIs(disk, a, k + 1, end, x);
    }
  }

  lemma {:induction false} FirstFreeSkip(disk: Disk, a: Addrs, k: nat, m: nat, end: nat)
    requires k <= m <= end
    requires forall j: nat :: k <= j < m ==> Entry(disk, a, j).inum != 0
    ensures FirstFree(disk, a, k, end) == FirstFree(disk, a, m, end)
    decreases m - k
  {
    hide Entry;
    if k >= m {
    } else {
      FirstFreeSkip(disk, a, k + 1, m, end);
    }
  }

  /** Directories with the same entries have the same first free slot. */
  lemma {:induction false} FirstFreeSame(disk: Disk, a: Addrs, disk': Disk, a': Addrs, k: nat, end: nat)
    requires k <= end && forall j: nat :: Entry(disk', a', j) == Entry(disk, a, j)
    ensures FirstFree(disk', a', k, end) == FirstFree(disk, a, k, end)
    decreases end - k
  {
    hide Entry;
    if k >= end {
    } else {
      FirstFreeSame(disk, a, disk', a', k + 1, end);
    }
  }

  /** Erasing slot `k` makes it the first free one, unless there is one before it. */
  lemma FirstFreeErased(disk: Disk, a: Addrs, disk': Disk, k: nat, end: nat)
    requires k < end
    requires forall j: nat :: Entry(disk', a, j) == if j == k then Erased() else Entry(disk, a, j)
    ensures FirstFree(disk', a, 0, end) == Min(k, FirstFree(disk, a, 0, end))
  {
    hide Entry, FirstFree;
    FirstFreeIsFirst(disk, a, 0, end);
    FirstFreeIs(disk', a, 0, end, Min(k, FirstFree(disk, a, 0, end)));
  }

  lemma {:induction false} FirstFreeIsFirst(disk: Disk, a: Addrs, k: nat, end: nat)
    requires k <= end
    ensures forall j: nat :: k <= j < FirstFree(disk, a, k, end) ==> Entry(disk, a, j).inum != 0
    ensures FirstFree(disk, a, k, end) < end ==> Entry(disk, a, FirstFree(disk, a, k, end)).inum == 0
    decreases end - k
  {
    hide Entry;
    if k >= end || Entry(disk, a, k).inum == 0 {
    } else {
      FirstFreeIsFirst(disk, a, k + 1, end);
    }
  }

  /** Growing from `v` to `v'` the disk went through safe images only, the map of `f` has
      only gained addresses, and no block is lost. */
  ghost predicate Grows(v: Vol, files: Files, f: nat, v': Vol, a': Addrs) {
    f in files && Durable(v, v', files) && Extends(files[f], a') && Balanced(v, files, v', files[f := a'])
    && Logged(v, v')
  }

  /** The last write is the one that shows: before it the file reads as it did. */
  ghost predicate LastShows(v: Vol, files: Files, f: nat, v': Vol, a': Addrs)
    requires f in files
  {
    |v.trace| < |v'.trace| && Logged(v, v') && SameBytes(v.disk, files[f], BeforeLast(v, v'), a')
  }

  lemma GrowsPut(v: Vol, files: Files, f: nat, v1: Vol, a1: Addrs, b: nat, blk: Block)
    requires Grows(v, files, f, v1, a1) && v1.Ok() && v1.g.IsData(b) && SoundVol(v1.Put(b, blk), files[f := a1])
    requires SameRoom(v1, v1.Put(b, blk), files[f := a1])
    requires SameBytes(v.disk, files[f], v1.disk, a1)
    ensures Grows(v, files, f, v1.Put(b, blk), a1) && LastShows(v, files, f, v1.Put(b, blk), a1)
  {
    hide Durable, Extends, Sound, UsedSet, Balanced, SameSlots, SameBytes;
    DurableLonger(v, v1, files);
    BalancedSame(v1, v1.Put(b, blk), files[f := a1]);
    BalancedTrans(v, files, v1, files[f := a1], v1.Put(b, blk), files[f := a1]);
    PutDurable(v1, b, blk, files[f := a1]);
    ExtendsRefl(files);
    DurableLagging(v1, v1.Put(b, blk), files[f := a1], files);
    DurableTrans(v, v1, v1.Put(b, blk), files);
  }

  lemma GrowsNot(v: Vol, files: Files, f: nat)
    requires v.Ok() && f in files
    ensures Grows(v, files, f, v, files[f])
  {
    hide Durable, UsedSet, Referenced;
    DurableRefl(v, files);
    assert files[f := files[f]] == files;
  }

  // ----- facts about the block map -----

  /** A changed address always leaves the context dirty. */
  lemma AddrDirty(v: Vol, a: Addrs, dirty: bool, i: nat)
    requires v.Ok()
    ensures InodeAddr(v, a, dirty, i, true).addrs != a ==> InodeAddr(v, a, dirty, i, true).dirty
  {
    hide Word, Take, Pick;
  }

  /** A block that is present is found without any change. */
  lemma AddrPresent(v: Vol, files: Files, f: nat, dirty: bool, i: nat)
    requires SoundVol(v, files) && f in files && i < MAXFILE && FileBlock(v.disk, files[f], i) != 0
    ensures InodeAddr(v, files[f], dirty, i, true)
         == AddrResult(v, files[f], false, FileBlock(v.disk, files[f], i), OK)
  {
    RootInRange(v, files, f);
    hide Word, Take, Pick, Sound;
  }

  lemma InodeAddrLogged(v: Vol, a: Addrs, dirty: bool, i: nat)
    requires v.Ok()
    ensures Logged(v, InodeAddr(v, a, dirty, i, true).v)
  {
    hide Word, PutWord, Pick, Marked, Used;
  }

  lemma AddrGrown(v: Vol, files: Files, f: nat, dirty: bool, i: nat)
    requires SoundVol(v, files) && f in files
    ensures var w := InodeAddr(v, files[f], dirty, i, true);
      && Keeps(v, files, f, i, true, w)
      && (w.err == OK ==> i < MAXFILE && w.blockno == FileBlock(w.v.disk, w.addrs, i) != 0 && w.blockno < |w.v.disk|)
      && (w.addrs != files[f] ==> w.dirty)
      && w.err == Supply(v, files[f], i) && Grows(v, files, f, w.v, w.addrs)
  {
    InodeAddrKeeps(v, files, f, dirty, i, true);
    InodeAddrExact(v, files, f, dirty, i);
    InodeAddrDurable(v, files, f, dirty, i, true);
    InodeAddrExtends(v, files[f], dirty, i, true);
    AddrDirty(v, files[f], dirty, i);
    InodeAddrBalanced(v, files, f, dirty, i, true);
    InodeAddrLogged(v, files[f], dirty, i);
    hide InodeAddr, Sound, SameContents, UsedSet, FileBlock, Supply, Durable, Extends, Balanced;
    var w := InodeAddr(v, files[f], dirty, i, true);
    if w.err == OK {
      BlockInRange(w.v, files[f := w.addrs], f, i);
    }
  }

  // ----- the insert callback over one block -----

  lemma {:induction false} FoldInsert(calls: seq<Call>, c: InsertCtx, act: Action)
    ensures var f := Fold(DeInsert, calls, c, act);
      && (f.Stopped() ==>
            && calls[f.made - 1].de.inum == 0 && f.de == c.nde && f.act == Action(false, true, true, true)
            && f.ctx == c.(sane := c.sane && calls[f.made - 1].de.name[0] == 0)
            && forall j :: 0 <= j < f.made - 1 ==> calls[j].de.inum != 0)
      && (!f.Stopped() ==> f.ctx == c && forall j :: 0 <= j < |calls| ==> calls[j].de.inum != 0)
      && (!f.Stopped() && f.made > 0 ==> f.act == Action(true, false, true, true))
  {
    if calls == [] || calls[0].de.inum == 0 {
    } else {
      FoldInsert(calls[1..], c, DeInsert(calls[0].n, calls[0].de, c).act);
    }
  }

  /** What driving the insert callback over slots [k, end) leaves, where `x` is
      the first free slot among them. */
  ghost predicate Inserted(v: Vol, files: Files, f: nat, c: InsertCtx, x: nat, end: nat, r: IterResult<InsertCtx>) {
    && f in files && r.v.g == v.g && SoundVol(r.v, files[f := r.addrs]) && SameTable(v.g, v.disk, r.v.disk)
    && (forall f' :: f' in files && f' != f ==> SameBytes(v.disk, files[f'], r.v.disk, files[f']))
    && x <= end && v.Sized() && r.err == (if x < end then Supply(v, files[f], x / NENTS) else OK)
    && Grows(v, files, f, r.v, r.addrs)
    && (r.err != OK ==> SameBytes(v.disk, files[f], r.v.disk, r.addrs) && Pick(r.v) == 0 && r.ctx == c)
    && (r.err == OK && !r.act.cont ==>
          && x < end && LastShows(v, files, f, r.v, r.addrs)
          && Spliced(v.disk, files[f], r.v.disk, r.addrs, DESIZE * x, EncodeDirent(c.nde))
          && r.ctx == c.(sane := c.sane && Entry(v.disk, files[f], x).name[0] == 0)
          && (r.addrs != files[f] ==> r.dirty))
    && (r.err == OK && r.act.cont ==> x == end && r.v == v && r.addrs == files[f] && r.ctx == c && r.act.dirExt)
  }

  lemma SplicedAfterSame(d0: Disk, a0: Addrs, d1: Disk, a1: Addrs, d2: Disk, a2: Addrs, q: nat, data: seq<byte>)
    requires SameBytes(d0, a0, d1, a1) && Spliced(d1, a1, d2, a2, q, data)
    ensures Spliced(d0, a0, d2, a2, q, data)
  {
    hide ByteAt;
  }

  /** Storing the entry in slot `x` after the block map may have grown. */
  lemma StoreSlot(v: Vol, files: Files, f: nat, w: AddrResult, i: nat, x: nat, de: Dirent)
    requires Keeps(v, files, f, i, true, w) && x / NENTS == i < MAXFILE && FileBlock(w.v.disk, w.addrs, i) != 0
    requires Grows(v, files, f, w.v, w.addrs)
    ensures var v' := EntryPut(w.v, w.addrs, x, de);
      && v'.g == v.g && SoundVol(v', files[f := w.addrs]) && SameTable(v.g, v.disk, v'.disk)
      && Grows(v, files, f, v', w.addrs) && LastShows(v, files, f, v', w.addrs)
      && (forall f' :: f' in files && f' != f ==> SameBytes(v.disk, files[f'], v'.disk, files[f']))
      && Spliced(v.disk, files[f], v'.disk, w.addrs, DESIZE * x, EncodeDirent(de))
  {
    hide Sound, ByteAt, Slot, FileBlock, UsedSet, Used, EntryPut, EncodeDirent, Grows, SameRoom;
    var files1 := files[f := w.addrs];
    EntryPutSplices(w.v, files1, f, x, de);
    var v' := EntryPut(w.v, w.addrs, x, de);
    var blk := EntryPutIs(w.v, files1, f, x, de);
    assert SameBytes(v.disk, files[f], w.v.disk, files1[f]);
    GrowsPut(v, files, f, w.v, w.addrs, FileBlock(w.v.disk, w.addrs, i), blk);
    forall f' | f' in files && f' != f ensures SameBytes(v.disk, files[f'], v'.disk, files[f']) {
      assert SameBytes(v.disk, files[f'], w.v.disk, files1[f']);
      assert SameBytes(w.v.disk, files1[f'], v'.disk, files1[f']);
    }
    SplicedAfterSame(v.disk, files[f], w.v.disk, w.addrs, v'.disk, w.addrs, DESIZE * x, EncodeDirent(de));
  }

  lemma EntryPutIs(v: Vol, files: Files, f: nat, x: nat, de: Dirent) returns (blk: Block)
    requires SoundVol(v, files) && f in files && x / NENTS < MAXFILE && FileBlock(v.disk, files[f], x / NENTS) != 0
    ensures var b := FileBlock(v.disk, files[f], x / NENTS);
      v.g.IsData(b) && EntryPut(v, files[f], x, de) == v.Put(b, blk)
  {
    hide FileBlock, PutDirent, UsedSet;
    DataBlock(v, files, f, x / NENTS);
    blk := PutDirent(v.disk[FileBlock(v.disk, files[f], x / NENTS)], x % NENTS, de);
  }

  /** Nothing could be allocated: nothing reads differently. */
  lemma KeptOnError(v: Vol, files: Files, f: nat, w: AddrResult, i: nat)
    requires Keeps(v, files, f, i, true, w)
    ensures w.v.g == v.g && SoundVol(w.v, files[f := w.addrs]) && SameTable(v.g, v.disk, w.v.disk)
    ensures SameBytes(v.disk, files[f], w.v.disk, w.addrs)
    ensures forall f' :: f' in files && f' != f ==> SameBytes(v.disk, files[f'], w.v.disk, files[f'])
  {
    hide Sound, ByteAt, Slot, FileBlock, UsedSet, Used;
    assert SameBytes(v.disk, files[f], w.v.disk, files[f := w.addrs][f]);
    forall f' | f' in files && f' != f ensures SameBytes(v.disk, files[f'], w.v.disk, files[f']) {
      assert SameBytes(v.disk, files[f'], w.v.disk, files[f := w.addrs][f']);
    }
  }

  lemma HoleIsFree(v: Vol, files: Files, f: nat, i: nat)
    requires SoundVol(v, files) && f in files && i < MAXFILE && FileBlock(v.disk, files[f], i) == 0
    ensures Entry(v.disk, files[f], i * NENTS).inum == 0
  {
    NullIsFree();
    EntryInBlock(v.disk, files[f], i, 0);
    hide Entry, FileBlock, Sound;
  }

  /** Over the slots of a block that is present, the callback stops at the first
      free one if there is one. */
  lemma BlockFold(disk: Disk, a: Addrs, i: nat, lim: nat, c: InsertCtx, act: Action)
    requires i < MAXFILE && FileBlock(disk, a, i) != 0 && 0 < lim <= NENTS
    ensures var calls := BlockCalls(disk, a, i, 0, lim);
      var x := FirstFree(disk, a, i * NENTS, i * NENTS + lim);
      var fo := Fold(DeInsert, calls, c, act);
      if x == i * NENTS + lim then
        fo.made == lim && fo.ctx == c && fo.act == Action(true, false, true, true)
      else
        && fo.made == x - i * NENTS + 1 && calls[fo.made - 1].n == x && fo.de == c.nde
        && fo.ctx == c.(sane := c.sane && Entry(disk, a, x).name[0] == 0) && fo.act == Action(false, true, true, true)
  {
    hide FileBlock, Entry, Fold;
    var calls := BlockCalls(disk, a, i, 0, lim);
    FoldInsert(calls, c, act);
    var fo := Fold(DeInsert, calls, c, act);
    var x := if fo.Stopped() then i * NENTS + fo.made - 1 else i * NENTS + lim;
    forall j: nat | i * NENTS <= j < x
      ensures Entry(disk, a, j).inum != 0
    {
      assert calls[j - i * NENTS] == Call(j, Entry(disk, a, j));
    }
    FirstFreeIs(disk, a, i * NENTS, i * NENTS + lim, x);
  }

  /** What visiting one present block does. */
  function Visited1(v: Vol, a: Addrs, i: nat, lim: nat, c: InsertCtx): VisitResult<InsertCtx>
    requires v.Ok()
  {
    var x := FirstFree(v.disk, a, i * NENTS, i * NENTS + lim);
    if x == i * NENTS + lim then VisitResult(v, c, Action(true, false, true, true))
    else VisitResult(EntryPut(v, a, x, c.nde), c.(sane := c.sane && Entry(v.disk, a, x).name[0] == 0),
                     Action(false, true, true, true))
  }

  lemma InsertEdits()
    ensures EditsAtStop(DeInsert)
  {}

  lemma InsertInBlock(v: Vol, a: Addrs, i: nat, lim: nat, c: InsertCtx, act: Action)
    requires v.Ok() && i < MAXFILE && 0 < FileBlock(v.disk, a, i) < |v.disk| && 0 < lim <= NENTS
    ensures Visit(DeInsert, v, FileBlock(v.disk, a, i), i, 0, lim, c, act) == Visited1(v, a, i, lim, c)
  {
    hide FileBlock, Entry, Fold, FirstFree, Visit, BlockCalls, EntryPut, EditsAtStop;
    InsertEdits();
    VisitIsFold(DeInsert, v, a, i, 0, lim, c, act);
    BlockFold(v.disk, a, i, lim, c, act);
  }

  /** One turn of an allocating iteration. */
  lemma IterUnfold<C>(cb: Callback<C>, v: Vol, a: Addrs, dirty: bool, i: nat, size: nat, c: C, act: Action)
    requires v.Ok() && size > 0
    ensures var w := InodeAddr(v, a, dirty, i, true);
      var r := IterBlocks(cb, v, a, dirty, i, 0, size, c, act, true);
      && (w.err != OK ==> r == IterResult(w.v, w.addrs, w.dirty, c, act, w.err))
      && (w.err == OK && w.blockno < |w.v.disk| ==>
            var t := Visit(cb, w.v, w.blockno, i, 0, Min(NENTS, size), c, act);
            r == if !t.act.cont || size <= NENTS then IterResult(t.v, w.addrs, w.dirty, t.ctx, t.act, OK)
                 else IterBlocks(cb, t.v, w.addrs, w.dirty, i + 1, 0, size - NENTS, t.ctx, t.act, true))
  {
    hide InodeAddr, Visit;
  }

  /** One turn of the iteration, once the block is there. */
  lemma InsertTurn(v: Vol, files: Files, f: nat, dirty: bool, i: nat, size: nat, c: InsertCtx, act: Action)
    requires SoundVol(v, files) && f in files && i < MAXFILE && size > 0
    ensures var w := InodeAddr(v, files[f], dirty, i, true);
      var r := IterBlocks(DeInsert, v, files[f], dirty, i, 0, size, c, act, true);
      && Keeps(v, files, f, i, true, w) && (w.addrs != files[f] ==> w.dirty) && w.err == Supply(v, files[f], i)
      && Grows(v, files, f, w.v, w.addrs)
      && (w.err != OK ==> r == IterResult(w.v, w.addrs, w.dirty, c, act, w.err))
      && (w.err == OK ==>
            && FileBlock(w.v.disk, w.addrs, i) != 0
            && var t := Visited1(w.v, w.addrs, i, Min(NENTS, size), c);
               r == if !t.act.cont || size <= NENTS then IterResult(t.v, w.addrs, w.dirty, t.ctx, t.act, OK)
                    else IterBlocks(DeInsert, t.v, w.addrs, w.dirty, i + 1, 0, size - NENTS, t.ctx, t.act, true))
  {
    hide InodeAddr, Visit, Visited1, Keeps, FileBlock, IterBlocks, Sound, Supply, Grows;
    AddrGrown(v, files, f, dirty, i);
    IterUnfold(DeInsert, v, files[f], dirty, i, size, c, act);
    var w := InodeAddr(v, files[f], dirty, i, true);
    if w.err == OK {
      InsertInBlock(w.v, w.addrs, i, Min(NENTS, size), c, act);
    }
  }

  /** A hole: the block is allocated and its first slot taken. */
  lemma InsertInHole(v: Vol, files: Files, f: nat, dirty: bool, i: nat, size: nat, c: InsertCtx, act: Action)
    requires SoundVol(v, files) && f in files && i < MAXFILE && size > 0
    requires FileBlock(v.disk, files[f], i) == 0
    ensures Inserted(v, files, f, c, i * NENTS, i * NENTS + size,
                     IterBlocks(DeInsert, v, files[f], dirty, i, 0, size, c, act, true))
  {
    hide InodeAddr, IterBlocks, Inserted, Entry, FileBlock, SoundVol, EntryPut, Keeps, Supply, Grows;
    SoundOk(v, files);
    InsertTurn(v, files, f, dirty, i, size, c, act);
    HoleIsFree(v, files, f, i);
    var w := InodeAddr(v, files[f], dirty, i, true);
    SameInFile(v, files, f, w, i, i * NENTS);
    KeepsErr(v, files, f, i, w);
    if w.err == OK {
      InsertedHit(v, files, f, w, i, i * NENTS, i * NENTS + size, c);
    } else {
      InsertedNone(v, files, f, w, i, i * NENTS, i * NENTS + size, c, act);
    }
  }

  lemma KeepsErr(v: Vol, files: Files, f: nat, i: nat, w: AddrResult)
    requires Keeps(v, files, f, i, true, w) && i < MAXFILE
    ensures w.err in {OK, ENOSPC} && v.Ok() && w.v.Ok()
  {
    hide Sound, SameContents, UsedSet, Pick;
  }

  lemma SameInFile(v: Vol, files: Files, f: nat, w: AddrResult, i: nat, k: nat)
    requires Keeps(v, files, f, i, true, w)
    ensures Entry(w.v.disk, w.addrs, k) == Entry(v.disk, files[f], k)
  {
    hide Sound, UsedSet, Entry, ByteAt, FileBlock;
    assert SameBytes(v.disk, files[f], w.v.disk, files[f := w.addrs][f]);
    SameEntry(v.disk, files[f], w.v.disk, w.addrs, k);
  }

  lemma InsertedNone(v: Vol, files: Files, f: nat, w: AddrResult, i: nat, x: nat, end: nat, c: InsertCtx, act: Action)
    requires Keeps(v, files, f, i, true, w) && w.err == ENOSPC == Supply(v, files[f], i) && i == x / NENTS && x < end
    requires Grows(v, files, f, w.v, w.addrs)
    ensures Inserted(v, files, f, c, x, end, IterResult(w.v, w.addrs, w.dirty, c, act, w.err))
  {
    KeptOnError(v, files, f, w, i);
    hide Sound, UsedSet, Used, ByteAt, FileBlock, SameContents, Pick, Supply, Grows;
  }

  lemma InsertedHit(v: Vol, files: Files, f: nat, w: AddrResult, i: nat, x: nat, end: nat, c: InsertCtx)
    requires Keeps(v, files, f, i, true, w) && x / NENTS == i < MAXFILE && FileBlock(w.v.disk, w.addrs, i) != 0
    requires x < end && (w.addrs != files[f] ==> w.dirty) && Supply(v, files[f], i) == OK
    requires Grows(v, files, f, w.v, w.addrs)
    ensures Inserted(v, files, f, c, x, end,
                     IterResult(EntryPut(w.v, w.addrs, x, c.nde), w.addrs, w.dirty,
                                c.(sane := c.sane && Entry(v.disk, files[f], x).name[0] == 0),
                                Action(false, true, true, true), OK))
  {
    StoreSlot(v, files, f, w, i, x, c.nde);
    hide Sound, UsedSet, Used, ByteAt, FileBlock, SameContents, Pick, EntryPut, Entry, EncodeDirent, Supply, Grows;
  }

  lemma InsertedFull(v: Vol, files: Files, f: nat, end: nat, c: InsertCtx)
    requires SoundVol(v, files) && f in files
    ensures Inserted(v, files, f, c, end, end,
                     IterResult(v, files[f], false, c, Action(true, false, true, true), OK))
  {
    hide ByteAt, Grows;
    GrowsNot(v, files, f);
    assert files[f := files[f]] == files;
  }

  /** Driving the insert callback over the slots from block `i` on is first fit:
      it stores the entry in the first free slot, or finds every slot live and
      changes nothing, or runs out of space and changes nothing that is read. */
  lemma {:induction false} InsertIter(v: Vol, files: Files, f: nat, dirty: bool, i: nat, size: nat, c: InsertCtx,
      act: Action)
    requires SoundVol(v, files) && f in files
    requires size > 0 && i * NENTS + size <= MAXFILE * NENTS
    ensures Inserted(v, files, f, c, FirstFree(v.disk, files[f], i * NENTS, i * NENTS + size), i * NENTS + size,
                     IterBlocks(DeInsert, v, files[f], dirty, i, 0, size, c, act, true))
    decreases size
  {
    hide InodeAddr, Sound, FileBlock, Entry, Inserted, IterBlocks, EntryPut, Keeps, Supply, Grows;
    var a, end := files[f], i * NENTS + size;
    if FileBlock(v.disk, a, i) == 0 {
      InsertInHole(v, files, f, dirty, i, size, c, act);
      HoleIsFree(v, files, f, i);
    } else {
      var m := i * NENTS + Min(NENTS, size);
      InsertTurn(v, files, f, dirty, i, size, c, act);
      AddrPresent(v, files, f, dirty, i);
      var x := FirstFree(v.disk, a, i * NENTS, m);
      if x < m {
        FirstFreeWithin(v.disk, a, i * NENTS, m, end);
        InsertedHit(v, files, f, InodeAddr(v, a, dirty, i, true), i, x, end, c);
      } else {
        AllTaken(v.disk, a, i * NENTS, m);
        FirstFreeSkip(v.disk, a, i * NENTS, m, end);
        if m < end {
          InsertIter(v, files, f, false, i + 1, size - NENTS, c, Action(true, false, true, true));
        } else {
          InsertedFull(v, files, f, end, c);
        }
      }
    }
  }

  lemma {:induction false} AllTaken(disk: Disk, a: Addrs, k: nat, end: nat)
    requires k <= end && FirstFree(disk, a, k, end) == end
    ensures forall j: nat :: k <= j < end ==> Entry(disk, a, j).inum != 0
    decreases end - k
  {
    hide Entry;
    if k >= end {
    } else {
      AllTaken(disk, a, k + 1, end);
    }
  }

  lemma {:induction false} FirstFreeWithin(disk: Disk, a: Addrs, k: nat, m: nat, end: nat)
    requires k <= m <= end && FirstFree(disk, a, k, m) < m
    ensures FirstFree(disk, a, k, end) == FirstFree(disk, a, k, m)
    decreases m - k
  {
    hide Entry;
    if Entry(disk, a, k).inum == 0 {
    } else {
      FirstFreeWithin(disk, a, k + 1, m, end);
    }
  }

  // ----- the whole operation -----

  /** What the iteration with the insert callback leaves of a directory with
      `end` slots, whose first free slot (or `end`) is `x`. A change to the
      addresses or the size always leaves the context dirty. */
  ghost predicate Grown(v: Vol, files: Files, f: nat, d: DirCtx, x: nat, nde: Dirent, r: DirResult<InsertCtx>) {
    && f in files && r.v.g == v.g && SoundVol(r.v, files[f := r.d.addrs]) && SameTable(v.g, v.disk, r.v.disk)
    && (forall f' :: f' in files && f' != f ==> SameBytes(v.disk, files[f'], r.v.disk, files[f']))
    && v.Sized() && r.err == Supply(v, files[f], x / NENTS) && r.ctx.sane && Grows(v, files, f, r.v, r.d.addrs)
    && (r.err == OK ==>
          && Spliced(v.disk, files[f], r.v.disk, r.d.addrs, DESIZE * x, EncodeDirent(nde))
          && r.d.size == Max(d.size, DESIZE * (x + 1))
          && r.d.size <= MAXBYTES && LastShows(v, files, f, r.v, r.d.addrs)
          && (r.d.addrs != d.addrs || r.d.size != d.size ==> r.d.dirty))
    && (r.err != OK ==> SameBytes(v.disk, files[f], r.v.disk, r.d.addrs) && r.d.size == d.size)
    && (r.err == ENOSPC ==> Pick(r.v) == 0)
  }

  lemma ExtendUnfold(v: Vol, d: DirCtx, c: InsertCtx)
    requires v.Ok() && DirSized(d.size) && d.size <= MAXBYTES
    ensures var n := d.size / DESIZE;
      var w, r := InodeAddr(v, d.addrs, d.dirty, n / NENTS, true), Extend(DeInsert, v, d, c, true);
      && (w.err != OK ==> r == DirResult(w.v, d.(addrs := w.addrs, dirty := w.dirty), c, w.err))
      && (w.err == OK && n / NENTS < MAXFILE && 0 < w.blockno < |w.v.disk|
          && w.blockno == FileBlock(w.v.disk, w.addrs, n / NENTS)
          && Entry(w.v.disk, w.addrs, n) == NullDirent() ==>
            r == DirResult(EntryPut(w.v, w.addrs, n, c.nde), DirCtx(w.addrs, d.size + DESIZE, true), c, OK))
  {
    NullIsFree();
    hide InodeAddr, Entry, FileBlock, NullDirent, PutDirent;
    var n := d.size / DESIZE;
    var w := InodeAddr(v, d.addrs, d.dirty, n / NENTS, true);
    if n / NENTS < MAXFILE && 0 < w.blockno < |w.v.disk| && w.blockno == FileBlock(w.v.disk, w.addrs, n / NENTS) {
      EntryInBlock(w.v.disk, w.addrs, n / NENTS, n % NENTS);
      assert n / NENTS * NENTS + n % NENTS == n;
    }
  }

  lemma GrownNone(v: Vol, files: Files, f: nat, d: DirCtx, nde: Dirent, w: AddrResult, c: InsertCtx,
      r: DirResult<InsertCtx>)
    requires Keeps(v, files, f, d.size / DESIZE / NENTS, true, w) && w.err != OK && files[f] == d.addrs && c.sane
    requires v.Sized() && w.err == Supply(v, files[f], d.size / DESIZE / NENTS) && Grows(v, files, f, w.v, w.addrs)
    requires DirSized(d.size) && d.size <= MAXBYTES
    requires r == DirResult(w.v, d.(addrs := w.addrs, dirty := w.dirty), c, w.err)
    ensures Grown(v, files, f, d, d.size / DESIZE, nde, r)
  {
    KeptOnError(v, files, f, w, d.size / DESIZE / NENTS);
    hide Sound, UsedSet, Used, ByteAt, FileBlock, SameContents, Pick, Supply, Grows;
  }

  lemma GrownHit(v: Vol, files: Files, f: nat, d: DirCtx, c: InsertCtx, w: AddrResult, r: DirResult<InsertCtx>)
    requires Keeps(v, files, f, d.size / DESIZE / NENTS, true, w) && files[f] == d.addrs && c.sane
    requires DirSized(d.size) && d.size / DESIZE / NENTS < MAXFILE
    requires FileBlock(w.v.disk, w.addrs, d.size / DESIZE / NENTS) != 0 && d.size <= MAXBYTES
    requires v.Sized() && Supply(v, files[f], d.size / DESIZE / NENTS) == OK && Grows(v, files, f, w.v, w.addrs)
    requires r
      == DirResult(EntryPut(w.v, w.addrs, d.size / DESIZE, c.nde), DirCtx(w.addrs, d.size + DESIZE, true), c, OK)
    ensures Grown(v, files, f, d, d.size / DESIZE, c.nde, r)
  {
    StoreSlot(v, files, f, w, d.size / DESIZE / NENTS, d.size / DESIZE, c.nde);
    hide Sound, UsedSet, Used, ByteAt, FileBlock, SameContents, Pick, EntryPut, EncodeDirent, Supply, Grows;
  }

  /** The slot past the end: its block is found or allocated, the slot is free,
      and the directory grows by exactly one entry. */
  lemma ExtendGrows(v: Vol, files: Files, f: nat, d: DirCtx, c: InsertCtx)
    requires SoundVol(v, files) && f in files && files[f] == d.addrs
    requires DirSized(d.size) && d.size <= MAXBYTES && c.sane
    requires Entry(v.disk, d.addrs, d.size / DESIZE) == NullDirent()
    ensures Grown(v, files, f, d, d.size / DESIZE, c.nde, Extend(DeInsert, v, d, c, true))
  {
    hide InodeAddr, Sound, Entry, FileBlock, EntryPut, NullDirent, Extend, Grown, Keeps, Supply, Grows;
    var end := d.size / DESIZE;
    AddrGrown(v, files, f, d.dirty, end / NENTS);
    ExtendUnfold(v, d, c);
    var w := InodeAddr(v, d.addrs, d.dirty, end / NENTS, true);
    SameInFile(v, files, f, w, end / NENTS, end);
    if w.err == OK {
      GrownHit(v, files, f, d, c, w, Extend(DeInsert, v, d, c, true));
    } else {
      GrownNone(v, files, f, d, c.nde, w, c, Extend(DeInsert, v, d, c, true));
    }
  }

  lemma InsertedIsGrown(v: Vol, files: Files, f: nat, d: DirCtx, x: nat, c: InsertCtx, r: IterResult<InsertCtx>)
    requires Inserted(v, files, f, c, x, d.size / DESIZE, r) && files[f] == d.addrs && c.sane
    requires DirSized(d.size) && d.size <= MAXBYTES
    requires x < d.size / DESIZE ==> Entry(v.disk, d.addrs, x).name[0] == 0
    requires r.err == OK ==> !r.act.cont
    ensures Grown(v, files, f, d, x, c.nde,
                  DirResult(r.v, d.(addrs := r.addrs, dirty := r.dirty), if r.err == OK then r.ctx else c, r.err))
  {
    hide Sound, UsedSet, Used, ByteAt, FileBlock, Pick, Entry, EncodeDirent, Grows, Supply;
  }

  /** Insertion as a whole: first fit, with extension by one slot when full. The
      assertion of the callback never fails on a good directory. */
  lemma InsertGrows(v: Vol, files: Files, f: nat, d: DirCtx, nde: Dirent)
    requires SoundVol(v, files) && f in files && files[f] == d.addrs
    requires DirSized(d.size) && d.size <= MAXBYTES
    requires forall k: nat :: GoodSlot(Entry(v.disk, d.addrs, k))
    requires Entry(v.disk, d.addrs, d.size / DESIZE) == NullDirent()
    ensures Grown(v, files, f, d, FirstFree(v.disk, d.addrs, 0, d.size / DESIZE), nde,
                  DirIterate(DeInsert, v, d, InsertCtx(nde, true), 0, true))
  {
    hide Sound, Entry, IterBlocks, Extend, NullDirent, FirstFree, Grown, DirIterate, Inserted;
    var c, end := InsertCtx(nde, true), d.size / DESIZE;
    InsertIter(v, files, f, d.dirty, 0, end, c, InitAction());
    var r := IterBlocks(DeInsert, v, d.addrs, d.dirty, 0, 0, end, c, InitAction(), true);
    var x := FirstFree(v.disk, d.addrs, 0, end);
    DirIterateUnfold(DeInsert, v, d, c);
    InsertedFullOnly(v, files, f, c, x, end, r);
    if r.err == OK && r.act.cont {
      ExtendGrows(v, files, f, d.(dirty := r.dirty), c);
      GrownDirty(v, files, f, d, r.dirty, x, nde, Extend(DeInsert, v, d.(dirty := r.dirty), c, true));
    } else {
      FirstFreeIsFirst(v.disk, d.addrs, 0, end);
      assert GoodSlot(Entry(v.disk, d.addrs, x));
      InsertedIsGrown(v, files, f, d, x, c, r);
    }
  }

  lemma GrownDirty(v: Vol, files: Files, f: nat, d: DirCtx, dirty: bool, x: nat, nde: Dirent, r: DirResult<InsertCtx>)
    requires Grown(v, files, f, d.(dirty := dirty), x, nde, r)
    ensures Grown(v, files, f, d, x, nde, r)
  {
    hide Sound, UsedSet, Used, ByteAt, Pick, EncodeDirent, Grows, Supply;
  }

  /** The iterator from the first slot: the loop, then the call past the end if
      the callback asks for it. */
  lemma DirIterateUnfold<C>(cb: Callback<C>, v: Vol, d: DirCtx, c: C)
    requires v.Ok() && DirSized(d.size)
    ensures var r := IterBlocks(cb, v, d.addrs, d.dirty, 0, 0, d.size / DESIZE, c, InitAction(), true);
      var d1 := d.(addrs := r.addrs, dirty := r.dirty);
      DirIterate(cb, v, d, c, 0, true)
      == if r.err == OK && r.act.cont && r.act.dirExt then Extend(cb, r.v, d1, r.ctx, true)
         else DirResult(r.v, d1, r.ctx, r.err)
  {
    hide IterBlocks, Extend;
  }

  lemma InsertedFullOnly(v: Vol, files: Files, f: nat, c: InsertCtx, x: nat, end: nat, r: IterResult<InsertCtx>)
    requires Inserted(v, files, f, c, x, end, r)
    ensures r.err != OK ==> r.ctx == c
    ensures r.err == OK && r.act.cont ==> r.v == v && r.addrs == files[f] && r.ctx == c && r.act.dirExt && x == end
  {
    hide Sound, UsedSet, Used, ByteAt, Pick, Entry, EncodeDirent, Grows, Supply;
  }

  /** The slot an insertion into a directory takes. */
  function FreeSlot(disk: Disk, n: Node): (x: nat)
    ensures x <= n.size / DESIZE
  {
    FirstFree(disk, n.addrs, 0, n.size / DESIZE)
  }

  /** What an insertion into a directory comes back with: whether the block of the
      slot it takes is there or can be had. */
  function InsertSupply(v: Vol, n: Node): (e: Errno)
    requires v.Sized()
    ensures e in {OK, ENOSPC, EFBIG}
  {
    Supply(v, n.addrs, FreeSlot(v.disk, n) / NENTS)
  }

  /** A good directory with a fresh nonempty name of at most DIRSIZ bytes laid
      over a free slot is a good directory. */
  lemma GoodAfterInsert(disk: Disk, n: Node, disk': Disk, n': Node, x: nat, de: Dirent)
    requires GoodDir(disk, n) && n'.isDir && n'.size == Max(n.size, DESIZE * (x + 1)) <= MAXBYTES
    requires x <= n.size / DESIZE && Entry(disk, n.addrs, x).inum == 0
    requires de.inum != 0 && GoodSlot(de) && forall k: nat :: !Live(disk, n.addrs, k, de.name)
    requires Spliced(disk, n.addrs, disk', n'.addrs, DESIZE * x, EncodeDirent(de))
    ensures GoodDir(disk', n')
    ensures forall k: nat :: Entry(disk', n'.addrs, k) == if k == x then de else Entry(disk, n.addrs, k)
  {
    hide ByteAt, EncodeDirent, Entry;
    forall k: nat ensures Entry(disk', n'.addrs, k) == if k == x then de else Entry(disk, n.addrs, k) {
      SplicedEntry(disk, n.addrs, disk', n'.addrs, x, de, k);
    }
    SlotsAfterInsert(disk, n.addrs, disk', n'.addrs, x, de);
    TailAfterSplice(disk, n.addrs, n.size, disk', n'.addrs, n'.size, DESIZE * x, EncodeDirent(de));
  }

  lemma SlotsAfterInsert(disk: Disk, a: Addrs, disk': Disk, a': Addrs, x: nat, de: Dirent)
    requires GoodSlots(disk, a) && Entry(disk, a, x).inum == 0
    requires de.inum != 0 && GoodSlot(de) && forall k: nat :: !Live(disk, a, k, de.name)
    requires forall k: nat :: Entry(disk', a', k) == if k == x then de else Entry(disk, a, k)
    ensures GoodSlots(disk', a')
  {
    hide Entry, Padded, Pad;
    forall j: nat, k: nat | Entry(disk', a', j).inum != 0 && Entry(disk', a', k).inum != 0
      && Entry(disk', a', j).name == Entry(disk', a', k).name
      ensures j == k
    {
      assert !Live(disk, a, j, de.name) && !Live(disk, a, k, de.name);
    }
    assert x != 0 && x != 1;
  }

  lemma TailAfterSplice(disk: Disk, a: Addrs, size: nat, disk': Disk, a': Addrs, size': nat, q: nat, data: seq<byte>)
    requires ZeroTail(disk, a, size) && size <= size' && q + |data| <= size'
    requires Spliced(disk, a, disk', a', q, data)
    ensures ZeroTail(disk', a', size')
  {
    hide ByteAt;
  }

  lemma PadGood(name: seq<byte>, inum: ushort)
    requires CString(name) && name != [] && inum != 0
    ensures GoodSlot(Dirent(inum, Pad(name)))
  {
    assert CharAt(name, 0) == name[0] && name[0] in name;
  }

  /** What an insertion leaves of a good directory `n`, file `f`. */
  ghost predicate EntryAdded(v: Vol, files: Files, f: nat, n: Node, de: Dirent, r: InsertResult) {
    && f in files && r.v.g == v.g && SoundVol(r.v, files[f := r.n.addrs]) && SameTable(v.g, v.disk, r.v.disk)
    && (forall f' :: f' in files && f' != f ==> SameBytes(v.disk, files[f'], r.v.disk, files[f']))
    && v.Sized() && r.err == InsertSupply(v, n) && r.sane && r.n.nlink == n.nlink && Grows(v, files, f, r.v, r.n.addrs)
    && (r.err == OK ==>
          && GoodDir(r.v.disk, r.n) && LastShows(v, files, f, r.v, r.n.addrs)
          && r.n.size == Max(n.size, DESIZE * (FreeSlot(v.disk, n) + 1))
          && Entry(v.disk, n.addrs, FreeSlot(v.disk, n)).inum == 0
          && forall k: nat :: Entry(r.v.disk, r.n.addrs, k)
                              == if k == FreeSlot(v.disk, n) then de else Entry(v.disk, n.addrs, k))
    && (r.err != OK ==> SameBytes(v.disk, files[f], r.v.disk, r.n.addrs) && r.n.size == n.size && r.n.isDir)
    && (r.err == ENOSPC ==> Pick(r.v) == 0)
  }

  /** Inserting a fresh name into a good directory takes the first free slot, or
      grows the directory by one; all other entries, all other files and the
      invariant stay; running out of space changes nothing that is read. */
  lemma InsertSound(v: Vol, files: Files, f: nat, n: Node, name: seq<byte>, inum: nat)
    requires SoundVol(v, files) && f in files && files[f] == n.addrs && GoodDir(v.disk, n)
    requires CString(name) && 0 < |name| <= DIRSIZ && 0 < inum < U16
    requires forall k: nat :: !Live(v.disk, n.addrs, k, Pad(name))
    ensures DirSized(n.size % U32)
    ensures EntryAdded(v, files, f, n, Dirent(inum, Pad(name)), DentryInsert(v, n, name, inum))
  {
    hide Sound, Entry, ByteAt, DirIterate, NullDirent, Pad, Grown, GoodSlot, DentryInsert, ZeroTail, EntryAdded,
         UsedSet, FirstFree;
    GoodDirSized(v, files, f, n);
    LiveInside(v.disk, n, n.size / DESIZE);
    SlotIsFree(v.disk, n);
    PadGood(name, inum);
    NotDots(v.disk, n.addrs, name);
    var de := Dirent(inum, Pad(name));
    InsertGrows(v, files, f, CtxOf(n), de);
    var r := DirIterate(DeInsert, v, CtxOf(n), InsertCtx(de, true), 0, true);
    DentryInsertUnfold(v, n, name, inum);
    GrownIsAdded(v, files, f, n, de, r, DentryInsert(v, n, name, inum));
  }

  lemma DentryInsertUnfold(v: Vol, n: Node, name: seq<byte>, inum: nat)
    requires v.Ok() && n.isDir && DirSized(n.size % U32)
    requires |name| <= DIRSIZ && name != Dot() && name != DotDot() && inum < U16
    ensures var r := DirIterate(DeInsert, v, CtxOf(n), InsertCtx(Dirent(inum, Pad(name)), true), 0, true);
      DentryInsert(v, n, name, inum)
      == InsertResult(r.v, n.(addrs := r.d.addrs, size := if r.err == OK && r.d.dirty then r.d.size else n.size),
                      r.err, r.ctx.sane)
  {
    hide DirIterate, Pad;
  }

  lemma NotDots(disk: Disk, a: Addrs, name: seq<byte>)
    requires GoodSlots(disk, a) && forall k: nat :: !Live(disk, a, k, Pad(name))
    ensures name != Dot() && name != DotDot()
  {
    hide Entry, Pad;
    assert Live(disk, a, 0, Pad(Dot())) && Live(disk, a, 1, Pad(DotDot()));
  }

  lemma GrownIsAdded(v: Vol, files: Files, f: nat, n: Node, de: Dirent, r: DirResult<InsertCtx>, ir: InsertResult)
    requires Grown(v, files, f, CtxOf(n), FreeSlot(v.disk, n), de, r) && files[f] == n.addrs
    requires GoodDir(v.disk, n) && de.inum != 0 && GoodSlot(de) && forall k: nat :: !Live(v.disk, n.addrs, k, de.name)
    requires Entry(v.disk, n.addrs, FreeSlot(v.disk, n)).inum == 0
    requires ir.v == r.v && ir.err == r.err && ir.sane == r.ctx.sane
    requires ir.n == n.(addrs := r.d.addrs, size := if r.err == OK && r.d.dirty then r.d.size else n.size)
    ensures EntryAdded(v, files, f, n, de, ir)
  {
    hide Sound, UsedSet, Used, ByteAt, Pick, Entry, EncodeDirent, GoodSlots, GoodSlot, FreeSlot, Grows, Supply;
    if r.err == OK {
      GoodAfterInsert(v.disk, n, r.v.disk, ir.n, FreeSlot(v.disk, n), de);
    }
  }

  lemma SlotIsFree(disk: Disk, n: Node)
    requires GoodDir(disk, n) && |disk| > 0
    ensures FreeSlot(disk, n) <= n.size / DESIZE && Entry(disk, n.addrs, FreeSlot(disk, n)).inum == 0
  {
    NullIsFree();
    FirstFreeIsFirst(disk, n.addrs, 0, n.size / DESIZE);
    LiveInside(disk, n, n.size / DESIZE);
    hide Entry;
  }
}
