/** The iterator as a fold: on a directory that is only read, driving a callback
    with `xv6_dir_iterate` is folding it over one list of calls. */
module DirCalls {
  import opened Layout
  import opened Volumes
  import opened BlockMap
  import opened FileData
  import opened DirIter

  /** One call: a position and the entry there. */
  datatype Call = Call(n: nat, de: Dirent)

  /** The calls one block gives rise to. */
  function BlockCalls(disk: Disk, a: Addrs, i: nat, k: nat, lim: nat): seq<Call>
    requires i < MAXFILE && k <= lim
  {
    if FileBlock(disk, a, i) == 0 then [Call(i * NENTS, NullDirent())]
    else seq(lim - k, j requires 0 <= j => Call(i * NENTS + k + j, Entry(disk, a, i * NENTS + k + j)))
  }

  /** The calls of an iteration with `size` entries left from entry `off` of
      block `i`, as far as the block map reaches. */
  function CallList(disk: Disk, a: Addrs, i: nat, off: nat, size: nat): seq<Call>
    requires off < NENTS
    decreases size
  {
    if i >= MAXFILE then []
    else
      var lim := Min(NENTS, size + off);
      BlockCalls(disk, a, i, off, lim)
      + if size == lim - off then [] else CallList(disk, a, i + 1, 0, size - (lim - off))
  }

  /** `ctx`, `act` and `de` are those of the last of the `made` calls. */
  datatype FoldResult<C> = FoldResult(ctx: C, act: Action, made: nat, de: Dirent)
  {
    predicate Stopped() { made > 0 && !act.cont }
  }

  /** Make the calls in order until one says stop. */
  function Fold<C>(cb: Callback<C>, calls: seq<Call>, ctx: C, act: Action): (f: FoldResult<C>)
    ensures f.made <= |calls|
    ensures !f.Stopped() ==> f.made == |calls|
  {
    if calls == [] then FoldResult(ctx, act, 0, NullDirent())
    else
      var r := cb(calls[0].n, calls[0].de, ctx);
      if !r.act.cont then FoldResult(r.ctx, r.act, 1, r.de)
      else
        var f := Fold(cb, calls[1..], r.ctx, r.act);
        if f.made == 0 then FoldResult(r.ctx, r.act, 1, r.de) else f.(made := f.made + 1)
  }

  lemma {:induction false} FoldAppend<C>(cb: Callback<C>, xs: seq<Call>, ys: seq<Call>, ctx: C, act: Action)
    ensures var f := Fold(cb, xs, ctx, act);
      Fold(cb, xs + ys, ctx, act)
      == if f.Stopped() then f
         else
           var g := Fold(cb, ys, f.ctx, f.act);
           if g.made == 0 then f else g.(made := f.made + g.made)
  {
    if xs == [] {
      assert xs + ys == ys;
    } else {
      assert (xs + ys)[1..] == xs[1..] + ys;
      var r := cb(xs[0].n, xs[0].de, ctx);
      if r.act.cont {
        FoldAppend(cb, xs[1..], ys, r.ctx, r.act);
      }
    }
  }

  function BufCalls(buf: Block, base: nat, k: nat, lim: nat): seq<Call>
    requires k <= lim <= NENTS
  {
    seq(lim - k, j requires 0 <= j < lim - k => Call(base + k + j, DirentOf(buf, k + j)))
  }

  /** The inner loop is a fold over the entries of the buffer, and leaves the
      buffer as it was but for the entry the callback stopped at. */
  lemma {:induction false} ScanIsFold<C(!new)>(cb: Callback<C>, buf: Block, base: nat, k: nat, lim: nat, ctx: C,
      act: Action, flush: bool)
    requires EditsAtStop(cb) && k <= lim <= NENTS
    ensures var f := Fold(cb, BufCalls(buf, base, k, lim), ctx, act);
      && f.made <= lim - k
      && Scan(cb, buf, base, k, lim, ctx, act, flush)
         == ScanResult(if f.Stopped() then PutDirent(buf, k + f.made - 1, f.de) else buf,
                       f.ctx, f.act, flush || (f.made > 0 && f.act.deDirty))
    decreases lim - k
  {
    hide DirentOf, PutDirent, Scan, Fold, BufCalls, EditsAtStop;
    if k < lim {
      var r := cb(base + k, DirentOf(buf, k), ctx);
      ScanStep(cb, buf, base, k, lim, ctx, act, flush);
      if r.act.cont {
        ScanIsFold(cb, buf, base, k + 1, lim, r.ctx, r.act, flush || r.act.deDirty);
      }
    } else {
      ScanNone(cb, buf, base, k, lim, ctx, act, flush);
    }
  }

  lemma ScanNone<C(!new)>(cb: Callback<C>, buf: Block, base: nat, k: nat, lim: nat, ctx: C, act: Action, flush: bool)
    requires k == lim <= NENTS
    ensures Fold(cb, BufCalls(buf, base, k, lim), ctx, act) == FoldResult(ctx, act, 0, NullDirent())
    ensures Scan(cb, buf, base, k, lim, ctx, act, flush) == ScanResult(buf, ctx, act, flush)
  {
    assert BufCalls(buf, base, k, lim) == [];
  }

  /** One turn of the loop and one step of the fold. */
  lemma ScanStep<C(!new)>(cb: Callback<C>, buf: Block, base: nat, k: nat, lim: nat, ctx: C, act: Action, flush: bool)
    requires EditsAtStop(cb) && k < lim <= NENTS
    ensures var r := cb(base + k, DirentOf(buf, k), ctx);
      var f := Fold(cb, BufCalls(buf, base, k, lim), ctx, act);
      var s := Scan(cb, buf, base, k, lim, ctx, act, flush);
      if !r.act.cont then
        && f == FoldResult(r.ctx, r.act, 1, r.de)
        && s == ScanResult(PutDirent(buf, k, r.de), r.ctx, r.act, flush || r.act.deDirty)
      else
        var g := Fold(cb, BufCalls(buf, base, k + 1, lim), r.ctx, r.act);
        && f == (if g.made == 0 then FoldResult(r.ctx, r.act, 1, r.de) else g.(made := g.made + 1))
        && (g.made == 0 ==> g.ctx == r.ctx && g.act == r.act) && !r.act.deDirty
        && s == Scan(cb, buf, base, k + 1, lim, r.ctx, r.act, flush || r.act.deDirty)
  {
    hide DirentOf, PutDirent;
    var calls := BufCalls(buf, base, k, lim);
    assert calls[0] == Call(base + k, DirentOf(buf, k)) && calls[1..] == BufCalls(buf, base, k + 1, lim);
    DirentPutSame(buf, k);
  }

  /** Storing an entry in place; an entry of a hole has no place. */
  function EntryPut(v: Vol, a: Addrs, n: nat, de: Dirent): (v': Vol)
    requires v.Ok()
    ensures v'.Ok() && v'.g == v.g
  {
    if n / NENTS < MAXFILE && 0 < FileBlock(v.disk, a, n / NENTS) < |v.disk| then
      v.Put(FileBlock(v.disk, a, n / NENTS),
            PutDirent(v.disk[FileBlock(v.disk, a, n / NENTS)], n % NENTS, de))
    else v
  }

  /** The volume after a fold: unchanged but for the entry it stopped at. */
  function AfterFold<C>(v: Vol, a: Addrs, calls: seq<Call>, f: FoldResult<C>): Vol
    requires v.Ok() && f.made <= |calls|
  {
    if f.made > 0 && f.act.deDirty then EntryPut(v, a, calls[f.made - 1].n, f.de) else v
  }

  lemma VisitIsFold<C(!new)>(cb: Callback<C>, v: Vol, a: Addrs, i: nat, off: nat, lim: nat, ctx: C, act: Action)
    requires v.Ok() && EditsAtStop(cb) && i < MAXFILE && off <= lim <= NENTS
    requires FileBlock(v.disk, a, i) < |v.disk|
    ensures var calls := BlockCalls(v.disk, a, i, off, lim);
      var f := Fold(cb, calls, ctx, act);
      Visit(cb, v, FileBlock(v.disk, a, i), i, off, lim, ctx, act)
      == VisitResult(AfterFold(v, a, calls, f), f.ctx, f.act)
  {
    hide FileBlock, BlockCalls, BufCalls, PutDirent, Scan, Fold, EditsAtStop, EntryPut;
    var b := FileBlock(v.disk, a, i);
    var calls := BlockCalls(v.disk, a, i, off, lim);
    if b == 0 {
      HoleVisit(cb, v, a, i, off, lim, ctx, act);
    } else {
      BufferCalls(v.disk, a, i, off, lim);
      ScanIsFold(cb, v.disk[b], i * NENTS, off, lim, ctx, act, false);
      LastEdit(cb, calls, ctx, act);
      var f := Fold(cb, calls, ctx, act);
      if f.made > 0 {
        PutAt(v, a, i, off + f.made - 1, f.de);
      }
    }
  }

  lemma HoleVisit<C(!new)>(cb: Callback<C>, v: Vol, a: Addrs, i: nat, off: nat, lim: nat, ctx: C, act: Action)
    requires v.Ok() && i < MAXFILE && off <= lim <= NENTS && FileBlock(v.disk, a, i) == 0
    ensures var calls := BlockCalls(v.disk, a, i, off, lim);
      var f := Fold(cb, calls, ctx, act);
      Visit(cb, v, 0, i, off, lim, ctx, act) == VisitResult(AfterFold(v, a, calls, f), f.ctx, f.act)
  {
    hide FileBlock, NullDirent;
    assert BlockCalls(v.disk, a, i, off, lim)[1..] == [];
    assert i * NENTS / NENTS == i;
  }

  lemma BufferCalls(disk: Disk, a: Addrs, i: nat, off: nat, lim: nat)
    requires i < MAXFILE && off <= lim <= NENTS && 0 < FileBlock(disk, a, i) < |disk|
    ensures BlockCalls(disk, a, i, off, lim) == BufCalls(disk[FileBlock(disk, a, i)], i * NENTS, off, lim)
    ensures forall j :: 0 <= j < lim - off ==> BlockCalls(disk, a, i, off, lim)[j].n == i * NENTS + off + j
  {
    hide FileBlock, Entry, DirentOf;
    var calls := BlockCalls(disk, a, i, off, lim);
    forall j | 0 <= j < lim - off
      ensures calls[j] == Call(i * NENTS + off + j, DirentOf(disk[FileBlock(disk, a, i)], off + j))
    {
      EntryInBlock(disk, a, i, off + j);
      assert i * NENTS + (off + j) == i * NENTS + off + j;
    }
  }

  lemma PutAt(v: Vol, a: Addrs, i: nat, k: nat, de: Dirent)
    requires v.Ok() && i < MAXFILE && k < NENTS && 0 < FileBlock(v.disk, a, i) < |v.disk|
    ensures EntryPut(v, a, i * NENTS + k, de)
         == v.Put(FileBlock(v.disk, a, i), PutDirent(v.disk[FileBlock(v.disk, a, i)], k, de))
  {
    hide FileBlock, PutDirent;
    assert (i * NENTS + k) / NENTS == i && (i * NENTS + k) % NENTS == k;
  }

  /** A lookup in a sound volume succeeds wherever the block map reaches. */
  lemma LookupFound(v: Vol, files: Files, f: nat, dirty: bool, i: nat)
    requires SoundVol(v, files) && f in files && i < MAXFILE
    ensures FileBlock(v.disk, files[f], i) < |v.disk|
    ensures InodeAddr(v, files[f], dirty, i, false)
         == AddrResult(v, files[f], false, FileBlock(v.disk, files[f], i), OK)
  {
    BlockInRange(v, files, f, i);
    InodeAddrKeeps(v, files, f, dirty, i, false);
    CleanLookup(v, files[f], dirty, i);
    hide InodeAddr, Sound, SameContents, UsedSet, FileBlock;
  }

  lemma CleanLookup(v: Vol, a: Addrs, dirty: bool, i: nat)
    requires v.Ok() && i < MAXFILE
    ensures !InodeAddr(v, a, dirty, i, false).dirty
  {
    hide ChildAddr;
    if NDIRECT <= i && a[ROOT] != 0 {
      ChildLookup(v, a, false, i - NDIRECT);
    }
  }

  /** The last call made by a fold edits only if it stops. */
  lemma {:induction false} LastEdit<C(!new)>(cb: Callback<C>, calls: seq<Call>, ctx: C, act: Action)
    requires EditsAtStop(cb)
    ensures var f := Fold(cb, calls, ctx, act); f.made > 0 && f.act.deDirty ==> !f.act.cont
  {
    if calls == [] {
    } else {
      var r := cb(calls[0].n, calls[0].de, ctx);
      LastEdit(cb, calls[1..], r.ctx, r.act);
    }
  }

  /** Reading iteration is a fold: with the block map not to be changed, a
      callback sees the calls of `CallList` in order until it stops; the context
      stays clean and the volume keeps all but the entry it stopped at. */
  lemma {:induction false} IterIsFold<C(!new)>(cb: Callback<C>, v: Vol, files: Files, f: nat, dirty: bool, i: nat,
      off: nat, size: nat, ctx: C, act: Action)
    requires SoundVol(v, files) && f in files && EditsAtStop(cb)
    requires off < NENTS && i < MAXFILE && i * NENTS + off + size <= MAXFILE * NENTS
    ensures var a := files[f];
      var calls := CallList(v.disk, a, i, off, size);
      var fo := Fold(cb, calls, ctx, act);
      IterBlocks(cb, v, a, dirty, i, off, size, ctx, act, false)
      == IterResult(AfterFold(v, a, calls, fo), a, false, fo.ctx, fo.act, OK)
    decreases size
  {
    hide InodeAddr, Visit, BlockCalls, Sound, FileBlock, Fold, AfterFold, CallList, IterBlocks, EditsAtStop;
    var a := files[f];
    var lim := Min(NENTS, size + off);
    IterTurn(cb, v, files, f, dirty, i, off, size, ctx, act);
    var calls := BlockCalls(v.disk, a, i, off, lim);
    var fo := Fold(cb, calls, ctx, act);
    if size == lim - off {
    } else {
      var rest := CallList(v.disk, a, i + 1, 0, size - (lim - off));
      FoldJoin(cb, v, a, calls, rest, ctx, act);
      if fo.act.cont {
        IterIsFold(cb, v, files, f, false, i + 1, 0, size - (lim - off), fo.ctx, fo.act);
      }
    }
  }

  /** One turn of the outer loop. */
  lemma IterTurn<C(!new)>(cb: Callback<C>, v: Vol, files: Files, f: nat, dirty: bool, i: nat, off: nat, size: nat,
      ctx: C, act: Action)
    requires SoundVol(v, files) && f in files && EditsAtStop(cb) && off < NENTS && i < MAXFILE
    ensures var a, lim := files[f], Min(NENTS, size + off);
      var calls := BlockCalls(v.disk, a, i, off, lim);
      var fo := Fold(cb, calls, ctx, act);
      && (size != lim - off ==> calls != [])
      && CallList(v.disk, a, i, off, size)
         == (if size == lim - off then calls else calls + CallList(v.disk, a, i + 1, 0, size - (lim - off)))
      && IterBlocks(cb, v, a, dirty, i, off, size, ctx, act, false)
         == (if !fo.act.cont || size == lim - off then
               IterResult(AfterFold(v, a, calls, fo), a, false, fo.ctx, fo.act, OK)
             else
               var v' := AfterFold(v, a, calls, fo);
               IterBlocks(cb, v', a, false, i + 1, 0, size - (lim - off), fo.ctx, fo.act, false))
  {
    var a, lim := files[f], Min(NENTS, size + off);
    LookupFound(v, files, f, dirty, i);
    VisitIsFold(cb, v, a, i, off, lim, ctx, act);
    if size != lim - off {
      BlockCallsSome(v.disk, a, i, off, lim);
    }
    hide InodeAddr, Visit, BlockCalls, SoundVol, FileBlock, Fold, AfterFold, EditsAtStop;
    var calls := BlockCalls(v.disk, a, i, off, lim);
    assert calls + [] == calls;
  }

  /** Folding two lists of calls in a row. */
  lemma FoldJoin<C(!new)>(cb: Callback<C>, v: Vol, a: Addrs, xs: seq<Call>, ys: seq<Call>, ctx: C, act: Action)
    requires v.Ok() && EditsAtStop(cb) && xs != []
    ensures var f, w := Fold(cb, xs, ctx, act), Fold(cb, xs + ys, ctx, act);
      var g := Fold(cb, ys, f.ctx, f.act);
      if f.act.cont then
        && AfterFold(v, a, xs, f) == v
        && AfterFold(v, a, xs + ys, w) == AfterFold(v, a, ys, g) && w.ctx == g.ctx && w.act == g.act
      else
        w == f && AfterFold(v, a, xs + ys, w) == AfterFold(v, a, xs, f)
  {
    FoldAppend(cb, xs, ys, ctx, act);
    LastEdit(cb, xs, ctx, act);
    FoldNone(cb, ys, Fold(cb, xs, ctx, act));
    hide EntryPut, Fold;
  }

  lemma FoldNone<C>(cb: Callback<C>, calls: seq<Call>, f: FoldResult<C>)
    ensures var g := Fold(cb, calls, f.ctx, f.act); g.made == 0 ==> g.ctx == f.ctx && g.act == f.act
  {}

  lemma BlockCallsSome(disk: Disk, a: Addrs, i: nat, k: nat, lim: nat)
    requires i < MAXFILE && k < lim
    ensures |BlockCalls(disk, a, i, k, lim)| > 0
  {}

  // ----- what the list of calls is -----

  /** The calls are in strictly increasing order of position, within [lo, hi). */
  ghost predicate Increasing(calls: seq<Call>, lo: nat, hi: nat) {
    && (forall c :: c in calls ==> lo <= c.n < hi)
    && (forall j, k :: 0 <= j < k < |calls| ==> calls[j].n < calls[k].n)
  }

  /** A position is called back on if it is a slot of an allocated block, or the
      first slot of a hole. */
  predicate Visited(disk: Disk, a: Addrs, off: nat, end: nat, n: nat) {
    && n / NENTS < MAXFILE
    && (if FileBlock(disk, a, n / NENTS) != 0 then off <= n < end
        else n % NENTS == 0 && off / NENTS <= n / NENTS && n < end)
  }

  /** One call for each position visited below `hi`, on the entry stored there. */
  ghost predicate Covers(disk: Disk, a: Addrs, off: nat, end: nat, hi: nat, calls: seq<Call>) {
    && Increasing(calls, off / NENTS * NENTS, hi)
    && (forall c :: c in calls ==> Visited(disk, a, off, end, c.n) && c.de == Entry(disk, a, c.n))
    && (forall n: nat :: Visited(disk, a, off, end, n) && n < hi ==> Call(n, Entry(disk, a, n)) in calls)
  }

  /** Iterating over [off, end) makes exactly one call for every slot of an
      allocated block and one for every hole, in increasing order, each on the
      entry that is stored there. */
  lemma {:induction false} CallListCovers(disk: Disk, a: Addrs, off: nat, end: nat)
    requires off < end <= MAXFILE * NENTS
    requires forall i :: 0 <= i < MAXFILE ==> FileBlock(disk, a, i) < |disk|
    ensures Covers(disk, a, off, end, end, CallList(disk, a, off / NENTS, off % NENTS, end - off))
    decreases end - off
  {
    hide BlockCalls, FileBlock, Entry, Covers;
    var i, k := off / NENTS, off % NENTS;
    var lim := Min(NENTS, end - off + k);
    var calls := BlockCalls(disk, a, i, k, lim);
    BlockCovers(disk, a, off, end);
    var off' := (i + 1) * NENTS;
    if end - off != lim - k {
      assert end - off' == end - off - (lim - k) && off' / NENTS == i + 1 && off' % NENTS == 0;
      CallListCovers(disk, a, off', end);
      CoversJoin(disk, a, off, end, calls, CallList(disk, a, i + 1, 0, end - off'));
    } else {
      assert calls + [] == calls;
      CoversAll(disk, a, off, end, calls);
    }
  }

  lemma CoversAll(disk: Disk, a: Addrs, off: nat, end: nat, calls: seq<Call>)
    requires off < end <= (off / NENTS + 1) * NENTS
    requires Covers(disk, a, off, end, (off / NENTS + 1) * NENTS, calls)
    ensures Covers(disk, a, off, end, end, calls)
  {
    hide FileBlock, Entry;
  }

  lemma CoversJoin(disk: Disk, a: Addrs, off: nat, end: nat, xs: seq<Call>, ys: seq<Call>)
    requires off < (off / NENTS + 1) * NENTS < end
    requires Covers(disk, a, off, end, (off / NENTS + 1) * NENTS, xs)
    requires Covers(disk, a, (off / NENTS + 1) * NENTS, end, end, ys)
    ensures Covers(disk, a, off, end, end, xs + ys)
  {
    hide FileBlock, Entry;
    var off' := (off / NENTS + 1) * NENTS;
    assert off' / NENTS * NENTS == off';
    forall c | c in xs + ys
      ensures Visited(disk, a, off, end, c.n) && c.de == Entry(disk, a, c.n) && off / NENTS * NENTS <= c.n < end
    {
      if c in ys {
        assert Visited(disk, a, off', end, c.n);
      }
    }
    forall j, k | 0 <= j < k < |xs + ys|
      ensures (xs + ys)[j].n < (xs + ys)[k].n
    {
      if j < |xs| <= k {
        assert xs[j] in xs && ys[k - |xs|] in ys;
      }
    }
    forall n: nat | Visited(disk, a, off, end, n) && n < end
      ensures Call(n, Entry(disk, a, n)) in xs + ys
    {
      if n >= off' {
        assert Visited(disk, a, off', end, n);
      }
    }
  }

  lemma BlockCovers(disk: Disk, a: Addrs, off: nat, end: nat)
    requires off < end <= MAXFILE * NENTS
    requires FileBlock(disk, a, off / NENTS) < |disk|
    ensures Covers(disk, a, off, end, (off / NENTS + 1) * NENTS,
                   BlockCalls(disk, a, off / NENTS, off % NENTS, Min(NENTS, end - off + off % NENTS)))
  {
    hide FileBlock, Entry, NullDirent;
    if FileBlock(disk, a, off / NENTS) == 0 {
      EntryInBlock(disk, a, off / NENTS, 0);
      HoleCovers(disk, a, off, end);
    } else {
      PresentCovers(disk, a, off, end);
    }
  }

  lemma HoleCovers(disk: Disk, a: Addrs, off: nat, end: nat)
    requires off < end <= MAXFILE * NENTS
    requires FileBlock(disk, a, off / NENTS) == 0 && Entry(disk, a, off / NENTS * NENTS) == NullDirent()
    ensures Covers(disk, a, off, end, (off / NENTS + 1) * NENTS,
                   BlockCalls(disk, a, off / NENTS, off % NENTS, Min(NENTS, end - off + off % NENTS)))
  {
    hide FileBlock, Entry, NullDirent;
    var i := off / NENTS;
    var calls := [Call(i * NENTS, NullDirent())];
    assert i * NENTS / NENTS == i && i * NENTS % NENTS == 0;
    forall n: nat | Visited(disk, a, off, end, n) && n < (i + 1) * NENTS
      ensures Call(n, Entry(disk, a, n)) in calls
    {
      assert n == i * NENTS;
      assert calls[0] == Call(n, Entry(disk, a, n));
    }
  }

  lemma PresentCovers(disk: Disk, a: Addrs, off: nat, end: nat)
    requires off < end <= MAXFILE * NENTS
    requires FileBlock(disk, a, off / NENTS) != 0
    ensures Covers(disk, a, off, end, (off / NENTS + 1) * NENTS,
                   BlockCalls(disk, a, off / NENTS, off % NENTS, Min(NENTS, end - off + off % NENTS)))
  {
    hide FileBlock, Entry, Covers;
    var i, k := off / NENTS, off % NENTS;
    var lim := Min(NENTS, end - off + k);
    assert off == i * NENTS + k;
    RunCovers(disk, a, off, end, i * NENTS + lim, BlockCalls(disk, a, i, k, lim));
  }

  /** Calls on consecutive slots of one block that is present. */
  lemma RunCovers(disk: Disk, a: Addrs, off: nat, end: nat, top: nat, calls: seq<Call>)
    requires off < top <= end <= MAXFILE * NENTS && (top - 1) / NENTS == off / NENTS
    requires top == end || top == (off / NENTS + 1) * NENTS
    requires FileBlock(disk, a, off / NENTS) != 0 && |calls| == top - off
    requires forall j :: 0 <= j < top - off ==> calls[j] == Call(off + j, Entry(disk, a, off + j))
    ensures Covers(disk, a, off, end, (off / NENTS + 1) * NENTS, calls)
  {
    hide FileBlock, Entry;
    var hi := (off / NENTS + 1) * NENTS;
    forall c | c in calls
      ensures off <= c.n < top && c.n / NENTS == off / NENTS && c.de == Entry(disk, a, c.n)
    {}
    forall n: nat | Visited(disk, a, off, end, n) && n < hi ensures Call(n, Entry(disk, a, n)) in calls {
      AllocatedFrom(disk, a, off, end, n);
      assert calls[n - off] == Call(n, Entry(disk, a, n));
    }
  }

  lemma AllocatedFrom(disk: Disk, a: Addrs, off: nat, end: nat, n: nat)
    requires off / NENTS < MAXFILE && FileBlock(disk, a, off / NENTS) != 0
    requires Visited(disk, a, off, end, n) && n < (off / NENTS + 1) * NENTS
    ensures off <= n < end
  {
    hide FileBlock;
  }
}
