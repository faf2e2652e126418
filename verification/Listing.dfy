/** Listing a directory in pieces (dir.c, `xv6_readdir`): a refusing consumer
    stops the iteration, and the next call resumes from the saved position. */
module Listing {
  import opened Layout
  import opened Volumes
  import opened BlockMap
  import opened Inodes
  import opened FileData
  import opened DirIter
  import opened DirCalls
  import opened Directory

  /** What `dir_emit` is given: the name up to its first NUL, and the number. */
  datatype Listed = Listed(name: seq<byte>, inum: ushort)

  function Strnlen(s: Name, i: nat): (r: nat)
    requires i <= DIRSIZ
    ensures i <= r <= DIRSIZ
    decreases DIRSIZ - i
  {
    if i == DIRSIZ || s[i] == 0 then i else Strnlen(s, i + 1)
  }

  function Shown(de: Dirent): Listed { Listed(de.name[..Strnlen(de.name, 0)], de.inum) }

  /** `struct dir_context`; the consumer takes `room` more entries and then
      refuses. */
  datatype DirContext = DirContext(pos: nat, room: nat, out: seq<Listed>)

  /** `readdir_callback`. */
  function DeList(n: nat, de: Dirent, c: DirContext): Reply<DirContext> {
    if n < c.pos then Reply(Action(true, false, false, false), de, c)
    else if de.inum == 0 then Reply(Action(true, false, false, false), de, c.(pos := n + 1))
    else if c.room > 0 then
      Reply(Action(true, false, false, false), de, DirContext(n + 1, c.room - 1, c.out + [Shown(de)]))
    else
      Reply(Action(false, false, false, false), de, c.(pos := n))
  }

  /** `xv6_readdir`. */
  function Readdir(v: Vol, n: Node, c: DirContext): (r: (DirContext, Errno))
    requires v.Ok() && (n.isDir ==> DirSized(n.size % U32))
  {
    if !n.isDir then (c, ENOTDIR)
    else
      var r := DirIterate(DeList, v, CtxOf(n), c, c.pos % U32, false);
      (r.ctx, r.err)
  }

  /** The live entries of slots [k, end), in slot order. */
  function LiveList(disk: Disk, a: Addrs, k: nat, end: nat): seq<Listed>
    decreases end - k
  {
    if k >= end then []
    else
      (if Entry(disk, a, k).inum != 0 then [Shown(Entry(disk, a, k))] else []) + LiveList(disk, a, k + 1, end)
  }

  /** The live entries among some calls, at positions from `p` on. */
  function LiveCalls(calls: seq<Call>, p: nat): seq<Listed> {
    if calls == [] then []
    else
      (if calls[0].n >= p && calls[0].de.inum != 0 then [Shown(calls[0].de)] else []) + LiveCalls(calls[1..], p)
  }

  lemma {:induction false} LiveCallsAppend(xs: seq<Call>, ys: seq<Call>, p: nat)
    ensures LiveCalls(xs + ys, p) == LiveCalls(xs, p) + LiveCalls(ys, p)
  {
    if xs == [] {
      assert xs + ys == ys;
    } else {
      assert (xs + ys)[1..] == xs[1..] + ys;
      LiveCallsAppend(xs[1..], ys, p);
    }
  }

  /** The calls lie at increasing positions. */
  ghost predicate Sorted(calls: seq<Call>) {
    forall j, k :: 0 <= j < k < |calls| ==> calls[j].n < calls[k].n
  }

  lemma {:induction false} LiveCallsPast(calls: seq<Call>, p: nat)
    requires forall c :: c in calls ==> c.n < p
    ensures LiveCalls(calls, p) == []
  {
    if calls == [] {
    } else {
      LiveCallsPast(calls[1..], p);
    }
  }

  lemma {:induction false} LiveCallsAll(calls: seq<Call>, p: nat, q: nat)
    requires forall c :: c in calls ==> (c.n >= p <==> c.n >= q)
    ensures LiveCalls(calls, p) == LiveCalls(calls, q)
  {
    if calls == [] {
    } else {
      assert calls[0] in calls;
      LiveCallsAll(calls[1..], p, q);
    }
  }

  /** What folding the list callback over some calls leaves. */
  ghost predicate ListedSome(calls: seq<Call>, c: DirContext, c': DirContext) {
    var all := LiveCalls(calls, c.pos);
    var k := Min(c.room, |all|);
    && c'.out == c.out + all[..k] && c'.room == c.room - k
    && c'.pos >= c.pos && LiveCalls(calls, c'.pos) == all[k..]
  }

  lemma LiveCallsCons(x: Call, rest: seq<Call>, p: nat)
    ensures LiveCalls([x] + rest, p)
         == (if x.n >= p && x.de.inum != 0 then [Shown(x.de)] else []) + LiveCalls(rest, p)
  {
    assert ([x] + rest)[1..] == rest;
  }

  /** A call before the position, or on a free slot, lists nothing. */
  lemma ListSkip(x: Call, rest: seq<Call>, c: DirContext, c1: DirContext, c2: DirContext)
    requires forall y :: y in rest ==> x.n < y.n
    requires x.n < c.pos || x.de.inum == 0
    requires c1 == c.(pos := Max(c.pos, x.n + 1)) && ListedSome(rest, c1, c2)
    ensures ListedSome([x] + rest, c, c2)
  {
    LiveCallsCons(x, rest, c.pos);
    LiveCallsCons(x, rest, c2.pos);
    LiveCallsAll(rest, c.pos, c1.pos);
    hide LiveCalls, Shown;
    assert [] + LiveCalls(rest, c.pos) == LiveCalls(rest, c.pos);
    assert [] + LiveCalls(rest, c2.pos) == LiveCalls(rest, c2.pos);
  }

  /** A call on a live entry lists it if there is room. */
  lemma ListEmit(x: Call, rest: seq<Call>, c: DirContext, c1: DirContext, c2: DirContext)
    requires forall y :: y in rest ==> x.n < y.n
    requires x.n >= c.pos && x.de.inum != 0 && c.room > 0
    requires c1 == DirContext(x.n + 1, c.room - 1, c.out + [Shown(x.de)]) && ListedSome(rest, c1, c2)
    ensures ListedSome([x] + rest, c, c2)
  {
    hide LiveCalls, Shown;
    LiveCallsCons(x, rest, c.pos);
    LiveCallsCons(x, rest, c2.pos);
    LiveCallsAll(rest, c.pos, c1.pos);
    var more := LiveCalls(rest, c1.pos);
    TakeCons(c.out, Shown(x.de), more, Min(c1.room, |more|));
    assert [] + LiveCalls(rest, c2.pos) == LiveCalls(rest, c2.pos);
  }

  lemma TakeCons(out: seq<Listed>, x: Listed, more: seq<Listed>, k: nat)
    requires k <= |more|
    ensures out + ([x] + more)[..k + 1] == (out + [x]) + more[..k]
    ensures ([x] + more)[k + 1..] == more[k..]
  {}

  /** A refusal lists nothing and saves the position of the refused entry. */
  lemma ListRefuse(x: Call, rest: seq<Call>, c: DirContext)
    requires forall y :: y in rest ==> x.n < y.n
    requires x.n >= c.pos && x.de.inum != 0 && c.room == 0
    ensures ListedSome([x] + rest, c, c.(pos := x.n))
  {
    LiveCallsAll([x] + rest, c.pos, x.n);
    hide LiveCalls, Shown;
    assert c.out + [] == c.out;
  }

  /** One listing emits the next live entries as far as there is room, and saves
      a position from which exactly the rest remains. */
  lemma {:induction false} FoldList(calls: seq<Call>, c: DirContext, act: Action)
    requires Sorted(calls)
    ensures ListedSome(calls, c, Fold(DeList, calls, c, act).ctx)
    ensures Fold(DeList, calls, c, act).made > 0 ==> !Fold(DeList, calls, c, act).act.deDirty
    ensures calls != [] ==> Fold(DeList, calls, c, act).ctx.pos <= Max(c.pos, calls[|calls| - 1].n + 1)
    decreases |calls|, 1
  {
    hide Shown, LiveCalls, ListedSome;
    if calls == [] {
      ListedNone(c);
    } else {
      var x, rest := calls[0], calls[1..];
      assert calls == [x] + rest;
      assert forall y :: y in rest ==> x.n < y.n;
      if DeList(x.n, x.de, c).act.cont {
        FoldListGoesOn(x, rest, c, act);
      } else {
        ListRefuse(x, rest, c);
      }
    }
  }

  lemma {:induction false} FoldListGoesOn(x: Call, rest: seq<Call>, c: DirContext, act: Action)
    requires Sorted([x] + rest) && Sorted(rest) && (forall y :: y in rest ==> x.n < y.n)
      && DeList(x.n, x.de, c).act.cont
    ensures var f := Fold(DeList, [x] + rest, c, act);
      && ListedSome([x] + rest, c, f.ctx) && f.made > 0 && !f.act.deDirty
      && f.ctx.pos <= Max(c.pos, ([x] + rest)[|rest|].n + 1)
    decreases |rest| + 1, 0
  {
    hide Shown, LiveCalls, ListedSome, Sorted;
    var r := DeList(x.n, x.de, c);
    assert ([x] + rest)[1..] == rest;
    FoldList(rest, r.ctx, r.act);
    var c2 := Fold(DeList, rest, r.ctx, r.act).ctx;
    assert Fold(DeList, [x] + rest, c, act).ctx == c2 by { EmptyFoldAct(rest, r.ctx, r.act); }
    if x.n < c.pos || x.de.inum == 0 {
      ListSkip(x, rest, c, r.ctx, c2);
    } else {
      ListEmit(x, rest, c, r.ctx, c2);
    }
  }

  lemma EmptyFoldAct(calls: seq<Call>, c: DirContext, act: Action)
    ensures Fold(DeList, calls, c, act).made == 0 ==> Fold(DeList, calls, c, act).ctx == c
  {}

  lemma ListedNone(c: DirContext)
    ensures ListedSome([], c, c)
  {
    assert c.out + [] == c.out;
  }

  // ----- calls and slots -----

  lemma {:induction false} LiveListSplit(disk: Disk, a: Addrs, k: nat, m: nat, end: nat)
    requires k <= m <= end
    ensures LiveList(disk, a, k, end) == LiveList(disk, a, k, m) + LiveList(disk, a, m, end)
    decreases m - k
  {
    hide Entry, Shown;
    if k >= m {
    } else {
      LiveListSplit(disk, a, k + 1, m, end);
    }
  }

  lemma {:induction false} LiveListNone(disk: Disk, a: Addrs, k: nat, end: nat)
    requires forall j: nat :: k <= j < end ==> Entry(disk, a, j).inum == 0
    ensures LiveList(disk, a, k, end) == []
    decreases end - k
  {
    hide Entry, Shown;
    if k >= end {
    } else {
      LiveListNone(disk, a, k + 1, end);
    }
  }

  /** The calls on consecutive slots list them. */
  lemma {:induction false} SlotCalls(disk: Disk, a: Addrs, calls: seq<Call>, k: nat, p: nat)
    requires forall j :: 0 <= j < |calls| ==> calls[j] == Call(k + j, Entry(disk, a, k + j))
    ensures LiveCalls(calls, p) == LiveList(disk, a, Max(p, k), k + |calls|)
  {
    hide Entry, Shown;
    if calls == [] {
    } else {
      forall j | 0 <= j < |calls[1..]| ensures calls[1..][j] == Call(k + 1 + j, Entry(disk, a, k + 1 + j)) {
        assert calls[1..][j] == calls[j + 1];
      }
      SlotCalls(disk, a, calls[1..], k + 1, p);
    }
  }

  lemma BlockLive(disk: Disk, a: Addrs, i: nat, k: nat, lim: nat, p: nat)
    requires i < MAXFILE && k <= lim <= NENTS && FileBlock(disk, a, i) < |disk|
    ensures LiveCalls(BlockCalls(disk, a, i, k, lim), p)
         == LiveList(disk, a, Max(p, i * NENTS + k), i * NENTS + lim)
  {
    hide FileBlock, Entry, Shown;
    var calls := BlockCalls(disk, a, i, k, lim);
    if FileBlock(disk, a, i) == 0 {
      NullIsFree();
      forall j: nat | i * NENTS + k <= j < i * NENTS + lim ensures Entry(disk, a, j).inum == 0 {
        EntryInBlock(disk, a, i, j - i * NENTS);
      }
      LiveListNone(disk, a, Max(p, i * NENTS + k), i * NENTS + lim);
      assert calls == [calls[0]] + [];
      LiveCallsCons(calls[0], [], p);
    } else {
      SlotCalls(disk, a, calls, i * NENTS + k, p);
    }
  }

  /** The calls of an iteration, filtered, are the live slots in order. */
  lemma {:induction false} CallsLive(disk: Disk, a: Addrs, i: nat, off: nat, size: nat, p: nat)
    requires off < NENTS && i < MAXFILE && i * NENTS + off + size <= MAXFILE * NENTS
    requires forall b :: 0 <= b < MAXFILE ==> FileBlock(disk, a, b) < |disk|
    ensures LiveCalls(CallList(disk, a, i, off, size), p)
         == LiveList(disk, a, Max(p, i * NENTS + off), i * NENTS + off + size)
    decreases size
  {
    hide FileBlock, BlockCalls, LiveCalls, LiveList;
    var lim := Min(NENTS, size + off);
    var calls := BlockCalls(disk, a, i, off, lim);
    BlockLive(disk, a, i, off, lim, p);
    var k, m, end := i * NENTS + off, i * NENTS + lim, i * NENTS + off + size;
    if size == lim - off {
      assert calls + [] == calls;
    } else {
      CallsLive(disk, a, i + 1, 0, size - (lim - off), p);
      LiveCallsAppend(calls, CallList(disk, a, i + 1, 0, size - (lim - off)), p);
      ListJoin(disk, a, k, m, end, p);
    }
  }

  lemma ListJoin(disk: Disk, a: Addrs, k: nat, m: nat, end: nat, p: nat)
    requires k <= m <= end
    ensures LiveList(disk, a, Max(p, k), end) == LiveList(disk, a, Max(p, k), m) + LiveList(disk, a, Max(p, m), end)
  {
    hide Entry, Shown;
    if p <= m {
      LiveListSplit(disk, a, Max(p, k), m, end);
    } else {
      assert LiveList(disk, a, p, m) == [];
    }
  }

  // ----- the operation -----

  /** One call lists the next live entries, as many as the consumer takes, and saves a
      position from which exactly the others remain, whatever position it starts at.
      It fails only when the position, taken in 32 bits, is the very end of a directory
      of maximal size. */
  lemma ReaddirResumes(v: Vol, files: Files, f: nat, n: Node, c: DirContext)
    requires SoundVol(v, files) && f in files && files[f] == n.addrs && GoodDir(v.disk, n)
    ensures DirSized(n.size % U32)
    ensures var (c', err) := Readdir(v, n, c);
      var all := LiveList(v.disk, n.addrs, c.pos, n.size / DESIZE);
      var k := Min(c.room, |all|);
      && err == (if c.pos % U32 == n.size / DESIZE == MAXFILE * NENTS then EFBIG else OK)
      && c'.out == c.out + all[..k] && c'.room == c.room - k
      && c.pos <= c'.pos <= Max(c.pos, MAXFILE * NENTS)
      && LiveList(v.disk, n.addrs, c'.pos, n.size / DESIZE) == all[k..]
  {
    hide SoundVol, GoodDir, Readdir;
    GoodDirSized(v, files, f, n);
    if c.pos % U32 > n.size / DESIZE || c.pos % U32 == MAXFILE * NENTS {
      ReaddirNone(v, n, c);
      assert c.out + [] == c.out;
    } else {
      ReaddirInside(v, files, f, n, c);
    }
  }

  /** Past the end nothing happens; at the end of a directory of maximal size the
      lookup of the next block fails. */
  lemma ReaddirNone(v: Vol, n: Node, c: DirContext)
    requires v.Ok() && n.isDir && DirSized(n.size) && n.size <= MAXBYTES && n.size % U32 == n.size
    requires n.size / DESIZE < c.pos % U32 || n.size / DESIZE == c.pos % U32 == MAXFILE * NENTS
    ensures Readdir(v, n, c) == (c, if c.pos % U32 == n.size / DESIZE then EFBIG else OK)
    ensures c.pos >= n.size / DESIZE
  {}

  lemma ReaddirInside(v: Vol, files: Files, f: nat, n: Node, c: DirContext)
    requires SoundVol(v, files) && f in files && files[f] == n.addrs && GoodDir(v.disk, n)
    requires c.pos % U32 <= n.size / DESIZE && c.pos % U32 < MAXFILE * NENTS
    ensures DirSized(n.size % U32)
    ensures var (c', err) := Readdir(v, n, c);
      var all := LiveList(v.disk, n.addrs, c.pos, n.size / DESIZE);
      var k := Min(c.room, |all|);
      && err == OK
      && c'.out == c.out + all[..k] && c'.room == c.room - k
      && c.pos <= c'.pos <= Max(c.pos, MAXFILE * NENTS)
      && LiveList(v.disk, n.addrs, c'.pos, n.size / DESIZE) == all[k..]
  {
    hide SoundVol, GoodDir, Readdir, Fold, LiveCalls, LiveList, CallsFrom, ListedSome, DeList, Sorted;
    GoodDirSized(v, files, f, n);
    ReaddirFolds(v, files, f, n, c);
    var off := c.pos % U32;
    var calls := CallsFrom(v.disk, n, off);
    CallsSorted(v, files, f, n, off);
    FoldList(calls, c, InitAction());
    var c' := Fold(DeList, calls, c, InitAction()).ctx;
    ListedIs(calls, c, c');
    CallsAreLive(v, files, f, n, off, c.pos);
    CallsAreLive(v, files, f, n, off, c'.pos);
    assert calls != [] ==> calls[|calls| - 1] in calls;
    EmptyFold(calls, c);
  }

  /** `ListedSome`, spelled out. */
  lemma ListedIs(calls: seq<Call>, c: DirContext, c': DirContext)
    requires ListedSome(calls, c, c')
    ensures var all := LiveCalls(calls, c.pos);
      var k := Min(c.room, |all|);
      && c'.out == c.out + all[..k] && c'.room == c.room - k
      && c'.pos >= c.pos && LiveCalls(calls, c'.pos) == all[k..]
  {
    hide LiveCalls;
  }

  lemma EmptyFold(calls: seq<Call>, c: DirContext)
    ensures calls == [] ==> Fold(DeList, calls, c, InitAction()).ctx == c
  {}

  lemma ReaddirFolds(v: Vol, files: Files, f: nat, n: Node, c: DirContext)
    requires SoundVol(v, files) && f in files && files[f] == n.addrs && GoodDir(v.disk, n)
    requires c.pos % U32 <= n.size / DESIZE && c.pos % U32 < MAXFILE * NENTS
    ensures v.Ok() && n.isDir && DirSized(n.size % U32)
    ensures Readdir(v, n, c) == (Fold(DeList, CallsFrom(v.disk, n, c.pos % U32), c, InitAction()).ctx, OK)
  {
    hide SoundVol, GoodDir, DirIterate, Fold, AfterFold, CallsFrom, Shown;
    GoodDirSized(v, files, f, n);
    IterateReads(DeList, v, files, f, n, c, c.pos % U32);
  }

  lemma CallsAreLive(v: Vol, files: Files, f: nat, n: Node, off: nat, p: nat)
    requires SoundVol(v, files) && f in files && files[f] == n.addrs && GoodDir(v.disk, n)
    requires off <= n.size / DESIZE && off < MAXFILE * NENTS && off <= p
    ensures LiveCalls(CallsFrom(v.disk, n, off), p) == LiveList(v.disk, n.addrs, p, n.size / DESIZE)
  {
    hide SoundVol, GoodDir, FileBlock, CallList, LiveCalls, LiveList;
    GoodDirSized(v, files, f, n);
    AllInRange(v, files, f);
    CallsLive(v.disk, n.addrs, off / NENTS, off % NENTS, n.size / DESIZE - off, p);
  }

  lemma CallsSorted(v: Vol, files: Files, f: nat, n: Node, off: nat)
    requires SoundVol(v, files) && f in files && files[f] == n.addrs && GoodDir(v.disk, n)
    requires off <= n.size / DESIZE && off < MAXFILE * NENTS
    ensures Sorted(CallsFrom(v.disk, n, off))
    ensures forall c :: c in CallsFrom(v.disk, n, off) ==> c.n < MAXFILE * NENTS
  {
    hide SoundVol, GoodDir, FileBlock, Entry, NullDirent;
    CallsComplete(v, files, f, n, off);
    GoodDirSized(v, files, f, n);
  }

  /** Successive calls, the consumer taking `rooms[i]` entries in call `i`. */
  function ListRun(v: Vol, n: Node, rooms: seq<nat>, c: DirContext): DirContext
    requires v.Ok() && (n.isDir ==> DirSized(n.size % U32))
  {
    if rooms == [] then c else ListRun(v, n, rooms[1..], Readdir(v, n, c.(room := rooms[0])).0)
  }

  function Sum(rooms: seq<nat>): nat { if rooms == [] then 0 else rooms[0] + Sum(rooms[1..]) }

  /** Listing is resumable: however the consumer interrupts it, the calls
      together emit exactly the first entries of the one-shot listing, in order,
      with no duplicate and no omission; with room enough, all of them. */
  lemma {:induction false} ResumedListing(v: Vol, files: Files, f: nat, n: Node, rooms: seq<nat>, c: DirContext)
    requires SoundVol(v, files) && f in files && files[f] == n.addrs && GoodDir(v.disk, n)
    ensures DirSized(n.size % U32)
    ensures var all := LiveList(v.disk, n.addrs, c.pos, n.size / DESIZE);
      ListRun(v, n, rooms, c).out == c.out + all[..Min(Sum(rooms), |all|)]
  {
    hide SoundVol, GoodDir, Readdir, LiveList;
    GoodDirSized(v, files, f, n);
    var all := LiveList(v.disk, n.addrs, c.pos, n.size / DESIZE);
    if rooms == [] {
      assert c.out + all[..0] == c.out;
    } else {
      var c0 := c.(room := rooms[0]);
      ReaddirResumes(v, files, f, n, c0);
      var c1 := Readdir(v, n, c0).0;
      ResumedListing(v, files, f, n, rooms[1..], c1);
      TakeTwice(c.out, all, rooms[0], Sum(rooms[1..]));
    }
  }

  lemma TakeTwice(out: seq<Listed>, all: seq<Listed>, a: nat, b: nat)
    ensures var k := Min(a, |all|);
      0 <= k && (out + all[..k]) + all[k..][..Min(b, |all[k..]|)] == out + all[..Min(a + b, |all|)]
  {
    var k := Min(a, |all|);
    var j := Min(b, |all[k..]|);
    assert all[..k] + all[k..][..j] == all[..k + j];
  }
}
