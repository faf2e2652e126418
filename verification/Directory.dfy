/** Directories (dir.c): the callbacks for lookup, erase, insert and the empty
    test, and what each operation does to the directory as a finite map. */
module Directory {
  import opened Layout
  import opened Volumes
  import opened BlockMap
  import opened Durability
  import opened Inodes
  import opened FileData
  import opened DirIter
  import opened DirCalls

  // ----- names -----

  /** Character `i` of a NUL-terminated string. */
  function CharAt(t: seq<byte>, i: nat): byte { if i < |t| then t[i] else 0 }

  function Dot(): seq<byte> { [46] }

  function DotDot(): seq<byte> { [46, 46] }

  predicate CString(t: seq<byte>) { 0 !in t }

  /** `strncmp(t, field, DIRSIZ) == 0`, from character `i` on. */
  predicate StrnEq(t: seq<byte>, field: Name, i: nat)
    decreases DIRSIZ - i
  {
    if i >= DIRSIZ then true
    else if CharAt(t, i) != field[i] then false
    else field[i] == 0 || StrnEq(t, field, i + 1)
  }

  /** `strncpy` of a string into a zeroed name field. */
  function Pad(t: seq<byte>): Name { seq(DIRSIZ, i requires 0 <= i => CharAt(t, i)) }

  /** Nothing but NULs after the first NUL. */
  predicate Padded(field: Name) {
    forall i, j :: 0 <= i < j < DIRSIZ && field[i] == 0 ==> field[j] == 0
  }

  lemma {:induction false} StrnEqFrom(t: seq<byte>, field: Name, i: nat)
    requires CString(t) && Padded(field)
    ensures StrnEq(t, field, i) <==> forall j :: i <= j < DIRSIZ ==> field[j] == CharAt(t, j)
    decreases DIRSIZ - i
  {
    if i >= DIRSIZ {
    } else {
      StrnEqFrom(t, field, i + 1);
      assert CharAt(t, i) == 0 ==> forall j :: i <= j ==> CharAt(t, j) == 0;
    }
  }

  /** On padded fields, comparing with `strncmp` over DIRSIZ is equality. */
  lemma StrncmpIsEquality(t: seq<byte>, field: Name)
    requires CString(t) && Padded(field)
    ensures StrnEq(t, field, 0) <==> field == Pad(t)
  {
    StrnEqFrom(t, field, 0);
  }

  lemma CharNonzero(t: seq<byte>, i: nat)
    requires CString(t) && i < |t|
    ensures CharAt(t, i) != 0
  {
    assert t[i] in t;
  }

  lemma PadInjective(s: seq<byte>, t: seq<byte>)
    requires CString(s) && CString(t) && |s| <= DIRSIZ && |t| <= DIRSIZ && Pad(s) == Pad(t)
    ensures s == t
  {
    forall i: nat | i < DIRSIZ ensures CharAt(s, i) == CharAt(t, i) {
      assert Pad(s)[i] == Pad(t)[i];
    }
    if |s| < |t| {
      CharNonzero(t, |s|);
    } else if |t| < |s| {
      CharNonzero(s, |t|);
    }
    assert forall i :: 0 <= i < |s| ==> s[i] == CharAt(s, i) && t[i] == CharAt(t, i);
  }

  lemma PadIsPadded(t: seq<byte>)
    requires CString(t)
    ensures Padded(Pad(t)) && (Pad(t)[0] != 0 <==> t != [])
  {
    if t != [] { CharNonzero(t, 0); }
    forall i: nat, j: nat | i < j < DIRSIZ ensures Pad(t)[i] == 0 ==> Pad(t)[j] == 0 {
      if i < |t| { CharNonzero(t, i); }
    }
  }

  // ----- callbacks -----

  datatype FindCtx = FindCtx(target: seq<byte>, dnum: nat, de: Dirent)

  /** `de_find_callback`. */
  function DeFind(n: nat, de: Dirent, c: FindCtx): Reply<FindCtx> {
    if StrnEq(c.target, de.name, 0) then Reply(Action(false, false, false, false), de, c.(dnum := n, de := de))
    else Reply(Action(true, false, false, false), de, c)
  }

  datatype EraseCtx = EraseCtx(target: seq<byte>, success: bool)

  /** An erased entry: filled with 0xfd, then the number and first character
      zeroed. */
  function Erased(): Dirent { Dirent(0, seq(DIRSIZ, i => if i == 0 then 0 else 0xfd)) }

  /** `de_erase_callback`. */
  function DeErase(n: nat, de: Dirent, c: EraseCtx): Reply<EraseCtx> {
    if StrnEq(c.target, de.name, 0) then Reply(Action(false, true, false, false), Erased(), c.(success := true))
    else Reply(Action(true, false, false, false), de, c)
  }

  /** `sane` records whether the callback's assertion has held so far. */
  datatype InsertCtx = InsertCtx(nde: Dirent, sane: bool)

  /** `de_insert_callback`. */
  function DeInsert(n: nat, de: Dirent, c: InsertCtx): Reply<InsertCtx> {
    if de.inum == 0 then Reply(Action(false, true, true, true), c.nde, c.(sane := c.sane && de.name[0] == 0))
    else Reply(Action(true, false, true, true), de, c)
  }

  datatype RmCtx = RmCtx(empty: bool, sane: bool)

  /** `rmtest_callback`. */
  function DeRmtest(n: nat, de: Dirent, c: RmCtx): Reply<RmCtx> {
    if n > 1 && de.inum != 0 then
      Reply(Action(false, false, false, false), de, RmCtx(false, c.sane && de.name[0] != 0))
    else Reply(Action(true, false, false, false), de, c)
  }

  // ----- operations -----

  function CtxOf(n: Node): DirCtx { DirCtx(n.addrs, n.size % U32, false) }

  /** `xv6_find_inum`: the position found, 0 if none, and the entry there. */
  function FindInum(v: Vol, n: Node, name: seq<byte>): (r: (nat, Dirent, Errno))
    requires v.Ok() && (n.isDir ==> DirSized(n.size % U32))
  {
    if !n.isDir then (0, NullDirent(), ENOTDIR)
    else
      var r := DirIterate(DeFind, v, CtxOf(n), FindCtx(name, 0, NullDirent()), 0, false);
      (r.ctx.dnum, r.ctx.de, r.err)
  }

  /** `xv6_dir_erase`: entries 0 and 1 are never considered. */
  function DirErase(v: Vol, n: Node, name: seq<byte>): (r: (Vol, Errno))
    requires v.Ok() && (n.isDir ==> DirSized(n.size % U32))
    ensures r.0.Ok() && r.0.g == v.g
  {
    if !n.isDir then (v, ENOTDIR)
    else
      var r := DirIterate(DeErase, v, CtxOf(n), EraseCtx(name, false), 2, false);
      (r.v, if r.ctx.success then r.err else ENOENT)
  }

  datatype InsertResult = InsertResult(v: Vol, n: Node, err: Errno, sane: bool)

  /** `xv6_dentry_insert`; the context's size goes back to the inode only if the
      iteration succeeded and left it dirty. */
  function DentryInsert(v: Vol, n: Node, name: seq<byte>, inum: nat): (r: InsertResult)
    requires v.Ok() && (n.isDir ==> DirSized(n.size % U32))
    ensures r.v.Ok() && r.v.g == v.g
  {
    if !n.isDir then InsertResult(v, n, ENOTDIR, true)
    else if |name| > DIRSIZ then InsertResult(v, n, ENAMETOOLONG, true)
    else if name == Dot() || name == DotDot() then InsertResult(v, n, EEXIST, true)
    else
      var nde := Dirent(inum % U16, Pad(name));
      var r := DirIterate(DeInsert, v, CtxOf(n), InsertCtx(nde, true), 0, true);
      var n1 := n.(addrs := r.d.addrs);
      InsertResult(r.v, if r.err == OK && r.d.dirty then n1.(size := r.d.size) else n1, r.err, r.ctx.sane)
  }

  /** `xv6_dir_rmtest`. */
  function DirRmtest(v: Vol, n: Node): (r: (Errno, bool))
    requires v.Ok() && DirSized(n.size % U32)
  {
    var r := DirIterate(DeRmtest, v, CtxOf(n), RmCtx(true, true), 2, false);
    (if r.err != OK then r.err else if r.ctx.empty then OK else ENOTEMPTY, r.ctx.sane)
  }

  // ----- the directory invariant -----

  ghost predicate Live(disk: Disk, a: Addrs, k: nat, name: Name) {
    Entry(disk, a, k).inum != 0 && Entry(disk, a, k).name == name
  }

  /** A free slot has an empty name; a live one a nonempty padded name. */
  predicate GoodSlot(de: Dirent) {
    if de.inum == 0 then de.name[0] == 0 else de.name[0] != 0 && Padded(de.name)
  }

  ghost predicate GoodSlots(disk: Disk, a: Addrs) {
    && (forall k: nat :: GoodSlot(Entry(disk, a, k)))
    && (forall j: nat, k: nat ::
          (Entry(disk, a, j).inum != 0 && Entry(disk, a, k).inum != 0
           && Entry(disk, a, j).name == Entry(disk, a, k).name) ==> j == k)
    && Live(disk, a, 0, Pad(Dot())) && Live(disk, a, 1, Pad(DotDot()))
  }

  ghost predicate GoodDir(disk: Disk, n: Node) {
    && n.isDir && DirSized(n.size) && n.size <= MAXBYTES
    && GoodSlots(disk, n.addrs)
    && ZeroTail(disk, n.addrs, n.size)
  }

  /** Every live slot lies before the end, in an allocated block. */
  lemma LiveInside(disk: Disk, n: Node, k: nat)
    requires GoodDir(disk, n) && |disk| > 0
    ensures k >= n.size / DESIZE ==> Entry(disk, n.addrs, k) == NullDirent()
    ensures Entry(disk, n.addrs, k).inum != 0 ==> k < n.size / DESIZE && FileBlock(disk, n.addrs, k / NENTS) != 0
  {
    hide ByteAt, GoodSlots;
    NullIsFree();
    if k >= n.size / DESIZE {
      assert BytesFrom(disk, n.addrs, DESIZE * k, DESIZE) == seq(DESIZE, _ => 0);
    } else if Entry(disk, n.addrs, k).inum != 0 {
      LiveAllocated(disk, n.addrs, k);
    }
  }

  lemma LiveAllocated(disk: Disk, a: Addrs, k: nat)
    requires k < MAXFILE * NENTS && Entry(disk, a, k).inum != 0 && |disk| > 0
    ensures FileBlock(disk, a, k / NENTS) != 0
  {
    NullIsFree();
    assert k / NENTS * NENTS + k % NENTS == k;
    if FileBlock(disk, a, k / NENTS) < |disk| {
      EntryInBlock(disk, a, k / NENTS, k % NENTS);
    }
    hide FileBlock, Entry;
  }

  /** A live slot at or after `off` is among the positions visited. */
  lemma LiveVisited(disk: Disk, n: Node, off: nat, k: nat)
    requires GoodDir(disk, n) && |disk| > 0 && off <= k && Entry(disk, n.addrs, k).inum != 0
    ensures Visited(disk, n.addrs, off, n.size / DESIZE, k)
  {
    LiveInside(disk, n, k);
    hide FileBlock, Entry, GoodSlots, ByteAt;
  }

  // ----- iterating without changing the block map -----

  ghost predicate NeverExtends<C(!new)>(cb: Callback<C>) {
    forall n, de, c :: !cb(n, de, c).act.dirExt
  }

  lemma {:induction false} FoldNeverExtends<C(!new)>(cb: Callback<C>, calls: seq<Call>, ctx: C, act: Action)
    requires NeverExtends(cb) && !act.dirExt
    ensures !Fold(cb, calls, ctx, act).act.dirExt
  {
    if calls == [] {
    } else {
      var r := cb(calls[0].n, calls[0].de, ctx);
      FoldNeverExtends(cb, calls[1..], r.ctx, r.act);
    }
  }

  /** The calls made on a directory from entry `off` on. */
  function CallsFrom(disk: Disk, n: Node, off: nat): seq<Call>
    requires off <= n.size / DESIZE
  {
    CallList(disk, n.addrs, off / NENTS, off % NENTS, n.size / DESIZE - off)
  }

  /** A good directory has a size the iterator accepts. */
  lemma GoodDirSized(v: Vol, files: Files, f: nat, n: Node)
    requires SoundVol(v, files) && f in files && GoodDir(v.disk, n)
    ensures v.Ok() && |v.disk| > 0 && n.isDir
    ensures DirSized(n.size) && DirSized(n.size % U32) && n.size % U32 == n.size <= MAXBYTES
  {
    hide GoodSlots, ZeroTail, Sound;
  }

  lemma AllInRange(v: Vol, files: Files, f: nat)
    requires SoundVol(v, files) && f in files
    ensures forall i :: 0 <= i < MAXFILE ==> FileBlock(v.disk, files[f], i) < |v.disk|
  {
    hide FileBlock, SoundVol;
    forall i: nat | i < MAXFILE ensures FileBlock(v.disk, files[f], i) < |v.disk| {
      BlockInRange(v, files, f, i);
    }
  }

  /** Every call is on the entry stored at its position, and no live entry from
      `off` on is left out. */
  lemma CallsComplete(v: Vol, files: Files, f: nat, n: Node, off: nat)
    requires SoundVol(v, files) && f in files && files[f] == n.addrs && GoodDir(v.disk, n)
    requires off <= n.size / DESIZE
    ensures forall c :: c in CallsFrom(v.disk, n, off) ==>
      c.de == Entry(v.disk, n.addrs, c.n) && (c.de.inum != 0 ==> off <= c.n)
    ensures forall k: nat :: off <= k && Entry(v.disk, n.addrs, k).inum != 0 ==>
      Call(k, Entry(v.disk, n.addrs, k)) in CallsFrom(v.disk, n, off)
    ensures off < n.size / DESIZE ==> Increasing(CallsFrom(v.disk, n, off), off / NENTS * NENTS, n.size / DESIZE)
  {
    hide SoundVol, GoodDir, Entry, FileBlock, CallsFrom, Increasing;
    GoodDirSized(v, files, f, n);
    AllInRange(v, files, f);
    var calls := CallsFrom(v.disk, n, off);
    CallsOnEntries(v.disk, n, off);
    forall k: nat | off <= k && Entry(v.disk, n.addrs, k).inum != 0
      ensures Call(k, Entry(v.disk, n.addrs, k)) in calls
    {
      LiveVisited(v.disk, n, off, k);
      assert Visited(v.disk, n.addrs, off, n.size / DESIZE, k) && k < n.size / DESIZE;
    }
  }

  lemma CallsOnEntries(disk: Disk, n: Node, off: nat)
    requires GoodDir(disk, n) && off <= n.size / DESIZE && |disk| > 0
    requires forall i :: 0 <= i < MAXFILE ==> FileBlock(disk, n.addrs, i) < |disk|
    ensures forall c :: c in CallsFrom(disk, n, off) ==>
      c.de == Entry(disk, n.addrs, c.n) && (c.de.inum != 0 ==> off <= c.n)
    ensures forall k: nat :: off <= k && Visited(disk, n.addrs, off, n.size / DESIZE, k) && k < n.size / DESIZE ==>
      Call(k, Entry(disk, n.addrs, k)) in CallsFrom(disk, n, off)
    ensures off < n.size / DESIZE ==> Increasing(CallsFrom(disk, n, off), off / NENTS * NENTS, n.size / DESIZE)
  {
    hide FileBlock, Entry, GoodSlots, ZeroTail, CallList, Increasing;
    var end := n.size / DESIZE;
    if off < end {
      CallListCovers(disk, n.addrs, off, end);
      forall c | c in CallsFrom(disk, n, off) && c.de.inum != 0 ensures off <= c.n {
        VisitedLive(disk, n.addrs, off, end, c.n);
      }
    } else {
      EndCalls(disk, n.addrs, off);
    }
  }

  /** A position visited that holds a live entry is not before the start. */
  lemma VisitedLive(disk: Disk, a: Addrs, off: nat, end: nat, k: nat)
    requires Visited(disk, a, off, end, k) && Entry(disk, a, k).inum != 0 && |disk| > 0
    ensures off <= k
  {
    hide FileBlock, Entry;
    LiveAllocated(disk, a, k);
  }

  /** Starting right at the end, only a hole is called back on. */
  lemma EndCalls(disk: Disk, a: Addrs, off: nat)
    requires |disk| > 0
    ensures forall c :: c in CallList(disk, a, off / NENTS, off % NENTS, 0) ==>
      c.de == Entry(disk, a, c.n) && c.de.inum == 0
  {
    NullIsFree();
    hide FileBlock, Entry, NullDirent;
    var i := off / NENTS;
    if i < MAXFILE && FileBlock(disk, a, i) == 0 {
      EntryInBlock(disk, a, i, 0);
    }
    var calls := CallList(disk, a, i, off % NENTS, 0);
    assert i < MAXFILE ==> calls == BlockCalls(disk, a, i, off % NENTS, off % NENTS);
  }

  /** On a good directory the iterator folds a callback that never extends over
      the calls of `CallsFrom`. */
  lemma IterateReads<C(!new)>(cb: Callback<C>, v: Vol, files: Files, f: nat, n: Node, ctx: C, off: nat)
    requires SoundVol(v, files) && f in files && files[f] == n.addrs && GoodDir(v.disk, n)
    requires EditsAtStop(cb) && NeverExtends(cb)
    requires off <= n.size / DESIZE && off < MAXFILE * NENTS
    ensures DirSized(n.size % U32)
    ensures var calls := CallsFrom(v.disk, n, off);
      var fo := Fold(cb, calls, ctx, InitAction());
      DirIterate(cb, v, CtxOf(n), ctx, off, false)
      == DirResult(AfterFold(v, n.addrs, calls, fo), CtxOf(n), fo.ctx, OK)
  {
    hide SoundVol, GoodDir, EditsAtStop, NeverExtends, IterBlocks, Fold, AfterFold, CallList, Extend;
    GoodDirSized(v, files, f, n);
    IterIsFold(cb, v, files, f, false, off / NENTS, off % NENTS, n.size / DESIZE - off, ctx, InitAction());
    FoldNeverExtends(cb, CallsFrom(v.disk, n, off), ctx, InitAction());
  }

  // ----- lookup -----

  lemma {:induction false} FoldFind(calls: seq<Call>, c: FindCtx, act: Action)
    ensures var f := Fold(DeFind, calls, c, act);
      if f.Stopped() then
        && StrnEq(c.target, calls[f.made - 1].de.name, 0) && !f.act.deDirty
        && f.ctx == FindCtx(c.target, calls[f.made - 1].n, calls[f.made - 1].de)
      else
        f.ctx == c && (f.made > 0 ==> !f.act.deDirty) && forall x :: x in calls ==> !StrnEq(c.target, x.de.name, 0)
  {
    hide StrnEq;
    if calls == [] || !DeFind(calls[0].n, calls[0].de, c).act.cont {
    } else {
      FoldFind(calls[1..], c, DeFind(calls[0].n, calls[0].de, c).act);
    }
  }

  /** An entry matches a nonempty name exactly when it is live under it. */
  lemma MatchIsLive(disk: Disk, a: Addrs, k: nat, name: seq<byte>)
    requires CString(name) && name != [] && GoodSlot(Entry(disk, a, k))
    ensures StrnEq(name, Entry(disk, a, k).name, 0) <==> Live(disk, a, k, Pad(name))
  {
    hide Entry;
    var de := Entry(disk, a, k);
    if de.inum != 0 {
      StrncmpIsEquality(name, de.name);
    }
  }

  /** A call that matches a name is on a live entry under it. */
  lemma MatchAt(v: Vol, files: Files, f: nat, n: Node, off: nat, name: seq<byte>, x: Call)
    requires SoundVol(v, files) && f in files && files[f] == n.addrs && GoodDir(v.disk, n)
    requires CString(name) && name != [] && off <= n.size / DESIZE
    requires x in CallsFrom(v.disk, n, off) && StrnEq(name, x.de.name, 0)
    ensures off <= x.n && x.de == Entry(v.disk, n.addrs, x.n) && Live(v.disk, n.addrs, x.n, Pad(name))
  {
    hide SoundVol, Entry, CallsFrom, StrnEq, Pad, ZeroTail, CString, GoodSlot;
    CallsComplete(v, files, f, n, off);
    assert GoodSlot(Entry(v.disk, n.addrs, x.n));
    MatchIsLive(v.disk, n.addrs, x.n, name);
  }

  /** If no call matches a name, no entry is live under it. */
  lemma NoMatch(v: Vol, files: Files, f: nat, n: Node, off: nat, name: seq<byte>)
    requires SoundVol(v, files) && f in files && files[f] == n.addrs && GoodDir(v.disk, n)
    requires CString(name) && name != [] && off <= n.size / DESIZE
    requires forall x :: x in CallsFrom(v.disk, n, off) ==> !StrnEq(name, x.de.name, 0)
    ensures forall k: nat :: k >= off ==> !Live(v.disk, n.addrs, k, Pad(name))
  {
    hide SoundVol, Entry, CallsFrom, StrnEq, Pad, ZeroTail, CString, GoodSlot;
    CallsComplete(v, files, f, n, off);
    forall k: nat | k >= off ensures !Live(v.disk, n.addrs, k, Pad(name)) {
      assert GoodSlot(Entry(v.disk, n.addrs, k));
      MatchIsLive(v.disk, n.addrs, k, name);
    }
  }

  /** Lookup is sound and complete: it finds a live entry with the name, at a
      position other than 0, or reports none exactly when there is none. */
  lemma FindSound(v: Vol, files: Files, f: nat, n: Node, name: seq<byte>)
    requires SoundVol(v, files) && f in files && files[f] == n.addrs && GoodDir(v.disk, n)
    requires CString(name) && name != []
    ensures DirSized(n.size % U32)
    ensures var (dnum, de, err) := FindInum(v, n, name);
      && err == OK
      && (dnum != 0 ==> Live(v.disk, n.addrs, dnum, Pad(name)) && de == Entry(v.disk, n.addrs, dnum))
      && (dnum == 0 ==> forall k: nat :: k != 0 ==> !Live(v.disk, n.addrs, k, Pad(name)))
  {
    hide SoundVol, GoodDir, FindInum, Fold, CallsFrom, Entry, StrnEq, Live, Pad, CString;
    GoodDirSized(v, files, f, n);
    FindIsFold(v, files, f, n, name);
    var c, calls := FindCtx(name, 0, NullDirent()), CallsFrom(v.disk, n, 0);
    FoldFind(calls, c, InitAction());
    var fo := Fold(DeFind, calls, c, InitAction());
    if fo.Stopped() {
      MatchAt(v, files, f, n, 0, name, calls[fo.made - 1]);
      OthersNotLive(v.disk, n, calls[fo.made - 1].n, name);
    } else {
      NoMatch(v, files, f, n, 0, name);
    }
  }

  lemma FindIsFold(v: Vol, files: Files, f: nat, n: Node, name: seq<byte>)
    requires SoundVol(v, files) && f in files && files[f] == n.addrs && GoodDir(v.disk, n)
    ensures DirSized(n.size % U32) && v.Ok()
    ensures var fo := Fold(DeFind, CallsFrom(v.disk, n, 0), FindCtx(name, 0, NullDirent()), InitAction());
      FindInum(v, n, name) == (fo.ctx.dnum, fo.ctx.de, OK)
  {
    hide SoundVol, GoodDir, DirIterate, Fold, CallsFrom, AfterFold, StrnEq;
    GoodDirSized(v, files, f, n);
    IterateReads(DeFind, v, files, f, n, FindCtx(name, 0, NullDirent()), 0);
  }

  lemma OthersNotLive(disk: Disk, n: Node, k: nat, name: seq<byte>)
    requires GoodDir(disk, n) && Live(disk, n.addrs, k, Pad(name))
    ensures forall j: nat :: j != k ==> !Live(disk, n.addrs, j, Pad(name))
  {
    hide Entry, ZeroTail, Pad, GoodSlot;
  }

  // ----- erase -----

  lemma {:induction false} FoldErase(calls: seq<Call>, c: EraseCtx, act: Action)
    ensures var f := Fold(DeErase, calls, c, act);
      if f.Stopped() then
        && StrnEq(c.target, calls[f.made - 1].de.name, 0) && f.act.deDirty && f.de == Erased()
        && f.ctx == EraseCtx(c.target, true)
      else
        f.ctx == c && (f.made > 0 ==> !f.act.deDirty) && forall x :: x in calls ==> !StrnEq(c.target, x.de.name, 0)
  {
    hide StrnEq;
    if calls == [] || !DeErase(calls[0].n, calls[0].de, c).act.cont {
    } else {
      FoldErase(calls[1..], c, DeErase(calls[0].n, calls[0].de, c).act);
    }
  }

  /** The same blocks are in use, and every file has the same ones. */
  ghost predicate SameRoom(v: Vol, v': Vol, files: Files) {
    && v.Sized() && v'.Sized() && v'.g == v.g && UsedSet(v.g, v'.disk) == UsedSet(v.g, v.disk)
    && forall f :: f in files ==> SameSlots(v.disk, v'.disk, files[f])
  }

  /** Writing one entry in place is a splice of its record. */
  lemma EntryPutSplices(v: Vol, files: Files, f: nat, k: nat, de: Dirent)
    requires SoundVol(v, files) && f in files && k < MAXFILE * NENTS
    requires FileBlock(v.disk, files[f], k / NENTS) != 0
    ensures var v' := EntryPut(v, files[f], k, de);
      && SoundVol(v', files)
      && (forall f' :: f' in files && f' != f ==> SameBytes(v.disk, files[f'], v'.disk, files[f']))
      && Spliced(v.disk, files[f], v'.disk, files[f], DESIZE * k, EncodeDirent(de))
      && SameRoom(v, v', files) && Durable(v, v', files)
      && v'.g == v.g && SameTable(v.g, v.disk, v'.disk) && v'.trace == v.trace + [v'.disk]
  {
    hide Slot, ByteAt, UsedSet, Used, FileBlock, EncodeDirent, Durable;
    var a, i := files[f], k / NENTS;
    BlockInRange(v, files, f, i);
    var b := FileBlock(v.disk, a, i);
    var blk := PutDirent(v.disk[b], k % NENTS, de);
    assert v.g.IsData(b) by { DataBlock(v, files, f, i); }
    DataWrite(v.disk, v.g.DataStart(), UsedSet(v.g, v.disk), files, f, i, blk);
    DataPutUsed(v, b, blk);
    PutDurable(v, b, blk, files);
    SameBytesRefl(v.disk, a);
    ChunkBytes(v.disk, a, v.disk, v.Put(b, blk).disk, a, i, DESIZE * (k % NENTS), EncodeDirent(de), b);
    assert i * BSIZE + DESIZE * (k % NENTS) == DESIZE * k;
  }

  lemma SameBytesRefl(disk: Disk, a: Addrs)
    ensures SameBytes(disk, a, disk, a)
  {}

  lemma DataBlock(v: Vol, files: Files, f: nat, i: nat)
    requires SoundVol(v, files) && f in files && i < MAXFILE && FileBlock(v.disk, files[f], i) != 0
    ensures v.g.IsData(FileBlock(v.disk, files[f], i))
  {
    hide Slot;
    assert FileBlock(v.disk, files[f], i) == Slot(v.disk, files[f], DataSlot(i));
  }

  /** The one slot an erase can hit. */
  ghost predicate ErasedAt(v: Vol, files: Files, f: nat, n: Node, k: nat, v': Vol) {
    && f in files && v'.g == v.g && SoundVol(v', files) && SameTable(v.g, v.disk, v'.disk)
    && (forall f' :: f' in files && f' != f ==> SameBytes(v.disk, files[f'], v'.disk, files[f']))
    && Spliced(v.disk, n.addrs, v'.disk, n.addrs, DESIZE * k, EncodeDirent(Erased()))
    && SameRoom(v, v', files) && Durable(v, v', files)
    && k < n.size / DESIZE && v'.trace == v.trace + [v'.disk]
  }

  /** Erase removes exactly the entry with the name, in any slot but the first
      two, and otherwise changes nothing and reports `ENOENT`. */
  lemma EraseSound(v: Vol, files: Files, f: nat, n: Node, name: seq<byte>)
    requires SoundVol(v, files) && f in files && files[f] == n.addrs && GoodDir(v.disk, n)
    requires CString(name) && name != []
    ensures DirSized(n.size % U32)
    ensures var (v', err) := DirErase(v, n, name);
      && (forall k: nat :: k >= 2 && Live(v.disk, n.addrs, k, Pad(name))
            ==> err == OK && ErasedAt(v, files, f, n, k, v'))
      && ((forall k: nat :: k >= 2 ==> !Live(v.disk, n.addrs, k, Pad(name))) ==> err == ENOENT && v' == v)
  {
    hide DirErase, Entry, ByteAt, SoundVol, EntryPut, FileBlock, GoodDir, UsedSet, Pad, Erased, Spliced, SameTable,
         SameRoom, Durable;
    GoodDirSized(v, files, f, n);
    var hit, j := EraseCases(v, files, f, n, name);
    if hit {
      OthersNotLive(v.disk, n, j, name);
      LiveInside(v.disk, n, j);
      EntryPutSplices(v, files, f, j, Erased());
    }
  }

  /** Either the erase stopped at a live entry with the name and overwrote it, or
      there was none from slot 2 on. */
  lemma EraseCases(v: Vol, files: Files, f: nat, n: Node, name: seq<byte>) returns (hit: bool, k: nat)
    requires SoundVol(v, files) && f in files && files[f] == n.addrs && GoodDir(v.disk, n)
    requires CString(name) && name != []
    ensures DirSized(n.size % U32)
    ensures hit ==> k >= 2 && Live(v.disk, n.addrs, k, Pad(name))
    ensures hit ==> DirErase(v, n, name) == (EntryPut(v, n.addrs, k, Erased()), OK)
    ensures !hit ==> DirErase(v, n, name) == (v, ENOENT)
    ensures !hit ==> forall j: nat :: j >= 2 ==> !Live(v.disk, n.addrs, j, Pad(name))
  {
    hide SoundVol, GoodDir, DirErase, Fold, CallsFrom, Entry, StrnEq, EntryPut, Live, Pad, CString, Erased;
    GoodDirSized(v, files, f, n);
    EraseIsFold(v, files, f, n, name);
    var calls := CallsFrom(v.disk, n, 2);
    FoldErase(calls, EraseCtx(name, false), InitAction());
    var fo := Fold(DeErase, calls, EraseCtx(name, false), InitAction());
    hit, k := fo.Stopped(), 0;
    if hit {
      k := calls[fo.made - 1].n;
      MatchAt(v, files, f, n, 2, name, calls[fo.made - 1]);
    } else {
      NoMatch(v, files, f, n, 2, name);
    }
  }

  lemma EraseIsFold(v: Vol, files: Files, f: nat, n: Node, name: seq<byte>)
    requires SoundVol(v, files) && f in files && files[f] == n.addrs && GoodDir(v.disk, n)
    ensures DirSized(n.size % U32)
    ensures var calls := CallsFrom(v.disk, n, 2);
      var fo := Fold(DeErase, calls, EraseCtx(name, false), InitAction());
      DirErase(v, n, name) == (AfterFold(v, n.addrs, calls, fo), if fo.ctx.success then OK else ENOENT)
  {
    hide SoundVol, GoodDir, DirIterate, Fold, CallsFrom, AfterFold, StrnEq, Erased;
    GoodDirSized(v, files, f, n);
    IterateReads(DeErase, v, files, f, n, EraseCtx(name, false), 2);
  }

  // ----- the empty test -----

  lemma {:induction false} FoldRmtest(calls: seq<Call>, c: RmCtx, act: Action)
    requires c.empty && c.sane
    ensures var f := Fold(DeRmtest, calls, c, act);
      if f.Stopped() then
        && calls[f.made - 1].n > 1 && calls[f.made - 1].de.inum != 0 && !f.act.deDirty
        && f.ctx == RmCtx(false, calls[f.made - 1].de.name[0] != 0)
      else
        f.ctx == c && (f.made > 0 ==> !f.act.deDirty) && forall x :: x in calls ==> x.n <= 1 || x.de.inum == 0
  {
    if calls == [] || !DeRmtest(calls[0].n, calls[0].de, c).act.cont {
    } else {
      FoldRmtest(calls[1..], c, DeRmtest(calls[0].n, calls[0].de, c).act);
    }
  }

  /** The empty test succeeds exactly when no slot but the first two is live, and
      its assertion never fails. */
  lemma RmtestSound(v: Vol, files: Files, f: nat, n: Node)
    requires SoundVol(v, files) && f in files && files[f] == n.addrs && GoodDir(v.disk, n)
    ensures DirSized(n.size % U32)
    ensures var (err, sane) := DirRmtest(v, n);
      && sane && err in {OK, ENOTEMPTY}
      && (err == OK <==> forall k: nat :: k >= 2 ==> Entry(v.disk, n.addrs, k).inum == 0)
  {
    hide SoundVol, DirIterate, Fold, CallsFrom, Entry, ZeroTail, Pad, Padded, AfterFold;
    GoodDirSized(v, files, f, n);
    var c := RmCtx(true, true);
    IterateReads(DeRmtest, v, files, f, n, c, 2);
    CallsComplete(v, files, f, n, 2);
    var calls := CallsFrom(v.disk, n, 2);
    FoldRmtest(calls, c, InitAction());
    var fo := Fold(DeRmtest, calls, c, InitAction());
    if fo.Stopped() {
      assert calls[fo.made - 1] in calls;
      assert GoodSlot(calls[fo.made - 1].de);
    }
  }
}
