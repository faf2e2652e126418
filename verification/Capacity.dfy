/** When the builder gives up (mkxv6.c): a file takes one block for each 1024 bytes,
    and one more past twelve, and an append fails exactly when these do not fit. */
module Capacity {
  import opened Layout
  import opened Bytes
  import opened Volumes
  import opened BlockMap
  import opened FileData
  import opened Builder

  /** Blocks that a file of `size` bytes holds. */
  function Need(size: nat): nat {
    (size + BSIZE - 1) / BSIZE + if size > NDIRECT * BSIZE then 1 else 0
  }

  lemma NeedGrows(s: nat, t: nat)
    requires s <= t
    ensures Need(s) <= Need(t)
  {}

  /** A file without holes: it holds the blocks its size calls for and no others. */
  ghost predicate Dense(disk: Disk, a: Addrs, size: nat) {
    && size <= MAXBYTES
    && (a[ROOT] != 0 <==> size > NDIRECT * BSIZE)
    && forall i: nat :: i < MAXFILE ==> (FileBlock(disk, a, i) != 0 <==> i * BSIZE < size)
  }

  /** Within one block the size makes no difference. */
  lemma DenseWithin(disk: Disk, a: Addrs, s: nat, t: nat)
    requires Dense(disk, a, s) && t <= MAXBYTES && s > 0 && t > 0 && (s - 1) / BSIZE == (t - 1) / BSIZE
    ensures Dense(disk, a, t) && Need(t) == Need(s)
  {
    hide FileBlock;
    forall i: nat | i < MAXFILE ensures i * BSIZE < s <==> i * BSIZE < t {
      assert i * BSIZE < s <==> i <= (s - 1) / BSIZE;
      assert i * BSIZE < t <==> i <= (t - 1) / BSIZE;
    }
  }

  lemma DenseSame(disk: Disk, a: Addrs, disk': Disk, size: nat)
    requires Dense(disk, a, size) && SameSlots(disk, disk', a)
    ensures Dense(disk', a, size)
  {
    hide Slot;
    forall i: nat | i < MAXFILE ensures FileBlock(disk', a, i) == FileBlock(disk, a, i) {
      assert DataSlot(i) < NSLOTS;
    }
  }

  // ----- finding a block -----

  /** A block was there or has been handed out, `k` of them in all. */
  ghost predicate Stepped(img: Img, files: Files, f: nat, fbn: nat, w: Grown, k: nat) {
    && f in files && fbn < MAXFILE
    && !w.img.dead && w.img.freeblock == img.freeblock + k && 0 < w.x < |w.img.disk|
    && (forall i: nat :: i < MAXFILE ==>
          FileBlock(w.img.disk, w.addrs, i) == if i == fbn then w.x else FileBlock(img.disk, files[f], i))
    && (w.addrs[ROOT] != 0 <==> files[f][ROOT] != 0 || fbn >= NDIRECT)
    && forall f' :: f' in files && f' != f ==> SameSlots(img.disk, w.img.disk, files[f'])
  }

  lemma BlockThere(lo: nat, img: Img, files: Files, f: nat, fbn: nat)
    requires Clean(lo, img, files) && !img.dead && f in files && fbn < MAXFILE
      && FileBlock(img.disk, files[f], fbn) != 0
    ensures Stepped(img, files, f, fbn, GrowBlock(img, files[f], fbn), 0)
  {
    hide Word;
    InSpan(lo, img, files, f, fbn);
    assert Slot(img.disk, files[f], ROOT) == files[f][ROOT];
  }

  lemma DirectStep(lo: nat, img: Img, files: Files, f: nat, fbn: nat)
    requires Clean(lo, img, files) && !img.dead && f in files && fbn < NDIRECT && files[f][fbn] == 0
    ensures var w := GrowBlock(img, files[f], fbn);
      if img.freeblock < |img.disk| then Stepped(img, files, f, fbn, w, 1) else w.img.dead
  {
    hide ByteAt, Word;
    if img.freeblock < |img.disk| {
      NextIsFresh(lo, img, files);
      Attach(img.disk, lo, Span(lo, img.freeblock + 1), files, f, fbn, img.freeblock);
      hide Slot;
      var w := GrowBlock(img, files[f], fbn);
      forall i: nat | i < MAXFILE
        ensures FileBlock(w.img.disk, w.addrs, i) == if i == fbn then w.x else FileBlock(img.disk, files[f], i)
      {
        assert DataSlot(i) < NSLOTS && (DataSlot(i) == fbn <==> i == fbn);
      }
    }
  }

  lemma ChildStep(lo: nat, img: Img, files: Files, f: nat, fbn: nat)
    requires Clean(lo, img, files) && !img.dead && f in files && NDIRECT <= fbn < MAXFILE && files[f][ROOT] != 0
    requires FileBlock(img.disk, files[f], fbn) == 0
    ensures var w := GrowBlock(img, files[f], fbn);
      if img.freeblock < |img.disk| then Stepped(img, files, f, fbn, w, 1) else w.img.dead
  {
    hide ByteAt, Word, PutWord;
    var a, j := files[f], fbn - NDIRECT;
    assert Slot(img.disk, a, ROOT) == a[ROOT];
    assert FileBlock(img.disk, a, fbn) == Slot(img.disk, a, j + 13) == Word(img.disk[a[ROOT]], j);
    if img.freeblock < |img.disk| {
      ChildSlots(img.disk, lo, Span(lo, img.freeblock), files, f, j, img.freeblock);
      hide Slot, WithChild;
      var w := GrowBlock(img, a, fbn);
      forall i: nat | i < MAXFILE
        ensures FileBlock(w.img.disk, w.addrs, i) == if i == fbn then w.x else FileBlock(img.disk, a, i)
      {
        assert DataSlot(i) < NSLOTS && (DataSlot(i) == j + 13 <==> i == fbn);
      }
    }
  }

  lemma RootStep(lo: nat, img: Img, files: Files, f: nat, fbn: nat)
    requires Clean(lo, img, files) && !img.dead && f in files && NDIRECT <= fbn < MAXFILE && files[f][ROOT] == 0
    ensures var w := GrowBlock(img, files[f], fbn);
      if img.freeblock + 1 < |img.disk| then Stepped(img, files, f, fbn, w, 2) else w.img.dead
  {
    hide ByteAt, Word, PutWord, Slot, WithChild, FileBlock, Clean;
    CleanSized(lo, img, files);
    if img.freeblock < |img.disk| {
      var a1 := files[f][ROOT := img.freeblock];
      var img1, files1 := img.(freeblock := img.freeblock + 1), files[f := a1];
      RootAttached(lo, img, files, f);
      CleanSized(lo, img1, files1);
      var w, w1 := GrowBlock(img, files[f], fbn), GrowBlock(img1, a1, fbn);
      assert (w.img.dead <==> w1.img.dead) && (!w.img.dead ==> w == w1);
      NoRootNoBlock(img.disk, files[f], fbn);
      assert FileBlock(img.disk, a1, fbn) == 0;
      ChildStep(lo, img1, files1, f, fbn);
      if img1.freeblock < |img.disk| {
        StepAfterRoot(img, img1, files, f, fbn, a1, w1);
      }
    }
  }

  /** A fresh indirect block changes no block of the file. */
  lemma RootAttached(lo: nat, img: Img, files: Files, f: nat)
    requires Clean(lo, img, files) && f in files && files[f][ROOT] == 0 && img.freeblock < |img.disk|
    ensures var a1 := files[f][ROOT := img.freeblock];
      && Clean(lo, img.(freeblock := img.freeblock + 1), files[f := a1])
      && forall i: nat :: i < MAXFILE ==> FileBlock(img.disk, a1, i) == FileBlock(img.disk, files[f], i)
  {
    hide ByteAt, Word;
    NextIsFresh(lo, img, files);
    Attach(img.disk, lo, Span(lo, img.freeblock + 1), files, f, ROOT, img.freeblock);
    hide Slot;
    forall i: nat | i < MAXFILE ensures DataSlot(i) < NSLOTS && DataSlot(i) != ROOT {}
  }

  lemma StepAfterRoot(img: Img, img1: Img, files: Files, f: nat, fbn: nat, a1: Addrs, w: Grown)
    requires f in files && img1 == img.(freeblock := img.freeblock + 1) && NDIRECT <= fbn
    requires forall i: nat :: i < MAXFILE ==> FileBlock(img.disk, a1, i) == FileBlock(img.disk, files[f], i)
    requires Stepped(img1, files[f := a1], f, fbn, w, 1)
    ensures Stepped(img, files, f, fbn, w, 2)
  {
    hide FileBlock, Slot;
    forall f' | f' in files && f' != f ensures SameSlots(img.disk, w.img.disk, files[f']) {
      assert SameSlots(img1.disk, w.img.disk, files[f := a1][f']);
    }
  }

  /** Appending at the end of a dense file takes the blocks that one more byte calls
      for, and fails exactly when there are not that many. */
  lemma GrowDense(lo: nat, img: Img, files: Files, f: nat, off: nat)
    requires Clean(lo, img, files) && !img.dead && f in files && Dense(img.disk, files[f], off) && off < MAXBYTES
    ensures Need(off) <= Need(off + 1)
    ensures var w, k := GrowBlock(img, files[f], off / BSIZE), Need(off + 1) - Need(off);
      if img.freeblock + k <= |img.disk| then
        Stepped(img, files, f, off / BSIZE, w, k) && Dense(w.img.disk, w.addrs, off + 1)
      else
        w.img.dead
  {
    hide GrowBlock, Clean, FileBlock, Stepped;
    var fbn := off / BSIZE;
    CleanSized(lo, img, files);
    NeedOne(off);
    assert fbn * BSIZE < off <==> off % BSIZE != 0;
    if off % BSIZE != 0 {
      BlockThere(lo, img, files, f, fbn);
    } else if fbn < NDIRECT {
      FirstBlocks(img.disk, files[f], fbn);
      DirectStep(lo, img, files, f, fbn);
    } else if files[f][ROOT] != 0 {
      ChildStep(lo, img, files, f, fbn);
    } else {
      RootStep(lo, img, files, f, fbn);
    }
    var w, k := GrowBlock(img, files[f], fbn), Need(off + 1) - Need(off);
    if img.freeblock + k <= |img.disk| { SteppedDense(img, files, f, off, w, k); }
  }

  /** What one more byte costs. */
  lemma NeedOne(off: nat)
    ensures Need(off + 1) - Need(off)
         == if off % BSIZE != 0 then 0 else if off == NDIRECT * BSIZE then 2 else 1
  {}

  lemma SteppedDense(img: Img, files: Files, f: nat, off: nat, w: Grown, k: nat)
    requires f in files && Dense(img.disk, files[f], off) && off < MAXBYTES && Stepped(img, files, f, off / BSIZE, w, k)
    ensures Dense(w.img.disk, w.addrs, off + 1)
  {
    hide FileBlock, SameSlots;
    forall i: nat | i < MAXFILE ensures i * BSIZE < off + 1 <==> i == off / BSIZE || i * BSIZE < off {
      assert i * BSIZE < off + 1 <==> i <= off / BSIZE;
    }
  }

  // ----- appending -----

  /** What an append that has room leaves of a dense file and of the others. */
  ghost predicate Filled(img: Img, files: Files, f: nat, off: nat, end: nat, r: Appended) {
    && f in files && !r.img.dead && Need(off) <= Need(end)
    && r.img.freeblock == img.freeblock + (Need(end) - Need(off))
    && Dense(r.img.disk, r.addrs, end)
    && forall f' :: f' in files && f' != f ==> SameSlots(img.disk, r.img.disk, files[f'])
  }

  /** An append to a dense file gives up exactly when the file would outgrow the
      block map or the blocks it then needs are not there. */
  lemma {:induction false} AppendExact(lo: nat, img: Img, files: Files, f: nat, off: nat, p: seq<byte>)
    requires Clean(lo, img, files) && !img.dead && f in files && Dense(img.disk, files[f], off)
    ensures Need(off) <= Need(off + |p|)
    ensures var r := AppendLoop(img, files[f], off, p);
      if off + |p| <= MAXBYTES && img.freeblock + (Need(off + |p|) - Need(off)) <= |img.disk| then
        Filled(img, files, f, off, off + |p|, r)
      else
        r.img.dead
    decreases |p|
  {
    hide GrowBlock, Clean, FileBlock, Dense, Need, Stepped, Slot, AppendLoop, Filled;
    CleanSized(lo, img, files);
    NeedGrows(off, off + |p|);
    DenseBound(img.disk, files[f], off);
    if p == [] {
      EmptyAppend(img, files, f, off);
    } else if off == MAXBYTES {
      LoopAtEnd(img, files[f], off, p);
    } else {
      var n1 := Min(|p|, (off / BSIZE + 1) * BSIZE - off);
      GrowDense(lo, img, files, f, off);
      NeedGrows(off + 1, off + n1);
      NeedGrows(off + n1, off + |p|);
      var w := GrowBlock(img, files[f], off / BSIZE);
      if img.freeblock + (Need(off + 1) - Need(off)) > |img.disk| {
        LoopDies(img, files[f], off, p);
      } else {
        TurnExact(lo, img, files, f, off, p, n1);
        var img1 := w.img.(disk := w.img.disk[w.x := Blit(w.img.disk[w.x], off % BSIZE, p[..n1])]);
        AppendExact(lo, img1, files[f := w.addrs], f, off + n1, p[n1..]);
        var r := AppendLoop(img1, w.addrs, off + n1, p[n1..]);
        if off + |p| <= MAXBYTES && img.freeblock + (Need(off + |p|) - Need(off)) <= |img.disk| {
          FilledJoin(img, img1, files, f, w.addrs, off, off + n1, off + |p|, r);
        }
      }
    }
  }

  lemma DenseBound(disk: Disk, a: Addrs, size: nat)
    requires Dense(disk, a, size)
    ensures size <= MAXBYTES
  {}

  lemma EmptyAppend(img: Img, files: Files, f: nat, off: nat)
    requires |img.disk| < U32 && !img.dead && f in files && Dense(img.disk, files[f], off)
    ensures Filled(img, files, f, off, off, AppendLoop(img, files[f], off, []))
  {
    hide FileBlock, Slot;
  }

  lemma LoopAtEnd(img: Img, a: Addrs, off: nat, p: seq<byte>)
    requires |img.disk| < U32 && off == MAXBYTES && p != []
    ensures AppendLoop(img, a, off, p).img.dead
  {}

  lemma LoopDies(img: Img, a: Addrs, off: nat, p: seq<byte>)
    requires |img.disk| < U32 && p != [] && off < MAXBYTES && GrowBlock(img, a, off / BSIZE).img.dead
    ensures AppendLoop(img, a, off, p).img.dead
  {
    hide GrowBlock;
  }

  /** One turn that finds its block. */
  lemma TurnExact(lo: nat, img: Img, files: Files, f: nat, off: nat, p: seq<byte>, n1: nat)
    requires Clean(lo, img, files) && !img.dead && f in files && Dense(img.disk, files[f], off)
      && off < MAXBYTES && p != []
    requires n1 == Min(|p|, (off / BSIZE + 1) * BSIZE - off) && Need(off) <= Need(off + 1)
    requires var w := GrowBlock(img, files[f], off / BSIZE);
      Stepped(img, files, f, off / BSIZE, w, Need(off + 1) - Need(off)) && Dense(w.img.disk, w.addrs, off + 1)
    ensures 0 < n1 <= |p| && off % BSIZE + n1 <= BSIZE
    ensures var w := GrowBlock(img, files[f], off / BSIZE);
      && w.x < |w.img.disk|
      && var img1 := w.img.(disk := w.img.disk[w.x := Blit(w.img.disk[w.x], off % BSIZE, p[..n1])]);
      && AppendLoop(img, files[f], off, p) == AppendLoop(img1, w.addrs, off + n1, p[n1..])
      && Clean(lo, img1, files[f := w.addrs]) && !img1.dead && |img1.disk| == |img.disk|
      && Need(off) <= Need(off + n1) && img1.freeblock == img.freeblock + (Need(off + n1) - Need(off))
      && Dense(img1.disk, w.addrs, off + n1)
      && forall f' :: f' in files && f' != f ==> SameSlots(img.disk, img1.disk, files[f'])
  {
    hide GrowBlock, Clean, FileBlock, SameSlots, SameBytes, Spliced, AppendLoop, Dense, Need;
    CleanSized(lo, img, files);
    AppendTurn(lo, img, files, f, off, p[..n1]);
    TurnSlots(lo, img, files, f, off, p[..n1]);
    LoopGoesOn(img, files[f], off, p, n1);
    var w := GrowBlock(img, files[f], off / BSIZE);
    var disk1 := w.img.disk[w.x := Blit(w.img.disk[w.x], off % BSIZE, p[..n1])];
    assert SameSlots(w.img.disk, disk1, files[f := w.addrs][f]);
    DenseSame(w.img.disk, w.addrs, disk1, off + 1);
    TurnWithin(off, |p|, n1);
    DenseWithin(disk1, w.addrs, off + 1, off + n1);
    OthersThen(img, files, f, off / BSIZE, w, disk1);
  }

  lemma TurnWithin(off: nat, len: nat, n1: nat)
    requires n1 == Min(len, (off / BSIZE + 1) * BSIZE - off) && len > 0 && off < MAXBYTES
    ensures 0 < n1 && off + n1 <= MAXBYTES && (off + 1 - 1) / BSIZE == (off + n1 - 1) / BSIZE
  {}

  lemma LoopGoesOn(img: Img, a: Addrs, off: nat, p: seq<byte>, n1: nat)
    requires |img.disk| < U32 && off < MAXBYTES && p != [] && n1 == Min(|p|, (off / BSIZE + 1) * BSIZE - off)
    requires !GrowBlock(img, a, off / BSIZE).img.dead && GrowBlock(img, a, off / BSIZE).x < |img.disk|
    ensures 0 < n1 <= |p| && off % BSIZE + n1 <= BSIZE
    ensures var w := GrowBlock(img, a, off / BSIZE);
      AppendLoop(img, a, off, p)
      == AppendLoop(w.img.(disk := w.img.disk[w.x := Blit(w.img.disk[w.x], off % BSIZE, p[..n1])]),
                    w.addrs, off + n1, p[n1..])
  {
    hide GrowBlock;
  }

  ghost predicate AllSlots(disk: Disk, disk': Disk, files: Files) {
    forall f :: f in files ==> SameSlots(disk, disk', files[f])
  }

  /** Writing the data moves no block. */
  lemma TurnSlots(lo: nat, img: Img, files: Files, f: nat, off: nat, chunk: seq<byte>)
    requires Clean(lo, img, files) && f in files && off / BSIZE < MAXFILE && off % BSIZE + |chunk| <= BSIZE
    requires !GrowBlock(img, files[f], off / BSIZE).img.dead
    ensures var w := GrowBlock(img, files[f], off / BSIZE);
      && w.x < |w.img.disk|
      && var disk1 := w.img.disk[w.x := Blit(w.img.disk[w.x], off % BSIZE, chunk)];
         AllSlots(w.img.disk, disk1, files[f := w.addrs])
  {
    hide GrowBlock, Clean, FileBlock, SameSlots, ByteAt;
    CleanSized(lo, img, files);
    GrowKeeps(lo, img, files, f, off / BSIZE);
    var w := GrowBlock(img, files[f], off / BSIZE);
    CleanSound(lo, w.img, files[f := w.addrs]);
    DataWrite(w.img.disk, lo, Span(lo, w.img.freeblock), files[f := w.addrs], f, off / BSIZE,
              Blit(w.img.disk[w.x], off % BSIZE, chunk));
  }

  lemma OthersThen(img: Img, files: Files, f: nat, fbn: nat, w: Grown, disk1: Disk)
    requires f in files && forall f' :: f' in files && f' != f ==> SameSlots(img.disk, w.img.disk, files[f'])
    requires AllSlots(w.img.disk, disk1, files[f := w.addrs])
    ensures forall f' :: f' in files && f' != f ==> SameSlots(img.disk, disk1, files[f'])
  {
    hide Slot;
    forall f' | f' in files && f' != f ensures SameSlots(img.disk, disk1, files[f']) {
      assert SameSlots(w.img.disk, disk1, files[f := w.addrs][f']);
    }
  }

  lemma CleanSound(lo: nat, img: Img, files: Files)
    requires Clean(lo, img, files)
    ensures Sound(img.disk, lo, Span(lo, img.freeblock), files)
  {
    hide Sound;
  }

  lemma FilledJoin(img: Img, img1: Img, files: Files, f: nat, a1: Addrs, off: nat, mid: nat, end: nat, r: Appended)
    requires f in files && Need(off) <= Need(mid) <= Need(end)
    requires img1.freeblock == img.freeblock + (Need(mid) - Need(off))
    requires forall f' :: f' in files && f' != f ==> SameSlots(img.disk, img1.disk, files[f'])
    requires Filled(img1, files[f := a1], f, mid, end, r)
    ensures Filled(img, files, f, off, end, r)
  {
    hide Slot, Dense, Need;
    forall f' | f' in files && f' != f ensures SameSlots(img.disk, r.img.disk, files[f']) {
      assert SameSlots(img1.disk, r.img.disk, files[f := a1][f']);
    }
  }
}
