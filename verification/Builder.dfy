/** The image builder's file append (mkxv6.c, `iappend`): blocks are handed out in
    order from a counter, straight from the zeroed image. */
module Builder {
  import opened Layout
  import opened Bytes
  import opened Volumes
  import opened BlockMap
  import opened FileData

  /** The blocks handed out so far. */
  function Span(lo: nat, hi: nat): (s: set<nat>)
    ensures forall b: nat :: b in s <==> lo <= b < hi
  {
    if hi <= lo then {} else Span(lo, hi - 1) + {hi - 1}
  }

  /** The image and the next free block; `dead` once the builder has given up. */
  datatype Img = Img(disk: Disk, freeblock: nat, dead: bool)

  datatype Grown = Grown(img: Img, addrs: Addrs, x: uint)

  /** Find or hand out block `fbn` of a file. Reading or writing past the end of
      the image ends the program. */
  function GrowBlock(img: Img, a: Addrs, fbn: nat): (w: Grown)
    requires fbn < MAXFILE && |img.disk| < U32
    ensures |w.img.disk| == |img.disk|
  {
    var fb := img.freeblock;
    if fbn < NDIRECT then
      if a[fbn] != 0 then Grown(img, a, a[fbn])
      else if fb >= |img.disk| then Grown(img.(dead := true), a, 0)
      else Grown(img.(freeblock := fb + 1), a[fbn := fb], fb)
    else
      var (a1, fb1) := if a[ROOT] == 0 && fb < |img.disk| then (a[ROOT := fb], fb + 1) else (a, fb);
      var r := a1[ROOT];
      if r == 0 || r >= |img.disk| then Grown(img.(dead := true), a, 0)
      else
        var c := Word(img.disk[r], fbn - NDIRECT);
        if c != 0 then Grown(img.(freeblock := fb1), a1, c)
        else if fb1 >= |img.disk| then Grown(img.(dead := true), a, 0)
        else Grown(img.(freeblock := fb1 + 1, disk := WithChild(img.disk, r, fbn - NDIRECT, fb1)), a1, fb1)
  }

  datatype Appended = Appended(img: Img, addrs: Addrs, off: nat)

  /** The loop of `iappend`. */
  function AppendLoop(img: Img, a: Addrs, off: nat, p: seq<byte>): (r: Appended)
    requires |img.disk| < U32
    ensures |r.img.disk| == |img.disk|
    decreases |p|
  {
    if p == [] then Appended(img, a, off)
    else if off / BSIZE >= MAXFILE then Appended(img.(dead := true), a, off)
    else
      var w := GrowBlock(img, a, off / BSIZE);
      if w.img.dead || w.x >= |w.img.disk| then Appended(w.img.(dead := true), a, off)
      else
        var n1 := Min(|p|, (off / BSIZE + 1) * BSIZE - off);
        var blk := Blit(w.img.disk[w.x], off % BSIZE, p[..n1]);
        AppendLoop(w.img.(disk := w.img.disk[w.x := blk]), w.addrs, off + n1, p[n1..])
  }

  // ----- the builder's invariant -----

  /** Files refer to blocks handed out, each to its own; all other data blocks are
      still zero. */
  ghost predicate Clean(lo: nat, img: Img, files: Files) {
    && 0 < lo <= img.freeblock <= |img.disk| < U32
    && Sound(img.disk, lo, Span(lo, img.freeblock), files)
    && forall b :: img.freeblock <= b < |img.disk| ==> img.disk[b] == ZeroBlock()
  }

  lemma CleanSized(lo: nat, img: Img, files: Files)
    requires Clean(lo, img, files)
    ensures 0 < lo <= img.freeblock <= |img.disk| < U32
  {}

  /** The next block to hand out is fresh. */
  lemma NextIsFresh(lo: nat, img: Img, files: Files)
    requires Clean(lo, img, files) && img.freeblock < |img.disk|
    ensures Sound(img.disk, lo, Span(lo, img.freeblock + 1), files)
    ensures Fresh(img.disk, lo, Span(lo, img.freeblock + 1), files, img.freeblock)
  {
    hide Slot;
  }

  /** What handing out a block leaves. */
  ghost predicate GrewWell(lo: nat, img: Img, files: Files, f: nat, fbn: nat, w: Grown) {
    && f in files && fbn < MAXFILE
    && Clean(lo, w.img, files[f := w.addrs]) && |w.img.disk| == |img.disk|
    && img.freeblock <= w.img.freeblock
    && (forall b :: 0 <= b < lo ==> w.img.disk[b] == img.disk[b])
    && SameContents(img.disk, files, w.img.disk, files[f := w.addrs])
    && w.x == FileBlock(w.img.disk, w.addrs, fbn) != 0 && lo <= w.x < |w.img.disk|
  }

  lemma GrewDirect(lo: nat, img: Img, files: Files, f: nat, fbn: nat)
    requires Clean(lo, img, files) && f in files && fbn < NDIRECT && !GrowBlock(img, files[f], fbn).img.dead
    ensures GrewWell(lo, img, files, f, fbn, GrowBlock(img, files[f], fbn))
  {
    hide ByteAt, Word;
    var a := files[f];
    if a[fbn] == 0 {
      NextIsFresh(lo, img, files);
      Attach(img.disk, lo, Span(lo, img.freeblock + 1), files, f, fbn, img.freeblock);
    } else {
      assert files[f := a] == files && Slot(img.disk, a, fbn) == a[fbn];
    }
  }

  lemma GrewChild(lo: nat, img: Img, files: Files, f: nat, fbn: nat)
    requires Clean(lo, img, files) && f in files && NDIRECT <= fbn < MAXFILE && files[f][ROOT] != 0
    requires !GrowBlock(img, files[f], fbn).img.dead
    ensures GrewWell(lo, img, files, f, fbn, GrowBlock(img, files[f], fbn))
  {
    hide ByteAt, Word, PutWord;
    var a, j := files[f], fbn - NDIRECT;
    assert files[f := a] == files && Slot(img.disk, a, ROOT) == a[ROOT];
    assert Slot(img.disk, a, j + 13) == Word(img.disk[a[ROOT]], j);
    if Word(img.disk[a[ROOT]], j) == 0 {
      NextIsFresh(lo, img, files);
      AttachChild(img.disk, lo, Span(lo, img.freeblock + 1), files, f, j, img.freeblock);
    }
  }

  /** With the root just attached, growing goes on as if it had always been there. */
  lemma GrewRoot(lo: nat, img: Img, files: Files, f: nat, fbn: nat)
    requires Clean(lo, img, files) && f in files && NDIRECT <= fbn < MAXFILE && files[f][ROOT] == 0
    requires !GrowBlock(img, files[f], fbn).img.dead
    ensures GrewWell(lo, img, files, f, fbn, GrowBlock(img, files[f], fbn))
  {
    hide ByteAt, Word, PutWord, Slot, WithChild;
    NextIsFresh(lo, img, files);
    Attach(img.disk, lo, Span(lo, img.freeblock + 1), files, f, ROOT, img.freeblock);
    var img1 := img.(freeblock := img.freeblock + 1);
    var files1 := files[f := files[f][ROOT := img.freeblock]];
    var w := GrowBlock(img, files[f], fbn);
    assert w == GrowBlock(img1, files1[f], fbn);
    GrewChild(lo, img1, files1, f, fbn);
    assert files1[f := w.addrs] == files[f := w.addrs];
    SameContentsTrans(img.disk, files, img1.disk, files1, w.img.disk, files[f := w.addrs]);
  }

  /** Handing out a block keeps the builder's invariant and everything that is read. */
  lemma GrowKeeps(lo: nat, img: Img, files: Files, f: nat, fbn: nat)
    requires Clean(lo, img, files) && f in files && fbn < MAXFILE && !GrowBlock(img, files[f], fbn).img.dead
    ensures GrewWell(lo, img, files, f, fbn, GrowBlock(img, files[f], fbn))
  {
    hide GrewWell, GrowBlock, Clean;
    if fbn < NDIRECT {
      GrewDirect(lo, img, files, f, fbn);
    } else if files[f][ROOT] != 0 {
      GrewChild(lo, img, files, f, fbn);
    } else {
      GrewRoot(lo, img, files, f, fbn);
    }
  }

  // ----- appending -----

  /** What an append of `p` at `off` leaves. */
  ghost predicate AppendedWell(lo: nat, img: Img, files: Files, f: nat, off: nat, p: seq<byte>, r: Appended) {
    && f in files && r.off == off + |p|
    && Clean(lo, r.img, files[f := r.addrs]) && |r.img.disk| == |img.disk|
    && img.freeblock <= r.img.freeblock
    && (forall b :: 0 <= b < lo ==> r.img.disk[b] == img.disk[b])
    && (forall f' :: f' in files && f' != f ==> SameBytes(img.disk, files[f'], r.img.disk, files[f']))
    && Spliced(img.disk, files[f], r.img.disk, r.addrs, off, p)
    && (p != [] ==> off + |p| <= MAXBYTES)
  }

  /** One turn of the loop. */
  lemma AppendTurn(lo: nat, img: Img, files: Files, f: nat, off: nat, chunk: seq<byte>)
    requires Clean(lo, img, files) && f in files && off / BSIZE < MAXFILE
    requires !GrowBlock(img, files[f], off / BSIZE).img.dead && off % BSIZE + |chunk| <= BSIZE
    ensures var w := GrowBlock(img, files[f], off / BSIZE);
      && w.x < |w.img.disk|
      && var img1 := w.img.(disk := w.img.disk[w.x := Blit(w.img.disk[w.x], off % BSIZE, chunk)]);
      && Clean(lo, img1, files[f := w.addrs]) && |img1.disk| == |img.disk| && img.freeblock <= img1.freeblock
      && (forall b :: 0 <= b < lo ==> img1.disk[b] == img.disk[b])
      && (forall f' :: f' in files && f' != f ==> SameBytes(img.disk, files[f'], img1.disk, files[f']))
      && Spliced(img.disk, files[f], img1.disk, w.addrs, off, chunk)
  {
    hide GrowBlock, Slot, ByteAt, FileBlock;
    GrowKeeps(lo, img, files, f, off / BSIZE);
    var w, i := GrowBlock(img, files[f], off / BSIZE), off / BSIZE;
    var files1 := files[f := w.addrs];
    var blk := Blit(w.img.disk[w.x], off % BSIZE, chunk);
    DataWrite(w.img.disk, lo, Span(lo, w.img.freeblock), files1, f, i, blk);
    var d2 := w.img.disk[w.x := blk];
    InSpan(lo, w.img, files1, f, i);
    forall f' | f' in files && f' != f ensures SameBytes(img.disk, files[f'], d2, files[f']) {
      assert SameBytes(w.img.disk, files1[f'], d2, files1[f']);
      assert SameBytes(img.disk, files[f'], w.img.disk, files1[f']);
    }
    assert SameBytes(img.disk, files[f], w.img.disk, files1[f]);
    assert i * BSIZE + off % BSIZE == off;
    ChunkBytes(img.disk, files[f], w.img.disk, d2, w.addrs, i, off % BSIZE, chunk, w.x);
  }

  lemma InSpan(lo: nat, img: Img, files: Files, f: nat, i: nat)
    requires Clean(lo, img, files) && f in files && i < MAXFILE && FileBlock(img.disk, files[f], i) != 0
    ensures lo <= FileBlock(img.disk, files[f], i) < img.freeblock
  {
    hide Slot;
    assert FileBlock(img.disk, files[f], i) == Slot(img.disk, files[f], DataSlot(i));
  }

  /** An append lays its bytes over the file at the old size, and leaves every other
      file, and everything outside the data region, alone. */
  lemma {:induction false} AppendLoopWell(lo: nat, img: Img, files: Files, f: nat, off: nat, p: seq<byte>)
    requires Clean(lo, img, files) && f in files && !AppendLoop(img, files[f], off, p).img.dead
    ensures AppendedWell(lo, img, files, f, off, p, AppendLoop(img, files[f], off, p))
    decreases |p|
  {
    hide GrowBlock, Slot, ByteAt, FileBlock, Clean, Spliced, AppendedWell;
    CleanSized(lo, img, files);
    if p == [] {
      AppendedNone(lo, img, files, f, off);
    } else {
      if off / BSIZE < MAXFILE && !GrowBlock(img, files[f], off / BSIZE).img.dead {
        var n1 := Min(|p|, (off / BSIZE + 1) * BSIZE - off);
        AppendTurn(lo, img, files, f, off, p[..n1]);
        var w := GrowBlock(img, files[f], off / BSIZE);
        var img1 := w.img.(disk := w.img.disk[w.x := Blit(w.img.disk[w.x], off % BSIZE, p[..n1])]);
        AppendLoopWell(lo, img1, files[f := w.addrs], f, off + n1, p[n1..]);
        AppendJoin(lo, img, img1, files, f, w.addrs, off, p, n1, AppendLoop(img1, w.addrs, off + n1, p[n1..]));
      } else {
        DeadStays(img, files[f], off, p);
      }
    }
  }

  lemma DeadStays(img: Img, a: Addrs, off: nat, p: seq<byte>)
    requires |img.disk| < U32 && p != []
    requires off / BSIZE >= MAXFILE || GrowBlock(img, a, off / BSIZE).img.dead
    ensures AppendLoop(img, a, off, p).img.dead
  {
    hide GrowBlock;
  }

  lemma AppendedNone(lo: nat, img: Img, files: Files, f: nat, off: nat)
    requires Clean(lo, img, files) && f in files
    ensures AppendedWell(lo, img, files, f, off, [], Appended(img, files[f], off))
  {
    hide ByteAt, Slot;
    assert files[f := files[f]] == files;
  }

  lemma AppendJoin(lo: nat, img: Img, img1: Img, files: Files, f: nat, a1: Addrs, off: nat, p: seq<byte>, m: nat,
      r: Appended)
    requires f in files && 0 < m <= |p| && off % BSIZE + m <= BSIZE && off / BSIZE < MAXFILE
    requires |img1.disk| == |img.disk| && img.freeblock <= img1.freeblock && lo <= |img.disk|
    requires forall b :: 0 <= b < lo ==> img1.disk[b] == img.disk[b]
    requires forall f' :: f' in files && f' != f ==> SameBytes(img.disk, files[f'], img1.disk, files[f'])
    requires Spliced(img.disk, files[f], img1.disk, a1, off, p[..m])
    requires AppendedWell(lo, img1, files[f := a1], f, off + m, p[m..], r)
    ensures AppendedWell(lo, img, files, f, off, p, r)
  {
    hide ByteAt, Slot, Clean;
    var files1 := files[f := a1];
    assert files1[f := r.addrs] == files[f := r.addrs];
    forall f' | f' in files && f' != f ensures SameBytes(img.disk, files[f'], r.img.disk, files[f']) {
      assert files1[f'] == files[f'];
      assert SameBytes(img1.disk, files1[f'], r.img.disk, files1[f']);
    }
    assert p[..m + |p[m..]|] == p && p[m..][..|p[m..]|] == p[m..];
    SpliceTwice(img.disk, files[f], img1.disk, a1, r.img.disk, r.addrs, off, off + m, p, m, |p[m..]|);
  }

  /** Each append is a sequence append on the file it names. */
  lemma AppendIsConcat(lo: nat, img: Img, files: Files, f: nat, size: nat, p: seq<byte>)
    requires Clean(lo, img, files) && f in files && ZeroTail(img.disk, files[f], size)
    requires !AppendLoop(img, files[f], size, p).img.dead
    ensures var r := AppendLoop(img, files[f], size, p);
      && r.off == size + |p|
      && Content(r.img.disk, r.addrs, r.off) == Content(img.disk, files[f], size) + p
      && ZeroTail(r.img.disk, r.addrs, r.off)
      && (forall f' :: f' in files && f' != f ==> SameBytes(img.disk, files[f'], r.img.disk, files[f']))
  {
    CleanSized(lo, img, files);
    hide AppendLoop, ByteAt, Clean;
    AppendLoopWell(lo, img, files, f, size, p);
    var r := AppendLoop(img, files[f], size, p);
    assert Content(r.img.disk, r.addrs, r.off) == Content(img.disk, files[f], size) + p;
  }
}
