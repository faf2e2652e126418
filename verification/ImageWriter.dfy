/** The image builder as it runs (mkxv6.c): counters and sectors updated in place. */
module ImageWriter {
  import opened Layout
  import opened Bytes
  import opened Volumes
  import opened BlockMap
  import opened Inodes
  import opened Directory
  import opened Builder
  import opened Stamping
  import opened Image
  import opened MkFs

  /** Two states that agree on whether the builder has given up and, if it has not,
      on everything. */
  predicate Agree(a: Img, b: Img) { (a.dead <==> b.dead) && (!a.dead ==> a == b) }

  /** The globals of the program; `dead` once `exit(1)` or `assert` has ended it. */
  class Writer {
    const g: Geometry
    var disk: Disk
    var freeblock: nat
    var freeinode: nat
    var dead: bool

    ghost function I(): Img
      reads this
    {
      Img(disk, freeblock, dead)
    }

    ghost predicate Alive()
      reads this
    {
      Fits(g, disk) && !dead
    }

    /** Zeroed sectors, and the superblock. */
    constructor (g: Geometry, sb: Block)
      requires g.Formed()
      ensures this.g == g && Alive() && I() == Img(Blank(g, sb), g.DataStart(), false) && freeinode == ROOTINO
    {
      this.g, disk := g, seq(g.size, i => ZeroBlock())[0 := sb];
      freeblock, freeinode, dead := g.DataStart(), ROOTINO, false;
    }

    method WriteInode(inum: nat, di: Dinode)
      requires Fits(g, disk) && inum < TableSize(g)
      modifies this`disk
      ensures disk == Winode(g, old(disk), inum, di)
    {
      var bn := InodeBlock(g, inum);
      var buf := disk[bn];
      buf := Blit(buf, DISIZE * (inum % IPB), Encode(di));
      disk := disk[bn := buf];
    }

    /** `ialloc`. */
    method AllocInode(kind: ushort) returns (inum: nat)
      requires Alive() && freeinode < TableSize(g)
      modifies this
      ensures inum == old(freeinode) && Mk(I(), freeinode) == NewInode(g, old(Mk(I(), freeinode)), kind) && Alive()
    {
      inum := freeinode;
      freeinode := freeinode + 1;
      WriteInode(inum, Dinode(kind, 0, 0, 1, 0, NoAddrs()));
    }

    /** The block of a file that a turn of `iappend` writes to. A new block is read
        before it is used, and a read past the end of the image ends the program. */
    method Grow(a: Addrs, fbn: nat) returns (a': Addrs, x: uint)
      requires Alive() && fbn < MAXFILE && |disk| < U32
      modifies this`disk, this`freeblock, this`dead
      ensures |disk| == old(|disk|)
      ensures var w := GrowBlock(old(I()), a, fbn);
        if dead then w.img.dead else w == Grown(I(), a', x)
    {
      hide Word, PutWord;
      a', x := a, 0;
      if fbn < NDIRECT {
        if a'[fbn] == 0 {
          if freeblock >= |disk| { dead := true; return; }
          a' := a'[fbn := freeblock];
          freeblock := freeblock + 1;
        }
        x := a'[fbn];
      } else {
        if a'[NDIRECT] == 0 {
          if freeblock >= |disk| { dead := true; return; }
          a' := a'[NDIRECT := freeblock];
          freeblock := freeblock + 1;
        }
        var r := a'[NDIRECT];
        if r == 0 || r >= |disk| { dead := true; return; }
        var indirect := disk[r];
        x := Word(indirect, fbn - NDIRECT);
        if x == 0 {
          if freeblock >= |disk| { dead := true; return; }
          x := freeblock;
          indirect := PutWord(indirect, fbn - NDIRECT, x);
          freeblock := freeblock + 1;
          disk := disk[r := indirect];
        }
      }
    }

    /** `iappend`; `rest` is the program's `p` and `n`. */
    method Append(inum: nat, p: seq<byte>)
      requires Alive() && inum < TableSize(g)
      modifies this`disk, this`freeblock, this`dead
      ensures Agree(I(), IAppend(g, old(I()), inum, p)) && Fits(g, disk)
    {
      hide AppendLoop, GrowBlock, Blit, DinodeAt, Winode;
      var di := DinodeAt(g, disk, inum);
      var off: nat, addrs, rest := di.size, di.addrs, p;
      while |rest| > 0
        invariant Alive()
        invariant AppendLoop(I(), addrs, off, rest) == AppendLoop(old(I()), di.addrs, di.size, p)
      {
        AppendLoopTurn(I(), addrs, off, rest);
        var fbn := off / BSIZE;
        if fbn >= MAXFILE {
          dead := true;
          return;
        }
        var x;
        addrs, x := Grow(addrs, fbn);
        if dead || x >= |disk| {
          dead := true;
          return;
        }
        var n1 := Min(|rest|, (fbn + 1) * BSIZE - off);
        var buf := disk[x];
        buf := Blit(buf, off % BSIZE, rest[..n1]);
        disk := disk[x := buf];
        rest, off := rest[n1..], off + n1;
      }
      AppendLoopEnd(I(), addrs, off);
      WriteInode(inum, di.(addrs := addrs, size := off % U32));
    }

    /** The `read` loop of `main`. */
    method AppendAll(inum: nat, chunks: seq<seq<byte>>)
      requires Alive() && inum < TableSize(g)
      modifies this`disk, this`freeblock, this`dead
      ensures Agree(I(), IAppendAll(g, old(I()), inum, chunks)) && Fits(g, disk)
    {
      hide IAppend, Fits;
      ghost var img := I();
      var i := 0;
      while i < |chunks|
        invariant 0 <= i <= |chunks| && Alive()
        invariant I() == IAppendAll(g, img, inum, chunks[..i])
      {
        Append(inum, chunks[i]);
        assert chunks[..i + 1][..i] == chunks[..i];
        i := i + 1;
        if dead {
          AllStaysDead(g, img, inum, chunks, i);
          return;
        }
      }
      assert chunks[..i] == chunks;
    }

    /** One turn of the loop of `main`. */
    method Add(item: Item)
      requires Alive() && 1 < freeinode < TableSize(g)
      modifies this
      ensures Agree(I(), AddItem(g, old(Mk(I(), freeinode)), item).img) && Fits(g, disk)
      ensures !dead ==> freeinode == old(freeinode) + 1
    {
      hide IAppend, IAppendAll, Fits, EntryBytes;
      if |item.name| > DIRSIZ {
        dead := true;
        return;
      }
      var inum := AllocInode(item.Kind());
      ghost var img := I();
      match item {
        case DirItem(_) =>
          var e1, e2 := EntryBytes(inum, Dot()), EntryBytes(ROOTINO, DotDot());
          Append(inum, e1);
          StaysDead(g, IAppend(g, img, inum, e1), inum, e2);
          if !dead {
            Append(inum, e2);
          }
          img := IAppend(g, IAppend(g, img, inum, e1), inum, e2);
        case FileItem(_, chunks) =>
          AppendAll(inum, chunks);
          img := IAppendAll(g, img, inum, chunks);
      }
      StaysDead(g, img, ROOTINO, EntryBytes(inum, item.name));
      if !dead {
        Append(ROOTINO, EntryBytes(inum, item.name));
      }
    }

    /** The end of `main`: the root's size, and the bitmap (`balloc`). */
    method Close()
      requires Alive()
      modifies this`disk, this`dead
      ensures Agree(I(), Finish(g, old(I())))
    {
      hide Bits, Winode, DinodeAt;
      var di := DinodeAt(g, disk, ROOTINO);
      var off := di.size;
      off := RoundUp(off) % U32;
      WriteInode(ROOTINO, di.(size := off));
      if freeblock >= BPB {
        dead := true;
        return;
      }
      var buf := new byte[BSIZE];
      FillBits(buf, freeblock);
      disk := disk[g.bmapstart := buf[..]];
    }
  }

  /** One turn of the loop of `iappend`. */
  lemma AppendLoopTurn(img: Img, a: Addrs, off: nat, p: seq<byte>)
    requires |img.disk| < U32 && p != []
    ensures off / BSIZE >= MAXFILE ==> AppendLoop(img, a, off, p).img.dead
    ensures off / BSIZE < MAXFILE ==>
      var w, n1 := GrowBlock(img, a, off / BSIZE), Min(|p|, (off / BSIZE + 1) * BSIZE - off);
      && 0 < n1 <= |p| && off % BSIZE + n1 <= BSIZE
      && (w.img.dead || w.x >= |w.img.disk| ==> AppendLoop(img, a, off, p).img.dead)
      && (!w.img.dead && w.x < |w.img.disk| ==>
            AppendLoop(img, a, off, p)
            == AppendLoop(w.img.(disk := w.img.disk[w.x := Blit(w.img.disk[w.x], off % BSIZE, p[..n1])]),
                          w.addrs, off + n1, p[n1..]))
  {
    hide GrowBlock, Blit;
  }

  lemma AppendLoopEnd(img: Img, a: Addrs, off: nat)
    requires |img.disk| < U32
    ensures AppendLoop(img, a, off, []) == Appended(img, a, off)
  {}

  lemma StaysDead(g: Geometry, img: Img, inum: nat, p: seq<byte>)
    requires Fits(g, img.disk) && inum < TableSize(g)
    ensures img.dead ==> IAppend(g, img, inum, p).dead
  {}

  lemma {:induction false} AllStaysDead(g: Geometry, img: Img, inum: nat, chunks: seq<seq<byte>>, i: nat)
    requires Fits(g, img.disk) && inum < TableSize(g) && i <= |chunks|
    requires IAppendAll(g, img, inum, chunks[..i]).dead
    ensures IAppendAll(g, img, inum, chunks).dead
  {
    hide IAppend, Fits;
    if i < |chunks| {
      var front := chunks[..|chunks| - 1];
      assert front[..i] == chunks[..i];
      AllStaysDead(g, img, inum, front, i);
      StaysDead(g, IAppendAll(g, img, inum, front), inum, chunks[|chunks| - 1]);
    } else {
      assert chunks[..i] == chunks;
    }
  }

  lemma {:induction false} ItemsStayDead(g: Geometry, sb: Block, items: seq<Item>, i: nat)
    requires g.Formed() && 2 + |items| <= TableSize(g) && i <= |items|
    requires AddItems(g, sb, items[..i]).img.dead
    ensures AddItems(g, sb, items).img.dead
  {
    hide AddItem, Start;
    if i < |items| {
      var front := items[..|items| - 1];
      assert front[..i] == items[..i];
      ItemsStayDead(g, sb, front, i);
      if !AddItems(g, sb, items).img.dead { ItemAlive(g, AddItems(g, sb, front), items[|items| - 1]); }
    } else {
      assert items[..i] == items;
    }
  }

  /** `main`, from the zeroed sectors to the bitmap. */
  method Make(g: Geometry, sb: Block, items: seq<Item>) returns (w: Writer)
    requires g.Formed() && 2 + |items| <= TableSize(g)
    ensures fresh(w) && w.g == g && Agree(w.I(), MakeImage(g, sb, items))
  {
    hide IAppend, AddItem, EntryBytes, Finish, NewInode, Fits;
    w := new Writer(g, sb);
    FitsTable(g, w.disk);
    var rootino := w.AllocInode(T_DIR);
    ghost var img := w.I();
    var e1, e2 := EntryBytes(rootino, Dot()), EntryBytes(rootino, DotDot());
    w.Append(rootino, e1);
    StaysDead(g, IAppend(g, img, rootino, e1), rootino, e2);
    if !w.dead {
      w.Append(rootino, e2);
    }
    var i := 0;
    assert items[..0] == [];
    while i < |items| && !w.dead
      invariant 0 <= i <= |items| && w.g == g && Fits(g, w.disk) && fresh(w)
      invariant Agree(w.I(), AddItems(g, sb, items[..i]).img)
      invariant !w.dead ==> w.freeinode == i + 2
    {
      assert items[..i + 1][..i] == items[..i];
      w.Add(items[i]);
      i := i + 1;
    }
    assert items[..|items|] == items;
    if !w.dead {
      w.Close();
    } else {
      ItemsStayDead(g, sb, items, i);
      FinishDead(g, AddItems(g, sb, items).img);
    }
  }

  lemma FinishDead(g: Geometry, img: Img)
    requires Fits(g, img.disk) && img.dead
    ensures Finish(g, img).dead
  {}

  lemma FitsTable(g: Geometry, disk: Disk)
    requires Fits(g, disk)
    ensures 2 < TableSize(g)
  {}
}
