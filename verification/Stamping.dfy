/** The builder's bitmap (mkxv6.c, `balloc`): written bit by bit into bytes, read by
    the kernel module as little-endian 32-bit words. */
module Stamping {
  import opened Layout
  import opened Bytes
  import opened Volumes
  import opened Builder

  /** A block whose first `n` bits are set, counting from bit 0 of byte 0. */
  function Bits(n: nat): (b: Block)
    requires n <= BPB
  {
    if n == 0 then ZeroBlock()
    else
      var b, i := Bits(n - 1), n - 1;
      ByteStaysByte(b[i / 8], i % 8);
      b[i / 8 := SetBit(b[i / 8], i % 8)]
  }

  lemma ByteStaysByte(x: byte, k: nat)
    requires k < 8
    ensures SetBit(x, k) < 0x100
  {
    Pow2Of32();
    BitWidth(x, k, 8);
  }

  lemma {:induction false} BitsAt(n: nat, j: nat)
    requires n <= BPB && j < BPB
    ensures Bit(Bits(n)[j / 8], j % 8) <==> j < n
  {
    hide SetBit, Bit;
    if n > 0 {
      BitsAt(n - 1, j);
      var i := n - 1;
      ByteStaysByte(Bits(i)[i / 8], i % 8);
      BitSet(Bits(i)[i / 8], i % 8, j % 8);
      SameBit(i, j);
    } else {
      ZeroBit(j % 8);
    }
  }

  lemma SameBit(i: nat, j: nat)
    ensures j / 8 == i / 8 && j % 8 == i % 8 <==> j == i
  {}

  lemma {:induction false} ZeroBit(k: nat)
    ensures !Bit(0, k)
  {
    if k == 0 {
    } else {
      ZeroBit(k - 1);
    }
  }

  /** Placing one number above another puts their bits side by side. */
  lemma {:induction false} BitSplit(lo: nat, hi: nat, n: nat, k: nat)
    requires lo < Pow2(n)
    ensures 0 <= Pow2(n) * hi
    ensures Bit(lo + Pow2(n) * hi, k) == if k < n then Bit(lo, k) else Bit(hi, k - n)
  {
    if n == 0 {
      assert lo + Pow2(n) * hi == hi;
    } else {
      var m := Pow2(n - 1) * hi;
      assert Pow2(n) * hi == 2 * m;
      if k > 0 {
        BitSplit(lo / 2, hi, n - 1, k - 1);
        assert (lo + 2 * m) / 2 == lo / 2 + m;
      } else {
        BitSplit(lo / 2, hi, n - 1, 0);
      }
    }
  }

  lemma ByteSplit(lo: byte, hi: nat, k: nat)
    ensures Bit(lo as int + 0x100 * hi, k) == if k < 8 then Bit(lo, k) else Bit(hi, k - 8)
  {
    hide Bit;
    Pow2Of32();
    BitSplit(lo, hi, 8, k);
  }

  /** The word view and the byte view of a bitmap agree. */
  lemma WordBits(b: Block, i: nat, k: nat)
    requires i < NINDIRECT && k < 32
    ensures Bit(Word(b, i), k) == Bit(b[4 * i + k / 8], k % 8)
  {
    var s := b[4 * i..4 * i + 4];
    var h3: nat := s[3];
    var h2: nat := s[2] as int + 0x100 * h3;
    var h1: nat := s[1] as int + 0x100 * h2;
    assert Word(b, i) == s[0] as int + 0x100 * h1;
    hide Bit, Word;
    ByteSplit(s[0], h1, k);
    if k >= 8 { ByteSplit(s[1], h2, k - 8); }
    if k >= 16 { ByteSplit(s[2], h3, k - 16); }
  }

  /** Stamped on a blank bitmap, the first `n` blocks of the image, and no others,
      read as used. */
  lemma StampUsed(g: Geometry, disk: Disk, n: nat)
    requires g.Formed() && |disk| == g.size && n <= BPB && n <= g.size
    requires forall b :: g.bmapstart < b < g.DataStart() ==> disk[b] == ZeroBlock()
    ensures UsedSet(g, disk[g.bmapstart := Bits(n)]) == Span(0, n)
  {
    hide Bit, Bits, Word;
    var disk' := disk[g.bmapstart := Bits(n)];
    forall b: nat | b < g.size ensures Used(g, disk', b) <==> b < n {
      BitmapInRange(g, b);
      var blk := disk'[BitmapBlock(g, b)];
      WordBits(blk, BitmapWord(b), b % 32);
      if b < BPB {
        BitIndex(b);
        BitsAt(n, b);
      } else {
        ZeroBit(b % 32 % 8);
      }
    }
  }

  lemma BitIndex(b: nat)
    requires b < BPB
    ensures 4 * BitmapWord(b) + b % 32 / 8 == b / 8 && b % 32 % 8 == b % 8
  {}

  /** The loop of `balloc`. */
  method FillBits(buf: array<byte>, used: nat)
    requires buf.Length == BSIZE && used <= BPB
    modifies buf
    ensures buf[..] == Bits(used)
  {
    hide SetBit;
    forall j | 0 <= j < BSIZE { buf[j] := 0; }
    var i := 0;
    assert buf[..] == ZeroBlock();
    while i < used
      invariant 0 <= i <= used
      invariant buf[..] == Bits(i)
    {
      ByteStaysByte(buf[i / 8], i % 8);
      ghost var before := buf[..];
      buf[i / 8] := SetBit(buf[i / 8], i % 8);
      assert buf[..] == before[i / 8 := buf[i / 8]];
      i := i + 1;
    }
  }
}
