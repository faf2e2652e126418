/** Byte-level records: little-endian words, bitmap bits, directory entries and
    inode records, each with the law that says what a write makes visible. */
module Bytes {
  import opened Layout

  // ----- byte ranges -----

  /** `memcpy(b + o, s, |s|)`. */
  function Blit(b: Block, o: nat, s: seq<byte>): (r: Block)
    requires o + |s| <= BSIZE
  {
    b[..o] + s + b[o + |s|..]
  }

  lemma BlitSlice(b: Block, o: nat, s: seq<byte>, p: nat, n: nat)
    requires o + |s| <= BSIZE && p + n <= BSIZE
    ensures p + n <= o || o + |s| <= p ==> Blit(b, o, s)[p..p + n] == b[p..p + n]
    ensures p == o && n == |s| ==> Blit(b, o, s)[p..p + n] == s
  {}

  // ----- little-endian integers -----

  function Le16(s: seq<byte>): ushort
    requires |s| == 2
  {
    s[0] as int + 0x100 * (s[1] as int)
  }

  function ToLe16(w: ushort): seq<byte> {
    [w % 0x100, w / 0x100]
  }

  function Le32(s: seq<byte>): uint
    requires |s| == 4
  {
    s[0] as int + 0x100 * (s[1] as int + 0x100 * (s[2] as int + 0x100 * (s[3] as int)))
  }

  function ToLe32(w: uint): seq<byte> {
    [w % 0x100, w / 0x100 % 0x100, w / 0x1_0000 % 0x100, w / 0x100_0000]
  }

  lemma Le32Of(w: uint)
    ensures Le32(ToLe32(w)) == w
  {
    assert w / 0x1_0000 == w / 0x100 / 0x100;
    assert w / 0x100_0000 == w / 0x1_0000 / 0x100;
  }

  /** Entry `i` of a block seen as an array of 32-bit words. */
  function Word(b: Block, i: nat): uint
    requires i < NINDIRECT
  {
    Le32(b[4 * i..4 * i + 4])
  }

  function PutWord(b: Block, i: nat, w: uint): Block
    requires i < NINDIRECT
  {
    Blit(b, 4 * i, ToLe32(w))
  }

  lemma WordPut(b: Block, i: nat, w: uint, j: nat)
    requires i < NINDIRECT && j < NINDIRECT
    ensures Word(PutWord(b, i, w), j) == if i == j then w else Word(b, j)
  {
    BlitSlice(b, 4 * i, ToLe32(w), 4 * j, 4);
    Le32Of(w);
  }

  lemma WordZero(i: nat)
    requires i < NINDIRECT
    ensures Word(ZeroBlock(), i) == 0
  {}

  // ----- bits -----

  predicate Bit(w: nat, k: nat) {
    if k == 0 then w % 2 == 1 else Bit(w / 2, k - 1)
  }

  /** `w | (1u << k)`. */
  function SetBit(w: nat, k: nat): nat {
    if k == 0 then w / 2 * 2 + 1 else w % 2 + 2 * SetBit(w / 2, k - 1)
  }

  /** `w & ~(1u << k)`. */
  function ClearBit(w: nat, k: nat): nat {
    if k == 0 then w / 2 * 2 else w % 2 + 2 * ClearBit(w / 2, k - 1)
  }

  lemma {:induction false} BitSet(w: nat, k: nat, j: nat)
    ensures Bit(SetBit(w, k), j) == (j == k || Bit(w, j))
  {
    if k == 0 || j == 0 {
    } else {
      BitSet(w / 2, k - 1, j - 1);
    }
  }

  lemma {:induction false} BitClear(w: nat, k: nat, j: nat)
    ensures Bit(ClearBit(w, k), j) == (j != k && Bit(w, j))
  {
    if k == 0 || j == 0 {
    } else {
      BitClear(w / 2, k - 1, j - 1);
    }
  }

  function Pow2(k: nat): nat { if k == 0 then 1 else 2 * Pow2(k - 1) }

  /** Setting or clearing a bit of an n-bit number leaves an n-bit number. */
  lemma {:induction false} BitWidth(w: nat, k: nat, n: nat)
    requires k < n && w < Pow2(n)
    ensures SetBit(w, k) < Pow2(n) && ClearBit(w, k) < Pow2(n)
  {
    assert Pow2(n) == 2 * Pow2(n - 1) && w / 2 < Pow2(n - 1);
    if k == 0 {
    } else {
      BitWidth(w / 2, k - 1, n - 1);
    }
  }

  lemma Pow2Of32()
    ensures Pow2(8) == 0x100 && Pow2(32) == U32
  {
    assert Pow2(8) == 256;
    assert Pow2(16) == 0x1_0000;
    assert Pow2(24) == 0x100_0000;
  }
}
