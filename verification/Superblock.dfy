/** The superblock: the layout the image builder computes (mkxv6.c), the geometry
    check (check.cpp), and what mounting derives from it (super.c). */
module Superblock {
  import opened Layout
  import opened Bytes

  const FSMAGIC := 0x10203040

  /** `struct superblock`. */
  datatype Super = Super(magic: uint, size: uint, nblocks: uint, ninodes: uint, nlog: uint,
                         logstart: uint, inodestart: uint, bmapstart: uint)
  {
    function G(): Geometry { Geometry(size, inodestart, bmapstart) }

    /** First block after the bitmap, by the counts alone. */
    function MetaBlocks(): nat { 1 + nlog + InodeBlocks(ninodes) + BitmapBlocks(size) }
  }

  function ReadSuper(b: Block): Super {
    Super(Word(b, 0), Word(b, 1), Word(b, 2), Word(b, 3), Word(b, 4), Word(b, 5), Word(b, 6), Word(b, 7))
  }

  /** Block 0 as the builder writes it. */
  function SuperBlock(sb: Super): Block {
    Blit(ZeroBlock(), 0, ToLe32(sb.magic) + ToLe32(sb.size) + ToLe32(sb.nblocks) + ToLe32(sb.ninodes)
                         + ToLe32(sb.nlog) + ToLe32(sb.logstart) + ToLe32(sb.inodestart) + ToLe32(sb.bmapstart))
  }

  lemma ReadSuperBlock(sb: Super)
    ensures ReadSuper(SuperBlock(sb)) == sb
  {
    hide Le32;
    var b := SuperBlock(sb);
    assert b[0..4] == ToLe32(sb.magic) && b[4..8] == ToLe32(sb.size);
    assert b[8..12] == ToLe32(sb.nblocks) && b[12..16] == ToLe32(sb.ninodes);
    assert b[16..20] == ToLe32(sb.nlog) && b[20..24] == ToLe32(sb.logstart);
    assert b[24..28] == ToLe32(sb.inodestart) && b[28..32] == ToLe32(sb.bmapstart);
    Le32Of(sb.magic); Le32Of(sb.size); Le32Of(sb.nblocks); Le32Of(sb.ninodes);
    Le32Of(sb.nlog); Le32Of(sb.logstart); Le32Of(sb.inodestart); Le32Of(sb.bmapstart);
  }

  // ----- the check -----

  /** Log, inodes, bitmap and data follow one another from block 1 on, and end
      inside the image. */
  predicate Accepted(sb: Super) {
    && sb.logstart == 1
    && sb.inodestart == sb.logstart + sb.nlog
    && sb.bmapstart == sb.inodestart + InodeBlocks(sb.ninodes)
    && sb.bmapstart + BitmapBlocks(sb.size) + sb.nblocks <= sb.size
  }

  /** `struct xv6_checker_info`. */
  datatype Info = Info(logstart: uint, inodestart: uint, bmapstart: uint, datastart: uint,
                       logsize: uint, inodesize: uint, bmapsize: uint, datasize: uint, fssize: uint)

  /** `xv6_check_sb`: all the checks are made, even after one has failed. The
      running `size` is an `unsigned long`; the fields of `info` have 32 bits. */
  method CheckSb(sb: Super) returns (ok: bool, info: Info, tooLarge: bool)
    ensures ok <==> Accepted(sb)
    ensures info.logstart == 1 && info.logsize == sb.nlog && info.datasize == sb.nblocks
    ensures info.inodestart == sb.inodestart && info.inodesize == InodeBlocks(sb.ninodes)
    ensures info.bmapstart == sb.bmapstart && info.bmapsize == BitmapBlocks(sb.size)
    ensures tooLarge <==> sb.MetaBlocks() + sb.nblocks < sb.size
    ensures ok ==>
      && info.logstart + info.logsize == info.inodestart == sb.inodestart
      && info.inodestart + info.inodesize == info.bmapstart == sb.bmapstart
      && info.bmapstart + info.bmapsize == info.datastart == sb.G().DataStart()
      && info.datastart + info.datasize == info.fssize <= sb.size
  {
    ok, tooLarge := true, false;
    var size: nat := 1;
    if sb.logstart != size { ok := false; }
    var logstart, logsize := size, sb.nlog;
    size := size + sb.nlog;
    var inodesize := InodeBlocks(sb.ninodes);
    if sb.inodestart != size { ok := false; }
    size := size + inodesize;
    if size != sb.bmapstart { ok := false; }
    var bmapsize := BitmapBlocks(sb.size);
    size := size + bmapsize;
    var datastart := size;
    size := size + sb.nblocks;
    if sb.size < size {
      ok := false;
    } else if sb.size > size {
      tooLarge := true;
    }
    info := Info(logstart, sb.inodestart, sb.bmapstart, datastart % U32,
                 logsize, inodesize, bmapsize, sb.nblocks, size % U32);
  }

  // ----- what acceptance means -----

  /** Where block `b` lies: 0 superblock, 1 log, 2 inodes, 3 bitmap, 4 data. */
  function Region(sb: Super, b: nat): nat {
    if b == 0 then 0
    else if b < sb.inodestart then 1
    else if b < sb.bmapstart then 2
    else if b < sb.G().DataStart() then 3
    else 4
  }

  /** Every inode number below the count has its record in the inode region, at its
      own place there; every block of the image has its bit in the bitmap region;
      and the data blocks promised are inside the image and past all metadata. */
  lemma AcceptedGeometry(sb: Super)
    requires Accepted(sb)
    ensures forall inum: nat :: inum < sb.ninodes ==> Region(sb, sb.inodestart + inum / IPB) == 2
    ensures forall b: nat :: b < sb.size ==> Region(sb, sb.bmapstart + b / BPB) == 3
    ensures forall b: nat :: sb.MetaBlocks() <= b < sb.MetaBlocks() + sb.nblocks ==> Region(sb, b) == 4 && b < sb.size
    ensures sb.G().DataStart() == sb.MetaBlocks() <= sb.size
    ensures sb.G().Formed() <==> sb.ninodes <= 65535
  {
    forall inum: nat | inum < sb.ninodes ensures Region(sb, sb.inodestart + inum / IPB) == 2 {
      assert inum / IPB <= sb.ninodes / IPB;
    }
    forall b: nat | b < sb.size ensures Region(sb, sb.bmapstart + b / BPB) == 3 {
      assert b / BPB <= sb.size / BPB;
    }
    assert sb.G().DataStart() == sb.MetaBlocks();
    forall b: nat | sb.MetaBlocks() <= b < sb.MetaBlocks() + sb.nblocks ensures Region(sb, b) == 4 && b < sb.size {}
  }

  /** The allocation hint after mounting, computed from an inode count capped at the
      largest 16-bit number (`xv6_fill_super`). */
  function MountHint(sb: Super): uint {
    (1 + sb.nlog + InodeBlocks(Min(sb.ninodes, 65535)) + BitmapBlocks(sb.size)) % U32
  }

  /** The hint is the first data block exactly when the inode count was not capped;
      otherwise it points into the metadata. */
  lemma HintIsDataStart(sb: Super)
    requires Accepted(sb)
    ensures MountHint(sb) == sb.G().DataStart() <==> sb.ninodes <= 65535
    ensures sb.ninodes > 65535 ==> MountHint(sb) < sb.G().DataStart()
  {
    assert InodeBlocks(65535) == 4096;
  }

  // ----- the layout the builder computes -----

  /** The superblock `mkxv6` writes for an image of `fssize` blocks; `nblocks` goes
      through a signed `int` and comes out negative if the metadata do not fit. */
  function MkSuper(fssize: nat, ninodes: nat, nlog: nat): Super
    requires fssize < 0x8000_0000 && ninodes < 0x8000_0000 && nlog < 0x4000_0000
  {
    var nmeta := 1 + nlog + InodeBlocks(ninodes) + BitmapBlocks(fssize);
    Super(FSMAGIC, fssize, (fssize - nmeta) % U32, ninodes, nlog, 1, 1 + nlog, 1 + nlog + InodeBlocks(ninodes))
  }

  /** The builder's layout is the one asked for, and is accepted exactly when its metadata
      fit the image; then the checker finds nothing too large. */
  lemma MkSuperAccepted(fssize: nat, ninodes: nat, nlog: nat)
    requires fssize < 0x8000_0000 && ninodes < 0x8000_0000 && nlog < 0x4000_0000
    ensures var sb := MkSuper(fssize, ninodes, nlog);
      && sb.magic == 0x10203040 && sb.size == fssize && sb.ninodes == ninodes && sb.nlog == nlog
      && (Accepted(sb) <==> sb.MetaBlocks() <= fssize)
      && (Accepted(sb) ==> sb.MetaBlocks() + sb.nblocks == fssize)
  {
    var nmeta := 1 + nlog + InodeBlocks(ninodes) + BitmapBlocks(fssize);
    if nmeta <= fssize {
      assert (fssize - nmeta) % U32 == fssize - nmeta;
    } else {
      assert (fssize - nmeta) % U32 == fssize - nmeta + U32;
    }
  }
}
