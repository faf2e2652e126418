/** The on-disk format (fs.h): constants, integer widths, and the layout
    arithmetic that both the kernel module and the image builder use. */
module Layout {
  const BSIZE := 1024
  const BPB := 8192         // bitmap bits per block
  const IPB := 16           // inodes per block
  const NDIRECT := 12
  const NINDIRECT := 256
  const MAXFILE := 268      // NDIRECT + NINDIRECT
  const DIRSIZ := 14
  const DESIZE := 16        // bytes in a directory entry
  const NENTS := 64         // directory entries per block
  const DISIZE := 64        // bytes in an inode record
  const ROOTINO := 1
  const T_DIR := 1
  const T_FILE := 2
  const U16 := 0x1_0000
  const U32 := 0x1_0000_0000

  type byte = x: int | 0 <= x < 256
  type ushort = x: int | 0 <= x < U16
  type uint = x: int | 0 <= x < U32

  type Block = b: seq<byte> | |b| == BSIZE witness seq(BSIZE, _ => 0)

  /** `memset(data, 0, BSIZE)`. */
  function ZeroBlock(): (b: Block)
    ensures forall i :: 0 <= i < BSIZE ==> b[i] == 0
  {
    seq(BSIZE, _ => 0)
  }

  /** Results of an operation; `OK` is the C code's 0. `EIO` is what reading a
      block number beyond the device gives. */
  datatype Errno =
    | OK | EIO | EFBIG | ENOSPC | EINVAL | EBUSY | EEXIST | ENOENT | ENAMETOOLONG | ENOTDIR | ENOTEMPTY | ETOOMANYREFS

  function Min(a: int, b: int): int { if a > b then b else a }

  function Max(a: int, b: int): int { if a < b then b else a }

  function InodeBlocks(ninodes: nat): nat { ninodes / IPB + 1 }

  function BitmapBlocks(fssize: nat): nat { fssize / BPB + 1 }

  /** The part of `struct xv6_fs_info` that never changes after mounting. */
  datatype Geometry = Geometry(size: uint, inodestart: uint, bmapstart: uint)
  {
    /** First data block. */
    function DataStart(): nat { bmapstart + BitmapBlocks(size) }

    /** What the superblock check establishes about a mounted image, with at
        most 65535 inodes. */
    predicate Formed() {
      && 1 <= inodestart < bmapstart
      && DataStart() <= size
      && (bmapstart - inodestart) * IPB <= U16
    }

    predicate IsData(b: int) { DataStart() <= b < size }
  }
}
