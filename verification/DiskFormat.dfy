/** The on-disk format byte by byte, as the declarations of easy-fs/src/layout.rs lay it out: what someone reads who is
    given nothing but the device. */
module DiskFormat {
  import opened Blocks

  /** Byte `p` of the device. */
  ghost function At(disk: seq<Block>, p: nat): byte {
    if p / 512 < |disk| then disk[p / 512][p % 512] else 0
  }

  /** The little-endian number of four bytes at `p`. */
  ghost function U32(disk: seq<Block>, p: nat): nat {
    At(disk, p) as nat + 256 * (At(disk, p + 1) as nat) + 65536 * (At(disk, p + 2) as nat)
    + 16777216 * (At(disk, p + 3) as nat)
  }

  /** Bit `k` of the bitmap that begins with block `start`. */
  ghost predicate BitAt(disk: seq<Block>, start: nat, k: nat) {
    At(disk, 512 * start + k / 8) as nat / [1, 2, 4, 8, 16, 32, 64, 128][k % 8] % 2 == 1
  }

  /** Inodes of 128 bytes follow the super block and the inode bitmap. */
  ghost function InodeAt(disk: seq<Block>, i: nat): nat {
    512 * (1 + U32(disk, 8)) + 128 * i
  }

  /** The block that holds the `k`-th 512 bytes: one of 28 direct ones, or found through the indirect block or the
      doubly indirect one. */
  ghost function DataBlockOf(disk: seq<Block>, i: nat, k: nat): nat {
    var at := InodeAt(disk, i);
    if k < 28 then U32(disk, at + 4 + 4 * k)
    else if k < 156 then U32(disk, 512 * U32(disk, at + 116) + 4 * (k - 28))
    else U32(disk, 512 * U32(disk, 512 * U32(disk, at + 120) + 4 * ((k - 156) / 128)) + 4 * ((k - 156) % 128))
  }

  /** The contents of inode `i`: as many bytes as its first word says. */
  ghost function FileOf(disk: seq<Block>, i: nat): seq<byte> {
    seq(U32(disk, InodeAt(disk, i)), p requires p >= 0 => At(disk, 512 * DataBlockOf(disk, i, p / 512) + p % 512))
  }

  /** The inode uses the block: for its contents, or as its index block of the first level, as the doubly indirect one,
      or as one of those that this one lists. */
  ghost predicate UsedBy(disk: seq<Block>, i: nat, b: nat) {
    var at := InodeAt(disk, i);
    var n := (U32(disk, at) + 511) / 512;
    || (exists k :: 0 <= k < n && DataBlockOf(disk, i, k) == b)
    || (n > 28 && U32(disk, at + 116) == b)
    || (n > 156 && U32(disk, at + 120) == b)
    || (exists a: nat :: 156 + 128 * a < n && U32(disk, 512 * U32(disk, at + 120) + 4 * a) == b)
  }

  /** One of the inodes up to `last` uses the block. */
  ghost predicate InUse(disk: seq<Block>, last: nat, b: nat) {
    exists i: nat :: i <= last && UsedBy(disk, i, b)
  }

  /** Bit `k` of the data bitmap, which follows the inodes, marks block `k` of the area behind it. */
  ghost predicate Marked(disk: seq<Block>, last: nat, k: nat) {
    var bitmap := 1 + U32(disk, 8) + U32(disk, 12);
    BitAt(disk, bitmap, k) <==> InUse(disk, last, bitmap + U32(disk, 16) + k)
  }

  /** Entry `j` of a directory: the name, zeros up to byte 28, and the number of the inode. */
  ghost predicate EntryOf(dir: seq<byte>, j: nat, name: seq<byte>, inode: nat) {
    && 32 * j + 32 <= |dir| && |name| < 28
    && (forall t | 0 <= t < 28 :: dir[32 * j + t] == if t < |name| then name[t] else 0)
    && dir[32 * j + 28] as nat + 256 * (dir[32 * j + 29] as nat) + 65536 * (dir[32 * j + 30] as nat)
       + 16777216 * (dir[32 * j + 31] as nat) == inode
  }

  /** The device holds these files under these names: a super block, a root directory that is inode 0 and lists the
      names, inodes 1 and up for the files, and bitmaps that mark these inodes and the blocks they use, and no others.
      */
  ghost predicate Pictured(disk: seq<Block>, names: seq<seq<byte>>, files: seq<seq<byte>>) {
    && U32(disk, 0) == 0x3b800001 && |files| == |names|
    && U32(disk, InodeAt(disk, 0) + 124) == 1 && |FileOf(disk, 0)| == 32 * |names|
    && (forall j | 0 <= j < |names| :: EntryOf(FileOf(disk, 0), j, names[j], j + 1))
    && (forall j | 0 <= j < |names| :: U32(disk, InodeAt(disk, j + 1) + 124) == 0 && FileOf(disk, j + 1) == files[j])
    && (forall k: nat | k < 4096 * U32(disk, 8) :: BitAt(disk, 1, k) <==> k <= |names|)
    && (forall k: nat | k < 4096 * U32(disk, 16) :: Marked(disk, |names|, k))
  }
}
