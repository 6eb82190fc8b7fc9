/** Blocks, words and addresses of an xv6 image: projects/filesystems-check/fs.h and types.h. */
module Disk {

  const BSIZE: nat := 512
  const NDIRECT: nat := 12
  const NINDIRECT: nat := BSIZE / 4
  const MAXFILE: nat := NDIRECT + NINDIRECT  // blocks of a file
  const WORD: nat := 0x1_0000_0000

  type Byte = x: int | 0 <= x < 256
  type Uint = x: int | 0 <= x < WORD
  type Block = b: seq<Byte> | |b| == BSIZE witness seq(BSIZE, _ => 0)

  /** Four bytes as a little-endian machine reads them. */
  function Value(b: seq<Byte>): Uint
    requires |b| == 4
  {
    var w: int, x: int, y: int, z: int := b[0], b[1], b[2], b[3];
    w + 0x100 * x + 0x1_0000 * y + 0x100_0000 * z
  }

  /** Word k of a block. */
  function Word(b: Block, k: nat): Uint
    requires k < NINDIRECT
  {
    Value(b[4 * k..4 * k + 4])
  }

  /** A file has 12 direct and 128 indirect blocks of 512 bytes. */
  lemma LargestFile()
    ensures NDIRECT == 12 && NINDIRECT == 128 && MAXFILE * BSIZE == 71680
  {
  }
}
