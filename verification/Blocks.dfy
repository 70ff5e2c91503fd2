/** Device blocks: 1024 bytes, which an index block reads as 512 little-endian 16-bit words. */
module Blocks {
  const BLOCK_SIZE := 1024
  const PER_BLOCK := 512

  type Byte = x: int | 0 <= x < 256
  type Block = b: seq<Byte> | |b| == BLOCK_SIZE witness seq(BLOCK_SIZE, _ => 0)

  function ZeroBlock(): Block {
    seq(BLOCK_SIZE, _ => 0)
  }

  /** The 16-bit word at index i, as `((block_t *) b_data)[i]` reads it. */
  function Word(b: Block, i: nat): (w: nat)
    requires i < PER_BLOCK
    ensures w < 0x1_0000
  {
    (b[2 * i] as int) + 256 * (b[2 * i + 1] as int)
  }

  function SetWord(b: Block, i: nat, w: nat): (r: Block)
    requires i < PER_BLOCK && w < 0x1_0000
    ensures Word(r, i) == w
    ensures forall j :: 0 <= j < PER_BLOCK && j != i ==> Word(r, j) == Word(b, j)
  {
    b[2 * i := w % 256][2 * i + 1 := w / 256]
  }

  /** Bytes dst[at..at+|src|] replaced by src: one memcpy into a buffer. */
  function Splice(dst: Block, at: nat, src: seq<Byte>): (r: Block)
    requires at + |src| <= BLOCK_SIZE
    ensures forall x :: 0 <= x < BLOCK_SIZE ==> r[x] == if at <= x < at + |src| then src[x - at] else dst[x]
  {
    dst[..at] + src + dst[at + |src|..]
  }

  /** The value of a C `int` on the 8086: two's complement, 16 bits. */
  function Int16(x: int): (r: int)
    ensures -0x8000 <= r < 0x8000
    ensures -0x8000 <= x < 0x8000 ==> r == x
    ensures 0x8000 <= x < 0x1_8000 ==> r == x - 0x1_0000
    ensures -0x1_8000 <= x < -0x8000 ==> r == x + 0x1_0000
  {
    (x + 0x8000) % 0x1_0000 - 0x8000
  }

  function U16(x: int): (r: nat)
    ensures r < 0x1_0000
    ensures 0 <= x < 0x1_0000 ==> r == x
  {
    x % 0x1_0000
  }
}
