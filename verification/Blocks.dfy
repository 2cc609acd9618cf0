/** Disk blocks as byte sequences, and the 32-bit little-endian words that
    the kernel finds in them through a `uint*` or `struct logheader*` cast. */
module Blocks {

  const BSIZE := 512
  const WORDS := BSIZE / 4
  const WORD_LIMIT := 0x1_0000_0000

  type byte = x: int | 0 <= x < 256
  type uint = x: int | 0 <= x < WORD_LIMIT
  type Block = b: seq<byte> | |b| == BSIZE witness seq(BSIZE, _ => 0)

  function ZeroBlock(): (b: Block)
    ensures forall i :: 0 <= i < BSIZE ==> b[i] == 0
  {
    seq(BSIZE, _ => 0)
  }

  /** The block device: one block per sector. */
  type Disk = seq<Block>

  /** Word i of a block, as x86 reads it. */
  function Word(b: Block, i: nat): (w: uint)
    requires i < WORDS
  {
    var b0: int, b1: int, b2: int, b3: int := b[4 * i], b[4 * i + 1], b[4 * i + 2], b[4 * i + 3];
    b0 + 0x100 * b1 + 0x1_0000 * b2 + 0x100_0000 * b3
  }

  /** The block after storing w in word i. */
  function PutWord(b: Block, i: nat, w: uint): (r: Block)
    requires i < WORDS
  {
    b[4 * i := w % 0x100]
     [4 * i + 1 := w / 0x100 % 0x100]
     [4 * i + 2 := w / 0x1_0000 % 0x100]
     [4 * i + 3 := w / 0x100_0000]
  }

  /** A stored word reads back, and no other word changes. */
  lemma WordAfterPut(b: Block, i: nat, w: uint, j: nat)
    requires i < WORDS && j < WORDS
    ensures Word(PutWord(b, i, w), j) == if i == j then w else Word(b, j)
  {
    if i == j {
      DigitsOfWord(w);
    }
  }

  lemma DigitsOfWord(w: uint)
    ensures w == w % 0x100 + 0x100 * (w / 0x100 % 0x100)
                 + 0x1_0000 * (w / 0x1_0000 % 0x100) + 0x100_0000 * (w / 0x100_0000)
  {
    assert w / 0x1_0000 == w / 0x100 / 0x100;
    assert w / 0x100_0000 == w / 0x1_0000 / 0x100;
  }

  /** Every word of a zeroed block is zero. */
  lemma ZeroWord(i: nat)
    requires i < WORDS
    ensures Word(ZeroBlock(), i) == 0
  {
  }
}
