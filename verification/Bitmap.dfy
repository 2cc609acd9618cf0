/** Single bits of a block, as balloc and bfree of fs.c handle them. */
module Bitmap {
  import opened Blocks

  const BPB := BSIZE * 8

  /** Bit k of x: (x & (1 << k)) != 0. */
  predicate NumBit(x: nat, k: nat) {
    if k == 0 then x % 2 == 1 else NumBit(x / 2, k - 1)
  }

  /** x with bit k replaced: x | (1 << k), or x & ~(1 << k). */
  function NumPut(x: nat, k: nat, on: bool): (r: nat) {
    if k == 0 then x / 2 * 2 + (if on then 1 else 0) else x % 2 + 2 * NumPut(x / 2, k - 1, on)
  }

  function Limit(n: nat): (l: nat) {
    if n == 0 then 1 else 2 * Limit(n - 1)
  }

  lemma {:induction false} NumPutBound(x: nat, k: nat, on: bool, n: nat)
    requires k < n && x < Limit(n)
    ensures NumPut(x, k, on) < Limit(n)
  {
    if k > 0 {
      NumPutBound(x / 2, k - 1, on, n - 1);
    }
  }

  lemma {:induction false} NumBitAfter(x: nat, k: nat, on: bool, j: nat)
    ensures NumBit(NumPut(x, k, on), j) <==> if j == k then on else NumBit(x, j)
  {
    var r := NumPut(x, k, on);
    if k == 0 {
      assert r / 2 == x / 2;
    } else {
      assert r / 2 == NumPut(x / 2, k - 1, on) && r % 2 == x % 2;
      if j > 0 {
        NumBitAfter(x / 2, k - 1, on, j - 1);
      }
    }
  }

  function BytePut(x: byte, k: nat, on: bool): (r: byte)
    requires k < 8
  {
    assert Limit(8) == 256 by {
      assert Limit(4) == 16;
    }
    NumPutBound(x, k, on, 8);
    NumPut(x, k, on)
  }

  predicate Bit(b: Block, i: nat)
    requires i < BPB
  {
    NumBit(b[i / 8], i % 8)
  }

  /** The block with bit i of it set or cleared. */
  function PutBit(b: Block, i: nat, on: bool): (r: Block)
    requires i < BPB
  {
    b[i / 8 := BytePut(b[i / 8], i % 8, on)]
  }

  /** Setting or clearing one bit changes no other. */
  lemma BitAfter(b: Block, i: nat, on: bool, j: nat)
    requires i < BPB && j < BPB
    ensures Bit(PutBit(b, i, on), j) <==> if j == i then on else Bit(b, j)
  {
    if i / 8 == j / 8 {
      NumBitAfter(b[i / 8], i % 8, on, j % 8);
    }
  }
}
