/** Bytes and blocks: the `byte` type, `BLOCK_SIZE` and C's narrowing casts.

    A C++ `unsigned char` is a `bv8`. The source computes in `int` (the usual
    arithmetic promotions) and narrows with `(byte)`; for `^`, `|` and `>>` on
    values that were bytes the low eight bits of the `int` result are the
    `bv8` operation itself. A product `x * k` narrowed to a byte is the `bv8`
    product `x * ByteOf(k)`, because `bv8` multiplication wraps modulo 256. */
module Bytes {

  /** `BLOCK_SIZE` (cypher.hpp:1): the size of a key, an IV and a block. */
  const BlockSize: nat := 32

  /** The `(byte)` cast of a non-negative `int` `n`, that is `n & 0xFF`: the
      byte whose value is `n` modulo 256 (`ByteOfIsCast`). It counts up in
      `bv8` arithmetic, which wraps at 256, rather than converting the integer
      in one step; proofs about it then stay within bit-vector arithmetic. */
  function ByteOf(n: nat): bv8
  {
    if n == 0 then 0 else ByteOf(n - 1) + 1
  }

  lemma {:induction false} ByteOfIsCast(n: nat)
    ensures ByteOf(n) as int == n % 256
  {
    if n > 0 {
      ByteOfIsCast(n - 1);
      ByteSucc(ByteOf(n - 1));
      ModSucc(n);
    }
  }

  /** Adding 1 to a byte wraps from 255 to 0. */
  lemma ByteSucc(x: bv8)
    ensures (x + 1) as int == if x as int == 255 then 0 else x as int + 1
  {
  }

  lemma ModSucc(n: nat)
    requires 0 < n
    ensures n % 256 == if (n - 1) % 256 == 255 then 0 else (n - 1) % 256 + 1
  {
  }

  /** A 32-byte key, IV or block. */
  predicate IsBlock(s: seq<bv8>)
  {
    |s| == BlockSize
  }

  /** `for (int i = 0; i < BLOCK_SIZE; i++) dst[i] = src[i];`, the copy loop the
      source writes out wherever one 32-byte buffer is copied into another. */
  method CopyBlock(src: array<bv8>, dst: array<bv8>)
    requires src.Length == BlockSize && dst.Length == BlockSize && src != dst
    modifies dst
    ensures dst[..] == src[..]
  {
    for i := 0 to BlockSize
      modifies dst
      invariant forall j :: 0 <= j < i ==> dst[j] == src[j]
    {
      dst[i] := src[i];
    }
  }
}
