/** The driver `encdec` (cypher.hpp:97-146).

    The input is zero-padded to a multiple of 32 bytes. Block `n` of the output
    is block `n` of the padded input XORed with the key `K_n`. `K_0` is the
    caller's `initial_key`, and `K_{n+1}` is the next block key of output block
    `n` under `K_n`. The same code encrypts and decrypts: `dec` only decides
    whether `generate_key` runs first, and that call only overwrites `iv`. The
    key it returns is bound to an inner `key` that shadows the one the loop
    uses (cypher.hpp:100-105). So the chain always starts from the caller's
    key, and on both paths it is fed with the XOR output: ciphertext when
    encrypting, plaintext when decrypting. */
module Driver {
  import opened Bytes
  import opened BlockKey
  import opened KeyDerivation

  // ---------------------------------------------------------------- padding

  /** The largest `data_size` for which `data_size + BLOCK_SIZE - 1`
      (cypher.hpp:108) stays within a 32-bit signed `int`. */
  const MaxPaddedInput: nat := 0x7FFF_FFFF - (BlockSize - 1)

  /** `new_data_size` (cypher.hpp:108): the input length rounded up to a
      multiple of 32. C's `/` truncates, which for a non-negative operand is
      Dafny's `/`. */
  function PaddedLength(n: nat): (m: nat)
    ensures m % BlockSize == 0 && n <= m < n + BlockSize
  {
    (n + BlockSize - 1) / BlockSize * BlockSize
  }

  /** `padded_data` (cypher.hpp:109-117): the input followed by zeros up to the padded length. */
  function Pad(data: seq<bv8>): (p: seq<bv8>)
    ensures |p| == PaddedLength(|data|) && p[..|data|] == data
    ensures forall i :: |data| <= i < |p| ==> p[i] == 0
  {
    data + seq(PaddedLength(|data|) - |data|, _ => 0)
  }

  /** Block `n` of a padded buffer. */
  function BlockOf(s: seq<bv8>, n: nat): (b: seq<bv8>)
    requires (n + 1) * BlockSize <= |s|
    ensures IsBlock(b)
  {
    s[n * BlockSize .. (n + 1) * BlockSize]
  }

  /** `x[i] ^ key[i]` for every position of a block (cypher.hpp:125-126, with
      `i % 32` the position inside the block). */
  function XorBlock(block: seq<bv8>, key: seq<bv8>): (out: seq<bv8>)
    requires IsBlock(block) && IsBlock(key)
    ensures IsBlock(out)
  {
    seq(BlockSize, i requires 0 <= i < BlockSize => block[i] ^ key[i])
  }

  /** XORing a block with the same key twice gives the block back. */
  lemma XorBlockTwice(block: seq<bv8>, key: seq<bv8>)
    requires IsBlock(block) && IsBlock(key)
    ensures XorBlock(XorBlock(block, key), key) == block
  {
    var back := XorBlock(XorBlock(block, key), key);
    assert forall i :: 0 <= i < BlockSize ==> back[i] == block[i];
  }

  // ---------------------------------------------------------------- key chain

  /** `ks` is a chain of block keys over `padded` (cypher.hpp:125-133): every
      key after the first is `calc_next_block_key` of the XOR output of block
      `m` under the key `ks[m]` before it, with block index `m` and IV `iv`. */
  predicate IsKeyChain(padded: seq<bv8>, iv: seq<bv8>, ks: seq<seq<bv8>>)
    requires IsBlock(iv)
  {
    && 1 <= |ks| && (|ks| - 1) * BlockSize <= |padded|
    && (forall m :: 0 <= m < |ks| ==> IsBlock(ks[m]))
    && forall m {:trigger NextBlockKey(XorBlock(BlockOf(padded, m), ks[m]), ks[m], m, iv)} :: 0 <= m < |ks| - 1 ==>
         ks[m + 1] == NextBlockKey(XorBlock(BlockOf(padded, m), ks[m]), ks[m], m, iv)
  }

  /** The keys `K_0 .. K_n` that `encdec` goes through over the first `n`
      blocks of `padded` (cypher.hpp:100, 122-137), starting from the caller's
      key `k0`. `new_key` may alias `key` from the second block on;
      `CalcNextBlockKey` shows that this is harmless. */
  function ChainKeys(padded: seq<bv8>, k0: seq<bv8>, iv: seq<bv8>, n: nat): (ks: seq<seq<bv8>>)
    requires IsBlock(k0) && IsBlock(iv) && n * BlockSize <= |padded|
    ensures |ks| == n + 1 && ks[0] == k0 && IsKeyChain(padded, iv, ks)
    decreases n
  {
    if n == 0 then [k0]
    else
      var prev := ChainKeys(padded, k0, iv, n - 1);
      var next := NextBlockKey(XorBlock(BlockOf(padded, n - 1), prev[n - 1]), prev[n - 1], n - 1, iv);
      KeyChainExtend(padded, iv, prev, next);
      prev + [next]
  }

  /** A key chain extended by the next key of its last block is a key chain. */
  lemma KeyChainExtend(padded: seq<bv8>, iv: seq<bv8>, ks: seq<seq<bv8>>, next: seq<bv8>)
    requires IsBlock(iv) && IsKeyChain(padded, iv, ks) && |ks| * BlockSize <= |padded|
    requires next == NextBlockKey(XorBlock(BlockOf(padded, |ks| - 1), ks[|ks| - 1]), ks[|ks| - 1], |ks| - 1, iv)
    ensures IsKeyChain(padded, iv, ks + [next])
  {
    var ext := ks + [next];
    assert forall m :: 0 <= m < |ks| ==> ext[m] == ks[m];
  }

  /** A key chain is determined by its first key and its length. */
  lemma {:induction false} KeyChainDetermined(padded: seq<bv8>, iv: seq<bv8>, ks: seq<seq<bv8>>, ls: seq<seq<bv8>>)
    requires IsBlock(iv) && IsKeyChain(padded, iv, ks) && IsKeyChain(padded, iv, ls)
    requires |ks| == |ls| && ks[0] == ls[0]
    ensures ks == ls
    decreases |ks|
  {
    if |ks| > 1 {
      var n := |ks| - 1;
      KeyChainDetermined(padded, iv, ks[..n], ls[..n]);
      assert ks[..n][n - 1] == ls[..n][n - 1];
      assert ks[n] == NextBlockKey(XorBlock(BlockOf(padded, n - 1), ks[n - 1]), ks[n - 1], n - 1, iv);
      assert ks == ks[..n] + [ks[n]] && ls == ls[..n] + [ls[n]];
    }
  }

  /** The keys `encdec` uses for `data`: one per block of the padded input,
      and the one computed after the last block. */
  function Keys(data: seq<bv8>, k0: seq<bv8>, iv: seq<bv8>): (ks: seq<seq<bv8>>)
    requires IsBlock(k0) && IsBlock(iv)
    ensures |ks| == PaddedLength(|data|) / BlockSize + 1
  {
    ChainKeys(Pad(data), k0, iv, PaddedLength(|data|) / BlockSize)
  }

  /** Byte `i` of the XOR output before the padding is zeroed:
      `padded_data[i] ^ key[i % 32]` with `key` the key of block `i / 32`. */
  function RawAt(padded: seq<bv8>, ks: seq<seq<bv8>>, i: nat): bv8
    requires i < |padded| && i / BlockSize < |ks| && IsBlock(ks[i / BlockSize])
  {
    padded[i] ^ ks[i / BlockSize][i % BlockSize]
  }

  /** Position `j` of block `n` sits at index `n * 32 + j`. */
  lemma BlockIndex(n: nat, j: nat)
    requires j < BlockSize
    ensures (n * BlockSize + j) / BlockSize == n && (n * BlockSize + j) % BlockSize == j
  {
  }

  /** Byte `j` of the XOR output, inside block `n`, uses `K_n` at position `j - 32 * n`. */
  lemma RawAtInBlock(padded: seq<bv8>, ks: seq<seq<bv8>>, n: nat, j: nat)
    requires n * BlockSize <= j < (n + 1) * BlockSize <= |padded| && n < |ks| && IsBlock(ks[n])
    ensures j / BlockSize == n && RawAt(padded, ks, j) == padded[j] ^ ks[n][j - n * BlockSize]
  {
    BlockIndex(n, j - n * BlockSize);
  }

  /** The buffer `encdec` returns for the first `data_size` bytes `data`: the
      XOR output of the padded input, with the bytes past `data_size` zeroed
      (cypher.hpp:141-143). */
  function EncDecOutput(data: seq<bv8>, k0: seq<bv8>, iv: seq<bv8>): (out: seq<bv8>)
    requires IsBlock(k0) && IsBlock(iv)
    ensures |out| == PaddedLength(|data|)
  {
    seq(PaddedLength(|data|), i requires 0 <= i < PaddedLength(|data|) => OutAt(data, Keys(data, k0, iv), i))
  }

  /** Byte `i` of `EncDecOutput`, with `ks` the keys of `data`. */
  function OutAt(data: seq<bv8>, ks: seq<seq<bv8>>, i: nat): bv8
    requires i < PaddedLength(|data|) && |ks| == PaddedLength(|data|) / BlockSize + 1
    requires forall m :: 0 <= m < |ks| ==> IsBlock(ks[m])
  {
    if i < |data| then RawAt(Pad(data), ks, i) else 0
  }

  // ---------------------------------------------------------------- properties

  /** The output is as long as the padded input. Every byte past the input is
      zero, and every byte `i` of the input is XORed with `K_{i / 32}`. */
  lemma {:induction false} OutputShape(data: seq<bv8>, k0: seq<bv8>, iv: seq<bv8>, i: nat)
    requires IsBlock(k0) && IsBlock(iv) && i < PaddedLength(|data|)
    ensures |EncDecOutput(data, k0, iv)| % BlockSize == 0
    ensures |data| <= |EncDecOutput(data, k0, iv)| < |data| + BlockSize
    ensures i / BlockSize < |Keys(data, k0, iv)| - 1
    ensures EncDecOutput(data, k0, iv)[i]
         == if i < |data| then data[i] ^ Keys(data, k0, iv)[i / BlockSize][i % BlockSize] else 0
  {
    assert EncDecOutput(data, k0, iv)[i] == OutAt(data, Keys(data, k0, iv), i);
    if i < |data| {
      assert Pad(data)[i] == data[i];
    }
  }

  /** An empty input gives an empty output: no block is processed, so the
      only key is the caller's. */
  lemma EmptyInput(k0: seq<bv8>, iv: seq<bv8>)
    requires IsBlock(k0) && IsBlock(iv)
    ensures EncDecOutput([], k0, iv) == []
    ensures Keys([], k0, iv) == [k0]
  {
    assert PaddedLength(0) == 0;
  }

  /** The first block is XORed with the caller's key itself, whatever the IV. */
  lemma FirstBlockUsesInitialKey(data: seq<bv8>, k0: seq<bv8>, iv: seq<bv8>, i: nat)
    requires IsBlock(k0) && IsBlock(iv) && i < |data| && i < BlockSize
    ensures EncDecOutput(data, k0, iv)[i] == data[i] ^ k0[i]
  {
    OutputShape(data, k0, iv, i);
  }

  /** When decryption, fed the first `|data|` bytes `c` of the ciphertext,
      reaches block `i / 32` with the key encryption used for that block, byte
      `i` of its output is `data[i]`. */
  lemma RoundTripWhileKeysAgree(data: seq<bv8>, k0: seq<bv8>, iv: seq<bv8>, i: nat)
    requires IsBlock(k0) && IsBlock(iv) && i < |data|
    requires
      var c := EncDecOutput(data, k0, iv)[..|data|];
      Keys(c, k0, iv)[i / BlockSize] == Keys(data, k0, iv)[i / BlockSize]
    ensures EncDecOutput(EncDecOutput(data, k0, iv)[..|data|], k0, iv)[i] == data[i]
  {
    var c := EncDecOutput(data, k0, iv)[..|data|];
    OutputShape(data, k0, iv, i);
    OutputShape(c, k0, iv, i);
    assert c[i] == EncDecOutput(data, k0, iv)[i];
  }

  /** Encrypting at most one block and decrypting its first `|data|` bytes with
      the same initial key gives back the input, followed by zeros. The IVs do
      not matter: only keys from the second block on depend on them. */
  lemma SingleBlockRoundTrip(data: seq<bv8>, k0: seq<bv8>, ivEnc: seq<bv8>, ivDec: seq<bv8>)
    requires IsBlock(k0) && IsBlock(ivEnc) && IsBlock(ivDec) && |data| <= BlockSize
    ensures EncDecOutput(EncDecOutput(data, k0, ivEnc)[..|data|], k0, ivDec) == Pad(data)
  {
    var c := EncDecOutput(data, k0, ivEnc)[..|data|];
    var back := EncDecOutput(c, k0, ivDec);
    forall i | 0 <= i < |back|
      ensures back[i] == Pad(data)[i]
    {
      OutputShape(c, k0, ivDec, i);
      if i < |data| {
        FirstBlockUsesInitialKey(data, k0, ivEnc, i);
        FirstBlockUsesInitialKey(c, k0, ivDec, i);
        assert c[i] == data[i] ^ k0[i];
      }
    }
  }

  /** Decryption chains on the plaintext. With at least one full block, the
      second key of encryption is derived from the first ciphertext block, and
      the second key of decryption from the first plaintext block. So the two
      agree only when `NextBlockKey` happens to map both blocks to the same
      key. */
  lemma DecryptionChainsOnPlaintext(data: seq<bv8>, k0: seq<bv8>, iv: seq<bv8>)
    requires IsBlock(k0) && IsBlock(iv) && BlockSize <= |data|
    ensures
      var c := EncDecOutput(data, k0, iv)[..|data|];
      && Keys(data, k0, iv)[1] == NextBlockKey(c[..BlockSize], k0, 0, iv)
      && Keys(c, k0, iv)[1] == NextBlockKey(data[..BlockSize], k0, 0, iv)
  {
    var c := EncDecOutput(data, k0, iv)[..|data|];
    var ks, ls := Keys(data, k0, iv), Keys(c, k0, iv);
    FirstOutputBlock(data, k0, iv);
    PadFirstBlock(data);
    PadFirstBlock(c);
    assert c[..BlockSize] == EncDecOutput(data, k0, iv)[..BlockSize];
    XorBlockTwice(data[..BlockSize], k0);
    assert ks[1] == NextBlockKey(XorBlock(BlockOf(Pad(data), 0), ks[0]), ks[0], 0, iv);
    assert ls[1] == NextBlockKey(XorBlock(BlockOf(Pad(c), 0), ls[0]), ls[0], 0, iv);
  }

  /** Past the first block, decryption gives back each byte XORed with the
      two sides' keys for its block: `data[i] ^ K_n[j] ^ K'_n[j]`, where `K`
      is encryption's chain, `K'` decryption's chain, `n == i / 32` and
      `j == i % 32`. So byte `i` comes back exactly when the two keys agree
      at `j`. */
  lemma DecryptedByte(data: seq<bv8>, k0: seq<bv8>, iv: seq<bv8>, i: nat)
    requires IsBlock(k0) && IsBlock(iv) && i < |data|
    ensures
      var c := EncDecOutput(data, k0, iv)[..|data|];
      var n, j := i / BlockSize, i % BlockSize;
      && n < |Keys(data, k0, iv)| && n < |Keys(c, k0, iv)|
      && EncDecOutput(c, k0, iv)[i] == data[i] ^ Keys(data, k0, iv)[n][j] ^ Keys(c, k0, iv)[n][j]
  {
    var c := EncDecOutput(data, k0, iv)[..|data|];
    OutputShape(data, k0, iv, i);
    OutputShape(c, k0, iv, i);
    assert c[i] == EncDecOutput(data, k0, iv)[i];
  }

  /** A two-block input that does not round-trip. The data is `[2]` followed
      by 63 zeros, the key is `[1]` followed by 31 zeros, and the IV is zero.
      Encryption derives its second key from the ciphertext block `[3, 0, ...]`
      and decryption from the plaintext block `[2, 0, ...]`. Both take 0
      rounds, so the keys start with `2` and `3`. Decryption then gives back
      `2 ^ 3 == 1` at index 32, where the data holds 0. */
  lemma TwoBlocksDoNotRoundTrip()
    ensures
      var data := [2 as bv8] + seq(63, _ => 0 as bv8);
      var k0 := [1 as bv8] + seq(31, _ => 0 as bv8);
      var iv := seq(BlockSize, _ => 0 as bv8);
      && EncDecOutput(EncDecOutput(data, k0, iv)[..|data|], k0, iv)[32] == 1
      && data[32] == 0
  {
    var data := [2 as bv8] + seq(63, _ => 0 as bv8);
    var k0 := [1 as bv8] + seq(31, _ => 0 as bv8);
    var iv := seq(BlockSize, _ => 0 as bv8);
    var c := EncDecOutput(data, k0, iv)[..|data|];
    DecryptionChainsOnPlaintext(data, k0, iv);
    DecryptedByte(data, k0, iv, 32);
    FirstBlockUsesInitialKey(data, k0, iv, 0);
    var cBlock, dBlock := c[..BlockSize], data[..BlockSize];
    SecondKeyByte(cBlock, k0, iv, 3);
    SecondKeyByte(dBlock, k0, iv, 2);
  }

  /** For the key `[1]` followed by zeros and a zero IV, a block starting
      with a byte `b` from 2 to 7 selects a zero round count, and the next key
      of block 0 starts with `1 ^ b`. */
  lemma SecondKeyByte(block: seq<bv8>, k0: seq<bv8>, iv: seq<bv8>, b: bv8)
    requires IsBlock(block) && k0 == [1 as bv8] + seq(31, _ => 0 as bv8) && iv == seq(BlockSize, _ => 0 as bv8)
    requires block[0] == b && 2 <= b < 8
    ensures NextBlockKey(block, k0, 0, iv)[0] == 1 ^ b
  {
    assert k0[b as int % BlockSize] == 0;
    ZeroRoundsKeepTemp(block, k0, 0, iv, 0);
    assert ByteOf(0) == 0;
    assert ByteOf(1) == 1;
    var t := Whiten(k0[0], block[0], iv[0], ByteOf(0));
    assert t == 1 ^ b;
    assert t >> 3 == 0;
  }

  /** The first output block is the first input block XORed with the caller's key. */
  lemma FirstOutputBlock(data: seq<bv8>, k0: seq<bv8>, iv: seq<bv8>)
    requires IsBlock(k0) && IsBlock(iv) && BlockSize <= |data|
    ensures XorBlock(data[..BlockSize], k0) == EncDecOutput(data, k0, iv)[..BlockSize]
  {
    forall i | 0 <= i < BlockSize
      ensures XorBlock(data[..BlockSize], k0)[i] == EncDecOutput(data, k0, iv)[i]
    {
      FirstBlockUsesInitialKey(data, k0, iv, i);
    }
  }

  /** With at least one full block, padding leaves the first block alone. */
  lemma PadFirstBlock(data: seq<bv8>)
    requires BlockSize <= |data|
    ensures BlockOf(Pad(data), 0) == data[..BlockSize]
  {
    assert forall i :: 0 <= i < BlockSize ==> Pad(data)[i] == data[i];
  }

  // ---------------------------------------------------------------- encdec

  /** The padding loops of `encdec` (cypher.hpp:109-117). */
  method PadData(data: array<bv8>, dataSize: int, newDataSize: int) returns (paddedData: array<bv8>)
    requires 0 <= dataSize <= data.Length && newDataSize == PaddedLength(dataSize)
    ensures fresh(paddedData) && paddedData[..] == Pad(data[..dataSize])
  {
    paddedData := new bv8[newDataSize];
    for i := 0 to dataSize
      modifies paddedData
      invariant forall j :: 0 <= j < i ==> paddedData[j] == data[j]
    {
      paddedData[i] := data[i];
    }
    for i := dataSize to newDataSize
      modifies paddedData
      invariant forall j :: 0 <= j < dataSize ==> paddedData[j] == data[j]
      invariant forall j :: dataSize <= j < i ==> paddedData[j] == 0
    {
      paddedData[i] := 0;
    }
    assert paddedData[..] == Pad(data[..dataSize]);
  }

  /** `encrypted_data[i] = padded_data[i] ^ key[i % 32]` over block `runs`
      (cypher.hpp:125-126). Nothing else changes. */
  method XorIntoOutput(paddedData: array<bv8>, key: array<bv8>, encryptedData: array<bv8>, runs: nat)
    requires key.Length == BlockSize && paddedData.Length == encryptedData.Length
    requires (runs + 1) * BlockSize <= encryptedData.Length
    requires encryptedData != paddedData && encryptedData != key
    modifies encryptedData
    ensures forall j :: 0 <= j < runs * BlockSize ==> encryptedData[j] == old(encryptedData[j])
    ensures forall j :: runs * BlockSize <= j < (runs + 1) * BlockSize ==>
      encryptedData[j] == paddedData[j] ^ key[j - runs * BlockSize]
    ensures forall j :: (runs + 1) * BlockSize <= j < encryptedData.Length ==> encryptedData[j] == old(encryptedData[j])
  {
    for i := runs * BlockSize to (runs + 1) * BlockSize
      modifies encryptedData
      invariant forall j :: 0 <= j < runs * BlockSize ==> encryptedData[j] == old(encryptedData[j])
      invariant forall j :: i <= j < encryptedData.Length ==> encryptedData[j] == old(encryptedData[j])
      invariant forall j :: runs * BlockSize <= j < i ==> encryptedData[j] == paddedData[j] ^ key[j - runs * BlockSize]
    {
      BlockIndex(runs, i - runs * BlockSize);
      encryptedData[i] := paddedData[i] ^ key[i % 32];
    }
  }

  /** `block_data`, a fresh copy of block `runs` of the output (cypher.hpp:128-130). */
  method ReadBlock(encryptedData: array<bv8>, runs: nat) returns (blockData: array<bv8>)
    requires (runs + 1) * BlockSize <= encryptedData.Length
    ensures fresh(blockData) && blockData[..] == BlockOf(encryptedData[..], runs)
  {
    blockData := new bv8[BlockSize];
    for i := 0 to BlockSize
      modifies blockData
      invariant forall j :: 0 <= j < i ==> blockData[j] == encryptedData[j + runs * BlockSize]
    {
      blockData[i] := encryptedData[i + (runs * BlockSize)];
    }
  }

  /** `encdec(data, data_size, initial_key, iv, dec)`.

      When `dec` is false, `generate_key` overwrites `iv` with the IV of the
      key derived from the data. The key it returns is dropped. When `dec` is
      true, `iv` is left alone. Either way the returned buffer is
      `EncDecOutput` of the data, the caller's key and `iv` as it then is.
      The buffers may alias one another: `generate_key` reads the data before
      it writes `iv`, and the rest writes only buffers it allocates. */
  method EncDec(data: array<bv8>, dataSize: int, initialKey: array<bv8>, iv: array<bv8>, dec: bool)
    returns (encryptedData: array<bv8>)
    requires 0 <= dataSize <= data.Length
    requires if dec then dataSize <= MaxPaddedInput else dataSize <= MaxDataSize
    requires initialKey.Length == BlockSize && iv.Length == BlockSize
    modifies iv
    ensures fresh(encryptedData)
    ensures iv[..] == if dec then old(iv[..]) else DeriveIv(DeriveKey(old(data[..dataSize])))
    ensures encryptedData[..] == EncDecOutput(data[..dataSize], initialKey[..], iv[..])
    ensures data != iv ==> data[..] == old(data[..])
    ensures initialKey != iv ==> initialKey[..] == old(initialKey[..])
  {
    var key := initialKey;
    if !dec {
      // The inner `key` of cypher.hpp:103; cypher.hpp:104 then assigns it to
      // the local parameter `initial_key` only, which changes nothing outside.
      var key := GenerateKey(data, dataSize, iv);
    }
    encryptedData := EncDecBlocks(data, dataSize, key, iv);
  }

  /** The rest of `encdec` (cypher.hpp:107-145), with `key` still the
      caller's buffer: pad the data, XOR block after block with the chained
      keys, zero the padding of the output. It writes only buffers it
      allocates. */
  method EncDecBlocks(data: array<bv8>, dataSize: int, initialKey: array<bv8>, iv: array<bv8>)
    returns (encryptedData: array<bv8>)
    requires 0 <= dataSize <= data.Length && dataSize <= MaxPaddedInput
    requires initialKey.Length == BlockSize && iv.Length == BlockSize
    ensures fresh(encryptedData)
    ensures encryptedData[..] == EncDecOutput(data[..dataSize], initialKey[..], iv[..])
  {
    var newDataSize := (dataSize + BlockSize - 1) / BlockSize * BlockSize;
    var paddedData := PadData(data, dataSize, newDataSize);
    encryptedData := XorChain(paddedData, initialKey, iv);
    ghost var raw := encryptedData[..];
    ZeroPadding(encryptedData, dataSize);
    OutputFromRaw(data[..dataSize], initialKey[..], iv[..], raw, encryptedData[..]);
  }

  /** The output buffer fixes every byte of `EncDecOutput`: the XOR output
      below the data length, zero above it. */
  lemma OutputFromRaw(data: seq<bv8>, k0: seq<bv8>, iv: seq<bv8>, raw: seq<bv8>, out: seq<bv8>)
    requires IsBlock(k0) && IsBlock(iv)
    requires |raw| == |out| == PaddedLength(|data|)
    requires forall j :: 0 <= j < |raw| ==> raw[j] == RawAt(Pad(data), Keys(data, k0, iv), j)
    requires forall j :: 0 <= j < |out| ==> out[j] == if j < |data| then raw[j] else 0
    ensures out == EncDecOutput(data, k0, iv)
  {
  }

  /** The block loop of `encdec` (cypher.hpp:119-137): `key` starts as the
      caller's buffer and is repointed at `new_key` after the first block, so
      from then on `calc_next_block_key` reads and writes the same buffer. The
      result holds the XOR output of every block. */
  method XorChain(paddedData: array<bv8>, initialKey: array<bv8>, iv: array<bv8>)
    returns (encryptedData: array<bv8>)
    requires paddedData.Length % BlockSize == 0
    requires initialKey.Length == BlockSize && iv.Length == BlockSize
    ensures fresh(encryptedData) && encryptedData.Length == paddedData.Length
    ensures var ks := ChainKeys(paddedData[..], initialKey[..], iv[..], paddedData.Length / BlockSize);
      forall j :: 0 <= j < paddedData.Length ==> encryptedData[j] == RawAt(paddedData[..], ks, j)
  {
    var newDataSize := paddedData.Length;
    encryptedData := new bv8[newDataSize];
    var newKey := new bv8[BlockSize];
    ghost var blocks := newDataSize / BlockSize;
    assert newDataSize == blocks * BlockSize;
    ghost var padded := paddedData[..];
    ghost var ks := ChainKeys(padded, initialKey[..], iv[..], blocks);
    var key := initialKey;
    var runs := 0;
    while runs * BlockSize != newDataSize
      modifies encryptedData, newKey
      invariant 0 <= runs <= blocks
      invariant key.Length == BlockSize && key != encryptedData && (runs > 0 ==> key == newKey)
      invariant key[..] == ks[runs]
      invariant forall j :: 0 <= j < runs * BlockSize ==> encryptedData[j] == RawAt(padded, ks, j)
      decreases newDataSize - runs * BlockSize
    {
      EncryptBlock(paddedData, key, encryptedData, newKey, iv, runs, padded, ks);
      key := newKey;
      runs := runs + 1;
    }
  }

  /** `encrypted_data[i] = 0` for `data_size <= i < new_data_size`
      (cypher.hpp:142-143); the bytes before `data_size` stay. */
  method ZeroPadding(encryptedData: array<bv8>, dataSize: int)
    requires 0 <= dataSize <= encryptedData.Length
    modifies encryptedData
    ensures forall j :: 0 <= j < encryptedData.Length ==>
      encryptedData[j] == if j < dataSize then old(encryptedData[j]) else 0
  {
    for i := dataSize to encryptedData.Length
      modifies encryptedData
      invariant forall j :: 0 <= j < encryptedData.Length ==>
        encryptedData[j] == if dataSize <= j < i then 0 else old(encryptedData[j])
    {
      encryptedData[i] := 0;
    }
  }

  /** One pass of the loop of `encdec` (cypher.hpp:125-136): block `runs` of
      the output is the padded block XORed with `key`. Then `new_key` receives
      the next block key of that output block, which is the next key of the
      chain `ks`. The bytes of the output after block `runs` are unchanged. */
  method EncryptBlock(paddedData: array<bv8>, key: array<bv8>, encryptedData: array<bv8>, newKey: array<bv8>,
                      iv: array<bv8>, runs: nat, ghost padded: seq<bv8>, ghost ks: seq<seq<bv8>>)
    requires paddedData[..] == padded && |padded| == encryptedData.Length
    requires key.Length == BlockSize && newKey.Length == BlockSize && iv.Length == BlockSize
    requires IsKeyChain(padded, iv[..], ks) && runs + 1 < |ks|
    requires encryptedData != paddedData && encryptedData != key && encryptedData != iv
    requires newKey != paddedData && newKey != iv && newKey != encryptedData
    requires key[..] == ks[runs]
    requires forall j :: 0 <= j < runs * BlockSize ==> encryptedData[j] == RawAt(padded, ks, j)
    modifies encryptedData, newKey
    ensures newKey[..] == ks[runs + 1]
    ensures forall j :: 0 <= j < (runs + 1) * BlockSize ==> encryptedData[j] == RawAt(padded, ks, j)
    ensures forall j :: (runs + 1) * BlockSize <= j < encryptedData.Length ==> encryptedData[j] == old(encryptedData[j])
  {
    XorIntoOutput(paddedData, key, encryptedData, runs);
    var blockData := ReadBlock(encryptedData, runs);
    ghost var out := XorBlock(BlockOf(padded, runs), ks[runs]);
    assert blockData[..] == out by {
      forall j | 0 <= j < BlockSize
        ensures blockData[j] == out[j]
      {
        assert blockData[j] == encryptedData[runs * BlockSize + j];
        assert paddedData[runs * BlockSize + j] == BlockOf(padded, runs)[j];
      }
    }
    forall j | runs * BlockSize <= j < (runs + 1) * BlockSize
      ensures encryptedData[j] == RawAt(padded, ks, j)
    {
      RawAtInBlock(padded, ks, runs, j);
    }
    CalcNextBlockKey(blockData, key, runs, iv, newKey);
  }
}
