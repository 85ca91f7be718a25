/** Block key evolution: `calc_next_block_key` (cypher.hpp:20-47).

    The next key is built in two steps. First a temporary array is made from
    the current key, the encrypted block, the IV and the low byte of the block
    index. Then a data-dependent number of mixing rounds, `key[block_data[0] % 32]`
    (0 to 255), each of which builds a whole new array from the previous one. */
module BlockKey {
  import opened Bytes

  /** `key[i] ^ block_data[i] ^ iv[i] ^ blk_byte` (cypher.hpp:26). */
  function Whiten(k: bv8, d: bv8, v: bv8, blkByte: bv8): bv8
  {
    k ^ d ^ v ^ blkByte
  }

  /** `(byte)((t * (i + 1)) ^ (t >> 3))` (cypher.hpp:28). The `bv8` product wraps
      modulo 256, which is the narrowing of the `int` product. */
  function Scramble(t: bv8, i: nat): bv8
  {
    (t * ByteOf(i + 1)) ^ (t >> 3)
  }

  /** `(byte)(temp[i] ^ temp[rotated_idx] ^ (byte)((r + 1) * 0x69))` (cypher.hpp:38). */
  function RoundByte(a: bv8, b: bv8, r: nat): bv8
  {
    a ^ b ^ (ByteOf(r + 1) * 0x69)
  }

  /** The temporary array after the first loop (cypher.hpp:22-29). */
  function InitialTemp(blockData: seq<bv8>, key: seq<bv8>, block: int, iv: seq<bv8>): (t: seq<bv8>)
    requires IsBlock(blockData) && IsBlock(key) && IsBlock(iv)
    ensures IsBlock(t)
  {
    seq(BlockSize, i requires 0 <= i < BlockSize => TempAt(blockData, key, block, iv, i))
  }

  /** Byte `i` of the temporary array before any round (cypher.hpp:25-28). */
  function TempAt(blockData: seq<bv8>, key: seq<bv8>, block: int, iv: seq<bv8>, i: nat): bv8
    requires IsBlock(blockData) && IsBlock(key) && IsBlock(iv) && i < BlockSize
  {
    Scramble(Whiten(key[i], blockData[i], iv[i], ByteOf(block % 256)), i)
  }

  /** The number of mixing rounds, `key[block_data[0] % BLOCK_SIZE]` (cypher.hpp:31). */
  function RoundCount(blockData: seq<bv8>, key: seq<bv8>): (n: nat)
    requires IsBlock(blockData) && IsBlock(key)
    ensures n < 256
  {
    key[blockData[0] as int % BlockSize] as nat
  }

  /** Round `r` (counted from 0): byte `i` of the new array is
      `t[i] ^ t[(i + r + 1) % 32] ^ (byte)((r + 1) * 0x69)`, all read from the
      previous round's array `t` (cypher.hpp:34-39). */
  function MixRound(t: seq<bv8>, r: nat): (u: seq<bv8>)
    requires IsBlock(t)
    ensures IsBlock(u)
  {
    seq(BlockSize, i requires 0 <= i < BlockSize => MixAt(t, r, i))
  }

  /** Byte `i` of round `r`'s output (cypher.hpp:37-38). */
  function MixAt(t: seq<bv8>, r: nat, i: nat): bv8
    requires IsBlock(t) && i < BlockSize
  {
    RoundByte(t[i], t[(i + (r + 1)) % BlockSize], r)
  }

  /** The array after rounds `0 .. n-1`, each applied to the whole result of the one before. */
  function Rounds(t: seq<bv8>, n: nat): (u: seq<bv8>)
    requires IsBlock(t)
    ensures IsBlock(u)
    decreases n
  {
    if n == 0 then t else MixRound(Rounds(t, n - 1), n - 1)
  }

  /** The key that `calc_next_block_key` writes to `new_key`. */
  function NextBlockKey(blockData: seq<bv8>, key: seq<bv8>, block: int, iv: seq<bv8>): (k: seq<bv8>)
    requires IsBlock(blockData) && IsBlock(key) && IsBlock(iv)
    ensures IsBlock(k)
  {
    Rounds(InitialTemp(blockData, key, block, iv), RoundCount(blockData, key))
  }

  /** With a round count of 0 the next key is the temporary array of the first
      loop: `new_key[i] == ((t * (i + 1)) ^ (t >> 3)) mod 256` with
      `t = key[i] ^ block_data[i] ^ iv[i] ^ (block mod 256)`. */
  lemma ZeroRoundsKeepTemp(blockData: seq<bv8>, key: seq<bv8>, block: int, iv: seq<bv8>, i: nat)
    requires IsBlock(blockData) && IsBlock(key) && IsBlock(iv) && i < BlockSize
    requires key[blockData[0] as int % BlockSize] == 0
    ensures NextBlockKey(blockData, key, block, iv)[i] == Scramble(Whiten(key[i], blockData[i], iv[i], ByteOf(block % 256)), i)
  {
    assert RoundCount(blockData, key) == 0;
    assert NextBlockKey(blockData, key, block, iv) == InitialTemp(blockData, key, block, iv);
  }

  /** The body of the round loop of `calc_next_block_key` (cypher.hpp:34-42):
      round `r` is computed into a fresh `round_temp` from the unchanged `temp`,
      then copied back over the whole of `temp`. */
  method ApplyRound(temp: array<bv8>, r: nat)
    requires temp.Length == BlockSize
    modifies temp
    ensures temp[..] == MixRound(old(temp[..]), r)
  {
    ghost var prev := temp[..];
    var roundTemp := new bv8[BlockSize];
    for i := 0 to BlockSize
      modifies roundTemp
      invariant forall j :: 0 <= j < i ==> roundTemp[j] == MixAt(prev, r, j)
    {
      var rotatedIdx := (i + (r + 1)) % BlockSize;
      roundTemp[i] := RoundByte(temp[i], temp[rotatedIdx], r);
    }
    assert roundTemp[..] == MixRound(prev, r);
    CopyBlock(roundTemp, temp);
  }

  /** `calc_next_block_key(block_data, key, block, iv, new_key)`.

      `new_key` may be the same buffer as `key` (the driver passes them aliased
      from the second block on, cypher.hpp:132-133): the result is still the
      next key of the OLD key contents, because `key` is read (for the temporary
      array and the round count) before `new_key` is written. `new_key` must not
      be `block_data` or `iv`. Only `new_key` changes. */
  method CalcNextBlockKey(blockData: array<bv8>, key: array<bv8>, block: int, iv: array<bv8>, newKey: array<bv8>)
    requires blockData.Length == BlockSize && key.Length == BlockSize
    requires iv.Length == BlockSize && newKey.Length == BlockSize
    requires newKey != blockData && newKey != iv
    modifies newKey
    ensures newKey[..] == NextBlockKey(old(blockData[..]), old(key[..]), block, old(iv[..]))
  {
    ghost var oldKey, oldBlock, oldIv := key[..], blockData[..], iv[..];
    var temp := new bv8[BlockSize];
    for i := 0 to BlockSize
      modifies temp
      invariant forall j :: 0 <= j < i ==> temp[j] == TempAt(oldBlock, oldKey, block, oldIv, j)
    {
      var blkByte := ByteOf(block % 256);
      temp[i] := Whiten(key[i], blockData[i], iv[i], blkByte);
      temp[i] := Scramble(temp[i], i);
    }
    ghost var t0 := temp[..];
    assert t0 == InitialTemp(oldBlock, oldKey, block, oldIv);

    var rounds := key[blockData[0] as int % BlockSize] as int;
    assert rounds == RoundCount(oldBlock, oldKey);
    for r := 0 to rounds
      modifies temp
      invariant temp[..] == Rounds(t0, r)
    {
      ApplyRound(temp, r);
    }

    CopyBlock(temp, newKey);
  }
}
