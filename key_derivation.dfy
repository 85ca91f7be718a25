/** Key derivation: the seed `i_vec` and `generate_key` (cypher.hpp:8-17, 50-94).

    A 32-byte state starts as `i_vec`, every input byte is folded into the
    state position `i % 32`, eight mixing rounds follow (each building a whole
    new state from the previous one), the final state is the key, and the IV is
    the key XORed with a rotation of `i_vec` and a position constant. */
module KeyDerivation {
  import opened Bytes

  /** `i_vec` (cypher.hpp:8-17). */
  const IVec: seq<bv8> := [
    0x08, 0x29, 0x04, 0x34, 0x40,
    0x1f, 0x3d, 0x2b, 0x2d, 0x53,
    0x0e, 0x2c, 0x3d, 0x4c, 0x2f,
    0x38, 0x1b, 0x0e, 0x31, 0x36,
    0x61, 0x46, 0x11, 0x4d, 0x25,
    0x3c, 0x25, 0x41, 0x43, 0x1e,
    0x38, 0x48
  ]

  /** A bound on `data_size` under which `i * 0x5A` (cypher.hpp:60) stays
      within a 32-bit signed `int` for every `i < data_size`. It is one below
      the largest such `data_size`, since the largest index is `data_size - 1`. */
  const MaxDataSize: nat := 0x7FFF_FFFF / 0x5A

  /** The number of mixing rounds (cypher.hpp:63). */
  const KeyRounds: nat := 8

  // ---------------------------------------------------------------- folding

  /** `(byte)(state[pos] ^ data[i] ^ (byte)(i * 0x5A))` (cypher.hpp:60). */
  function FoldByte(s: bv8, d: bv8, i: nat): bv8
  {
    s ^ d ^ (ByteOf(i) * 0x5A)
  }

  /** The state after the fold loop, started from `seed`, has consumed the
      first `n` bytes of `data` (cypher.hpp:52-61; `generate_key` starts from
      `i_vec`). */
  function Folded(seed: seq<bv8>, data: seq<bv8>, n: nat): (s: seq<bv8>)
    requires IsBlock(seed) && n <= |data|
    ensures IsBlock(s)
  {
    if n == 0 then seed
    else
      var s := Folded(seed, data, n - 1);
      var pos := (n - 1) % BlockSize;
      s[pos := FoldByte(s[pos], data[n - 1], n - 1)]
  }

  /** What folding `data[i]` XORs into its state position: `data[i] ^ (byte)(i * 0x5A)`. */
  function FoldMask(d: bv8, i: nat): bv8
  {
    d ^ (ByteOf(i) * 0x5A)
  }

  /** What folding `data[i]` XORs into state position `p`: its mask when
      `i % 32 == p`, and nothing otherwise. */
  function ColumnTerm(data: seq<bv8>, p: nat, i: nat): bv8
    requires i < |data|
  {
    if i % BlockSize == p then FoldMask(data[i], i) else 0
  }

  /** The XOR, over the indices `i < n` with `i % 32 == p`, of
      `data[i] ^ (byte)(i * 0x5A)`: what folding the first `n` bytes adds to
      state position `p`. */
  function ColumnXor(data: seq<bv8>, p: nat, n: nat): bv8
    requires n <= |data|
  {
    if n == 0 then 0 else ColumnXor(data, p, n - 1) ^ ColumnTerm(data, p, n - 1)
  }

  /** The folded state, position by position: `seed[p]` XORed with
      `data[i] ^ (byte)(i * 0x5A)` for every `i < n` with `i % 32 == p`.
      With `n == 0` this is the seed itself. */
  lemma {:induction false} FoldedAt(seed: seq<bv8>, data: seq<bv8>, n: nat, p: nat)
    requires IsBlock(seed) && n <= |data| && p < BlockSize
    ensures Folded(seed, data, n)[p] == seed[p] ^ ColumnXor(data, p, n)
  {
    if n == 0 {
      XorZero(seed[p]);
    } else {
      FoldedAt(seed, data, n - 1, p);
      FoldStepAt(seed, data, n, p);
      XorAssoc(seed[p], ColumnXor(data, p, n - 1), ColumnTerm(data, p, n - 1));
    }
  }

  /** Folding byte `n - 1` XORs its column term into position `p`: its mask
      when `(n - 1) % 32 == p`, and 0 at every other position. */
  lemma FoldStepAt(seed: seq<bv8>, data: seq<bv8>, n: nat, p: nat)
    requires IsBlock(seed) && 0 < n <= |data| && p < BlockSize
    ensures Folded(seed, data, n)[p] == Folded(seed, data, n - 1)[p] ^ ColumnTerm(data, p, n - 1)
  {
    var prev := Folded(seed, data, n - 1);
    if (n - 1) % BlockSize == p {
      FoldByteIsMask(prev[p], data[n - 1], n - 1);
    } else {
      XorZero(prev[p]);
    }
  }

  /** `FoldByte` XORs the mask of the data byte into the state byte. */
  lemma FoldByteIsMask(s: bv8, d: bv8, i: nat)
    ensures FoldByte(s, d, i) == s ^ FoldMask(d, i)
  {
    XorAssoc(s, d, ByteOf(i) * 0x5A);
  }

  lemma XorZero(a: bv8)
    ensures a ^ 0 == a
  {
  }

  lemma XorAssoc(a: bv8, b: bv8, c: bv8)
    ensures (a ^ b) ^ c == a ^ (b ^ c)
  {
  }

  // ---------------------------------------------------------------- mixing

  /** `(byte)(state[i] ^ state[next_idx] ^ (byte)((r + 1) * 0xA5))` (cypher.hpp:70). */
  function RoundInput(a: bv8, b: bv8, r: nat): bv8
  {
    a ^ b ^ (ByteOf(r + 1) * 0xA5)
  }

  /** `(r + 1) & 7` (cypher.hpp:71); for a non-negative `r` this is `(r + 1) % 8`. */
  function RotationAmount(r: nat): nat
  {
    (r + 1) % 8
  }

  /** `(byte)((val >> k) | (val << (8 - k)))` (cypher.hpp:71). The `bv8` left
      shift drops the bits the `(byte)` cast drops, including all of them when
      `k == 0`. The result is the rotation of `val` right by `k` bits. */
  function Rotate(val: bv8, k: nat): bv8
    requires k < 8
  {
    (val >> k) | (val << (8 - k))
  }

  /** `Rotate` is the rotation of `val` right by `k` bits. */
  lemma RotateIsRotation(val: bv8, k: nat)
    requires k < 8
    ensures Rotate(val, k) == val.RotateRight(k)
  {
    if k == 0 {
    } else if k == 1 {
    } else if k == 2 {
    } else if k == 3 {
    } else if k == 4 {
    } else if k == 5 {
    } else if k == 6 {
    } else {
    }
  }

  /** `(byte)(rotated ^ (rotated >> 3) ^ (rotated * (i + 1)))` (cypher.hpp:72). */
  function MixByte(rotated: bv8, i: nat): bv8
  {
    rotated ^ (rotated >> 3) ^ (rotated * ByteOf(i + 1))
  }

  /** A round's output byte at position `i` from its two input bytes (cypher.hpp:70-72). */
  function StateByte(a: bv8, b: bv8, r: nat, i: nat): bv8
  {
    MixByte(Rotate(RoundInput(a, b, r), RotationAmount(r)), i)
  }

  /** Round `r` of key derivation, reading only the previous state `s`. */
  function StateRound(s: seq<bv8>, r: nat): (u: seq<bv8>)
    requires IsBlock(s)
    ensures IsBlock(u)
  {
    seq(BlockSize, i requires 0 <= i < BlockSize => StateAt(s, r, i))
  }

  /** Byte `i` of round `r`'s output, read from `state[i]` and
      `state[(i + r + 1) % 32]` (cypher.hpp:69-73). */
  function StateAt(s: seq<bv8>, r: nat, i: nat): bv8
    requires IsBlock(s) && i < BlockSize
  {
    StateByte(s[i], s[(i + r + 1) % BlockSize], r, i)
  }

  /** The state after rounds `0 .. n-1`, each applied to the whole previous state. */
  function StateRounds(s: seq<bv8>, n: nat): (u: seq<bv8>)
    requires IsBlock(s)
    ensures IsBlock(u)
    decreases n
  {
    if n == 0 then s else StateRound(StateRounds(s, n - 1), n - 1)
  }

  /** In the last round (`r == 7`) the rotation amount `(r + 1) & 7` is 0, so
      `rotated == val`. */
  lemma LastRoundDoesNotRotate(val: bv8)
    ensures RotationAmount(KeyRounds - 1) == 0
    ensures Rotate(val, RotationAmount(KeyRounds - 1)) == val
  {
  }

  // ---------------------------------------------------------------- key and IV

  /** The key `generate_key` returns for `data`: eight rounds over the folded state. */
  function DeriveKey(data: seq<bv8>): (key: seq<bv8>)
    ensures IsBlock(key)
  {
    StateRounds(Folded(IVec, data, |data|), KeyRounds)
  }

  /** `(byte)(state[i] ^ i_vec[idx] ^ (byte)((i + 1) * 0x3F))` (cypher.hpp:87). */
  function IvByte(k: bv8, seed: bv8, i: nat): bv8
  {
    k ^ seed ^ (ByteOf(i + 1) * 0x3F)
  }

  /** The IV `generate_key` writes for the final state `key` (cypher.hpp:83-91). */
  function DeriveIv(key: seq<bv8>): (iv: seq<bv8>)
    requires IsBlock(key)
    ensures IsBlock(iv)
  {
    seq(BlockSize, i requires 0 <= i < BlockSize => IvAt(key, i))
  }

  /** Byte `i` of the IV (cypher.hpp:86-87). */
  function IvAt(key: seq<bv8>, i: nat): bv8
    requires IsBlock(key) && i < BlockSize
  {
    IvByte(key[i], IVec[(i + 13) % BlockSize], i)
  }

  /** The key recovered from an IV by undoing the IV's XOR masks. */
  function KeyOfIv(iv: seq<bv8>): (key: seq<bv8>)
    requires IsBlock(iv)
    ensures IsBlock(key) && DeriveIv(key) == iv
  {
    var key := seq(BlockSize, i requires 0 <= i < BlockSize => IvAt(iv, i));
    assert forall i :: 0 <= i < BlockSize ==> DeriveIv(key)[i] == iv[i];
    key
  }

  /** The IV determines the key: `key[i] == iv[i] ^ i_vec[(i + 13) % 32] ^
      (byte)((i + 1) * 0x3F)`, so `KeyOfIv` inverts `DeriveIv`. */
  lemma IvDeterminesKey(key: seq<bv8>)
    requires IsBlock(key)
    ensures KeyOfIv(DeriveIv(key)) == key
  {
    var back := KeyOfIv(DeriveIv(key));
    assert forall i :: 0 <= i < BlockSize ==> back[i] == key[i];
  }

  // ---------------------------------------------------------------- generate_key

  /** The body of the round loop of `generate_key` (cypher.hpp:66-76): round
      `r` is computed into a fresh `temp` from the unchanged state, then copied
      back over the whole state. */
  method ApplyStateRound(state: array<bv8>, r: nat)
    requires state.Length == BlockSize
    modifies state
    ensures state[..] == StateRound(old(state[..]), r)
  {
    ghost var prev := state[..];
    var temp := new bv8[BlockSize];
    for i := 0 to BlockSize
      modifies temp
      invariant forall j :: 0 <= j < i ==> temp[j] == StateAt(prev, r, j)
    {
      var nextIdx := (i + r + 1) % BlockSize;
      var val := RoundInput(state[i], state[nextIdx], r);
      var rotated := Rotate(val, RotationAmount(r));
      var mixed := MixByte(rotated, i);
      temp[i] := mixed;
    }
    assert temp[..] == StateRound(prev, r);
    CopyBlock(temp, state);
  }

  /** `generate_key(data, data_size, iv)`: returns a fresh key buffer holding
      the derived key of the first `data_size` bytes of `data`, and overwrites
      `iv` with the IV of that key. `iv` may be the same buffer as `data`: all of `data` is
      read before `iv` is written. */
  method GenerateKey(data: array<bv8>, dataSize: int, iv: array<bv8>) returns (key: array<bv8>)
    requires 0 <= dataSize <= data.Length && dataSize <= MaxDataSize
    requires iv.Length == BlockSize
    modifies iv
    ensures fresh(key) && key.Length == BlockSize
    ensures key[..] == DeriveKey(old(data[..dataSize]))
    ensures iv[..] == DeriveIv(key[..])
  {
    var state := new bv8[BlockSize];
    LoadIVec(state);
    FoldData(state, data, dataSize);
    MixState(state);
    key := new bv8[BlockSize];
    CopyBlock(state, key);
    WriteIv(state, iv);
  }

  /** `state[i] = i_vec[i]` for every `i` (cypher.hpp:52-54). */
  method LoadIVec(state: array<bv8>)
    requires state.Length == BlockSize
    modifies state
    ensures state[..] == IVec
  {
    for i := 0 to BlockSize
      modifies state
      invariant state[..i] == IVec[..i]
    {
      state[i] := IVec[i];
    }
  }

  /** The fold loop of `generate_key` (cypher.hpp:57-61): byte `i` of the data
      is XORed, with `(byte)(i * 0x5A)`, into state position `i % 32`. */
  method FoldData(state: array<bv8>, data: array<bv8>, dataSize: int)
    requires state.Length == BlockSize && state != data
    requires 0 <= dataSize <= data.Length
    modifies state
    ensures state[..] == Folded(old(state[..]), data[..dataSize], dataSize)
  {
    ghost var seed, input := state[..], data[..dataSize];
    for i := 0 to dataSize
      modifies state
      invariant state[..] == Folded(seed, input, i)
    {
      var pos := i % BlockSize;
      state[pos] := FoldByte(state[pos], data[i], i);
    }
  }

  /** The eight mixing rounds of `generate_key` (cypher.hpp:63-77). */
  method MixState(state: array<bv8>)
    requires state.Length == BlockSize
    modifies state
    ensures state[..] == StateRounds(old(state[..]), KeyRounds)
  {
    ghost var folded := state[..];
    for r := 0 to KeyRounds
      modifies state
      invariant state[..] == StateRounds(folded, r)
    {
      ApplyStateRound(state, r);
    }
  }

  /** The IV computation of `generate_key` (cypher.hpp:83-91): the IV is built
      in a local `iv_state` from the final state, then copied into `iv`. */
  method WriteIv(state: array<bv8>, iv: array<bv8>)
    requires state.Length == BlockSize && iv.Length == BlockSize && state != iv
    modifies iv
    ensures iv[..] == DeriveIv(state[..])
  {
    ghost var key := state[..];
    var ivState := new bv8[BlockSize];
    for i := 0 to BlockSize
      modifies ivState
      invariant ivState[..i] == DeriveIv(key)[..i]
    {
      var idx := (i + 13) % BlockSize;
      ivState[i] := IvByte(state[i], IVec[idx], i);
      assert ivState[..i + 1] == ivState[..i] + [IvAt(key, i)];
    }
    assert ivState[..] == ivState[..BlockSize];
    CopyBlock(ivState, iv);
  }
}
