# Cypher: a verified model of the block cipher in `cypher.hpp`

This project is a Dafny model of the block cipher in `Cypher/cypher.hpp`. It
covers all four parts of the file:

- the constant seed `i_vec`;
- `calc_next_block_key`, which turns a 32-byte block, a key, a block index and an IV into the next block key;
- `generate_key`, which folds the data into a 32-byte state, mixes it for eight rounds and derives a key and an IV;
- `encdec`, the driver. It zero-pads the data to whole 32-byte blocks,
  XORs each block with the current key, chains the keys through
  `calc_next_block_key`, and zeroes the output's padding.

The model takes the same imperative form as the C++ source:

- Buffers are `array<bv8>` values.
- Every loop is a `for` or `while` loop carrying its invariants.
- The local buffers `temp`, `round_temp`, `state`, `iv_state`, `padded_data`, `block_data` and `encrypted_data` are fresh arrays. They are filled and copied back exactly as the source does.
- Each method is proved against a pure specification function:
  - `NextBlockKey` for `calc_next_block_key`;
  - `DeriveKey` and `DeriveIv` for `generate_key`;
  - `EncDecOutput`, with its key chain `Keys`, for `encdec`.
- Lemmas state the properties of those functions.

The model follows the code as written, including two quirks:

- **The derived key is never used.** In `encdec`, the key returned by `generate_key` is bound to an inner `key` that shadows the outer one (cypher.hpp:103). The next line only rebinds the local parameter `initial_key`. So both paths XOR with the caller's `initial_key`, and on the encryption path `generate_key` only overwrites `iv`. The cipher's intended design returns the derived key to the caller. The model follows the code: `Driver.EncDec` states that the output starts from the caller's key and that the caller's key buffer is unchanged.
- **Decryption chains on plaintext.** The block handed to `calc_next_block_key` is the XOR output (cypher.hpp:128-132). That is ciphertext when encrypting but plaintext when decrypting. The intended design reproduces the same key sequence on both sides and promises a round trip for every length. As written, only the first block is guaranteed to round-trip:
  - `Driver.SingleBlockRoundTrip` proves the round trip for inputs of at most one block, whatever the IVs.
  - `Driver.RoundTripWhileKeysAgree` proves it for any byte whose block keys agree.
  - `Driver.DecryptionChainsOnPlaintext` states the key each side derives for the second block.
  - `Driver.TwoBlocksDoNotRoundTrip` exhibits a 64-byte input whose byte 32 does not come back.

Three more points about the model:

- **Aliasing.** From the second block on, `key` and `new_key` are the same buffer (cypher.hpp:132-133). `BlockKey.CalcNextBlockKey` allows `newKey == key` and proves the result is still the next key of the old key contents.
- **Byte casts.** A `(byte)` cast of an `int` product is the wrapping `bv8` product with `Bytes.ByteOf`, whose value is the integer modulo 256.
- **The demo.** `main.cpp` is modelled as the scenario `Demo.RunDemo`. Its `key` and `iv` buffers are never initialized, so their contents are parameters.

## Model

| member | source | states |
|---|---|---|
| Bytes.ByteOfIsCast | Cypher/cypher.hpp:25 | the byte used for a non-negative integer `n` (as in `(byte)(block & 0xFF)` and the narrowed products) has value `n` modulo 256 |
| Bytes.CopyBlock | Cypher/cypher.hpp:45-46 | after the copy loop, the destination holds exactly the 32 source bytes |
| BlockKey.RoundCount | Cypher/cypher.hpp:31 | the round count is `key[block_data[0] % 32]` and is below 256 |
| BlockKey.InitialTemp | Cypher/cypher.hpp:22-29 | the temporary array of the first loop is 32 bytes, byte `i` computed from `key[i]`, `block_data[i]`, `iv[i]` and the low byte of `block` alone |
| BlockKey.MixRound | Cypher/cypher.hpp:34-39 | one round maps a 32-byte array to a 32-byte array, byte `i` computed from `temp[i]` and `temp[(i + r + 1) % 32]` of the previous array only |
| BlockKey.Rounds | Cypher/cypher.hpp:32-43 | any number of rounds, each applied to the whole array the previous one produced, gives a 32-byte array |
| BlockKey.NextBlockKey | Cypher/cypher.hpp:20-47 | the next block key is 32 bytes: `RoundCount` rounds over the temporary array of the first loop |
| BlockKey.ZeroRoundsKeepTemp | Cypher/cypher.hpp:23-31 | when `key[block_data[0] % 32] == 0`, `new_key[i]` is `(t * (i + 1)) ^ (t >> 3)` modulo 256, with `t = key[i] ^ block_data[i] ^ iv[i] ^ (block mod 256)` |
| BlockKey.ApplyRound | Cypher/cypher.hpp:32-43 | one round replaces the whole of `temp` with a new array computed only from the previous round's full array, not in place |
| BlockKey.CalcNextBlockKey | Cypher/cypher.hpp:20-47 | `new_key` holds the next block key of the old block, key and IV contents, including when `new_key` is the same buffer as `key`; only `new_key` changes |
| KeyDerivation.FoldedAt | Cypher/cypher.hpp:52-61 | after folding `n` bytes, state position `p` is `seed[p]` XORed with `data[i] ^ (byte)(i * 0x5A)` for every `i < n` with `i % 32 == p`; with `n == 0` the state is the seed |
| KeyDerivation.Folded | Cypher/cypher.hpp:57-61 | the state after folding the first `n` data bytes into a 32-byte seed, one `state[i % 32]` update per byte in order, is again 32 bytes |
| KeyDerivation.FoldStepAt | Cypher/cypher.hpp:59-60 | folding byte `i` changes only state position `i % 32`, where it XORs in `data[i] ^ (byte)(i * 0x5A)`; every other position keeps its value |
| KeyDerivation.FoldByteIsMask | Cypher/cypher.hpp:60 | `state[pos] ^ data[i] ^ (byte)(i * 0x5A)` is the state byte XORed with the data byte's mask `data[i] ^ (byte)(i * 0x5A)` |
| KeyDerivation.StateRound | Cypher/cypher.hpp:66-74 | one round of key derivation maps a 32-byte state to a 32-byte state, byte `i` computed from `state[i]` and `state[(i + r + 1) % 32]` only |
| KeyDerivation.StateRounds | Cypher/cypher.hpp:63-77 | any number of rounds, each applied to the whole state the previous one produced, gives a 32-byte state |
| KeyDerivation.DeriveKey | Cypher/cypher.hpp:52-81 | the key `generate_key` returns for any data, including empty data, is 32 bytes: 8 rounds over `i_vec` with the data folded in |
| KeyDerivation.DeriveIv | Cypher/cypher.hpp:83-91 | the IV of a 32-byte key is 32 bytes, byte `i` being `key[i] ^ i_vec[(i + 13) % 32] ^ (byte)((i + 1) * 0x3F)` |
| KeyDerivation.RotateIsRotation | Cypher/cypher.hpp:71 | OR-ing `val >> k` with `val << (8 - k)` and narrowing to a byte gives the rotation of `val` right by `k` bits, for every `k < 8` |
| KeyDerivation.LastRoundDoesNotRotate | Cypher/cypher.hpp:63-72 | in the last of the 8 rounds (`r == 7`) the rotation amount `(r + 1) & 7` is 0, so `rotated == val` |
| KeyDerivation.KeyOfIv | Cypher/cypher.hpp:83-91 | every 32-byte IV is the IV of the key recovered by undoing its XOR masks |
| KeyDerivation.IvDeterminesKey | Cypher/cypher.hpp:83-91 | recovering the key from the IV of a key gives that key back: the IV determines the key |
| KeyDerivation.LoadIVec | Cypher/cypher.hpp:52-54 | the state is `i_vec` |
| KeyDerivation.FoldData | Cypher/cypher.hpp:57-61 | the state after the fold loop is `Folded` of the old state and the first `data_size` data bytes |
| KeyDerivation.ApplyStateRound | Cypher/cypher.hpp:66-76 | one round replaces the whole state with a new state computed only from the previous state |
| KeyDerivation.MixState | Cypher/cypher.hpp:63-77 | the state after the round loop is exactly 8 rounds applied to the folded state |
| KeyDerivation.WriteIv | Cypher/cypher.hpp:83-91 | `iv[i] == state[i] ^ i_vec[(i + 13) % 32] ^ (byte)((i + 1) * 0x3F)` for every `i < 32` |
| KeyDerivation.GenerateKey | Cypher/cypher.hpp:50-94 | returns a fresh 32-byte key equal to the final state, a function of the first `data_size` data bytes only (so deterministic); `iv` then holds the IV of that key; `iv` may alias `data` |
| Driver.PaddedLength | Cypher/cypher.hpp:108 | `new_data_size` is a multiple of 32, at least `data_size` and less than `data_size + 32` |
| Driver.Pad | Cypher/cypher.hpp:109-117 | the padded buffer has length `new_data_size`, starts with the data, and is zero past it |
| Driver.XorBlock | Cypher/cypher.hpp:125-126 | XORing a 32-byte block with a 32-byte key position by position gives a 32-byte block |
| Driver.XorBlockTwice | Cypher/cypher.hpp:125-126 | XORing a block with the same key twice gives the block back |
| Driver.ChainKeys | Cypher/cypher.hpp:122-137 | the key sequence over `n` blocks has `n + 1` keys, starts with the caller's key, and each next key is `calc_next_block_key` of the XOR output of its block under the key before it |
| Driver.KeyChainDetermined | Cypher/cypher.hpp:122-137 | two key chains over the same padded data and IV with the same first key and length are equal |
| Driver.Keys | Cypher/cypher.hpp:122-137 | `encdec` goes through one key per padded block plus the key computed after the last block |
| Driver.KeyChainExtend | Cypher/cypher.hpp:132-133 | appending the next block key of the last block to a key chain gives a key chain |
| Driver.EncDecOutput | Cypher/cypher.hpp:107-145 | the buffer `encdec` returns is exactly as long as the padded input |
| Driver.EmptyInput | Cypher/cypher.hpp:108-123 | empty data gives an empty output, and no block is processed: the only key is the caller's |
| Driver.OutputShape | Cypher/cypher.hpp:108-145 | the output length is `data_size` rounded up to a multiple of 32; bytes from `data_size` on are zero; byte `i` below `data_size` is `data[i] ^ K_{i / 32}[i % 32]` |
| Driver.FirstBlockUsesInitialKey | Cypher/cypher.hpp:100-126 | every byte of the first block is XORed with the caller's `initial_key` itself, whatever the IV |
| Driver.RoundTripWhileKeysAgree | Cypher/cypher.hpp:123-143 | decrypting the first `data_size` ciphertext bytes gives back `data[i]` at every `i` whose block key agrees on both sides |
| Driver.SingleBlockRoundTrip | Cypher/cypher.hpp:123-143 | for `data_size <= 32`, encrypting and then decrypting with the same `initial_key` gives the data followed by zeros, whatever the two IVs |
| Driver.DecryptionChainsOnPlaintext | Cypher/cypher.hpp:128-132 | with a full first block, encryption derives its second key from the first ciphertext block, and decryption derives it from the first plaintext block |
| Driver.DecryptedByte | Cypher/cypher.hpp:123-143 | decrypting the ciphertext gives byte `i` back as `data[i] ^ K_n[i % 32] ^ K'_n[i % 32]`, with `K` and `K'` the two sides' key chains and `n == i / 32`; so a byte comes back exactly when the two keys agree there |
| Driver.SecondKeyByte | Cypher/cypher.hpp:23-31 | for the key `[1]` followed by zeros, a zero IV and a block starting with a byte `b` from 2 to 7, the round count is 0 and the next key of block 0 starts with `1 ^ b` |
| Driver.TwoBlocksDoNotRoundTrip | Cypher/cypher.hpp:123-143 | for the data `[2]` followed by 63 zeros, the key `[1]` followed by 31 zeros and a zero IV, decrypting the ciphertext gives 1 at index 32 where the data holds 0: inputs longer than a block need not round-trip |
| Driver.FirstOutputBlock | Cypher/cypher.hpp:125-126 | the first output block of a full-block input is the first data block XORed with the caller's key |
| Driver.PadFirstBlock | Cypher/cypher.hpp:112-117 | padding leaves a full first block unchanged |
| Driver.PadData | Cypher/cypher.hpp:109-117 | the fresh `padded_data` buffer is the data followed by zeros to `new_data_size` |
| Driver.XorIntoOutput | Cypher/cypher.hpp:125-126 | block `runs` of `encrypted_data` becomes `padded_data[i] ^ key[i % 32]`; every other byte is unchanged |
| Driver.ReadBlock | Cypher/cypher.hpp:128-130 | the fresh `block_data` is a copy of block `runs` of `encrypted_data` |
| Driver.EncryptBlock | Cypher/cypher.hpp:125-136 | one loop pass writes block `runs` of the XOR output under the current chain key, and leaves the chain's next key in `new_key`; the later bytes of the output are unchanged |
| Driver.XorChain | Cypher/cypher.hpp:119-137 | after the block loop, every byte of `encrypted_data` is the padded byte XORed with its block's chain key, with `key` repointed at `new_key` after the first pass |
| Driver.ZeroPadding | Cypher/cypher.hpp:142-143 | bytes from `data_size` on become zero; the bytes before stay |
| Driver.OutputFromRaw | Cypher/cypher.hpp:141-145 | the XOR output with its padding zeroed is the returned buffer `EncDecOutput` |
| Driver.EncDecBlocks | Cypher/cypher.hpp:107-145 | the returned fresh buffer is `EncDecOutput` of the data, the key buffer passed in and the IV |
| Driver.EncDec | Cypher/cypher.hpp:97-146 | `iv` becomes the IV derived from the data when `dec` is false and is unchanged when it is true; the output is `EncDecOutput` of the data, the caller's `initial_key` and the current `iv`; `data` and `initial_key` are unchanged unless they are the `iv` buffer |
| Demo.NewDemoData | Cypher/main.cpp:6 | the demo buffer holds the 17 bytes of `"Test1337Test1337"` including the terminating NUL |
| Demo.DemoOutputs | Cypher/main.cpp:10-14 | the demo ciphertext is the text XORed with the key, then zeros; decrypting its first 17 bytes gives the text, then 15 zeros |
| Demo.RunDemo | Cypher/main.cpp:4-15 | for any initial contents of `key` and `iv`, `enc_out` is the text XORed with the key, then zeros, and `dec_out` is the 17 bytes of the text followed by 15 zeros |

## Left out

- Heap management: `new`/`delete[]` (cypher.hpp:79, 109, 119, 128, 135, 139) become fresh Dafny arrays. The key buffer that `generate_key` returns is dropped by `encdec` and leaks in the source; the model does not track that leak.
- KeyDerivation.GenerateKey: requires `data_size <= 0x7FFF_FFFF / 0x5A` (23860929). This keeps `i * 0x5A` (cypher.hpp:60) within a signed `int` for every `i < data_size`, since signed overflow is undefined behaviour in C++. The bound is conservative: the largest `data_size` without overflow is one more, 23860930.
- Driver.EncDec: requires `0 <= data_size`, and `data_size <= 0x7FFF_FFFF / 0x5A` when encrypting, since that path calls `generate_key`. When decrypting it requires `data_size <= 0x7FFF_FFFF - 31`, which keeps `data_size + BLOCK_SIZE - 1` (cypher.hpp:108) in range. A negative `data_size` is excluded because the source is then undefined. From -62 to -1, C's truncating `/` rounds the padded length to 0, and the loops at cypher.hpp:116-117 and 142-143 run `i` from `data_size` up to 0, writing `padded_data[i]` and `encrypted_data[i]` at negative indices. Below -62, `new` is asked for a negative length.
- Driver.EncDec: the comment at cypher.hpp:96 says `initial_key` returns the key used. The code only rebinds the local parameter, so the caller's buffer is unchanged, and the model states that.
- Driver.SingleBlockRoundTrip: the round trip is stated only for inputs of at most one block. For longer inputs it does not hold as the code is written, because decryption chains on plaintext. `Driver.TwoBlocksDoNotRoundTrip` gives a two-block input that fails.
- Partial aliasing: a C pointer into the middle of another buffer (for example `iv` pointing inside `data`) is not modelled. Dafny arrays are either the same array or disjoint.
- BlockKey.CalcNextBlockKey: requires `new_key` to differ from `block_data` and `iv`. `encdec` always passes a freshly allocated `block_data` and its own local `new_key`, so this never arises there.
- `main.cpp` output: `std::cout` printing of the buffers as C strings is not modelled. The uninitialized `key` and `iv` of the demo are parameters of `Demo.RunDemo`.
