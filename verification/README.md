# HHVLM in Dafny

A model of the HHVLM digest (Hybrid Hashing with Variable-Length Mixing) as
`hybrid_hash` in `hhvlm.c` computes it. The digest maps any byte string to
32 bytes in five stages:

- a fixed 16-byte salt, byte `i` being `i * 17`;
- a buffer holding the salt, then the input, zero-padded to whole 32-byte
  blocks;
- absorption of every block, read as 8 little-endian words, into a single
  32-bit state that starts at `0xdeadbeef`;
- five finalisation rounds with no new input;
- `extend_state`, which spreads the state over eight 4-byte slots, rotating
  it left by 8 bits from slot to slot, followed by an XOR of the salt into
  bytes 0 to 15.

The project has three files:

- `bits.dfy` (module `Bits`): the ROTLEFT rotation and the little-endian
  byte view of a 32-bit word.
- `hhvlm.dfy` (module `Hhvlm`): each stage as a pure function on `bv32` and
  `seq<bv8>`, with the digest `HybridHash` as their composition and lemmas
  about the stages and the whole.
- `hhvlm_loops.dfy` (module `HhvlmLoops`): the C loops as methods with loop
  invariants. Each is proved to compute its stage of `HybridHash`, and
  `ComputeHash` is proved to compute `HybridHash` itself.

Absorption is written once over an arbitrary per-word step
(`AbsorbWords`/`AbsorbBlocks`). The digest instantiates it with `MixWord`;
`CountWord` is used to count the words visited. The output layout is
likewise written once over an arbitrary word type (`Slots`). The digest
instantiates it with `LeBytes` and a rotation by 8.

Two assumptions pin down what C leaves to the platform:

- The `uint32_t *` view of the buffer (hhvlm.c:94) and the `memcpy` of the
  state (hhvlm.c:57) are taken to be little-endian: `LeWord` and `LeBytes`.
- ROTLEFT by zero (hhvlm.c:18) is taken to be the identity (see Findings).

At hhvlm.c:96 the rotation amount `j + i % 32` never exceeds 7: `%` binds
tighter than `+`, and `i` is always a multiple of 32, so the amount is
exactly `j` (`Hhvlm.RotateAmountIsWordIndex`). The model uses the amount as
the code computes it, unreduced.

## Model

| member | source | states |
|---|---|---|
| Bits.Rotl | hhvlm.c:18 | ROTLEFT, which `rotate_left` (hhvlm.c:31-33) only applies; pinned down by `RotlIsRotation` (a true rotation for every amount below 32) and `RotlZero` (the identity at 0) |
| Bits.RotlIsRotation | hhvlm.c:18 | for every amount below 32, bit `i` of the argument lands at bit `(i + b) mod 32` of ROTLEFT's result, so ROTLEFT is a true rotation |
| Bits.RotlZero | hhvlm.c:18 | rotating by zero gives back the word (the reading adopted for the amount the macro leaves undefined) |
| Bits.RotlThen8 | hhvlm.c:58 | a rotation by 8 after a rotation by `b` is a rotation by `(b + 8) mod 32` |
| Bits.RotlByteSteps | hhvlm.c:56-58 | two, three and four successive rotations by 8 are rotations by 16, by 24 and the identity |
| Bits.MacroUndefinedAtZero | hhvlm.c:18 | both shift counts of ROTLEFT(a, b) are ones C defines exactly when 0 < b < 32; at b = 0 the right shift is by 32 |
| Bits.LeWord | hhvlm.c:94-96 | `block[j]`, the word read little-endian from four buffer bytes; pinned down by `LeBytesOfLeWord` and `LeWordOfLeBytes`, which make it the inverse of `LeBytes` |
| Bits.LeBytes | hhvlm.c:57 | the four bytes `memcpy` copies out of the state, least significant first; always four bytes, and injective by `LeBytesInjective` |
| Bits.LeBytesOfLeWord | hhvlm.c:94 | writing back a word read from a buffer gives the four bytes it was read from |
| Bits.LeWordOfLeBytes | hhvlm.c:57 | reading four bytes written from a word gives the word, wherever they sit |
| Bits.LeBytesInjective | hhvlm.c:57 | distinct states are copied out as distinct 4-byte slots |
| Bits.LeBytesRotl8 | hhvlm.c:58 | rotating a word by 8 moves each of its bytes up one place, the top byte to the bottom |
| Hhvlm.Salt | hhvlm.c:42-46 | the salt has exactly 16 bytes and the `(uint8_t)` cast of `i * 17` never truncates |
| Hhvlm.SaltPattern | hhvlm.c:43-45 | salt byte `i`, read as a number, is `i * 17` |
| Hhvlm.SaltDistinct | hhvlm.c:43-45 | the 16 salt bytes are pairwise distinct, and only byte 0 is zero |
| Hhvlm.PaddedLen | hhvlm.c:76 | the padded length is a positive multiple of 32, at least the length plus 16 and below the length plus 48 |
| Hhvlm.PaddedLenIsLeast | hhvlm.c:76 | no smaller multiple of 32 holds the salt and the input |
| Hhvlm.PaddedLenEmpty | hhvlm.c:76 | the empty input is padded to one 32-byte block |
| Hhvlm.Zeros | hhvlm.c:89 | the padding has the requested length and every byte is zero |
| Hhvlm.Preprocess | hhvlm.c:85-90 | the buffer has the padded length: the salt in bytes 0 to 15, the input unchanged from byte 16, zeros after it |
| Hhvlm.PreprocessInjectiveAtLength | hhvlm.c:86-87 | among inputs of one length, the buffer determines the input |
| Hhvlm.PreprocessIgnoresTrailingZero | hhvlm.c:76-90 | a zero byte appended to an input whose salted length is not a multiple of 32 leaves the buffer unchanged |
| Hhvlm.Scramble | hhvlm.c:97 | `(state * 0x5bd1e995) ^ ROTLEFT(state, 13)` with 32-bit wrap-around, the step both loops end with (hhvlm.c:103 is the same statement); used by `AbsorbBlock` and `FinalRounds`, which are proved equal to the loops |
| Hhvlm.MixWord | hhvlm.c:96-97 | one inner absorption iteration: XOR in the word rotated by its amount, then `Scramble`; `AbsorbBlock` runs it once per word and is proved equal to `AbsorbWords` |
| Hhvlm.RotateAmount | hhvlm.c:96 | the amount `j + i % 32`, with `%` binding tighter than `+`; equal to `j` at every block offset by `RotateAmountIsWordIndex` |
| Hhvlm.RotateAmountIsWordIndex | hhvlm.c:93-96 | at a block offset, the amount `j + i % 32` for word `j < 8` equals `j`, so it is below 8 and never reaches 32 |
| Hhvlm.AbsorbWords | hhvlm.c:95-98 | words `j` to 7 of one block folded into the state; equal to the inner loop by `AbsorbBlock`, and to the flat walk over those words by `AbsorbWordsIsMixWords` |
| Hhvlm.AbsorbBlocks | hhvlm.c:93-99 | the blocks from an offset folded in turn; equal to the outer loop by `AbsorbLoop`, and to the flat walk by `AbsorbBlocksIsMixWords` |
| Hhvlm.Absorb | hhvlm.c:92-99 | the whole absorption of the padded buffer; computed by `AbsorbLoop` from `0xdeadbeef`, a walk over every word by `AbsorbIsMixWords`, visiting 8 words per block by `AbsorbVisitsEveryWord` |
| Hhvlm.NoPartialBlock | hhvlm.c:93 | in a buffer of whole blocks, a block offset with less than 32 bytes after it is the end, so the loop guard `i < padded_length` never meets a partial block |
| Hhvlm.Position | hhvlm.c:95 | the place of a word within its block is below 8 |
| Hhvlm.WordPosition | hhvlm.c:94-95 | word `j` of the block at a multiple of 32 sits at place `j` |
| Hhvlm.AbsorbWordsIsMixWords | hhvlm.c:95-98 | the inner loop over one block is the flat walk over the same words, each rotated by its place |
| Hhvlm.AbsorbBlocksIsMixWords | hhvlm.c:93-99 | the nested block and word loops are one flat walk over every word of the buffer, for any step |
| Hhvlm.AbsorbIsMixWords | hhvlm.c:92-99 | absorption with the HHVLM step is the flat walk over every word of the padded buffer |
| Hhvlm.MixWordsCount | hhvlm.c:93-95 | the flat walk from an offset visits each remaining whole word exactly once |
| Hhvlm.AbsorbVisitsEveryWord | hhvlm.c:93-95 | absorption visits `padded_length / 32` blocks of 8 words each |
| Hhvlm.FinalRound | hhvlm.c:102-103 | one finalisation round: `state ^= ROTLEFT(state, 17)`, then `Scramble`; the body of `FinalRounds`' loop |
| Hhvlm.Rounds | hhvlm.c:101-104 | `n` finalisation rounds; `state == Rounds(absorbed, round)` is `FinalRounds`' loop invariant, kept by `RoundsCompose` |
| Hhvlm.Finalize | hhvlm.c:101-104 | the five rounds; computed by `FinalRounds` |
| Hhvlm.RoundsCompose | hhvlm.c:101-104 | `m` finalisation rounds followed by `n` more are `m + n` rounds, so one more pass of the round loop is one more round |
| Hhvlm.Slots | hhvlm.c:56-57 | `n` slots occupy `4n` bytes |
| Hhvlm.SlotsAt | hhvlm.c:56-58 | slot `k` holds the bytes of the word after `k` steps |
| Hhvlm.SlotsPeriod | hhvlm.c:56-58 | when four steps return to the start, the slots repeat with period 4 |
| Hhvlm.ByteRotations | hhvlm.c:58 | after 1, 2 and 3 byte rotations the state is rotated by 8, 16 and 24 bits, and after 4 it is back |
| Hhvlm.ExtendState | hhvlm.c:55-60 | `extend_state` writes exactly 32 bytes |
| Hhvlm.ExtendStateSlots | hhvlm.c:55-60 | slot `k` of the first four is the little-endian encoding of the state rotated by `8k` |
| Hhvlm.ExtendStateRepeats | hhvlm.c:55-60 | bytes 16 to 31 repeat bytes 0 to 15 |
| Hhvlm.ExtendStateReveals | hhvlm.c:57 | the state can be read back from the first and from the fifth slot |
| Hhvlm.SaltXor | hhvlm.c:109-111 | the salted output still has 32 bytes |
| Hhvlm.SaltXorScope | hhvlm.c:109-111 | bytes 16 to 31 are untouched, and each of bytes 0 to 15 changes except byte 0, whose salt is zero |
| Hhvlm.SaltXorInvolution | hhvlm.c:109-111 | applying the salt XOR twice gives back the output |
| Hhvlm.FinalState | hhvlm.c:92-104 | the state after absorption and finalisation; it determines the digest and is read back from it by `HashRevealsFinalState` and `HashIsFinalState` |
| Hhvlm.HybridHash | hhvlm.c:71-115 | the digest is a total function of the input bytes and has exactly 32 bytes |
| Hhvlm.SpreadHalves | hhvlm.c:106-111 | for any state, bytes 16 to 31 of its salted spread are the spread's own, and byte `i < 16` is byte `i + 16` XORed with salt byte `i` |
| Hhvlm.HashHalves | hhvlm.c:106-111 | bytes 16 to 31 of the digest are `extend_state`'s output, and `hash[i] == hash[i + 16] ^ salt[i]` for every `i < 16` |
| Hhvlm.SpreadReveals | hhvlm.c:106-111 | the state is the little-endian word at byte 16 of its salted spread |
| Hhvlm.HashRevealsFinalState | hhvlm.c:92-111 | the state after finalisation is the little-endian word at byte 16 of the digest |
| Hhvlm.SpreadInjective | hhvlm.c:106-111 | two states have the same salted spread if and only if they are equal |
| Hhvlm.HashIsFinalState | hhvlm.c:71-115 | two inputs have equal digests if and only if their states after finalisation are equal |
| Hhvlm.HashIgnoresTrailingZero | hhvlm.c:76-90 | a zero byte appended to an input whose salted length is not a multiple of 32 leaves the digest unchanged |
| HhvlmLoops.GenerateSalt | hhvlm.c:42-46 | the salt loop produces the salt |
| HhvlmLoops.FillBuffer | hhvlm.c:85-90 | the copies and the conditional `memset` produce the preprocessed buffer |
| HhvlmLoops.AbsorbBlock | hhvlm.c:94-98 | the inner loop folds the 8 words of one block into the state |
| HhvlmLoops.AbsorbLoop | hhvlm.c:92-99 | the two nested loops compute the absorption of the whole buffer from `0xdeadbeef` |
| HhvlmLoops.FinalRounds | hhvlm.c:101-104 | the round loop computes the five finalisation rounds |
| HhvlmLoops.ExtendStateLoop | hhvlm.c:55-60 | the slot loop computes `extend_state` |
| HhvlmLoops.XorSalt | hhvlm.c:108-111 | the last loop XORs the salt into bytes 0 to 15 and nothing else |
| HhvlmLoops.ComputeHash | hhvlm.c:71-115 | `hybrid_hash`, stage by stage, computes the digest |

## Left out

- `main` (hhvlm.c:123-142): argument checking, `strlen` and hex printing are I/O.
- Allocation failure (hhvlm.c:79-83): `malloc`, `perror` and `exit` have no counterpart in a pure model. The buffer is a sequence that always exists, and `free` (hhvlm.c:114) has nothing to release.
- Hhvlm.PaddedLen: integers are unbounded, so a `size_t` overflow of `length + 47` for lengths near the top of the type is not modelled.
- Native byte order and alignment (hhvlm.c:57, hhvlm.c:94): both views are modelled as little-endian by assumption, and the alignment of the `uint32_t *` cast is not modelled.
- Bits.RotlThen8: composition of rotations is proved only when the second rotation is by 8, the case `extend_state` uses, not for two arbitrary amounts.
- HhvlmLoops.AbsorbBlock: the loop body calls `MixWord`, and `FinalRounds` calls `FinalRound`; these functions are the two statements of hhvlm.c:96-97 and hhvlm.c:102-103 rather than the statements inlined.
- Hhvlm.AbsorbBlocks: the loop stops when less than a whole block remains rather than at `i < padded_length`. On the padded buffer the two agree (`Hhvlm.NoPartialBlock`).
- The 16-word variant with a random salt, and the scripts `collision-test.py` and `benchmark.py`: the variant has no code here, and the scripts are process spawning, timing and randomness around the compiled program.

## Findings

| source | as written | input that shows it | evidently intended | confidence | as-written member | corrected member |
|---|---|---|---|---|---|---|
| hhvlm.c:18, hhvlm.c:96 | `ROTLEFT(a, b)` shifts `a` right by `32 - b`, and the absorption loop calls it with `b = j + i % 32`, which is 0 for the first word of every block | any input: word 0 of block 0 is rotated by 0, so `a >> 32` is evaluated, which section 6.5.7 of ISO C11 leaves undefined for a 32-bit operand | a rotation by 0 is the identity | not executed | Bits.MacroUndefinedAtZero | Bits.RotlZero |
