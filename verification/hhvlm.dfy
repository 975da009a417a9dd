/** The HHVLM digest (`hybrid_hash` in hhvlm.c): a deterministic map from any
    byte string to 32 bytes.

    The pipeline is salt, preprocess, absorb, finalise, extend:
    - the 16-byte salt is a fixed pattern;
    - the salt is put in front of the input and the result is zero-padded to
      a whole number of 32-byte blocks;
    - every block is read as 8 little-endian words, which are folded one by one
      into a single 32-bit state that starts at 0xdeadbeef;
    - five more rounds mix the state with no new input;
    - the state is spread over 32 bytes, rotated by 8 bits from one 4-byte slot
      to the next, and the first 16 bytes are XORed with the salt.

    Sizes are written as literals: 16 (salt), 32 (block and digest), 8 (words
    per block), 4 (bytes per word). */
module Hhvlm {
  import opened Bits

  const InitialState: bv32 := 0xdeadbeef
  const Multiplier: bv32 := 0x5bd1e995

  // ---------------------------------------------------------------- salt

  /** `generate_salt`: byte i is `(uint8_t)(i * 17)`.  Converting to `bv8`
      demands that `i * 17` fit in a byte, so the cast never truncates. */
  function Salt(): (salt: seq<bv8>)
    ensures |salt| == 16
  {
    seq(16, i requires 0 <= i < 16 => (i * 17) as bv8)
  }

  /** Read as numbers, the salt bytes are 0, 17, 34, ..., 255. */
  lemma SaltPattern()
    ensures forall i :: 0 <= i < 16 ==> Salt()[i] as int == i * 17
  {
    SaltPatternLow();
    SaltPatternHigh();
  }

  /** SaltPattern for bytes 0 to 7. */
  lemma SaltPatternLow()
    ensures forall i :: 0 <= i < 8 ==> Salt()[i] as int == i * 17
  {
    assert Salt()[..8] == [0x00, 0x11, 0x22, 0x33, 0x44, 0x55, 0x66, 0x77];
  }

  /** SaltPattern for bytes 8 to 15. */
  lemma SaltPatternHigh()
    ensures forall i :: 8 <= i < 16 ==> Salt()[i] as int == i * 17
  {
    assert Salt()[8..] == [0x88, 0x99, 0xaa, 0xbb, 0xcc, 0xdd, 0xee, 0xff];
  }

  /** The sixteen salt bytes are pairwise distinct, and only the first is
      zero. */
  lemma SaltDistinct()
    ensures forall i, j :: 0 <= i < j < 16 ==> Salt()[i] != Salt()[j]
    ensures forall i :: 0 <= i < 16 ==> (Salt()[i] == 0 <==> i == 0)
  {
    SaltPattern();
  }

  // ---------------------------------------------------------- preprocess

  /** `padded_length`: the room the salt and the input need, rounded up to
      whole 32-byte blocks.  Arithmetic is unbounded here. */
  function PaddedLen(n: nat): (p: nat)
    ensures p % 32 == 0 && 0 < p
    ensures n + 16 <= p < n + 48
  {
    ((n + 16 + 31) / 32) * 32
  }

  /** No smaller whole number of blocks holds the salt and the input. */
  lemma PaddedLenIsLeast(n: nat, m: nat)
    requires m % 32 == 0 && n + 16 <= m
    ensures PaddedLen(n) <= m
  {
  }

  /** The empty input still takes one block. */
  lemma PaddedLenEmpty()
    ensures PaddedLen(0) == 32
  {
  }

  /** `n` zero bytes. */
  function Zeros(n: nat): (z: seq<bv8>)
    ensures |z| == n
    ensures forall k :: 0 <= k < n ==> z[k] == 0
  {
    seq(n, _ => 0)
  }

  /** The buffer `hybrid_hash` allocates and fills: salt, then the input
      unchanged, then zeros up to the padded length. */
  function Preprocess(input: seq<bv8>): (buf: seq<bv8>)
    ensures |buf| == PaddedLen(|input|)
    ensures buf[..16] == Salt()
    ensures buf[16..16 + |input|] == input
    ensures forall k :: 16 + |input| <= k < |buf| ==> buf[k] == 0
  {
    Salt() + input + Zeros(PaddedLen(|input|) - 16 - |input|)
  }

  /** Among inputs of one length, the buffer determines the input. */
  lemma PreprocessInjectiveAtLength(x: seq<bv8>, y: seq<bv8>)
    requires |x| == |y| && Preprocess(x) == Preprocess(y)
    ensures x == y
  {
    assert x == Preprocess(x)[16..16 + |x|];
  }

  /** Across lengths it does not: a zero byte appended to an input that does
      not already fill its last block vanishes into the padding. */
  lemma PreprocessIgnoresTrailingZero(x: seq<bv8>)
    requires (|x| + 16) % 32 != 0
    ensures Preprocess(x + [0]) == Preprocess(x)
  {
    var n := |x|;
    assert PaddedLen(n + 1) == PaddedLen(n) by {
      var q := (n + 16) / 32;
      assert n + 16 == 32 * q + (n + 16) % 32;
      assert 0 < (n + 16) % 32 <= 31;
    }
    var a, b := Preprocess(x + [0]), Preprocess(x);
    forall k | 0 <= k < |a|
      ensures a[k] == b[k]
    {
      if k < 16 {
        assert a[..16][k] == b[..16][k];
      } else if k < 16 + n {
        assert a[16..16 + n + 1][k - 16] == (x + [0])[k - 16];
        assert b[16..16 + n][k - 16] == x[k - 16];
      } else if k == 16 + n {
        assert a[16..16 + n + 1][n] == 0;
      }
    }
  }

  // ------------------------------------------------------------- mixing

  /** A rotation distance below 32; 0 is the identity, the reading RotlZero
      adopts where ROTLEFT itself is undefined. */
  type Amount = b: nat | b < 32

  /** The multiply-xor-rotate step both loops end with:
      `state = (state * 0x5bd1e995) ^ ROTLEFT(state, 13)`. */
  function Scramble(s: bv32): bv32
  {
    (s * Multiplier) ^ Rotl(s, 13)
  }

  /** One inner iteration of the absorption loop: XOR in the rotated word,
      then scramble. */
  function MixWord(state: bv32, word: bv32, amount: Amount): bv32
  {
    Scramble(state ^ Rotl(word, amount as bv32))
  }

  /** The rotation amount `j + i % 32` the source computes for word `j` of the
      block at byte offset `i` (`%` binds tighter than `+`). */
  function RotateAmount(i: nat, j: nat): nat
  {
    j + i % 32
  }

  /** Block offsets are multiples of 32, so word `j` is rotated by exactly
      `j`, which lies in [0, 7] and never reaches 32. */
  lemma RotateAmountIsWordIndex(i: nat, j: nat)
    requires i % 32 == 0 && j < 8
    ensures RotateAmount(i, j) == j && RotateAmount(i, j) < 8
  {
  }

  // --------------------------------------------------------- absorption

  /* The loops below take the per-word step as a parameter: the order in
     which words are visited, and the rotation each gets, does not depend on
     what the step computes.  `hybrid_hash` uses MixWord. */

  /** Words `j` to 7 of the block at byte offset `i`, folded into `state`.
      Word `j` gets the rotation RotateAmount(i, j), that is `j`
      (RotateAmountIsWordIndex). */
  function AbsorbWords<T>(step: (T, bv32, Amount) -> T, buf: seq<bv8>, i: nat, j: nat, state: T): T
    requires i + 32 <= |buf| && j <= 8
    decreases 8 - j
  {
    if j == 8 then state
    else AbsorbWords(step, buf, i, j + 1, step(state, LeWord(buf, i + 4 * j), j))
  }

  /** The blocks from byte offset `i` on, folded into `state`.  The source
      loops while `i < padded_length`; on a buffer of whole blocks that is
      while a whole block remains (NoPartialBlock). */
  function AbsorbBlocks<T>(step: (T, bv32, Amount) -> T, buf: seq<bv8>, i: nat, state: T): T
    requires i <= |buf|
    decreases |buf| - i
  {
    if i + 32 > |buf| then state
    else AbsorbBlocks(step, buf, i + 32, AbsorbWords(step, buf, i, 0, state))
  }

  /** In a buffer of whole blocks, a block offset with less than a block
      after it is the end. */
  lemma {:induction false} NoPartialBlock(i: nat, n: nat)
    requires i % 32 == 0 && n % 32 == 0 && i <= n < i + 32
    ensures i == n
  {
    assert i == 32 * (i / 32) && n == 32 * (n / 32);
  }

  /** The absorption loop of `hybrid_hash` over a padded buffer. */
  function Absorb(buf: seq<bv8>, state: bv32): bv32
    requires |buf| % 32 == 0
  {
    AbsorbBlocks(MixWord, buf, 0, state)
  }

  /** The place of the word at byte offset `o` within its block. */
  function Position(o: nat): (p: Amount)
    ensures p < 8
  {
    (o % 32) / 4
  }

  /** Word `j` of a block sits at position `j`. */
  lemma {:induction false} WordPosition(i: nat, j: nat)
    requires i % 32 == 0 && j < 8
    ensures Position(i + 4 * j) == j
  {
  }

  /** Absorption seen as one flat loop over the words of the buffer, with no
      blocks: the word at byte offset `o` is rotated by its position within
      its block. */
  function MixWords<T>(step: (T, bv32, Amount) -> T, buf: seq<bv8>, o: nat, state: T): T
    requires o <= |buf|
    decreases |buf| - o
  {
    if o + 4 > |buf| then state
    else MixWords(step, buf, o + 4, step(state, LeWord(buf, o), Position(o)))
  }

  /** Absorbing the rest of one block is the flat loop over the same words. */
  lemma {:induction false} AbsorbWordsIsMixWords<T>(step: (T, bv32, Amount) -> T, buf: seq<bv8>, i: nat, j: nat, state: T)
    requires i % 32 == 0 && i + 32 <= |buf| && j <= 8
    ensures MixWords(step, buf, i + 4 * j, state) == MixWords(step, buf, i + 32, AbsorbWords(step, buf, i, j, state))
    decreases 8 - j
  {
    if j < 8 {
      WordPosition(i, j);
      AbsorbWordsIsMixWords(step, buf, i, j + 1, step(state, LeWord(buf, i + 4 * j), j));
    }
  }

  /** Absorbing the blocks from offset `i` is the flat loop from `i`. */
  lemma {:induction false} AbsorbBlocksIsMixWords<T>(step: (T, bv32, Amount) -> T, buf: seq<bv8>, i: nat, state: T)
    requires |buf| % 32 == 0 && i % 32 == 0 && i <= |buf|
    ensures AbsorbBlocks(step, buf, i, state) == MixWords(step, buf, i, state)
    decreases |buf| - i
  {
    if i + 32 <= |buf| {
      AbsorbWordsIsMixWords(step, buf, i, 0, state);
      AbsorbBlocksIsMixWords(step, buf, i + 32, AbsorbWords(step, buf, i, 0, state));
    } else {
      NoPartialBlock(i, |buf|);
    }
  }

  /** Absorption is the flat loop over every word of the padded buffer. */
  lemma {:induction false} AbsorbIsMixWords(buf: seq<bv8>, state: bv32)
    requires |buf| % 32 == 0
    ensures Absorb(buf, state) == MixWords(MixWord, buf, 0, state)
  {
    AbsorbBlocksIsMixWords(MixWord, buf, 0, state);
  }

  /** A step that only counts the words it is given. */
  function CountWord(n: nat, word: bv32, amount: Amount): nat
  {
    n + 1
  }

  /** The flat loop from offset `o` (a multiple of 4) visits the remaining
      whole words. */
  lemma {:induction false} MixWordsCount(buf: seq<bv8>, o: nat, n: nat)
    requires |buf| % 4 == 0 && o % 4 == 0 && o <= |buf|
    ensures MixWords(CountWord, buf, o, n) == n + (|buf| - o) / 4
    decreases |buf| - o
  {
    if o + 4 <= |buf| {
      MixWordsCount(buf, o + 4, n + 1);
    }
  }

  /** The absorption loop visits `|buf| / 32` blocks of 8 words each. */
  lemma {:induction false} AbsorbVisitsEveryWord(buf: seq<bv8>)
    requires |buf| % 32 == 0
    ensures AbsorbBlocks(CountWord, buf, 0, 0) == 8 * (|buf| / 32)
  {
    AbsorbBlocksIsMixWords(CountWord, buf, 0, 0);
    MixWordsCount(buf, 0, 0);
  }

  // ------------------------------------------------------- finalisation

  /** One finalisation round: `state ^= ROTLEFT(state, 17)`, then scramble. */
  function FinalRound(state: bv32): bv32
  {
    Scramble(state ^ Rotl(state, 17))
  }

  /** `n` finalisation rounds. */
  function Rounds(state: bv32, n: nat): bv32
    decreases n
  {
    if n == 0 then state else Rounds(FinalRound(state), n - 1)
  }

  /** Running `m` rounds and then `n` more is running `m + n` rounds: the
      round loop may be split anywhere. */
  lemma {:induction false} RoundsCompose(state: bv32, m: nat, n: nat)
    ensures Rounds(Rounds(state, m), n) == Rounds(state, m + n)
    decreases m
  {
    if m > 0 {
      RoundsCompose(FinalRound(state), m - 1, n);
    }
  }

  /** The five rounds `hybrid_hash` runs after absorption. */
  function Finalize(state: bv32): bv32
  {
    Rounds(state, 5)
  }

  // ------------------------------------------------------------- output

  /** `n` consecutive slots: the bytes of `s`, then the slots of `next(s)`.
      The layout is stated for any word type and any step, so that facts
      about it never look inside the bit operations. */
  function Slots<T>(bytes: T -> Quad, next: T -> T, s: T, n: nat): (out: seq<bv8>)
    ensures |out| == 4 * n
    decreases n
  {
    if n == 0 then [] else bytes(s) + Slots(bytes, next, next(s), n - 1)
  }

  /** Slot `k` of `n` holds the bytes of the word after `k` steps. */
  lemma {:induction false} SlotsAt<T>(bytes: T -> Quad, next: T -> T, s: T, n: nat, k: nat)
    requires k < n
    ensures Slots(bytes, next, s, n)[4 * k..4 * k + 4] == bytes(Steps(next, s, k))
    decreases k
  {
    var out := Slots(bytes, next, s, n);
    var rest := Slots(bytes, next, next(s), n - 1);
    assert out == bytes(s) + rest;
    if k == 0 {
      assert out[..4] == bytes(s);
    } else {
      SlotsAt(bytes, next, next(s), n - 1, k - 1);
      StepsFirst(next, s, k);
      assert out[4 * k..4 * k + 4] == rest[4 * (k - 1)..4 * (k - 1) + 4];
    }
  }

  /** `k` applications of `next`. */
  function Steps<T>(next: T -> T, s: T, k: nat): T
    decreases k
  {
    if k == 0 then s else next(Steps(next, s, k - 1))
  }

  /** Taking the first step first gives the same word. */
  lemma {:induction false} StepsFirst<T>(next: T -> T, s: T, k: nat)
    requires 0 < k
    ensures Steps(next, s, k) == Steps(next, next(s), k - 1)
    decreases k
  {
    if k > 1 {
      StepsFirst(next, s, k - 1);
    }
  }

  /** When four steps lead back to the start, slots repeat with period 4:
      slot `k + 4` equals slot `k`. */
  lemma {:induction false} SlotsPeriod<T>(bytes: T -> Quad, next: T -> T, s: T, n: nat)
    requires Steps(next, s, 4) == s && 4 <= n
    ensures Slots(bytes, next, s, n) == Slots(bytes, next, s, 4) + Slots(bytes, next, s, n - 4)
  {
    var s1 := next(s);
    var s2 := next(s1);
    var s3 := next(s2);
    assert Steps(next, s, 4) == next(s3);
    assert Slots(bytes, next, s3, n - 3) == bytes(s3) + Slots(bytes, next, s, n - 4);
    assert Slots(bytes, next, s2, n - 2) == bytes(s2) + Slots(bytes, next, s3, n - 3);
    assert Slots(bytes, next, s1, n - 1) == bytes(s1) + Slots(bytes, next, s2, n - 2);
    assert Slots(bytes, next, s3, 1) == bytes(s3) + [];
    assert Slots(bytes, next, s2, 2) == bytes(s2) + Slots(bytes, next, s3, 1);
    assert Slots(bytes, next, s1, 3) == bytes(s1) + Slots(bytes, next, s2, 2);
  }

  /** The step between slots of `extend_state`: rotate left by 8. */
  function Rot8(s: bv32): bv32
  {
    Rotl(s, 8)
  }

  /** After `k` byte rotations the state is rotated by `8 * k` bits, for the
      first four slots, and four byte rotations give back the state. */
  lemma ByteRotations(state: bv32)
    ensures Steps(Rot8, state, 1) == Rotl(state, 8)
    ensures Steps(Rot8, state, 2) == Rotl(state, 16)
    ensures Steps(Rot8, state, 3) == Rotl(state, 24)
    ensures Steps(Rot8, state, 4) == state
  {
    RotlByteSteps(state);
    assert Steps(Rot8, state, 1) == Rot8(state);
    assert Steps(Rot8, state, 2) == Rot8(Rotl(state, 8));
    assert Steps(Rot8, state, 3) == Rot8(Rotl(state, 16));
    assert Steps(Rot8, state, 4) == Rot8(Rotl(state, 24));
  }

  /** `extend_state`: eight slots, slot k holding the state rotated left by
      8k bits. */
  function ExtendState(state: bv32): (out: seq<bv8>)
    ensures |out| == 32
  {
    Slots(LeBytes, Rot8, state, 8)
  }

  /** The first four slots hold the state rotated by 0, 8, 16 and 24 bits. */
  lemma ExtendStateSlots(state: bv32)
    ensures ExtendState(state)[..4] == LeBytes(state)
    ensures ExtendState(state)[4..8] == LeBytes(Rotl(state, 8))
    ensures ExtendState(state)[8..12] == LeBytes(Rotl(state, 16))
    ensures ExtendState(state)[12..16] == LeBytes(Rotl(state, 24))
  {
    ByteRotations(state);
    SlotsAt(LeBytes, Rot8, state, 8, 0);
    SlotsAt(LeBytes, Rot8, state, 8, 1);
    SlotsAt(LeBytes, Rot8, state, 8, 2);
    SlotsAt(LeBytes, Rot8, state, 8, 3);
  }

  /** The second half of the output repeats the first. */
  lemma ExtendStateRepeats(state: bv32)
    ensures ExtendState(state)[16..] == ExtendState(state)[..16]
  {
    ByteRotations(state);
    SlotsPeriod(LeBytes, Rot8, state, 8);
    SlotsPeriod(LeBytes, Rot8, state, 4);
    assert Slots(LeBytes, Rot8, state, 0) == [];
  }

  /** The state can be read back from the first slot, and from the fifth. */
  lemma ExtendStateReveals(state: bv32)
    ensures ExtendState(state)[16..20] == LeBytes(state)
    ensures LeWord(ExtendState(state), 0) == state
    ensures LeWord(ExtendState(state), 16) == state
  {
    var out := ExtendState(state);
    ExtendStateSlots(state);
    ExtendStateRepeats(state);
    LeWordOfLeBytes(out, 0, state);
    assert out[16..20] == out[16..][..4];
    LeWordOfLeBytes(out, 16, state);
  }

  /** The final loop of `hybrid_hash`: XOR the salt into the first 16 bytes
      of the 32-byte output. */
  function SaltXor(out: seq<bv8>): (r: seq<bv8>)
    requires |out| == 32
    ensures |r| == 32
  {
    seq(32, i requires 0 <= i < 32 => if i < 16 then out[i] ^ Salt()[i] else out[i])
  }

  /** The XOR leaves bytes 16 to 31 alone, and every byte it does touch it
      changes, except byte 0, whose salt is zero. */
  lemma SaltXorScope(out: seq<bv8>)
    requires |out| == 32
    ensures SaltXor(out)[16..] == out[16..]
    ensures forall i :: 0 <= i < 16 ==> (SaltXor(out)[i] == out[i] <==> i == 0)
  {
    SaltDistinct();
    forall i | 0 <= i < 16
      ensures SaltXor(out)[i] == out[i] <==> i == 0
    {
      XorCancels(out[i], Salt()[i]);
    }
  }

  /** Applying the XOR twice gives back the output. */
  lemma SaltXorInvolution(out: seq<bv8>)
    requires |out| == 32
    ensures SaltXor(SaltXor(out)) == out
  {
    forall i | 0 <= i < 16
      ensures SaltXor(SaltXor(out))[i] == out[i]
    {
      XorCancels(out[i], Salt()[i]);
    }
  }

  /** XORing the same byte twice gives back the original, and XORing a
      byte changes it unless the other byte is zero. */
  lemma XorCancels(a: bv8, b: bv8)
    ensures (a ^ b) ^ b == a
    ensures a ^ b == a <==> b == 0
  {
  }

  // ------------------------------------------------------------- digest

  /** The single 32-bit state the digest of `input` is spread from. */
  function FinalState(input: seq<bv8>): bv32
  {
    Finalize(Absorb(Preprocess(input), InitialState))
  }

  /** `hybrid_hash`: the salted spread of the final state. */
  function HybridHash(input: seq<bv8>): (h: seq<bv8>)
    ensures |h| == 32
  {
    SaltXor(ExtendState(FinalState(input)))
  }

  /** The second half of a salted spread is the spread untouched; the first
      half is that same pattern XORed with the salt. */
  lemma SpreadHalves(state: bv32)
    ensures SaltXor(ExtendState(state))[16..] == ExtendState(state)[16..]
    ensures forall i :: 0 <= i < 16 ==>
      SaltXor(ExtendState(state))[i] == SaltXor(ExtendState(state))[i + 16] ^ Salt()[i]
  {
    var out := ExtendState(state);
    ExtendStateRepeats(state);
    SaltXorScope(out);
    assert forall i :: 0 <= i < 16 ==> out[i] == out[16..][i];
  }

  /** The same for the digest: its second half is `extend_state`'s output
      and `hash[i] == hash[i + 16] ^ salt[i]` below 16. */
  lemma HashHalves(input: seq<bv8>)
    ensures HybridHash(input)[16..] == ExtendState(FinalState(input))[16..]
    ensures forall i :: 0 <= i < 16 ==> HybridHash(input)[i] == HybridHash(input)[i + 16] ^ Salt()[i]
  {
    SpreadHalves(FinalState(input));
  }

  /** The state can be read back from byte 16 of its salted spread. */
  lemma SpreadReveals(state: bv32)
    ensures LeWord(SaltXor(ExtendState(state)), 16) == state
  {
    var out := ExtendState(state);
    var h := SaltXor(out);
    ExtendStateReveals(state);
    SaltXorScope(out);
    assert h[16..20] == h[16..][..4] == out[16..][..4] == out[16..20];
    LeWordOfLeBytes(h, 16, state);
  }

  /** The final state can be read back from byte 16 of the digest. */
  lemma HashRevealsFinalState(input: seq<bv8>)
    ensures LeWord(HybridHash(input), 16) == FinalState(input)
  {
    SpreadReveals(FinalState(input));
  }

  /** Two states give the same salted spread exactly when they are equal. */
  lemma SpreadInjective(s: bv32, t: bv32)
    ensures SaltXor(ExtendState(s)) == SaltXor(ExtendState(t)) <==> s == t
  {
    SpreadReveals(s);
    SpreadReveals(t);
  }

  /** Two inputs hash alike exactly when their final states agree: the
      digest carries no more than 32 bits of the input, and no less. */
  lemma HashIsFinalState(x: seq<bv8>, y: seq<bv8>)
    ensures HybridHash(x) == HybridHash(y) <==> FinalState(x) == FinalState(y)
  {
    SpreadInjective(FinalState(x), FinalState(y));
  }

  /** Hence a zero byte appended to an input whose salted length is not a
      whole number of blocks does not change the digest. */
  lemma HashIgnoresTrailingZero(x: seq<bv8>)
    requires (|x| + 16) % 32 != 0
    ensures HybridHash(x + [0]) == HybridHash(x)
  {
    PreprocessIgnoresTrailingZero(x);
  }
}
