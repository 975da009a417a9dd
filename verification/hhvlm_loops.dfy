/** `hybrid_hash` as the C code runs it: one loop per stage, updating a
    single 32-bit state and a 32-byte output in place, each proved to compute
    its stage of the digest defined in module Hhvlm. */
module HhvlmLoops {
  import opened Bits
  import opened Hhvlm

  /** `generate_salt`: fills 16 bytes with `i * 17`. */
  method GenerateSalt() returns (salt: seq<bv8>)
    ensures salt == Salt()
  {
    salt := [];
    var i := 0;
    while i < 16
      invariant i <= 16 && salt == Salt()[..i]
    {
      salt := salt + [(i * 17) as bv8];
      i := i + 1;
    }
  }

  /** The buffer: the salt copied in, then the input, then zeros when the
      salted input does not fill the last block. */
  method FillBuffer(salt: seq<bv8>, input: seq<bv8>, paddedLength: nat) returns (buffer: seq<bv8>)
    requires salt == Salt() && paddedLength == PaddedLen(|input|)
    ensures buffer == Preprocess(input)
  {
    buffer := salt + input;
    if |input| + 16 < paddedLength {
      buffer := buffer + Zeros(paddedLength - (16 + |input|));
    }
  }

  /** One pass of the inner absorption loop, over the block at offset `i`. */
  method AbsorbBlock(buffer: seq<bv8>, i: nat, state: bv32) returns (s: bv32)
    requires i % 32 == 0 && i + 32 <= |buffer|
    ensures s == AbsorbWords(MixWord, buffer, i, 0, state)
  {
    s := state;
    var j := 0;
    while j < 8
      invariant j <= 8
      invariant AbsorbWords(MixWord, buffer, i, j, s) == AbsorbWords(MixWord, buffer, i, 0, state)
    {
      var word := LeWord(buffer, i + 4 * j);
      RotateAmountIsWordIndex(i, j);
      s := MixWord(s, word, RotateAmount(i, j));
      j := j + 1;
    }
  }

  /** The outer absorption loop, over every block of the padded buffer. */
  method AbsorbLoop(buffer: seq<bv8>) returns (state: bv32)
    requires |buffer| % 32 == 0
    ensures state == Absorb(buffer, InitialState)
  {
    state := InitialState;
    var i := 0;
    while i < |buffer|
      invariant i % 32 == 0 && i <= |buffer|
      invariant AbsorbBlocks(MixWord, buffer, i, state) == Absorb(buffer, InitialState)
      decreases |buffer| - i
    {
      NextBlockFits(i, |buffer|);
      state := AbsorbBlock(buffer, i, state);
      i := i + 32;
    }
  }

  /** The five finalisation rounds. */
  method FinalRounds(absorbed: bv32) returns (state: bv32)
    ensures state == Finalize(absorbed)
  {
    state := absorbed;
    var round := 0;
    while round < 5
      invariant round <= 5
      invariant state == Rounds(absorbed, round)
    {
      RoundsCompose(absorbed, round, 1);
      state := FinalRound(state);
      round := round + 1;
    }
  }

  /** `extend_state`: writes the state into each 4-byte slot, rotating it left
      by 8 after every slot. */
  method ExtendStateLoop(state: bv32) returns (output: seq<bv8>)
    ensures output == ExtendState(state)
  {
    output := [];
    var s := state;
    var k := 0;
    while k < 8
      invariant k <= 8 && |output| == 4 * k
      invariant output + Slots(LeBytes, Rot8, s, 8 - k) == ExtendState(state)
    {
      ghost var rest := Slots(LeBytes, Rot8, Rot8(s), 8 - k - 1);
      AppendSlot(output, LeBytes, Rot8, s, 8 - k);
      output := output + LeBytes(s);
      s := Rot8(s);
      k := k + 1;
      assert Slots(LeBytes, Rot8, s, 8 - k) == rest;
    }
  }

  /** The last loop of `hybrid_hash`: XOR the salt into bytes 0 to 15. */
  method XorSalt(extended: seq<bv8>, salt: seq<bv8>) returns (output: seq<bv8>)
    requires |extended| == 32 && salt == Salt()
    ensures output == SaltXor(extended)
  {
    output := extended;
    var i := 0;
    while i < 16
      invariant i <= 16 && |output| == 32
      invariant forall k :: 0 <= k < i ==> output[k] == extended[k] ^ salt[k]
      invariant forall k :: i <= k < 32 ==> output[k] == extended[k]
    {
      output := output[i := output[i] ^ salt[i]];
      i := i + 1;
    }
  }

  /** `hybrid_hash`, stage by stage. */
  method ComputeHash(input: seq<bv8>) returns (output: seq<bv8>)
    ensures output == HybridHash(input)
  {
    var salt := GenerateSalt();
    var paddedLength := ((|input| + 16 + 31) / 32) * 32;
    var buffer := FillBuffer(salt, input, paddedLength);
    var state := AbsorbLoop(buffer);
    state := FinalRounds(state);
    var extended := ExtendStateLoop(state);
    output := XorSalt(extended, salt);
  }

  /** Below the end of a buffer of whole blocks there is a whole block. */
  lemma {:induction false} NextBlockFits(i: nat, n: nat)
    requires i % 32 == 0 && n % 32 == 0 && i < n
    ensures i + 32 <= n
  {
    assert i == 32 * (i / 32) && n == 32 * (n / 32);
  }

  /** Writing one more slot moves it from the slots still to come to the
      output so far. */
  lemma AppendSlot<T>(output: seq<bv8>, bytes: T -> Quad, next: T -> T, s: T, n: nat)
    requires 0 < n
    ensures output + Slots(bytes, next, s, n) == (output + bytes(s)) + Slots(bytes, next, next(s), n - 1)
  {
    var rest := Slots(bytes, next, next(s), n - 1);
    assert Slots(bytes, next, s, n) == bytes(s) + rest;
    assert output + (bytes(s) + rest) == (output + bytes(s)) + rest;
  }
}
