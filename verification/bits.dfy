/** 32-bit rotation and the little-endian view of a word as four bytes.

    The C source rotates with the macro ROTLEFT and reinterprets byte buffers
    as `uint32_t` words in the machine's native byte order.  This module pins
    both down: rotation by zero is the identity, and words are read and written
    little-endian. */
module Bits {

  /** Bit `i` of `a`, counting from the least significant bit. */
  function Bit(a: bv32, i: bv32): bool
    requires i < 32
  {
    (a >> i) & 1 == 1
  }

  /** ROTLEFT(a, b), and `rotate_left`, which only applies it.  For an
      amount of zero the macro shifts right by 32: C leaves that undefined,
      while a shift by the full width gives 0 here, so the result is `a`, what
      a rotation by zero means (RotlZero). */
  function Rotl(a: bv32, b: bv32): bv32
    requires b < 32
  {
    (a << b) | (a >> (32 - b))
  }

  /** Rotl is a true rotation for every amount below 32: bit `i` of `a`
      lands at bit `(i + b) mod 32` of the result. */
  lemma RotlIsRotation(a: bv32, b: bv32, i: bv32)
    requires b < 32 && i < 32
    ensures Bit(Rotl(a, b), (i + b) % 32) == Bit(a, i)
  {
    if b == 0 {
      RotlZero(a);
    } else if b < 4 {
      RotlIsRotation1To3(a, b, i);
    } else if b < 8 {
      RotlIsRotation4To7(a, b, i);
    } else if b < 12 {
      RotlIsRotation8To11(a, b, i);
    } else if b < 16 {
      RotlIsRotation12To15(a, b, i);
    } else if b < 20 {
      RotlIsRotation16To19(a, b, i);
    } else if b < 24 {
      RotlIsRotation20To23(a, b, i);
    } else if b < 28 {
      RotlIsRotation24To27(a, b, i);
    } else {
      RotlIsRotation28To31(a, b, i);
    }
  }

  /* RotlIsRotation split by amount, four amounts each: the solver handles a
     few symbolic amounts at a time far more cheaply than thirty-two. */
  lemma RotlIsRotation1To3(a: bv32, b: bv32, i: bv32)
    requires 1 <= b < 4 && i < 32
    ensures Bit(Rotl(a, b), (i + b) % 32) == Bit(a, i)
  {
  }

  lemma RotlIsRotation4To7(a: bv32, b: bv32, i: bv32)
    requires 4 <= b < 8 && i < 32
    ensures Bit(Rotl(a, b), (i + b) % 32) == Bit(a, i)
  {
  }

  lemma RotlIsRotation8To11(a: bv32, b: bv32, i: bv32)
    requires 8 <= b < 12 && i < 32
    ensures Bit(Rotl(a, b), (i + b) % 32) == Bit(a, i)
  {
  }

  lemma RotlIsRotation12To15(a: bv32, b: bv32, i: bv32)
    requires 12 <= b < 16 && i < 32
    ensures Bit(Rotl(a, b), (i + b) % 32) == Bit(a, i)
  {
  }

  lemma RotlIsRotation16To19(a: bv32, b: bv32, i: bv32)
    requires 16 <= b < 20 && i < 32
    ensures Bit(Rotl(a, b), (i + b) % 32) == Bit(a, i)
  {
  }

  lemma RotlIsRotation20To23(a: bv32, b: bv32, i: bv32)
    requires 20 <= b < 24 && i < 32
    ensures Bit(Rotl(a, b), (i + b) % 32) == Bit(a, i)
  {
  }

  lemma RotlIsRotation24To27(a: bv32, b: bv32, i: bv32)
    requires 24 <= b < 28 && i < 32
    ensures Bit(Rotl(a, b), (i + b) % 32) == Bit(a, i)
  {
  }

  lemma RotlIsRotation28To31(a: bv32, b: bv32, i: bv32)
    requires 28 <= b < 32 && i < 32
    ensures Bit(Rotl(a, b), (i + b) % 32) == Bit(a, i)
  {
  }

  /** The rotation amount the absorption loop uses for the first word of
      every block is zero, and rotating by zero changes nothing. */
  lemma RotlZero(a: bv32)
    ensures Rotl(a, 0) == a
  {
  }

  /** Rotating by 8 after rotating by `b` is rotating by `b + 8`, modulo 32. */
  lemma RotlThen8(a: bv32, b: bv32)
    requires b < 32
    ensures Rotl(Rotl(a, b), 8) == Rotl(a, (b + 8) % 32)
  {
  }

  /** The four byte-rotations `extend_state` performs in a row bring a word
      back to itself. */
  lemma RotlByteSteps(a: bv32)
    ensures Rotl(Rotl(a, 8), 8) == Rotl(a, 16)
    ensures Rotl(Rotl(a, 16), 8) == Rotl(a, 24)
    ensures Rotl(Rotl(a, 24), 8) == a
  {
    RotlThen8(a, 8);
    RotlThen8(a, 16);
    RotlThen8(a, 24);
    RotlZero(a);
  }

  /** Both shift counts of ROTLEFT(a, b) lie where C defines a shift of a
      32-bit operand: at least 0 and below 32 (section 6.5.7 of ISO C11). */
  predicate MacroShiftsDefined(b: int)
  {
    0 <= b < 32 && 0 <= 32 - b < 32
  }

  /** ROTLEFT as written is defined exactly for amounts 1 to 31; amount zero
      makes it shift right by 32. */
  lemma MacroUndefinedAtZero()
    ensures !MacroShiftsDefined(0)
    ensures forall b :: MacroShiftsDefined(b) <==> 0 < b < 32
  {
  }

  /** Four bytes: a word in memory. */
  type Quad = b: seq<bv8> | |b| == 4 witness [0, 0, 0, 0]

  /** The four bytes of `w`, least significant first. */
  function LeBytes(w: bv32): Quad
  {
    [(w & 0xff) as bv8, ((w >> 8) & 0xff) as bv8, ((w >> 16) & 0xff) as bv8, ((w >> 24) & 0xff) as bv8]
  }

  /** The word stored little-endian at `buf[off..off + 4]`. */
  function LeWord(buf: seq<bv8>, off: nat): bv32
    requires off + 4 <= |buf|
  {
    (buf[off] as bv32)
    | ((buf[off + 1] as bv32) << 8)
    | ((buf[off + 2] as bv32) << 16)
    | ((buf[off + 3] as bv32) << 24)
  }

  /** Writing back the word read at `off` gives the same four bytes. */
  lemma LeBytesOfLeWord(buf: seq<bv8>, off: nat)
    requires off + 4 <= |buf|
    ensures LeBytes(LeWord(buf, off)) == buf[off..off + 4]
  {
  }

  /** Reading four bytes written by LeBytes gives back the word, wherever
      they sit in the buffer. */
  lemma LeWordOfLeBytes(buf: seq<bv8>, off: nat, w: bv32)
    requires off + 4 <= |buf| && buf[off..off + 4] == LeBytes(w)
    ensures LeWord(buf, off) == w
  {
    assert buf[off] == LeBytes(w)[0] && buf[off + 1] == LeBytes(w)[1];
    assert buf[off + 2] == LeBytes(w)[2] && buf[off + 3] == LeBytes(w)[3];
  }

  /** Two words with the same little-endian bytes are equal. */
  lemma LeBytesInjective(v: bv32, w: bv32)
    requires LeBytes(v) == LeBytes(w)
    ensures v == w
  {
    LeWordOfLeBytes(LeBytes(v), 0, v);
    LeWordOfLeBytes(LeBytes(v), 0, w);
  }

  /** Rotating left by 8 moves every byte one place up, the top byte to the
      bottom. */
  lemma LeBytesRotl8(w: bv32)
    ensures LeBytes(Rotl(w, 8)) == [LeBytes(w)[3], LeBytes(w)[0], LeBytes(w)[1], LeBytes(w)[2]]
  {
  }
}
