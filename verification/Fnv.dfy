/** The 64-bit FNV-1a state machine shared by the crash fingerprints and the path dictionary. */
module Fnv {
  import opened Bytes

  const FNV_OFFSET: uint64 := 14695981039346656037
  const FNV_PRIME: uint64 := 1099511628211
  /** The inverse of the prime modulo 2^64. */
  const FNV_INVERSE: uint64 := 14886173955864302971

  /** Exclusive-or of two numbers of `width` bits. */
  function Xor(a: nat, b: nat, width: nat): nat {
    if width == 0 then 0 else 2 * Xor(a / 2, b / 2, width - 1) + (a + b) % 2
  }

  function Pow2(width: nat): (p: nat)
    ensures p > 0
  {
    if width == 0 then 1 else 2 * Pow2(width - 1)
  }

  lemma BitUndoes(a: nat, b: nat, x: nat)
    ensures var y := 2 * x + (a + b) % 2; y / 2 == x && (y + b) % 2 == a % 2
  {
  }

  lemma {:induction false} XorUndoes(a: nat, b: nat, width: nat)
    requires a < Pow2(width)
    ensures Xor(a, b, width) < Pow2(width) && Xor(Xor(a, b, width), b, width) == a
  {
    if width > 0 {
      XorUndoes(a / 2, b / 2, width - 1);
      BitUndoes(a, b, Xor(a / 2, b / 2, width - 1));
    }
  }

  function Xor8(a: byte, b: byte): (x: byte) {
    XorUndoes(a, b, 8);
    Xor(a, b, 8)
  }

  lemma Xor8Undoes(a: byte, b: byte)
    ensures Xor8(Xor8(a, b), b) == a
  {
    XorUndoes(a, b, 8);
  }

  /** Only the low byte of the state meets the input. */
  function XorLow(h: uint64, b: byte): uint64 {
    h - h % TWO_8 + Xor8(h % TWO_8, b)
  }

  function Times(h: uint64, m: uint64): uint64 {
    h * m % TWO_64
  }

  /** One step: exclusive-or with a byte, then multiply by the prime modulo 2^64. */
  function Step(h: uint64, b: byte): uint64 {
    Times(XorLow(h, b), FNV_PRIME)
  }

  function UnStep(h: uint64, b: byte): uint64 {
    XorLow(Times(h, FNV_INVERSE), b)
  }

  lemma XorLowUndoes(h: uint64, b: byte)
    ensures XorLow(XorLow(h, b), b) == h
  {
    var x := Xor8(h % TWO_8, b);
    assert XorLow(h, b) == TWO_8 * (h / TWO_8) + x;
    assert XorLow(h, b) % TWO_8 == x;
    Xor8Undoes(h % TWO_8, b);
  }

  const WRAPS := 887285111055

  /** The product of the prime and its inverse is 1 modulo 2^64, so each undoes the other. */
  lemma InverseUndoes(h: uint64)
    ensures Times(Times(h, FNV_PRIME), FNV_INVERSE) == h
    ensures Times(Times(h, FNV_INVERSE), FNV_PRIME) == h
  {
    assert FNV_PRIME * FNV_INVERSE == 1 + WRAPS * TWO_64;
    var q, r := h * FNV_PRIME / TWO_64, Times(h, FNV_PRIME);
    assert r * FNV_INVERSE == h + TWO_64 * (h * WRAPS - q * FNV_INVERSE);
    Reduces(h, h * WRAPS - q * FNV_INVERSE);
    var q', r' := h * FNV_INVERSE / TWO_64, Times(h, FNV_INVERSE);
    assert r' * FNV_PRIME == h + TWO_64 * (h * WRAPS - q' * FNV_PRIME);
    Reduces(h, h * WRAPS - q' * FNV_PRIME);
  }

  lemma Reduces(h: uint64, k: int)
    ensures (h + TWO_64 * k) % TWO_64 == h
  {
  }

  /** Each step is a bijection of the 64-bit states. */
  lemma StepIsBijective(h: uint64, b: byte)
    ensures UnStep(Step(h, b), b) == h && Step(UnStep(h, b), b) == h
  {
    InverseUndoes(XorLow(h, b));
    XorLowUndoes(h, b);
    XorLowUndoes(Times(h, FNV_INVERSE), b);
    InverseUndoes(h);
  }

  /** The state after a run of bytes. */
  function Absorb(h: uint64, bytes: seq<byte>): uint64 {
    if bytes == [] then h else Step(Absorb(h, bytes[..|bytes| - 1]), bytes[|bytes| - 1])
  }

  /** The published test vector of the text "a". */
  lemma KnownVector()
    ensures Absorb(0xCBF2_9CE4_8422_2325, []) == 0xCBF2_9CE4_8422_2325 == FNV_OFFSET
    ensures Absorb(FNV_OFFSET, [0x61]) == 0xAF63_DC4C_8601_EC8C
  {
    assert FNV_OFFSET % TWO_8 == 0x25;
    XorOfA();
    assert XorLow(FNV_OFFSET, 0x61) == 0xCBF2_9CE4_8422_2344;
    assert Times(0xCBF2_9CE4_8422_2344, FNV_PRIME) == 0xAF63_DC4C_8601_EC8C;
    assert [0x61][..0] == [];
  }

  lemma XorOfA()
    ensures Xor8(0x25, 0x61) == 0x44
  {
    assert Xor(0x25 / 16, 0x61 / 16, 4) == 0x4 by {
      assert Xor(0, 1, 2) == 1;
    }
    assert Xor(0x25 / 2, 0x61 / 2, 7) == 0x22;
  }

  /** The state before a run of bytes. */
  function Unwind(h: uint64, bytes: seq<byte>): uint64
    decreases |bytes|
  {
    if bytes == [] then h else Unwind(UnStep(h, bytes[|bytes| - 1]), bytes[..|bytes| - 1])
  }

  lemma {:induction false} AbsorbIsBijective(h: uint64, bytes: seq<byte>)
    ensures Unwind(Absorb(h, bytes), bytes) == h && Absorb(Unwind(h, bytes), bytes) == h
    decreases |bytes|
  {
    if bytes != [] {
      var init, b := bytes[..|bytes| - 1], bytes[|bytes| - 1];
      StepIsBijective(Absorb(h, init), b);
      AbsorbIsBijective(h, init);
      StepIsBijective(h, b);
      AbsorbIsBijective(UnStep(h, b), init);
    }
  }

  lemma {:induction false} AbsorbAppend(h: uint64, a: seq<byte>, b: seq<byte>)
    ensures Absorb(h, a + b) == Absorb(Absorb(h, a), b)
    decreases |b|
  {
    if b == [] {
      assert a + b == a;
    } else {
      assert (a + b)[..|a + b| - 1] == a + b[..|b| - 1];
      AbsorbAppend(h, a, b[..|b| - 1]);
    }
  }

}
