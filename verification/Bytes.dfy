/** Bytes and the fixed-width integers stored in them. */
module Bytes {
  type byte = x: int | 0 <= x < 256
  type uint32 = x: int | 0 <= x < 0x1_0000_0000
  type uint64 = x: int | 0 <= x < 0x1_0000_0000_0000_0000

  const TWO_8 := 256
  const TWO_16 := 0x1_0000
  const TWO_24 := 0x100_0000
  const TWO_32 := 0x1_0000_0000
  const TWO_64 := 0x1_0000_0000_0000_0000

  /** `part` stands in `s` at `at`. */
  predicate Has(s: seq<byte>, at: nat, part: seq<byte>) {
    at + |part| <= |s| && s[at..at + |part|] == part
  }

  lemma HasWithin(s: seq<byte>, from: nat, part: seq<byte>, at: nat, inner: seq<byte>)
    requires Has(s, from, part) && Has(part, at, inner)
    ensures Has(s, from + at, inner)
  {
    forall k | 0 <= k < |inner| ensures s[from + at + k] == inner[k] {
      assert part[at..at + |inner|][k] == part[at + k] && s[from..from + |part|][at + k] == s[from + (at + k)];
    }
    assert s[from + at..from + at + |inner|] == inner;
  }

  /** Four bytes, least significant first. */
  function FromLE32(s: seq<byte>): (n: uint32)
    requires |s| == 4
  {
    s[0] + s[1] * TWO_8 + s[2] * TWO_16 + s[3] * TWO_24
  }

  function ToLE32(n: uint32): (s: seq<byte>)
    ensures |s| == 4
  {
    [n % TWO_8, n / TWO_8 % TWO_8, n / TWO_16 % TWO_8, n / TWO_24]
  }

  /** Division by a power of 256, one byte at a time. */
  lemma Quarters(n: nat)
    ensures n / TWO_16 == n / TWO_8 / TWO_8 && n / TWO_24 == n / TWO_8 / TWO_8 / TWO_8
  {
    var a := n / TWO_8;
    var b := a / TWO_8;
    var c := b / TWO_8;
    assert n == TWO_16 * b + (TWO_8 * (a % TWO_8) + n % TWO_8);
    assert n == TWO_24 * c + (TWO_16 * (b % TWO_8) + TWO_8 * (a % TWO_8) + n % TWO_8);
  }

  lemma LE32RoundTrip(n: uint32)
    ensures FromLE32(ToLE32(n)) == n
  {
    Quarters(n);
    var a := n / TWO_8;
    var b := a / TWO_8;
    assert n == TWO_8 * a + n % TWO_8 && a == TWO_8 * b + a % TWO_8 && b == TWO_8 * (b / TWO_8) + b % TWO_8;
  }

  lemma LE32Determined(s: seq<byte>)
    requires |s| == 4
    ensures ToLE32(FromLE32(s)) == s
  {
    var n := FromLE32(s);
    Quarters(n);
    var n2 := s[2] + s[3] * TWO_8;
    var n1 := s[1] + TWO_8 * n2;
    assert n == s[0] + TWO_8 * n1;
    assert n / TWO_8 == n1 && n1 / TWO_8 == n2 && n2 / TWO_8 == s[3];
  }

  /** The first byte counts ones, each later one 256 times as much. */
  lemma LE32Means(b0: byte, b1: byte, b2: byte, b3: byte)
    ensures FromLE32([b0, b1, b2, b3]) == b0 + 256 * (b1 + 256 * (b2 + 256 * b3))
  {
  }

  /** The two's complement reading of an unsigned value. */
  function Signed(n: int, width: int): int
    requires width > 0
  {
    if n < width / 2 then n else n - width
  }
}
