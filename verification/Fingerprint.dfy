/** The crash fingerprint of src/report/Fingerprint.cpp.

    A C string is the bytes before its terminating NUL, or `None` for a null pointer. */
module Fingerprint {
  import opened Arithmetic
  import opened Bytes
  import opened Fnv
  import opened Wrappers

  type CString = s: seq<byte> | 0 !in s witness []

  const FIELD_SEP: byte := 0x1F
  const MAX_TAIL: nat := 5

  // ----- The state machine as the file calls it -----

  method FnvBytes(h: uint64, bytes: seq<byte>) returns (r: uint64)
    ensures r == Absorb(h, bytes)
  {
    r := h;
    for i := 0 to |bytes|
      invariant r == Absorb(h, bytes[..i])
    {
      assert bytes[..i + 1][..i] == bytes[..i];
      r := XorLow(r, bytes[i]);
      r := Times(r, FNV_PRIME);
    }
    assert bytes[..|bytes|] == bytes;
  }

  /** A null string leaves the state alone. */
  function Text(s: Option<CString>): seq<byte> { if s.None? then [] else s.value }

  method FnvStr(h: uint64, s: Option<CString>) returns (r: uint64)
    ensures r == Absorb(h, Text(s))
  {
    if s.None? { return h; }
    r := FnvBytes(h, s.value);
  }

  /** Eight bytes, least significant first. */
  function U64Bytes(v: uint64): (s: seq<byte>) { ToLE32(v % TWO_32) + ToLE32(v / TWO_32) }

  // ----- What is hashed -----

  predicate HasText(s: Option<CString>) { s.Some? && s.value != [] }

  /** The fields that place a crash: code, build, and the fault site if its module is known. */
  datatype Site = Site(exceptionCode: uint32, buildId: Option<CString>, moduleLower: Option<CString>,
                       moduleRva: uint64, symbol: Option<CString>)

  function SiteBytes(c: Site): seq<byte> {
    U64Bytes(c.exceptionCode) + [FIELD_SEP] + Text(c.buildId) + [FIELD_SEP] +
    if c.moduleLower.None? then []
    else c.moduleLower.value + [FIELD_SEP] + PlaceBytes(c)
  }

  /** Where in its module a crash is: at a symbol, or else at an address. */
  function PlaceBytes(c: Site): seq<byte> {
    if HasText(c.symbol) then c.symbol.value else U64Bytes(c.moduleRva)
  }

  // ----- What the bytes say about the crash -----

  predicate SepFree(s: seq<byte>) { FIELD_SEP !in s }

  /** Build and module name do not contain the separator. */
  predicate SepFreeSite(c: Site) {
    SepFree(Text(c.buildId)) && SepFree(Text(c.moduleLower))
  }

  /** The same code, build and module, and the same place if there is a module; a missing build is
      an empty one. */
  predicate SameSite(c: Site, d: Site) {
    && c.exceptionCode == d.exceptionCode && Text(c.buildId) == Text(d.buildId) && c.moduleLower == d.moduleLower
    && (c.moduleLower.Some? ==> PlaceBytes(c) == PlaceBytes(d))
  }

  /** The same symbol, or no symbol and the same address. */
  predicate SamePlace(c: Site, d: Site) {
    HasText(c.symbol) == HasText(d.symbol) && if HasText(c.symbol) then c.symbol == d.symbol else c.moduleRva == d.moduleRva
  }

  lemma FirstSeparator(a: seq<byte>, x: seq<byte>)
    requires SepFree(a)
    ensures var s := a + [FIELD_SEP] + x; s[|a|] == FIELD_SEP && forall k :: 0 <= k < |a| ==> s[k] != FIELD_SEP
  {
    assert forall k :: 0 <= k < |a| ==> (a + [FIELD_SEP] + x)[k] == a[k];
  }

  /** The first separator ends the first field. */
  lemma FirstField(a: seq<byte>, x: seq<byte>, b: seq<byte>, y: seq<byte>)
    requires SepFree(a) && SepFree(b)
    ensures a + [FIELD_SEP] + x == b + [FIELD_SEP] + y <==> a == b && x == y
  {
    var s, t := a + [FIELD_SEP] + x, b + [FIELD_SEP] + y;
    if s == t {
      FirstSeparator(a, x);
      FirstSeparator(b, y);
      assert |a| == |b|;
      assert s[..|a|] == a && t[..|b|] == b && s[|a| + 1..] == x && t[|b| + 1..] == y;
    }
  }

  lemma U64Determined(v: uint64, w: uint64)
    ensures U64Bytes(v) == U64Bytes(w) <==> v == w
  {
    if U64Bytes(v) == U64Bytes(w) {
      assert U64Bytes(v)[..4] == ToLE32(v % TWO_32) && U64Bytes(v)[4..] == ToLE32(v / TWO_32);
      assert U64Bytes(w)[..4] == ToLE32(w % TWO_32) && U64Bytes(w)[4..] == ToLE32(w / TWO_32);
      LE32RoundTrip(v % TWO_32);
      LE32RoundTrip(v / TWO_32);
      LE32RoundTrip(w % TWO_32);
      LE32RoundTrip(w / TWO_32);
    }
  }

  /** Fields of eight bytes, a separator and more. */
  lemma CodeField(v: uint64, x: seq<byte>, w: uint64, y: seq<byte>)
    ensures U64Bytes(v) + x == U64Bytes(w) + y <==> v == w && x == y
  {
    U64Determined(v, w);
    var s, t := U64Bytes(v) + x, U64Bytes(w) + y;
    if s == t {
      assert s[..8] == U64Bytes(v) && t[..8] == U64Bytes(w) && s[8..] == x && t[8..] == y;
    }
  }

  /** What is absorbed after the build. */
  function ModulePart(c: Site): seq<byte> {
    if c.moduleLower.None? then [] else c.moduleLower.value + [FIELD_SEP] + PlaceBytes(c)
  }

  lemma SiteInParts(c: Site)
    ensures SiteBytes(c) == U64Bytes(c.exceptionCode) + ([FIELD_SEP] + (Text(c.buildId) + [FIELD_SEP] + ModulePart(c)))
  {
    var code, build := U64Bytes(c.exceptionCode), Text(c.buildId);
    assert SiteBytes(c) == code + [FIELD_SEP] + build + [FIELD_SEP] + ModulePart(c) by {
      if c.moduleLower.Some? {
        assert c.moduleLower.value + [FIELD_SEP] + PlaceBytes(c) == ModulePart(c);
      }
    }
  }

  lemma ModuleField(c: Site, d: Site)
    requires SepFreeSite(c) && SepFreeSite(d)
    ensures ModulePart(c) == ModulePart(d)
       <==> c.moduleLower == d.moduleLower && (c.moduleLower.Some? ==> PlaceBytes(c) == PlaceBytes(d))
  {
    if c.moduleLower.Some? && d.moduleLower.Some? {
      FirstField(c.moduleLower.value, PlaceBytes(c), d.moduleLower.value, PlaceBytes(d));
    }
  }

  /** The absorbed bytes determine the crash site, as long as build and module names are free of the
      separator; so what two bases agree on, short of a collision of the hash, is the site. */
  lemma SiteBytesDetermine(c: Site, d: Site)
    requires SepFreeSite(c) && SepFreeSite(d)
    ensures SiteBytes(c) == SiteBytes(d) <==> SameSite(c, d)
  {
    SiteInParts(c);
    SiteInParts(d);
    var x, y := Text(c.buildId) + [FIELD_SEP] + ModulePart(c), Text(d.buildId) + [FIELD_SEP] + ModulePart(d);
    CodeField(c.exceptionCode, [FIELD_SEP] + x, d.exceptionCode, [FIELD_SEP] + y);
    assert ([FIELD_SEP] + x)[1..] == x && ([FIELD_SEP] + y)[1..] == y;
    FirstField(Text(c.buildId), ModulePart(c), Text(d.buildId), ModulePart(d));
    ModuleField(c, d);
  }

  /** A symbol cannot be taken for an address, nor an address for a symbol, when addresses are below
      2^56: their bytes then contain a zero, and a symbol's do not. */
  lemma PlaceBytesDetermine(c: Site, d: Site)
    requires c.moduleRva < 0x100_0000_0000_0000 && d.moduleRva < 0x100_0000_0000_0000
    ensures PlaceBytes(c) == PlaceBytes(d) <==> SamePlace(c, d)
  {
    U64Determined(c.moduleRva, d.moduleRva);
    HighByteIsZero(c.moduleRva);
    HighByteIsZero(d.moduleRva);
  }

  lemma HighByteIsZero(v: uint64)
    requires v < 0x100_0000_0000_0000
    ensures 0 in U64Bytes(v)
  {
    assert U64Bytes(v)[7] == ToLE32(v / TWO_32)[3] == v / TWO_32 / TWO_24;
  }

  /** The first names of the script stack, each after a separator. */
  function TailBytes(names: seq<Option<CString>>, n: nat): seq<byte>
    requires n <= |names|
  {
    if n == 0 then [] else TailBytes(names, n - 1) + ([FIELD_SEP] + Text(names[n - 1]))
  }

  function TailLen(names: seq<Option<CString>>): nat {
    if |names| > MAX_TAIL then MAX_TAIL else |names|
  }

  function Tail(names: seq<Option<CString>>): seq<byte> { TailBytes(names, TailLen(names)) }

  // ----- What the tail says about the crash -----

  /** The names of the tail: the first five of the script stack. */
  function TailNames(names: seq<Option<CString>>): seq<Option<CString>> {
    if |names| <= 5 then names else names[..5]
  }

  predicate SepFreeNames(names: seq<Option<CString>>) { forall i :: 0 <= i < |names| ==> 0x1F !in Text(names[i]) }

  /** The same number of names, with the same texts. */
  predicate SameNames(a: seq<Option<CString>>, b: seq<Option<CString>>) {
    |a| == |b| && forall i :: 0 <= i < |a| ==> Text(a[i]) == Text(b[i])
  }

  /** The last separator begins the last field. */
  lemma LastField(x: seq<byte>, a: seq<byte>, y: seq<byte>, b: seq<byte>)
    requires SepFree(a) && SepFree(b)
    ensures x + ([FIELD_SEP] + a) == y + ([FIELD_SEP] + b) <==> x == y && a == b
  {
    var s, t := x + ([FIELD_SEP] + a), y + ([FIELD_SEP] + b);
    if s == t {
      LastSeparator(x, a);
      LastSeparator(y, b);
      assert |x| == |y|;
      assert s[..|x|] == x && t[..|y|] == y && s[|x| + 1..] == a && t[|y| + 1..] == b;
    }
  }

  lemma LastSeparator(x: seq<byte>, a: seq<byte>)
    requires SepFree(a)
    ensures var s := x + ([FIELD_SEP] + a);
      s[|x|] == FIELD_SEP && forall k :: |x| < k < |s| ==> s[k] != FIELD_SEP
  {
    assert forall k :: |x| < k < |x| + 1 + |a| ==> (x + ([FIELD_SEP] + a))[k] == a[k - |x| - 1];
  }

  lemma {:induction false} TailBytesDetermine(a: seq<Option<CString>>, n: nat, b: seq<Option<CString>>, m: nat)
    requires n <= |a| && m <= |b| && SepFreeNames(a[..n]) && SepFreeNames(b[..m])
    ensures TailBytes(a, n) == TailBytes(b, m) <==> SameNames(a[..n], b[..m])
    decreases n
  {
    if n > 0 && m > 0 {
      assert SepFree(Text(a[..n][n - 1])) && SepFree(Text(b[..m][m - 1]));
      LastField(TailBytes(a, n - 1), Text(a[n - 1]), TailBytes(b, m - 1), Text(b[m - 1]));
      assert forall i :: 0 <= i < n - 1 ==> a[..n - 1][i] == a[..n][i];
      assert forall i :: 0 <= i < m - 1 ==> b[..m - 1][i] == b[..m][i];
      TailBytesDetermine(a, n - 1, b, m - 1);
      OneNameMore(a[..n], b[..m]);
      assert a[..n][..n - 1] == a[..n - 1] && b[..m][..m - 1] == b[..m - 1];
    }
  }

  lemma OneNameMore(a: seq<Option<CString>>, b: seq<Option<CString>>)
    requires a != [] && b != []
    ensures SameNames(a, b)
       <==> SameNames(a[..|a| - 1], b[..|b| - 1]) && Text(a[|a| - 1]) == Text(b[|b| - 1])
  {
  }

  /** For names free of the separator the tail is equal exactly for the same number of names among the
      first five and the same texts there; a missing name counts as an empty one. */
  lemma TailDetermines(names: seq<Option<CString>>, others: seq<Option<CString>>)
    requires SepFreeNames(TailNames(names)) && SepFreeNames(TailNames(others))
    ensures Tail(names) == Tail(others) <==> SameNames(TailNames(names), TailNames(others))
  {
    assert names[..|names|] == names && others[..|others|] == others;
    TailBytesDetermine(names, TailLen(names), others, TailLen(others));
  }

  /** So crashes at one place whose script tails differ absorb different bytes. */
  lemma TailsAreAbsorbed(c: Site, names: seq<Option<CString>>, others: seq<Option<CString>>)
    requires SepFreeNames(TailNames(names)) && SepFreeNames(TailNames(others))
    ensures SiteBytes(c) + Tail(names) == SiteBytes(c) + Tail(others) <==> SameNames(TailNames(names), TailNames(others))
    ensures Primary(c, names) == NonZero(Absorb(FNV_OFFSET, SiteBytes(c) + Tail(names)))
  {
    TailDetermines(names, others);
    var s := SiteBytes(c);
    if s + Tail(names) == s + Tail(others) {
      assert (s + Tail(names))[|s|..] == Tail(names) && (s + Tail(others))[|s|..] == Tail(others);
    }
    AbsorbAppend(FNV_OFFSET, s, Tail(names));
  }

  /** The bytes of one crash: heap corruption, build "b", module "m", address 0x1234, script "S". */
  lemma ExampleBytes()
    ensures SiteBytes(Site(0xC000_0374, Some([0x62]), Some([0x6D]), 0x1234, None))
         == [0x74, 0x03, 0x00, 0xC0, 0, 0, 0, 0, 0x1F, 0x62, 0x1F, 0x6D, 0x1F, 0x34, 0x12, 0, 0, 0, 0, 0, 0]
    ensures Tail([Some([0x53])]) == [0x1F, 0x53]
  {
    assert U64Bytes(0xC000_0374) == [0x74, 0x03, 0x00, 0xC0, 0, 0, 0, 0];
    assert U64Bytes(0x1234) == [0x34, 0x12, 0, 0, 0, 0, 0, 0];
    assert TailBytes([Some([0x53])], 0) == [];
  }

  /** The loose hash takes a script name only for a crash of the game's own code without a symbol, and
      then the innermost one. */
  lemma LooseTakes(c: Site, names: seq<Option<CString>>)
    ensures names != [] && names[0].Some? && c.moduleLower == Some(GAME_EXE) && (c.symbol.None? || c.symbol == Some([]))
        ==> Loose(c, names) == NonZero(Absorb(FNV_OFFSET, SiteBytes(c) + ([0x1F] + names[0].value)))
    ensures names == [] || names[0].None? || c.moduleLower != Some(GAME_EXE) || (c.symbol.Some? && c.symbol.value != [])
        ==> Loose(c, names) == NonZero(Absorb(FNV_OFFSET, SiteBytes(c)))
  {
    if names != [] && names[0].Some? { AbsorbAppend(FNV_OFFSET, SiteBytes(c), [0x1F] + names[0].value); }
  }

  /** Zero is kept for "no hash". */
  function NonZero(h: uint64): uint64 { if h == 0 then 1 else h }

  /** "cyberpunk2077.exe". */
  const GAME_EXE: seq<byte> := [
    0x63, 0x79, 0x62, 0x65, 0x72, 0x70, 0x75, 0x6E, 0x6B, 0x32, 0x30, 0x37, 0x37, 0x2E, 0x65, 0x78, 0x65]

  /** A crash in the game without a symbol: the loose hash then takes the innermost script name. */
  predicate Enriched(c: Site, names: seq<Option<CString>>) {
    c.moduleLower == Some(GAME_EXE) && !HasText(c.symbol) && names != [] && names[0].Some?
  }

  function Base(c: Site): uint64 { Absorb(FNV_OFFSET, SiteBytes(c)) }

  function Primary(c: Site, names: seq<Option<CString>>): uint64 { NonZero(Absorb(Base(c), Tail(names))) }

  function Loose(c: Site, names: seq<Option<CString>>): uint64 {
    NonZero(if Enriched(c, names) then Absorb(Base(c), [FIELD_SEP] + Text(names[0])) else Base(c))
  }

  // ----- Ids -----

  const ALPHABET: string := "0123456789ABCDEFGHJKMNPQRSTVWXYZ"
  const ID_CHARS: nat := 8

  /** `n` base-32 digits of `x`, most significant first. */
  function Base32(x: nat, n: nat): (s: string)
    ensures |s| == n
  {
    if n == 0 then [] else Base32(x / 32, n - 1) + [ALPHABET[x % 32]]
  }

  /** The id is the top 40 bits. */
  function IdText(h: uint64): (s: string)
    ensures |s| == ID_CHARS
  {
    Base32(h / TWO_24, ID_CHARS)
  }

  /** A digit or a capital other than I, L, O and U: there are 32 of them. */
  predicate IdChar(c: char) {
    '0' <= c <= '9' || ('A' <= c <= 'Z' && c != 'I' && c != 'L' && c != 'O' && c != 'U')
  }

  lemma AlphabetAscends()
    ensures |ALPHABET| == 32
    ensures forall i, j :: 0 <= i < j < 32 ==> ALPHABET[i] < ALPHABET[j]
    ensures forall i :: 0 <= i < 32 ==> IdChar(ALPHABET[i])
  {
    forall i | 0 <= i < 32 ensures IdChar(ALPHABET[i]) && (i < 31 ==> ALPHABET[i] < ALPHABET[i + 1]) {
      AlphabetAt(i);
    }
    forall i, j | 0 <= i < j < 32 ensures ALPHABET[i] < ALPHABET[j] {
      StepsAscend(i, j);
    }
  }

  lemma AlphabetAt(i: nat)
    requires i < 32
    ensures |ALPHABET| == 32 && IdChar(ALPHABET[i]) && (i < 31 ==> ALPHABET[i] < ALPHABET[i + 1])
  {
  }

  lemma {:induction false} StepsAscend(i: nat, j: nat)
    requires i < j < 32
    ensures |ALPHABET| == 32 && ALPHABET[i] < ALPHABET[j]
    decreases j - i
  {
    AlphabetAt(i);
    if i + 1 < j { StepsAscend(i + 1, j); }
  }

  function Pow32(n: nat): (p: nat)
    ensures p > 0
  {
    if n == 0 then 1 else 32 * Pow32(n - 1)
  }

  lemma SameDigit(x: nat, y: nat)
    ensures ALPHABET[x % 32] == ALPHABET[y % 32] && x / 32 == y / 32 <==> x == y
  {
    AlphabetAscends();
    assert x == x / 32 * 32 + x % 32 && y == y / 32 * 32 + y % 32;
  }

  lemma SameSnoc(s: string, c: char, t: string, d: char)
    ensures s + [c] == t + [d] <==> s == t && c == d
  {
    if s + [c] == t + [d] {
      assert (s + [c])[..|s|] == (t + [d])[..|t|] && (s + [c])[|s|] == (t + [d])[|t|];
    }
  }

  /** Equal digits, equal numbers. */
  lemma {:induction false} Base32Injective(x: nat, y: nat, n: nat)
    requires x < Pow32(n) && y < Pow32(n)
    ensures Base32(x, n) == Base32(y, n) <==> x == y
    decreases n
  {
    if n > 0 {
      Base32Injective(x / 32, y / 32, n - 1);
      SameDigit(x, y);
      SameSnoc(Base32(x / 32, n - 1), ALPHABET[x % 32], Base32(y / 32, n - 1), ALPHABET[y % 32]);
    }
  }

  /** Two ids are equal exactly when the hashes agree in their top 40 bits. */
  lemma IdsEqualIffTopBitsAre(h: uint64, k: uint64)
    ensures IdText(h) == IdText(k) <==> h / TWO_24 == k / TWO_24
  {
    Base32Injective(h / TWO_24, k / TWO_24, ID_CHARS);
  }

  /** Digit `k` from the right. */
  function DigitOf(x: nat, k: nat): char {
    DivNat(x, Pow32(k));
    ALPHABET[x / Pow32(k) % 32]
  }

  lemma NextDigit(x: nat, k: nat)
    ensures DigitOf(x, k + 1) == DigitOf(x / 32, k)
  {
    DivDiv(x, 32, Pow32(k));
  }

  /** A digit of the number, by shifting. */
  lemma {:induction false} DigitAt(x: nat, n: nat, i: nat)
    requires i < n
    ensures Base32(x, n)[i] == DigitOf(x, n - 1 - i)
    decreases n
  {
    if i < n - 1 {
      DigitAt(x / 32, n - 1, i);
      NextDigit(x, n - 2 - i);
    }
  }

  /** The code's shift distances. */
  lemma {:induction false} ShiftBy(k: nat)
    ensures Pow2(24 + 5 * k) == TWO_24 * Pow32(k)
  {
    if k == 0 {
      assert Pow2(8) == 256 && Pow2(16) == 65536;
      assert Pow2(24) == TWO_24;
    } else {
      ShiftBy(k - 1);
      FiveBits(24 + 5 * (k - 1));
    }
  }

  lemma FiveBits(k: nat)
    ensures Pow2(k + 5) == 32 * Pow2(k)
  {
    assert Pow2(k + 2) == 4 * Pow2(k);
    assert Pow2(k + 4) == 4 * Pow2(k + 2);
  }

  /** `h >> shift`. */
  function ShiftRight(h: uint64, shift: nat): (r: nat) {
    DivNat(h, Pow2(shift));
    h / Pow2(shift)
  }

  lemma IdDigit(h: uint64, i: nat)
    requires i < ID_CHARS
    ensures IdText(h)[i] == ALPHABET[ShiftRight(h, 59 - 5 * i) % 32]
  {
    DigitAt(h / TWO_24, ID_CHARS, i);
    ShiftBy(7 - i);
    assert 24 + 5 * (7 - i) == 59 - 5 * i;
    DivDiv(h, TWO_24, Pow32(7 - i));
  }

  /** Writes as much of the id as fits, and a NUL. */
  method EncodeId(h: uint64, out: array<char>)
    modifies out
    ensures out.Length > 0 ==>
      var n := Min(ID_CHARS, out.Length - 1);
      out[..n] == IdText(h)[..n] && out[n] == '\0'
  {
    if out.Length == 0 { return; }
    var n := ID_CHARS;
    if n + 1 > out.Length { n := out.Length - 1; }
    for i := 0 to n
      invariant out[..i] == IdText(h)[..i]
    {
      IdDigit(h, i);
      out[i] := ALPHABET[ShiftRight(h, 59 - 5 * i) % 32];
      assert out[..i + 1] == out[..i] + [out[i]];
    }
    out[n] := '\0';
  }

  // ----- Primary hashes -----

  /** Two crashes with the same script tail share a primary hash exactly when their base hashes
      agree, but for the remap of zero to one. */
  lemma PrimaryComparesBases(c: Site, d: Site, names: seq<Option<CString>>, others: seq<Option<CString>>)
    requires Tail(names) == Tail(others)
    ensures Primary(c, names) == Primary(d, others) <==>
              Base(c) == Base(d)
              || (Absorb(Base(c), Tail(names)) <= 1 && Absorb(Base(d), Tail(names)) <= 1)
  {
    AbsorbIsBijective(Base(c), Tail(names));
    AbsorbIsBijective(Base(d), Tail(names));
  }

  /** For given inputs the remap joins just two of the 2^64 bases: those that unwind from 0 and 1. */
  lemma RemapJoinsTwoBases(h: uint64, tail: seq<byte>)
    ensures Absorb(h, tail) <= 1 <==> h == Unwind(0, tail) || h == Unwind(1, tail)
    ensures Unwind(0, tail) != Unwind(1, tail)
  {
    AbsorbIsBijective(h, tail);
    AbsorbIsBijective(0, tail);
    AbsorbIsBijective(1, tail);
  }

  // ----- The fingerprint -----

  datatype CrashFingerprint = CrashFingerprint(primary: uint64, loose: uint64, modSet: uint64,
                                               primaryId: string, looseId: string,
                                               hasModule: bool, faultSiteUnreliable: bool)

  method HashSite(c: Site) returns (base: uint64)
    ensures base == Base(c)
  {
    ghost var done := U64Bytes(c.exceptionCode) + [FIELD_SEP];
    base := FnvBytes(FNV_OFFSET, U64Bytes(c.exceptionCode) + [FIELD_SEP]);
    base := FnvStr(base, c.buildId);
    AbsorbAppend(FNV_OFFSET, done, Text(c.buildId));
    base := FnvBytes(base, [FIELD_SEP]);
    AbsorbAppend(FNV_OFFSET, done + Text(c.buildId), [FIELD_SEP]);
    done := done + Text(c.buildId) + [FIELD_SEP];
    if c.moduleLower.Some? {
      var fault := HashFault(base, c);
      AbsorbAppend(FNV_OFFSET, done, FaultBytes(c));
      base := fault;
      assert done + FaultBytes(c) == SiteBytes(c);
    } else {
      assert done + [] == done;
    }
  }

  function FaultBytes(c: Site): seq<byte>
    requires c.moduleLower.Some?
  {
    c.moduleLower.value + [FIELD_SEP] + if HasText(c.symbol) then c.symbol.value else U64Bytes(c.moduleRva)
  }

  method HashFault(h: uint64, c: Site) returns (r: uint64)
    requires c.moduleLower.Some?
    ensures r == Absorb(h, FaultBytes(c))
  {
    r := FnvStr(h, c.moduleLower);
    r := FnvBytes(r, [FIELD_SEP]);
    AbsorbAppend(h, c.moduleLower.value, [FIELD_SEP]);
    var place := if HasText(c.symbol) then c.symbol.value else U64Bytes(c.moduleRva);
    AbsorbAppend(h, c.moduleLower.value + [FIELD_SEP], place);
    r := FnvBytes(r, place);
  }

  method HashTail(base: uint64, names: seq<Option<CString>>) returns (prim: uint64)
    ensures prim == Absorb(base, Tail(names))
  {
    prim := base;
    var n := TailLen(names);
    for i := 0 to n
      invariant prim == Absorb(base, TailBytes(names, i))
    {
      prim := HashName(prim, names[i]);
      AbsorbAppend(base, TailBytes(names, i), [FIELD_SEP] + Text(names[i]));
    }
  }

  method HashName(h: uint64, name: Option<CString>) returns (r: uint64)
    ensures r == Absorb(h, [FIELD_SEP] + Text(name))
  {
    r := FnvBytes(h, [FIELD_SEP]);
    r := FnvStr(r, name);
    AbsorbAppend(h, [FIELD_SEP], Text(name));
  }

  method ComputeFingerprintCore(c: Site, names: seq<Option<CString>>, modSetHash: uint64, faultSiteUnreliable: bool)
    returns (fp: CrashFingerprint)
    ensures fp == CrashFingerprint(Primary(c, names), Loose(c, names), modSetHash,
                                   IdText(Primary(c, names)), IdText(Loose(c, names)),
                                   c.moduleLower.Some?, faultSiteUnreliable)
  {
    var base := HashSite(c);
    var loose := base;
    if Enriched(c, names) { loose := HashName(base, names[0]); }
    var prim := HashTail(base, names);
    fp := CrashFingerprint(NonZero(prim), NonZero(loose), modSetHash, IdText(NonZero(prim)), IdText(NonZero(loose)),
                           c.moduleLower.Some?, faultSiteUnreliable);
  }

  // ----- The mod-set hash -----

  const MAX_INSTALLED_MODS: nat := 2048
  const WORD: nat := 64

  datatype Mod = Mod(name: seq<byte>, version: seq<byte>, enabled: bool)

  lemma WordWidth()
    ensures Pow2(WORD) == TWO_64
  {
    ShiftBy(ID_CHARS);
  }

  /** `x ^ (x >> shift)`. */
  function XorShift(x: uint64, shift: nat): uint64 {
    WordWidth();
    XorUndoes(x, ShiftRight(x, shift), WORD);
    Xor(x, ShiftRight(x, shift), WORD)
  }

  function Mix64(x: uint64): uint64 {
    var a := Times(XorShift(x, 30), 0xBF58_476D_1CE4_E5B9);
    var b := Times(XorShift(a, 27), 0x94D0_49BB_1331_11EB);
    XorShift(b, 31)
  }

  function ModBytes(m: Mod): seq<byte> { m.name + [FIELD_SEP] + m.version }

  function Contribution(m: Mod): uint64 {
    Mix64(Absorb(FNV_OFFSET, ModBytes(m)))
  }

  /** Unsigned 64-bit addition. */
  function Add(a: uint64, b: uint64): uint64 {
    if a + b < TWO_64 then a + b else a + b - TWO_64
  }

  function Sum(mods: seq<Mod>): uint64 {
    if mods == [] then 0 else Add(Sum(mods[..|mods| - 1]), Contribution(mods[|mods| - 1]))
  }

  predicate Counts(m: Mod) { m.enabled && m.name != [] }

  /** The mods that the hash is about. */
  function Counted(mods: seq<Mod>): seq<Mod> {
    if mods == [] then []
    else Counted(mods[..|mods| - 1]) + if Counts(mods[|mods| - 1]) then [mods[|mods| - 1]] else []
  }

  /** Exactly the enabled mods with a name, as often as they are listed. */
  lemma {:induction false} CountedAre(mods: seq<Mod>, m: Mod)
    ensures multiset(Counted(mods))[m] == if m.enabled && |m.name| > 0 then multiset(mods)[m] else 0
  {
    if mods != [] {
      CountedAre(mods[..|mods| - 1], m);
      assert mods == mods[..|mods| - 1] + [mods[|mods| - 1]];
    }
  }

  /** A mod's bytes determine its name and version, as long as its name is free of the separator. */
  lemma ModBytesDetermine(m: Mod, n: Mod)
    requires SepFree(m.name) && SepFree(n.name)
    ensures ModBytes(m) == ModBytes(n) <==> m.name == n.name && m.version == n.version
  {
    FirstField(m.name, m.version, n.name, n.version);
  }

  // ----- Mixing loses nothing -----

  /** A number without its low `k` bits. */
  function Drop(x: nat, k: nat): nat { if k == 0 then x else Drop(x / 2, k - 1) }

  lemma {:induction false} DropTwice(x: nat, i: nat, j: nat)
    ensures Drop(Drop(x, i), j) == Drop(x, i + j)
    decreases i
  {
    if i > 0 { DropTwice(x / 2, i - 1, j); }
  }

  lemma {:induction false} DropBelow(x: nat, width: nat, k: nat)
    requires x < Pow2(width) && k <= width
    ensures Drop(x, k) < Pow2(width - k)
    decreases k
  {
    if k > 0 { DropBelow(x / 2, width - 1, k - 1); }
  }

  lemma {:induction false} DropShifts(x: nat, k: nat)
    ensures x / Pow2(k) == Drop(x, k)
    decreases k
  {
    if k > 0 {
      DropShifts(x / 2, k - 1);
      DivDiv(x, 2, Pow2(k - 1));
    }
  }

  /** The high bits of an exclusive-or are that of the high bits. */
  lemma {:induction false} XorAbove(a: nat, b: nat, width: nat, k: nat)
    requires k <= width
    ensures Drop(Xor(a, b, width), k) == Xor(Drop(a, k), Drop(b, k), width - k)
    decreases k
  {
    if k > 0 {
      BitUndoes(a, b, Xor(a / 2, b / 2, width - 1));
      XorAbove(a / 2, b / 2, width - 1, k - 1);
    }
  }

  /** What a shifted sum shows of the high bits. */
  lemma SumAbove(x: uint64, shift: nat, j: nat)
    requires j <= WORD
    ensures Drop(XorShift(x, shift), j) == Xor(Drop(x, j), Drop(x, shift + j), WORD - j)
  {
    DropShifts(x, shift);
    XorAbove(x, Drop(x, shift), WORD, j);
    DropTwice(x, shift, j);
  }

  /** Where two numbers agree above bit `k`, their shifted sums tell that they agree further down. */
  lemma AgreeFurther(x: uint64, y: uint64, shift: nat, k: nat, j: nat)
    requires j <= k <= WORD && k <= shift + j && Drop(x, k) == Drop(y, k) && XorShift(x, shift) == XorShift(y, shift)
    ensures Drop(x, j) == Drop(y, j)
  {
    SumAbove(x, shift, j);
    SumAbove(y, shift, j);
    DropTwice(x, k, shift + j - k);
    DropTwice(y, k, shift + j - k);
    SameAddend(x, y, j, Drop(x, shift + j));
  }

  lemma SameAddend(x: uint64, y: uint64, j: nat, low: nat)
    requires j <= WORD && Xor(Drop(x, j), low, WORD - j) == Xor(Drop(y, j), low, WORD - j)
    ensures Drop(x, j) == Drop(y, j)
  {
    WordWidth();
    DropBelow(x, WORD, j);
    DropBelow(y, WORD, j);
    XorUndoes(Drop(x, j), low, WORD - j);
    XorUndoes(Drop(y, j), low, WORD - j);
  }

  lemma {:induction false} AgreeDownTo(x: uint64, y: uint64, shift: nat, k: nat)
    requires 0 < shift && k <= WORD && Drop(x, k) == Drop(y, k) && XorShift(x, shift) == XorShift(y, shift)
    ensures x == y
    decreases k
  {
    if k > 0 {
      var j := if k <= shift then 0 else k - shift;
      AgreeFurther(x, y, shift, k, j);
      AgreeDownTo(x, y, shift, j);
    }
  }

  lemma XorShiftInjective(x: uint64, y: uint64, shift: nat)
    requires 0 < shift && XorShift(x, shift) == XorShift(y, shift)
    ensures x == y
  {
    WordWidth();
    DropBelow(x, WORD, WORD);
    DropBelow(y, WORD, WORD);
    assert Pow2(0) == 1;
    AgreeDownTo(x, y, shift, WORD);
  }

  /** Multiplying by a number that has an inverse loses nothing. */
  lemma TimesInjective(x: uint64, y: uint64, m: uint64, inverse: uint64, wraps: nat)
    requires m * inverse == 1 + wraps * TWO_64 && Times(x, m) == Times(y, m)
    ensures x == y
  {
    TimesUndone(x, m, inverse, wraps);
    TimesUndone(y, m, inverse, wraps);
  }

  lemma TimesUndone(x: uint64, m: uint64, inverse: uint64, wraps: nat)
    requires m * inverse == 1 + wraps * TWO_64
    ensures Times(Times(x, m), inverse) == x
  {
    var q, r := x * m / TWO_64, Times(x, m);
    DivNat(x * m, TWO_64);
    assert r * inverse == (x * m - q * TWO_64) * inverse == x * (m * inverse) - q * TWO_64 * inverse;
    assert r * inverse == x + TWO_64 * (x * wraps - q * inverse);
    Reduces(x, x * wraps - q * inverse);
  }

  /** Two mods contribute the same exactly when their 64-bit hashes agree. */
  lemma MixInjective(x: uint64, y: uint64)
    ensures Mix64(x) == Mix64(y) <==> x == y
  {
    if Mix64(x) == Mix64(y) {
      var a, c := XorShift(x, 30), XorShift(y, 30);
      var b, d := Times(a, 0xBF58_476D_1CE4_E5B9), Times(c, 0xBF58_476D_1CE4_E5B9);
      var e, f := XorShift(b, 27), XorShift(d, 27);
      XorShiftInjective(Times(e, 0x94D0_49BB_1331_11EB), Times(f, 0x94D0_49BB_1331_11EB), 31);
      TimesInjective(e, f, 0x94D0_49BB_1331_11EB, 3573116690164977347, 2077064247507883091);
      XorShiftInjective(b, d, 27);
      TimesInjective(a, c, 0xBF58_476D_1CE4_E5B9, 10871156337175269513, 8125545580553827436);
      XorShiftInjective(x, y, 30);
    }
  }

  method ComputeModSetHash(mods: seq<Mod>) returns (acc: uint64)
    ensures acc == Sum(Counted(mods[..Min(|mods|, MAX_INSTALLED_MODS)]))
  {
    var count := Min(|mods|, MAX_INSTALLED_MODS);
    acc := 0;
    for i := 0 to count
      invariant acc == Sum(Counted(mods[..i]))
    {
      var m := mods[i];
      assert mods[..i + 1][..i] == mods[..i];
      assert Counted(mods[..i]) + [] == Counted(mods[..i]);
      if !m.enabled { continue; }
      if m.name == [] { continue; }
      var h := FnvBytes(FNV_OFFSET, m.name);
      h := FnvBytes(h, [FIELD_SEP]);
      h := FnvBytes(h, m.version);
      AbsorbAppend(FNV_OFFSET, m.name, [FIELD_SEP]);
      AbsorbAppend(FNV_OFFSET, m.name + [FIELD_SEP], m.version);
      assert (Counted(mods[..i]) + [m])[..|Counted(mods[..i])|] == Counted(mods[..i]);
      acc := Add(acc, Mix64(h));
    }
  }

  lemma Regroup(before: seq<Mod>, m: Mod, init: seq<Mod>, last: Mod)
    ensures before + [m] + (init + [last]) == before + [m] + init + [last]
    ensures before + (init + [last]) == before + init + [last]
  {
  }

  lemma {:induction false} SumWithout(before: seq<Mod>, m: Mod, after: seq<Mod>)
    ensures Sum(before + [m] + after) == Add(Sum(before + after), Contribution(m))
    decreases |after|
  {
    if after == [] {
      assert before + [m] + after == before + [m] && before + after == before;
    } else {
      var init, last := after[..|after| - 1], after[|after| - 1];
      assert after == init + [last];
      SumWithout(before, m, init);
      Regroup(before, m, init, last);
    }
  }

  /** The hash depends only on which mods are counted, not on their order. */
  lemma {:induction false} SumOfMultiset(a: seq<Mod>, b: seq<Mod>)
    requires multiset(a) == multiset(b)
    ensures Sum(a) == Sum(b)
    decreases |a|
  {
    if a == [] {
      assert |multiset(a)| == |multiset(b)|;
    } else {
      var init, last := a[..|a| - 1], a[|a| - 1];
      assert a == init + [last];
      assert last in multiset(b);
      var i :| 0 <= i < |b| && b[i] == last;
      assert b == b[..i] + [last] + b[i + 1..];
      assert multiset(a) == multiset(init) + multiset{last};
      assert multiset(b) == multiset(b[..i] + b[i + 1..]) + multiset{last};
      assert multiset(init) == multiset(a) - multiset{last};
      SumOfMultiset(init, b[..i] + b[i + 1..]);
      SumWithout(b[..i], last, b[i + 1..]);
    }
  }

  lemma {:induction false} CountedMultiset(mods: seq<Mod>, m: Mod)
    ensures multiset(Counted(mods))[m] == if Counts(m) then multiset(mods)[m] else 0
  {
    if mods != [] {
      CountedMultiset(mods[..|mods| - 1], m);
      assert mods == mods[..|mods| - 1] + [mods[|mods| - 1]];
    }
  }

  /** Two inventories with the same counted mods among their first 2048 have the same hash,
      whatever the order and whatever else they list. */
  lemma ModSetHashIgnoresOrder(mods: seq<Mod>, others: seq<Mod>)
    requires var a, b := mods[..Min(|mods|, MAX_INSTALLED_MODS)], others[..Min(|others|, MAX_INSTALLED_MODS)];
      forall m :: Counts(m) ==> multiset(a)[m] == multiset(b)[m]
    ensures Sum(Counted(mods[..Min(|mods|, MAX_INSTALLED_MODS)]))
         == Sum(Counted(others[..Min(|others|, MAX_INSTALLED_MODS)]))
  {
    var a, b := mods[..Min(|mods|, MAX_INSTALLED_MODS)], others[..Min(|others|, MAX_INSTALLED_MODS)];
    forall m: Mod ensures multiset(Counted(a))[m] == multiset(Counted(b))[m] {
      CountedMultiset(a, m);
      CountedMultiset(b, m);
    }
    SumOfMultiset(Counted(a), Counted(b));
  }
}
