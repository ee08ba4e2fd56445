/** The path hasher of analyzer/dictionary/fnv1a64.mjs.  A JavaScript string is a sequence of
    UTF-16 code units. */
module PathHash {
  import opened Bytes
  import opened Fnv

  type CodeUnit = x: int | 0 <= x < 0x1_0000
  type JsString = seq<CodeUnit>

  const QUOTE := 0x22
  const APOSTROPHE := 0x27
  const SLASH := 0x2F
  const BACKSLASH := 0x5C
  const MAX_PATH_LENGTH := 216

  predicate IsQuote(c: CodeUnit) { c == QUOTE || c == APOSTROPHE }
  predicate IsSlash(c: CodeUnit) { c == SLASH || c == BACKSLASH }

  /** `toLowerCase` on the letters that the code hands to it. */
  function Lower(c: CodeUnit): CodeUnit { if 0x41 <= c <= 0x5A then c + 0x20 else c }

  /** Quotes are 0x22 and 0x27, slashes 0x2F and 0x5C, and only the capitals 0x41 to 0x5A fold, each to
      the letter 0x20 above it. */
  lemma CharactersAre(c: CodeUnit, d: CodeUnit)
    ensures (IsQuote(c) <==> c == 0x22 || c == 0x27) && (IsSlash(c) <==> c == 0x2F || c == 0x5C)
    ensures Lower(c) == Lower(d) <==>
      c == d || (0x41 <= c <= 0x5A && d == c + 0x20) || (0x41 <= d <= 0x5A && c == d + 0x20)
    ensures !(0x41 <= Lower(c) <= 0x5A)
  {
  }

  function SkipSlashes(s: JsString): (r: JsString)
    ensures |r| <= |s|
  {
    if s != [] && IsSlash(s[0]) then SkipSlashes(s[1..]) else s
  }

  /** Up to the first quote: each run of slashes becomes one backslash, the rest lower case. */
  function Clean(s: JsString): JsString
    decreases |s|
  {
    if s == [] || IsQuote(s[0]) then []
    else if IsSlash(s[0]) then [BACKSLASH] + Clean(SkipSlashes(s[1..]))
    else [Lower(s[0])] + Clean(s[1..])
  }

  function Stripped(s: JsString): JsString {
    SkipSlashes(if s != [] && IsQuote(s[0]) then s[1..] else s)
  }

  function Capped(s: JsString): JsString { if |s| > MAX_PATH_LENGTH then s[..MAX_PATH_LENGTH] else s }

  function Sanitized(s: JsString): JsString { Capped(Clean(Stripped(s))) }

  /** A path as the archives store it. */
  predicate Canonical(s: JsString) {
    && |s| <= MAX_PATH_LENGTH
    && (s != [] ==> !IsSlash(s[0]))
    && (forall i :: 0 <= i < |s| ==> !IsQuote(s[i]) && s[i] != SLASH && Lower(s[i]) == s[i])
    && (forall i :: 0 < i < |s| && s[i] == BACKSLASH ==> s[i - 1] != BACKSLASH)
  }

  /** What `Clean` leaves, whatever its length. */
  ghost predicate CleanForm(s: JsString) {
    && (forall i :: 0 <= i < |s| ==> !IsQuote(s[i]) && s[i] != SLASH && Lower(s[i]) == s[i])
    && (forall i :: 0 < i < |s| && s[i] == BACKSLASH ==> s[i - 1] != BACKSLASH)
  }

  lemma {:induction false} SkippedStart(s: JsString)
    ensures SkipSlashes(s) != [] ==> !IsSlash(SkipSlashes(s)[0])
  {
    if s != [] && IsSlash(s[0]) { SkippedStart(s[1..]); }
  }

  lemma {:induction false} CleanIsClean(s: JsString)
    ensures CleanForm(Clean(s))
    ensures s != [] && !IsSlash(s[0]) && Clean(s) != [] ==> Clean(s)[0] != BACKSLASH
    decreases |s|
  {
    if s != [] && !IsQuote(s[0]) {
      if IsSlash(s[0]) {
        SkippedStart(s[1..]);
        CleanIsClean(SkipSlashes(s[1..]));
      } else {
        CleanIsClean(s[1..]);
      }
    }
  }

  lemma {:induction false} CleanKeeps(s: JsString)
    requires CleanForm(s)
    ensures Clean(s) == s
    decreases |s|
  {
    if s != [] {
      assert CleanForm(s[1..]) by {
        forall i | 0 < i < |s[1..]| && s[1..][i] == BACKSLASH ensures s[1..][i - 1] != BACKSLASH {
          assert s[i + 1] == s[1..][i] && s[i] == s[1..][i - 1];
        }
      }
      CleanKeeps(s[1..]);
      if IsSlash(s[0]) {
        assert |s| > 1 ==> s[1] != BACKSLASH;
        assert SkipSlashes(s[1..]) == s[1..];
      }
    }
  }

  /** Sanitising yields a canonical path, and changes exactly the paths that are not. */
  lemma SanitizedIsNormal(s: JsString)
    ensures Canonical(Sanitized(s))
    ensures Sanitized(s) == s <==> Canonical(s)
    ensures Sanitized(Sanitized(s)) == Sanitized(s)
  {
    SanitizedIsCanonical(s);
    CanonicalIsKept(Sanitized(s));
    if Canonical(s) { CanonicalIsKept(s); }
  }

  lemma SanitizedIsCanonical(s: JsString)
    ensures Canonical(Sanitized(s))
  {
    SkippedStart(if s != [] && IsQuote(s[0]) then s[1..] else s);
    CleanIsClean(Stripped(s));
  }

  lemma CanonicalIsKept(s: JsString)
    requires Canonical(s)
    ensures Sanitized(s) == s
  {
    CleanKeeps(s);
  }

  // ----- What sanitising does to the parts of a path -----

  predicate AllSlashes(s: JsString) { forall i :: 0 <= i < |s| ==> IsSlash(s[i]) }

  predicate NoQuotes(s: JsString) { forall i :: 0 <= i < |s| ==> !IsQuote(s[i]) }

  predicate StartsPlain(s: JsString) { s == [] || !IsSlash(s[0]) }

  predicate EndsPlain(s: JsString) { s != [] && !IsSlash(s[|s| - 1]) }

  lemma {:induction false} SkipRunOf(run: JsString, rest: JsString)
    requires AllSlashes(run) && StartsPlain(rest)
    ensures SkipSlashes(run + rest) == rest
  {
    if run == [] {
      assert run + rest == rest;
    } else {
      assert (run + rest)[1..] == run[1..] + rest;
      SkipRunOf(run[1..], rest);
    }
  }

  lemma {:induction false} SkipAppend(a: JsString, rest: JsString)
    requires StartsPlain(rest) || EndsPlain(a)
    ensures SkipSlashes(a + rest) == SkipSlashes(a) + rest
    ensures SkipSlashes(a) == a[|a| - |SkipSlashes(a)|..]
    ensures EndsPlain(a) ==> EndsPlain(SkipSlashes(a))
  {
    if a == [] {
      assert a + rest == rest;
    } else if IsSlash(a[0]) {
      assert (a + rest)[1..] == a[1..] + rest;
      SkipAppend(a[1..], rest);
    }
  }

  /** Parts are cleaned one by one, unless a run of slashes goes on from one into the next. */
  lemma {:induction false} CleanAppend(a: JsString, rest: JsString)
    requires NoQuotes(a) && (StartsPlain(rest) || EndsPlain(a) || a == [])
    ensures Clean(a + rest) == Clean(a) + Clean(rest)
    decreases |a|
  {
    if a == [] {
      assert a + rest == rest;
    } else {
      assert (a + rest)[1..] == a[1..] + rest;
      if IsSlash(a[0]) {
        SkipAppend(a[1..], rest);
        CleanAppend(SkipSlashes(a[1..]), rest);
      } else {
        CleanAppend(a[1..], rest);
      }
    }
  }

  /** A part without slashes and quotes keeps its length; its capitals are folded. */
  lemma {:induction false} CleanPlain(s: JsString)
    requires NoQuotes(s) && forall i :: 0 <= i < |s| ==> !IsSlash(s[i])
    ensures |Clean(s)| == |s| && forall i :: 0 <= i < |s| ==> Clean(s)[i] == Lower(s[i])
  {
    if s != [] { CleanPlain(s[1..]); }
  }

  /** A run of slashes of either kind between two parts becomes one backslash. */
  lemma CleanJoins(a: JsString, run: JsString, b: JsString)
    requires NoQuotes(a) && (a == [] || EndsPlain(a)) && run != [] && AllSlashes(run) && StartsPlain(b)
    ensures Clean(a + (run + b)) == Clean(a) + ([0x5C] + Clean(b))
  {
    CleanAppend(a, run + b);
    assert (run + b)[1..] == run[1..] + b;
    SkipRunOf(run[1..], b);
  }

  /** The first quote ends the path. */
  lemma CleanStops(a: JsString, q: CodeUnit, b: JsString)
    requires NoQuotes(a) && IsQuote(q)
    ensures Clean(a + ([q] + b)) == Clean(a)
  {
    CleanAppend(a, [q] + b);
    assert Clean(a) + [] == Clean(a);
  }

  /** One leading quote and the slashes after it are dropped, and at most 216 code units are kept. */
  lemma SanitizedParts(lead: JsString, run: JsString, body: JsString)
    requires AllSlashes(run) && StartsPlain(body)
    requires if lead == [] then run + body == [] || !IsQuote((run + body)[0]) else |lead| == 1 && IsQuote(lead[0])
    ensures var kept := Sanitized(lead + (run + body));
      kept <= Clean(body) && |kept| == if |Clean(body)| < 216 then |Clean(body)| else 216
  {
    var s := lead + (run + body);
    if lead == [] {
      assert s == run + body;
    } else {
      assert s[1..] == run + body;
    }
    SkipRunOf(run, body);
  }

  /** Steps over a run of slashes. */
  method SkipRun(s: JsString, start: nat) returns (i: nat)
    requires start <= |s|
    ensures start <= i <= |s| && s[i..] == SkipSlashes(s[start..])
  {
    i := start;
    while i < |s| && IsSlash(s[i])
      invariant start <= i <= |s| && SkipSlashes(s[i..]) == SkipSlashes(s[start..])
    {
      assert s[i..][1..] == s[i + 1..];
      i := i + 1;
    }
  }

  /** One round of the loop. */
  lemma CleanStep(out: JsString, s: JsString, i: nat)
    requires i < |s| && !IsQuote(s[i])
    ensures IsSlash(s[i]) ==> out + Clean(s[i..]) == out + [BACKSLASH] + Clean(SkipSlashes(s[i + 1..]))
    ensures !IsSlash(s[i]) ==> out + Clean(s[i..]) == out + [Lower(s[i])] + Clean(s[i + 1..])
  {
    assert s[i..][1..] == s[i + 1..];
  }

  method Sanitize(s: JsString) returns (out: JsString)
    ensures out == Sanitized(s)
  {
    var i := 0;
    if |s| > 0 && IsQuote(s[0]) { i := 1; }
    assert s[0..] == s;
    i := SkipRun(s, i);
    ghost var all := Clean(s[i..]);
    assert s[i..] == Stripped(s);
    out := [];
    while i < |s| && !IsQuote(s[i])
      invariant i <= |s| && |out| < MAX_PATH_LENGTH
      invariant out + Clean(s[i..]) == all
      decreases |s| - i
    {
      var c := s[i];
      CleanStep(out, s, i);
      if IsSlash(c) {
        i := SkipRun(s, i + 1);
        out := out + [BACKSLASH];
      } else {
        out := out + [Lower(c)];
        i := i + 1;
      }
      if |out| == MAX_PATH_LENGTH {
        assert out == all[..MAX_PATH_LENGTH];
        return;
      }
    }
    assert Clean(s[i..]) == [] && out + [] == out;
  }

  /** The low bytes of the code units. */
  function LowBytes(s: JsString): (b: seq<byte>)
    ensures |b| == |s|
  {
    seq(|s|, i requires 0 <= i < |s| => s[i] % TWO_8)
  }

  function Hash(path: JsString): uint64 {
    if Sanitized(path) == [] then 0 else Absorb(FNV_OFFSET, LowBytes(Sanitized(path)))
  }

  method Fnv1a64(path: JsString) returns (h: uint64)
    ensures h == Hash(path)
  {
    var s := Sanitize(path);
    if |s| == 0 { return 0; }
    h := FNV_OFFSET;
    ghost var bytes := LowBytes(s);
    for k := 0 to |s|
      invariant h == Absorb(FNV_OFFSET, bytes[..k])
    {
      assert bytes[..k + 1][..k] == bytes[..k];
      h := Step(h, s[k] % TWO_8);
    }
    assert bytes[..|s|] == bytes;
  }

  /** Two spellings with the same canonical form have the same hash. */
  lemma HashIgnoresSpelling(a: JsString, b: JsString)
    requires Sanitized(a) == Sanitized(b)
    ensures Hash(a) == Hash(b) && Hash(Sanitized(a)) == Hash(a)
  {
    SanitizedIsNormal(a);
  }

  /** Of these spellings of the path "a" each has the published hash of that text; of a code unit only
      the low byte counts, and a path of slashes hashes to 0. */
  lemma KnownHash()
    ensures Hash([0x61]) == Hash([0x41]) == Hash([0x161]) == Hash([0x22, 0x5C, 0x41, 0x27]) == 0xAF63_DC4C_8601_EC8C
    ensures Hash([0x2F, 0x5C]) == 0
  {
    KnownVector();
    CleanOne(0x61);
    CleanOne(0x41);
    CleanOne(0x161);
    SanitizedParts([], [], [0x61]);
    SanitizedParts([], [], [0x41]);
    SanitizedParts([], [], [0x161]);
    assert LowBytes([0x61]) == LowBytes([0x161]) == [0x61];
    KnownQuoted();
    SanitizedParts([], [0x2F, 0x5C], []);
    assert [] + ([0x2F, 0x5C] + []) == [0x2F, 0x5C];
  }

  lemma CleanOne(c: CodeUnit)
    requires !IsQuote(c) && !IsSlash(c)
    ensures Clean([c]) == [Lower(c)] && [] + ([] + [c]) == [c]
  {
    assert [c][1..] == [];
  }

  lemma KnownQuoted()
    ensures Sanitized([0x22, 0x5C, 0x41, 0x27]) == [0x61]
  {
    SanitizedParts([0x22], [0x5C], [0x41, 0x27]);
    CleanOne(0x41);
    CleanStops([0x41], 0x27, []);
    assert [0x41] + ([0x27] + []) == [0x41, 0x27];
    assert [0x22] + ([0x5C] + [0x41, 0x27]) == [0x22, 0x5C, 0x41, 0x27];
  }
}
