/** JSON documents: their trees, the layout that the report writer uses, and a parser for the
    grammar of RFC 8259.  Text is a sequence of characters, one per byte. */
module Json {
  import opened NumberText
  import opened Wrappers

  /** A number is kept as its text. */
  datatype Json =
    | Null
    | Bool(b: bool)
    | Num(lexeme: string)
    | Str(s: string)
    | Arr(items: seq<Json>)
    | Obj(members: seq<Member>)

  datatype Member = Member(key: string, value: Json)

  function Count(n: nat): Json { Num(Decimal(n)) }

  // ----- Layout -----

  /** One character of a string literal. */
  function EscapeChar(c: char): string {
    if c == '"' then ['\\', '"']
    else if c == '\\' then ['\\', '\\']
    else if c == '\n' then ['\\', 'n']
    else if c == '\r' then ['\\', 'r']
    else if c == '\t' then ['\\', 't']
    else if c < ' ' then ['\\', 'u', '0', '0', HexDigit(c as int / 16), HexDigit(c as int % 16)]
    else [c]
  }

  function Escape(s: string): string {
    if s == [] then [] else EscapeChar(s[0]) + Escape(s[1..])
  }

  function Quote(s: string): string { ['"'] + Escape(s) + ['"'] }

  /** A member name that needs no escape. */
  predicate Plain(k: string) {
    forall i :: 0 <= i < |k| ==> k[i] >= ' ' && k[i] != '"' && k[i] != '\\'
  }

  function Key(k: string): string { ['"'] + k + ['"', ':', ' '] }

  const COMMA: string := [',', ' ']

  /** Containers on one line: `[a, b]` and `{ "k": v, "l": w }`. */
  function Render(j: Json): string
    decreases j, 0
  {
    match j
    case Null => "null"
    case Bool(b) => if b then "true" else "false"
    case Num(t) => t
    case Str(s) => Quote(s)
    case Arr(items) => ['['] + RenderItems(items) + [']']
    case Obj(members) => ['{', ' '] + RenderMembers(members) + [' ', '}']
  }

  function RenderItems(items: seq<Json>): string
    decreases items, 1
  {
    if items == [] then []
    else if |items| == 1 then Render(items[0])
    else Render(items[0]) + COMMA + RenderItems(items[1..])
  }

  function RenderMember(m: Member): string
    decreases m, 1
  {
    Key(m.key) + Render(m.value)
  }

  function RenderMembers(ms: seq<Member>): string
    decreases ms, 2
  {
    if ms == [] then []
    else if |ms| == 1 then RenderMember(ms[0])
    else RenderMember(ms[0]) + COMMA + RenderMembers(ms[1..])
  }

  /** What comes before the next element of a list. */
  function Lead(emitted: nat): string { if emitted == 0 then [] else COMMA }

  lemma {:induction false} ItemsSnoc(items: seq<Json>, x: Json)
    ensures RenderItems(items + [x]) == RenderItems(items) + Lead(|items|) + Render(x)
  {
    if items == [] {
      assert items + [x] == [x];
    } else {
      assert (items + [x])[1..] == items[1..] + [x];
      ItemsSnoc(items[1..], x);
      if |items| == 1 { assert items[1..] == []; }
    }
  }

  lemma {:induction false} MembersSnoc(ms: seq<Member>, m: Member)
    ensures RenderMembers(ms + [m]) == RenderMembers(ms) + Lead(|ms|) + RenderMember(m)
  {
    if ms == [] {
      assert ms + [m] == [m];
    } else {
      assert (ms + [m])[1..] == ms[1..] + [m];
      MembersSnoc(ms[1..], m);
      if |ms| == 1 { assert ms[1..] == []; }
    }
  }

  const INDENT: string := [' ', ' ']

  /** A top-level object: one member a line, indented by two. */
  function RenderLines(ms: seq<Member>): string {
    if ms == [] then []
    else if |ms| == 1 then INDENT + RenderMember(ms[0]) + ['\n']
    else INDENT + RenderMember(ms[0]) + [',', '\n'] + RenderLines(ms[1..])
  }

  function RenderDocument(ms: seq<Member>): string {
    ['{', '\n'] + RenderLines(ms) + ['}', '\n']
  }

  // ----- Numbers -----

  predicate IsNumberChar(c: char) {
    IsDigit(c) || c == '-' || c == '+' || c == '.' || c == 'e' || c == 'E'
  }

  function DigitRun(s: string): (n: nat)
    ensures n <= |s|
  {
    if s != [] && IsDigit(s[0]) then 1 + DigitRun(s[1..]) else 0
  }

  /** `exp`, or nothing. */
  predicate IsExponent(s: string) {
    s == [] ||
    ((s[0] == 'e' || s[0] == 'E') &&
     var t := if |s| > 1 && (s[1] == '+' || s[1] == '-') then s[2..] else s[1..];
     t != [] && DigitRun(t) == |t|)
  }

  /** `frac` and `exp`, each optional. */
  predicate IsFraction(s: string) {
    if s != [] && s[0] == '.' then
      var n := DigitRun(s[1..]);
      n > 0 && IsExponent(s[1 + n..])
    else IsExponent(s)
  }

  predicate IsNumber(s: string) {
    var t := if s != [] && s[0] == '-' then s[1..] else s;
    var n := DigitRun(t);
    n > 0 && (n == 1 || t[0] != '0') && IsFraction(t[n..])
  }

  lemma {:induction false} DigitsRun(s: string)
    requires AllDigits(s)
    ensures DigitRun(s) == |s|
  {
    if s != [] { DigitsRun(s[1..]); }
  }

  lemma DecimalIsNumber(n: nat)
    ensures IsNumber(Decimal(n))
  {
    var t := Decimal(n);
    DigitsRun(t);
    RoundTrip(n);
    assert IsDigit(t[0]);
    assert t[|t|..] == [];
  }

  // ----- Parser -----

  predicate IsSpace(c: char) { c == ' ' || c == '\t' || c == '\n' || c == '\r' }

  function SkipSpace(s: string): (r: string)
    ensures |r| <= |s|
  {
    if s != [] && IsSpace(s[0]) then SkipSpace(s[1..]) else s
  }

  function HexValue(c: char): Option<nat> {
    if '0' <= c <= '9' then Some(c as int - '0' as int)
    else if 'A' <= c <= 'F' then Some(c as int - 'A' as int + 10)
    else if 'a' <= c <= 'f' then Some(c as int - 'a' as int + 10)
    else None
  }

  /** Four hexadecimal digits. */
  function CodeUnit(s: string): (u: Option<nat>)
    ensures u.Some? ==> |s| >= 4 && u.value < 0x1_0000
  {
    if |s| < 4 then None
    else match (HexValue(s[0]), HexValue(s[1]), HexValue(s[2]), HexValue(s[3]))
      case (Some(a), Some(b), Some(c), Some(d)) =>
        if a < 16 && b < 16 && c < 16 && d < 16 then Some(4096 * a + 256 * b + 16 * c + d) else None
      case _ => None
  }

  function Byte(n: nat): char
    requires n < 256
  {
    n as char
  }

  /** The bytes of a code point in UTF-8. */
  function Utf8(u: nat): string
    requires u < 0x11_0000
  {
    if u < 0x80 then [Byte(u)]
    else if u < 0x800 then [Byte(0xC0 + u / 0x40), Byte(0x80 + u % 0x40)]
    else if u < 0x1_0000 then [Byte(0xE0 + u / 0x1000), Byte(0x80 + u / 0x40 % 0x40), Byte(0x80 + u % 0x40)]
    else [Byte(0xF0 + u / 0x4_0000), Byte(0x80 + u / 0x1000 % 0x40), Byte(0x80 + u / 0x40 % 0x40), Byte(0x80 + u % 0x40)]
  }

  /** One escape sequence after its backslash: the text it stands for and what follows. */
  function ParseEscape(s: string): (r: Option<(string, string)>)
    ensures r.Some? ==> |r.value.1| < |s|
  {
    if s == [] then None
    else if s[0] == '"' || s[0] == '\\' || s[0] == '/' then Some(([s[0]], s[1..]))
    else if s[0] == 'b' then Some(([8 as char], s[1..]))
    else if s[0] == 'f' then Some(([12 as char], s[1..]))
    else if s[0] == 'n' then Some((['\n'], s[1..]))
    else if s[0] == 'r' then Some((['\r'], s[1..]))
    else if s[0] == 't' then Some((['\t'], s[1..]))
    else if s[0] == 'u' && CodeUnit(s[1..]).Some? then
      var u := CodeUnit(s[1..]).value;
      if 0xDC00 <= u < 0xE000 then None
      else if 0xD800 <= u < 0xDC00 then ParseLowSurrogate(u, s[5..])
      else Some((Utf8(u), s[5..]))
    else None
  }

  function ParseLowSurrogate(high: nat, s: string): (r: Option<(string, string)>)
    requires 0xD800 <= high < 0xDC00
    ensures r.Some? ==> |r.value.1| < |s|
  {
    if |s| >= 6 && s[0] == '\\' && s[1] == 'u' && CodeUnit(s[2..]).Some? &&
       0xDC00 <= CodeUnit(s[2..]).value < 0xE000
    then Some((Utf8(0x1_0000 + (high - 0xD800) * 0x400 + (CodeUnit(s[2..]).value - 0xDC00)), s[6..]))
    else None
  }

  /** The characters of a string up to its closing quote. */
  function ParseChars(s: string): (r: Option<(string, string)>)
    ensures r.Some? ==> |r.value.1| < |s|
    decreases |s|
  {
    if s == [] || s[0] < ' ' then None
    else if s[0] == '"' then Some(([], s[1..]))
    else
      var head := if s[0] == '\\' then ParseEscape(s[1..]) else Some(([s[0]], s[1..]));
      if head.None? then None
      else
        var tail := ParseChars(head.value.1);
        if tail.None? then None else Some((head.value.0 + tail.value.0, tail.value.1))
  }

  function NumberRun(s: string): (n: nat)
    ensures n <= |s|
  {
    if s != [] && IsNumberChar(s[0]) then 1 + NumberRun(s[1..]) else 0
  }

  function ParseNumber(s: string): (r: Option<(Json, string)>)
    ensures r.Some? ==> |r.value.1| < |s|
  {
    var n := NumberRun(s);
    if n > 0 && IsNumber(s[..n]) then Some((Num(s[..n]), s[n..])) else None
  }

  /** A value and the text after it; `s` begins at the value. */
  function ParseValue(s: string): (r: Option<(Json, string)>)
    ensures r.Some? ==> |r.value.1| < |s|
    decreases |s|, 0
  {
    if s == [] then None
    else if s[0] == '"' then
      var p := ParseChars(s[1..]);
      if p.None? then None else Some((Str(p.value.0), p.value.1))
    else if s[0] == '[' then
      var t := SkipSpace(s[1..]);
      if t != [] && t[0] == ']' then Some((Arr([]), t[1..]))
      else
        var p := ParseItems(t);
        if p.None? then None else Some((Arr(p.value.0), p.value.1))
    else if s[0] == '{' then
      var t := SkipSpace(s[1..]);
      if t != [] && t[0] == '}' then Some((Obj([]), t[1..]))
      else
        var p := ParseMembers(t);
        if p.None? then None else Some((Obj(p.value.0), p.value.1))
    else if |s| >= 4 && s[..4] == "null" then Some((Null, s[4..]))
    else if |s| >= 4 && s[..4] == "true" then Some((Bool(true), s[4..]))
    else if |s| >= 5 && s[..5] == "false" then Some((Bool(false), s[5..]))
    else ParseNumber(s)
  }

  /** One or more items and the closing bracket. */
  function ParseItems(s: string): (r: Option<(seq<Json>, string)>)
    ensures r.Some? ==> |r.value.1| < |s|
    decreases |s|, 1
  {
    var v := ParseValue(s);
    if v.None? then None
    else
      var t := SkipSpace(v.value.1);
      if t == [] then None
      else if t[0] == ']' then Some(([v.value.0], t[1..]))
      else if t[0] == ',' then
        var p := ParseItems(SkipSpace(t[1..]));
        if p.None? then None else Some(([v.value.0] + p.value.0, p.value.1))
      else None
  }

  function ParseMember(s: string): (r: Option<(Member, string)>)
    ensures r.Some? ==> |r.value.1| < |s|
    decreases |s|, 1
  {
    if s == [] || s[0] != '"' then None
    else
      var k := ParseChars(s[1..]);
      if k.None? then None
      else
        var t := SkipSpace(k.value.1);
        if t == [] || t[0] != ':' then None
        else
          var v := ParseValue(SkipSpace(t[1..]));
          if v.None? then None else Some((Member(k.value.0, v.value.0), v.value.1))
  }

  /** One or more members and the closing brace. */
  function ParseMembers(s: string): (r: Option<(seq<Member>, string)>)
    ensures r.Some? ==> |r.value.1| < |s|
    decreases |s|, 2
  {
    var m := ParseMember(s);
    if m.None? then None
    else
      var t := SkipSpace(m.value.1);
      if t == [] then None
      else if t[0] == '}' then Some(([m.value.0], t[1..]))
      else if t[0] == ',' then
        var p := ParseMembers(SkipSpace(t[1..]));
        if p.None? then None else Some(([m.value.0] + p.value.0, p.value.1))
      else None
  }

  /** A whole document: white space around one value, and nothing else. */
  function ParseDocument(s: string): Option<Json> {
    var p := ParseValue(SkipSpace(s));
    if p.Some? && SkipSpace(p.value.1) == [] then Some(p.value.0) else None
  }

  // ----- Parsing inverts the layout -----

  /** A tree whose member names need no escape and whose numbers are numbers. */
  predicate Printable(j: Json)
    decreases j
  {
    match j
    case Num(t) => IsNumber(t) && forall i :: 0 <= i < |t| ==> IsNumberChar(t[i])
    case Arr(items) => forall i :: 0 <= i < |items| ==> Printable(items[i])
    case Obj(ms) => forall i :: 0 <= i < |ms| ==> Plain(ms[i].key) && Printable(ms[i].value)
    case _ => true
  }

  lemma CountPrintable(n: nat)
    ensures Printable(Count(n))
  {
    DecimalIsNumber(n);
  }

  predicate Stops(rest: string) { rest == [] || !IsNumberChar(rest[0]) }

  lemma ParseEscapedChar(c: char, rest: string)
    ensures var s := EscapeChar(c) + rest;
      s[0] >= ' ' && s[0] != '"' &&
      (if s[0] == '\\' then ParseEscape(s[1..]) == Some(([c], rest)) else s[0] == c && s[1..] == rest)
  {
    var s := EscapeChar(c) + rest;
    if s[0] == '\\' {
      if |EscapeChar(c)| == 2 {
        assert s[1..][1..] == rest;
      } else {
        var t := s[1..];
        assert t[0] == 'u' && t[1] == '0' && t[2] == '0';
        assert t[3] == HexDigit(c as int / 16) && t[4] == HexDigit(c as int % 16);
        var u := t[1..];
        assert u[0] == '0' && u[1] == '0' && u[2] == t[3] && u[3] == t[4];
        assert CodeUnit(u) == Some(c as int);
        assert t[5..] == rest;
      }
    } else {
      assert s[1..] == rest;
    }
  }

  lemma ParseOneMore(c: char, more: string, t: string, rest: string)
    requires ParseChars(more) == Some((t, rest))
    ensures ParseChars(EscapeChar(c) + more) == Some(([c] + t, rest))
  {
    ParseEscapedChar(c, more);
  }

  lemma {:induction false} ParseEscaped(s: string, rest: string)
    ensures ParseChars(Escape(s) + ['"'] + rest) == Some((s, rest))
    decreases |s|
  {
    var all := Escape(s) + ['"'] + rest;
    if s == [] {
      assert all == ['"'] + rest;
    } else {
      var more := Escape(s[1..]) + ['"'] + rest;
      assert all == EscapeChar(s[0]) + more;
      ParseEscaped(s[1..], rest);
      ParseOneMore(s[0], more, s[1..], rest);
      assert [s[0]] + s[1..] == s;
    }
  }

  lemma {:induction false} PlainEscape(k: string)
    requires Plain(k)
    ensures Escape(k) == k
  {
    if k != [] {
      PlainEscape(k[1..]);
      assert EscapeChar(k[0]) + k[1..] == k;
    }
  }

  lemma {:induction false} NumberRunOf(t: string, rest: string)
    requires forall i :: 0 <= i < |t| ==> IsNumberChar(t[i])
    requires Stops(rest)
    ensures NumberRun(t + rest) == |t|
  {
    if t == [] {
      assert t + rest == rest;
    } else {
      assert (t + rest)[1..] == t[1..] + rest;
      NumberRunOf(t[1..], rest);
    }
  }

  lemma ParseNumberText(t: string, rest: string)
    requires Printable(Num(t)) && Stops(rest)
    ensures ParseValue(t + rest) == Some((Num(t), rest))
  {
    NumberRunOf(t, rest);
    var s := t + rest;
    assert t != [];
    assert s[0] == t[0] && IsNumberChar(s[0]);
    assert s[..|t|] == t && s[|t|..] == rest;
    NotALiteral(s);
  }

  lemma NotAPrefix(s: string, word: string)
    requires s != [] && word != [] && s[0] != word[0]
    ensures |s| >= |word| ==> s[..|word|] != word
  {
    if |s| >= |word| { assert s[..|word|][0] == s[0]; }
  }

  lemma NotALiteral(s: string)
    requires s != [] && IsNumberChar(s[0])
    ensures ParseValue(s) == ParseNumber(s)
  {
    NotAPrefix(s, "null");
    NotAPrefix(s, "true");
    NotAPrefix(s, "false");
  }

  lemma RenderStarts(j: Json)
    requires Printable(j)
    ensures Render(j) != [] && !IsSpace(Render(j)[0]) && Render(j)[0] != ']'
  {
    match j
    case Num(t) => assert IsNumberChar(t[0]);
    case _ =>
  }

  lemma Tail(c: char, t: string)
    ensures ([c] + t)[0] == c && ([c] + t)[1..] == t
    ensures IsSpace(c) ==> SkipSpace([c] + t) == SkipSpace(t)
    ensures !IsSpace(c) ==> SkipSpace([c] + t) == [c] + t
  {
  }

  lemma Tail2(c: char, d: char, t: string)
    ensures ([c, d] + t)[0] == c && ([c, d] + t)[1..] == [d] + t
    ensures IsSpace(c) ==> SkipSpace([c, d] + t) == SkipSpace([d] + t)
    ensures !IsSpace(c) ==> SkipSpace([c, d] + t) == [c, d] + t
  {
    assert [c, d] + t == [c] + ([d] + t);
    Tail(c, [d] + t);
  }

  // One unfolding of each list parser.

  lemma LastItem(s: string, v: Json, after: string, rest: string)
    requires ParseValue(s) == Some((v, after)) && SkipSpace(after) == [']'] + rest
    ensures ParseItems(s) == Some(([v], rest))
  {
    Tail(']', rest);
  }

  lemma NextItem(s: string, v: Json, after: string, rest: string, vs: seq<Json>, end: string)
    requires ParseValue(s) == Some((v, after)) && SkipSpace(after) == [','] + rest
    requires ParseItems(SkipSpace(rest)) == Some((vs, end))
    ensures ParseItems(s) == Some(([v] + vs, end))
  {
    Tail(',', rest);
  }

  lemma LastMember(s: string, m: Member, after: string, rest: string)
    requires ParseMember(s) == Some((m, after)) && SkipSpace(after) == ['}'] + rest
    ensures ParseMembers(s) == Some(([m], rest))
  {
    Tail('}', rest);
  }

  lemma NextMember(s: string, m: Member, after: string, rest: string, ms: seq<Member>, end: string)
    requires ParseMember(s) == Some((m, after)) && SkipSpace(after) == [','] + rest
    requires ParseMembers(SkipSpace(rest)) == Some((ms, end))
    ensures ParseMembers(s) == Some(([m] + ms, end))
  {
    Tail(',', rest);
  }

  lemma OneMember(k: string, v: Json, s: string, afterKey: string, afterColon: string, end: string)
    requires s == ['"'] + Escape(k) + ['"'] + afterKey
    requires SkipSpace(afterKey) == [':'] + afterColon
    requires ParseValue(SkipSpace(afterColon)) == Some((v, end))
    ensures ParseMember(s) == Some((Member(k, v), end))
  {
    assert s[1..] == Escape(k) + ['"'] + afterKey;
    ParseEscaped(k, afterKey);
    Tail(':', afterColon);
  }

  /** Parsing a rendered value gives the value back, and stops right after it. */
  lemma {:induction false} ParseRendered(j: Json, rest: string)
    requires Printable(j) && (j.Num? ==> Stops(rest))
    ensures ParseValue(Render(j) + rest) == Some((j, rest))
    decreases j, 0
  {
    var s := Render(j) + rest;
    match j
    case Null =>
      assert s[..4] == "null" && s[4..] == rest;
    case Bool(b) =>
      if b { assert s[..4] == "true" && s[4..] == rest; } else { assert s[..5] == "false" && s[5..] == rest; }
    case Num(t) =>
      ParseNumberText(t, rest);
    case Str(t) =>
      assert s[1..] == Escape(t) + ['"'] + rest;
      ParseEscaped(t, rest);
    case Arr(items) =>
      ParseRenderedArray(items, rest);
    case Obj(ms) =>
      ParseRenderedObject(ms, rest);
  }

  lemma {:induction false} ParseRenderedArray(items: seq<Json>, rest: string)
    requires Printable(Arr(items))
    ensures ParseValue(Render(Arr(items)) + rest) == Some((Arr(items), rest))
    decreases items, 3
  {
    var t := RenderItems(items) + ([']'] + rest);
    assert Render(Arr(items)) + rest == ['['] + t;
    Tail('[', t);
    if items == [] {
      assert t == [']'] + rest;
      Tail(']', rest);
    } else {
      ItemsStart(items, [']'] + rest);
      ParseRenderedItems(items, rest);
    }
  }

  lemma EmptyObjectParses(rest: string)
    ensures ParseValue(['{', ' '] + ([' ', '}'] + rest)) == Some((Obj([]), rest))
  {
    Tail2('{', ' ', [' ', '}'] + rest);
    Tail(' ', [' ', '}'] + rest);
    Tail2(' ', '}', rest);
    Tail('}', rest);
  }

  lemma ObjectParses(t: string, ms: seq<Member>, rest: string)
    requires t != [] && t[0] == '"' && ParseMembers(t) == Some((ms, rest))
    ensures ParseValue(['{', ' '] + t) == Some((Obj(ms), rest))
  {
    Tail2('{', ' ', t);
    Tail(' ', t);
    assert SkipSpace(t) == t;
  }

  lemma {:induction false} ParseRenderedObject(ms: seq<Member>, rest: string)
    requires Printable(Obj(ms))
    ensures ParseValue(Render(Obj(ms)) + rest) == Some((Obj(ms), rest))
    decreases ms, 3
  {
    var t := RenderMembers(ms) + ([' ', '}'] + rest);
    Regroup3(['{', ' '], RenderMembers(ms), [' ', '}'], rest);
    if ms == [] {
      assert t == [' ', '}'] + rest;
      EmptyObjectParses(rest);
    } else {
      MembersStart(ms, [' ', '}'] + rest);
      ParseRenderedMembers(ms, rest);
      ObjectParses(t, ms, rest);
    }
  }

  lemma ItemsStart(items: seq<Json>, rest: string)
    requires items != [] && forall i :: 0 <= i < |items| ==> Printable(items[i])
    ensures var t := RenderItems(items) + rest;
      t != [] && !IsSpace(t[0]) && t[0] != ']' && SkipSpace(t) == t
  {
    RenderStarts(items[0]);
  }

  lemma MembersStart(ms: seq<Member>, rest: string)
    requires ms != []
    ensures var t := RenderMembers(ms) + rest;
      t != [] && t[0] == '"' && SkipSpace(t) == t
  {
    assert RenderMember(ms[0])[0] == '"';
  }

  lemma NextItemParses(v: Json, vs: seq<Json>, more: string, rest: string)
    requires more != [] && !IsSpace(more[0])
    requires ParseValue(Render(v) + (COMMA + more)) == Some((v, COMMA + more))
    requires ParseItems(more) == Some((vs, rest))
    ensures ParseItems(Render(v) + (COMMA + more)) == Some(([v] + vs, rest))
  {
    Tail2(',', ' ', more);
    Tail(' ', more);
    assert SkipSpace(more) == more;
    assert COMMA + more == [','] + ([' '] + more);
    NextItem(Render(v) + (COMMA + more), v, COMMA + more, [' '] + more, vs, rest);
  }

  lemma {:induction false} ParseRenderedItems(items: seq<Json>, rest: string)
    requires items != [] && forall i :: 0 <= i < |items| ==> Printable(items[i])
    ensures ParseItems(RenderItems(items) + ([']'] + rest)) == Some((items, rest))
    decreases items, 1
  {
    if |items| == 1 {
      ParseRendered(items[0], [']'] + rest);
      Tail(']', rest);
      LastItem(Render(items[0]) + ([']'] + rest), items[0], [']'] + rest, rest);
      assert [items[0]] == items;
    } else {
      var more := RenderItems(items[1..]) + ([']'] + rest);
      Regroup3(Render(items[0]), COMMA, RenderItems(items[1..]), [']'] + rest);
      ParseRendered(items[0], COMMA + more);
      ItemsStart(items[1..], [']'] + rest);
      ParseRenderedItems(items[1..], rest);
      NextItemParses(items[0], items[1..], more, rest);
      assert [items[0]] + items[1..] == items;
    }
  }

  lemma MemberText(m: Member, rest: string)
    ensures RenderMember(m) + rest == ['"'] + m.key + ['"'] + ([':', ' '] + (Render(m.value) + rest))
  {
  }

  lemma {:induction false} ParseRenderedMember(m: Member, rest: string)
    requires Plain(m.key) && Printable(m.value) && (m.value.Num? ==> Stops(rest))
    ensures ParseMember(RenderMember(m) + rest) == Some((m, rest))
    decreases m, 1
  {
    var after := Render(m.value) + rest;
    PlainEscape(m.key);
    RenderStarts(m.value);
    assert SkipSpace(after) == after;
    Tail(' ', after);
    Tail2(':', ' ', after);
    assert [':', ' '] + after == [':'] + ([' '] + after);
    ParseRendered(m.value, rest);
    MemberText(m, rest);
    OneMember(m.key, m.value, RenderMember(m) + rest, [':', ' '] + after, [' '] + after, rest);
  }

  lemma NextMemberText(ms: seq<Member>, rest: string)
    requires |ms| > 1
    ensures RenderMembers(ms) + rest == RenderMember(ms[0]) + (COMMA + (RenderMembers(ms[1..]) + rest))
  {
    Regroup3(RenderMember(ms[0]), COMMA, RenderMembers(ms[1..]), rest);
  }

  lemma Regroup3(a: string, b: string, c: string, rest: string)
    ensures a + b + c + rest == a + (b + (c + rest))
  {
  }

  lemma Regroup4(a: string, b: string, c: string, d: string, rest: string)
    ensures a + b + c + d + rest == a + (b + (c + (d + rest)))
  {
    Regroup3(a, b, c, d);
    Regroup3(a, b, c + d, rest);
    assert c + d + rest == c + (d + rest);
  }

  lemma NextLineText(ms: seq<Member>, rest: string)
    requires ms != []
    ensures |ms| == 1 ==> RenderLines(ms) + rest == INDENT + (RenderMember(ms[0]) + (['\n'] + rest))
    ensures |ms| > 1 ==>
      RenderLines(ms) + rest == INDENT + (RenderMember(ms[0]) + ([',', '\n'] + (RenderLines(ms[1..]) + rest)))
  {
    Regroup3(INDENT, RenderMember(ms[0]), ['\n'], rest);
    Regroup4(INDENT, RenderMember(ms[0]), [',', '\n'], RenderLines(ms[1..]), rest);
  }

  lemma NextMemberParses(m: Member, ms: seq<Member>, more: string, rest: string)
    requires more != [] && !IsSpace(more[0])
    requires ParseMember(RenderMember(m) + (COMMA + more)) == Some((m, COMMA + more))
    requires ParseMembers(more) == Some((ms, rest))
    ensures ParseMembers(RenderMember(m) + (COMMA + more)) == Some(([m] + ms, rest))
  {
    Tail2(',', ' ', more);
    Tail(' ', more);
    assert SkipSpace(more) == more;
    assert COMMA + more == [','] + ([' '] + more);
    NextMember(RenderMember(m) + (COMMA + more), m, COMMA + more, [' '] + more, ms, rest);
  }

  lemma LastMemberParses(m: Member, rest: string)
    requires ParseMember(RenderMember(m) + ([' ', '}'] + rest)) == Some((m, [' ', '}'] + rest))
    ensures ParseMembers(RenderMember(m) + ([' ', '}'] + rest)) == Some(([m], rest))
  {
    Tail2(' ', '}', rest);
    Tail('}', rest);
    LastMember(RenderMember(m) + ([' ', '}'] + rest), m, [' ', '}'] + rest, rest);
  }

  lemma {:induction false} ParseRenderedMembers(ms: seq<Member>, rest: string)
    requires ms != [] && forall i :: 0 <= i < |ms| ==> Plain(ms[i].key) && Printable(ms[i].value)
    ensures ParseMembers(RenderMembers(ms) + ([' ', '}'] + rest)) == Some((ms, rest))
    decreases ms, 2
  {
    if |ms| == 1 {
      ParseRenderedMember(ms[0], [' ', '}'] + rest);
      LastMemberParses(ms[0], rest);
      assert [ms[0]] == ms;
    } else {
      var more := RenderMembers(ms[1..]) + ([' ', '}'] + rest);
      NextMemberText(ms, [' ', '}'] + rest);
      ParseRenderedMember(ms[0], COMMA + more);
      MembersStart(ms[1..], [' ', '}'] + rest);
      ParseRenderedMembers(ms[1..], rest);
      NextMemberParses(ms[0], ms[1..], more, rest);
      assert [ms[0]] + ms[1..] == ms;
    }
  }

  lemma SkipIndent(t: string)
    requires t != [] && !IsSpace(t[0])
    ensures SkipSpace([' ', ' '] + t) == t
  {
    Tail2(' ', ' ', t);
    Tail(' ', t);
  }

  lemma {:induction false} ParseRenderedLines(ms: seq<Member>, rest: string)
    requires ms != [] && forall i :: 0 <= i < |ms| ==> Plain(ms[i].key) && Printable(ms[i].value)
    ensures ParseMembers(SkipSpace(RenderLines(ms) + (['}'] + rest))) == Some((ms, rest))
    decreases |ms|
  {
    NextLineText(ms, ['}'] + rest);
    assert RenderMember(ms[0])[0] == '"';
    if |ms| == 1 {
      var t := RenderMember(ms[0]) + (['\n'] + (['}'] + rest));
      SkipIndent(t);
      ParseRenderedMember(ms[0], ['\n'] + (['}'] + rest));
      Tail('\n', ['}'] + rest);
      Tail('}', rest);
      LastMember(t, ms[0], ['\n'] + (['}'] + rest), rest);
      assert [ms[0]] == ms;
    } else {
      ParseRenderedLines(ms[1..], rest);
      NextLine(ms[0], ms[1..], RenderLines(ms[1..]) + (['}'] + rest), rest);
      assert [ms[0]] + ms[1..] == ms;
    }
  }

  lemma NextLine(m: Member, ms: seq<Member>, more: string, rest: string)
    requires Plain(m.key) && Printable(m.value) && ParseMembers(SkipSpace(more)) == Some((ms, rest))
    ensures ParseMembers(SkipSpace([' ', ' '] + (RenderMember(m) + ([',', '\n'] + more)))) == Some(([m] + ms, rest))
  {
    var t := RenderMember(m) + ([',', '\n'] + more);
    assert RenderMember(m)[0] == '"';
    SkipIndent(t);
    ParseRenderedMember(m, [',', '\n'] + more);
    Tail2(',', '\n', more);
    Tail('\n', more);
    assert [',', '\n'] + more == [','] + (['\n'] + more);
    NextMember(t, m, [',', '\n'] + more, ['\n'] + more, ms, rest);
  }

  lemma LinesStart(ms: seq<Member>, rest: string)
    requires ms != []
    ensures var t := SkipSpace(RenderLines(ms) + rest); t != [] && t[0] == '"'
  {
    assert RenderMember(ms[0])[0] == '"';
    var s := RenderLines(ms) + rest;
    assert s == [' ', ' '] + s[2..];
    SkipIndent(s[2..]);
  }

  /** A rendered document parses to exactly its tree. */
  lemma ParseRenderedDocument(ms: seq<Member>)
    requires ms != [] && forall i :: 0 <= i < |ms| ==> Plain(ms[i].key) && Printable(ms[i].value)
    ensures ParseDocument(RenderDocument(ms)) == Some(Obj(ms))
  {
    var lines := RenderLines(ms) + (['}'] + ['\n']);
    assert RenderDocument(ms) == ['{', '\n'] + lines;
    LinesStart(ms, ['}'] + ['\n']);
    ParseRenderedLines(ms, ['\n']);
    ParseBraced(lines, ms);
  }

  lemma ParseBraced(lines: string, ms: seq<Member>)
    requires var t := SkipSpace(lines); t != [] && t[0] == '"' && ParseMembers(t) == Some((ms, ['\n']))
    ensures ParseDocument(['{', '\n'] + lines) == Some(Obj(ms))
  {
    Tail2('{', '\n', lines);
    Tail('\n', lines);
    LastNewline();
  }

  lemma LastNewline()
    ensures SkipSpace(['\n']) == []
  {
    Tail('\n', []);
    assert ['\n'] + [] == ['\n'];
  }
}
