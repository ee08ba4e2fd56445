/** UTF-8, and when a JSON document is in it.  Section 8.1 of RFC 8259 asks for UTF-8; the report
    writer passes the bytes of its strings through, so its documents are in UTF-8 exactly when all
    their strings are. */
module Utf8Text {
  import opened Json
  import opened NumberText

  predicate InRange(c: char, lo: nat, hi: nat) { lo <= c as int <= hi }

  predicate IsTail(c: char) { InRange(c, 0x80, 0xBF) }

  /** How long the character at the start of a text is, by the grammar of section 4 of RFC 3629; 0 if
      there is none. */
  function CharLen(s: string): (n: nat)
    ensures n <= |s|
  {
    if s == [] then 0
    else if InRange(s[0], 0, 0x7F) then 1
    else if InRange(s[0], 0xC2, 0xDF) && |s| >= 2 && IsTail(s[1]) then 2
    else if |s| >= 3 && IsTail(s[2]) &&
            ((s[0] as int == 0xE0 && InRange(s[1], 0xA0, 0xBF)) || (InRange(s[0], 0xE1, 0xEC) && IsTail(s[1]))
             || (s[0] as int == 0xED && InRange(s[1], 0x80, 0x9F)) || (InRange(s[0], 0xEE, 0xEF) && IsTail(s[1]))) then 3
    else if |s| >= 4 && IsTail(s[2]) && IsTail(s[3]) &&
            ((s[0] as int == 0xF0 && InRange(s[1], 0x90, 0xBF)) || (InRange(s[0], 0xF1, 0xF3) && IsTail(s[1]))
             || (s[0] as int == 0xF4 && InRange(s[1], 0x80, 0x8F))) then 4
    else 0
  }

  predicate ValidUtf8(s: string)
    decreases |s|
  {
    s == [] || (CharLen(s) > 0 && ValidUtf8(s[CharLen(s)..]))
  }

  // ----- Reading byte by byte -----

  /** Between characters; inside one, with the range of its next byte and the tails after that; or
      in no character. */
  datatype Reader = Between | Inside(lo: nat, hi: nat, tails: nat) | Lost

  predicate Proper(q: Reader) { q.Inside? ==> q.lo >= 0x80 }

  function After(q: Reader, c: char): (r: Reader)
    ensures Proper(r)
  {
    match q
    case Lost => Lost
    case Inside(lo, hi, tails) =>
      if !InRange(c, lo, hi) then Lost else if tails == 0 then Between else Inside(0x80, 0xBF, tails - 1)
    case Between =>
      if InRange(c, 0, 0x7F) then Between
      else if InRange(c, 0xC2, 0xDF) then Inside(0x80, 0xBF, 0)
      else if c as int == 0xE0 then Inside(0xA0, 0xBF, 1)
      else if c as int == 0xED then Inside(0x80, 0x9F, 1)
      else if InRange(c, 0xE1, 0xEF) then Inside(0x80, 0xBF, 1)
      else if c as int == 0xF0 then Inside(0x90, 0xBF, 2)
      else if InRange(c, 0xF1, 0xF3) then Inside(0x80, 0xBF, 2)
      else if c as int == 0xF4 then Inside(0x80, 0x8F, 2)
      else Lost
  }

  function ReadAll(q: Reader, s: string): Reader
    decreases |s|
  {
    if s == [] then q else ReadAll(After(q, s[0]), s[1..])
  }

  lemma {:induction false} LostStays(s: string)
    ensures ReadAll(Lost, s) == Lost
  {
    if s != [] { LostStays(s[1..]); }
  }

  lemma {:induction false} ReadConcat(q: Reader, a: string, b: string)
    ensures ReadAll(q, a + b) == ReadAll(ReadAll(q, a), b)
    decreases |a|
  {
    if a == [] {
      assert a + b == b;
    } else {
      assert (a + b)[1..] == a[1..] + b;
      ReadConcat(After(q, a[0]), a[1..], b);
    }
  }

  lemma ReadOne(q: Reader, c: char)
    ensures ReadAll(q, [c]) == After(q, c)
  {
    assert [c][1..] == [];
    assert ReadAll(After(q, c), []) == After(q, c);
  }

  /** Reading on at position `i`. */
  lemma ReadAt(q: Reader, s: string, i: nat)
    requires i < |s|
    ensures ReadAll(q, s[i..]) == ReadAll(After(q, s[i]), s[i + 1..])
  {
    assert s[i..][0] == s[i] && s[i..][1..] == s[i + 1..];
  }

  /** One character is read back to between characters. */
  lemma ReadChar(s: string)
    requires CharLen(s) > 0
    ensures ReadAll(Between, s) == ReadAll(Between, s[CharLen(s)..])
  {
    assert s == s[0..];
    var q1 := After(Between, s[0]);
    ReadAt(Between, s, 0);
    if CharLen(s) >= 2 {
      ReadAt(q1, s, 1);
      if CharLen(s) >= 3 {
        ReadAt(After(q1, s[1]), s, 2);
        if CharLen(s) == 4 { ReadAt(After(After(q1, s[1]), s[2]), s, 3); }
      }
    }
  }

  /** A text without a first character is never read back to between characters. */
  lemma ReadNoChar(s: string)
    requires s != [] && CharLen(s) == 0
    ensures ReadAll(Between, s) != Between
  {
    assert s == s[0..];
    var q1 := After(Between, s[0]);
    ReadAt(Between, s, 0);
    LostStays(s[1..]);
    if q1.Inside? && |s| >= 2 {
      var q2 := After(q1, s[1]);
      ReadAt(q1, s, 1);
      LostStays(s[2..]);
      if q2.Inside? && |s| >= 3 {
        var q3 := After(q2, s[2]);
        ReadAt(q2, s, 2);
        LostStays(s[3..]);
        if q3.Inside? && |s| >= 4 {
          ReadAt(q3, s, 3);
          LostStays(s[4..]);
        }
      }
    }
  }

  /** The reader accepts exactly UTF-8. */
  lemma {:induction false} ReaderAccepts(s: string)
    ensures ReadAll(Between, s) == Between <==> ValidUtf8(s)
    decreases |s|
  {
    if s != [] {
      if CharLen(s) > 0 {
        ReadChar(s);
        ReaderAccepts(s[CharLen(s)..]);
      } else {
        ReadNoChar(s);
      }
    }
  }

  // ----- ASCII and escapes -----

  predicate Ascii(s: string) { forall i :: 0 <= i < |s| ==> InRange(s[i], 0, 0x7F) }

  /** A character that ASCII interrupts is lost. */
  function Interrupted(q: Reader): Reader { if q.Between? then Between else Lost }

  lemma {:induction false} ReadAscii(q: Reader, s: string)
    requires Proper(q) && s != [] && Ascii(s)
    ensures ReadAll(q, s) == Interrupted(q)
    decreases |s|
  {
    if |s| == 1 {
      assert s == [s[0]];
      ReadOne(q, s[0]);
    } else {
      ReadAscii(After(q, s[0]), s[1..]);
    }
  }

  lemma EscapeIsAscii(c: char)
    ensures EscapeChar(c) != [] && (InRange(c, 0, 0x7F) ==> Ascii(EscapeChar(c)))
    ensures !InRange(c, 0, 0x7F) ==> EscapeChar(c) == [c]
  {
  }

  /** Escaping does not matter to the reader. */
  lemma {:induction false} ReadEscaped(q: Reader, s: string)
    requires Proper(q)
    ensures ReadAll(q, Escape(s)) == ReadAll(q, s)
    decreases |s|
  {
    if s != [] {
      ReadConcat(q, EscapeChar(s[0]), Escape(s[1..]));
      EscapeIsAscii(s[0]);
      if InRange(s[0], 0, 0x7F) {
        ReadAscii(q, EscapeChar(s[0]));
      } else {
        ReadOne(q, s[0]);
      }
      ReadEscaped(After(q, s[0]), s[1..]);
    }
  }

  // ----- Documents -----

  function Verdict(valid: bool): Reader { if valid then Between else Lost }

  /** Every string of a tree, names included, is in UTF-8. */
  predicate StringsValid(j: Json)
    decreases j
  {
    match j
    case Str(s) => ValidUtf8(s)
    case Arr(items) => forall i :: 0 <= i < |items| ==> StringsValid(items[i])
    case Obj(ms) => forall i :: 0 <= i < |ms| ==> ValidUtf8(ms[i].key) && StringsValid(ms[i].value)
    case _ => true
  }

  predicate MemberValid(m: Member) { ValidUtf8(m.key) && StringsValid(m.value) }

  /** A text between ASCII brackets. */
  lemma Bracketed(open: string, s: string, close: string)
    requires open != [] && Ascii(open) && close != [] && Ascii(close)
    ensures ReadAll(Between, open + s + close) == Interrupted(ReadAll(Between, s))
  {
    ReadConcat(Between, open + s, close);
    ReadConcat(Between, open, s);
    ReadAscii(Between, open);
    ProperAlways(Between, s);
    ReadAscii(ReadAll(Between, s), close);
  }

  lemma {:induction false} ProperAlways(q: Reader, s: string)
    requires Proper(q)
    ensures Proper(ReadAll(q, s))
    decreases |s|
  {
    if s != [] { ProperAlways(After(q, s[0]), s[1..]); }
  }

  lemma QuoteReads(s: string)
    ensures ReadAll(Between, Quote(s)) == Verdict(ValidUtf8(s))
  {
    Bracketed(['"'], Escape(s), ['"']);
    ReadEscaped(Between, s);
    ReaderAccepts(s);
  }

  lemma KeyReads(k: string)
    ensures ReadAll(Between, Key(k)) == Verdict(ValidUtf8(k))
  {
    Bracketed(['"'], k, ['"', ':', ' ']);
    ReaderAccepts(k);
  }

  /** Two parts, each read to a verdict, with ASCII or nothing between them. */
  lemma PartsRead(a: string, between: string, b: string, x: bool, y: bool)
    requires ReadAll(Between, a) == Verdict(x) && ReadAll(Between, b) == Verdict(y) && Ascii(between)
    ensures ReadAll(Between, a + between + b) == Verdict(x && y)
  {
    ReadConcat(Between, a + between, b);
    ReadConcat(Between, a, between);
    if between == [] {
      assert ReadAll(Verdict(x), between) == Verdict(x);
    } else {
      ReadAscii(Verdict(x), between);
    }
    LostStays(b);
  }

  lemma {:induction false} RenderReads(j: Json)
    requires Printable(j)
    ensures ReadAll(Between, Render(j)) == Verdict(StringsValid(j))
    decreases j, 0
  {
    match j
    case Null => ReadAscii(Between, "null");
    case Bool(b) => ReadAscii(Between, if b then "true" else "false");
    case Num(t) => ReadAscii(Between, t);
    case Str(s) => QuoteReads(s);
    case Arr(items) =>
      ItemsRead(items);
      Bracketed(['['], RenderItems(items), [']']);
    case Obj(ms) =>
      MembersRead(ms);
      Bracketed(['{', ' '], RenderMembers(ms), [' ', '}']);
  }

  lemma {:induction false} ItemsRead(items: seq<Json>)
    requires forall i :: 0 <= i < |items| ==> Printable(items[i])
    ensures ReadAll(Between, RenderItems(items)) == Verdict(forall i :: 0 <= i < |items| ==> StringsValid(items[i]))
    decreases items, 1
  {
    if items != [] {
      RenderReads(items[0]);
      if |items| > 1 {
        ItemsRead(items[1..]);
        PartsRead(Render(items[0]), COMMA, RenderItems(items[1..]), StringsValid(items[0]),
                  forall i :: 0 <= i < |items[1..]| ==> StringsValid(items[1..][i]));
        FirstAndRest(items, StringsValid);
      }
    }
  }

  lemma FirstAndRest<T>(s: seq<T>, p: T -> bool)
    requires s != []
    ensures (forall i :: 0 <= i < |s| ==> p(s[i])) <==> p(s[0]) && forall i :: 0 <= i < |s[1..]| ==> p(s[1..][i])
  {
    assert forall i :: 0 <= i < |s[1..]| ==> s[1..][i] == s[i + 1];
    if p(s[0]) && forall i :: 0 <= i < |s[1..]| ==> p(s[1..][i]) {
      forall i | 0 <= i < |s| ensures p(s[i]) {
        if i > 0 { assert s[1..][i - 1] == s[i]; }
      }
    }
  }

  lemma {:induction false} MemberReads(m: Member)
    requires Printable(m.value)
    ensures ReadAll(Between, RenderMember(m)) == Verdict(MemberValid(m))
    decreases m, 1
  {
    KeyReads(m.key);
    RenderReads(m.value);
    PartsRead(Key(m.key), [], Render(m.value), ValidUtf8(m.key), StringsValid(m.value));
    assert Key(m.key) + [] == Key(m.key);
  }

  lemma {:induction false} MembersRead(ms: seq<Member>)
    requires forall i :: 0 <= i < |ms| ==> Printable(ms[i].value)
    ensures ReadAll(Between, RenderMembers(ms)) == Verdict(forall i :: 0 <= i < |ms| ==> MemberValid(ms[i]))
    decreases ms, 2
  {
    if ms != [] {
      MemberReads(ms[0]);
      if |ms| > 1 {
        MembersRead(ms[1..]);
        PartsRead(RenderMember(ms[0]), COMMA, RenderMembers(ms[1..]), MemberValid(ms[0]),
                  forall i :: 0 <= i < |ms[1..]| ==> MemberValid(ms[1..][i]));
        FirstAndRest(ms, MemberValid);
      }
    }
  }

  lemma {:induction false} LinesRead(ms: seq<Member>)
    requires forall i :: 0 <= i < |ms| ==> Printable(ms[i].value)
    ensures ReadAll(Between, RenderLines(ms)) == Verdict(forall i :: 0 <= i < |ms| ==> MemberValid(ms[i]))
    decreases |ms|
  {
    if ms != [] {
      MemberReads(ms[0]);
      if |ms| == 1 {
        Bracketed(INDENT, RenderMember(ms[0]), ['\n']);
      } else {
        LinesRead(ms[1..]);
        Bracketed(INDENT, RenderMember(ms[0]), [',', '\n']);
        PartsRead(INDENT + RenderMember(ms[0]) + [',', '\n'], [], RenderLines(ms[1..]), MemberValid(ms[0]),
                  forall i :: 0 <= i < |ms[1..]| ==> MemberValid(ms[1..][i]));
        assert INDENT + RenderMember(ms[0]) + [',', '\n'] + [] == INDENT + RenderMember(ms[0]) + [',', '\n'];
        FirstAndRest(ms, MemberValid);
      }
    }
  }

  /** A rendered document is in UTF-8 exactly when all its strings are. */
  lemma DocumentIsUtf8(ms: seq<Member>)
    requires forall i :: 0 <= i < |ms| ==> Printable(ms[i].value)
    ensures ValidUtf8(RenderDocument(ms)) <==> StringsValid(Obj(ms))
  {
    LinesRead(ms);
    Bracketed(['{', '\n'], RenderLines(ms), ['}', '\n']);
    ReaderAccepts(RenderDocument(ms));
    assert (forall i :: 0 <= i < |ms| ==> MemberValid(ms[i])) <==> StringsValid(Obj(ms));
  }
}
