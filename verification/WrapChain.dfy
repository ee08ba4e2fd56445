/** Wrap chains of src/snapshot/WrapChain.cpp: stripping comments from script lines, and grouping
    the wraps found into a table of bounded size.

    A C string is the characters before its terminating NUL. */
module WrapChain {
  import opened Arithmetic
  import opened AsciiText
  import opened Order

  // ----- Comments -----

  function Spaces(n: nat): (s: string)
    ensures |s| == n
  {
    if n == 0 then [] else [' '] + Spaces(n - 1)
  }

  predicate StartsWith(s: string, a: char, b: char) {
    |s| >= 2 && s[0] == a && s[1] == b
  }

  /** A line with its comments blanked, and whether a block comment goes on after it. */
  function Stripped(line: string, inBlock: bool): (r: (string, bool))
    ensures |r.0| == |line|
    decreases |line|
  {
    if line == [] then ([], inBlock)
    else if inBlock then
      if StartsWith(line, '*', '/') then
        var r := Stripped(line[2..], false);
        (Spaces(2) + r.0, r.1)
      else
        var r := Stripped(line[1..], true);
        (Spaces(1) + r.0, r.1)
    else if StartsWith(line, '/', '/') then (Spaces(|line|), false)
    else if StartsWith(line, '/', '*') then
      var r := Stripped(line[2..], true);
      (Spaces(2) + r.0, r.1)
    else
      var r := Stripped(line[1..], false);
      ([line[0]] + r.0, r.1)
  }

  /** What is done up to `i` and what is left from there. */
  ghost predicate StrippedTo(line: string, inBlock: bool, out: seq<char>, i: nat, flag: bool) {
    && i <= |out| == |line| && out[i..] == line[i..]
    && Stripped(line, inBlock) == (out[..i] + Stripped(line[i..], flag).0, Stripped(line[i..], flag).1)
  }

  lemma Associate(a: string, b: string, c: string)
    ensures a + (b + c) == a + b + c
  {
  }

  lemma BlankStep(line: string, inBlock: bool, out: seq<char>, i: nat, flag: bool, n: nat, next: bool)
    requires StrippedTo(line, inBlock, out, i, flag) && i + n <= |line|
    requires Stripped(line[i..], flag) == (Spaces(n) + Stripped(line[i..][n..], next).0, Stripped(line[i..][n..], next).1)
    ensures StrippedTo(line, inBlock, out[..i] + Spaces(n) + out[i + n..], i + n, next)
  {
    assert line[i..][n..] == line[i + n..];
    Associate(out[..i], Spaces(n), Stripped(line[i + n..], next).0);
  }

  lemma KeepStep(line: string, inBlock: bool, out: seq<char>, i: nat)
    requires StrippedTo(line, inBlock, out, i, false) && i < |line|
    requires !StartsWith(line[i..], '/', '/') && !StartsWith(line[i..], '/', '*')
    ensures StrippedTo(line, inBlock, out, i + 1, false)
  {
    assert line[i..][1..] == line[i + 1..] && out[i] == out[i..][0] == line[i..][0];
    assert out[i..][1..] == out[i + 1..];
    var rest := Stripped(line[i + 1..], false).0;
    assert out[..i] + ([line[i]] + rest) == out[..i + 1] + rest;
  }

  /** Writes `n` spaces at `i`. */
  method Blank(out: array<char>, i: nat, n: nat)
    requires i + n <= out.Length
    modifies out
    ensures out[..] == old(out[..i]) + Spaces(n) + old(out[i + n..])
  {
    ghost var was := out[..];
    for k := 0 to n
      invariant forall j :: 0 <= j < out.Length ==> out[j] == if i <= j < i + k then ' ' else was[j]
    {
      out[i + k] := ' ';
    }
    SpacesAre(n);
  }

  lemma {:induction false} SpacesAre(n: nat)
    ensures forall k :: 0 <= k < n ==> Spaces(n)[k] == ' '
  {
    if n > 0 { SpacesAre(n - 1); }
  }

  lemma BlockEnds(line: string, inBlock: bool, out: seq<char>, i: nat)
    requires StrippedTo(line, inBlock, out, i, true) && StartsWith(line[i..], '*', '/')
    ensures StrippedTo(line, inBlock, out[..i] + Spaces(2) + out[i + 2..], i + 2, false)
  {
    BlankStep(line, inBlock, out, i, true, 2, false);
  }

  lemma BlockGoesOn(line: string, inBlock: bool, out: seq<char>, i: nat)
    requires StrippedTo(line, inBlock, out, i, true) && i < |line| && !StartsWith(line[i..], '*', '/')
    ensures StrippedTo(line, inBlock, out[..i] + Spaces(1) + out[i + 1..], i + 1, true)
  {
    BlankStep(line, inBlock, out, i, true, 1, true);
  }

  lemma BlockStarts(line: string, inBlock: bool, out: seq<char>, i: nat)
    requires StrippedTo(line, inBlock, out, i, false) && StartsWith(line[i..], '/', '*')
    ensures StrippedTo(line, inBlock, out[..i] + Spaces(2) + out[i + 2..], i + 2, true)
  {
    BlankStep(line, inBlock, out, i, false, 2, true);
  }

  /** The rest of the line is a comment. */
  lemma LineComment(line: string, inBlock: bool, out: seq<char>, i: nat)
    requires StrippedTo(line, inBlock, out, i, false) && StartsWith(line[i..], '/', '/')
    ensures StrippedTo(line, inBlock, out[..i] + Spaces(|line| - i) + out[|line|..], |line|, false)
  {
    var n := |line| - i;
    var done := out[..i] + Spaces(n);
    assert Stripped(line[i..], false) == (Spaces(n), false);
    assert out[|line|..] == [] && done + [] == done && done[..|line|] == done && done[|line|..] == [];
    assert line[|line|..] == [] && Stripped([], false) == ([], false);
  }

  method StripComments(line: string, inBlockComment: bool) returns (stripped: string, inBlock: bool)
    ensures (stripped, inBlock) == Stripped(line, inBlockComment)
  {
    var out := new char[|line|](i requires 0 <= i < |line| => line[i]);
    inBlock := inBlockComment;
    assert out[..] == line && line[0..] == line && line[..0] + Stripped(line, inBlock).0 == Stripped(line, inBlock).0;
    var i := 0;
    while i < out.Length
      invariant StrippedTo(line, inBlockComment, out[..], i, inBlock)
      decreases out.Length - i
    {
      ghost var here := out[..];
      if inBlock {
        if i + 1 < out.Length && out[i] == '*' && out[i + 1] == '/' {
          BlockEnds(line, inBlockComment, here, i);
          Blank(out, i, 2);
          inBlock := false;
          i := i + 2;
        } else {
          BlockGoesOn(line, inBlockComment, here, i);
          Blank(out, i, 1);
          i := i + 1;
        }
        continue;
      }
      if i + 1 < out.Length && out[i] == '/' && out[i + 1] == '/' {
        LineComment(line, inBlockComment, here, i);
        Blank(out, i, out.Length - i);
        i := out.Length;
        break;
      }
      if i + 1 < out.Length && out[i] == '/' && out[i + 1] == '*' {
        BlockStarts(line, inBlockComment, here, i);
        inBlock := true;
        Blank(out, i, 2);
        i := i + 2;
        continue;
      }
      KeepStep(line, inBlockComment, here, i);
      i := i + 1;
    }
    AtEnd(line, inBlockComment, out[..], i, inBlock);
    stripped := out[..];
  }

  lemma AtEnd(line: string, inBlock: bool, out: seq<char>, i: nat, flag: bool)
    requires StrippedTo(line, inBlock, out, i, flag) && i == |out|
    ensures Stripped(line, inBlock) == (out, flag)
  {
    assert line[i..] == [] && out[..i] + [] == out;
  }

  // ----- What stripping leaves -----

  /** No comment starts anywhere. */
  predicate CommentFree(s: string) {
    forall i :: 0 <= i < |s| - 1 && s[i] == '/' ==> s[i + 1] != '/' && s[i + 1] != '*'
  }

  lemma {:induction false} SpacesCommentFree(n: nat)
    ensures CommentFree(Spaces(n)) && (n > 0 ==> Spaces(n)[0] == ' ')
  {
    SpacesAre(n);
  }

  lemma JoinCommentFree(a: string, b: string)
    requires CommentFree(a) && CommentFree(b) && (a == [] || a[|a| - 1] != '/' || b == [] || (b[0] != '/' && b[0] != '*'))
    ensures CommentFree(a + b)
  {
    var s := a + b;
    forall i | 0 <= i < |s| - 1 && s[i] == '/' ensures s[i + 1] != '/' && s[i + 1] != '*' {
      if i >= |a| { assert s[i] == b[i - |a|] && s[i + 1] == b[i + 1 - |a|]; }
    }
  }

  /** Outside a block comment, the first character stays or becomes a space. */
  lemma FirstKept(line: string)
    requires line != []
    ensures Stripped(line, false).0[0] == line[0] || Stripped(line, false).0[0] == ' '
  {
    SpacesAre(|line|);
    SpacesAre(2);
  }

  /** A stripped line has no comment left in it. */
  lemma {:induction false} StrippedIsCommentFree(line: string, inBlock: bool)
    ensures CommentFree(Stripped(line, inBlock).0)
    decreases |line|
  {
    if line == [] {
    } else if inBlock {
      var n := if StartsWith(line, '*', '/') then 2 else 1;
      StrippedIsCommentFree(line[n..], n == 1);
      BlanksThen(n, Stripped(line[n..], n == 1).0);
    } else if StartsWith(line, '/', '/') {
      SpacesCommentFree(|line|);
    } else if StartsWith(line, '/', '*') {
      StrippedIsCommentFree(line[2..], true);
      BlanksThen(2, Stripped(line[2..], true).0);
    } else {
      StrippedIsCommentFree(line[1..], false);
      if |line| > 1 { FirstKept(line[1..]); }
      JoinCommentFree([line[0]], Stripped(line[1..], false).0);
    }
  }

  lemma BlanksThen(n: nat, s: string)
    requires CommentFree(s) && n > 0
    ensures CommentFree(Spaces(n) + s)
  {
    SpacesCommentFree(n);
    SpacesAre(n);
    JoinCommentFree(Spaces(n), s);
  }

  /** Text without comments is left alone, so stripping twice is stripping once. */
  lemma {:induction false} StrippingKeepsCommentFree(s: string)
    requires CommentFree(s)
    ensures Stripped(s, false) == (s, false)
  {
    if s != [] {
      assert !StartsWith(s, '/', '/') && !StartsWith(s, '/', '*') by {
        if |s| >= 2 { assert s[0] == '/' ==> s[0 + 1] != '/' && s[0 + 1] != '*'; }
      }
      CommentFreeTail(s);
      StrippingKeepsCommentFree(s[1..]);
      assert s == [s[0]] + s[1..];
    }
  }

  lemma StrippingIsIdempotent(line: string, inBlock: bool)
    ensures Stripped(Stripped(line, inBlock).0, false) == (Stripped(line, inBlock).0, false)
  {
    StrippedIsCommentFree(line, inBlock);
    StrippingKeepsCommentFree(Stripped(line, inBlock).0);
  }

  // ----- What stripping does to code and comments -----

  /** Nothing that ends a block comment. */
  predicate Unclosed(s: string) { forall i :: 0 <= i < |s| - 1 && s[i] == '*' ==> s[i + 1] != '/' }

  lemma UnclosedTail(s: string)
    requires s != [] && Unclosed(s)
    ensures Unclosed(s[1..])
  {
    forall i | 0 <= i < |s[1..]| - 1 && s[1..][i] == '*' ensures s[1..][i + 1] != '/' {
      assert s[i + 1] == '*' && s[i + 1 + 1] == s[1..][i + 1];
    }
  }

  lemma CommentFreeTail(s: string)
    requires s != [] && CommentFree(s)
    ensures CommentFree(s[1..])
  {
    forall i | 0 <= i < |s[1..]| - 1 && s[1..][i] == '/' ensures s[1..][i + 1] != '/' && s[1..][i + 1] != '*' {
      assert s[i + 1] == '/' && s[i + 1 + 1] == s[1..][i + 1];
    }
  }

  /** Code is kept, up to where a comment may begin. */
  lemma {:induction false} CodeThen(code: string, rest: string)
    requires CommentFree(code)
    requires code == [] || rest == [] || code[|code| - 1] != '/' || (rest[0] != '/' && rest[0] != '*')
    ensures var r := Stripped(rest, false); Stripped(code + rest, false) == (code + r.0, r.1)
  {
    var r := Stripped(rest, false);
    if code == [] {
      assert code + rest == rest && code + r.0 == r.0;
    } else {
      var s := code + rest;
      assert s[1..] == code[1..] + rest;
      if |s| >= 2 && |code| >= 2 { assert code[0] == '/' ==> code[0 + 1] != '/' && code[0 + 1] != '*'; }
      assert !StartsWith(s, '/', '/') && !StartsWith(s, '/', '*');
      CommentFreeTail(code);
      CodeThen(code[1..], rest);
      assert [code[0]] + (code[1..] + r.0) == code + r.0;
    }
  }

  /** Inside a block comment everything is blanked, up to where it may end. */
  lemma {:induction false} BlockThen(body: string, rest: string)
    requires Unclosed(body) && (body == [] || rest == [] || body[|body| - 1] != '*' || rest[0] != '/')
    ensures var r := Stripped(rest, true); Stripped(body + rest, true) == (Spaces(|body|) + r.0, r.1)
  {
    var r := Stripped(rest, true);
    if body == [] {
      assert body + rest == rest && Spaces(0) + r.0 == r.0;
    } else {
      var s := body + rest;
      assert s[1..] == body[1..] + rest;
      if |body| >= 2 { assert body[0] == '*' ==> body[0 + 1] != '/'; }
      assert !StartsWith(s, '*', '/');
      UnclosedTail(body);
      BlockThen(body[1..], rest);
      MoreSpaces(1, |body| - 1, r.0);
    }
  }

  predicate EndsInSlash(s: string) { s != [] && s[|s| - 1] == '/' }

  lemma MoreSpaces(m: nat, n: nat, s: string)
    ensures Spaces(m) + (Spaces(n) + s) == Spaces(m + n) + s
  {
    SpacesAre(m);
    SpacesAre(n);
    SpacesAre(m + n);
  }

  lemma Opens(rest: string)
    ensures var r := Stripped(rest, true); Stripped("/*" + rest, false) == (Spaces(2) + r.0, r.1)
  {
    var s := "/*" + rest;
    assert StartsWith(s, '/', '*') && !StartsWith(s, '/', '/') && s[2..] == rest;
  }

  lemma Closes(rest: string)
    ensures var r := Stripped(rest, false); Stripped("*/" + rest, true) == (Spaces(2) + r.0, r.1)
  {
    var s := "*/" + rest;
    assert StartsWith(s, '*', '/') && s[2..] == rest;
  }

  /** A line comment is blanked to the end of the line. */
  lemma LineCommentIsBlanked(code: string, comment: string)
    requires CommentFree(code) && !EndsInSlash(code)
    ensures Stripped(code + ("//" + comment), false) == (code + Spaces(2 + |comment|), false)
  {
    var rest := "//" + comment;
    assert StartsWith(rest, '/', '/');
    CodeThen(code, rest);
  }

  /** A block comment that ends on the line is blanked, and the rest is code again. */
  lemma BlockCommentIsBlanked(code: string, body: string, rest: string)
    requires CommentFree(code) && !EndsInSlash(code) && Unclosed(body)
    ensures var r := Stripped(rest, false);
      Stripped(code + ("/*" + (body + ("*/" + rest))), false) == (code + (Spaces(|body| + 4) + r.0), r.1)
  {
    CodeThen(code, "/*" + (body + ("*/" + rest)));
    Opens(body + ("*/" + rest));
    ClosedBlock(body, rest);
    MoreSpaces(2, |body| + 2, Stripped(rest, false).0);
  }

  lemma ClosedBlock(body: string, rest: string)
    requires Unclosed(body)
    ensures var r := Stripped(rest, false); Stripped(body + ("*/" + rest), true) == (Spaces(|body| + 2) + r.0, r.1)
  {
    BlockThen(body, "*/" + rest);
    Closes(rest);
    MoreSpaces(|body|, 2, Stripped(rest, false).0);
  }

  /** One that does not blanks the rest of the line and goes on. */
  lemma OpenCommentIsBlanked(code: string, body: string)
    requires CommentFree(code) && !EndsInSlash(code) && Unclosed(body)
    ensures Stripped(code + ("/*" + body), false) == (code + Spaces(2 + |body|), true)
  {
    CodeThen(code, "/*" + body);
    Opens(body);
    BlockThen(body, []);
    assert body + [] == body && Spaces(|body|) + [] == Spaces(|body|) && Spaces(2 + |body|) + [] == Spaces(2 + |body|);
    MoreSpaces(2, |body|, []);
  }

  // ----- The whole text -----

  datatype Mode = Code | Block | ToLineEnd

  /** A whole script with its comments blanked: block comments span lines, line comments end with
      theirs. */
  function StrippedText(text: string, mode: Mode): (s: string)
    decreases |text|
  {
    if text == [] then []
    else if text[0] == '\n' then ['\n'] + StrippedText(text[1..], if mode == ToLineEnd then Code else mode)
    else
      match mode
      case ToLineEnd => Spaces(1) + StrippedText(text[1..], ToLineEnd)
      case Block =>
        if StartsWith(text, '*', '/') then Spaces(2) + StrippedText(text[2..], Code)
        else Spaces(1) + StrippedText(text[1..], Block)
      case Code =>
        if StartsWith(text, '/', '/') then Spaces(2) + StrippedText(text[2..], ToLineEnd)
        else if StartsWith(text, '/', '*') then Spaces(2) + StrippedText(text[2..], Block)
        else [text[0]] + StrippedText(text[1..], Code)
  }

  function ModeOf(inBlock: bool): Mode { if inBlock then Block else Code }

  /** Either the end of the text or a line end follows. */
  predicate EndsLine(rest: string) { rest == [] || rest[0] == '\n' }

  lemma {:induction false} LineCommentInText(line: string, rest: string)
    requires '\n' !in line && EndsLine(rest)
    ensures StrippedText(line + rest, ToLineEnd) == Spaces(|line|) + StrippedText(rest, Code)
    decreases |line|
  {
    if line == [] {
      assert line + rest == rest;
    } else {
      assert (line + rest)[1..] == line[1..] + rest;
      LineCommentInText(line[1..], rest);
      assert Spaces(|line|) == Spaces(1) + Spaces(|line| - 1);
    }
  }

  lemma Dropped(line: string, rest: string, n: nat)
    requires n <= |line|
    ensures (line + rest)[n..] == line[n..] + rest
  {
  }

  /** One line, inside the text. */
  lemma {:induction false} LineInText(line: string, rest: string, inBlock: bool)
    requires '\n' !in line && EndsLine(rest)
    ensures var r := Stripped(line, inBlock);
      StrippedText(line + rest, ModeOf(inBlock)) == r.0 + StrippedText(rest, ModeOf(r.1))
    decreases |line|
  {
    var text := line + rest;
    if line == [] {
      assert text == rest;
    } else {
      Dropped(line, rest, 1);
      assert text[0] == line[0] != '\n';
      if |line| >= 2 { Dropped(line, rest, 2); }
      if inBlock {
        BlockInText(line, rest);
      } else {
        CodeInText(line, rest);
      }
    }
  }

  lemma BlockInText(line: string, rest: string)
    requires line != [] && '\n' !in line && EndsLine(rest)
    ensures var r := Stripped(line, true);
      StrippedText(line + rest, Block) == r.0 + StrippedText(rest, ModeOf(r.1))
    decreases |line|, 0
  {
    if StartsWith(line, '*', '/') {
      Dropped(line, rest, 2);
      LineInText(line[2..], rest, false);
      var r := Stripped(line[2..], false);
      Associate(Spaces(2), r.0, StrippedText(rest, ModeOf(r.1)));
    } else {
      Dropped(line, rest, 1);
      LineInText(line[1..], rest, true);
      var r := Stripped(line[1..], true);
      Associate(Spaces(1), r.0, StrippedText(rest, ModeOf(r.1)));
    }
  }

  lemma CommentedOut(line: string, rest: string)
    requires StartsWith(line, '/', '/') && '\n' !in line && EndsLine(rest)
    ensures StrippedText(line + rest, Code) == Spaces(|line|) + StrippedText(rest, Code)
  {
    Dropped(line, rest, 2);
    LineCommentInText(line[2..], rest);
    MoreSpaces(2, |line| - 2, StrippedText(rest, Code));
  }

  lemma CodeInText(line: string, rest: string)
    requires line != [] && '\n' !in line && EndsLine(rest)
    ensures var r := Stripped(line, false);
      StrippedText(line + rest, Code) == r.0 + StrippedText(rest, ModeOf(r.1))
    decreases |line|, 0
  {
    if StartsWith(line, '/', '/') {
      CommentedOut(line, rest);
    } else if StartsWith(line, '/', '*') {
      Dropped(line, rest, 2);
      LineInText(line[2..], rest, true);
      var r := Stripped(line[2..], true);
      Associate(Spaces(2), r.0, StrippedText(rest, ModeOf(r.1)));
    } else {
      Dropped(line, rest, 1);
      LineInText(line[1..], rest, false);
      var r := Stripped(line[1..], false);
      Associate([line[0]], r.0, StrippedText(rest, ModeOf(r.1)));
    }
  }

  /** Lines joined by line ends. */
  function Joined(lines: seq<string>): string {
    if lines == [] then []
    else if |lines| == 1 then lines[0]
    else lines[0] + (['\n'] + Joined(lines[1..]))
  }

  /** Every line stripped with the flag that the line before it left. */
  function StrippedLines(lines: seq<string>, inBlock: bool): (r: seq<string>)
    ensures |r| == |lines|
  {
    if lines == [] then []
    else
      var r := Stripped(lines[0], inBlock);
      [r.0] + StrippedLines(lines[1..], r.1)
  }

  /** Stripping line by line with the carried flag is stripping the whole text. */
  lemma {:induction false} LineByLineIsWholeText(lines: seq<string>, inBlock: bool)
    requires forall line :: line in lines ==> '\n' !in line
    ensures Joined(StrippedLines(lines, inBlock)) == StrippedText(Joined(lines), ModeOf(inBlock))
  {
    if lines != [] {
      var r := Stripped(lines[0], inBlock);
      if |lines| == 1 {
        LineInText(lines[0], [], inBlock);
        assert lines[0] + [] == lines[0] && r.0 + [] == r.0;
      } else {
        LineByLineIsWholeText(lines[1..], r.1);
        var rest := ['\n'] + Joined(lines[1..]);
        LineInText(lines[0], rest, inBlock);
        assert rest[1..] == Joined(lines[1..]);
        assert StrippedLines(lines, inBlock)[1..] == StrippedLines(lines[1..], r.1);
      }
    }
  }

  // ----- The table -----

  const METHOD_KEY_CAP: nat := 80
  const MOD_NAME_CAP: nat := 32
  const REL_FILE_CAP: nat := 96
  const MAX_LAYERS: nat := 6
  const MAX_CHAINS: nat := 512

  /** `CopyFixed` into a buffer of `cap` characters. */
  function CutTo(s: string, cap: nat): string
    requires cap > 0
  {
    s[..Min(|s|, cap - 1)]
  }

  /** The start of the text, with one character of the buffer left for the NUL. */
  lemma CutMeans(s: string, cap: nat)
    requires cap > 0
    ensures CutTo(s, cap) <= s && |CutTo(s, cap)| == if |s| < cap then |s| else cap - 1
  {
  }

  /** `BuildMethodKey`: the class, a dot and the method, as much as fits. */
  method BuildMethodKey(cls: CString, meth: CString, cap: nat) returns (key: CString)
    requires cap > 0
    ensures key == CutTo(cls + ['.'] + meth, cap) && |key| < cap
  {
    key := [];
    var i := 0;
    while i < |cls| && i + 1 < cap
      invariant i <= |cls| && i < cap && key == cls[..i]
    {
      key := key + [cls[i]];
      i := i + 1;
    }
    ghost var whole := cls + ['.'] + meth;
    assert key == whole[..i];
    if i + 1 < cap {
      key := key + ['.'];
      i := i + 1;
      assert key == whole[..i];
    }
    var j := 0;
    while j < |meth| && i + 1 < cap
      invariant j <= |meth| && i < cap && i <= |whole| && key == whole[..i]
      invariant i == |cls| + 1 + j || i + 1 >= cap
      invariant i + 1 >= cap ==> i + 1 == cap
    {
      key := key + [meth[j]];
      assert whole[i] == meth[j];
      i, j := i + 1, j + 1;
      assert key == whole[..i];
    }
  }

  /** A wrap found in a script. */
  datatype Pending = Pending(methodKey: CString, modName: CString, relFile: CString, lineNumber: nat)

  datatype Layer = Layer(modName: string, relFile: string, lineNumber: nat)

  datatype Chain = Chain(methodKey: string, layers: seq<Layer>, extraLayers: nat)

  function LayerOf(p: Pending): Layer {
    Layer(CutTo(p.modName, MOD_NAME_CAP), CutTo(p.relFile, REL_FILE_CAP), p.lineNumber)
  }

  lemma LayerIs(p: Pending)
    ensures var l := LayerOf(p);
      && l.lineNumber == p.lineNumber && l.modName <= p.modName && l.relFile <= p.relFile
      && |l.modName| == (if |p.modName| < 32 then |p.modName| else 31)
      && |l.relFile| == (if |p.relFile| < 96 then |p.relFile| else 95)
  {
  }

  // ----- The capped group-by -----

  /** The distinct keys, in the order they first occur. */
  function FirstKeys(pending: seq<Pending>): seq<string> {
    if pending == [] then []
    else
      var before, key := FirstKeys(pending[..|pending| - 1]), pending[|pending| - 1].methodKey;
      if key in before then before else before + [key]
  }

  /** The layers of one key, in order. */
  function LayersOf(pending: seq<Pending>, key: string): seq<Layer> {
    if pending == [] then []
    else
      var last := pending[|pending| - 1];
      LayersOf(pending[..|pending| - 1], key) + if last.methodKey == key then [LayerOf(last)] else []
  }

  /** A chain holds the first six layers of its key and counts the others. */
  function ChainOf(pending: seq<Pending>, key: string): Chain {
    var layers := LayersOf(pending, key);
    var n := Min(MAX_LAYERS, |layers|);
    Chain(key, layers[..n], |layers| - n)
  }

  /** The keys that get a chain. */
  function KeptKeys(pending: seq<Pending>): seq<string> {
    var keys := FirstKeys(pending);
    keys[..Min(MAX_CHAINS, |keys|)]
  }

  function Chains(pending: seq<Pending>): (r: seq<Chain>)
    ensures |r| == |KeptKeys(pending)|
  {
    var keys := KeptKeys(pending);
    seq(|keys|, k requires 0 <= k < |keys| => ChainOf(pending, keys[k]))
  }

  /** The layers whose key gets no chain. */
  function DroppedLayers(pending: seq<Pending>, kept: seq<string>): nat {
    if pending == [] then 0
    else
      DroppedLayers(pending[..|pending| - 1], kept) + if pending[|pending| - 1].methodKey in kept then 0 else 1
  }

  predicate FitKeys(pending: seq<Pending>) {
    forall i :: 0 <= i < |pending| ==> |pending[i].methodKey| < METHOD_KEY_CAP
  }

  lemma {:induction false} FirstKeysAre(pending: seq<Pending>)
    ensures forall i, j :: 0 <= i < j < |FirstKeys(pending)| ==> FirstKeys(pending)[i] != FirstKeys(pending)[j]
    ensures forall key :: key in FirstKeys(pending) <==> LayersOf(pending, key) != []
  {
    if pending != [] { FirstKeysAre(pending[..|pending| - 1]); }
  }

  /** Keys stand in the order of their first layers. */
  lemma {:induction false} FirstKeysInOrder(pending: seq<Pending>, i: nat, j: nat) returns (m: nat)
    requires i < j < |FirstKeys(pending)|
    ensures m < |pending| && pending[m].methodKey == FirstKeys(pending)[i]
    ensures forall n :: 0 <= n <= m ==> pending[n].methodKey != FirstKeys(pending)[j]
  {
    var init, last := pending[..|pending| - 1], pending[|pending| - 1];
    var before := FirstKeys(init);
    assert pending == init + [last];
    if j < |before| {
      m := FirstKeysInOrder(init, i, j);
    } else {
      m := KeyFound(init, before[i]);
      forall n | 0 <= n <= m ensures pending[n].methodKey != last.methodKey {
        KeyOfMember(init, init[n]);
      }
    }
  }

  lemma {:induction false} KeyFound(pending: seq<Pending>, key: string) returns (m: nat)
    requires key in FirstKeys(pending)
    ensures m < |pending| && pending[m].methodKey == key
  {
    var init := pending[..|pending| - 1];
    if key in FirstKeys(init) { m := KeyFound(init, key); } else { m := |pending| - 1; }
  }

  /** The layers of a key, piece by piece. */
  lemma {:induction false} LayersAppend(a: seq<Pending>, b: seq<Pending>, key: string)
    ensures LayersOf(a + b, key) == LayersOf(a, key) + LayersOf(b, key)
  {
    if b == [] {
      assert a + b == a;
    } else {
      assert (a + b)[..|a + b| - 1] == a + b[..|b| - 1];
      LayersAppend(a, b[..|b| - 1], key);
    }
  }

  lemma LayersOfOne(p: Pending, key: string)
    ensures LayersOf([p], key) == if p.methodKey == key then [LayerOf(p)] else []
  {
    assert [p][..0] == [];
  }

  /** A chain in plain terms: at most 512 chains, in each the first six layers of its key, the others
      counted. */
  lemma ChainsAre(pending: seq<Pending>, k: nat)
    requires k < |Chains(pending)|
    ensures |Chains(pending)| == if |FirstKeys(pending)| < 512 then |FirstKeys(pending)| else 512
    ensures var c, key := Chains(pending)[k], FirstKeys(pending)[k];
      var layers := LayersOf(pending, key);
      && c.methodKey == key && c.layers <= layers
      && |c.layers| == (if |layers| < 6 then |layers| else 6) && c.extraLayers == |layers| - |c.layers|
  {
  }

  /** The chains after one more layer. */
  function WithLayer(c: Chain, l: Layer): Chain {
    if |c.layers| >= MAX_LAYERS then c.(extraLayers := c.extraLayers + 1) else c.(layers := c.layers + [l])
  }

  lemma ChainSnoc(pending: seq<Pending>, p: Pending, key: string)
    ensures ChainOf(pending + [p], key)
         == if p.methodKey == key then WithLayer(ChainOf(pending, key), LayerOf(p)) else ChainOf(pending, key)
  {
    var layers := LayersOf(pending, key);
    if p.methodKey == key && |layers| < MAX_LAYERS {
      assert (layers + [LayerOf(p)])[..|layers| + 1] == layers[..|layers|] + [LayerOf(p)];
    }
  }

  /** What the table holds after some layers. */
  ghost predicate IsTable(chains: seq<Chain>, chainsDropped: nat, totalLayers: nat, pending: seq<Pending>) {
    && chains == Chains(pending)
    && chainsDropped == DroppedLayers(pending, KeptKeys(pending)) && totalLayers + chainsDropped == |pending|
  }

  class WrapChainTable {
    var chains: seq<Chain>
    var chainsDropped: nat
    var totalLayers: nat

    constructor ()
      ensures chains == [] && chainsDropped == 0 && totalLayers == 0
    {
      chains, chainsDropped, totalLayers := [], 0, 0;
    }

    /** The index of the key's chain, a new one if there is room, or -1. */
    method FindOrCreateChain(key: CString) returns (index: int)
      modifies this`chains, this`chainsDropped
      ensures var was := old(chains);
        if 0 <= index < |was| then
          chains == was && chainsDropped == old(chainsDropped) && was[index].methodKey == key
          && forall k :: 0 <= k < index ==> was[k].methodKey != key
        else
          (forall c :: c in was ==> c.methodKey != key) &&
          if |was| >= MAX_CHAINS then index == -1 && chains == was && chainsDropped == old(chainsDropped) + 1
          else index == |was| && chains == was + [Chain(CutTo(key, METHOD_KEY_CAP), [], 0)]
               && chainsDropped == old(chainsDropped)
    {
      for k := 0 to |chains|
        invariant forall m :: 0 <= m < k ==> chains[m].methodKey != key
      {
        if chains[k].methodKey == key { return k; }
      }
      if |chains| >= MAX_CHAINS {
        chainsDropped := chainsDropped + 1;
        return -1;
      }
      chains := chains + [Chain(CutTo(key, METHOD_KEY_CAP), [], 0)];
      index := |chains| - 1;
    }

    method AppendLayer(index: nat, p: Pending)
      requires index < |chains|
      modifies this`chains
      ensures chains == old(chains)[index := WithLayer(old(chains)[index], LayerOf(p))]
    {
      var e := chains[index];
      if |e.layers| >= MAX_LAYERS {
        e := e.(extraLayers := e.extraLayers + 1);
      } else {
        e := e.(layers := e.layers + [LayerOf(p)]);
      }
      chains := chains[index := e];
    }

    /** One layer of the sorted list; `before` are those already placed. */
    method Place(p: Pending, ghost before: seq<Pending>) returns (placed: bool)
      requires IsTable(chains, chainsDropped, totalLayers, before) && |p.methodKey| < METHOD_KEY_CAP
      modifies this
      ensures IsTable(chains, chainsDropped, totalLayers, before + [p])
      ensures placed <==> p.methodKey in KeptKeys(before + [p])
    {
      ghost var keys := KeptKeys(before);
      ghost var was := chains;
      assert forall k :: 0 <= k < |was| ==> was[k].methodKey == keys[k];
      assert CutTo(p.methodKey, METHOD_KEY_CAP) == p.methodKey;
      var index := FindOrCreateChain(p.methodKey);
      assert !(0 <= index < |was|) ==> p.methodKey !in keys;
      if index < 0 {
        DroppedOne(before, p);
        return false;
      }
      placed := true;
      AppendLayer(index, p);
      totalLayers := totalLayers + 1;
      if index < |was| {
        JoinsChain(before, p, index);
      } else {
        StartsChain(before, p);
      }
    }
  }

  lemma {:induction false} DroppedSnoc(pending: seq<Pending>, p: Pending, kept: seq<string>)
    ensures DroppedLayers(pending + [p], kept) == DroppedLayers(pending, kept) + if p.methodKey in kept then 0 else 1
  {
    assert (pending + [p])[..|pending|] == pending;
  }

  lemma {:induction false} DroppedWithout(pending: seq<Pending>, kept: seq<string>, key: string)
    requires key !in FirstKeys(pending)
    ensures DroppedLayers(pending, kept + [key]) == DroppedLayers(pending, kept)
  {
    if pending != [] { DroppedWithout(pending[..|pending| - 1], kept, key); }
  }

  /** A key beyond the 512th changes no chain. */
  lemma DroppedOne(before: seq<Pending>, p: Pending)
    requires p.methodKey !in KeptKeys(before) && |KeptKeys(before)| >= MAX_CHAINS
    ensures KeptKeys(before + [p]) == KeptKeys(before) && Chains(before + [p]) == Chains(before)
    ensures DroppedLayers(before + [p], KeptKeys(before)) == DroppedLayers(before, KeptKeys(before)) + 1
  {
    var keys := KeptKeys(before);
    DroppedSnoc(before, p, keys);
    assert KeptKeys(before + [p]) == keys;
    forall k | 0 <= k < |keys| ensures Chains(before + [p])[k] == Chains(before)[k] {
      assert keys[k] in keys;
      ChainSnoc(before, p, keys[k]);
    }
  }

  lemma JoinsKey(before: seq<Pending>, p: Pending, index: nat)
    requires index < |KeptKeys(before)| && KeptKeys(before)[index] == p.methodKey
    ensures KeptKeys(before + [p]) == KeptKeys(before)
    ensures DroppedLayers(before + [p], KeptKeys(before)) == DroppedLayers(before, KeptKeys(before))
  {
    var keys := KeptKeys(before);
    DroppedSnoc(before, p, keys);
    assert p.methodKey in keys;
    assert FirstKeys(before)[index] == p.methodKey;
    assert KeptKeys(before + [p]) == keys;
  }

  lemma KeptKeysDiffer(before: seq<Pending>, i: nat, j: nat)
    requires i < |KeptKeys(before)| && j < |KeptKeys(before)| && i != j
    ensures KeptKeys(before)[i] != KeptKeys(before)[j]
  {
    FirstKeysAre(before);
    var keys := FirstKeys(before);
    assert keys[if i < j then i else j] != keys[if i < j then j else i];
  }

  /** A layer of a kept key goes to that key's chain. */
  lemma JoinsChain(before: seq<Pending>, p: Pending, index: nat)
    requires index < |KeptKeys(before)| && KeptKeys(before)[index] == p.methodKey
    ensures KeptKeys(before + [p]) == KeptKeys(before)
    ensures Chains(before + [p]) == Chains(before)[index := WithLayer(Chains(before)[index], LayerOf(p))]
    ensures DroppedLayers(before + [p], KeptKeys(before)) == DroppedLayers(before, KeptKeys(before))
  {
    var keys := KeptKeys(before);
    JoinsKey(before, p, index);
    forall k | 0 <= k < |keys|
      ensures Chains(before + [p])[k]
           == if k == index then WithLayer(Chains(before)[index], LayerOf(p)) else Chains(before)[k]
    {
      if k != index { KeptKeysDiffer(before, k, index); }
      ChainSnoc(before, p, keys[k]);
    }
  }

  /** A new key within the limit starts a chain. */
  lemma StartsChain(before: seq<Pending>, p: Pending)
    requires p.methodKey !in KeptKeys(before) && |KeptKeys(before)| < MAX_CHAINS
    ensures KeptKeys(before + [p]) == KeptKeys(before) + [p.methodKey]
    ensures Chains(before + [p]) == Chains(before) + [WithLayer(Chain(p.methodKey, [], 0), LayerOf(p))]
    ensures DroppedLayers(before + [p], KeptKeys(before + [p])) == DroppedLayers(before, KeptKeys(before))
  {
    var keys := KeptKeys(before);
    assert keys == FirstKeys(before);
    FirstKeysAre(before);
    DroppedSnoc(before, p, keys + [p.methodKey]);
    DroppedWithout(before, keys, p.methodKey);
    assert KeptKeys(before + [p]) == keys + [p.methodKey];
    assert ChainOf(before, p.methodKey) == Chain(p.methodKey, [], 0);
    forall k | 0 <= k <= |keys|
      ensures Chains(before + [p])[k]
           == (Chains(before) + [WithLayer(Chain(p.methodKey, [], 0), LayerOf(p))])[k]
    {
      ChainSnoc(before, p, (keys + [p.methodKey])[k]);
      if k < |keys| { assert keys[k] in keys; }
    }
  }

  /** By file, then by line. */
  predicate PendingBefore(a: Pending, b: Pending) {
    if a.relFile != b.relFile then Less(a.relFile, b.relFile) else a.lineNumber < b.lineNumber
  }

  lemma PendingBeforeStrictWeak()
    ensures StrictWeak(PendingBefore)
  {
    forall a: Pending, b: Pending ensures PendingBefore(a, b) ==> !PendingBefore(b, a) {
      LessAsymmetric(a.relFile, b.relFile);
    }
    forall a: Pending, b: Pending, c: Pending
      ensures !PendingBefore(b, a) && !PendingBefore(c, b) ==> !PendingBefore(c, a)
    {
      LessTotal(a.relFile, b.relFile);
      LessTotal(b.relFile, c.relFile);
      LessTransitive(a.relFile, b.relFile, c.relFile);
      LessAsymmetric(a.relFile, c.relFile);
      LessAsymmetric(c.relFile, a.relFile);
    }
  }

  /** Sorted layers in plain terms. */
  lemma LayersAscend(sorted: seq<Pending>, pending: seq<Pending>, i: nat, j: nat)
    requires IsSorting(sorted, pending, PendingBefore) && i < j < |sorted|
    ensures !Less(sorted[j].relFile, sorted[i].relFile)
    ensures sorted[i].relFile == sorted[j].relFile ==> sorted[i].lineNumber <= sorted[j].lineNumber
  {
    assert !PendingBefore(sorted[j], sorted[i]);
    LessAsymmetric(sorted[i].relFile, sorted[i].relFile);
  }

  ghost function NamedMods(pending: seq<Pending>): set<string> {
    set p | p in pending && p.modName != "" && p.methodKey in KeptKeys(pending) :: p.modName
  }

  /** The tail of `CaptureWrapChains`: sorts the layers found and groups them.  `sorted` is the order
      the sort chose. */
  method GroupLayers(pending: seq<Pending>)
    returns (t: WrapChainTable, modsWithWraps: nat, ghost sorted: seq<Pending>)
    requires FitKeys(pending)
    ensures fresh(t) && IsSorting(sorted, pending, PendingBefore)
    ensures IsTable(t.chains, t.chainsDropped, t.totalLayers, sorted)
    ensures modsWithWraps == |NamedMods(sorted)|
  {
    PendingBeforeStrictWeak();
    var layers := Sort(pending, PendingBefore);
    sorted := layers;
    SortedFits(layers, pending);
    t := new WrapChainTable();
    var mods: set<string> := {};
    for i := 0 to |layers|
      invariant fresh(t) && IsTable(t.chains, t.chainsDropped, t.totalLayers, layers[..i])
      invariant mods == NamedMods(layers[..i])
    {
      var p := layers[i];
      assert layers[..i + 1] == layers[..i] + [p];
      var placed := t.Place(p, layers[..i]);
      NamedModsSnoc(layers[..i], p);
      if !placed { continue; }
      if p.modName != "" { mods := mods + {p.modName}; }
    }
    assert layers[..|layers|] == layers;
    modsWithWraps := |mods|;
  }

  lemma SortedFits(layers: seq<Pending>, pending: seq<Pending>)
    requires multiset(layers) == multiset(pending) && FitKeys(pending)
    ensures FitKeys(layers)
  {
    forall i | 0 <= i < |layers| ensures |layers[i].methodKey| < METHOD_KEY_CAP {
      assert layers[i] in multiset(pending);
      var j :| 0 <= j < |pending| && pending[j] == layers[i];
    }
  }

  /** What one more layer adds to the named mods. */
  lemma NamedModsSnoc(before: seq<Pending>, p: Pending)
    ensures var after := before + [p];
      var kept := p.methodKey in KeptKeys(after);
      NamedMods(after) == NamedMods(before) + if kept && p.modName != "" then {p.modName} else {}
  {
    var after := before + [p];
    var keys := KeptKeys(before);
    assert forall x :: x in after <==> x in before || x == p;
    if p.methodKey in keys {
      var index :| 0 <= index < |keys| && keys[index] == p.methodKey;
      JoinsChain(before, p, index);
    } else if |keys| >= MAX_CHAINS {
      DroppedOne(before, p);
    } else {
      StartsChain(before, p);
      FirstKeysAre(before);
      forall x | x in before ensures x.methodKey in keys {
        KeyOfMember(before, x);
      }
    }
  }

  lemma {:induction false} KeyOfMember(pending: seq<Pending>, p: Pending)
    requires p in pending
    ensures p.methodKey in FirstKeys(pending)
  {
    var init, last := pending[..|pending| - 1], pending[|pending| - 1];
    assert pending == init + [last];
    if p != last { KeyOfMember(init, p); }
  }

  // ----- Conservation -----

  /** The layers a table stands for. */
  function LayersIn(chains: seq<Chain>): nat {
    if chains == [] then 0
    else LayersIn(chains[..|chains| - 1]) + |chains[|chains| - 1].layers| + chains[|chains| - 1].extraLayers
  }

  lemma {:induction false} LayersInSum(pending: seq<Pending>, keys: seq<string>, chains: seq<Chain>)
    requires |chains| == |keys| && forall k :: 0 <= k < |keys| ==> chains[k] == ChainOf(pending, keys[k])
    requires forall i, j :: 0 <= i < j < |keys| ==> keys[i] != keys[j]
    ensures LayersIn(chains) + DroppedLayers(pending, keys) == |pending|
    decreases |keys|
  {
    if keys == [] {
      AllDropped(pending);
    } else {
      var n := |keys| - 1;
      LayersInSum(pending, keys[..n], chains[..n]);
      assert keys == keys[..n] + [keys[n]];
      OneKeyLess(pending, keys[..n], keys[n]);
    }
  }

  lemma {:induction false} AllDropped(pending: seq<Pending>)
    ensures DroppedLayers(pending, []) == |pending|
  {
    if pending != [] { AllDropped(pending[..|pending| - 1]); }
  }

  lemma {:induction false} OneKeyLess(pending: seq<Pending>, keys: seq<string>, key: string)
    requires key !in keys
    ensures DroppedLayers(pending, keys) == DroppedLayers(pending, keys + [key]) + |LayersOf(pending, key)|
  {
    if pending != [] { OneKeyLess(pending[..|pending| - 1], keys, key); }
  }

  /** In the finished table every layer is in a chain, counted by one, or dropped with its key. */
  lemma LayersAreConserved(chains: seq<Chain>, chainsDropped: nat, totalLayers: nat, pending: seq<Pending>)
    requires IsTable(chains, chainsDropped, totalLayers, pending)
    ensures LayersIn(chains) == totalLayers && totalLayers + chainsDropped == |pending|
    ensures forall i, j :: 0 <= i < j < |chains| ==> chains[i].methodKey != chains[j].methodKey
  {
    FirstKeysAre(pending);
    LayersInSum(pending, KeptKeys(pending), chains);
  }

  // ----- From the wraps found to the table -----

  /** A wrap as the scan of a script parses it. */
  datatype Wrap = Wrap(cls: CString, meth: CString, modName: CString, relFile: CString, lineNumber: nat)

  function KeyOf(w: Wrap): (key: CString)
    ensures |key| < METHOD_KEY_CAP
  {
    CutTo(w.cls + ['.'] + w.meth, METHOD_KEY_CAP)
  }

  function PendingOf(w: Wrap): Pending { Pending(KeyOf(w), w.modName, w.relFile, w.lineNumber) }

  /** What the scan appends for a wrap. */
  method AppendPending(pending: seq<Pending>, w: Wrap) returns (r: seq<Pending>)
    ensures r == pending + [PendingOf(w)]
  {
    var key := BuildMethodKey(w.cls, w.meth, METHOD_KEY_CAP);
    r := pending + [Pending(key, w.modName, w.relFile, w.lineNumber)];
  }

  lemma PendingFit(wraps: seq<Wrap>)
    ensures FitKeys(Keys(wraps, PendingOf))
  {
    forall i | 0 <= i < |wraps| ensures |Keys(wraps, PendingOf)[i].methodKey| < METHOD_KEY_CAP {
      KeyAt(wraps, PendingOf, i);
    }
  }

  /** For any wraps at all: the table is the capped group-by, by built key, of their layers in file
      and line order. */
  method CaptureWrapChains(wraps: seq<Wrap>) returns (t: WrapChainTable, modsWithWraps: nat, ghost sorted: seq<Pending>)
    ensures fresh(t) && IsSorting(sorted, Keys(wraps, PendingOf), PendingBefore)
    ensures IsTable(t.chains, t.chainsDropped, t.totalLayers, sorted)
    ensures modsWithWraps == |NamedMods(sorted)|
  {
    var pending: seq<Pending> := [];
    for i := 0 to |wraps|
      invariant pending == Keys(wraps[..i], PendingOf)
    {
      pending := AppendPending(pending, wraps[i]);
      assert wraps[..i + 1] == wraps[..i] + [wraps[i]];
      KeysConcat(wraps[..i], [wraps[i]], PendingOf);
      KeyOfOne(wraps[i], PendingOf);
    }
    assert wraps[..|wraps|] == wraps;
    PendingFit(wraps);
    t, modsWithWraps, sorted := GroupLayers(pending);
  }

  /** A key too long for its buffer would not be found again: layers of one method would each get a
      chain with the same cut key, as long as there is room.  `BuildMethodKey` never makes such a
      key. */
  method LongKeysAreNotGrouped(layers: seq<Pending>, key: CString) returns (t: WrapChainTable)
    requires |key| >= METHOD_KEY_CAP && forall p :: p in layers ==> p.methodKey == key
    ensures fresh(t) && |t.chains| == Min(|layers|, MAX_CHAINS) && t.chainsDropped == |layers| - |t.chains|
    ensures forall k :: 0 <= k < |t.chains| ==>
              t.chains[k] == Chain(CutTo(key, METHOD_KEY_CAP), [LayerOf(layers[k])], 0)
  {
    t := new WrapChainTable();
    for i := 0 to |layers|
      invariant fresh(t) && |t.chains| == Min(i, MAX_CHAINS) && t.chainsDropped == i - |t.chains|
      invariant forall k :: 0 <= k < |t.chains| ==>
                  t.chains[k] == Chain(CutTo(key, METHOD_KEY_CAP), [LayerOf(layers[k])], 0)
    {
      var index := t.FindOrCreateChain(key);
      if index >= 0 {
        assert index == i;
        t.AppendLayer(index, layers[i]);
      }
    }
  }
}
