/** The previous-session file of src/snapshot/SessionHistory.cpp: what `WriteSessionPrevious` puts
    in it and what `ReadSessionPrevious` takes out.

    The file's text is the input and the output; `eol` is what the stream turns a newline into. */
module SessionFile {
  import opened NumberText
  import opened LogTailer
  import opened ModDiff
  import opened Order

  const MAGIC: string := "REDSCOPE_SESSION_PREVIOUS v1"
  const STAMP: string := "timestampUnix="

  const INT64_MIN := -0x8000_0000_0000_0000
  const INT64_MAX := 0x7FFF_FFFF_FFFF_FFFF
  type int64 = x: int | INT64_MIN <= x <= INT64_MAX

  // ----- Numbers -----

  function Magnitude(n: int): nat { if n < 0 then -n else n }

  function IntText(n: int): (s: string) {
    if n < 0 then ['-'] + Decimal(Magnitude(n)) else Decimal(Magnitude(n))
  }

  predicate IsSpace(c: char) { c == ' ' || '\t' <= c <= '\r' }

  function SkipSpace(s: string): string {
    if s != [] && IsSpace(s[0]) then SkipSpace(s[1..]) else s
  }

  /** The digits a text starts with. */
  function LeadingDigits(s: string): (d: string)
    ensures AllDigits(d)
  {
    if s != [] && IsDigit(s[0]) then [s[0]] + LeadingDigits(s[1..]) else []
  }

  function Clamp(n: int): int64 {
    if n < INT64_MIN then INT64_MIN else if n > INT64_MAX then INT64_MAX else n
  }

  /** `strtoll` in base ten: white space, a sign, digits; out of range it saturates. */
  function Strtoll(s: string): int64 {
    var t := SkipSpace(s);
    var signed := t != [] && (t[0] == '-' || t[0] == '+');
    var n: int := Value(LeadingDigits(if signed then t[1..] else t));
    Clamp(if signed && t[0] == '-' then -n else n)
  }

  /** `strtoll` reads back every printed 64-bit number. */
  lemma StrtollReads(n: int64)
    ensures Strtoll(IntText(n)) == n
  {
    StrtollSaturates([], n, []);
    assert [] + (IntText(n) + []) == IntText(n);
  }

  /** Printed numbers of any size are read back as far as 64 bits go, whatever white space stands before
      them and whatever but a digit after them. */
  lemma StrtollSaturates(space: string, n: int, rest: string)
    requires forall i :: 0 <= i < |space| ==> space[i] as int == 32 || 9 <= space[i] as int <= 13
    requires rest == [] || !('0' <= rest[0] <= '9')
    ensures Strtoll(space + (IntText(n) + rest))
         == if n > 9223372036854775807 then 9223372036854775807
            else if n < -9223372036854775808 then -9223372036854775808 else n
  {
    var text := IntText(n) + rest;
    StrtollOfText(n, rest);
    SpaceSkipped(space, text);
    SpaceSkipped([], text);
    assert [] + text == text;
  }

  lemma StrtollOfDigits(digits: string, rest: string)
    requires AllDigits(digits) && digits != [] && (rest == [] || !IsDigit(rest[0]))
    ensures Strtoll(digits + rest) == Clamp(Value(digits)) && IsDigit((digits + rest)[0])
  {
    DigitsUpTo(digits, rest);
    assert IsDigit(digits[0]);
    assert SkipSpace(digits + rest) == digits + rest;
  }

  lemma StrtollOfNegative(digits: string, rest: string)
    requires AllDigits(digits) && (rest == [] || !IsDigit(rest[0]))
    ensures Strtoll(['-'] + (digits + rest)) == Clamp(0 - Value(digits))
  {
    DigitsUpTo(digits, rest);
    var text := ['-'] + (digits + rest);
    assert text[1..] == digits + rest;
    AfterMinus(text, digits);
  }

  lemma AfterMinus(text: string, digits: string)
    requires text != [] && text[0] == '-' && LeadingDigits(text[1..]) == digits
    ensures Strtoll(text) == Clamp(0 - Value(digits))
  {
    assert SkipSpace(text) == text;
  }

  lemma StrtollOfText(n: int, rest: string)
    requires rest == [] || !IsDigit(rest[0])
    ensures Strtoll(IntText(n) + rest) == Clamp(n)
    ensures !IsSpace((IntText(n) + rest)[0])
  {
    var digits := Decimal(Magnitude(n));
    RoundTrip(Magnitude(n));
    if n < 0 {
      StrtollOfNegative(digits, rest);
      assert IntText(n) + rest == ['-'] + (digits + rest);
    } else {
      StrtollOfDigits(digits, rest);
    }
  }

  lemma {:induction false} SpaceSkipped(space: string, text: string)
    requires forall i :: 0 <= i < |space| ==> space[i] as int == 32 || 9 <= space[i] as int <= 13
    requires text == [] || !IsSpace(text[0])
    ensures SkipSpace(space + text) == text
  {
    if space == [] {
      assert space + text == text;
    } else {
      assert (space + text)[1..] == space[1..] + text;
      SpaceSkipped(space[1..], text);
    }
  }

  lemma {:induction false} DigitsUpTo(digits: string, rest: string)
    requires AllDigits(digits) && (rest == [] || !IsDigit(rest[0]))
    ensures LeadingDigits(digits + rest) == digits
  {
    if digits == [] {
      assert digits + rest == rest;
    } else {
      assert (digits + rest)[1..] == digits[1..] + rest;
      DigitsUpTo(digits[1..], rest);
    }
  }

  // ----- One line -----

  /** Where a character first occurs, or the length. */
  function Find(s: string, c: char): (i: nat)
    ensures i <= |s| && (forall j :: 0 <= j < i ==> s[j] != c) && (i < |s| ==> s[i] == c)
  {
    if s == [] || s[0] == c then 0 else 1 + Find(s[1..], c)
  }

  datatype Line = Ignored | Stamp(value: int64) | ModLine(entry: Mod)

  function ParseLine(line: string): Line {
    if line == [] || line[0] == '#' then Ignored
    else
      var eq := Find(line, '=');
      if STAMP <= line && eq < |line| then Stamp(Strtoll(line[eq + 1..]))
      else
        var bar := Find(line, '|');
        if bar == |line| || bar == 0 then Ignored
        else ModLine(Mod(line[..bar], line[bar + 1..]))
  }

  function RowOf(m: Mod): string { m.name + ['|'] + m.version }

  /** What a mod needs for its row to be read as that mod. */
  predicate Readable(m: Mod) {
    m.name != "" && '|' !in m.name && m.name[0] != '#' && !(STAMP <= m.name)
  }

  /** And what it needs for the row to stay one line. */
  predicate OneLine(m: Mod) {
    '\n' !in m.name && '\n' !in m.version && (m.version == "" || m.version[|m.version| - 1] != '\r')
  }

  lemma FindBar(name: string, version: string)
    requires '|' !in name
    ensures Find(name + ['|'] + version, '|') == |name|
  {
    var row := name + ['|'] + version;
    var i := Find(row, '|');
    assert row[|name|] == '|';
    forall j | 0 <= j < |name| ensures row[j] != '|' {
      assert row[j] == name[j];
    }
  }

  /** A row starts with the timestamp key exactly when its name does: the key has no bar. */
  lemma StampPrefix(m: Mod)
    ensures STAMP <= RowOf(m) <==> STAMP <= m.name
  {
    var row := RowOf(m);
    assert row[|m.name|] == '|' && row[..|m.name|] == m.name;
    assert forall k :: 0 <= k < |STAMP| ==> STAMP[k] != '|';
    if STAMP <= row {
      assert forall k :: 0 <= k < |STAMP| ==> row[k] == STAMP[k];
      assert m.name[..|STAMP|] == row[..|STAMP|];
    }
  }

  lemma StampRow(row: string)
    requires STAMP <= row
    ensures ParseLine(row).Stamp?
  {
    assert row[13] == '=' && row[0] == 't';
  }

  lemma ReadRowIsReadable(m: Mod)
    requires ParseLine(RowOf(m)) == ModLine(m)
    ensures Readable(m)
  {
    var row := RowOf(m);
    var bar := Find(row, '|');
    assert m.name == row[..bar];
    assert forall j :: 0 <= j < bar ==> row[j] != '|';
    assert row[0] == m.name[0];
    StampPrefix(m);
    if STAMP <= row { StampRow(row); }
  }

  /** A row is read back as its mod exactly when the mod is readable. */
  lemma RowReadsBack(m: Mod)
    ensures ParseLine(RowOf(m)) == ModLine(m) <==> Readable(m)
  {
    StampPrefix(m);
    if ParseLine(RowOf(m)) == ModLine(m) { ReadRowIsReadable(m); }
    if Readable(m) {
      FindBar(m.name, m.version);
      assert RowOf(m)[0] == m.name[0];
    }
  }

  lemma StampKey(text: string)
    ensures var line := STAMP + text;
      STAMP <= line && line[0] == 't' && Find(line, '=') == 13 && line[14..] == text
  {
    var line := STAMP + text;
    assert line[13] == '=';
    forall j | 0 <= j < 13 ensures line[j] != '=' {
      assert line[j] == STAMP[j];
    }
  }

  /** The timestamp line is read back too. */
  lemma StampReadsBack(t: int64)
    ensures ParseLine(STAMP + IntText(t)) == Stamp(t)
  {
    StampKey(IntText(t));
    StrtollReads(t);
  }

  /** The lines of the format: comments, the timestamp, and a name and a version on either side of the
      first bar. */
  lemma LinesAre(name: string, version: string)
    ensures ParseLine("") == Ignored && ParseLine("#" + version) == Ignored && ParseLine("|" + version) == Ignored
    ensures '|' !in version && !("timestampUnix=" <= version) ==> ParseLine(version) == Ignored
    ensures name != "" && '|' !in name && name[0] != '#' && !("timestampUnix=" <= name) ==>
      ParseLine(name + "|" + version) == ModLine(Mod(name, version))
    ensures ParseLine("timestampUnix=" + version) == Stamp(Strtoll(version))
  {
    StampKey(version);
    assert ("#" + version)[0] == '#' && ("|" + version)[0] == '|' && ("timestampUnix=")[0] == 't';
    if name != "" && '|' !in name && name[0] != '#' && !(STAMP <= name) {
      RowReadsBack(Mod(name, version));
      assert RowOf(Mod(name, version)) == name + "|" + version;
    }
  }

  // ----- The file -----

  datatype Session = Session(present: bool, parsedOk: bool, timestampUnix: int64, mods: seq<Mod>)

  /** The mods of the lines, in order. */
  function ModsOf(lines: seq<string>): seq<Mod> {
    if lines == [] then []
    else
      var last := ParseLine(lines[|lines| - 1]);
      ModsOf(lines[..|lines| - 1]) + if last.ModLine? then [last.entry] else []
  }

  /** The last timestamp counts. */
  function StampOf(lines: seq<string>): int64 {
    if lines == [] then 0
    else
      var last := ParseLine(lines[|lines| - 1]);
      if last.Stamp? then last.value else StampOf(lines[..|lines| - 1])
  }

  method ReadSession(text: string) returns (out: Session)
    ensures out.present
    ensures out.parsedOk <==> Lines(text) != [] && Lines(text)[0] == MAGIC
    ensures !out.parsedOk ==> out == Session(true, false, 0, [])
    ensures out.parsedOk ==> out.timestampUnix == StampOf(Lines(text)[1..]) && Sorting(out.mods, ModsOf(Lines(text)[1..]))
  {
    out := Session(true, false, 0, []);
    var lines := SplitLines(text);
    if lines == [] || lines[0] != MAGIC { return; }
    ghost var body := lines[1..];
    for i := 1 to |lines|
      invariant out.present && !out.parsedOk
      invariant out.mods == ModsOf(body[..i - 1]) && out.timestampUnix == StampOf(body[..i - 1])
    {
      assert body[..i][..i - 1] == body[..i - 1] && body[i - 1] == lines[i];
      var line := ParseLine(lines[i]);
      match line {
        case Ignored =>
        case Stamp(value) => out := out.(timestampUnix := value);
        case ModLine(entry) => out := out.(mods := out.mods + [entry]);
      }
    }
    assert body[..|body|] == body;
    var sorted := SortByName(out.mods);
    out := out.(parsedOk := true, mods := sorted);
  }

  /** The rows of the named mods. */
  function Rows(mods: seq<Mod>): seq<string> {
    if mods == [] then []
    else
      var last := mods[|mods| - 1];
      Rows(mods[..|mods| - 1]) + if last.name == "" then [] else [RowOf(last)]
  }

  function FileRows(t: int64, mods: seq<Mod>): seq<string> {
    [MAGIC, STAMP + IntText(t)] + Rows(mods)
  }

  /** The first two lines in full. */
  lemma FileStarts(t: int64, mods: seq<Mod>)
    ensures FileRows(t, mods)[0] == "REDSCOPE_SESSION_PREVIOUS v1"
    ensures FileRows(t, mods)[1] == "timestampUnix=" + IntText(t)
  {
  }

  method WriteSession(t: int64, current: seq<Mod>, eol: string) returns (text: string, ghost sorted: seq<Mod>)
    ensures Sorting(sorted, current) && text == Closed(FileRows(t, sorted), eol)
  {
    var mods := SortByName(current);
    sorted := mods;
    text := MAGIC + eol + (STAMP + IntText(t)) + eol;
    Preamble(MAGIC, STAMP + IntText(t), eol);
    for i := 0 to |mods|
      invariant text == Closed([MAGIC, STAMP + IntText(t)] + Rows(mods[..i]), eol)
    {
      RowsSnoc(mods[..i], mods[i]);
      assert mods[..i + 1] == mods[..i] + [mods[i]];
      if mods[i].name == "" { continue; }
      text := text + RowOf(mods[i]) + eol;
      AddRow([MAGIC, STAMP + IntText(t)], Rows(mods[..i]), RowOf(mods[i]), eol);
    }
    assert mods[..|mods|] == mods;
  }

  lemma RowsSnoc(mods: seq<Mod>, m: Mod)
    ensures Rows(mods + [m]) == if m.name == "" then Rows(mods) else Rows(mods) + [RowOf(m)]
  {
    assert (mods + [m])[..|mods|] == mods;
    assert Rows(mods) + [] == Rows(mods);
  }

  lemma Preamble(magic: string, stamp: string, eol: string)
    ensures magic + eol + stamp + eol == Closed([magic, stamp] + [], eol)
  {
    assert [] + [magic] == [magic] && [magic] + [stamp] == [magic, stamp] + [];
    assert Closed([], eol) + magic + eol == magic + eol;
  }

  lemma AddRow(head: seq<string>, rows: seq<string>, row: string, eol: string)
    ensures Closed(head + (rows + [row]), eol) == Closed(head + rows, eol) + row + eol
  {
    assert head + (rows + [row]) == head + rows + [row];
  }

  // ----- The round trip -----

  ghost predicate AllReadable(mods: seq<Mod>) {
    forall m :: m in mods && m.name != "" ==> Readable(m) && OneLine(m)
  }

  lemma {:induction false} RowsArePlain(mods: seq<Mod>)
    requires AllReadable(mods)
    ensures forall row :: row in Rows(mods) ==> PlainRow(row) && ParseLine(row).ModLine?
  {
    if mods != [] {
      var last := mods[|mods| - 1];
      RowsArePlain(mods[..|mods| - 1]);
      if last.name != "" {
        RowReadsBack(last);
      }
    }
  }

  lemma {:induction false} RowsReadBack(mods: seq<Mod>)
    requires AllReadable(mods)
    ensures multiset(ModsOf(Rows(mods))) == multiset(Named(mods))
  {
    if mods != [] {
      var init, last := mods[..|mods| - 1], mods[|mods| - 1];
      RowsReadBack(init);
      NamedSnoc(init, last);
      assert mods == init + [last];
      RowsSnoc(init, last);
      if last.name != "" {
        RowReadsBack(last);
      }
    }
  }

  lemma NamedSnoc(mods: seq<Mod>, last: Mod)
    ensures multiset(Named(mods + [last])) == multiset(Named(mods)) + multiset(if last.name == "" then [] else [last])
  {
    forall m: Mod
      ensures multiset(Named(mods + [last]))[m]
           == (multiset(Named(mods)) + multiset(if last.name == "" then [] else [last]))[m]
    {
      NamedMultiset(mods + [last], m);
      NamedMultiset(mods, m);
    }
  }

  lemma SnocAfter(stamp: string, rows: seq<string>)
    requires rows != []
    ensures var init, last := rows[..|rows| - 1], rows[|rows| - 1];
      [stamp] + rows == ([stamp] + init) + [last] && rows == init + [last]
  {
  }

  lemma {:induction false} StampBeforeRows(stamp: string, rows: seq<string>, t: int64)
    requires ParseLine(stamp) == Stamp(t) && forall row :: row in rows ==> ParseLine(row).ModLine?
    ensures StampOf([stamp] + rows) == t
  {
    if rows == [] {
      assert [] + [stamp] == [stamp] + rows;
    } else {
      SnocAfter(stamp, rows);
      StampBeforeRows(stamp, rows[..|rows| - 1], t);
    }
  }

  lemma {:induction false} RowsAfterStamp(stamp: string, rows: seq<string>)
    requires ParseLine(stamp).Stamp?
    ensures ModsOf([stamp] + rows) == ModsOf(rows)
  {
    if rows == [] {
      assert [] + [stamp] == [stamp] + rows;
    } else {
      SnocAfter(stamp, rows);
      RowsAfterStamp(stamp, rows[..|rows| - 1]);
    }
  }

  lemma FileLines(magic: string, stamp: string, rows: seq<string>, eol: string)
    requires eol == "\n" || eol == "\r\n"
    requires PlainRow(magic) && PlainRow(stamp) && forall row :: row in rows ==> PlainRow(row)
    ensures Lines(Closed([magic, stamp] + rows, eol)) == [magic] + ([stamp] + rows)
  {
    var all := [magic, stamp] + rows;
    LinesRoundTrip(all, [], eol);
    assert Closed(all, eol) + [] == Closed(all, eol);
    assert all + [] == [magic] + ([stamp] + rows);
  }

  /** The lines of a written file, and what they hold. */
  lemma FileReadsBack(t: int64, mods: seq<Mod>, eol: string)
    requires (eol == "\n" || eol == "\r\n") && AllReadable(mods)
    ensures var lines := Lines(Closed(FileRows(t, mods), eol));
      && lines != [] && lines[0] == MAGIC && StampOf(lines[1..]) == t
      && multiset(ModsOf(lines[1..])) == multiset(Named(mods))
  {
    var stamp := STAMP + IntText(t);
    RowsArePlain(mods);
    RowsReadBack(mods);
    StampReadsBack(t);
    StampIsPlain(t);
    StampBeforeRows(stamp, Rows(mods), t);
    RowsAfterStamp(stamp, Rows(mods));
    FileLines(MAGIC, stamp, Rows(mods), eol);
  }

  lemma StampIsPlain(t: int64)
    ensures PlainRow(STAMP + IntText(t)) && PlainRow(MAGIC)
  {
    var digits := Decimal(Magnitude(t));
    var row := STAMP + IntText(t);
    assert row[|row| - 1] == digits[|digits| - 1];
    assert IsDigit(digits[|digits| - 1]);
    forall c | c in digits ensures c != '\n' {
      var i :| 0 <= i < |digits| && digits[i] == c;
      assert IsDigit(digits[i]);
    }
  }

  /** Reading a written file gives the timestamp and the named mods back, with either line ending. */
  method WriteThenRead(t: int64, current: seq<Mod>, eol: string) returns (out: Session)
    requires eol == "\n" || eol == "\r\n"
    requires AllReadable(current)
    ensures out.parsedOk && out.timestampUnix == t
    ensures multiset(out.mods) == multiset(Named(current)) && ByName(out.mods)
  {
    var text, sorted := WriteSession(t, current, eol);
    SameMembers(sorted, current);
    FileReadsBack(t, sorted, eol);
    NamedPermuted(sorted, current);
    out := ReadSession(text);
  }

  lemma NamedPermuted(a: seq<Mod>, b: seq<Mod>)
    requires multiset(a) == multiset(b)
    ensures multiset(Named(a)) == multiset(Named(b))
  {
    forall m: Mod ensures multiset(Named(a))[m] == multiset(Named(b))[m] {
      NamedMultiset(a, m);
      NamedMultiset(b, m);
    }
  }
}
