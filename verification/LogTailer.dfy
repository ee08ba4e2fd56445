/** The wildcard matcher and the log tail of src/logs/LogTailer.cpp.

    Text is a sequence of characters, one per byte.  A C string is the bytes before its
    terminating NUL; reading one past them yields NUL, as dereferencing the pointer does. */
module LogTailer {
  import opened AsciiText

  // ----- The matcher -----

  function At(s: seq<char>, i: nat): char {
    if i < |s| then s[i] else '\0'
  }

  predicate SameChar(p: char, c: char) {
    p == '?' || LowerChar(p) == LowerChar(c)
  }

  /** The meaning of a wildcard pattern: `*` stands for any run, `?` for any one character, and
      any other character for itself up to case.  `Glob(P, p, N, n)` relates the suffixes of the
      pattern from `p` and of the name from `n`. */
  ghost predicate Glob(P: CString, p: nat, N: CString, n: nat)
    requires p <= |P| && n <= |N|
    decreases |P| - p, |N| - n
  {
    if p == |P| then n == |N|
    else if P[p] == '*' then Glob(P, p + 1, N, n) || (n < |N| && Glob(P, p, N, n + 1))
    else n < |N| && SameChar(P[p], N[n]) && Glob(P, p + 1, N, n + 1)
  }

  /** The pattern has no star in `[lo, hi)`. */
  ghost predicate StarFree(P: CString, lo: nat, hi: nat) {
    lo <= hi <= |P| && forall i :: lo <= i < hi ==> P[i] != '*'
  }

  /** A star reaches back over any characters before a place where it already matches. */
  lemma {:induction false} StarAbsorbs(P: CString, s: nat, N: CString, n: nat, m: nat)
    requires s < |P| && P[s] == '*' && n <= m <= |N|
    requires Glob(P, s, N, m)
    ensures Glob(P, s, N, n)
    decreases m - n
  {
    if n < m {
      StarAbsorbs(P, s, N, n + 1, m);
    }
  }

  /** A star-free block consumes exactly as many characters as it is long. */
  lemma {:induction false} BlockConsumes(P: CString, p: nat, q: nat, N: CString, n: nat)
    requires StarFree(P, p, q) && n <= |N|
    requires Glob(P, p, N, n)
    ensures n + (q - p) <= |N| && Glob(P, q, N, n + (q - p))
    decreases q - p
  {
    if p < q {
      BlockConsumes(P, p + 1, q, N, n + 1);
    }
  }

  /** Where a star-free block agrees with the name, it can be skipped on both sides. */
  lemma {:induction false} BlockSkips(P: CString, p: nat, q: nat, N: CString, n: nat)
    requires StarFree(P, p, q) && n + (q - p) <= |N|
    requires forall i :: p <= i < q ==> SameChar(P[i], N[n + (i - p)])
    ensures Glob(P, p, N, n) == Glob(P, q, N, n + (q - p))
    decreases q - p
  {
    if p < q {
      assert SameChar(P[p], N[n]);
      forall i | p + 1 <= i < q ensures SameChar(P[i], N[n + 1 + (i - (p + 1))]) {
        assert n + 1 + (i - (p + 1)) == n + (i - p);
      }
      BlockSkips(P, p + 1, q, N, n + 1);
    }
  }

  /** A star followed by a block needs room for the block. */
  lemma {:induction false} StarNeedsRoom(P: CString, s: nat, q: nat, N: CString, n: nat)
    requires s < |P| && P[s] == '*' && StarFree(P, s + 1, q) && n <= |N|
    requires Glob(P, s, N, n)
    ensures n + (q - s - 1) <= |N|
    decreases |N| - n
  {
    if Glob(P, s + 1, N, n) {
      BlockConsumes(P, s + 1, q, N, n);
    } else {
      StarNeedsRoom(P, s, q, N, n + 1);
    }
  }

  /** Why remembering only the last star is enough: once the block after a star has been matched
      at its leftmost place and another star follows, any match of the whole goes through there. */
  lemma {:induction false} LeftmostBlockSuffices(P: CString, s: nat, q: nat, N: CString, n: nat)
    requires s < q < |P| && P[s] == '*' && P[q] == '*' && StarFree(P, s + 1, q) && n <= |N|
    requires Glob(P, s, N, n)
    ensures n + (q - s - 1) <= |N| && Glob(P, q, N, n + (q - s - 1))
    decreases |N| - n
  {
    if Glob(P, s + 1, N, n) {
      BlockConsumes(P, s + 1, q, N, n);
    } else {
      LeftmostBlockSuffices(P, s, q, N, n + 1);
      StarAbsorbs(P, q, N, n + (q - s - 1), n + 1 + (q - s - 1));
    }
  }

  /** The search state: with no star seen the question is still the one at `(p, n)`; otherwise it
      is the one at the last star, and the block since it agrees with the name since the mark. */
  ghost predicate SearchState(P: CString, p: nat, N: CString, n: nat, star: int, mark: nat) {
    && p <= |P| && n <= |N| && -1 <= star < |P|
    && (star < 0 ==> Glob(P, 0, N, 0) == Glob(P, p, N, n))
    && (star >= 0 ==>
      && P[star] == '*' && mark <= |N|
      && Glob(P, 0, N, 0) == Glob(P, star, N, mark)
      && StarFree(P, star + 1, p) && n - mark == p - (star + 1)
      && forall i :: star < i < p ==> SameChar(P[i], N[mark + (i - (star + 1))]))
  }

  /** At the end of the name only stars may remain in the pattern. */
  lemma EndOfName(P: CString, p: nat, N: CString, star: int, mark: nat)
    requires SearchState(P, p, N, |N|, star, mark)
    ensures Glob(P, 0, N, 0) == Glob(P, p, N, |N|)
  {
    if star >= 0 {
      BlockSkips(P, star + 1, p, N, mark);
      if mark < |N| && Glob(P, star, N, mark + 1) {
        StarNeedsRoom(P, star, p, N, mark + 1);
      }
    }
  }

  /** A new star takes over from the previous one. */
  lemma NewStar(P: CString, p: nat, N: CString, n: nat, star: int, mark: nat)
    requires SearchState(P, p, N, n, star, mark) && p < |P| && P[p] == '*'
    ensures Glob(P, 0, N, 0) == Glob(P, p, N, n)
  {
    if star >= 0 {
      BlockSkips(P, star + 1, p, N, mark);
      if Glob(P, star, N, mark) {
        LeftmostBlockSuffices(P, star, p, N, mark);
      }
    }
  }

  /** The iterative matcher decides exactly the recursive meaning, and terminates: each round
      moves to a later star, or moves the mark, or consumes a character. */
  method GlobMatch(P: CString, N: CString) returns (matched: bool)
    ensures matched <==> Glob(P, 0, N, 0)
  {
    var pattern, name := 0, 0;
    var pStar, nMark := -1, 0;
    while name < |N|
      invariant SearchState(P, pattern, N, name, pStar, nMark)
      invariant pStar < 0 ==> nMark == 0
      decreases |P| - pStar, |N| - nMark, |N| - name
    {
      if At(P, pattern) == '*' {
        NewStar(P, pattern, N, name, pStar, nMark);
        pStar, pattern := pattern, pattern + 1;
        nMark := name;
      } else if At(P, pattern) == '?' || LowerChar(At(P, pattern)) == LowerChar(N[name]) {
        assert N[name] in N;
        pattern := pattern + 1;
        name := name + 1;
      } else if pStar >= 0 {
        BlockSkips(P, pStar + 1, pattern, N, nMark);
        pattern := pStar + 1;
        nMark := nMark + 1;
        name := nMark;
      } else {
        return false;
      }
    }
    EndOfName(P, pattern, N, pStar, nMark);
    while At(P, pattern) == '*'
      invariant pattern <= |P|
      invariant Glob(P, 0, N, 0) == Glob(P, pattern, N, |N|)
      decreases |P| - pattern
    {
      pattern := pattern + 1;
    }
    return At(P, pattern) == '\0';
  }

  // ----- What a pattern means, without recursion over characters -----

  /** Block `[p, q)` of the pattern stands in the name at `n`: a question mark for any character, any
      other character for itself or its other case. */
  ghost predicate Stands(P: CString, p: nat, q: nat, N: CString, n: nat) {
    && p <= q <= |P| && n + (q - p) <= |N|
    && forall i :: p <= i < q ==> P[i] == '?' || SameLetter(P[i], N[n + (i - p)])
  }

  lemma {:induction false} BlockMeans(P: CString, p: nat, q: nat, N: CString, n: nat)
    requires StarFree(P, p, q) && n <= |N|
    ensures Glob(P, p, N, n) <==> Stands(P, p, q, N, n) && Glob(P, q, N, n + (q - p))
    decreases q - p
  {
    if p < q && n < |N| {
      BlockMeans(P, p + 1, q, N, n + 1);
      FoldsLetters(P[p], N[n]);
      if Stands(P, p + 1, q, N, n + 1) {
        forall i | p + 1 <= i < q ensures P[i] == '?' || SameLetter(P[i], N[n + (i - p)]) {
          assert n + 1 + (i - (p + 1)) == n + (i - p);
        }
      }
      if Stands(P, p, q, N, n) {
        forall i | p + 1 <= i < q ensures P[i] == '?' || SameLetter(P[i], N[n + 1 + (i - (p + 1))]) {
          assert n + 1 + (i - (p + 1)) == n + (i - p);
        }
      }
    }
  }

  /** What follows place `s` of the pattern matches the name from `n` on. */
  ghost predicate RestAfter(P: CString, s: nat, N: CString, n: nat) {
    s < |P| && n <= |N| && Glob(P, s + 1, N, n)
  }

  lemma {:induction false} StarMeans(P: CString, s: nat, N: CString, n: nat)
    requires s < |P| && P[s] == '*' && n <= |N|
    ensures Glob(P, s, N, n) <==> exists m: nat :: n <= m && RestAfter(P, s, N, m)
    decreases |N| - n
  {
    assert RestAfter(P, s, N, n) == Glob(P, s + 1, N, n);
    if n < |N| {
      StarMeans(P, s, N, n + 1);
      assert (exists m: nat :: n <= m && RestAfter(P, s, N, m))
        <==> RestAfter(P, s, N, n) || exists m: nat :: n + 1 <= m && RestAfter(P, s, N, m);
    }
  }

  /** A pattern without a star matches the names it stands for; one whose first star is at `s` matches
      exactly when the block before it stands at the start and the rest matches somewhere behind. */
  lemma GlobMeans(P: CString, p: nat, s: nat, N: CString, n: nat)
    requires p <= |P| && n <= |N| && StarFree(P, p, s)
    ensures s == |P| ==> (Glob(P, p, N, n) <==> |P| - p == |N| - n && Stands(P, p, |P|, N, n))
    ensures s < |P| && P[s] == '*' ==>
      (Glob(P, p, N, n) <==>
        Stands(P, p, s, N, n) && exists m: nat :: n + (s - p) <= m && RestAfter(P, s, N, m))
  {
    BlockMeans(P, p, s, N, n);
    if s < |P| && P[s] == '*' && Stands(P, p, s, N, n) { StarMeans(P, s, N, n + (s - p)); }
  }

  // ----- Lines and the tail -----

  function StripCR(s: seq<char>): seq<char> {
    if |s| > 0 && s[|s| - 1] == '\r' then s[..|s| - 1] else s
  }

  /** The text after the last newline. */
  function OpenLine(text: seq<char>): (r: seq<char>) {
    if text == [] || text[|text| - 1] == '\n' then []
    else OpenLine(text[..|text| - 1]) + [text[|text| - 1]]
  }

  /** The lines that a newline has closed, each without its carriage return. */
  function ClosedLines(text: seq<char>): (r: seq<seq<char>>) {
    if text == [] then []
    else
      var before := text[..|text| - 1];
      if text[|text| - 1] == '\n' then ClosedLines(before) + [StripCR(OpenLine(before))]
      else ClosedLines(before)
  }

  /** All lines of a text; an empty open line does not count. */
  function Lines(text: seq<char>): (r: seq<seq<char>>) {
    ClosedLines(text) + if OpenLine(text) == [] then [] else [StripCR(OpenLine(text))]
  }

  /** Each row followed by the same line ending. */
  function Closed(rows: seq<seq<char>>, eol: seq<char>): seq<char> {
    if rows == [] then []
    else Closed(rows[..|rows| - 1], eol) + rows[|rows| - 1] + eol
  }

  /** A row that a line can hold: no newline, and no carriage return at its end. */
  predicate PlainRow(row: seq<char>) {
    '\n' !in row && (row == [] || row[|row| - 1] != '\r')
  }

  /** Where the line ending has a carriage return of its own, a row may end in further ones. */
  predicate FitsLine(row: seq<char>, eol: seq<char>) {
    '\n' !in row && (row == [] || row[|row| - 1] != '\r' || eol == ['\r', '\n'])
  }

  lemma {:induction false} OpenLineAppends(text: seq<char>, row: seq<char>)
    requires '\n' !in row
    ensures OpenLine(text + row) == OpenLine(text) + row
    ensures ClosedLines(text + row) == ClosedLines(text)
  {
    if row == [] {
      assert text + row == text;
    } else {
      var init := row[..|row| - 1];
      assert text + row == (text + init) + [row[|row| - 1]];
      assert (text + row)[..|text + row| - 1] == text + init;
      assert row == init + [row[|row| - 1]];
      OpenLineAppends(text, init);
    }
  }

  lemma StripsOne(row: seq<char>, cr: seq<char>)
    requires FitsLine(row, cr + ['\n']) && (cr == [] || cr == ['\r'])
    ensures StripCR(row + cr) == row && '\n' !in row + cr
  {
    if cr == [] {
      assert row + cr == row;
    } else {
      assert (row + cr)[..|row|] == row;
    }
  }

  lemma NewlineCloses(text: seq<char>)
    ensures ClosedLines(text + ['\n']) == ClosedLines(text) + [StripCR(OpenLine(text))]
    ensures OpenLine(text + ['\n']) == []
  {
    assert (text + ['\n'])[..|text|] == text;
  }

  lemma ClosingALine(text: seq<char>, row: seq<char>, cr: seq<char>)
    requires FitsLine(row, cr + ['\n']) && (cr == [] || cr == ['\r']) && OpenLine(text) == []
    ensures ClosedLines(text + (row + cr) + ['\n']) == ClosedLines(text) + [row]
    ensures OpenLine(text + (row + cr) + ['\n']) == []
  {
    StripsOne(row, cr);
    OpenLineAppends(text, row + cr);
    assert [] + (row + cr) == row + cr;
    NewlineCloses(text + (row + cr));
  }

  lemma Regroup(text: seq<char>, row: seq<char>, cr: seq<char>)
    ensures text + row + (cr + ['\n']) == text + (row + cr) + ['\n']
  {
  }

  /** Splitting inverts writing: rows written with either line ending, and possibly one more
      row without any, come back exactly. */
  lemma {:induction false} LinesRoundTrip(rows: seq<seq<char>>, last: seq<char>, eol: seq<char>)
    requires forall row :: row in rows ==> FitsLine(row, eol)
    requires PlainRow(last) && (eol == ['\n'] || eol == ['\r', '\n'])
    ensures Lines(Closed(rows, eol) + last) == rows + if last == [] then [] else [last]
  {
    ClosedRoundTrip(rows, eol);
    OpenLineAppends(Closed(rows, eol), last);
    assert [] + last == last;
    assert StripCR(last) == last;
  }

  lemma {:induction false} ClosedRoundTrip(rows: seq<seq<char>>, eol: seq<char>)
    requires forall row :: row in rows ==> FitsLine(row, eol)
    requires eol == ['\n'] || eol == ['\r', '\n']
    ensures ClosedLines(Closed(rows, eol)) == rows && OpenLine(Closed(rows, eol)) == []
  {
    if rows != [] {
      var init, row := rows[..|rows| - 1], rows[|rows| - 1];
      ClosedRoundTrip(init, eol);
      var cr := eol[..|eol| - 1];
      assert eol == cr + ['\n'];
      Regroup(Closed(init, eol), row, cr);
      ClosingALine(Closed(init, eol), row, cr);
      assert rows == init + [row];
    }
  }

  /** Where the open line starts after one more character. */
  function NextStart(text: seq<char>, start: nat, i: nat): nat
    requires i < |text|
  {
    if text[i] == '\n' then i + 1 else start
  }

  /** The pieces of the text that the scanning loops of `SplitLines` and `Tail` cut out. */
  lemma ScanStep(text: seq<char>, start: nat, i: nat)
    requires start <= i < |text| && text[start..i] == OpenLine(text[..i])
    ensures text[NextStart(text, start, i)..i + 1] == OpenLine(text[..i + 1])
    ensures ClosedLines(text[..i + 1])
         == if text[i] == '\n' then ClosedLines(text[..i]) + [StripCR(text[start..i])] else ClosedLines(text[..i])
  {
    assert text[..i + 1][..i] == text[..i];
    assert text[start..i + 1] == text[start..i] + [text[i]];
  }

  /** The cut both scanning loops make for one line. */
  method Cut(text: seq<char>, start: nat, stop: nat) returns (line: seq<char>)
    requires start <= stop <= |text|
    ensures line == StripCR(text[start..stop])
  {
    var end := stop;
    if end > start && text[end - 1] == '\r' {
      end := end - 1;
      assert text[start..stop][..end - start] == text[start..end];
    }
    line := text[start..end];
  }

  method SplitLines(text: seq<char>) returns (out: seq<seq<char>>)
    ensures out == Lines(text)
  {
    out := [];
    var start := 0;
    for i := 0 to |text|
      invariant start <= i
      invariant out == ClosedLines(text[..i]) && text[start..i] == OpenLine(text[..i])
    {
      ScanStep(text, start, i);
      if text[i] == '\n' {
        var line := Cut(text, start, i);
        out := out + [line];
        start := i + 1;
      }
    }
    assert text[..|text|] == text;
    if start < |text| {
      var line := Cut(text, start, |text|);
      out := out + [line];
    }
  }

  /** The last `n` elements. */
  function LastN<T>(s: seq<T>, n: nat): seq<T> {
    if |s| <= n then s else s[|s| - n..]
  }

  /** They end the list, and are as many of it as there are, up to `n`. */
  lemma LastNEnds<T>(s: seq<T>, n: nat)
    ensures var r := LastN(s, n); |r| == (if |s| < n then |s| else n) && s == s[..|s| - |r|] + r
  {
  }

  lemma LastNAppends<T>(s: seq<T>, n: nat, x: T)
    requires n > 0
    ensures LastN(s + [x], n) == if |s| < n then s + [x] else LastN(s, n)[1..] + [x]
  {
  }

  lemma WrapsOnce(i: nat, n: nat)
    requires 0 < n && i < 2 * n
    ensures i % n == if i < n then i else i - n
  {
    if n <= i {
      assert i == n * 1 + (i - n);
    }
  }

  /** Overwriting the oldest slot of a full ring and stepping past it drops the oldest line and
      appends the new one. */
  lemma RingRotates<T>(held: seq<T>, ring: seq<T>, head: nat, line: T)
    requires head < |ring| && held == ring[head..] + ring[..head]
    ensures var r, h := ring[head := line], if head + 1 < |ring| then head + 1 else 0;
      r[h..] + r[..h] == held[1..] + [line]
  {
  }

  /** The ring of `Tail`: a list that grows to its capacity and is then overwritten in turn. */
  class Ring {
    const maxLines: nat
    var ring: seq<seq<char>>
    var head: nat
    var wrapped: bool

    ghost predicate Valid() reads this {
      && 0 < maxLines && |ring| <= maxLines && head < maxLines
      && (|ring| < maxLines ==> !wrapped)
      && (!wrapped ==> head == 0)
    }

    /** The held lines, oldest first. */
    ghost function Held(): seq<seq<char>>
      requires Valid()
      reads this
    {
      if wrapped then ring[head..] + ring[..head] else ring
    }

    constructor (maxLines: nat)
      requires maxLines > 0
      ensures Valid() && Held() == [] && this.maxLines == maxLines
    {
      this.maxLines := maxLines;
      ring, head, wrapped := [], 0, false;
    }

    /** Pushing keeps the last `maxLines` of everything pushed so far. */
    method Push(line: seq<char>, ghost pushed: seq<seq<char>>)
      requires Valid() && Held() == LastN(pushed, maxLines)
      modifies this
      ensures Valid() && Held() == LastN(pushed + [line], maxLines)
    {
      LastNAppends(pushed, maxLines, line);
      if |ring| < maxLines {
        ring := ring + [line];
      } else {
        RingRotates(Held(), ring, head, line);
        ring := ring[head := line];
        WrapsOnce(head + 1, maxLines);
        head := (head + 1) % maxLines;
        wrapped := true;
      }
    }

    method Drain() returns (result: seq<seq<char>>)
      requires Valid()
      ensures result == Held()
    {
      result := [];
      if !wrapped {
        for i := 0 to |ring|
          invariant result == ring[..i]
        {
          result := result + [ring[i]];
        }
      } else {
        result := DrainWrapped();
      }
    }

    /** From the oldest entry once around. */
    method DrainWrapped() returns (result: seq<seq<char>>)
      requires Valid() && wrapped
      ensures result == Held()
    {
      result := [];
      for k := 0 to maxLines
        invariant result == Held()[..k]
      {
        HeldAt(k);
        result := result + [ring[(head + k) % maxLines]];
      }
    }

    /** Where the `k`-th oldest entry stands. */
    lemma HeldAt(k: nat)
      requires Valid() && wrapped && k < maxLines
      ensures |ring| == |Held()| == maxLines && Held()[k] == ring[(head + k) % maxLines]
    {
      WrapsOnce(head + k, maxLines);
    }
  }

  /** The tail of a text is the last `maxLines` of all its lines. */
  method Tail(text: seq<char>, maxLines: nat) returns (result: seq<seq<char>>)
    ensures result == LastN(Lines(text), maxLines)
  {
    if maxLines == 0 { return []; }
    var ring := new Ring(maxLines);
    var start := 0;
    for i := 0 to |text|
      invariant start <= i && ring.Valid() && fresh(ring)
      invariant ring.maxLines == maxLines
      invariant text[start..i] == OpenLine(text[..i])
      invariant ring.Held() == LastN(ClosedLines(text[..i]), maxLines)
    {
      ScanStep(text, start, i);
      if text[i] == '\n' {
        var line := Cut(text, start, i);
        ring.Push(line, ClosedLines(text[..i]));
        start := i + 1;
      }
    }
    PushOpenLine(ring, text, start);
    result := ring.Drain();
  }

  /** A last line without a newline counts when it is not empty. */
  method PushOpenLine(ring: Ring, text: seq<char>, start: nat)
    requires ring.Valid() && start <= |text| && text[start..|text|] == OpenLine(text[..|text|])
    requires ring.Held() == LastN(ClosedLines(text[..|text|]), ring.maxLines)
    modifies ring
    ensures ring.Valid() && ring.Held() == LastN(Lines(text), ring.maxLines)
  {
    assert text[..|text|] == text;
    if start < |text| {
      var line := Cut(text, start, |text|);
      ring.Push(line, ClosedLines(text));
    } else {
      assert ClosedLines(text) + [] == ClosedLines(text);
    }
  }
}
