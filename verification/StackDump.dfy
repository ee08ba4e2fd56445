/** The stack dump of src/report/StackDump.cpp: which lines are printed for which slots.

    A slot is its eight bytes in memory order.  What a pointer points at is a parameter: for a
    non-zero word the inspection says whether the slot is worth a line. */
module StackDump {
  import opened Bytes

  type Word = w: seq<byte> | |w| == 8 witness [0, 0, 0, 0, 0, 0, 0, 0]

  /** A guarded read of one slot. */
  datatype Read = Fault | Value(word: Word)

  /** What `InspectFast` makes of a non-zero word: nothing to print, or a line. */
  datatype Finding = OtherData | Notable

  type Inspect = Word -> Finding

  const ASCII_CAP: nat := 192

  /** The printed lines; offsets are the 32-bit numbers in them. */
  datatype Line =
    | SlotLine(off: uint32, word: Word)
    | NullLine(at: uint32)
    | NullRun(first: uint32, last: uint32, count: nat)
    | AsciiLine(start: uint32, end: uint32, text: string)
    | Omitted(slots: nat)
    | Truncated(faultAt: uint32)

  function Off(i: nat): uint32 { i * 8 % TWO_32 }

  // ----- One word -----

  predicate Printable(b: byte) { 0x20 <= b <= 0x7E }

  /** Where the printable bytes from position `i` on end. */
  function PrintableEnd(w: Word, i: nat): (n: nat)
    requires i <= 8
    ensures i <= n <= 8
    ensures forall k :: i <= k < n ==> Printable(w[k])
    ensures n < 8 ==> !Printable(w[n])
    decreases 8 - i
  {
    if i < 8 && Printable(w[i]) then PrintableEnd(w, i + 1) else i
  }

  /** The number of printable bytes a word starts with. */
  function PrintableLen(w: Word): (n: nat)
    ensures n <= 8
  {
    PrintableEnd(w, 0)
  }

  function Chars(w: Word): (s: string) {
    seq(PrintableLen(w), i requires 0 <= i < PrintableLen(w) => w[i] as char)
  }

  /** Eight printable characters. */
  predicate Full(w: Word) { PrintableLen(w) == 8 }

  /** At least one printable character, then a NUL. */
  predicate Term(w: Word) { 1 <= PrintableLen(w) < 8 && w[PrintableLen(w)] == 0 }

  predicate Zero(w: Word) { forall i :: 0 <= i < 8 ==> w[i] == 0 }

  /** The byte loop. */
  method ScanAscii(w: Word) returns (chars: string, full: bool, term: bool)
    ensures full <==> Full(w)
    ensures term <==> Term(w)
    ensures full || term ==> chars == Chars(w)
  {
    var printable: int := 0;
    var sawNul := false;
    chars := [];
    var b := 0;
    while b < 8
      invariant b <= 8 && printable == b && !sawNul
      invariant |chars| == b && PrintableLen(w) == PrintableEnd(w, b)
      invariant forall i :: 0 <= i < b ==> chars[i] == w[i] as char
    {
      var c := w[b];
      if c == 0 { sawNul := true; break; }
      if c < 0x20 || c > 0x7E { printable := -1; break; }
      chars := chars + [c as char];
      printable := printable + 1;
      b := b + 1;
    }
    full := printable == 8 && !sawNul;
    term := printable >= 1 && sawNul;
  }

  // ----- The specification: maximal runs -----

  /** What becomes of a slot; it depends on the slot before it only for the end of a string. */
  datatype Class = Ascii | Null | Boring | Shown

  function KindOf(w: Word, inspect: Inspect): Class {
    if Zero(w) then Null else if inspect(w) == OtherData then Boring else Shown
  }

  function ClassOf(words: seq<Word>, inspect: Inspect, i: nat): Class
    requires i < |words|
  {
    if Full(words[i]) || (i > 0 && Full(words[i - 1]) && Term(words[i])) then Ascii else KindOf(words[i], inspect)
  }

  /** Where the string that reaches slot `i` ends. */
  function AsciiEnd(words: seq<Word>, i: nat): (e: nat)
    requires i <= |words|
    ensures i <= e <= |words|
    decreases |words| - i
  {
    if i == |words| then i
    else if Full(words[i]) then AsciiEnd(words, i + 1)
    else if Term(words[i]) then i + 1
    else i
  }

  /** Where the run of zero slots that reaches slot `i` ends. */
  function NullEnd(words: seq<Word>, i: nat): (e: nat)
    requires i <= |words|
    ensures i <= e <= |words|
    decreases |words| - i
  {
    if i < |words| && Zero(words[i]) then NullEnd(words, i + 1) else i
  }

  /** The characters of slots `a` to `e`. */
  function Text(words: seq<Word>, a: nat, e: nat): string
    requires a <= e <= |words|
  {
    if a == e then [] else Text(words, a, e - 1) + Chars(words[e - 1])
  }

  function Cap(s: string): string { if |s| <= ASCII_CAP then s else s[..ASCII_CAP] }

  /** Up to two zero slots are printed one by one, more as a run. */
  function NullLines(a: nat, e: nat): seq<Line>
    requires a <= e
  {
    if e - a == 0 then []
    else if e - a == 1 then [NullLine(Off(a))]
    else if e - a == 2 then [NullLine(Off(a)), NullLine(Off(a + 1))]
    else [NullRun(Off(a), Off(e - 1), e - a)]
  }

  /** The longest segment at slot `i`: its lines, whether it is omitted, and where it ends. */
  function Segment(words: seq<Word>, inspect: Inspect, i: nat): (r: (seq<Line>, nat, nat))
    requires i < |words|
    ensures i < r.2 <= |words|
  {
    var w := words[i];
    if Full(w) then
      var e := AsciiEnd(words, i + 1);
      ([AsciiLine(Off(i), Off(e - 1), Cap(Text(words, i, e)))], 0, e)
    else
      var kind := KindOf(w, inspect);
      if kind == Null then
        var e := NullEnd(words, i + 1);
        (NullLines(i, e), 0, e)
      else if kind == Boring then ([], 1, i + 1)
      else ([SlotLine(Off(i), w)], 0, i + 1)
  }

  /** The lines for the slots from some slot on, and how many of those slots get none. */
  datatype Output = Output(lines: seq<Line>, omitted: nat)

  function Then(lines: seq<Line>, omitted: nat, rest: Output): Output {
    Output(lines + rest.lines, omitted + rest.omitted)
  }

  /** The output for the slots from `i` on. */
  function Emit(words: seq<Word>, inspect: Inspect, i: nat): Output
    requires i <= |words|
    decreases |words| - i
  {
    if i == |words| then Output([], 0)
    else
      var (lines, omitted, next) := Segment(words, inspect, i);
      Then(lines, omitted, Emit(words, inspect, next))
  }

  /** The slots that can be read. */
  function Readable(memory: seq<Read>): (words: seq<Word>)
    ensures |words| <= |memory|
    ensures forall i :: 0 <= i < |words| ==> memory[i] == Value(words[i])
    ensures |words| < |memory| ==> memory[|words|].Fault?
  {
    if memory == [] || memory[0].Fault? then [] else [memory[0].word] + Readable(memory[1..])
  }

  /** The whole dump.  A fault ends it without the count of omitted slots. */
  function Dump(memory: seq<Read>, inspect: Inspect): seq<Line> {
    var words := Readable(memory);
    var skips := Emit(words, inspect, 0).omitted;
    Emit(words, inspect, 0).lines +
    if |words| < |memory| then [Truncated(Off(|words|))]
    else if skips > 0 then [Omitted(skips)]
    else []
  }

  // ----- Where segments end -----

  predicate AllFull(words: seq<Word>, a: nat, i: nat) {
    i <= |words| && forall k :: a <= k < i ==> Full(words[k])
  }

  predicate AllZero(words: seq<Word>, a: nat, i: nat) {
    i <= |words| && forall k :: a <= k < i ==> Zero(words[k])
  }

  lemma {:induction false} AsciiEndOfRun(words: seq<Word>, a: nat, i: nat)
    requires a <= i <= |words| && AllFull(words, a, i)
    ensures AsciiEnd(words, a) == AsciiEnd(words, i)
    decreases i - a
  {
    if a < i { AsciiEndOfRun(words, a + 1, i); }
  }

  lemma {:induction false} NullEndOfRun(words: seq<Word>, a: nat, i: nat)
    requires a <= i <= |words| && AllZero(words, a, i)
    ensures NullEnd(words, a) == NullEnd(words, i)
    decreases i - a
  {
    if a < i { NullEndOfRun(words, a + 1, i); }
  }

  lemma ZeroIsNotText(w: Word)
    requires Zero(w)
    ensures !Full(w) && !Term(w)
  {
    assert !Printable(w[0]);
  }

  /** A string that has reached slot `i`. */
  lemma AsciiSegment(words: seq<Word>, inspect: Inspect, a: nat, i: nat)
    requires a < i && AllFull(words, a, i)
    ensures var e := AsciiEnd(words, i);
      Segment(words, inspect, a) == ([AsciiLine(Off(a), Off(e - 1), Cap(Text(words, a, e)))], 0, e)
  {
    AsciiEndOfRun(words, a + 1, i);
    FullSegment(words, inspect, a, AsciiEnd(words, i));
  }

  lemma FullSegment(words: seq<Word>, inspect: Inspect, a: nat, e: nat)
    requires a < |words| && Full(words[a]) && e == AsciiEnd(words, a + 1)
    ensures Segment(words, inspect, a) == ([AsciiLine(Off(a), Off(e - 1), Cap(Text(words, a, e)))], 0, e)
  {
  }

  /** A run of zero slots that does not go on past `i`. */
  lemma NullSegment(words: seq<Word>, inspect: Inspect, a: nat, i: nat)
    requires a < i && AllZero(words, a, i) && (i < |words| ==> !Zero(words[i]))
    ensures Segment(words, inspect, a) == (NullLines(a, i), 0, i)
  {
    NullEndOfRun(words, a + 1, i);
    ZeroIsNotText(words[a]);
  }

  /** What is printed, and what is still to print from slot `a` on. */
  ghost predicate Printed(out: seq<Line>, omitted: nat, words: seq<Word>, inspect: Inspect, a: nat) {
    a <= |words| && Emit(words, inspect, 0) == Then(out, omitted, Emit(words, inspect, a))
  }

  lemma ThenThen(out: seq<Line>, omitted: nat, lines: seq<Line>, more: nat, rest: Output)
    ensures Then(out, omitted, Then(lines, more, rest)) == Then(out + lines, omitted + more, rest)
  {
    assert out + (lines + rest.lines) == out + lines + rest.lines;
  }

  /** A segment has been printed. */
  lemma PrintMore(out: seq<Line>, omitted: nat, words: seq<Word>, inspect: Inspect, a: nat,
                  lines: seq<Line>, more: nat, next: nat)
    requires Printed(out, omitted, words, inspect, a) && a < |words| && next <= |words|
    requires Segment(words, inspect, a) == (lines, more, next)
    ensures Printed(out + lines, omitted + more, words, inspect, next)
  {
    ThenThen(out, omitted, lines, more, Emit(words, inspect, next));
  }

  lemma PrintPlain(out: seq<Line>, omitted: nat, words: seq<Word>, inspect: Inspect, i: nat)
    requires Printed(out, omitted, words, inspect, i) && i < |words| && !Full(words[i]) && !Zero(words[i])
    ensures if inspect(words[i]) == OtherData then Printed(out, omitted + 1, words, inspect, i + 1)
            else Printed(out + [SlotLine(Off(i), words[i])], omitted, words, inspect, i + 1)
  {
    if inspect(words[i]) == OtherData {
      PrintMore(out, omitted, words, inspect, i, [], 1, i + 1);
      assert out + [] == out;
    } else {
      PrintMore(out, omitted, words, inspect, i, [SlotLine(Off(i), words[i])], 0, i + 1);
    }
  }

  lemma OffSteps(i: nat)
    ensures (Off(i) + 8) % TWO_32 == Off(i + 1) && (Off(i + 1) - 8) % TWO_32 == Off(i)
  {
    var q := i * 8 / TWO_32;
    assert i * 8 == TWO_32 * q + Off(i);
    assert Off(i) % 8 == 0;
    assert i * 8 + 8 == TWO_32 * q + (Off(i) + 8);
  }

  lemma CapTwice(s: string, t: string)
    ensures Cap(Cap(s) + t) == Cap(s + t)
  {
    if |s| > ASCII_CAP {
      assert (s[..ASCII_CAP] + t)[..ASCII_CAP] == s[..ASCII_CAP] == (s + t)[..ASCII_CAP];
      assert t == [] ==> s[..ASCII_CAP] + t == s[..ASCII_CAP];
    }
  }

  // ----- The loop -----

  /** The variables of `EmitStack`; `out` is the lines printed so far. */
  class Dumper {
    var out: seq<Line>
    var nullRunStart: uint32
    var nullRunCount: nat
    var boringSkipped: nat
    var ascii: string
    var asciiInRun: bool
    var asciiStartOff: uint32
    var asciiLastOff: uint32

    constructor ()
      ensures out == [] && nullRunCount == 0 && boringSkipped == 0 && !asciiInRun
    {
      out, nullRunStart, nullRunCount, boringSkipped := [], 0, 0, 0;
      ascii, asciiInRun, asciiStartOff, asciiLastOff := [], false, 0, 0;
    }

    /** Slots `a` to `i` are a run not printed yet: a string, or zero slots. */
    ghost predicate Pending(words: seq<Word>, a: nat, i: nat)
      reads this
    {
      a <= i <= |words| &&
      if asciiInRun then
        && nullRunCount == 0 && a < i && AllFull(words, a, i)
        && asciiStartOff == Off(a) && asciiLastOff == Off(i - 1) && ascii == Cap(Text(words, a, i))
      else
        && nullRunCount == i - a && AllZero(words, a, i)
        && (a < i ==> nullRunStart == Off(a))
    }

    /** `flushNulls`. */
    method FlushNulls(endByteOffset: uint32, ghost words: seq<Word>, ghost inspect: Inspect, ghost a: nat, ghost i: nat)
      requires Pending(words, a, i) && Printed(out, boringSkipped, words, inspect, a) && !asciiInRun
      requires endByteOffset == Off(i) && (i < |words| ==> !Zero(words[i]))
      modifies this`out, this`nullRunCount
      ensures Printed(out, boringSkipped, words, inspect, i) && nullRunCount == 0
    {
      if a < i {
        NullSegment(words, inspect, a, i);
        PrintMore(out, boringSkipped, words, inspect, a, NullLines(a, i), 0, i);
      } else {
        assert out + [] == out;
      }
      out := out + Flushed(endByteOffset, a, i);
      nullRunCount := 0;
    }

    /** The lines that `flushNulls` prints. */
    function Flushed(endByteOffset: uint32, ghost a: nat, ghost i: nat): (lines: seq<Line>)
      requires a <= i && nullRunCount == i - a && endByteOffset == Off(i) && (a < i ==> nullRunStart == Off(a))
      reads this
      ensures lines == NullLines(a, i)
    {
      OffSteps(a);
      OffSteps(if i > 0 then i - 1 else 0);
      if nullRunCount == 0 then []
      else if nullRunCount == 1 then [NullLine(nullRunStart)]
      else if nullRunCount == 2 then [NullLine(nullRunStart), NullLine((nullRunStart + 8) % TWO_32)]
      else [NullRun(nullRunStart, (endByteOffset - 8) % TWO_32, nullRunCount)]
    }

    /** `appendAscii`: as much as the buffer holds. */
    method AppendAscii(chars: string)
      requires |ascii| <= ASCII_CAP
      modifies this`ascii
      ensures ascii == Cap(old(ascii) + chars)
    {
      var k := 0;
      while k < |chars| && |ascii| < ASCII_CAP
        invariant k <= |chars| && |ascii| <= ASCII_CAP && ascii == old(ascii) + chars[..k]
      {
        ascii := ascii + [chars[k]];
        k := k + 1;
      }
      assert old(ascii) + chars == ascii + chars[k..];
    }

    /** `flushAscii`; `e` is where the string ends. */
    method FlushAscii(ghost words: seq<Word>, ghost inspect: Inspect, ghost a: nat, ghost i: nat, ghost e: nat)
      requires asciiInRun && a < i <= |words| && e == AsciiEnd(words, i)
      requires AllFull(words, a, i) && Printed(out, boringSkipped, words, inspect, a)
      requires asciiStartOff == Off(a) && asciiLastOff == Off(e - 1) && ascii == Cap(Text(words, a, e))
      modifies this`out, this`asciiInRun, this`ascii
      ensures !asciiInRun && Printed(out, boringSkipped, words, inspect, e)
    {
      AsciiSegment(words, inspect, a, i);
      PrintMore(out, boringSkipped, words, inspect, a, [AsciiLine(Off(a), Off(e - 1), Cap(Text(words, a, e)))], 0, e);
      asciiInRun := false;
      if |ascii| < 8 {
        TextLen(words, a, i, e);
        assert false;  // a string starts with a full slot
      }
      out := out + [AsciiLine(asciiStartOff, asciiLastOff, ascii)];
      ascii := [];
    }

    /** The pending string goes on to slot `i`. */
    method TakeChars(chars: string, i: nat, ghost words: seq<Word>, ghost a: nat)
      requires i < |words| && chars == Chars(words[i]) && a <= i && ascii == Cap(Text(words, a, i))
      modifies this`ascii, this`asciiLastOff
      ensures ascii == Cap(Text(words, a, i + 1)) && asciiLastOff == Off(i)
    {
      CapTwice(Text(words, a, i), chars);
      AppendAscii(chars);
      asciiLastOff := Off(i);
    }

    /** A zero slot starts or extends a run. */
    method CountNull(i: nat, ghost words: seq<Word>, ghost a: nat)
      requires i < |words| && Pending(words, a, i) && !asciiInRun && Zero(words[i])
      modifies this`nullRunStart, this`nullRunCount
      ensures Pending(words, a, i + 1)
    {
      if nullRunCount == 0 { nullRunStart := Off(i); }
      nullRunCount := nullRunCount + 1;
    }

    /** A slot that meets a pending string: `taken` if it belongs to it. */
    method MeetString(w: Word, chars: string, full: bool, term: bool, i: nat,
                      ghost words: seq<Word>, ghost inspect: Inspect, ghost a: nat)
      returns (taken: bool, ghost b: nat)
      requires i < |words| && w == words[i] && Pending(words, a, i) && Printed(out, boringSkipped, words, inspect, a)
      requires asciiInRun && full == Full(w) && term == Term(w) && (full || term ==> chars == Chars(w))
      modifies this`out, this`ascii, this`asciiInRun, this`asciiLastOff
      ensures taken <==> full || term
      ensures taken ==> Pending(words, b, i + 1)
      ensures !taken ==> b == i && Pending(words, i, i) && !asciiInRun
      ensures Printed(out, boringSkipped, words, inspect, b)
    {
      taken, b := full || term, a;
      if taken { TakeChars(chars, i, words, a); }
      if !full {
        FlushAscii(words, inspect, a, i, if term then i + 1 else i);
        b := if term then i + 1 else i;
      }
    }

    /** A readable slot; `b` is where the pending run starts afterwards. */
    method Slot(w: Word, inspect: Inspect, i: nat, ghost words: seq<Word>, ghost a: nat) returns (ghost b: nat)
      requires i < |words| && w == words[i] && Pending(words, a, i) && Printed(out, boringSkipped, words, inspect, a)
      modifies this
      ensures Pending(words, b, i + 1) && Printed(out, boringSkipped, words, inspect, b)
    {
      var chars, full, term := ScanAscii(w);
      b := a;
      if asciiInRun {
        var taken: bool;
        taken, b := MeetString(w, chars, full, term, i, words, inspect, a);
        if taken { return; }
      } else if full {
        StartAscii(chars, i, words, inspect, a);
        b := i;
        return;
      }
      b := PlainSlot(w, inspect, i, words, b);
    }

    /** A string starts. */
    method StartAscii(chars: string, i: nat, ghost words: seq<Word>, ghost inspect: Inspect, ghost a: nat)
      requires i < |words| && Pending(words, a, i) && Printed(out, boringSkipped, words, inspect, a) && !asciiInRun
      requires Full(words[i]) && chars == Chars(words[i])
      modifies this
      ensures Pending(words, i, i + 1) && Printed(out, boringSkipped, words, inspect, i)
    {
      if Zero(words[i]) { ZeroIsNotText(words[i]); }
      FlushNulls(Off(i), words, inspect, a, i);
      asciiInRun := true;
      asciiStartOff, asciiLastOff, ascii := Off(i), Off(i), [];
      AppendAscii(chars);
      assert Text(words, i, i + 1) == [] + chars;
    }

    /** A slot that is not part of a string. */
    method PlainSlot(w: Word, inspect: Inspect, i: nat, ghost words: seq<Word>, ghost a: nat) returns (ghost b: nat)
      requires i < |words| && w == words[i] && Pending(words, a, i) && Printed(out, boringSkipped, words, inspect, a)
      requires !asciiInRun && !Full(words[i])
      modifies this
      ensures Pending(words, b, i + 1) && Printed(out, boringSkipped, words, inspect, b)
    {
      if Zero(w) {
        CountNull(i, words, a);
        return a;
      }
      FlushNulls(Off(i), words, inspect, a, i);
      PrintPlain(out, boringSkipped, words, inspect, i);
      if inspect(w) == OtherData {
        boringSkipped := boringSkipped + 1;
      } else {
        out := out + [SlotLine(Off(i), w)];
      }
      b := i + 1;
    }

    /** Both flushes, after the last readable slot. */
    method FlushAll(n: nat, ghost words: seq<Word>, ghost inspect: Inspect, ghost a: nat)
      requires n == |words| && Pending(words, a, n) && Printed(out, boringSkipped, words, inspect, a)
      modifies this
      ensures out == Emit(words, inspect, 0).lines && boringSkipped == Emit(words, inspect, 0).omitted
    {
      ghost var b := a;
      if asciiInRun {
        FlushAscii(words, inspect, a, n, n);
        b := n;
      }
      FlushNulls(Off(n), words, inspect, b, n);
      assert out + [] == out;
    }
  }

  lemma {:induction false} TextLen(words: seq<Word>, a: nat, i: nat, e: nat)
    requires a < i <= e <= |words| && Full(words[a])
    ensures |Text(words, a, e)| >= 8
    decreases e
  {
    if e > a + 1 { TextLen(words, a, a + 1, e - 1); }
  }

  lemma NothingPrinted(words: seq<Word>, inspect: Inspect)
    ensures Printed([], 0, words, inspect, 0)
  {
    assert [] + Emit(words, inspect, 0).lines == Emit(words, inspect, 0).lines;
  }

  /** The next slot is readable, or ends what is. */
  lemma ReadableAt(memory: seq<Read>, i: nat)
    requires i < |memory| && i <= |Readable(memory)|
    ensures memory[i].Fault? ==> i == |Readable(memory)|
    ensures memory[i].Value? ==> i < |Readable(memory)| && Readable(memory)[i] == memory[i].word
  {
  }

  lemma DumpIs(memory: seq<Read>, inspect: Inspect, all: Output)
    requires all == Emit(Readable(memory), inspect, 0)
    ensures var n := |Readable(memory)|;
      && (n < |memory| ==> Dump(memory, inspect) == all.lines + [Truncated(Off(n))])
      && (n == |memory| ==> Dump(memory, inspect) == if all.omitted > 0 then all.lines + [Omitted(all.omitted)] else all.lines)
  {
  }

  method EmitStack(memory: seq<Read>, inspect: Inspect) returns (lines: seq<Line>)
    ensures lines == Dump(memory, inspect)
  {
    ghost var words := Readable(memory);
    var d := new Dumper();
    ghost var a := 0;
    NothingPrinted(words, inspect);
    for i := 0 to |memory|
      invariant i <= |words| && fresh(d)
      invariant d.Pending(words, a, i) && Printed(d.out, d.boringSkipped, words, inspect, a)
    {
      ReadableAt(memory, i);
      if memory[i].Fault? {
        d.FlushAll(i, words, inspect, a);
        DumpIs(memory, inspect, Output(d.out, d.boringSkipped));
        return d.out + [Truncated(Off(i))];
      }
      a := d.Slot(memory[i].word, inspect, i, words, a);
    }
    d.FlushAll(|memory|, words, inspect, a);
    DumpIs(memory, inspect, Output(d.out, d.boringSkipped));
    lines := d.out;
    if d.boringSkipped > 0 { lines := lines + [Omitted(d.boringSkipped)]; }
  }

  // ----- Every slot is accounted for -----

  const MAX_SLOTS: nat := 0x2000_0000

  /** Slots `a` to `e`, all of one class. */
  function Range(a: nat, e: nat, c: Class): (r: seq<(nat, Class)>)
    decreases e - a
  {
    if e <= a then [] else [(a, c)] + Range(a + 1, e, c)
  }

  /** The slots that a line claims, read off its offsets. */
  function Covered(line: Line): seq<(nat, Class)> {
    match line
    case SlotLine(off, _) => [(off / 8, Shown)]
    case NullLine(at) => [(at / 8, Null)]
    case NullRun(first, last, _) => Range(first / 8, last / 8 + 1, Null)
    case AsciiLine(start, end, _) => Range(start / 8, end / 8 + 1, Ascii)
    case _ => []
  }

  function CoveredAll(lines: seq<Line>): seq<(nat, Class)> {
    if lines == [] then [] else Covered(lines[0]) + CoveredAll(lines[1..])
  }

  /** The count in a line of zeroed slots is theirs, and a string is the printable text of its
      slots, cut at the buffer's size. */
  predicate Truthful(words: seq<Word>, line: Line) {
    match line
    case SlotLine(off, w) => off / 8 < |words| && words[off / 8] == w
    case NullRun(first, last, count) => last / 8 - first / 8 + 1 == count
    case AsciiLine(start, end, text) => start / 8 <= end / 8 < |words| && text == Cap(Text(words, start / 8, end / 8 + 1))
    case _ => true
  }

  /** In order, the slots from `i` on that deserve a line, with their classes. */
  function Kept(words: seq<Word>, inspect: Inspect, i: nat): seq<(nat, Class)>
    requires i <= |words|
    decreases |words| - i
  {
    if i == |words| then []
    else
      var c := ClassOf(words, inspect, i);
      (if c == Boring then [] else [(i, c)]) + Kept(words, inspect, i + 1)
  }

  function BoringFrom(words: seq<Word>, inspect: Inspect, i: nat): nat
    requires i <= |words|
    decreases |words| - i
  {
    if i == |words| then 0
    else (if ClassOf(words, inspect, i) == Boring then 1 else 0) + BoringFrom(words, inspect, i + 1)
  }

  /** Slot `i` does not finish a string that began before it. */
  predicate Fresh(words: seq<Word>, i: nat) {
    0 < i < |words| ==> !(Full(words[i - 1]) && Term(words[i]))
  }

  predicate AllOf(words: seq<Word>, inspect: Inspect, a: nat, e: nat, c: Class) {
    e <= |words| && forall k :: a <= k < e ==> ClassOf(words, inspect, k) == c
  }

  lemma {:induction false} AsciiEndMeans(words: seq<Word>, inspect: Inspect, i: nat)
    requires 0 < i <= |words| && Full(words[i - 1])
    ensures AllOf(words, inspect, i, AsciiEnd(words, i), Ascii) && Fresh(words, AsciiEnd(words, i))
    decreases |words| - i
  {
    if i < |words| && Full(words[i]) { AsciiEndMeans(words, inspect, i + 1); }
  }

  lemma {:induction false} NullEndMeans(words: seq<Word>, inspect: Inspect, i: nat)
    requires 0 < i <= |words| && Zero(words[i - 1])
    ensures AllOf(words, inspect, i, NullEnd(words, i), Null) && Fresh(words, NullEnd(words, i))
    decreases |words| - i
  {
    ZeroIsNotText(words[i - 1]);
    if i < |words| && Zero(words[i]) {
      ZeroIsNotText(words[i]);
      NullEndMeans(words, inspect, i + 1);
    }
  }

  lemma {:induction false} KeptRange(words: seq<Word>, inspect: Inspect, a: nat, e: nat, c: Class)
    requires a <= e && AllOf(words, inspect, a, e, c) && c != Boring
    ensures Kept(words, inspect, a) == Range(a, e, c) + Kept(words, inspect, e)
    ensures BoringFrom(words, inspect, a) == BoringFrom(words, inspect, e)
    decreases e - a
  {
    if a < e {
      KeptRange(words, inspect, a + 1, e, c);
      var rest, more := Range(a + 1, e, c), Kept(words, inspect, e);
      assert [(a, c)] + (rest + more) == [(a, c)] + rest + more;
    }
  }

  lemma OffIsExact(i: nat)
    requires i < MAX_SLOTS
    ensures Off(i) == 8 * i && Off(i) / 8 == i
  {
  }

  lemma {:induction false} CoveredConcat(a: seq<Line>, b: seq<Line>)
    ensures CoveredAll(a + b) == CoveredAll(a) + CoveredAll(b)
  {
    if a == [] {
      assert a + b == b;
    } else {
      assert (a + b)[1..] == a[1..] + b;
      CoveredConcat(a[1..], b);
    }
  }

  lemma NullLinesCover(words: seq<Word>, a: nat, e: nat)
    requires a < e <= MAX_SLOTS
    ensures CoveredAll(NullLines(a, e)) == Range(a, e, Null)
    ensures forall line :: line in NullLines(a, e) ==> Truthful(words, line)
  {
    OffIsExact(a);
    OffIsExact(e - 1);
    if e == a + 2 {
      CoveredConcat([NullLine(Off(a))], [NullLine(Off(a + 1))]);
      assert NullLines(a, e) == [NullLine(Off(a))] + [NullLine(Off(a + 1))];
      assert Range(a + 1, e, Null) == [(a + 1, Null)] + Range(e, e, Null);
    }
  }

  /** These lines and this omitted count are right for slots `i` to `next`. */
  ghost predicate Covers(words: seq<Word>, inspect: Inspect, i: nat, lines: seq<Line>, skipped: nat, next: nat) {
    && i <= next <= |words|
    && Kept(words, inspect, i) == CoveredAll(lines) + Kept(words, inspect, next)
    && BoringFrom(words, inspect, i) == skipped + BoringFrom(words, inspect, next)
    && Fresh(words, next) && forall line :: line in lines ==> Truthful(words, line)
  }

  lemma OneLineCovers(words: seq<Word>, inspect: Inspect, i: nat, line: Line, next: nat, c: Class)
    requires i <= next && AllOf(words, inspect, i, next, c) && c != Boring
    requires CoveredAll([line]) == Range(i, next, c) && Fresh(words, next) && Truthful(words, line)
    ensures Covers(words, inspect, i, [line], 0, next)
  {
    KeptRange(words, inspect, i, next, c);
  }

  lemma StringCovers(words: seq<Word>, inspect: Inspect, i: nat, e: nat)
    requires i < |words| <= MAX_SLOTS && Full(words[i]) && e == AsciiEnd(words, i + 1)
    ensures Covers(words, inspect, i, [AsciiLine(Off(i), Off(e - 1), Cap(Text(words, i, e)))], 0, e)
  {
    AsciiEndMeans(words, inspect, i + 1);
    StringLineCovers(words, inspect, i, e);
  }

  lemma StringLineCovers(words: seq<Word>, inspect: Inspect, i: nat, e: nat)
    requires i < e <= |words| <= MAX_SLOTS && AllOf(words, inspect, i, e, Ascii) && Fresh(words, e)
    ensures Covers(words, inspect, i, [AsciiLine(Off(i), Off(e - 1), Cap(Text(words, i, e)))], 0, e)
  {
    StringLine(words, i, e);
    OneLineCovers(words, inspect, i, AsciiLine(Off(i), Off(e - 1), Cap(Text(words, i, e))), e, Ascii);
  }

  lemma StringLine(words: seq<Word>, i: nat, e: nat)
    requires i < e <= |words| <= MAX_SLOTS
    ensures var line := AsciiLine(Off(i), Off(e - 1), Cap(Text(words, i, e)));
      Truthful(words, line) && CoveredAll([line]) == Range(i, e, Ascii)
  {
    var text := Cap(Text(words, i, e));
    LineOffsets(i, e, text);
    assert Truthful(words, AsciiLine(Off(i), Off(e - 1), text));
  }

  lemma LineOffsets(i: nat, e: nat, text: string)
    requires i < e <= MAX_SLOTS
    ensures Off(i) / 8 == i && Off(e - 1) / 8 + 1 == e
    ensures CoveredAll([AsciiLine(Off(i), Off(e - 1), text)]) == Range(i, e, Ascii)
  {
    OffIsExact(i);
    OffIsExact(e - 1);
  }

  lemma NullsCover(words: seq<Word>, inspect: Inspect, i: nat)
    requires i < |words| <= MAX_SLOTS && Zero(words[i])
    ensures var e := NullEnd(words, i + 1); Covers(words, inspect, i, NullLines(i, e), 0, e)
  {
    var e := NullEnd(words, i + 1);
    ZeroIsNotText(words[i]);
    NullEndMeans(words, inspect, i + 1);
    KeptRange(words, inspect, i, e, Null);
    NullLinesCover(words, i, e);
  }

  lemma PlainCovers(words: seq<Word>, inspect: Inspect, i: nat)
    requires i < |words| <= MAX_SLOTS && Fresh(words, i) && !Full(words[i]) && !Zero(words[i])
    ensures if inspect(words[i]) == OtherData then Covers(words, inspect, i, [], 1, i + 1)
            else Covers(words, inspect, i, [SlotLine(Off(i), words[i])], 0, i + 1)
  {
    OffIsExact(i);
  }

  /** A segment's lines cover its slots. */
  lemma SegmentCovers(words: seq<Word>, inspect: Inspect, i: nat)
    requires i < |words| <= MAX_SLOTS && Fresh(words, i)
    ensures var s := Segment(words, inspect, i); Covers(words, inspect, i, s.0, s.1, s.2)
  {
    if Full(words[i]) {
      var e := AsciiEnd(words, i + 1);
      FullSegment(words, inspect, i, e);
      StringCovers(words, inspect, i, e);
    } else if Zero(words[i]) {
      ZeroSegmentIs(words, inspect, i);
      NullsCover(words, inspect, i);
    } else {
      PlainSegmentIs(words, inspect, i);
      PlainCovers(words, inspect, i);
    }
  }

  lemma ZeroSegmentIs(words: seq<Word>, inspect: Inspect, i: nat)
    requires i < |words| && Zero(words[i])
    ensures var e := NullEnd(words, i + 1); Segment(words, inspect, i) == (NullLines(i, e), 0, e)
  {
    ZeroIsNotText(words[i]);
  }

  lemma PlainSegmentIs(words: seq<Word>, inspect: Inspect, i: nat)
    requires i < |words| && !Full(words[i]) && !Zero(words[i])
    ensures Segment(words, inspect, i)
         == if inspect(words[i]) == OtherData then ([], 1, i + 1) else ([SlotLine(Off(i), words[i])], 0, i + 1)
  {
  }

  /** The printed lines and the omitted count partition the slots, in order: each slot stands in
      exactly the lines its class calls for, and the rest are the omitted ones. */
  lemma {:induction false} LinesPartitionSlots(words: seq<Word>, inspect: Inspect, i: nat)
    requires i <= |words| <= MAX_SLOTS && Fresh(words, i)
    ensures CoveredAll(Emit(words, inspect, i).lines) == Kept(words, inspect, i)
    ensures Emit(words, inspect, i).omitted == BoringFrom(words, inspect, i)
    ensures forall line :: line in Emit(words, inspect, i).lines ==> Truthful(words, line)
    decreases |words| - i
  {
    if i < |words| {
      var (lines, skipped, next) := Segment(words, inspect, i);
      SegmentCovers(words, inspect, i);
      LinesPartitionSlots(words, inspect, next);
      CoveredConcat(lines, Emit(words, inspect, next).lines);
    }
  }

  // ----- Runs are maximal -----

  /** Text words: eight characters from space to tilde, or one to seven and then a NUL. */
  lemma TextWords(w: Word)
    ensures Full(w) <==> forall i :: 0 <= i < 8 ==> 32 <= w[i] <= 126
    ensures Term(w) <==> exists n :: 1 <= n < 8 && w[n] == 0 && forall i :: 0 <= i < n ==> 32 <= w[i] <= 126
  {
    var n := PrintableLen(w);
    if Term(w) { assert 1 <= n < 8 && w[n] == 0; }
    forall m | 1 <= m < 8 && w[m] == 0 && forall i :: 0 <= i < m ==> 32 <= w[i] <= 126 ensures m == n {
      assert !Printable(w[m]);
    }
  }

  predicate ThreeZeros(words: seq<Word>, j: int) {
    0 <= j && j + 3 <= |words| && Zero(words[j]) && Zero(words[j + 1]) && Zero(words[j + 2])
  }

  /** A string starts with a full text word that no full text word precedes, goes on through full ones,
      and ends with the last of them or the one word that ends it; a run of zeroed slots has three or
      more and no neighbour; fewer stand on lines of their own. */
  ghost predicate Maximal(words: seq<Word>, line: Line) {
    match line
    case AsciiLine(start, end, _) => TextRun(words, start / 8, end / 8)
    case NullRun(first, last, _) => ZeroRun(words, first / 8, last / 8)
    case NullLine(at) => at / 8 < |words| && Zero(words[at / 8]) && forall j :: at / 8 - 2 <= j <= at / 8 ==> !ThreeZeros(words, j)
    case _ => true
  }

  predicate TextRun(words: seq<Word>, a: nat, e: nat) {
    && a <= e < |words| && AllFull(words, a, e) && Full(words[a]) && (Full(words[e]) || Term(words[e]))
    && (a > 0 ==> !Full(words[a - 1]))
    && (Full(words[e]) && e + 1 < |words| ==> !Full(words[e + 1]) && !Term(words[e + 1]))
  }

  predicate ZeroRun(words: seq<Word>, a: nat, e: nat) {
    && a + 2 <= e < |words| && AllZero(words, a, e + 1)
    && (a > 0 ==> !Zero(words[a - 1])) && (e + 1 < |words| ==> !Zero(words[e + 1]))
  }

  /** No run goes on across the start of slot `i`. */
  predicate Starts(words: seq<Word>, i: nat) {
    0 < i < |words| ==>
      && !(Full(words[i - 1]) && (Full(words[i]) || Term(words[i])))
      && !(Zero(words[i - 1]) && Zero(words[i]))
  }

  lemma {:induction false} AsciiEndStops(words: seq<Word>, i: nat)
    requires 0 < i <= |words| && Full(words[i - 1])
    ensures var e := AsciiEnd(words, i);
      && AllFull(words, i, e - 1) && (Full(words[e - 1]) || Term(words[e - 1])) && Starts(words, e)
    decreases |words| - i
  {
    ZeroIsNot(words[i - 1]);
    if i < |words| {
      ZeroIsNot(words[i]);
      if Full(words[i]) { AsciiEndStops(words, i + 1); }
    }
  }

  lemma ZeroIsNot(w: Word)
    ensures Full(w) || Term(w) ==> !Zero(w)
  {
    if Zero(w) { ZeroIsNotText(w); }
  }

  lemma {:induction false} NullEndStops(words: seq<Word>, i: nat)
    requires 0 < i <= |words| && Zero(words[i - 1])
    ensures var e := NullEnd(words, i);
      AllZero(words, i, e) && Zero(words[e - 1]) && (e < |words| ==> !Zero(words[e]))
    decreases |words| - i
  {
    if i < |words| && Zero(words[i]) { NullEndStops(words, i + 1); }
  }

  lemma TextLine(words: seq<Word>, a: nat, e: nat, text: string)
    requires TextRun(words, a, e) && |words| <= MAX_SLOTS
    ensures Maximal(words, AsciiLine(Off(a), Off(e), text))
  {
    OffIsExact(a);
    OffIsExact(e);
  }

  lemma StringIsMaximal(words: seq<Word>, i: nat)
    requires i < |words| && Starts(words, i) && Full(words[i])
    ensures var e := AsciiEnd(words, i + 1); TextRun(words, i, e - 1) && Starts(words, e)
  {
    AsciiEndStops(words, i + 1);
  }

  /** A whole run of zeroed slots. */
  predicate WholeRun(words: seq<Word>, a: nat, e: nat) {
    a < e && AllZero(words, a, e) && (a > 0 ==> !Zero(words[a - 1])) && (e < |words| ==> !Zero(words[e]))
  }

  lemma ShortRun(words: seq<Word>, a: nat, e: nat, k: nat)
    requires WholeRun(words, a, e) && e <= a + 2 && a <= k < e && |words| <= MAX_SLOTS
    ensures Maximal(words, NullLine(Off(k)))
  {
    OffIsExact(k);
    assert Zero(words[k]);
    forall j | k - 2 <= j <= k ensures !ThreeZeros(words, j) {
      if 0 <= j && j + 3 <= |words| {
        var m := if j < a then a - 1 else e;
        assert m == j || m == j + 1 || m == j + 2;
        assert !Zero(words[m]);
      }
    }
  }

  lemma LongRun(words: seq<Word>, a: nat, e: nat)
    requires WholeRun(words, a, e) && e >= a + 3 && |words| <= MAX_SLOTS
    ensures Maximal(words, NullRun(Off(a), Off(e - 1), e - a))
  {
    OffIsExact(a);
    OffIsExact(e - 1);
  }

  lemma RunLines(words: seq<Word>, a: nat, e: nat)
    requires WholeRun(words, a, e) && |words| <= MAX_SLOTS
    ensures forall line :: line in NullLines(a, e) ==> Maximal(words, line)
  {
    if e >= a + 3 {
      LongRun(words, a, e);
    } else {
      ShortRun(words, a, e, a);
      if e == a + 2 { ShortRun(words, a, e, a + 1); }
    }
  }

  lemma NullsAreMaximal(words: seq<Word>, i: nat)
    requires i < |words| && Starts(words, i) && Zero(words[i])
    ensures var e := NullEnd(words, i + 1); WholeRun(words, i, e) && Starts(words, e)
  {
    NullEndStops(words, i + 1);
    ZeroIsNotText(words[NullEnd(words, i + 1) - 1]);
  }

  ghost predicate AllMaximal(words: seq<Word>, lines: seq<Line>) {
    forall line :: line in lines ==> Maximal(words, line)
  }

  lemma StringSegment(words: seq<Word>, inspect: Inspect, i: nat)
    requires i < |words| <= MAX_SLOTS && Starts(words, i) && Full(words[i])
    ensures AllMaximal(words, Segment(words, inspect, i).0) && Starts(words, Segment(words, inspect, i).2)
  {
    var e := AsciiEnd(words, i + 1);
    FullSegment(words, inspect, i, e);
    StringIsMaximal(words, i);
    TextLine(words, i, e - 1, Cap(Text(words, i, e)));
  }

  lemma ZeroSegment(words: seq<Word>, inspect: Inspect, i: nat)
    requires i < |words| <= MAX_SLOTS && Starts(words, i) && Zero(words[i])
    ensures AllMaximal(words, Segment(words, inspect, i).0) && Starts(words, Segment(words, inspect, i).2)
  {
    var e := NullEnd(words, i + 1);
    NullsAreMaximal(words, i);
    ZeroSegmentIs(words, inspect, i);
    RunLines(words, i, e);
  }

  lemma PlainSegment(words: seq<Word>, inspect: Inspect, i: nat)
    requires i < |words| && !Full(words[i]) && !Zero(words[i])
    ensures AllMaximal(words, Segment(words, inspect, i).0) && Starts(words, Segment(words, inspect, i).2)
  {
  }

  lemma {:induction false} LinesAreMaximal(words: seq<Word>, inspect: Inspect, i: nat)
    requires i <= |words| <= MAX_SLOTS && Starts(words, i)
    ensures AllMaximal(words, Emit(words, inspect, i).lines)
    decreases |words| - i
  {
    if i < |words| {
      if Full(words[i]) {
        StringSegment(words, inspect, i);
      } else if Zero(words[i]) {
        ZeroSegment(words, inspect, i);
      } else {
        PlainSegment(words, inspect, i);
      }
      LinesAreMaximal(words, inspect, Segment(words, inspect, i).2);
    }
  }

  lemma {:induction false} TextLength(words: seq<Word>, a: nat, e: nat)
    requires a < e <= |words| && AllFull(words, a, e - 1)
    ensures |Text(words, a, e)| == 8 * (e - 1 - a) + PrintableLen(words[e - 1])
    decreases e
  {
    if a < e - 1 { TextLength(words, a, e - 1); }
  }

  /** The text of a string, byte by byte. */
  lemma {:induction false} TextIsBytes(words: seq<Word>, a: nat, e: nat, j: nat, b: nat)
    requires a <= j < e <= |words| && AllFull(words, a, e - 1) && b < PrintableLen(words[j])
    ensures 8 * (j - a) + b < |Text(words, a, e)| && Text(words, a, e)[8 * (j - a) + b] == words[j][b] as char
    decreases e
  {
    var before, last := Text(words, a, e - 1), Chars(words[e - 1]);
    assert |before| == 8 * (e - 1 - a) by {
      if a < e - 1 { TextLength(words, a, e - 1); }
    }
    assert Text(words, a, e) == before + last;
    if j < e - 1 {
      TextIsBytes(words, a, e - 1, j, b);
    } else {
      assert (before + last)[|before| + b] == last[b];
    }
  }

  /** A string is cut after 192 characters. */
  lemma CapMeans(t: string)
    ensures Cap(t) <= t && |Cap(t)| == if |t| < 192 then |t| else 192
  {
  }

  // ----- What a dump accounts for -----

  /** How a dump ends: with the offset of the first slot that cannot be read, or with the number of slots
      that got no line, if any. */
  lemma DumpEnds(memory: seq<Read>, inspect: Inspect)
    requires |memory| <= MAX_SLOTS
    ensures var n, omitted := |Readable(memory)|, BoringFrom(Readable(memory), inspect, 0);
      && (n < |memory| ==> memory[n].Fault?)
      && Dump(memory, inspect) == Emit(Readable(memory), inspect, 0).lines
           + if n < |memory| then [Truncated(8 * n)] else if omitted > 0 then [Omitted(omitted)] else []
  {
    LinesPartitionSlots(Readable(memory), inspect, 0);
    if |Readable(memory)| < |memory| { OffIsExact(|Readable(memory)|); }
  }

  function OmittedIn(lines: seq<Line>): nat {
    if lines == [] then 0 else (if lines[0].Omitted? then lines[0].slots else 0) + OmittedIn(lines[1..])
  }

  lemma {:induction false} OmittedConcat(a: seq<Line>, b: seq<Line>)
    requires forall line :: line in a ==> !line.Omitted?
    ensures OmittedIn(a + b) == OmittedIn(b)
  {
    if a == [] {
      assert a + b == b;
    } else {
      assert (a + b)[1..] == a[1..] + b;
      OmittedConcat(a[1..], b);
    }
  }

  lemma {:induction false} EmitOmitsNothing(words: seq<Word>, inspect: Inspect, i: nat)
    requires i <= |words|
    ensures forall line :: line in Emit(words, inspect, i).lines ==> !line.Omitted? && !line.Truncated?
    decreases |words| - i
  {
    if i < |words| { EmitOmitsNothing(words, inspect, Segment(words, inspect, i).2); }
  }

  lemma {:induction false} KeptAndBoring(words: seq<Word>, inspect: Inspect, i: nat)
    requires i <= |words|
    ensures |Kept(words, inspect, i)| + BoringFrom(words, inspect, i) == |words| - i
    decreases |words| - i
  {
    if i < |words| { KeptAndBoring(words, inspect, i + 1); }
  }

  /** Lines and omitted count together account for every slot read exactly when there was no read
      fault or nothing had been omitted before it: a dump cut short by a fault does not say how
      many slots it left out. */
  lemma DumpAccountsForAll(memory: seq<Read>, inspect: Inspect)
    requires |memory| <= MAX_SLOTS
    ensures var words, lines := Readable(memory), Dump(memory, inspect);
      && CoveredAll(lines) == Kept(words, inspect, 0)
      && (|CoveredAll(lines)| + OmittedIn(lines) == |words|
          <==> |words| == |memory| || BoringFrom(words, inspect, 0) == 0)
  {
    var words := Readable(memory);
    var emitted := Emit(words, inspect, 0).lines;
    var last := if |words| < |memory| then [Truncated(Off(|words|))]
                else if Emit(words, inspect, 0).omitted > 0 then [Omitted(Emit(words, inspect, 0).omitted)]
                else [];
    LinesPartitionSlots(words, inspect, 0);
    KeptAndBoring(words, inspect, 0);
    EmitOmitsNothing(words, inspect, 0);
    CoveredConcat(emitted, last);
    OmittedConcat(emitted, last);
    if last != [] {
      assert last == [last[0]] && last[1..] == [];
    }
    assert CoveredAll(emitted) + [] == CoveredAll(emitted);
  }
}
