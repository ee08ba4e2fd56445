/** C strings and the case of ASCII letters. */
module AsciiText {

  /** The characters before the NUL. */
  type CString = s: string | '\0' !in s witness []

  function LowerChar(c: char): char {
    if 'A' <= c <= 'Z' then c - 'A' + 'a' else c
  }

  function Lower(s: string): string {
    seq(|s|, i requires 0 <= i < |s| => LowerChar(s[i]))
  }

  /** `c` and `d` are the same, or the two cases of one letter, which are 32 apart. */
  predicate SameLetter(c: char, d: char) {
    || c == d
    || ('A' <= c <= 'Z' && d as int == c as int + 32)
    || ('A' <= d <= 'Z' && c as int == d as int + 32)
  }

  /** Folding identifies exactly the two cases of a letter, and leaves no capital. */
  lemma FoldsLetters(c: char, d: char)
    ensures LowerChar(c) == LowerChar(d) <==> SameLetter(c, d)
    ensures !('A' <= LowerChar(c) <= 'Z')
  {
  }

  lemma LowerIsPointwise(s: string, t: string)
    ensures Lower(s) == Lower(t) <==> |s| == |t| && forall i :: 0 <= i < |s| ==> SameLetter(s[i], t[i])
  {
    if Lower(s) == Lower(t) {
      assert |Lower(s)| == |Lower(t)|;
      forall i | 0 <= i < |s| ensures SameLetter(s[i], t[i]) {
        assert Lower(s)[i] == Lower(t)[i];
        FoldsLetters(s[i], t[i]);
      }
    }
    if |s| == |t| && forall i :: 0 <= i < |s| ==> SameLetter(s[i], t[i]) {
      forall i | 0 <= i < |s| ensures Lower(s)[i] == Lower(t)[i] {
        FoldsLetters(s[i], t[i]);
      }
    }
  }
}
