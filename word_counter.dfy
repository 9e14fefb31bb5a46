/** Counting the words of a post's content: a word is a maximal run of
    non-whitespace characters. */
module WordCounter {

  predicate IsSpace(c: char)
  {
    c == ' ' || c == '\t' || c == '\n' || c == '\r'
  }

  /** True when the text holds no word at all. */
  predicate Blank(s: string)
  {
    forall i :: 0 <= i < |s| ==> IsSpace(s[i])
  }

  /** Length of the run of non-whitespace characters at the head of `s`. */
  function WordLength(s: string): (n: nat)
    ensures n <= |s|
    ensures forall i :: 0 <= i < n ==> !IsSpace(s[i])
    ensures n < |s| ==> IsSpace(s[n])
  {
    if s == [] || IsSpace(s[0]) then 0 else 1 + WordLength(s[1..])
  }

  /** The words of `s`, left to right. */
  function Words(s: string): (ws: seq<string>)
    ensures forall k :: 0 <= k < |ws| ==> ws[k] != [] && !exists i :: 0 <= i < |ws[k]| && IsSpace(ws[k][i])
    decreases |s|
  {
    if s == [] then []
    else if IsSpace(s[0]) then Words(s[1..])
    else
      var n := WordLength(s);
      [s[..n]] + Words(s[n..])
  }

  function WordCount(s: string): nat
  {
    |Words(s)|
  }

  /** Reference count: the number of positions where a word starts, that is a
      non-whitespace character at the head of `s` (when `afterSpace`) or right
      after a whitespace character. */
  function WordStarts(s: string, afterSpace: bool): nat
  {
    if s == [] then 0
    else (if afterSpace && !IsSpace(s[0]) then 1 else 0) + WordStarts(s[1..], IsSpace(s[0]))
  }

  /** Stepping over a whole word contributes exactly one start (if a word may
      start there) and leaves the rest of the text after a non-space. */
  lemma {:induction false} SkipWord(s: string, afterSpace: bool)
    requires s != [] && !IsSpace(s[0])
    ensures WordStarts(s, afterSpace) == (if afterSpace then 1 else 0) + WordStarts(s[WordLength(s)..], false)
    decreases |s|
  {
    var t := s[1..];
    if t != [] && !IsSpace(t[0]) {
      SkipWord(t, false);
      assert t[WordLength(t)..] == s[WordLength(s)..];
    } else {
      assert WordLength(s) == 1;
    }
  }

  /** The word count is the number of word starts. */
  lemma {:induction false} WordCountIsWordStarts(s: string)
    ensures WordCount(s) == WordStarts(s, true)
    decreases |s|
  {
    if s == [] {
    } else if IsSpace(s[0]) {
      WordCountIsWordStarts(s[1..]);
    } else {
      var n := WordLength(s);
      SkipWord(s, true);
      WordCountIsWordStarts(s[n..]);
      var rest := s[n..];
      assert rest == [] || IsSpace(rest[0]);
      assert WordStarts(rest, false) == WordStarts(rest, true);
    }
  }

  /** Text has no word exactly when it is empty or all whitespace. */
  lemma {:induction false} WordCountZeroIffBlank(s: string)
    ensures WordCount(s) == 0 <==> Blank(s)
    decreases |s|
  {
    if s != [] && IsSpace(s[0]) {
      WordCountZeroIffBlank(s[1..]);
      assert Blank(s) <==> Blank(s[1..]) by {
        if Blank(s[1..]) {
          forall i | 0 <= i < |s| ensures IsSpace(s[i]) {
            if i > 0 { assert s[i] == s[1..][i - 1]; }
          }
        }
      }
    }
  }

  /** The counter's unit examples. */
  lemma WordCountExamples()
    ensures WordCount("") == 0
    ensures WordCount("      ") == 0
    ensures WordCount("hola") == 1
    ensures WordCount("hola hola") == 2
  {
  }
}
