/** Reading the search-words file (`loadSearchWords`) and choosing one word
    (`selectSearchWord`). The file is given as the sequence of lines
    `readLine` delivered before end of file or a read error, and the random
    choice as the index `rand.nextInt` drew. */
module SearchWords {
  import opened JavaText

  /** The search word used when the file yields no words. */
  const DEFAULT_SEARCH: JString := [110, 97, 116, 117, 114, 101]  // "nature"

  /** The comment marker `//`. */
  const COMMENT: JString := [SLASH, SLASH]

  /** `line.toLowerCase().trim()`: no upper-case ASCII letter is left, and
      neither end is a unit at or below U+0020. */
  function Normalize(line: JString): (w: JString)
    ensures w == [] || (!IsTrimmable(w[0]) && !IsTrimmable(w[|w| - 1]))
    ensures forall m :: 0 <= m < |w| ==> !IsUpperAscii(w[m])
  {
    var low := ToLower(line);
    TrimSlices(low);
    Trim(low)
  }

  /** A normalised line is kept when it is not blank and not a comment. */
  predicate IsSearchWord(w: JString)
  {
    w != [] && !StartsWith(w, COMMENT)
  }

  /** The words of a file: every normalised line that is a search word, in
      file order, so at most one word per line. */
  function FilterWords(lines: seq<JString>): (ws: seq<JString>)
    ensures |ws| <= |lines|
    ensures forall k :: 0 <= k < |ws| ==> IsSearchWord(ws[k])
  {
    if |lines| == 0 then []
    else
      var w := Normalize(lines[|lines| - 1]);
      FilterWords(lines[..|lines| - 1]) + if IsSearchWord(w) then [w] else []
  }

  /** `loadSearchWords`: reads the lines one at a time, lower-cases and trims
      each, skips blank and comment lines and appends the rest. */
  method LoadSearchWords(lines: seq<JString>) returns (words: seq<JString>)
    ensures words == FilterWords(lines)
  {
    words := [];
    var i := 0;
    while i < |lines|
      invariant 0 <= i <= |lines|
      invariant words == FilterWords(lines[..i])
    {
      var line := lines[i];
      assert lines[..i + 1][..i] == lines[..i];
      i := i + 1;
      line := Trim(ToLower(line));
      assert line == Normalize(lines[i - 1]);
      if |line| == 0 {
        continue;
      }
      if StartsWith(line, COMMENT) {
        continue;
      }
      words := words + [line];
    }
    assert lines[..i] == lines;
  }

  /** `selectSearchWord`: the default word when the file yields no words,
      otherwise the word at the drawn index. Either way the result is a
      search word. */
  method SelectSearchWord(lines: seq<JString>, drawn: nat) returns (word: JString)
    requires FilterWords(lines) == [] || drawn < |FilterWords(lines)|
    ensures FilterWords(lines) == [] ==> word == DEFAULT_SEARCH
    ensures FilterWords(lines) != [] ==> word == FilterWords(lines)[drawn]
    ensures IsSearchWord(word)
  {
    var words := LoadSearchWords(lines);
    if |words| == 0 {
      assert DEFAULT_SEARCH[0] != SLASH;
      return DEFAULT_SEARCH;
    }
    EveryWordQualifies(lines);
    word := words[drawn];
  }

  // ---------------------------------------------------------------------
  // Lemmas about the filter

  /** Filtering a file is filtering its two halves: the words keep the order
      of the lines they come from. */
  lemma {:induction false} FilterWordsAppend(a: seq<JString>, b: seq<JString>)
    decreases |b|
    ensures FilterWords(a + b) == FilterWords(a) + FilterWords(b)
  {
    if |b| == 0 {
      assert a + b == a;
    } else {
      var b' := b[..|b| - 1];
      assert (a + b)[..|a + b| - 1] == a + b';
      assert (a + b)[|a + b| - 1] == b[|b| - 1];
      FilterWordsAppend(a, b');
    }
  }

  /** Every word is a non-blank, non-comment normalisation of some line. */
  lemma {:induction false} EveryWordQualifies(lines: seq<JString>)
    ensures forall k :: 0 <= k < |FilterWords(lines)| ==>
      IsSearchWord(FilterWords(lines)[k]) &&
      exists j :: 0 <= j < |lines| && FilterWords(lines)[k] == Normalize(lines[j])
  {
    if |lines| > 0 {
      var init := lines[..|lines| - 1];
      EveryWordQualifies(init);
      var ws := FilterWords(lines);
      var ws' := FilterWords(init);
      var last := Normalize(lines[|lines| - 1]);
      var tail := if IsSearchWord(last) then [last] else [];
      assert ws == ws' + tail;
      forall k | 0 <= k < |ws|
        ensures IsSearchWord(ws[k]) && exists j :: 0 <= j < |lines| && ws[k] == Normalize(lines[j])
      {
        if k < |ws'| {
          assert ws[k] == ws'[k];
          var j :| 0 <= j < |init| && ws'[k] == Normalize(init[j]);
          assert lines[j] == init[j];
        } else {
          assert ws[k] == last;
        }
      }
    }
  }

  /** Every line whose normalisation is a search word contributes that word. */
  lemma {:induction false} EveryQualifyingLineKept(lines: seq<JString>)
    ensures forall j :: 0 <= j < |lines| && IsSearchWord(Normalize(lines[j])) ==>
      Normalize(lines[j]) in FilterWords(lines)
  {
    if |lines| > 0 {
      var init := lines[..|lines| - 1];
      var last := Normalize(lines[|lines| - 1]);
      EveryQualifyingLineKept(init);
      var tail := if IsSearchWord(last) then [last] else [];
      assert FilterWords(lines) == FilterWords(init) + tail;
      forall j | 0 <= j < |lines| && IsSearchWord(Normalize(lines[j]))
        ensures Normalize(lines[j]) in FilterWords(lines)
      {
        if j < |init| {
          assert lines[j] == init[j];
          assert Normalize(init[j]) in FilterWords(init);
        } else {
          assert j == |lines| - 1;
          assert last in tail;
        }
      }
    }
  }

  /** A kept word contains no upper-case ASCII letter and has no unit at or
      below U+0020 at either end. */
  lemma WordsAreLowerAndTrimmed(lines: seq<JString>)
    ensures forall k :: 0 <= k < |FilterWords(lines)| ==>
      var w := FilterWords(lines)[k];
      w != [] && !IsTrimmable(w[0]) && !IsTrimmable(w[|w| - 1]) &&
      forall m :: 0 <= m < |w| ==> !IsUpperAscii(w[m])
  {
    EveryWordQualifies(lines);
    var ws := FilterWords(lines);
    forall k | 0 <= k < |ws|
      ensures ws[k] != [] && !IsTrimmable(ws[k][0]) && !IsTrimmable(ws[k][|ws[k]| - 1]) &&
        forall m :: 0 <= m < |ws[k]| ==> !IsUpperAscii(ws[k][m])
    {
      var j :| 0 <= j < |lines| && ws[k] == Normalize(lines[j]);
    }
  }

  /** A line is skipped as blank exactly when every unit of it is at or below U+0020. */
  lemma BlankLineIff(line: JString)
    ensures Normalize(line) == [] <==> AllTrimmable(line)
  {
    var low := ToLower(line);
    TrimEmptyIff(low);
    assert AllTrimmable(low) <==> AllTrimmable(line) by {
      forall k | 0 <= k < |line| ensures IsTrimmable(low[k]) <==> IsTrimmable(line[k]) {
      }
    }
  }
}
