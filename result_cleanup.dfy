/** The clean-up of a search result's description in `showResults`:
    `content.replaceAll("[^a-zA-Z0-9]", " ").replaceAll("\\s+", " ").trim()`. */
module ResultCleanup {
  import opened JavaText

  /** Membership in the regular-expression class `\s`: `[ \t\n\x0B\f\r]`. */
  predicate IsRegexSpace(c: Unit) { c == SPACE || 9 <= c <= 13 }

  /** The units the cleaned text may contain: `[a-zA-Z0-9 ]`. */
  predicate IsCleanUnit(c: Unit) { IsAlnumAscii(c) || c == SPACE }

  /** Units `k` and `k + 1` of `s` both belong to `\s`. */
  predicate DoubleSpaceAt(s: JString, k: int)
  {
    0 <= k < |s| - 1 && IsRegexSpace(s[k]) && IsRegexSpace(s[k + 1])
  }

  /** The alphanumeric units of `s`, in order. */
  function AlnumOf(s: JString): JString
  {
    if |s| == 0 then []
    else (if IsAlnumAscii(s[0]) then [s[0]] else []) + AlnumOf(s[1..])
  }

  /** `replaceAll("[^a-zA-Z0-9]", " ")`: every unit outside the class becomes a space. */
  function BlankOutNonAlnum(s: JString): (r: JString)
    ensures |r| == |s|
    ensures forall k :: 0 <= k < |s| ==> IsCleanUnit(r[k])
    ensures forall k :: 0 <= k < |s| && IsAlnumAscii(s[k]) ==> r[k] == s[k]
    ensures forall k :: 0 <= k < |s| && !IsAlnumAscii(s[k]) ==> r[k] == SPACE
  {
    seq(|s|, k requires 0 <= k < |s| => if IsAlnumAscii(s[k]) then s[k] else SPACE)
  }

  /** Skips the run of `\s` units at the front of `s`. */
  function SkipWhitespace(s: JString): (r: JString)
    ensures |r| <= |s| && r == s[|s| - |r|..]
    ensures r == [] || !IsRegexSpace(r[0])
    ensures forall k :: 0 <= k < |s| - |r| ==> IsRegexSpace(s[k])
  {
    if |s| > 0 && IsRegexSpace(s[0]) then SkipWhitespace(s[1..]) else s
  }

  /** `replaceAll("\\s+", " ")`: every maximal run of `\s` units becomes one
      space. The result starts with a space exactly when the input starts
      with a `\s` unit, otherwise with the input's first unit. */
  function CollapseWhitespace(s: JString): (r: JString)
    decreases |s|
    ensures |r| <= |s|
    ensures |s| > 0 ==> |r| > 0 && r[0] == (if IsRegexSpace(s[0]) then SPACE else s[0])
  {
    if |s| == 0 then []
    else if IsRegexSpace(s[0]) then [SPACE] + CollapseWhitespace(SkipWhitespace(s[1..]))
    else [s[0]] + CollapseWhitespace(s[1..])
  }

  /** Clean text: only `[a-zA-Z0-9 ]`, no space at either end, no two
      adjacent spaces (the only `\s` unit among clean units is the space). */
  predicate IsClean(s: JString)
  {
    && (forall k :: 0 <= k < |s| ==> IsCleanUnit(s[k]))
    && (s == [] || (s[0] != SPACE && s[|s| - 1] != SPACE))
    && (forall k :: 0 <= k < |s| - 1 ==> !DoubleSpaceAt(s, k))
  }

  // ---------------------------------------------------------------------
  // The reference: words joined by single spaces

  /** Length of the run of alphanumeric units at the front of `s`. */
  function AlnumRun(s: JString): (n: nat)
    ensures n <= |s|
    ensures forall k :: 0 <= k < n ==> IsAlnumAscii(s[k])
    ensures n < |s| ==> !IsAlnumAscii(s[n])
  {
    if |s| == 0 || !IsAlnumAscii(s[0]) then 0 else 1 + AlnumRun(s[1..])
  }

  /** A word: a non-empty string of `[a-zA-Z0-9]`. */
  predicate IsWord(w: JString)
  {
    w != [] && forall k :: 0 <= k < |w| ==> IsAlnumAscii(w[k])
  }

  /** The words of `s`: its maximal runs of alphanumeric units, in order. */
  function Words(s: JString): (ws: seq<JString>)
    decreases |s|
    ensures forall i :: 0 <= i < |ws| ==> IsWord(ws[i])
  {
    if |s| == 0 then []
    else if !IsAlnumAscii(s[0]) then Words(s[1..])
    else
      var n := AlnumRun(s);
      [s[..n]] + Words(s[n..])
  }

  /** Words joined by single spaces. */
  function JoinWords(ws: seq<JString>): JString
  {
    if |ws| == 0 then []
    else if |ws| == 1 then ws[0]
    else ws[0] + [SPACE] + JoinWords(ws[1..])
  }

  /** The whole clean-up chain. The result is the words of the input (its
      maximal runs of `[a-zA-Z0-9]`) joined by single spaces. So it holds only
      `[a-zA-Z0-9 ]`, has no space at either end and no two adjacent spaces,
      and its alphanumeric units are those of the input in the same order. */
  function CleanContent(content: JString): (r: JString)
    ensures r == JoinWords(Words(content))
    ensures IsClean(r)
    ensures AlnumOf(r) == AlnumOf(content)
  {
    CleanChainIsJoinedWords(content);
    var blanked := BlankOutNonAlnum(content);
    var collapsed := CollapseWhitespace(blanked);
    CollapseKeepsCleanUnits(blanked);
    CollapseNoDoubleSpace(blanked);
    AlnumOfBlankOut(content);
    AlnumOfCollapse(blanked);
    TrimOfCleanUnits(collapsed);
    TrimKeepsAlnum(collapsed);
    Trim(collapsed)
  }

  // ---------------------------------------------------------------------
  // Lemmas about the alphanumeric units

  /** The alphanumeric units of a concatenation are those of each part, in order. */
  lemma {:induction false} AlnumOfAppend(a: JString, b: JString)
    decreases |a|
    ensures AlnumOf(a + b) == AlnumOf(a) + AlnumOf(b)
  {
    if |a| == 0 {
      assert a + b == b;
    } else {
      assert (a + b)[1..] == a[1..] + b;
      AlnumOfAppend(a[1..], b);
    }
  }

  /** A string without alphanumeric units contributes none. */
  lemma {:induction false} AlnumOfNone(s: JString)
    requires forall k :: 0 <= k < |s| ==> !IsAlnumAscii(s[k])
    ensures AlnumOf(s) == []
  {
    if |s| > 0 {
      AlnumOfNone(s[1..]);
    }
  }

  /** Blanking out the non-alphanumeric units keeps the alphanumeric ones in order. */
  lemma {:induction false} AlnumOfBlankOut(s: JString)
    decreases |s|
    ensures AlnumOf(BlankOutNonAlnum(s)) == AlnumOf(s)
  {
    if |s| > 0 {
      AlnumOfBlankOut(s[1..]);
      assert BlankOutNonAlnum(s)[1..] == BlankOutNonAlnum(s[1..]);
    }
  }

  /** Collapsing whitespace keeps the alphanumeric units in order. */
  lemma {:induction false} AlnumOfCollapse(s: JString)
    decreases |s|
    ensures AlnumOf(CollapseWhitespace(s)) == AlnumOf(s)
  {
    if |s| == 0 {
    } else if IsRegexSpace(s[0]) {
      var r, rest := LeadingSpaceRun(s);
      CollapseRun(r, rest);
      AlnumOfCollapse(rest);
      AlnumOfNone(r);
      AlnumOfAppend(r, rest);
      var c := CollapseWhitespace(rest);
      assert ([SPACE] + c)[1..] == c;
    } else {
      AlnumOfCollapse(s[1..]);
    }
  }

  // ---------------------------------------------------------------------
  // Lemmas about the character set and the spacing

  /** After the collapse no two `\s` units are adjacent. */
  lemma {:induction false} CollapseNoDoubleSpace(s: JString)
    decreases |s|
    ensures forall k :: 0 <= k < |CollapseWhitespace(s)| - 1 ==> !DoubleSpaceAt(CollapseWhitespace(s), k)
  {
    if |s| > 0 {
      var t := if IsRegexSpace(s[0]) then SkipWhitespace(s[1..]) else s[1..];
      var c := CollapseWhitespace(t);
      var r := CollapseWhitespace(s);
      CollapseNoDoubleSpace(t);
      assert r == [r[0]] + c;
      assert IsRegexSpace(s[0]) && c != [] ==> !IsRegexSpace(c[0]);
      assert !IsRegexSpace(s[0]) ==> !IsRegexSpace(r[0]);
      forall k | 0 <= k < |r| - 1 ensures !DoubleSpaceAt(r, k) {
        if k > 0 {
          assert r[k] == c[k - 1] && r[k + 1] == c[k];
          assert !DoubleSpaceAt(c, k - 1);
        } else {
          assert r[1] == c[0];
        }
      }
    }
  }

  /** Collapsing text in `[a-zA-Z0-9 ]` leaves it in that class. */
  lemma {:induction false} CollapseKeepsCleanUnits(s: JString)
    decreases |s|
    requires forall k :: 0 <= k < |s| ==> IsCleanUnit(s[k])
    ensures forall k :: 0 <= k < |CollapseWhitespace(s)| ==> IsCleanUnit(CollapseWhitespace(s)[k])
  {
    if |s| == 0 {
    } else if IsRegexSpace(s[0]) {
      var rest := SkipWhitespace(s[1..]);
      assert forall k :: 0 <= k < |rest| ==> rest[k] == s[1..][|s| - 1 - |rest| + k];
      CollapseKeepsCleanUnits(rest);
    } else {
      CollapseKeepsCleanUnits(s[1..]);
    }
  }

  /** Cutting trimmable units off both ends removes no alphanumeric unit. */
  lemma AlnumOfTrimmedSlice(s: JString, a: nat, e: nat)
    requires a <= e <= |s|
    requires AllTrimmable(s[..a]) && AllTrimmable(s[e..])
    ensures AlnumOf(s[a..e]) == AlnumOf(s)
  {
    var cutFront := s[..a];
    var cutBack := s[e..];
    assert s[a..] == s[a..e] + cutBack;
    assert s == cutFront + s[a..];
    AlnumOfNone(cutFront);
    AlnumOfNone(cutBack);
    AlnumOfAppend(s[a..e], cutBack);
    AlnumOfAppend(cutFront, s[a..]);
  }

  /** `trim` cuts off only non-alphanumeric units. */
  lemma TrimKeepsAlnum(s: JString)
    ensures AlnumOf(Trim(s)) == AlnumOf(s)
  {
    var a := LeadingTrimmable(s);
    AlnumOfTrimmedSlice(s, a, a + |Trim(s)|);
  }

  /** A slice of text without two adjacent `\s` units has none either. */
  lemma SliceNoDoubleSpace(s: JString, a: nat, b: nat)
    requires a <= b <= |s|
    requires forall k :: 0 <= k < |s| - 1 ==> !DoubleSpaceAt(s, k)
    ensures forall k :: 0 <= k < b - a - 1 ==> !DoubleSpaceAt(s[a..b], k)
  {
    var t := s[a..b];
    forall k | 0 <= k < b - a - 1 ensures !DoubleSpaceAt(t, k) {
      assert t[k] == s[a + k] && t[k + 1] == s[a + k + 1];
      assert !DoubleSpaceAt(s, a + k);
    }
  }

  /** On `[a-zA-Z0-9 ]` text without two adjacent spaces, `trim` removes at
      most the spaces at the ends and leaves clean text. */
  lemma TrimOfCleanUnits(s: JString)
    requires forall k :: 0 <= k < |s| ==> IsCleanUnit(s[k])
    requires forall k :: 0 <= k < |s| - 1 ==> !DoubleSpaceAt(s, k)
    ensures IsClean(Trim(s))
  {
    var r := Trim(s);
    var a := LeadingTrimmable(s);
    SliceNoDoubleSpace(s, a, a + |r|);
    assert forall k :: 0 <= k < |r| ==> IsCleanUnit(r[k]);
  }

  // ---------------------------------------------------------------------
  // What the collapse does to each run

  /** Units outside `\s` pass through the collapse unchanged and in order. */
  lemma {:induction false} CollapseKeepsPrefix(w: JString, z: JString)
    decreases |w|
    requires forall k :: 0 <= k < |w| ==> !IsRegexSpace(w[k])
    ensures CollapseWhitespace(w + z) == w + CollapseWhitespace(z)
  {
    if |w| == 0 {
      assert w + z == z;
    } else {
      var v := w[1..];
      assert (w + z)[0] == w[0];
      assert (w + z)[1..] == v + z;
      assert CollapseWhitespace(w + z) == [w[0]] + CollapseWhitespace(v + z);
      CollapseKeepsPrefix(v, z);
      assert w == [w[0]] + v;
      AppendAssoc([w[0]], v, CollapseWhitespace(z));
    }
  }

  /** Skipping whitespace skips exactly a whole run of it. */
  lemma {:induction false} SkipRun(r: JString, z: JString)
    decreases |r|
    requires forall k :: 0 <= k < |r| ==> IsRegexSpace(r[k])
    requires z == [] || !IsRegexSpace(z[0])
    ensures SkipWhitespace(r + z) == z
  {
    if |r| == 0 {
      assert r + z == z;
    } else {
      assert (r + z)[0] == r[0];
      assert (r + z)[1..] == r[1..] + z;
      SkipRun(r[1..], z);
    }
  }

  /** A maximal run of `\s` units becomes exactly one space. */
  lemma CollapseRun(r: JString, z: JString)
    requires r != [] && forall k :: 0 <= k < |r| ==> IsRegexSpace(r[k])
    requires z == [] || !IsRegexSpace(z[0])
    ensures CollapseWhitespace(r + z) == [SPACE] + CollapseWhitespace(z)
  {
    assert (r + z)[0] == r[0];
    assert (r + z)[1..] == r[1..] + z;
    SkipRun(r[1..], z);
  }

  // ---------------------------------------------------------------------
  // Lemmas about the words

  /** An alphanumeric run is determined by where it stops. */
  lemma {:induction false} AlnumRunUnique(s: JString, n: nat)
    requires n <= |s|
    requires forall k :: 0 <= k < n ==> IsAlnumAscii(s[k])
    requires n < |s| ==> !IsAlnumAscii(s[n])
    ensures AlnumRun(s) == n
  {
    if n > 0 {
      AlnumRunUnique(s[1..], n - 1);
    }
  }

  /** Leading units outside `[a-zA-Z0-9]` start no word. */
  lemma {:induction false} WordsSkipNonAlnum(r: JString, z: JString)
    decreases |r|
    requires forall k :: 0 <= k < |r| ==> !IsAlnumAscii(r[k])
    ensures Words(r + z) == Words(z)
  {
    if |r| == 0 {
      assert r + z == z;
    } else {
      assert (r + z)[0] == r[0];
      assert (r + z)[1..] == r[1..] + z;
      WordsSkipNonAlnum(r[1..], z);
    }
  }

  /** A word followed by the end or by a non-alphanumeric unit is the first word. */
  lemma WordsOfWordThen(w: JString, z: JString)
    requires IsWord(w)
    requires z == [] || !IsAlnumAscii(z[0])
    ensures Words(w + z) == [w] + Words(z)
  {
    var s := w + z;
    assert s[0] == w[0];
    AlnumRunUnique(s, |w|);
    assert s[..|w|] == w;
    assert s[|w|..] == z;
  }

  /** Text without words has no alphanumeric unit. */
  lemma {:induction false} NoWordsNoAlnum(s: JString)
    decreases |s|
    requires Words(s) == []
    ensures forall k :: 0 <= k < |s| ==> !IsAlnumAscii(s[k])
  {
    if |s| > 0 {
      NoWordsNoAlnum(s[1..]);
      forall k | 1 <= k < |s| ensures !IsAlnumAscii(s[k]) {
        assert s[k] == s[1..][k - 1];
      }
    }
  }

  /** Blanking out non-alphanumerics keeps the words. */
  lemma {:induction false} WordsOfBlankOut(s: JString)
    decreases |s|
    ensures Words(BlankOutNonAlnum(s)) == Words(s)
  {
    var b := BlankOutNonAlnum(s);
    if |s| > 0 {
      if !IsAlnumAscii(s[0]) {
        assert b[1..] == BlankOutNonAlnum(s[1..]);
        WordsOfBlankOut(s[1..]);
      } else {
        var n := AlnumRun(s);
        AlnumRunUnique(b, n);
        assert b[..n] == s[..n];
        assert b[n..] == BlankOutNonAlnum(s[n..]);
        WordsOfBlankOut(s[n..]);
      }
    }
  }

  /** Words joined by spaces start and end with an alphanumeric unit. */
  lemma {:induction false} JoinWordsEnds(ws: seq<JString>)
    requires forall i :: 0 <= i < |ws| ==> IsWord(ws[i])
    ensures |ws| > 0 ==> JoinWords(ws) != []
    ensures |ws| > 0 ==> IsAlnumAscii(JoinWords(ws)[0])
    ensures |ws| > 0 ==> IsAlnumAscii(JoinWords(ws)[|JoinWords(ws)| - 1])
  {
    if |ws| > 1 {
      JoinWordsEnds(ws[1..]);
    }
  }

  /** A space at the front of `x`, kept by the collapse. */
  function LeadSpace(x: JString): JString
  {
    if x != [] && x[0] == SPACE then [SPACE] else []
  }

  /** A space at the back of `x` after a word, kept by the collapse. */
  function TrailSpace(x: JString): JString
  {
    if x != [] && x[|x| - 1] == SPACE && Words(x) != [] then [SPACE] else []
  }

  /** Two texts that both have words or both have none, and end in the same unit,
      agree on the trailing space the collapse leaves. */
  lemma TrailSpaceSame(a: JString, b: JString)
    requires (Words(a) == []) == (Words(b) == [])
    requires Words(b) != [] ==> a != [] && b != [] && a[|a| - 1] == b[|b| - 1]
    ensures TrailSpace(a) == TrailSpace(b)
  {
  }

  /** On `[a-zA-Z0-9 ]` text the collapse gives the words joined by single
      spaces, with at most one space before and one after them. */
  lemma CollapseIsJoinedWords(x: JString)
    decreases |x|, 1
    requires forall k :: 0 <= k < |x| ==> IsCleanUnit(x[k])
    ensures CollapseWhitespace(x) == LeadSpace(x) + JoinWords(Words(x)) + TrailSpace(x)
  {
    var j := JoinWords(Words(x));
    var e := TrailSpace(x);
    if |x| == 0 {
      assert Words(x) == [] && j == [] && e == [];
    } else if x[0] == SPACE {
      CollapseLeadingSpaces(x);
      assert LeadSpace(x) == [SPACE];
    } else {
      CollapseLeadingWord(x);
      assert LeadSpace(x) == [];
      assert [] + j == j;
    }
  }

  /** The case of `CollapseIsJoinedWords` where `x` starts with a space. */
  lemma CollapseLeadingSpaces(x: JString)
    decreases |x|, 0
    requires x != [] && x[0] == SPACE
    requires forall k :: 0 <= k < |x| ==> IsCleanUnit(x[k])
    ensures CollapseWhitespace(x) == [SPACE] + JoinWords(Words(x)) + TrailSpace(x)
  {
    var y := SplitLeadingSpaces(x);
    CollapseIsJoinedWords(y);
    SpacesThen(x, y);
  }

  /** Splits off the run of spaces at the front of `x`: what the collapse and
      the words of `x` are in terms of the rest `y`. */
  lemma SplitLeadingSpaces(x: JString) returns (y: JString)
    requires x != [] && x[0] == SPACE
    requires forall k :: 0 <= k < |x| ==> IsCleanUnit(x[k])
    ensures |y| < |x| && forall k :: 0 <= k < |y| ==> IsCleanUnit(y[k])
    ensures y == [] || (!IsRegexSpace(y[0]) && x[|x| - 1] == y[|y| - 1])
    ensures CollapseWhitespace(x) == [SPACE] + CollapseWhitespace(y)
    ensures Words(x) == Words(y)
  {
    var r;
    r, y := LeadingSpaceRun(x);
    forall k | 0 <= k < |y| ensures IsCleanUnit(y[k]) {
      assert y[k] == x[|r| + k];
    }
    CollapseRun(r, y);
    WordsSkipNonAlnum(r, y);
    if y != [] {
      assert x[|x| - 1] == y[|y| - 1];
    }
  }

  /** The maximal run `r` of regular-expression spaces at the front of `x`. */
  lemma LeadingSpaceRun(x: JString) returns (r: JString, y: JString)
    requires x != [] && IsRegexSpace(x[0])
    ensures x == r + y && r != []
    ensures forall k :: 0 <= k < |r| ==> IsRegexSpace(r[k])
    ensures y == [] || !IsRegexSpace(y[0])
  {
    var t := x[1..];
    y := SkipWhitespace(t);
    r := x[..|x| - |y|];
    assert x == r + y;
    forall k | 0 <= k < |r| ensures IsRegexSpace(r[k]) {
      if k > 0 { assert r[k] == t[k - 1]; }
    }
  }

  /** `x` is a run of spaces and then `y`, which does not start with one. */
  lemma SpacesThen(x: JString, y: JString)
    requires x != []
    requires y == [] || (!IsRegexSpace(y[0]) && x[|x| - 1] == y[|y| - 1])
    requires CollapseWhitespace(x) == [SPACE] + CollapseWhitespace(y)
    requires Words(x) == Words(y)
    requires CollapseWhitespace(y) == LeadSpace(y) + JoinWords(Words(y)) + TrailSpace(y)
    ensures CollapseWhitespace(x) == [SPACE] + JoinWords(Words(x)) + TrailSpace(x)
  {
    var j := JoinWords(Words(y));
    var e := TrailSpace(y);
    assert LeadSpace(y) == [];
    assert LeadSpace(y) + j == j;
    TrailSpaceSame(x, y);
    AppendAssoc([SPACE], j, e);
  }

  /** The case of `CollapseIsJoinedWords` where `x` starts with a word. */
  lemma CollapseLeadingWord(x: JString)
    decreases |x|, 0
    requires x != [] && IsAlnumAscii(x[0])
    requires forall k :: 0 <= k < |x| ==> IsCleanUnit(x[k])
    ensures CollapseWhitespace(x) == JoinWords(Words(x)) + TrailSpace(x)
  {
    var w, z := SplitLeadingWord(x);
    if z == [] {
      WordAlone(w);
    } else {
      CollapseLeadingSpaces(z);
      if Words(z) == [] {
        NoWordsNoAlnum(z);
        assert IsCleanUnit(z[|z| - 1]);
        WordThenSpaces(x, w, z);
      } else {
        WordThenWords(x, w, z);
      }
    }
  }

  /** Splits off the word at the front of `x`: what the collapse and the words
      of `x` are in terms of that word `w` and the rest `z`. */
  lemma SplitLeadingWord(x: JString) returns (w: JString, z: JString)
    requires x != [] && IsAlnumAscii(x[0])
    requires forall k :: 0 <= k < |x| ==> IsCleanUnit(x[k])
    ensures IsWord(w) && |z| < |x| && forall k :: 0 <= k < |z| ==> IsCleanUnit(z[k])
    ensures z == [] ==> x == w
    ensures z != [] ==> z[0] == SPACE && x[|x| - 1] == z[|z| - 1]
    ensures CollapseWhitespace(x) == w + CollapseWhitespace(z)
    ensures Words(x) == [w] + Words(z)
  {
    var n := AlnumRun(x);
    w := x[..n];
    z := x[n..];
    assert x == w + z;
    forall k | 0 <= k < |z| ensures IsCleanUnit(z[k]) {
      assert z[k] == x[n + k];
    }
    if z != [] {
      assert z[0] == SPACE;
      assert x[|x| - 1] == z[|z| - 1];
    }
    WordsOfWordThen(w, z);
    CollapseKeepsPrefix(w, z);
  }

  /** A single word collapses to itself. */
  lemma WordAlone(w: JString)
    requires IsWord(w)
    ensures CollapseWhitespace(w) == JoinWords(Words(w)) + TrailSpace(w)
  {
    assert w + [] == w;
    WordsOfWordThen(w, []);
    CollapseKeepsPrefix(w, []);
    assert TrailSpace(w) == [];
  }

  /** `x` is the word `w` and then `z`, which holds spaces only: the collapse
      is the word and one space. */
  lemma WordThenSpaces(x: JString, w: JString, z: JString)
    requires z != [] && x != [] && x[|x| - 1] == z[|z| - 1] && z[|z| - 1] == SPACE
    requires CollapseWhitespace(x) == w + CollapseWhitespace(z)
    requires Words(x) == [w] + Words(z) && Words(z) == []
    requires CollapseWhitespace(z) == [SPACE] + JoinWords(Words(z)) + TrailSpace(z)
    ensures CollapseWhitespace(x) == JoinWords(Words(x)) + TrailSpace(x)
  {
    assert Words(x) == [w];
    assert TrailSpace(z) == [];
    assert CollapseWhitespace(z) == [SPACE];
    assert TrailSpace(x) == [SPACE];
  }

  /** `x` is the word `w` and then `z`, which starts with a space and holds
      more words. */
  lemma WordThenWords(x: JString, w: JString, z: JString)
    requires z != [] && x != [] && x[|x| - 1] == z[|z| - 1]
    requires CollapseWhitespace(x) == w + CollapseWhitespace(z)
    requires Words(x) == [w] + Words(z) && Words(z) != []
    requires CollapseWhitespace(z) == [SPACE] + JoinWords(Words(z)) + TrailSpace(z)
    ensures CollapseWhitespace(x) == JoinWords(Words(x)) + TrailSpace(x)
  {
    var ws := Words(x);
    var j := JoinWords(Words(z));
    var t := TrailSpace(z);
    assert ws[1..] == Words(z);
    assert JoinWords(ws) == w + [SPACE] + j;
    TrailSpaceSame(x, z);
    AppendAssoc(w, [SPACE] + j, t);
    AppendAssoc(w, [SPACE], j);
  }

  /** The chain `replaceAll`, `replaceAll`, `trim` gives the words joined by
      single spaces. */
  lemma CleanChainIsJoinedWords(s: JString)
    ensures Trim(CollapseWhitespace(BlankOutNonAlnum(s))) == JoinWords(Words(s))
  {
    var b := BlankOutNonAlnum(s);
    WordsOfBlankOut(s);
    CollapseIsJoinedWords(b);
    TrimJoinedWords(LeadSpace(b), Words(s), TrailSpace(b));
  }

  /** Trimming words joined by single spaces, with at most a space on either
      side, leaves the joined words. */
  lemma TrimJoinedWords(l: JString, ws: seq<JString>, t: JString)
    requires l == [] || l == [SPACE]
    requires t == [] || t == [SPACE]
    requires forall i :: 0 <= i < |ws| ==> IsWord(ws[i])
    ensures Trim(l + JoinWords(ws) + t) == JoinWords(ws)
  {
    JoinedWordsUntrimmable(ws);
    SpaceOrNothingTrimmable(l);
    SpaceOrNothingTrimmable(t);
    TrimPadded(l, JoinWords(ws), t);
  }

  /** A single space, or nothing, is all trimmable. */
  lemma SpaceOrNothingTrimmable(l: JString)
    requires l == [] || l == [SPACE]
    ensures AllTrimmable(l)
  {
  }

  /** Words joined by spaces neither start nor end with a unit `trim` removes. */
  lemma JoinedWordsUntrimmable(ws: seq<JString>)
    requires forall i :: 0 <= i < |ws| ==> IsWord(ws[i])
    ensures var m := JoinWords(ws); m == [] || (!IsTrimmable(m[0]) && !IsTrimmable(m[|m| - 1]))
  {
    var m := JoinWords(ws);
    if ws != [] {
      JoinWordsEnds(ws);
      assert IsAlnumAscii(m[0]) && IsAlnumAscii(m[|m| - 1]);
    }
  }

  /** Two words with anything non-alphanumeric between them come out separated
      by exactly one space. */
  lemma CleanContentSeparatesWords(a: JString, n: JString, b: JString)
    requires IsWord(a) && IsWord(b)
    requires n != [] && forall k :: 0 <= k < |n| ==> !IsAlnumAscii(n[k])
    ensures CleanContent(a + n + b) == a + [SPACE] + b
  {
    WordsOfWordThen(b, []);
    assert b + [] == b;
    assert Words(b) == [b];
    WordsSkipNonAlnum(n, b);
    assert a + n + b == a + (n + b);
    WordsOfWordThen(a, n + b);
    var ws := Words(a + n + b);
    assert ws == [a, b];
    assert ws[1..] == [b];
    assert JoinWords(ws) == a + [SPACE] + b;
  }

  // ---------------------------------------------------------------------
  // Idempotence

  /** Text in `[a-zA-Z0-9 ]` without two adjacent spaces is unchanged by the collapse. */
  lemma {:induction false} CollapseOfSingleSpaces(s: JString)
    decreases |s|
    requires forall k :: 0 <= k < |s| ==> IsCleanUnit(s[k])
    requires forall k :: 0 <= k < |s| - 1 ==> !DoubleSpaceAt(s, k)
    ensures CollapseWhitespace(s) == s
  {
    if |s| > 0 {
      var t := s[1..];
      forall k | 0 <= k < |t| - 1 ensures !DoubleSpaceAt(t, k) {
        assert !DoubleSpaceAt(s, k + 1);
      }
      CollapseOfSingleSpaces(t);
      if IsRegexSpace(s[0]) {
        assert |s| > 1 ==> !DoubleSpaceAt(s, 0);
        assert SkipWhitespace(t) == t;
      }
    }
  }

  /** Clean text is its own clean-up. */
  lemma CleanContentOfClean(s: JString)
    requires IsClean(s)
    ensures CleanContent(s) == s
  {
    assert forall k :: 0 <= k < |s| ==> BlankOutNonAlnum(s)[k] == s[k];
    assert BlankOutNonAlnum(s) == s;
    CollapseOfSingleSpaces(s);
    TrimIdentity(s);
  }

  /** Cleaning twice is cleaning once. */
  lemma CleanContentIdempotent(content: JString)
    ensures CleanContent(CleanContent(content)) == CleanContent(content)
  {
    CleanContentOfClean(CleanContent(content));
  }
}
