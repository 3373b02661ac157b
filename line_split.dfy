/** Splitting the text argument into lines with `text.split("\\\\n")`: the
    regular expression matches the two units backslash and `n` (an escaped
    newline typed on the command line), not a newline character. */
module LineSplit {
  import opened JavaText

  /** The two units the regular expression `\\n` matches. */
  const SEPARATOR: JString := [BACKSLASH, LOWER_N]

  /** A match of the separator starts at index `i` of `s`. */
  predicate SeparatorAt(s: JString, i: int) {
    0 <= i && i + 1 < |s| && s[i] == BACKSLASH && s[i + 1] == LOWER_N
  }

  /** The separator occurs somewhere in `s`. */
  predicate ContainsSeparator(s: JString) {
    exists i :: 0 <= i < |s| && SeparatorAt(s, i)
  }

  /** `s` ends with the separator. */
  predicate EndsWithSeparator(s: JString) {
    SeparatorAt(s, |s| - 2)
  }

  /** Number of matches found scanning left to right. The separator's two
      units differ, so matches never overlap and this counts every occurrence. */
  function CountSeparators(s: JString): nat
    decreases |s|
  {
    if |s| < 2 then 0
    else if SeparatorAt(s, 0) then 1 + CountSeparators(s[2..])
    else CountSeparators(s[1..])
  }

  /** The pieces between successive matches, scanning left to right, before
      `split` discards trailing empty pieces. There is always one piece more
      than there are matches; the first piece is a prefix of `s`, and with no
      match the only piece is `s` itself. */
  function Pieces(s: JString): (p: seq<JString>)
    decreases |s|
    ensures |p| == CountSeparators(s) + 1
    ensures p[0] <= s
    ensures |p| == 1 ==> p[0] == s
  {
    if |s| < 2 then [s]
    else if SeparatorAt(s, 0) then [[]] + Pieces(s[2..])
    else
      var rest := Pieces(s[1..]);
      [[s[0]] + rest[0]] + rest[1..]
  }

  /** Removes the trailing empty strings of a list, as `split` with limit 0 does. */
  function DropTrailingEmpty(p: seq<JString>): (r: seq<JString>)
    ensures r <= p
    ensures r == [] || r[|r| - 1] != []
    ensures forall k :: |r| <= k < |p| ==> p[k] == []
  {
    if |p| == 0 || p[|p| - 1] != [] then p
    else DropTrailingEmpty(p[..|p| - 1])
  }

  /** `String.split("\\\\n")`: if the separator does not occur the result is
      the whole input, otherwise the pieces without the trailing empty ones.
      There is at most one line per separator plus one, and when the input
      holds a separator the last line, if any, is not empty. */
  function Split(s: JString): (r: seq<JString>)
    ensures |r| <= CountSeparators(s) + 1
    ensures !ContainsSeparator(s) ==> r == [s]
    ensures ContainsSeparator(s) ==> r == [] || r[|r| - 1] != []
  {
    CountZeroIff(s);
    var p := Pieces(s);
    if |p| == 1 then p else DropTrailingEmpty(p)
  }

  /** The lines put back together with the separator between them. */
  function Join(lines: seq<JString>): JString
  {
    if |lines| == 0 then []
    else if |lines| == 1 then lines[0]
    else lines[0] + SEPARATOR + Join(lines[1..])
  }

  /** `n` separators in a row. */
  function Separators(n: nat): (r: JString)
    ensures |r| == 2 * n
  {
    if n == 0 then [] else Separators(n - 1) + SEPARATOR
  }

  /** The input with any trailing run of separators removed: a prefix that
      does not end with a separator, followed in the input only by whole
      separators. */
  function StripTrailingSeparators(s: JString): (r: JString)
    decreases |s|
    ensures r <= s
    ensures !EndsWithSeparator(r)
    ensures (|s| - |r|) % 2 == 0 && s == r + Separators((|s| - |r|) / 2)
  {
    if EndsWithSeparator(s) then
      var init := s[..|s| - 2];
      var r := StripTrailingSeparators(init);
      var n := (|init| - |r|) / 2;
      var seps := Separators(n);
      assert init == r + seps && |init| == |r| + 2 * n;
      assert |s| - |r| == 2 * (n + 1);
      assert s == init + SEPARATOR;
      assert Separators(n + 1) == seps + SEPARATOR;
      AppendAssoc(r, seps, SEPARATOR);
      r
    else
      assert s + [] == s;
      s
  }

  // ---------------------------------------------------------------------
  // Lemmas about the pieces

  /** The separator occurs exactly when the scan counts a match. */
  lemma {:induction false} CountZeroIff(s: JString)
    decreases |s|
    ensures CountSeparators(s) == 0 <==> !ContainsSeparator(s)
  {
    if |s| < 2 {
      assert forall i :: !SeparatorAt(s, i);
    } else if SeparatorAt(s, 0) {
    } else {
      CountZeroIff(s[1..]);
      if ContainsSeparator(s) {
        var i :| 0 <= i < |s| && SeparatorAt(s, i);
        assert SeparatorAt(s[1..], i - 1);
      }
      if ContainsSeparator(s[1..]) {
        var i :| 0 <= i < |s[1..]| && SeparatorAt(s[1..], i);
        assert SeparatorAt(s, i + 1);
      }
    }
  }

  /** Putting the pieces back together with the separator gives the input. */
  lemma {:induction false} JoinPieces(s: JString)
    decreases |s|
    ensures Join(Pieces(s)) == s
  {
    if |s| < 2 {
    } else if SeparatorAt(s, 0) {
      var t := s[2..];
      JoinPieces(t);
      var q := Pieces(t);
      assert Pieces(s) == [[]] + q;
      JoinCons([], q);
      assert s == SEPARATOR + t;
    } else {
      var t := s[1..];
      JoinPieces(t);
      var rest := Pieces(t);
      assert Pieces(s) == [[s[0]] + rest[0]] + rest[1..];
      JoinExtendHead([s[0]], rest);
      assert s == [s[0]] + t;
    }
  }

  /** Joining a line in front of a non-empty list puts a separator between. */
  lemma JoinCons(h: JString, q: seq<JString>)
    requires |q| >= 1
    ensures Join([h] + q) == h + SEPARATOR + Join(q)
  {
    var l := [h] + q;
    assert l[1..] == q;
  }

  /** Extending the first line of a list by `x` in front extends the join by `x`. */
  lemma JoinExtendHead(x: JString, rest: seq<JString>)
    requires |rest| >= 1
    ensures Join([x + rest[0]] + rest[1..]) == x + Join(rest)
  {
    var l := [x + rest[0]] + rest[1..];
    if |rest| == 1 {
      assert l == [x + rest[0]];
    } else {
      var tail := Join(rest[1..]);
      assert l[1..] == rest[1..];
      assert Join(l) == (x + rest[0]) + SEPARATOR + tail;
      assert Join(rest) == rest[0] + SEPARATOR + tail;
      AppendAssoc(x, rest[0], SEPARATOR);
      AppendAssoc(x, rest[0] + SEPARATOR, tail);
    }
  }

  /** No piece contains the separator. */
  lemma {:induction false} PiecesHaveNoSeparator(s: JString)
    decreases |s|
    ensures forall k :: 0 <= k < |Pieces(s)| ==> !ContainsSeparator(Pieces(s)[k])
  {
    if |s| < 2 {
      assert forall i :: !SeparatorAt(s, i);
    } else if SeparatorAt(s, 0) {
      PiecesHaveNoSeparator(s[2..]);
      var p := Pieces(s);
      assert forall i :: !SeparatorAt(p[0], i);
      forall k | 1 <= k < |p| ensures !ContainsSeparator(p[k]) {
        assert p[k] == Pieces(s[2..])[k - 1];
      }
    } else {
      var t := s[1..];
      PiecesHaveNoSeparator(t);
      var rest := Pieces(t);
      var p := Pieces(s);
      assert p == [[s[0]] + rest[0]] + rest[1..];
      if rest[0] != [] {
        assert rest[0][0] == t[0];
      }
      ConsNoSeparator(s[0], rest[0]);
      forall k | 0 <= k < |p| ensures !ContainsSeparator(p[k]) {
        if k > 0 {
          assert p[k] == rest[k];
        }
      }
    }
  }

  /** A unit in front of a line without a separator creates none, unless it
      is a backslash before an `n`. */
  lemma ConsNoSeparator(c: Unit, x: JString)
    requires !ContainsSeparator(x)
    requires x == [] || c != BACKSLASH || x[0] != LOWER_N
    ensures !ContainsSeparator([c] + x)
  {
    var h := [c] + x;
    forall i | 0 <= i < |h| ensures !SeparatorAt(h, i) {
      if i > 0 {
        assert !SeparatorAt(x, i - 1);
        assert h[i] == x[i - 1];
        if i + 1 < |h| {
          assert h[i + 1] == x[i];
        }
      }
    }
  }

  /** The last piece is empty exactly when the input is empty or ends with a
      separator. */
  lemma {:induction false} LastPieceEmptyIff(s: JString)
    decreases |s|
    ensures var p := Pieces(s); p[|p| - 1] == [] <==> s == [] || EndsWithSeparator(s)
  {
    var p := Pieces(s);
    if |s| < 2 {
    } else if SeparatorAt(s, 0) {
      var t := s[2..];
      LastPieceEmptyIff(t);
      var q := Pieces(t);
      assert p == [[]] + q;
      assert p[|p| - 1] == q[|q| - 1];
      if |t| >= 2 {
        assert t[|t| - 2] == s[|s| - 2] && t[|t| - 1] == s[|s| - 1];
      }
    } else {
      var t := s[1..];
      LastPieceEmptyIff(t);
      var rest := Pieces(t);
      assert p == [[s[0]] + rest[0]] + rest[1..];
      if |t| >= 2 {
        assert t[|t| - 2] == s[|s| - 2] && t[|t| - 1] == s[|s| - 1];
      }
      if |rest| == 1 {
        assert p[|p| - 1] == [s[0]] + t;
      } else {
        assert p[|p| - 1] == rest[|rest| - 1];
      }
    }
  }

  // ---------------------------------------------------------------------
  // Lemmas about `split`

  /** `split` keeps a prefix of the pieces, so no line contains the separator. */
  lemma SplitHasNoSeparator(s: JString)
    ensures forall k :: 0 <= k < |Split(s)| ==> !ContainsSeparator(Split(s)[k])
  {
    PiecesHaveNoSeparator(s);
    var p := Pieces(s);
    var lines := Split(s);
    assert lines <= p;
    forall k | 0 <= k < |lines| ensures !ContainsSeparator(lines[k]) {
      assert lines[k] == p[k];
    }
  }

  /** With k separators, `split` gives exactly k + 1 lines if and only if the
      input does not end with a separator (so that the final piece is kept). */
  lemma SplitCount(s: JString)
    ensures |Split(s)| == CountSeparators(s) + 1 <==> !EndsWithSeparator(s)
  {
    LastPieceEmptyIff(s);
    var p := Pieces(s);
    if |p| > 1 && EndsWithSeparator(s) {
      assert DropTrailingEmpty(p) == DropTrailingEmpty(p[..|p| - 1]);
    }
  }

  /** Joining one more line appends the separator and that line. */
  lemma {:induction false} JoinSnoc(lines: seq<JString>, last: JString)
    requires |lines| >= 1
    ensures Join(lines + [last]) == Join(lines) + SEPARATOR + last
  {
    if |lines| == 1 {
    } else {
      assert (lines + [last])[1..] == lines[1..] + [last];
      JoinSnoc(lines[1..], last);
    }
  }

  /** A joined list whose last line is non-empty and free of separators does
      not end with a separator. */
  lemma JoinNotEndingWithSeparator(lines: seq<JString>)
    requires |lines| >= 1
    requires lines[|lines| - 1] != [] && !ContainsSeparator(lines[|lines| - 1])
    ensures !EndsWithSeparator(Join(lines))
  {
    var last := lines[|lines| - 1];
    if |lines| == 1 {
      assert !SeparatorAt(last, |last| - 2);
    } else {
      var init := lines[..|lines| - 1];
      assert lines == init + [last];
      JoinSnoc(init, last);
      var j := Join(lines);
      assert j == (Join(init) + SEPARATOR) + last;
      if |last| >= 2 {
        assert j[|j| - 2] == last[|last| - 2] && j[|j| - 1] == last[|last| - 1];
        assert !SeparatorAt(last, |last| - 2);
      } else {
        assert j[|j| - 2] == LOWER_N;
      }
    }
  }

  /** One more separator at the end is stripped with the rest of the run. */
  lemma StripSeparatorSuffix(x: JString)
    ensures StripTrailingSeparators(x + SEPARATOR) == StripTrailingSeparators(x)
  {
    var y := x + SEPARATOR;
    assert EndsWithSeparator(y);
    assert y[..|y| - 2] == x;
  }

  /** Dropping trailing empty lines strips exactly the trailing separators of the join. */
  lemma {:induction false} JoinDropTrailingEmpty(p: seq<JString>)
    requires forall k :: 0 <= k < |p| ==> !ContainsSeparator(p[k])
    ensures Join(DropTrailingEmpty(p)) == StripTrailingSeparators(Join(p))
  {
    if |p| == 0 {
    } else if p[|p| - 1] != [] {
      JoinNotEndingWithSeparator(p);
    } else if |p| == 1 {
      assert p == [[]];
    } else {
      var init := p[..|p| - 1];
      assert p == init + [[]];
      JoinSnoc(init, []);
      assert Join(p) == Join(init) + SEPARATOR;
      StripSeparatorSuffix(Join(init));
      JoinDropTrailingEmpty(init);
    }
  }

  /** Joining the lines with the separator reproduces the input minus any
      trailing run of separators. */
  lemma SplitJoin(s: JString)
    ensures Join(Split(s)) == StripTrailingSeparators(s)
  {
    JoinPieces(s);
    PiecesHaveNoSeparator(s);
    var p := Pieces(s);
    if |p| == 1 {
      LastPieceEmptyIff(s);
    } else {
      JoinDropTrailingEmpty(p);
    }
  }

  /** Only no lines, or one empty line, join to the empty text. */
  lemma {:induction false} JoinEmpty(lines: seq<JString>)
    requires Join(lines) == []
    ensures |lines| <= 1
    ensures forall k :: 0 <= k < |lines| ==> lines[k] == []
  {
  }

  /** Every line `split` produces is empty exactly when the input is empty or
      made only of separators. */
  lemma SplitAllEmptyIff(s: JString)
    ensures (forall k :: 0 <= k < |Split(s)| ==> Split(s)[k] == []) <==> StripTrailingSeparators(s) == []
  {
    SplitJoin(s);
    var lines := Split(s);
    if forall k :: 0 <= k < |lines| ==> lines[k] == [] {
      var p := Pieces(s);
      if |p| != 1 {
        assert lines == [];
      }
    } else if StripTrailingSeparators(s) == [] {
      JoinEmpty(lines);
    }
  }
}
