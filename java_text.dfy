/** Java strings as the program sees them: sequences of UTF-16 code units,
    with the few library operations the wallpaper tool relies on
    (`toLowerCase`, `trim`, `startsWith`). */
module JavaText {

  /** One UTF-16 code unit, the value `String.charAt` returns. */
  newtype Unit = x: int | 0 <= x < 0x1_0000

  /** A `java.lang.String`: a sequence of UTF-16 code units. */
  type JString = seq<Unit>

  const SPACE: Unit := 32
  const SLASH: Unit := 47
  const BACKSLASH: Unit := 92
  const LOWER_N: Unit := 110

  predicate IsUpperAscii(c: Unit) { 65 <= c <= 90 }
  predicate IsLowerAscii(c: Unit) { 97 <= c <= 122 }
  predicate IsDigitAscii(c: Unit) { 48 <= c <= 57 }

  /** Membership in the regular-expression class `[a-zA-Z0-9]`. */
  predicate IsAlnumAscii(c: Unit) { IsUpperAscii(c) || IsLowerAscii(c) || IsDigitAscii(c) }

  /** The units `String.trim` removes from both ends: everything at or below U+0020. */
  predicate IsTrimmable(c: Unit) { c <= SPACE }

  /** Every unit of `s` is one `trim` removes. */
  predicate AllTrimmable(s: JString) { forall k :: 0 <= k < |s| ==> IsTrimmable(s[k]) }

  /** `String.startsWith(prefix)`. */
  predicate StartsWith(s: JString, prefix: JString) { prefix <= s }

  /** Lower-casing of one unit, restricted to the ASCII letters. */
  function ToLowerUnit(c: Unit): (r: Unit)
    ensures !IsUpperAscii(r)
    ensures IsUpperAscii(c) ==> IsLowerAscii(r) && r as int == c as int + 32
    ensures !IsUpperAscii(c) ==> r == c
  {
    if IsUpperAscii(c) then c + 32 else c
  }

  /** `String.toLowerCase`, restricted to the ASCII letters: every other unit is kept. */
  function ToLower(s: JString): (r: JString)
    ensures |r| == |s|
    ensures forall k :: 0 <= k < |r| ==> !IsUpperAscii(r[k])
    ensures forall k :: 0 <= k < |r| ==> r[k] == s[k] || (IsUpperAscii(s[k]) && r[k] as int == s[k] as int + 32)
  {
    seq(|s|, k requires 0 <= k < |s| => ToLowerUnit(s[k]))
  }

  /** Number of trimmable units at the front of `s`. */
  function LeadingTrimmable(s: JString): (n: nat)
    ensures n <= |s|
    ensures AllTrimmable(s[..n])
    ensures n < |s| ==> !IsTrimmable(s[n])
  {
    if |s| == 0 || !IsTrimmable(s[0]) then 0
    else
      var n' := LeadingTrimmable(s[1..]);
      assert s[..n' + 1] == [s[0]] + s[1..][..n'];
      n' + 1
  }

  /** Number of trimmable units at the back of `s`. */
  function TrailingTrimmable(s: JString): (n: nat)
    ensures n <= |s|
    ensures AllTrimmable(s[|s| - n..])
    ensures n < |s| ==> !IsTrimmable(s[|s| - n - 1])
  {
    if |s| == 0 || !IsTrimmable(s[|s| - 1]) then 0
    else
      var init := s[..|s| - 1];
      var n' := TrailingTrimmable(init);
      assert s[|s| - (n' + 1)..] == init[|init| - n'..] + [s[|s| - 1]];
      n' + 1
  }

  /** `String.trim`: drops every unit at or below U+0020 from both ends. The
      result starts right after the leading trimmable run, only trimmable
      units follow it, and it neither starts nor ends with a trimmable unit. */
  function Trim(s: JString): (r: JString)
    ensures r == [] || (!IsTrimmable(r[0]) && !IsTrimmable(r[|r| - 1]))
    ensures LeadingTrimmable(s) + |r| <= |s|
    ensures r == s[LeadingTrimmable(s)..LeadingTrimmable(s) + |r|]
    ensures AllTrimmable(s[LeadingTrimmable(s) + |r|..])
  {
    var a := LeadingTrimmable(s);
    var rest := s[a..];
    var b := TrailingTrimmable(rest);
    assert rest[|rest| - b..] == s[|s| - b..];
    assert rest[..|rest| - b] == s[a..|s| - b];
    assert |rest| - b > 0 ==> s[a] == rest[0] && s[|s| - b - 1] == rest[|rest| - b - 1];
    var r := s[a..|s| - b];
    assert s[a + |r|..] == rest[|rest| - b..];
    r
  }

  /** Two strings of trimmable units make one. */
  lemma AllTrimmableAppend(x: JString, y: JString)
    requires AllTrimmable(x) && AllTrimmable(y)
    ensures AllTrimmable(x + y)
  {
    forall k | 0 <= k < |x + y| ensures IsTrimmable((x + y)[k]) {
      if k < |x| { assert (x + y)[k] == x[k]; } else { assert (x + y)[k] == y[k - |x|]; }
    }
  }

  /** Unit `m` of the trimmed string is unit `m` after the leading trimmable run. */
  lemma TrimSlices(s: JString)
    ensures forall m :: 0 <= m < |Trim(s)| ==> Trim(s)[m] == s[LeadingTrimmable(s) + m]
  {
    var a := LeadingTrimmable(s);
    var r := Trim(s);
    forall m | 0 <= m < |r| ensures r[m] == s[a + m] {
      assert r[m] == s[a..a + |r|][m];
    }
  }

  /** The leading trimmable run covers the whole string exactly when every
      unit is trimmable. */
  lemma LeadingTrimmableAllIff(s: JString)
    ensures LeadingTrimmable(s) == |s| <==> AllTrimmable(s)
  {
    assert s[..|s|] == s;
  }

  /** Trimming removes everything exactly when everything was trimmable:
      the `line.length() == 0` test after `trim` detects blank lines. */
  lemma TrimEmptyIff(s: JString)
    ensures Trim(s) == [] <==> AllTrimmable(s)
  {
    LeadingTrimmableAllIff(s);
  }

  /** The leading trimmable run is the only prefix of trimmable units that is
      followed by a non-trimmable unit or the end. */
  lemma {:induction false} LeadingTrimmableUnique(s: JString, n: nat)
    requires n <= |s| && AllTrimmable(s[..n])
    requires n < |s| ==> !IsTrimmable(s[n])
    ensures LeadingTrimmable(s) == n
  {
    if n > 0 {
      assert s[0] == s[..n][0];
      var t := s[1..];
      var front := t[..n - 1];
      forall k | 0 <= k < n - 1 ensures IsTrimmable(front[k]) {
        assert front[k] == s[..n][k + 1];
      }
      assert n - 1 < |t| ==> t[n - 1] == s[n];
      LeadingTrimmableUnique(t, n - 1);
    }
  }

  /** The trailing trimmable run is the only suffix of trimmable units that is
      preceded by a non-trimmable unit or the start. */
  lemma {:induction false} TrailingTrimmableUnique(s: JString, n: nat)
    requires n <= |s| && AllTrimmable(s[|s| - n..])
    requires n < |s| ==> !IsTrimmable(s[|s| - n - 1])
    ensures TrailingTrimmable(s) == n
  {
    if n > 0 {
      assert s[|s| - 1] == s[|s| - n..][n - 1];
      var init := s[..|s| - 1];
      var back := init[|init| - (n - 1)..];
      forall k | 0 <= k < n - 1 ensures IsTrimmable(back[k]) {
        assert back[k] == s[|s| - n..][k];
      }
      assert n - 1 < |init| ==> init[|init| - (n - 1) - 1] == s[|s| - n - 1];
      TrailingTrimmableUnique(init, n - 1);
    }
  }

  /** `trim` removes exactly a trimmable front and back around a middle that
      is empty or neither starts nor ends with a trimmable unit. */
  lemma TrimPadded(x: JString, m: JString, y: JString)
    requires AllTrimmable(x) && AllTrimmable(y)
    requires m == [] || (!IsTrimmable(m[0]) && !IsTrimmable(m[|m| - 1]))
    ensures Trim(x + m + y) == m
  {
    var s := x + m + y;
    if m == [] {
      assert s == x + y;
      AllTrimmableAppend(x, y);
      TrimEmptyIff(s);
    } else {
      assert s[..|x|] == x;
      assert s[|x|] == m[0];
      LeadingTrimmableUnique(s, |x|);
      var rest := s[|x|..];
      assert rest == m + y;
      assert rest[|rest| - |y|..] == y;
      assert rest[|rest| - |y| - 1] == m[|m| - 1];
      TrailingTrimmableUnique(rest, |y|);
      assert s[|x|..|s| - |y|] == m;
    }
  }

  /** A string that neither starts nor ends with a trimmable unit is its own trim. */
  lemma TrimIdentity(s: JString)
    requires s == [] || (!IsTrimmable(s[0]) && !IsTrimmable(s[|s| - 1]))
    ensures Trim(s) == s
  {
    var r := Trim(s);
    if s != [] {
      assert LeadingTrimmable(s) == 0;
      assert TrailingTrimmable(s) == 0;
    }
  }

  /** Concatenation of strings is associative. */
  lemma AppendAssoc(a: JString, b: JString, c: JString)
    ensures a + (b + c) == (a + b) + c
  {
    assert |a + (b + c)| == |(a + b) + c|;
    forall k | 0 <= k < |a + (b + c)| ensures (a + (b + c))[k] == ((a + b) + c)[k] {
    }
  }
}
