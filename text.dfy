/**
 * The string operations the ingestion script takes from Python's `str` and `re`,
 * restricted to ASCII: `str.lower`, `str.strip`, `str.startswith`, the substring
 * test `in`, `str.split` on one character, `str.replace`, and the character
 * classes `\s` and `\d`.
 */
module Text {

  /** `str.isspace`, which is also what the regex class `\s` matches, on the ASCII range. */
  predicate IsSpace(c: char) {
    c == ' ' || c == '\t' || c == '\n' || c == '\r' || c == '\U{0B}' || c == '\U{0C}'
    || ('\U{1C}' <= c <= '\U{1F}')
  }

  /** The regex class `\d` on the ASCII range. */
  predicate IsDigit(c: char) {
    '0' <= c <= '9'
  }

  /** `re.search(r"\d", s)` finds a match. */
  predicate HasDigit(s: string) {
    exists k :: 0 <= k < |s| && IsDigit(s[k])
  }

  function Last<T>(s: seq<T>): T
    requires |s| > 0
  {
    s[|s| - 1]
  }

  function LowerChar(c: char): char {
    if 'A' <= c <= 'Z' then (c as int + 32) as char else c
  }

  /** `str.lower` on ASCII letters; every other character is kept. */
  function Lower(s: string): (r: string)
    ensures |r| == |s| && forall k :: 0 <= k < |s| ==> r[k] == LowerChar(s[k])
  {
    seq(|s|, k requires 0 <= k < |s| => LowerChar(s[k]))
  }

  /** `s.startswith(p)`. */
  predicate StartsWith(s: string, p: string) {
    |p| <= |s| && s[..|p|] == p
  }

  /** `pat` occurs in `s` starting at index `i`. */
  predicate OccursAt(s: string, pat: string, i: int) {
    0 <= i && i + |pat| <= |s| && s[i..i + |pat|] == pat
  }

  lemma OccursInConcat(a: string, b: string, c: string)
    ensures OccursAt(a + b + c, b, |a|)
  {
    assert (a + b + c)[|a|..|a| + |b|] == b;
  }

  /** Python's substring test `pat in s`. */
  predicate Contains(s: string, pat: string) {
    exists i :: 0 <= i <= |s| - |pat| && OccursAt(s, pat, i)
  }

  // ---------------------------------------------------------------------------
  // str.split(c) and its inverse, str.join

  /**
   * `s.split(c)` for a one-character separator: the maximal pieces between
   * separators, always at least one (possibly empty) piece.
   */
  function SplitOn(s: string, c: char): (r: seq<string>)
    ensures |r| >= 1
    ensures forall k :: 0 <= k < |r| ==> c !in r[k]
    decreases |s|
  {
    if s == [] then [[]]
    else
      var init := SplitOn(s[..|s| - 1], c);
      if Last(s) == c then init + [[]]
      else init[..|init| - 1] + [Last(init) + [Last(s)]]
  }

  /** The last piece of `s.split(c)` is the suffix of `s` after its last `c`. */
  lemma {:induction false} LastPieceIsSuffix(s: string, c: char)
    ensures var p := Last(SplitOn(s, c));
            |p| <= |s| && s[|s| - |p|..] == p && (|p| < |s| ==> s[|s| - |p| - 1] == c)
    decreases |s|
  {
    if s != [] {
      var s' := s[..|s| - 1];
      LastPieceIsSuffix(s', c);
      if Last(s) != c {
        var init := SplitOn(s', c);
        var p' := Last(init);
        assert Last(SplitOn(s, c)) == p' + [Last(s)];
        var m := |s'| - |p'|;
        assert s[m..] == s[m..|s| - 1] + [s[|s| - 1]];
        assert s[m..|s| - 1] == s'[m..];
      }
    }
  }

  /** `sep.join(parts)`. */
  function Join(parts: seq<string>, sep: string): string {
    if |parts| == 0 then []
    else if |parts| == 1 then parts[0]
    else parts[0] + sep + Join(parts[1..], sep)
  }

  lemma {:induction false} JoinStartsWith(parts: seq<string>, sep: string)
    requires |parts| >= 1
    ensures StartsWith(Join(parts, sep), parts[0])
  {
    if |parts| > 1 {
      assert Join(parts, sep) == parts[0] + (sep + Join(parts[1..], sep));
    }
  }

  lemma {:induction false} JoinSnoc(parts: seq<string>, sep: string, x: string)
    requires |parts| >= 1
    ensures Join(parts + [x], sep) == Join(parts, sep) + sep + x
    decreases |parts|
  {
    if |parts| == 1 {
      assert parts + [x] == [parts[0], x];
    } else {
      assert (parts + [x])[1..] == parts[1..] + [x];
      JoinSnoc(parts[1..], sep, x);
    }
  }

  /** A piece without the separator splits into itself. */
  lemma {:induction false} SplitOnWithout(s: string, c: char)
    requires c !in s
    ensures SplitOn(s, c) == [s]
    decreases |s|
  {
    if s != [] {
      assert s[..|s| - 1] + [Last(s)] == s;
      SplitOnWithout(s[..|s| - 1], c);
    }
  }

  /** Splitting distributes over a separator occurrence. */
  lemma {:induction false} SplitOnConcat(x: string, c: char, y: string)
    ensures SplitOn(x + [c] + y, c) == SplitOn(x, c) + SplitOn(y, c)
    decreases |y|
  {
    var z := x + [c] + y;
    if y == [] {
      assert z[..|z| - 1] == x;
      assert Last(z) == c;
    } else {
      var y' := y[..|y| - 1];
      assert z[..|z| - 1] == x + [c] + y';
      assert Last(z) == Last(y);
      SplitOnConcat(x, c, y');
      var a, b := SplitOn(x, c), SplitOn(y', c);
      assert SplitOn(z[..|z| - 1], c) == a + b;
      if Last(y) == c {
        assert SplitOn(z, c) == (a + b) + [[]];
        assert SplitOn(y, c) == b + [[]];
      } else {
        var init := a + b;
        assert init[..|init| - 1] == a + b[..|b| - 1];
        assert Last(init) == Last(b);
        assert SplitOn(z, c) == init[..|init| - 1] + [Last(init) + [Last(z)]];
        assert SplitOn(y, c) == b[..|b| - 1] + [Last(b) + [Last(y)]];
      }
    }
  }

  /** `c.join(parts).split(c) == parts` when no part holds the separator. */
  lemma {:induction false} SplitJoin(parts: seq<string>, c: char)
    requires |parts| >= 1
    requires forall k :: 0 <= k < |parts| ==> c !in parts[k]
    ensures SplitOn(Join(parts, [c]), c) == parts
    decreases |parts|
  {
    SplitOnWithout(parts[0], c);
    if |parts| > 1 {
      SplitJoin(parts[1..], c);
      SplitOnConcat(parts[0], c, Join(parts[1..], [c]));
      assert [parts[0]] + parts[1..] == parts;
    }
  }

  /** `c.join(s.split(c)) == s`: splitting loses nothing. */
  lemma {:induction false} JoinSplit(s: string, c: char)
    ensures Join(SplitOn(s, c), [c]) == s
    decreases |s|
  {
    if s != [] {
      var s' := s[..|s| - 1];
      var init := SplitOn(s', c);
      JoinSplit(s', c);
      assert s' + [Last(s)] == s;
      if Last(s) == c {
        JoinSnoc(init, [c], []);
      } else {
        var front := init[..|init| - 1];
        assert init == front + [Last(init)];
        if |front| == 0 {
          assert Join(init, [c]) == Last(init);
        } else {
          JoinSnoc(front, [c], Last(init));
          JoinSnoc(front, [c], Last(init) + [Last(s)]);
        }
      }
    }
  }

  // ---------------------------------------------------------------------------
  // str.strip()

  /** The first index at or after `i` that does not hold whitespace (or `|s|`). */
  function SpanEnd(s: string, i: nat): (j: nat)
    requires i <= |s|
    ensures i <= j <= |s|
    ensures forall k :: i <= k < j ==> IsSpace(s[k])
    ensures j < |s| ==> !IsSpace(s[j])
    decreases |s| - i
  {
    if i == |s| || !IsSpace(s[i]) then i else SpanEnd(s, i + 1)
  }

  /** The start of the whitespace run that ends at index `j` (exclusive). */
  function TrailStart(s: string, j: nat): (b: nat)
    requires j <= |s|
    ensures b <= j
    ensures forall k :: b <= k < j ==> IsSpace(s[k])
    ensures b > 0 ==> !IsSpace(s[b - 1])
    decreases j
  {
    if j == 0 || !IsSpace(s[j - 1]) then j else TrailStart(s, j - 1)
  }

  predicate AllSpace(s: string) {
    forall k :: 0 <= k < |s| ==> IsSpace(s[k])
  }

  /** Non-empty, and neither starts nor ends with whitespace. */
  predicate Stripped(s: string) {
    s != [] && !IsSpace(s[0]) && !IsSpace(Last(s))
  }

  /** `s.strip()`: leading and trailing whitespace removed. */
  function Strip(s: string): (r: string)
    ensures r == [] <==> AllSpace(s)
    ensures r != [] ==> Stripped(r)
  {
    var a := SpanEnd(s, 0);
    var b := TrailStart(s, |s|);
    if b <= a then
      []
    else
      s[a..b]
  }

  /** The stripped text is a run of consecutive characters of `s`, and only whitespace surrounds it. */
  lemma StripOffset(s: string) returns (a: nat)
    ensures a + |Strip(s)| <= |s| && s[a..a + |Strip(s)|] == Strip(s)
    ensures AllSpace(s[..a]) && AllSpace(s[a + |Strip(s)|..])
  {
    var b := TrailStart(s, |s|);
    a := SpanEnd(s, 0);
    if b <= a {
      a := 0;
    }
  }

  lemma StripStripped(s: string)
    requires Stripped(s)
    ensures Strip(s) == s
  {
    assert SpanEnd(s, 0) == 0;
    assert TrailStart(s, |s|) == |s|;
  }

  // ---------------------------------------------------------------------------
  // str.replace

  /** `s.replace(pat, rep)`: every occurrence of `pat`, left to right and not overlapping. */
  function ReplaceAll(s: string, pat: string, rep: string): string
    requires |pat| > 0
    decreases |s|
  {
    if |s| == 0 then []
    else if StartsWith(s, pat) then rep + ReplaceAll(s[|pat|..], pat, rep)
    else [s[0]] + ReplaceAll(s[1..], pat, rep)
  }
}
