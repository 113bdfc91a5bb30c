/** Character classes and the Python string operations the de-obfuscator is
    built from (`str.replace`, `str.strip`, `int`, `str`), over ASCII text. */
module Text {

  /** `\d`, restricted to ASCII. */
  predicate IsDigit(c: char) {
    '0' <= c <= '9'
  }

  /** `\s`, and equally what `str.strip()` removes, restricted to ASCII:
      the space, the controls 9 to 13 and the separators 28 to 31. */
  predicate IsSpace(c: char) {
    c == ' ' || (9 <= c as int <= 13) || (28 <= c as int <= 31)
  }

  /** `\w`, restricted to ASCII. */
  predicate IsWord(c: char) {
    IsDigit(c) || ('a' <= c <= 'z') || ('A' <= c <= 'Z') || c == '_'
  }

  /** Case folding of ASCII letters, as `re.IGNORECASE` applies it. */
  function Lower(c: char): char {
    if 'A' <= c <= 'Z' then (c as int + 32) as char else c
  }

  /** The letters of `a` equal those of `b` up to ASCII case. */
  predicate SameIgnoringCase(a: string, b: string) {
    |a| == |b| && forall k :: 0 <= k < |a| ==> Lower(a[k]) == Lower(b[k])
  }

  predicate AllDigits(s: string) {
    forall k :: 0 <= k < |s| ==> IsDigit(s[k])
  }

  // ---------------------------------------------------------------------
  // Decimal numbers: `int(x, 10)` and `str(n)`
  // ---------------------------------------------------------------------

  function DigitChar(d: nat): (c: char)
    requires d < 10
    ensures IsDigit(c)
  {
    ('0' as int + d) as char
  }

  function DigitValue(c: char): nat
    requires IsDigit(c)
  {
    c as int - '0' as int
  }

  /** `int(s, 10)` for a non-empty run of ASCII digits (leading zeros allowed). */
  function DecimalValue(s: string): nat
    requires AllDigits(s)
    decreases |s|
  {
    if s == [] then 0 else 10 * DecimalValue(s[..|s| - 1]) + DigitValue(s[|s| - 1])
  }

  /** `str(n)`: the decimal spelling of `n`, which reads back as `n`. */
  function DecimalString(n: nat): (r: string)
    ensures |r| > 0 && AllDigits(r)
    ensures DecimalValue(r) == n
    decreases n
  {
    if n < 10 then [DigitChar(n)]
    else
      var front := DecimalString(n / 10);
      var r := front + [DigitChar(n % 10)];
      assert r[..|r| - 1] == front;
      r
  }

  /** Distinct numbers are spelled differently. */
  lemma DecimalStringInjective(m: nat, n: nat)
    requires DecimalString(m) == DecimalString(n)
    ensures m == n
  {
  }

  // ---------------------------------------------------------------------
  // Substring search and `str.replace`
  // ---------------------------------------------------------------------

  /** `pat` occurs in `s` starting at index `j`. */
  predicate OccursAt(s: string, pat: string, j: nat) {
    j + |pat| <= |s| && s[j..j + |pat|] == pat
  }

  predicate Occurs(s: string, pat: string) {
    exists j: nat | j <= |s| :: OccursAt(s, pat, j)
  }

  lemma OccursInTail(s: string, pat: string)
    requires |s| > 0
    ensures Occurs(s[1..], pat) ==> Occurs(s, pat)
  {
    if Occurs(s[1..], pat) {
      var j: nat :| j <= |s| - 1 && OccursAt(s[1..], pat, j);
      assert s[j + 1..j + 1 + |pat|] == s[1..][j..j + |pat|];
      assert OccursAt(s, pat, j + 1);
    }
  }

  lemma OccursInSuffix(s: string, k: nat, pat: string)
    requires k <= |s|
    ensures Occurs(s[k..], pat) ==> Occurs(s, pat)
  {
    if Occurs(s[k..], pat) {
      var j: nat :| j <= |s| - k && OccursAt(s[k..], pat, j);
      assert s[j + k..j + k + |pat|] == s[k..][j..j + |pat|];
      assert OccursAt(s, pat, j + k);
    }
  }

  lemma OccursPastHead(s: string, pat: string)
    requires |s| > 0 && !OccursAt(s, pat, 0)
    ensures Occurs(s, pat) ==> Occurs(s[1..], pat)
  {
    if Occurs(s, pat) {
      var j: nat :| j <= |s| && OccursAt(s, pat, j);
      assert j >= 1;
      assert s[1..][j - 1..j - 1 + |pat|] == s[j..j + |pat|];
      assert OccursAt(s[1..], pat, j - 1);
    }
  }

  /** `s.replace(pat, rep)` for a non-empty `pat`: every occurrence found by a
      left-to-right scan, without overlaps, is replaced by `rep`. */
  function ReplaceAll(s: string, pat: string, rep: string): (r: string)
    requires |pat| > 0
    ensures !Occurs(s, pat) ==> r == s
    decreases |s|
  {
    if |s| == 0 then []
    else if |pat| <= |s| && s[..|pat|] == pat then
      assert OccursAt(s, pat, 0);
      rep + ReplaceAll(s[|pat|..], pat, rep)
    else
      OccursInTail(s, pat);
      assert [s[0]] + s[1..] == s;
      [s[0]] + ReplaceAll(s[1..], pat, rep)
  }

  /** A character absent from a text does not occur in it as a pattern. */
  lemma AbsentCharNoOccurrence(s: string, c: char)
    requires c !in s
    ensures !Occurs(s, [c])
  {
    forall j: nat | j <= |s| ensures !OccursAt(s, [c], j) {
      if j < |s| {
        assert s[j..j + 1][0] == s[j];
      }
    }
  }

  /** Concatenation is associative; stated once so that proofs about
      long concatenations can cite it instead of re-deriving it. */
  lemma ConcatAssoc(x: string, y: string, z: string)
    ensures x + (y + z) == (x + y) + z
  {
  }

  /** Replacement at a text that starts with the pattern. */
  lemma ReplaceAllAtPattern(pat: string, rest: string, rep: string)
    requires |pat| > 0
    ensures ReplaceAll(pat + rest, pat, rep) == rep + ReplaceAll(rest, pat, rep)
  {
    assert (pat + rest)[..|pat|] == pat;
    assert (pat + rest)[|pat|..] == rest;
  }

  /** A text that is exactly the pattern becomes the replacement. */
  lemma ReplaceAllWhole(pat: string, rep: string)
    requires |pat| > 0
    ensures ReplaceAll(pat, pat, rep) == rep
  {
    ReplaceAllAtPattern(pat, [], rep);
    assert pat + [] == pat;
  }

  /** Replacement at a character the pattern cannot start with. */
  lemma ReplaceAllPastChar(c: char, rest: string, pat: string, rep: string)
    requires |pat| > 0 && pat[0] != c
    ensures ReplaceAll([c] + rest, pat, rep) == [c] + ReplaceAll(rest, pat, rep)
  {
    assert ([c] + rest)[1..] == rest;
  }

  /** Where the pattern does not start, the first character is copied. */
  lemma ReplaceAllMiss(s: string, pat: string, rep: string)
    requires |pat| > 0 && |s| > 0
    requires |pat| > |s| || s[..|pat|] != pat
    ensures ReplaceAll(s, pat, rep) == [s[0]] + ReplaceAll(s[1..], pat, rep)
  {
  }

  /** A text that cannot start the pattern anywhere is copied as it is. */
  lemma {:induction false} ReplaceAllPastText(t: string, u: string, pat: string, rep: string)
    requires |pat| > 0 && pat[0] !in t
    ensures ReplaceAll(t + u, pat, rep) == t + ReplaceAll(u, pat, rep)
    decreases |t|
  {
    if t != [] {
      var h, rest := t[0], t[1..];
      assert t == [h] + rest;
      ConcatAssoc([h], rest, u);
      ReplaceAllPastChar(h, rest + u, pat, rep);
      ReplaceAllPastText(rest, u, pat, rep);
      ConcatAssoc([h], rest, ReplaceAll(u, pat, rep));
    } else {
      assert t + u == u;
    }
  }

  /** A property holds along a non-empty sequence exactly when it holds at its head and along its tail. */
  lemma AllCons<T>(xs: seq<T>, p: T -> bool)
    requires xs != []
    ensures (forall k :: 0 <= k < |xs| ==> p(xs[k])) <==>
              p(xs[0]) && forall k :: 0 <= k < |xs[1..]| ==> p(xs[1..][k])
  {
    assert forall k :: 1 <= k < |xs| ==> xs[1..][k - 1] == xs[k];
  }

  /** `x` opens with `(`, closes with `)` and has neither in between. */
  predicate Framed(x: string) {
    && |x| >= 2 && x[0] == '(' && x[|x| - 1] == ')'
    && forall i :: 0 < i < |x| - 1 ==> x[i] != '(' && x[i] != ')'
  }

  /** Two framed texts that both start a text are the same: the shorter
      one's `)` would otherwise sit inside the longer one. */
  lemma FramedPrefixes(s: string, a: string, b: string)
    requires Framed(a) && Framed(b) && OccursAt(s, a, 0) && OccursAt(s, b, 0)
    ensures a == b
  {
    assert b[|a| - 1] == s[|a| - 1] == a[|a| - 1] && a[|b| - 1] == s[|b| - 1] == b[|b| - 1];
    assert a == s[..|a|];
  }

  /** A framed text survives the replacement of another framed text: no
      occurrence of the one overlaps an occurrence of the other. */
  lemma {:induction false} ReplaceAllKeepsFramed(s: string, pat: string, rep: string, x: string)
    requires Framed(pat) && Framed(x) && pat != x && Occurs(s, x)
    ensures Occurs(ReplaceAll(s, pat, rep), x)
    decreases |s|
  {
    var j: nat :| j <= |s| && OccursAt(s, x, j);
    if OccursAt(s, pat, 0) {
      var tail := PastPattern(s, pat, x, j);
      ReplaceAllKeepsFramed(tail, pat, rep, x);
      assert s[..|pat|] == pat;
      OccursBehind(rep, ReplaceAll(tail, pat, rep), x);
    } else if j == 0 {
      KeptAtStart(s, pat, rep, x);
    } else {
      assert s[1..][j - 1..j - 1 + |x|] == s[j..j + |x|];
      assert OccursAt(s[1..], x, j - 1);
      ReplaceAllKeepsFramed(s[1..], pat, rep, x);
      OccursBehind([s[0]], ReplaceAll(s[1..], pat, rep), x);
    }
  }

  /** An occurrence of `x` lies wholly behind an occurrence of `pat` at the
      start. */
  lemma PastPattern(s: string, pat: string, x: string, j: nat) returns (tail: string)
    requires Framed(pat) && Framed(x) && pat != x && OccursAt(s, pat, 0) && OccursAt(s, x, j)
    ensures tail == s[|pat|..] && Occurs(tail, x)
  {
    if j < |pat| {
      assert pat[j] == s[j] == x[0];
      FramedPrefixes(s, pat, x);
    }
    tail := s[|pat|..];
    assert tail[j - |pat|..j - |pat| + |x|] == s[j..j + |x|];
    assert OccursAt(tail, x, j - |pat|);
  }

  /** A framed text at the start, where `pat` does not start, is copied:
      `pat` cannot start inside it either. */
  lemma KeptAtStart(s: string, pat: string, rep: string, x: string)
    requires Framed(pat) && Framed(x) && OccursAt(s, x, 0) && !OccursAt(s, pat, 0)
    ensures OccursAt(ReplaceAll(s, pat, rep), x, 0)
  {
    var after := s[|x|..];
    assert '(' !in x[1..] by {
      forall i | 0 <= i < |x| - 1 ensures x[1..][i] != '(' {
        assert x[1..][i] == x[i + 1];
      }
    }
    assert s[1..] == x[1..] + after by {
      assert s[1..|x|] == s[..|x|][1..] == x[1..];
      assert s[1..] == s[1..|x|] + after;
    }
    ReplaceAllPastText(x[1..], after, pat, rep);
    ReplaceAllMiss(s, pat, rep);
    var r := ReplaceAll(s, pat, rep);
    assert r == [s[0]] + (x[1..] + ReplaceAll(after, pat, rep));
    assert r[..|x|] == x;
  }

  /** An occurrence in `t` is one in any text that ends with `t`. */
  lemma OccursBehind(p: string, t: string, x: string)
    requires Occurs(t, x)
    ensures Occurs(p + t, x)
  {
    assert (p + t)[|p|..] == t;
    OccursInSuffix(p + t, |p|, x);
  }

  /** The first character of a replacement is either the first character of
      the input or, when the input starts with `pat`, that of `rep`. */
  lemma ReplaceAllHead(s: string, pat: string, rep: string)
    requires |pat| > 0 && |rep| > 0 && |s| > 0
    ensures |ReplaceAll(s, pat, rep)| > 0
    ensures ReplaceAll(s, pat, rep)[0] == s[0]
         || (OccursAt(s, pat, 0) && ReplaceAll(s, pat, rep)[0] == rep[0])
  {
  }

  /** `s.replace(c, "")`. */
  function RemoveAll(s: string, c: char): (r: string)
    ensures |r| <= |s| && c !in r
    ensures forall x :: x in r ==> x in s
    ensures c !in s ==> r == s
    decreases |s|
  {
    if s == [] then []
    else
      var rest := RemoveAll(s[1..], c);
      assert s == [s[0]] + s[1..];
      if s[0] == c then rest else [s[0]] + rest
  }

  lemma {:induction false} RemoveAllConcat(a: string, b: string, c: char)
    ensures RemoveAll(a + b, c) == RemoveAll(a, c) + RemoveAll(b, c)
    decreases |a|
  {
    if a == [] {
      assert a + b == b;
    } else {
      assert (a + b)[1..] == a[1..] + b;
      RemoveAllConcat(a[1..], b, c);
    }
  }

  /** Deleting a single character is the replacement of that one-character
      string by the empty string. */
  lemma {:induction false} RemoveAllIsReplaceAll(s: string, c: char)
    ensures RemoveAll(s, c) == ReplaceAll(s, [c], [])
    decreases |s|
  {
    if s != [] {
      RemoveAllIsReplaceAll(s[1..], c);
      if s[0] == c {
        assert s[..1] == [c];
      } else {
        assert s[..1] != [c];
      }
    }
  }

  // ---------------------------------------------------------------------
  // `str.strip()`
  // ---------------------------------------------------------------------

  function StripLeft(s: string): (r: string)
    ensures |r| <= |s| && r == s[|s| - |r|..]
    ensures forall k :: 0 <= k < |s| - |r| ==> IsSpace(s[k])
    ensures r == [] || !IsSpace(r[0])
    ensures (s == [] || !IsSpace(s[0])) ==> r == s
    ensures forall x :: x in r ==> x in s
    decreases |s|
  {
    if s != [] && IsSpace(s[0]) then StripLeft(s[1..]) else s
  }

  function StripRight(s: string): (r: string)
    ensures |r| <= |s| && r == s[..|r|]
    ensures forall k :: |r| <= k < |s| ==> IsSpace(s[k])
    ensures r == [] || !IsSpace(r[|r| - 1])
    ensures (s == [] || !IsSpace(s[|s| - 1])) ==> r == s
    ensures forall x :: x in r ==> x in s
    decreases |s|
  {
    if s != [] && IsSpace(s[|s| - 1]) then StripRight(s[..|s| - 1]) else s
  }

  /** `s.strip()`: the longest middle piece of `s` with no whitespace at
      either end. */
  function Strip(s: string): (r: string)
    ensures r == [] || (!IsSpace(r[0]) && !IsSpace(r[|r| - 1]))
    ensures (s == [] || (!IsSpace(s[0]) && !IsSpace(s[|s| - 1]))) ==> r == s
    ensures |r| <= |s| && forall x :: x in r ==> x in s
  {
    var left := StripLeft(s);
    var r := StripRight(left);
    assert r != [] ==> r[0] == left[0];
    r
  }

  /** What `strip` takes away is whitespace at the two ends, and nothing
      else: the result is a slice of the input. */
  lemma StripCutsSpace(s: string)
    ensures exists i, j :: 0 <= i <= j <= |s| && Strip(s) == s[i..j] &&
              (forall k :: 0 <= k < i ==> IsSpace(s[k])) && (forall k :: j <= k < |s| ==> IsSpace(s[k]))
  {
    var left := StripLeft(s);
    SliceOfSuffix(s, left, StripRight(left));
  }

  /** A piece cut from the front of a suffix, with whitespace behind it, is
      a piece of the whole with whitespace behind it. */
  lemma SliceOfSuffix(s: string, left: string, r: string)
    requires |left| <= |s| && left == s[|s| - |left|..]
    requires |r| <= |left| && r == left[..|r|]
    requires forall k :: |r| <= k < |left| ==> IsSpace(left[k])
    ensures r == s[|s| - |left|..|s| - |left| + |r|]
    ensures forall k :: |s| - |left| + |r| <= k < |s| ==> IsSpace(s[k])
  {
    var i := |s| - |left|;
    assert forall k :: i <= k < |s| ==> s[k] == left[k - i];
  }

  // ---------------------------------------------------------------------
  // Occurrences of the format operator `-f` (either case)
  // ---------------------------------------------------------------------

  predicate IsF(c: char) {
    c == 'f' || c == 'F'
  }

  /** The number of places where `-f` or `-F` occurs in `s`. */
  function DashFCount(s: string): nat
    decreases |s|
  {
    if |s| < 2 then 0
    else (if s[0] == '-' && IsF(s[1]) then 1 else 0) + DashFCount(s[1..])
  }

  /** The `-f` that straddles the join of `a` and `b`, if any. */
  function Seam(a: string, b: string): nat {
    if |a| > 0 && |b| > 0 && a[|a| - 1] == '-' && IsF(b[0]) then 1 else 0
  }

  lemma {:induction false} DashFCountConcat(a: string, b: string)
    ensures DashFCount(a + b) == DashFCount(a) + DashFCount(b) + Seam(a, b)
    decreases |a|
  {
    if |a| == 0 {
      assert a + b == b;
    } else if |a| == 1 {
      if |b| == 0 {
        assert a + b == a;
      } else {
        assert (a + b)[1..] == b;
      }
    } else {
      assert (a + b)[1..] == a[1..] + b;
      DashFCountConcat(a[1..], b);
    }
  }

  lemma {:induction false} DashFCountPositive(s: string, i: nat)
    requires i + 1 < |s| && s[i] == '-' && IsF(s[i + 1])
    ensures DashFCount(s) >= 1
    decreases i
  {
    if i > 0 {
      DashFCountPositive(s[1..], i - 1);
    }
  }

  /** A text that cannot take part in a `-f` across its edges. */
  predicate Inert(t: string) {
    |t| > 0 && !IsF(t[0]) && t[|t| - 1] != '-'
  }

  /** Replacing a text holding `-f` by one without it never adds a `-f`, and
      removes at least one when the text occurs. */
  lemma {:induction false} ReplaceAllLowersDashF(s: string, pat: string, rep: string)
    requires Inert(pat) && Inert(rep)
    requires DashFCount(pat) >= 1 && DashFCount(rep) == 0
    ensures DashFCount(ReplaceAll(s, pat, rep)) <= DashFCount(s)
    ensures Occurs(s, pat) ==> DashFCount(ReplaceAll(s, pat, rep)) < DashFCount(s)
    decreases |s|
  {
    if |s| == 0 {
    } else if |pat| <= |s| && s[..|pat|] == pat {
      var rest := s[|pat|..];
      ReplaceAllLowersDashF(rest, pat, rep);
      assert s == pat + rest;
      DashFCountConcat(pat, rest);
      DashFCountConcat(rep, ReplaceAll(rest, pat, rep));
    } else {
      var tail := s[1..];
      var rt := ReplaceAll(tail, pat, rep);
      ReplaceAllLowersDashF(tail, pat, rep);
      assert s == [s[0]] + tail;
      DashFCountConcat([s[0]], tail);
      DashFCountConcat([s[0]], rt);
      if |tail| > 0 {
        ReplaceAllHead(tail, pat, rep);
      }
      OccursPastHead(s, pat);
    }
  }
}
