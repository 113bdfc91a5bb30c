/** Scanners for the regular expressions of `deobfuscate_powershell_reorder`.

    Every pattern used there is deterministic at a given start position.
    Almost every repetition is a run of one character class followed by a
    character outside that class, so taking the maximal run is what the
    backtracking matcher ends with. The one exception is the `\s*` in front
    of the fragment list of the finder: whitespace belongs to the fragment
    class too, and when the whole fragment run is whitespace the matcher
    backs off one character so that the fragment group is not empty;
    `FinderPrefix` models that case explicitly. The scanners below work on a
    suffix of the text; `finditer` and `findall` become a left-to-right walk
    that, after a match, resumes right behind it and otherwise moves on by
    one character. */
module Scanner {
  import opened Text

  datatype Option<T> = None | Some(value: T)

  /** The character classes of the patterns. */
  datatype Class =
    | Digits         // decimal digits
    | Spaces         // whitespace
    | TemplateChars  // the template run: braces, digits and `+`
    | ContentChars   // the inside of one quoted fragment
    | FragmentChars  // the whole fragment list: content characters and `'`

  /** Word characters, whitespace and `| , . - = / : # _ { } [ ]`. */
  predicate IsContentChar(c: char) {
    IsWord(c) || IsSpace(c) || c in "|,.-=/:#_{}[]"
  }

  predicate InClass(k: Class, c: char) {
    match k
    case Digits => IsDigit(c)
    case Spaces => IsSpace(c)
    case TemplateChars => c == '{' || c == '}' || c == '+' || IsDigit(c)
    case ContentChars => IsContentChar(c)
    case FragmentChars => IsContentChar(c) || c == '\''
  }

  /** Length of the maximal prefix of `s` inside class `k`. */
  function Run(s: string, k: Class): (n: nat)
    ensures n <= |s|
    ensures forall j :: 0 <= j < n ==> InClass(k, s[j])
    ensures n < |s| ==> !InClass(k, s[n])
    decreases |s|
  {
    if s != [] && InClass(k, s[0]) then 1 + Run(s[1..], k) else 0
  }

  /** A run is determined by where it stops. */
  lemma RunIs(s: string, k: Class, n: nat)
    requires n <= |s|
    requires forall j :: 0 <= j < n ==> InClass(k, s[j])
    requires n < |s| ==> !InClass(k, s[n])
    ensures Run(s, k) == n
  {
  }

  /** Whitespace is part of the fragment class, so the `\s*` in front of the
      fragment list never reaches past the fragment run. */
  lemma SpaceRunWithinFragmentRun(s: string)
    ensures Run(s, Spaces) <= Run(s, FragmentChars)
  {
  }

  // ---------------------------------------------------------------------
  // The finder: `("TEMPLATE" -f FRAGMENTS)` (psdecode.py:60)
  // ---------------------------------------------------------------------

  /** One match of the finder: the matched text and the two captured groups. */
  datatype FinderMatch = FinderMatch(text: string, template: string, fragments: string)

  /** What every finder match looks like: it opens with `(`, closes with `)`
      and holds at least one `-f`. */
  predicate FinderShaped(t: string) {
    |t| >= 2 && t[0] == '(' && t[|t| - 1] == ')' && DashFCount(t) >= 1
  }

  /** The finder match starting at the first character of `s`, if any:
      `("`, a non-empty template run, `"`, whitespace, `-f` in either case,
      then a non-empty fragment run that must be followed by `)`. The second
      group leaves out the whitespace taken by the `\s*` before it, which is
      all but the last character when the whole run is whitespace. */
  function FinderPrefix(s: string): (r: Option<FinderMatch>)
    ensures r.Some? ==> |r.value.text| <= |s| && r.value.text == s[..|r.value.text|]
    ensures r.Some? ==> FinderShaped(r.value.text)
  {
    if |s| < 2 || s[0] != '(' || s[1] != '"' then None
    else FinderFromTemplate(s, 2 + Run(s[2..], TemplateChars))
  }

  /** The finder once the template run has stopped at `t`. */
  function FinderFromTemplate(s: string, t: nat): (r: Option<FinderMatch>)
    requires |s| >= 2 && s[0] == '(' && 2 <= t <= |s|
    ensures r.Some? ==> |r.value.text| <= |s| && r.value.text == s[..|r.value.text|]
    ensures r.Some? ==> FinderShaped(r.value.text)
  {
    if t == 2 || t == |s| || s[t] != '"' then None
    else FinderFromDash(s, t, t + 1 + Run(s[t + 1..], Spaces))
  }

  /** The finder once the whitespace after the template has stopped at `w`. */
  function FinderFromDash(s: string, t: nat, w: nat): (r: Option<FinderMatch>)
    requires |s| >= 2 && s[0] == '(' && 2 < t < w <= |s|
    ensures r.Some? ==> |r.value.text| <= |s| && r.value.text == s[..|r.value.text|]
    ensures r.Some? ==> FinderShaped(r.value.text)
  {
    if w + 2 > |s| || s[w] != '-' || !IsF(s[w + 1]) then None
    else FinderFromFragments(s, t, w, w + 2 + Run(s[w + 2..], FragmentChars))
  }

  /** The finder once the fragment run has stopped at `e`. */
  function FinderFromFragments(s: string, t: nat, w: nat, e: nat): (r: Option<FinderMatch>)
    requires |s| >= 2 && s[0] == '(' && 2 < t < w && w + 2 <= e <= |s|
    requires s[w] == '-' && IsF(s[w + 1]) && e == w + 2 + Run(s[w + 2..], FragmentChars)
    ensures r.Some? ==> |r.value.text| <= |s| && r.value.text == s[..|r.value.text|]
    ensures r.Some? ==> FinderShaped(r.value.text)
  {
    if e == w + 2 || e == |s| || s[e] != ')' then None
    else
      SpaceRunWithinFragmentRun(s[w + 2..]);
      var g := w + 2 + Run(s[w + 2..], Spaces);
      ShapedPrefix(s, w, e);
      Some(FinderMatch(s[..e + 1], s[2..t], s[if g == e then e - 1 else g..e]))
  }

  /** A prefix that opens with `(`, closes with `)` and holds `-f` in
      between has the shape of a finder match. */
  lemma ShapedPrefix(s: string, w: nat, e: nat)
    requires w + 1 < e < |s|
    requires s[0] == '(' && s[e] == ')' && s[w] == '-' && IsF(s[w + 1])
    ensures FinderShaped(s[..e + 1])
  {
    DashFCountPositive(s[..e + 1], w);
  }

  /** Every character of `t` is whitespace. */
  predicate AllSpace(t: string) {
    forall j :: 0 <= j < |t| ==> IsSpace(t[j])
  }

  /** The parts of a finder match, read left to right: `("`, the template
      group (a run of the template class), `"`, whitespace, `-f` in either
      case, whitespace, the fragment group (a run of the fragment class that
      starts with a non-blank unless it is one character) and `)`. */
  predicate FinderParts(m: FinderMatch) {
    FinderFrame(m) && GroupClasses(m) && DashBetween(m)
  }

  /** The delimiters of a finder match and where its two groups sit. */
  predicate FinderFrame(m: FinderMatch) {
    var t, n := m.text, |m.template|;
    && n > 0 && m.fragments != [] && n + 5 + |m.fragments| < |t|
    && t[0] == '(' && t[1] == '"' && t[2..n + 2] == m.template && t[n + 2] == '"'
    && t[|t| - 1 - |m.fragments|..|t| - 1] == m.fragments && t[|t| - 1] == ')'
  }

  /** Each group is a run of its class, and the fragment group starts with a
      non-blank unless it is a single character. */
  predicate GroupClasses(m: FinderMatch) {
    && AllIn(m.template, TemplateChars) && AllIn(m.fragments, FragmentChars)
    && (|m.fragments| <= 1 || !IsSpace(m.fragments[0]))
  }

  /** Every character of `x` is in class `k`. */
  predicate AllIn(x: string, k: Class) {
    forall j :: 0 <= j < |x| ==> InClass(k, x[j])
  }

  /** Between the closing quote of the template and the fragment group there
      is `-f` in either case, with only whitespace around it. */
  predicate DashBetween(m: FinderMatch) {
    exists w :: 0 <= w < |m.text| && DashAt(m, w)
  }

  /** `-f` sits at `w` of the text of `m`, with only whitespace around it. */
  predicate DashAt(m: FinderMatch, w: int) {
    var t, n, g := m.text, |m.template|, |m.text| - 1 - |m.fragments|;
    && n + 3 <= w <= g - 2 && t[w] == '-' && IsF(t[w + 1])
    && AllSpace(t[n + 3..w]) && AllSpace(t[w + 2..g])
  }

  /** Soundness of the finder: what it reports is made of the parts of the
      pattern, in order. */
  lemma FinderPrefixSound(s: string)
    ensures FinderPrefix(s).Some? ==> FinderParts(FinderPrefix(s).value)
  {
    if FinderPrefix(s).Some? {
      FromTemplateSound(s, 2 + Run(s[2..], TemplateChars));
    }
  }

  lemma FromTemplateSound(s: string, t: nat)
    requires |s| >= 2 && s[0] == '(' && s[1] == '"' && t == 2 + Run(s[2..], TemplateChars)
    ensures FinderFromTemplate(s, t).Some? ==> FinderParts(FinderFromTemplate(s, t).value)
  {
    if FinderFromTemplate(s, t).Some? {
      var w := t + 1 + Run(s[t + 1..], Spaces);
      assert FinderFromTemplate(s, t) == FinderFromDash(s, t, w);
      RunSlice(s, 2, 2, t, TemplateChars);
      assert TemplateDone(s, t);
      FromDashSound(s, t, w);
    }
  }

  /** `("`, a template run and `"` open the text, the latter at `t`. */
  predicate TemplateDone(s: string, t: nat) {
    |s| >= 2 && s[0] == '(' && s[1] == '"' && 2 < t < |s| && s[t] == '"' && AllIn(s[2..t], TemplateChars)
  }

  /** `-f`, in either case, at `w`. */
  predicate DashFound(s: string, w: nat) {
    w + 2 <= |s| && s[w] == '-' && IsF(s[w + 1])
  }

  lemma FromDashSound(s: string, t: nat, w: nat)
    requires TemplateDone(s, t) && w == t + 1 + Run(s[t + 1..], Spaces)
    ensures FinderFromDash(s, t, w).Some? ==> FinderParts(FinderFromDash(s, t, w).value)
  {
    if FinderFromDash(s, t, w).Some? {
      DashStep(s, t, w);
      var e := w + 2 + Run(s[w + 2..], FragmentChars);
      var r := FinderFromFragments(s, t, w, e);
      assert r.Some?;
      FromFragmentsSound(s, t, w, e);
    }
  }

  /** Past the dash, the finder is decided by the fragment run. */
  lemma DashStep(s: string, t: nat, w: nat)
    requires TemplateDone(s, t) && w == t + 1 + Run(s[t + 1..], Spaces) && FinderFromDash(s, t, w).Some?
    ensures DashFound(s, w) && t < w && AllSpace(s[t + 1..w])
    ensures FinderFromDash(s, t, w) == FinderFromFragments(s, t, w, w + 2 + Run(s[w + 2..], FragmentChars))
  {
    SpacesAfter(s, t + 1, w);
  }

  lemma SpacesAfter(s: string, lo: nat, w: nat)
    requires lo <= |s| && w == lo + Run(s[lo..], Spaces)
    ensures w <= |s| && AllSpace(s[lo..w])
  {
    SpacesWithinRun(s, lo, w);
  }

  lemma FromFragmentsSound(s: string, t: nat, w: nat, e: nat)
    requires TemplateDone(s, t) && DashFound(s, w) && t < w && AllSpace(s[t + 1..w])
    requires e == w + 2 + Run(s[w + 2..], FragmentChars) && FinderFromFragments(s, t, w, e).Some?
    ensures FinderParts(FinderFromFragments(s, t, w, e).value)
  {
    SpaceRunWithinFragmentRun(s[w + 2..]);
    var g := w + 2 + Run(s[w + 2..], Spaces);
    var g' := if g == e then e - 1 else g;
    var m := FinderMatch(s[..e + 1], s[2..t], s[g'..e]);
    assert FinderFromFragments(s, t, w, e) == Some(m);
    FragmentStops(s, t, w, e, g);
    StopsFrame(s, t, w, e, g', m);
    StopsClasses(s, t, w, e, g', m);
    StopsDash(s, t, w, e, g', m);
  }

  lemma FragmentStops(s: string, t: nat, w: nat, e: nat, g: nat)
    requires TemplateDone(s, t) && DashFound(s, w) && t < w && AllSpace(s[t + 1..w])
    requires w + 2 < e < |s| && s[e] == ')'
    requires e == w + 2 + Run(s[w + 2..], FragmentChars) && g == w + 2 + Run(s[w + 2..], Spaces) && g <= e
    ensures PlainStops(s, t, w, e, if g == e then e - 1 else g)
  {
    FragmentRunPart(s, w, e, if g == e then e - 1 else g);
    SpaceRunPart(s, w, e, g);
  }

  lemma FragmentRunPart(s: string, w: nat, e: nat, g': nat)
    requires w + 2 <= g' <= e <= |s| && e == w + 2 + Run(s[w + 2..], FragmentChars)
    ensures AllIn(s[g'..e], FragmentChars)
  {
    RunSlice(s, w + 2, g', e, FragmentChars);
  }

  lemma SpaceRunPart(s: string, w: nat, e: nat, g: nat)
    requires w + 2 <= g <= e < |s| && w + 2 < e && g == w + 2 + Run(s[w + 2..], Spaces)
    ensures AllSpace(s[w + 2..if g == e then e - 1 else g])
    ensures g < e ==> !IsSpace(s[g])
  {
    SpacesWithinRun(s, w + 2, if g == e then e - 1 else g);
    if g < e {
      RunStop(s, w + 2, Spaces);
    }
  }

  /** What the stopping points of the runs say about the characters of `s`,
      with `g'` the start of the fragment group. */
  predicate PlainStops(s: string, t: nat, w: nat, e: nat, g': nat) {
    && 2 < t < w && w + 2 <= g' < e < |s|
    && s[0] == '(' && s[1] == '"' && s[t] == '"' && s[w] == '-' && IsF(s[w + 1]) && s[e] == ')'
    && AllIn(s[2..t], TemplateChars) && AllIn(s[g'..e], FragmentChars)
    && AllSpace(s[t + 1..w]) && AllSpace(s[w + 2..g'])
    && (g' + 1 < e ==> !IsSpace(s[g']))
  }

  lemma StopsFrame(s: string, t: nat, w: nat, e: nat, g': nat, m: FinderMatch)
    requires PlainStops(s, t, w, e, g')
    requires m == FinderMatch(s[..e + 1], s[2..t], s[g'..e])
    ensures FinderFrame(m)
  {
    var x := m.text;
    assert x[2..t] == s[2..t];
    assert x[g'..e] == s[g'..e];
  }

  lemma StopsClasses(s: string, t: nat, w: nat, e: nat, g': nat, m: FinderMatch)
    requires PlainStops(s, t, w, e, g')
    requires m == FinderMatch(s[..e + 1], s[2..t], s[g'..e])
    ensures GroupClasses(m)
  {
  }

  lemma StopsDash(s: string, t: nat, w: nat, e: nat, g': nat, m: FinderMatch)
    requires PlainStops(s, t, w, e, g')
    requires m == FinderMatch(s[..e + 1], s[2..t], s[g'..e])
    ensures DashBetween(m)
  {
    assert m.text[t + 1..w] == s[t + 1..w];
    assert m.text[w + 2..g'] == s[w + 2..g'];
    assert DashAt(m, w);
  }

  /** A stretch inside the run of class `k` that starts at `lo0`. */
  lemma RunSlice(s: string, lo0: nat, lo: nat, hi: nat, k: Class)
    requires lo0 <= lo <= hi <= |s| && hi - lo0 <= Run(s[lo0..], k)
    ensures AllIn(s[lo..hi], k)
  {
    assert forall j :: 0 <= j < hi - lo ==> s[lo..hi][j] == s[lo0..][lo - lo0 + j];
  }

  /** The character a run stops at is outside its class. */
  lemma RunStop(s: string, lo: nat, k: Class)
    requires lo <= |s| && lo + Run(s[lo..], k) < |s|
    ensures !InClass(k, s[lo + Run(s[lo..], k)])
  {
  }

  /** A stretch inside a whitespace run of `s` is all whitespace. */
  lemma SpacesWithinRun(s: string, lo: nat, hi: nat)
    requires lo <= hi <= |s| && hi - lo <= Run(s[lo..], Spaces)
    ensures AllSpace(s[lo..hi])
  {
    assert forall j :: 0 <= j < hi - lo ==> s[lo..hi][j] == s[lo..][j];
  }

  /** The run of class `k` from position `lo` of `s`, in the indices of `s`. */
  lemma RunFacts(s: string, k: Class, lo: nat)
    requires lo <= |s|
    ensures lo + Run(s[lo..], k) <= |s|
    ensures forall j :: lo <= j < lo + Run(s[lo..], k) ==> InClass(k, s[j])
    ensures lo + Run(s[lo..], k) < |s| ==> !InClass(k, s[lo + Run(s[lo..], k)])
  {
    var n := Run(s[lo..], k);
    assert forall j :: lo <= j < lo + n ==> s[j] == s[lo..][j - lo];
  }

  /** A run of class `k` from `lo` ends where the class first fails. */
  lemma RunEndsAt(s: string, lo: nat, hi: nat, k: Class)
    requires lo <= hi <= |s| && AllIn(s[lo..hi], k)
    requires hi < |s| ==> !InClass(k, s[hi])
    ensures Run(s[lo..], k) == hi - lo
  {
    assert forall j :: 0 <= j < hi - lo ==> s[lo..][j] == s[lo..hi][j];
    RunIs(s[lo..], k, hi - lo);
  }

  /** Completeness of the finder: text made of the parts of the pattern,
      in order, is matched as a whole, with exactly those groups, whatever
      follows it. */
  lemma FinderPrefixComplete(m: FinderMatch, rest: string)
    requires FinderParts(m)
    ensures FinderPrefix(m.text + rest) == Some(m)
  {
    var w :| 0 <= w < |m.text| && DashAt(m, w);
    CompleteAt(m, rest, w);
  }

  /** A text made of the parts of the pattern is matched as a whole. */
  lemma FinderPrefixWhole(m: FinderMatch)
    requires FinderParts(m)
    ensures FinderPrefix(m.text) == Some(m)
  {
    FinderPrefixComplete(m, []);
    assert m.text + [] == m.text;
  }

  lemma CompleteAt(m: FinderMatch, rest: string, w: nat)
    requires FinderParts(m) && w < |m.text| && DashAt(m, w)
    ensures FinderPrefix(m.text + rest) == Some(m)
  {
    var s := m.text + rest;
    var t, e := |m.template| + 2, |m.text| - 1;
    var g := e - |m.fragments|;
    PartsStops(m, rest, w);
    StopsMatch(s, t, w, e, g);
    GroupsOfParts(m, rest);
  }

  /** The groups of a match are where its frame puts them, whatever
      follows the match. */
  lemma GroupsOfParts(m: FinderMatch, rest: string)
    requires FinderFrame(m)
    ensures var s, e := m.text + rest, |m.text| - 1;
      FinderMatch(s[..e + 1], s[2..|m.template| + 2], s[e - |m.fragments|..e]) == m
  {
    var s, x, e := m.text + rest, m.text, |m.text| - 1;
    assert s[..e + 1] == x;
    assert s[2..|m.template| + 2] == x[2..|m.template| + 2];
    assert s[e - |m.fragments|..e] == x[e - |m.fragments|..e];
  }

  /** The parts of a match, followed by anything, stop every run where the
      match puts them. */
  lemma PartsStops(m: FinderMatch, rest: string, w: nat)
    requires FinderParts(m) && w < |m.text| && DashAt(m, w)
    ensures PlainStops(m.text + rest, |m.template| + 2, w, |m.text| - 1, |m.text| - 1 - |m.fragments|)
  {
    PartsStopInText(m, w);
    StopsExtend(m.text, rest, |m.template| + 2, w, |m.text| - 1, |m.text| - 1 - |m.fragments|);
  }

  lemma PartsStopInText(m: FinderMatch, w: nat)
    requires FinderParts(m) && w < |m.text| && DashAt(m, w)
    ensures PlainStops(m.text, |m.template| + 2, w, |m.text| - 1, |m.text| - 1 - |m.fragments|)
  {
  }

  /** Whatever follows the text does not move where its runs stop. */
  lemma StopsExtend(x: string, rest: string, t: nat, w: nat, e: nat, g': nat)
    requires PlainStops(x, t, w, e, g')
    ensures PlainStops(x + rest, t, w, e, g')
  {
    var s := x + rest;
    assert s[2..t] == x[2..t];
    assert s[t + 1..w] == x[t + 1..w];
    assert s[w + 2..g'] == x[w + 2..g'];
    assert s[g'..e] == x[g'..e];
  }

  /** Converse of the soundness steps: characters that stop the runs at
      `t`, `w`, `e` and the fragment group start `g'` make the finder
      report exactly those groups. */
  lemma StopsMatch(s: string, t: nat, w: nat, e: nat, g': nat)
    requires PlainStops(s, t, w, e, g')
    ensures FinderPrefix(s) == Some(FinderMatch(s[..e + 1], s[2..t], s[g'..e]))
  {
    RunEndsAt(s, 2, t, TemplateChars);
    assert t == 2 + Run(s[2..], TemplateChars);
    OpenStep(s, t);
    RunEndsAt(s, t + 1, w, Spaces);
    assert w == t + 1 + Run(s[t + 1..], Spaces);
    TemplateStep(s, t, w);
    FragmentRunEnds(s, t, w, e, g');
    DashStepTo(s, t, w, e);
    GroupStart(s, t, w, e, g');
  }

  lemma OpenStep(s: string, t: nat)
    requires |s| >= 2 && s[0] == '(' && s[1] == '"' && t == 2 + Run(s[2..], TemplateChars)
    ensures FinderPrefix(s) == FinderFromTemplate(s, t)
  {
    PrefixUnfolds(s);
  }

  lemma PrefixUnfolds(s: string)
    requires |s| >= 2 && s[0] == '(' && s[1] == '"'
    ensures FinderPrefix(s) == FinderFromTemplate(s, 2 + Run(s[2..], TemplateChars))
  {
  }

  lemma TemplateStep(s: string, t: nat, w: nat)
    requires |s| >= 2 && s[0] == '(' && 2 < t < |s| && s[t] == '"'
    requires w == t + 1 + Run(s[t + 1..], Spaces)
    ensures FinderFromTemplate(s, t) == FinderFromDash(s, t, w)
  {
    TemplateUnfolds(s, t);
  }

  lemma TemplateUnfolds(s: string, t: nat)
    requires |s| >= 2 && s[0] == '(' && 2 < t < |s| && s[t] == '"'
    ensures FinderFromTemplate(s, t) == FinderFromDash(s, t, t + 1 + Run(s[t + 1..], Spaces))
  {
  }

  lemma DashStepTo(s: string, t: nat, w: nat, e: nat)
    requires |s| >= 2 && s[0] == '(' && 2 < t < w && w + 2 <= |s| && s[w] == '-' && IsF(s[w + 1])
    requires e == w + 2 + Run(s[w + 2..], FragmentChars)
    ensures FinderFromDash(s, t, w) == FinderFromFragments(s, t, w, e)
  {
    DashUnfolds(s, t, w);
  }

  lemma DashUnfolds(s: string, t: nat, w: nat)
    requires |s| >= 2 && s[0] == '(' && 2 < t < w && w + 2 <= |s| && s[w] == '-' && IsF(s[w + 1])
    ensures FinderFromDash(s, t, w) == FinderFromFragments(s, t, w, w + 2 + Run(s[w + 2..], FragmentChars))
  {
  }

  lemma FragmentRunEnds(s: string, t: nat, w: nat, e: nat, g': nat)
    requires PlainStops(s, t, w, e, g')
    ensures e == w + 2 + Run(s[w + 2..], FragmentChars)
  {
    assert InClass(FragmentChars, ')') == false by {
      assert !IsWord(')') && !IsSpace(')');
    }
    assert forall j :: w + 2 <= j < g' ==> s[w + 2..g'][j - w - 2] == s[j];
    assert forall j :: g' <= j < e ==> s[g'..e][j - g'] == s[j];
    var x := s[w + 2..e];
    forall j | 0 <= j < |x| ensures InClass(FragmentChars, x[j]) {
      assert x[j] == s[w + 2 + j];
    }
    RunEndsAt(s, w + 2, e, FragmentChars);
  }

  /** The `\s*` in front of the fragment group stops at `g'`, or takes the
      whole run when that is one whitespace character. */
  lemma GroupStart(s: string, t: nat, w: nat, e: nat, g': nat)
    requires PlainStops(s, t, w, e, g') && e == w + 2 + Run(s[w + 2..], FragmentChars)
    ensures FinderFromFragments(s, t, w, e) == Some(FinderMatch(s[..e + 1], s[2..t], s[g'..e]))
  {
    var g := SpaceRunBeforeGroup(s, t, w, e, g');
    FragmentsStep(s, t, w, e, g);
  }

  lemma FragmentsStep(s: string, t: nat, w: nat, e: nat, g: nat)
    requires |s| >= 2 && s[0] == '(' && 2 < t < w && w + 2 <= |s| && s[w] == '-' && IsF(s[w + 1])
    requires e == w + 2 + Run(s[w + 2..], FragmentChars) && e != w + 2 && e != |s| && s[e] == ')'
    requires g == w + 2 + Run(s[w + 2..], Spaces)
    ensures FinderFromFragments(s, t, w, e) == Some(FinderMatch(s[..e + 1], s[2..t], s[if g == e then e - 1 else g..e]))
  {
    FragmentsUnfold(s, t, w, e);
  }

  lemma FragmentsUnfold(s: string, t: nat, w: nat, e: nat)
    requires |s| >= 2 && s[0] == '(' && 2 < t < w && w + 2 <= |s| && s[w] == '-' && IsF(s[w + 1])
    requires e == w + 2 + Run(s[w + 2..], FragmentChars) && e != w + 2 && e != |s| && s[e] == ')'
    ensures FinderFromFragments(s, t, w, e) == Some(FinderMatch(s[..e + 1], s[2..t],
      s[if w + 2 + Run(s[w + 2..], Spaces) == e then e - 1 else w + 2 + Run(s[w + 2..], Spaces)..e]))
  {
    FragmentsSome(s, t, w, e);
  }

  lemma FragmentsSome(s: string, t: nat, w: nat, e: nat)
    requires |s| >= 2 && s[0] == '(' && 2 < t < w && w + 2 <= |s| && s[w] == '-' && IsF(s[w + 1])
    requires e == w + 2 + Run(s[w + 2..], FragmentChars) && e != w + 2 && e != |s| && s[e] == ')'
    ensures FinderFromFragments(s, t, w, e).Some?
  {
  }

  /** Where the `\s*` run in front of the fragment group ends. */
  lemma SpaceRunBeforeGroup(s: string, t: nat, w: nat, e: nat, g': nat) returns (g: nat)
    requires PlainStops(s, t, w, e, g')
    ensures g == w + 2 + Run(s[w + 2..], Spaces)
    ensures (if g == e then e - 1 else g) == g'
  {
    g := w + 2 + Run(s[w + 2..], Spaces);
    if g' + 1 == e && IsSpace(s[g']) {
      var x := s[w + 2..e];
      forall j | 0 <= j < |x| ensures IsSpace(x[j]) {
        if j < g' - w - 2 {
          assert x[j] == s[w + 2..g'][j];
        }
      }
      assert !IsSpace(s[e]);
      RunEndsAt(s, w + 2, e, Spaces);
      assert g == e;
    } else {
      RunEndsAt(s, w + 2, g', Spaces);
      assert g == g';
    }
  }

  /** No class of the finder holds a parenthesis, so a match has `(` only
      at its start and `)` only at its end. */
  lemma PartsFramed(m: FinderMatch)
    requires FinderParts(m)
    ensures Framed(m.text)
  {
    var w :| 0 <= w < |m.text| && DashAt(m, w);
    PartsFramedAt(m, w);
  }

  lemma PartsFramedAt(m: FinderMatch, w: nat)
    requires FinderParts(m) && w < |m.text| && DashAt(m, w)
    ensures Framed(m.text)
  {
    PartsStopInText(m, w);
    StopsFramed(m.text, |m.template| + 2, w, |m.text| - 1, |m.text| - 1 - |m.fragments|);
  }

  lemma StopsFramed(x: string, t: nat, w: nat, e: nat, g': nat)
    requires PlainStops(x, t, w, e, g') && e == |x| - 1
    ensures Framed(x)
  {
    forall i | 0 < i < e ensures x[i] != '(' && x[i] != ')' {
      if 2 <= i < t {
        assert x[2..t][i - 2] == x[i];
      } else if t < i < w {
        assert x[t + 1..w][i - t - 1] == x[i];
      } else if w + 2 <= i < g' {
        assert x[w + 2..g'][i - w - 2] == x[i];
      } else if g' <= i {
        assert x[g'..e][i - g'] == x[i];
      }
    }
  }

  /** Every match reported has the parts of the pattern. */
  lemma {:induction false} FindAllParts(s: string)
    ensures forall k :: 0 <= k < |FindAll(s)| ==> FinderParts(FindAll(s)[k])
    decreases |s|
  {
    if s != [] {
      FinderPrefixSound(s);
      match FinderPrefix(s)
      case Some(m) =>
        FindAllParts(s[|m.text|..]);
        AllCons(FindAll(s), FinderParts);
      case None =>
        FindAllParts(s[1..]);
    }
  }

  /** `finditer` of the finder: the matches, leftmost first, without
      overlaps. */
  function FindAll(s: string): (ms: seq<FinderMatch>)
    ensures forall m :: m in ms ==> FinderShaped(m.text)
    decreases |s|
  {
    if s == [] then []
    else
      match FinderPrefix(s)
      case Some(m) => [m] + FindAll(s[|m.text|..])
      case None => FindAll(s[1..])
  }

  /** Every match reported is a piece of the line. */
  lemma {:induction false} FindAllOccur(s: string)
    ensures forall k :: 0 <= k < |FindAll(s)| ==> Occurs(s, FindAll(s)[k].text)
    decreases |s|
  {
    if s != [] {
      match FinderPrefix(s)
      case Some(m) =>
        var rest := FindAll(s[|m.text|..]);
        FindAllOccur(s[|m.text|..]);
        assert OccursAt(s, m.text, 0);
        forall k | 0 <= k < |rest| ensures Occurs(s, rest[k].text) {
          OccursInSuffix(s, |m.text|, rest[k].text);
        }
      case None =>
        var rest := FindAll(s[1..]);
        FindAllOccur(s[1..]);
        forall k | 0 <= k < |rest| ensures Occurs(s, rest[k].text) {
          OccursInSuffix(s, 1, rest[k].text);
        }
    }
  }

  /** Nothing is reported exactly when no position starts a match, which is
      when `re.search` fails and the loop stops. */
  lemma {:induction false} FindAllEmptyIff(s: string)
    ensures FindAll(s) == [] <==> forall j :: 0 <= j <= |s| ==> FinderPrefix(s[j..]).None?
    decreases |s|
  {
    if s != [] {
      assert s[0..] == s;
      if FinderPrefix(s).None? {
        FindAllEmptyIff(s[1..]);
        assert forall j :: 1 <= j <= |s| ==> s[1..][j - 1..] == s[j..];
      }
    }
  }

  /** Where the leftmost finder match starts, or the end of the text when
      there is none. */
  function FirstFinderAt(s: string): (j: nat)
    ensures j <= |s|
    decreases |s|
  {
    if s == [] || FinderPrefix(s).Some? then 0 else 1 + FirstFinderAt(s[1..])
  }

  /** No position before `FirstFinderAt` starts a match, and one starts
      there unless it is the end of the text. */
  lemma {:induction false} FirstFinderAtLeftmost(s: string)
    ensures forall i :: 0 <= i < FirstFinderAt(s) ==> FinderPrefix(s[i..]).None?
    ensures FirstFinderAt(s) < |s| ==> FinderPrefix(s[FirstFinderAt(s)..]).Some?
    decreases |s|
  {
    if s != [] {
      assert s[0..] == s;
      if FinderPrefix(s).None? {
        FirstFinderAtLeftmost(s[1..]);
        NoFinderShift(s, FirstFinderAt(s[1..]));
        assert s[1..][FirstFinderAt(s[1..])..] == s[FirstFinderAt(s)..];
      }
    }
  }

  lemma NoFinderShift(s: string, j: nat)
    requires s != [] && FinderPrefix(s).None? && j < |s|
    requires forall i :: 0 <= i < j ==> FinderPrefix(s[1..][i..]).None?
    ensures forall i :: 0 <= i < j + 1 ==> FinderPrefix(s[i..]).None?
  {
    forall i | 0 <= i < j + 1 ensures FinderPrefix(s[i..]).None? {
      if i == 0 {
        assert s[0..] == s;
      } else {
        assert s[1..][i - 1..] == s[i..];
      }
    }
  }

  /** `ms` is what a walk that finds its first match at `j` reports: that
      match, then the matches of the text right behind it. */
  predicate FirstAt(s: string, j: nat, ms: seq<FinderMatch>) {
    ms != [] ==>
      j < |s| && FinderPrefix(s[j..]) == Some(ms[0]) &&
      j + |ms[0].text| <= |s| && FindAll(s[j + |ms[0].text|..]) == ms[1..]
  }

  /** `finditer` reports the leftmost match first and resumes right behind
      it, so matches never overlap: the first match is the one at
      `FirstFinderAt`, and the others are those of the rest of the line. */
  lemma {:induction false} FindAllLeftmost(s: string)
    ensures FindAll(s) != [] <==> FirstFinderAt(s) < |s|
    ensures FirstAt(s, FirstFinderAt(s), FindAll(s))
    decreases |s|
  {
    if s != [] {
      if FinderPrefix(s).Some? {
        FindAllHere(s);
      } else {
        FindAllLeftmost(s[1..]);
        FindAllShift(s, FindAll(s[1..]), FirstFinderAt(s[1..]));
      }
    }
  }

  lemma FindAllHere(s: string)
    requires s != [] && FinderPrefix(s).Some?
    ensures FindAll(s) != [] && FirstFinderAt(s) == 0
    ensures FirstAt(s, 0, FindAll(s))
  {
    var m := FinderPrefix(s).value;
    var rest := FindAll(s[|m.text|..]);
    assert FindAll(s) == [m] + rest;
    TailOfCons(m, rest);
    assert s[0..] == s;
  }

  lemma FindAllShift(s: string, ms: seq<FinderMatch>, j: nat)
    requires s != [] && FinderPrefix(s).None?
    requires ms == FindAll(s[1..]) && j == FirstFinderAt(s[1..])
    requires FirstAt(s[1..], j, ms)
    ensures FindAll(s) == ms && FirstFinderAt(s) == j + 1
    ensures FirstAt(s, j + 1, ms)
  {
    if ms != [] {
      SuffixOfTail(s, j);
      SuffixOfTail(s, j + |ms[0].text|);
    }
  }

  lemma TailOfCons<T>(x: T, xs: seq<T>)
    ensures ([x] + xs)[0] == x && ([x] + xs)[1..] == xs
  {
  }

  lemma SuffixOfTail(s: string, k: nat)
    requires k < |s|
    ensures s[1..][k..] == s[k + 1..]
  {
  }

  // ---------------------------------------------------------------------
  // The index extractor: `{digits}` (psdecode.py:63, 100-104)
  // ---------------------------------------------------------------------

  /** One `{digits}` at the start of a text: its width, braces included,
      and the index its digits spell. */
  datatype IndexMatch = IndexMatch(width: nat, index: nat)

  /** The `{digits}` at the start of `t`, if any. */
  function IndexPrefix(t: string): (r: Option<IndexMatch>)
    ensures r.Some? ==> 3 <= r.value.width <= |t|
  {
    if t == [] || t[0] != '{' then None
    else
      var d := 1 + Run(t[1..], Digits);
      if d > 1 && d < |t| && t[d] == '}' then
        assert forall j :: 0 <= j < d - 1 ==> t[1..d][j] == t[1..][j];
        Some(IndexMatch(d + 1, DecimalValue(t[1..d])))
      else None
  }

  /** An index is `{`, a non-empty digit run and `}`, and it is the
      decimal value of those digits. */
  lemma IndexPrefixMeans(t: string)
    ensures IndexPrefix(t).Some? ==>
              var n := IndexPrefix(t).value.width;
              t[0] == '{' && AllDigits(t[1..n - 1]) && t[n - 1] == '}' &&
              IndexPrefix(t).value.index == DecimalValue(t[1..n - 1])
  {
  }

  /** Wherever `{`, a non-empty digit run and `}` follow each other, an
      index starts, and it spans exactly those characters. */
  lemma IndexPrefixOf(t: string, n: nat)
    requires 3 <= n <= |t| && t[0] == '{' && AllDigits(t[1..n - 1]) && t[n - 1] == '}'
    ensures IndexPrefix(t) == Some(IndexMatch(n, DecimalValue(t[1..n - 1])))
  {
    assert forall j :: 0 <= j < n - 2 ==> t[1..][j] == t[1..n - 1][j];
    RunIs(t[1..], Digits, n - 2);
  }

  /** `findall` of `{(\d+)}`, each found digit run read as a decimal number,
      in the order the runs appear. */
  function Positions(t: string): (ps: seq<nat>)
    ensures 3 * |ps| <= |t|
    ensures '{' !in t ==> ps == []
    decreases |t|
  {
    if t == [] then []
    else
      match IndexPrefix(t)
      case Some(m) => [m.index] + Positions(t[m.width..])
      case None => Positions(t[1..])
  }

  /** Where the leftmost index starts, or the end of the text when there is
      none. */
  function FirstIndexAt(t: string): (j: nat)
    ensures j <= |t|
    decreases |t|
  {
    if t == [] || IndexPrefix(t).Some? then 0 else 1 + FirstIndexAt(t[1..])
  }

  /** No position before `FirstIndexAt` starts an index, and one starts
      there unless it is the end of the text. */
  lemma {:induction false} FirstIndexAtLeftmost(t: string)
    ensures forall i :: 0 <= i < FirstIndexAt(t) ==> IndexPrefix(t[i..]).None?
    ensures FirstIndexAt(t) < |t| ==> IndexPrefix(t[FirstIndexAt(t)..]).Some?
    decreases |t|
  {
    if t != [] {
      assert t[0..] == t;
      if IndexPrefix(t).None? {
        FirstIndexAtLeftmost(t[1..]);
        NoIndexShift(t, FirstIndexAt(t[1..]));
        assert t[1..][FirstIndexAt(t[1..])..] == t[FirstIndexAt(t)..];
      }
    }
  }

  lemma NoIndexShift(t: string, j: nat)
    requires t != [] && IndexPrefix(t).None? && j < |t|
    requires forall i :: 0 <= i < j ==> IndexPrefix(t[1..][i..]).None?
    ensures forall i :: 0 <= i < j + 1 ==> IndexPrefix(t[i..]).None?
  {
    forall i | 0 <= i < j + 1 ensures IndexPrefix(t[i..]).None? {
      if i == 0 {
        assert t[0..] == t;
      } else {
        assert t[1..][i - 1..] == t[i..];
      }
    }
  }

  /** `ps` is what a walk that finds its first index at `j` reports: that
      index, then the indices of the text behind its closing brace. */
  predicate PositionsFirstAt(t: string, j: nat, ps: seq<nat>) {
    ps != [] ==> j < |t| && PositionsStartWith(t[j..], ps)
  }

  /** `u` starts with the index `ps[0]`, and the text behind its closing
      brace yields the rest of `ps`. */
  predicate PositionsStartWith(u: string, ps: seq<nat>)
    requires ps != []
  {
    IndexPrefix(u).Some? && IndexPrefix(u).value.index == ps[0] &&
    Positions(u[IndexPrefix(u).value.width..]) == ps[1..]
  }

  /** `findall` takes the leftmost `{digits}` first and resumes behind its
      closing brace: the first index is the one at `FirstIndexAt`, and the
      others are those of the rest of the text. */
  lemma {:induction false} PositionsLeftmost(t: string)
    ensures Positions(t) != [] <==> FirstIndexAt(t) < |t|
    ensures PositionsFirstAt(t, FirstIndexAt(t), Positions(t))
    decreases |t|
  {
    if t != [] {
      if IndexPrefix(t).Some? {
        PositionsHere(t);
      } else {
        PositionsLeftmost(t[1..]);
        PositionsShift(t, Positions(t[1..]), FirstIndexAt(t[1..]));
      }
    }
  }

  lemma PositionsHere(t: string)
    requires t != [] && IndexPrefix(t).Some?
    ensures Positions(t) != [] && FirstIndexAt(t) == 0
    ensures PositionsFirstAt(t, 0, Positions(t))
  {
    var m := IndexPrefix(t).value;
    var rest := Positions(t[m.width..]);
    assert Positions(t) == [m.index] + rest;
    TailOfCons(m.index, rest);
    assert t[0..] == t;
  }

  lemma PositionsShift(t: string, ps: seq<nat>, j: nat)
    requires t != [] && IndexPrefix(t).None?
    requires ps == Positions(t[1..]) && j == FirstIndexAt(t[1..])
    requires PositionsFirstAt(t[1..], j, ps)
    ensures Positions(t) == ps && FirstIndexAt(t) == j + 1
    ensures PositionsFirstAt(t, j + 1, ps)
  {
    assert Positions(t) == ps;
    PositionsFirstShift(t, ps, j);
  }

  lemma PositionsFirstShift(t: string, ps: seq<nat>, j: nat)
    requires t != [] && PositionsFirstAt(t[1..], j, ps)
    ensures PositionsFirstAt(t, j + 1, ps)
  {
    if ps != [] {
      SuffixOfTail(t, j);
    }
  }

  /** The template capture with newlines deleted and whitespace stripped,
      then scanned for indices. */
  function IndexExtract(capture: string): (ps: seq<nat>)
    ensures 3 * |ps| <= |capture|
    ensures '{' !in capture ==> ps == []
  {
    Positions(Strip(RemoveAll(capture, '\n')))
  }

  // ---------------------------------------------------------------------
  // The fragment extractor: `'content'` (psdecode.py:66, 105-109)
  // ---------------------------------------------------------------------

  /** A non-empty run of content characters: what one quoted fragment holds. */
  predicate IsContentText(f: string) {
    |f| > 0 && forall j :: 0 <= j < |f| ==> IsContentChar(f[j])
  }

  /** The quoted fragment at the start of `c`, if any: a quote, a non-empty
      run of content characters and a closing quote. */
  function QuotedPrefix(c: string): (r: Option<string>)
    ensures r.Some? ==> IsContentText(r.value) && |r.value| + 2 <= |c|
    ensures r.Some? ==> c[0] == '\'' && c[1..|r.value| + 1] == r.value && c[|r.value| + 1] == '\''
  {
    if c == [] || c[0] != '\'' then None
    else
      var e := 1 + Run(c[1..], ContentChars);
      if e > 1 && e < |c| && c[e] == '\'' then
        assert forall j :: 0 <= j < e - 1 ==> c[1..e][j] == c[1..][j];
        Some(c[1..e])
      else None
  }

  /** `findall` of a quote, a non-empty content run, and a closing quote: the
      runs, in order. The closing quote is consumed, so `'a''b'` gives `a`
      and `b`. */
  function Contents(c: string): (fs: seq<string>)
    ensures forall k :: 0 <= k < |fs| ==> IsContentText(fs[k])
    decreases |c|
  {
    if c == [] then []
    else
      match QuotedPrefix(c)
      case Some(f) => [f] + Contents(c[|f| + 2..])
      case None => Contents(c[1..])
  }

  /** Where the leftmost quoted fragment starts, or the end of the text
      when there is none. */
  function FirstQuotedAt(c: string): (j: nat)
    ensures j <= |c|
    decreases |c|
  {
    if c == [] || QuotedPrefix(c).Some? then 0 else 1 + FirstQuotedAt(c[1..])
  }

  /** No position before `FirstQuotedAt` starts a quoted fragment, and one
      starts there unless it is the end of the text. */
  lemma {:induction false} FirstQuotedAtLeftmost(c: string)
    ensures forall i :: 0 <= i < FirstQuotedAt(c) ==> QuotedPrefix(c[i..]).None?
    ensures FirstQuotedAt(c) < |c| ==> QuotedPrefix(c[FirstQuotedAt(c)..]).Some?
    decreases |c|
  {
    if c != [] {
      assert c[0..] == c;
      if QuotedPrefix(c).None? {
        FirstQuotedAtLeftmost(c[1..]);
        NoQuotedShift(c, FirstQuotedAt(c[1..]));
        assert c[1..][FirstQuotedAt(c[1..])..] == c[FirstQuotedAt(c)..];
      }
    }
  }

  lemma NoQuotedShift(c: string, j: nat)
    requires c != [] && QuotedPrefix(c).None? && j < |c|
    requires forall i :: 0 <= i < j ==> QuotedPrefix(c[1..][i..]).None?
    ensures forall i :: 0 <= i < j + 1 ==> QuotedPrefix(c[i..]).None?
  {
    forall i | 0 <= i < j + 1 ensures QuotedPrefix(c[i..]).None? {
      if i == 0 {
        assert c[0..] == c;
      } else {
        assert c[1..][i - 1..] == c[i..];
      }
    }
  }

  /** `fs` is what a walk that finds its first fragment at `j` reports: that
      fragment, then the fragments of the text behind its closing quote. */
  predicate ContentsFirstAt(c: string, j: nat, fs: seq<string>) {
    fs != [] ==>
      j < |c| && QuotedPrefix(c[j..]) == Some(fs[0]) &&
      j + |fs[0]| + 2 <= |c| && Contents(c[j + |fs[0]| + 2..]) == fs[1..]
  }

  /** `findall` takes the leftmost quoted fragment first and resumes behind
      its closing quote: the first fragment is the one at `FirstQuotedAt`,
      and the others are those of the rest of the text. */
  lemma {:induction false} ContentsLeftmost(c: string)
    ensures Contents(c) != [] <==> FirstQuotedAt(c) < |c|
    ensures ContentsFirstAt(c, FirstQuotedAt(c), Contents(c))
    decreases |c|
  {
    if c != [] {
      if QuotedPrefix(c).Some? {
        ContentsHere(c);
      } else {
        ContentsLeftmost(c[1..]);
        ContentsShift(c, Contents(c[1..]), FirstQuotedAt(c[1..]));
      }
    }
  }

  lemma ContentsHere(c: string)
    requires c != [] && QuotedPrefix(c).Some?
    ensures Contents(c) != [] && FirstQuotedAt(c) == 0
    ensures ContentsFirstAt(c, 0, Contents(c))
  {
    var f := QuotedPrefix(c).value;
    var rest := Contents(c[|f| + 2..]);
    assert Contents(c) == [f] + rest;
    TailOfCons(f, rest);
    assert c[0..] == c;
  }

  lemma ContentsShift(c: string, fs: seq<string>, j: nat)
    requires c != [] && QuotedPrefix(c).None?
    requires fs == Contents(c[1..]) && j == FirstQuotedAt(c[1..])
    requires ContentsFirstAt(c[1..], j, fs)
    ensures Contents(c) == fs && FirstQuotedAt(c) == j + 1
    ensures ContentsFirstAt(c, j + 1, fs)
  {
    if fs != [] {
      SuffixOfTail(c, j);
      SuffixOfTail(c, j + |fs[0]| + 2);
    }
  }

  /** The fragment-list capture with newlines deleted and whitespace
      stripped, then scanned for quoted fragments. */
  function FragmentExtract(capture: string): (fs: seq<string>)
    ensures forall k :: 0 <= k < |fs| ==> IsContentText(fs[k])
  {
    Contents(Strip(RemoveAll(capture, '\n')))
  }

  /** A fragment never holds a quote. */
  lemma ContentTextHasNoQuote(f: string)
    requires IsContentText(f)
    ensures '\'' !in f
  {
  }

  // ---------------------------------------------------------------------
  // Placeholder-shaped text: `{#subs_digits}`, any case (psdecode.py:69)
  // ---------------------------------------------------------------------

  /** The length of the placeholder-shaped text at the start of `s`, if
      any; `ignoreCase` says whether the letters of `subs` may be in either
      case (the final expansion passes `re.IGNORECASE`, the resolver does not). */
  function PlaceholderPrefix(s: string, ignoreCase: bool): (r: Option<nat>)
    ensures r.Some? ==> 9 <= r.value <= |s|
  {
    if |s| < 7 || s[0] != '{' || s[1] != '#' || s[6] != '_' then None
    else if !(if ignoreCase then SameIgnoringCase(s[2..6], "subs") else s[2..6] == "subs") then None
    else
      var d := 7 + Run(s[7..], Digits);
      if d == 7 || d == |s| || s[d] != '}' then None else Some(d + 1)
  }

  /** `re.match` of the placeholder pattern without flags (psdecode.py:115):
      the text STARTS like a placeholder. */
  predicate PlaceholderShaped(f: string) {
    PlaceholderPrefix(f, false).Some?
  }

  /** `finditer` of the placeholder pattern with `re.IGNORECASE`
      (psdecode.py:127): the matched texts, in order. */
  function Placeholders(s: string): (ws: seq<string>)
    ensures forall k :: 0 <= k < |ws| ==> |ws[k]| >= 9
    decreases |s|
  {
    if s == [] then []
    else
      match PlaceholderPrefix(s, true)
      case Some(n) => [s[..n]] + Placeholders(s[n..])
      case None => Placeholders(s[1..])
  }

  /** Every word reported is a piece of the line. */
  lemma {:induction false} PlaceholdersOccur(s: string)
    ensures forall k :: 0 <= k < |Placeholders(s)| ==> Occurs(s, Placeholders(s)[k])
    decreases |s|
  {
    if s != [] {
      match PlaceholderPrefix(s, true)
      case Some(n) =>
        var rest := Placeholders(s[n..]);
        PlaceholdersOccur(s[n..]);
        assert OccursAt(s, s[..n], 0);
        forall k | 0 <= k < |rest| ensures Occurs(s, rest[k]) {
          OccursInSuffix(s, n, rest[k]);
        }
      case None =>
        var rest := Placeholders(s[1..]);
        PlaceholdersOccur(s[1..]);
        forall k | 0 <= k < |rest| ensures Occurs(s, rest[k]) {
          OccursInSuffix(s, 1, rest[k]);
        }
    }
  }

  /** Nothing is reported exactly when no position starts a placeholder. */
  lemma {:induction false} PlaceholdersEmptyIff(s: string)
    ensures Placeholders(s) == [] <==> forall j :: 0 <= j <= |s| ==> PlaceholderPrefix(s[j..], true).None?
    decreases |s|
  {
    if s != [] {
      assert s[0..] == s;
      if PlaceholderPrefix(s, true).None? {
        PlaceholdersEmptyIff(s[1..]);
        assert forall j :: 1 <= j <= |s| ==> s[1..][j - 1..] == s[j..];
      }
    }
  }

  /** Where the leftmost placeholder (in either case) starts, or the end of
      the text when there is none. */
  function FirstPlaceholderAt(s: string): (j: nat)
    ensures j <= |s|
    decreases |s|
  {
    if s == [] || PlaceholderPrefix(s, true).Some? then 0 else 1 + FirstPlaceholderAt(s[1..])
  }

  /** No position before `FirstPlaceholderAt` starts a placeholder, and one
      starts there unless it is the end of the text. */
  lemma {:induction false} FirstPlaceholderAtLeftmost(s: string)
    ensures forall i :: 0 <= i < FirstPlaceholderAt(s) ==> PlaceholderPrefix(s[i..], true).None?
    ensures FirstPlaceholderAt(s) < |s| ==> PlaceholderPrefix(s[FirstPlaceholderAt(s)..], true).Some?
    decreases |s|
  {
    if s != [] {
      assert s[0..] == s;
      if PlaceholderPrefix(s, true).None? {
        FirstPlaceholderAtLeftmost(s[1..]);
        NoPlaceholderShift(s, FirstPlaceholderAt(s[1..]));
        assert s[1..][FirstPlaceholderAt(s[1..])..] == s[FirstPlaceholderAt(s)..];
      }
    }
  }

  lemma NoPlaceholderShift(s: string, j: nat)
    requires s != [] && PlaceholderPrefix(s, true).None? && j < |s|
    requires forall i :: 0 <= i < j ==> PlaceholderPrefix(s[1..][i..], true).None?
    ensures forall i :: 0 <= i < j + 1 ==> PlaceholderPrefix(s[i..], true).None?
  {
    forall i | 0 <= i < j + 1 ensures PlaceholderPrefix(s[i..], true).None? {
      if i == 0 {
        assert s[0..] == s;
      } else {
        assert s[1..][i - 1..] == s[i..];
      }
    }
  }

  /** `ws` is what a walk that finds its first placeholder at `j` reports:
      that placeholder, then the placeholders of the text behind it. */
  predicate PlaceholdersFirstAt(s: string, j: nat, ws: seq<string>) {
    ws != [] ==> j < |s| && PlaceholdersStartWith(s[j..], ws)
  }

  /** `u` starts with the placeholder `ws[0]`, and the text behind it
      yields the rest of `ws`. */
  predicate PlaceholdersStartWith(u: string, ws: seq<string>)
    requires ws != []
  {
    PlaceholderPrefix(u, true).Some? && u[..PlaceholderPrefix(u, true).value] == ws[0] &&
    Placeholders(u[PlaceholderPrefix(u, true).value..]) == ws[1..]
  }

  /** `finditer` takes the leftmost placeholder first and resumes behind
      it: the first word is the one at `FirstPlaceholderAt`, and the others
      are those of the rest of the line, so every placeholder of the line
      is reported, in order. */
  lemma {:induction false} PlaceholdersLeftmost(s: string)
    ensures Placeholders(s) != [] <==> FirstPlaceholderAt(s) < |s|
    ensures PlaceholdersFirstAt(s, FirstPlaceholderAt(s), Placeholders(s))
    decreases |s|
  {
    if s != [] {
      if PlaceholderPrefix(s, true).Some? {
        PlaceholdersHere(s);
      } else {
        PlaceholdersLeftmost(s[1..]);
        PlaceholdersShift(s, Placeholders(s[1..]), FirstPlaceholderAt(s[1..]));
      }
    }
  }

  lemma PlaceholdersHere(s: string)
    requires s != [] && PlaceholderPrefix(s, true).Some?
    ensures Placeholders(s) != [] && FirstPlaceholderAt(s) == 0
    ensures PlaceholdersFirstAt(s, 0, Placeholders(s))
  {
    var n := PlaceholderPrefix(s, true).value;
    var rest := Placeholders(s[n..]);
    assert Placeholders(s) == [s[..n]] + rest;
    TailOfCons(s[..n], rest);
    assert s[0..] == s;
  }

  lemma PlaceholdersShift(s: string, ws: seq<string>, j: nat)
    requires s != [] && PlaceholderPrefix(s, true).None?
    requires ws == Placeholders(s[1..]) && j == FirstPlaceholderAt(s[1..])
    requires PlaceholdersFirstAt(s[1..], j, ws)
    ensures Placeholders(s) == ws && FirstPlaceholderAt(s) == j + 1
    ensures PlaceholdersFirstAt(s, j + 1, ws)
  {
    assert Placeholders(s) == ws;
    if ws != [] {
      SuffixOfTail(s, j);
    }
  }

  // ---------------------------------------------------------------------
  // Character codes: `[char]digits`, any case (psdecode.py:72)
  // ---------------------------------------------------------------------

  /** One character-code construct: its text and its ordinal. */
  datatype CharCode = CharCode(text: string, code: nat)

  function CharCodePrefix(s: string): (r: Option<CharCode>)
    ensures r.Some? ==> 7 <= |r.value.text| <= |s| && r.value.text == s[..|r.value.text|]
  {
    if |s| < 6 || s[0] != '[' || !SameIgnoringCase(s[1..5], "char") || s[5] != ']' then None
    else
      var d := 6 + Run(s[6..], Digits);
      if d == 6 then None
      else
        assert forall j :: 0 <= j < d - 6 ==> s[6..d][j] == s[6..][j];
        Some(CharCode(s[..d], DecimalValue(s[6..d])))
  }

  /** A construct starts exactly where `[`, `char` in any case, `]` and a
      digit follow each other; its text runs to the end of the digits, and
      its code is the value of those digits. */
  lemma CharCodePrefixMeans(s: string)
    ensures CharCodePrefix(s).Some? <==>
              |s| >= 7 && s[0] == '[' && SameIgnoringCase(s[1..5], "char") && s[5] == ']' && IsDigit(s[6])
    ensures CharCodePrefix(s).Some? ==>
              var d := |CharCodePrefix(s).value.text|;
              AllDigits(s[6..d]) && (d == |s| || !IsDigit(s[d])) &&
              CharCodePrefix(s).value.code == DecimalValue(s[6..d])
  {
    if |s| >= 6 && s[0] == '[' && SameIgnoringCase(s[1..5], "char") && s[5] == ']' {
      var d := 6 + Run(s[6..], Digits);
      assert forall j :: 0 <= j < d - 6 ==> s[6..d][j] == s[6..][j];
    }
  }

  /** `finditer` of the character-code pattern: the constructs, in order. */
  function CharCodes(s: string): (cs: seq<CharCode>)
    ensures forall k :: 0 <= k < |cs| ==> |cs[k].text| >= 7
    decreases |s|
  {
    if s == [] then []
    else
      match CharCodePrefix(s)
      case Some(c) => [c] + CharCodes(s[|c.text|..])
      case None => CharCodes(s[1..])
  }

  /** Every construct reported is a piece of the line. */
  lemma {:induction false} CharCodesOccur(s: string)
    ensures forall k :: 0 <= k < |CharCodes(s)| ==> Occurs(s, CharCodes(s)[k].text)
    decreases |s|
  {
    if s != [] {
      match CharCodePrefix(s)
      case Some(c) =>
        var rest := CharCodes(s[|c.text|..]);
        CharCodesOccur(s[|c.text|..]);
        assert OccursAt(s, c.text, 0);
        forall k | 0 <= k < |rest| ensures Occurs(s, rest[k].text) {
          OccursInSuffix(s, |c.text|, rest[k].text);
        }
      case None =>
        var rest := CharCodes(s[1..]);
        CharCodesOccur(s[1..]);
        forall k | 0 <= k < |rest| ensures Occurs(s, rest[k].text) {
          OccursInSuffix(s, 1, rest[k].text);
        }
    }
  }

  /** No construct is reported exactly when none starts anywhere. */
  lemma {:induction false} CharCodesEmptyIff(s: string)
    ensures CharCodes(s) == [] <==> forall j :: 0 <= j <= |s| ==> CharCodePrefix(s[j..]).None?
    decreases |s|
  {
    if s != [] {
      assert s[0..] == s;
      if CharCodePrefix(s).None? {
        CharCodesEmptyIff(s[1..]);
        assert forall j :: 1 <= j <= |s| ==> s[1..][j - 1..] == s[j..];
      }
    }
  }
}
