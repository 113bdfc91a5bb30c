/** The forward direction that the de-obfuscator undoes: how a reorder
    expression `("{2}{0}{1}" -f 'A','B','C')` is written out from a list of
    template indices and a list of fragments. The lemmas here show that the
    scanners read back exactly what was written. */
module Obfuscator {
  import opened Text
  import opened Scanner

  /** A fragment the obfuscator can quote: a non-empty run of content
      characters without a newline (newlines are deleted before the fragment
      list is scanned). */
  predicate WellFormedFragment(f: string) {
    IsContentText(f) && '\n' !in f
  }

  predicate WellFormedFragments(fs: seq<string>) {
    forall k :: 0 <= k < |fs| ==> WellFormedFragment(fs[k])
  }

  /** `{i0}{i1}...` */
  function RenderTemplate(ps: seq<nat>): (r: string)
    ensures forall j :: 0 <= j < |r| ==> InClass(TemplateChars, r[j])
    ensures ps == [] <==> r == []
    ensures ps != [] ==> r[0] == '{' && r[|r| - 1] == '}'
    decreases |ps|
  {
    if ps == [] then []
    else
      var d := DecimalString(ps[0]);
      var rest := RenderTemplate(ps[1..]);
      var r := "{" + d + "}" + rest;
      assert forall j :: 1 <= j < 1 + |d| ==> r[j] == d[j - 1];
      r
  }

  function Quoted(f: string): string {
    "'" + f + "'"
  }

  /** `'f0','f1',...` */
  function RenderFragments(fs: seq<string>): (r: string)
    ensures fs == [] <==> r == []
    ensures fs != [] ==> |r| >= 2 && r[0] == '\'' && r[|r| - 1] == '\''
    decreases |fs|
  {
    if fs == [] then []
    else if |fs| == 1 then Quoted(fs[0])
    else Quoted(fs[0]) + "," + RenderFragments(fs[1..])
  }

  /** What the finder captures as the fragment list of a written expression:
      the quoted fragments, or the lone space before `)` when there are none. */
  function FragmentCapture(fs: seq<string>): string {
    if fs == [] then " " else RenderFragments(fs)
  }

  /** `("TEMPLATE" -f FRAGMENTS)` */
  function RenderExpression(ps: seq<nat>, fs: seq<string>): string {
    "(\"" + RenderTemplate(ps) + "\" -f " + RenderFragments(fs) + ")"
  }

  // ---------------------------------------------------------------------
  // Index extraction reads back the template
  // ---------------------------------------------------------------------

  lemma {:induction false} PositionsOfTemplate(ps: seq<nat>)
    ensures Positions(RenderTemplate(ps)) == ps
    decreases |ps|
  {
    if ps != [] {
      var d := DecimalString(ps[0]);
      var rest := RenderTemplate(ps[1..]);
      assert RenderTemplate(ps) == "{" + d + "}" + rest;
      PositionsOfBraced(d, rest);
      PositionsOfTemplate(ps[1..]);
    }
  }

  /** A braced digit run is read as one index. */
  lemma PositionsOfBraced(d: string, rest: string)
    requires d != [] && AllDigits(d)
    ensures Positions("{" + d + "}" + rest) == [DecimalValue(d)] + Positions(rest)
  {
    var t := "{" + d + "}" + rest;
    assert t[1..] == d + ("}" + rest);
    RunIs(t[1..], Digits, |d|);
    assert t[1..1 + |d|] == d;
    assert t[|d| + 2..] == rest;
  }

  /** The index extractor yields the written indices, in template order,
      repeats included. */
  lemma TemplateRoundTrip(ps: seq<nat>)
    ensures IndexExtract(RenderTemplate(ps)) == ps
  {
    var t := RenderTemplate(ps);
    assert '\n' !in t by {
      forall j | 0 <= j < |t| ensures t[j] != '\n' {
        assert InClass(TemplateChars, t[j]);
      }
    }
    assert RemoveAll(t, '\n') == t;
    assert Strip(t) == t;
    PositionsOfTemplate(ps);
  }

  // ---------------------------------------------------------------------
  // Fragment extraction reads back the fragments
  // ---------------------------------------------------------------------

  lemma ContentsOfQuoted(f: string, x: string)
    requires IsContentText(f)
    ensures Contents(Quoted(f) + x) == [f] + Contents(x)
  {
    var c := Quoted(f) + x;
    assert c[1..] == f + ("'" + x);
    RunIs(c[1..], ContentChars, |f|);
    assert c[1..|f| + 1] == f;
    assert c[|f| + 2..] == x;
  }

  lemma {:induction false} ContentsOfFragments(fs: seq<string>)
    requires WellFormedFragments(fs)
    ensures Contents(RenderFragments(fs)) == fs
    decreases |fs|
  {
    if |fs| == 1 {
      ContentsOfQuoted(fs[0], []);
      assert Quoted(fs[0]) + [] == Quoted(fs[0]);
    } else if |fs| > 1 {
      ContentsOfFragments(fs[1..]);
      ContentsOfCons(fs);
    }
  }

  /** One step of the above: the first fragment, then the rest of the list. */
  lemma ContentsOfCons(fs: seq<string>)
    requires |fs| > 1 && IsContentText(fs[0])
    requires Contents(RenderFragments(fs[1..])) == fs[1..]
    ensures Contents(RenderFragments(fs)) == fs
  {
    var rest := RenderFragments(fs[1..]);
    assert RenderFragments(fs) == Quoted(fs[0]) + "," + rest;
    ContentsOfQuotedThenComma(fs[0], rest);
  }

  lemma ContentsOfQuotedThenComma(f: string, rest: string)
    requires IsContentText(f)
    ensures Contents(Quoted(f) + "," + rest) == [f] + Contents(rest)
  {
    var q, x := Quoted(f), "," + rest;
    ConcatAssoc(q, ",", rest);
    ContentsOfQuoted(f, x);
    assert x[0] == ',' && x[1..] == rest;
  }

  lemma {:induction false} RenderFragmentsChars(fs: seq<string>)
    requires WellFormedFragments(fs)
    ensures forall j :: 0 <= j < |RenderFragments(fs)| ==>
      InClass(FragmentChars, RenderFragments(fs)[j]) && RenderFragments(fs)[j] != '\n'
    decreases |fs|
  {
    if |fs| == 1 {
      var r := RenderFragments(fs);
      assert forall j :: 1 <= j < |r| - 1 ==> r[j] == fs[0][j - 1];
    } else if |fs| > 1 {
      var rest := RenderFragments(fs[1..]);
      var q := Quoted(fs[0]);
      var r := RenderFragments(fs);
      RenderFragmentsChars(fs[1..]);
      assert r == q + "," + rest;
      assert forall j :: 1 <= j < |q| - 1 ==> r[j] == fs[0][j - 1];
      assert forall j :: |q| + 1 <= j < |r| ==> r[j] == rest[j - |q| - 1];
    }
  }

  lemma StripOfSpace()
    ensures Strip(" ") == []
  {
  }

  /** The fragment extractor yields the written fragments, in list order. */
  lemma FragmentRoundTrip(fs: seq<string>)
    requires WellFormedFragments(fs)
    ensures FragmentExtract(FragmentCapture(fs)) == fs
  {
    if fs == [] {
      StripOfSpace();
    } else {
      var r := RenderFragments(fs);
      RenderFragmentsChars(fs);
      assert '\n' !in r by {
        forall j | 0 <= j < |r| ensures r[j] != '\n' {
        }
      }
      assert RemoveAll(r, '\n') == r;
      assert Strip(r) == r;
      ContentsOfFragments(fs);
    }
  }

  // ---------------------------------------------------------------------
  // The finder recognises a written expression
  // ---------------------------------------------------------------------

  /** A run over `a` that stops at the start of `b`. */
  lemma RunOfPrefix(a: string, b: string, k: Class)
    requires forall j :: 0 <= j < |a| ==> InClass(k, a[j])
    requires b != [] && !InClass(k, b[0])
    ensures Run(a + b, k) == |a|
  {
    RunIs(a + b, k, |a|);
  }

  /** A written expression with a non-empty template is matched as a whole,
      whatever follows it, with the template and fragment list as its groups. */
  lemma FinderRoundTrip(ps: seq<nat>, fs: seq<string>, rest: string)
    requires ps != [] && WellFormedFragments(fs)
    ensures FinderPrefix(RenderExpression(ps, fs) + rest)
         == Some(FinderMatch(RenderExpression(ps, fs), RenderTemplate(ps), FragmentCapture(fs)))
  {
    RenderFragmentsChars(fs);
    FinderOfParts(RenderExpression(ps, fs) + rest, RenderExpression(ps, fs), RenderTemplate(ps), RenderFragments(fs), rest);
  }

  /** The same, for any template run and fragment-list run. */
  lemma FinderOfParts(s: string, e: string, tp: string, rf: string, rest: string)
    requires e == "(\"" + tp + "\" -f " + rf + ")" && s == e + rest
    requires tp != [] && forall j :: 0 <= j < |tp| ==> InClass(TemplateChars, tp[j])
    requires forall j :: 0 <= j < |rf| ==> InClass(FragmentChars, rf[j])
    requires rf == [] || rf[0] == '\''
    ensures FinderPrefix(s) == Some(FinderMatch(e, tp, if rf == [] then " " else rf))
  {
    RunsOf(s, tp, rf, rest);
    PiecesOf(s, tp, rf, rest);
    FinderFromFacts(s, |tp|, |rf|, e, tp, if rf == [] then " " else rf);
  }

  /** The texts the finder's groups capture when its runs stop at `n` and
      `m`: the whole match, the template and the fragment list. */
  predicate GroupsAt(s: string, n: nat, m: nat, e: string, tp: string, cap: string) {
    && |s| >= 8 + n + m
    && s[..8 + n + m] == e && s[2..2 + n] == tp
    && (if m == 0 then s[n + 6..n + 7] else s[n + 7..n + 7 + m]) == cap
  }

  lemma FinderFromFacts(s: string, n: nat, m: nat, e: string, tp: string, cap: string)
    requires RunsAt(s, n, m) && GroupsAt(s, n, m, e, tp, cap)
    ensures FinderPrefix(s) == Some(FinderMatch(e, tp, cap))
  {
    FinderPrefixAt(s, n, m);
  }

  /** The runs of a written expression stop where the finder needs them to. */
  lemma RunsOf(s: string, tp: string, rf: string, rest: string)
    requires s == "(\"" + tp + "\" -f " + rf + ")" + rest
    requires tp != [] && forall j :: 0 <= j < |tp| ==> InClass(TemplateChars, tp[j])
    requires forall j :: 0 <= j < |rf| ==> InClass(FragmentChars, rf[j])
    requires rf == [] || rf[0] == '\''
    ensures RunsAt(s, |tp|, |rf|)
  {
    TemplateRunOf(s, tp, rf, rest);
    OperatorRunOf(s, tp, rf, rest);
    FragmentRunOf(s, tp, rf, rest);
  }

  /** The runs of the finder's pattern stop after a template of `n` and a
      fragment list of `m` characters. */
  predicate RunsAt(s: string, n: nat, m: nat) {
    && |s| >= 8 + n + m && n > 0
    && s[0] == '(' && s[1] == '"'
    && Run(s[2..], TemplateChars) == n && s[2 + n] == '"'
    && Run(s[n + 3..], Spaces) == 1 && s[n + 4] == '-' && IsF(s[n + 5])
    && Run(s[n + 6..], FragmentChars) == m + 1 && s[n + 7 + m] == ')'
    && Run(s[n + 6..], Spaces) == 1
  }

  lemma PiecesOf(s: string, tp: string, rf: string, rest: string)
    requires s == "(\"" + tp + "\" -f " + rf + ")" + rest
    ensures GroupsAt(s, |tp|, |rf|, "(\"" + tp + "\" -f " + rf + ")", tp, if rf == [] then " " else rf)
  {
  }

  lemma TemplateRunOf(s: string, tp: string, rf: string, rest: string)
    requires s == "(\"" + tp + "\" -f " + rf + ")" + rest
    requires forall j :: 0 <= j < |tp| ==> InClass(TemplateChars, tp[j])
    ensures Run(s[2..], TemplateChars) == |tp| && s[2 + |tp|] == '"'
  {
    assert s[2..] == tp + ("\" -f " + rf + ")" + rest);
    RunOfPrefix(tp, "\" -f " + rf + ")" + rest, TemplateChars);
  }

  lemma OperatorRunOf(s: string, tp: string, rf: string, rest: string)
    requires s == "(\"" + tp + "\" -f " + rf + ")" + rest
    ensures Run(s[|tp| + 3..], Spaces) == 1 && s[|tp| + 4] == '-' && IsF(s[|tp| + 5])
  {
    assert s[|tp| + 3..] == " " + ("-f " + rf + ")" + rest);
    RunOfPrefix(" ", "-f " + rf + ")" + rest, Spaces);
  }

  lemma FragmentRunOf(s: string, tp: string, rf: string, rest: string)
    requires s == "(\"" + tp + "\" -f " + rf + ")" + rest
    requires forall j :: 0 <= j < |rf| ==> InClass(FragmentChars, rf[j])
    requires rf == [] || rf[0] == '\''
    ensures Run(s[|tp| + 6..], FragmentChars) == |rf| + 1 && s[|tp| + 7 + |rf|] == ')'
    ensures Run(s[|tp| + 6..], Spaces) == 1
  {
    assert s[|tp| + 6..] == " " + rf + ")" + rest;
    ListRuns(rf, rest);
  }

  lemma ListRuns(rf: string, rest: string)
    requires forall j :: 0 <= j < |rf| ==> InClass(FragmentChars, rf[j])
    requires rf == [] || rf[0] == '\''
    ensures Run(" " + rf + ")" + rest, FragmentChars) == |rf| + 1
    ensures Run(" " + rf + ")" + rest, Spaces) == 1
  {
    var list := " " + rf;
    assert forall j :: 1 <= j < |list| ==> list[j] == rf[j - 1];
    RunOfPrefix(list, ")" + rest, FragmentChars);
    assert " " + rf + ")" + rest == list + (")" + rest);
    assert " " + rf + ")" + rest == " " + (rf + ")" + rest);
    RunOfPrefix(" ", rf + ")" + rest, Spaces);
  }

  /** The finder's verdict on a text from the lengths of its runs alone. */
  lemma FinderPrefixAt(s: string, n: nat, m: nat)
    requires RunsAt(s, n, m)
    ensures FinderPrefix(s)
         == Some(FinderMatch(s[..8 + n + m], s[2..2 + n], if m == 0 then s[n + 6..n + 7] else s[n + 7..n + 7 + m]))
  {
    var t := 2 + n;
    var w := t + 1 + 1;
    var e := w + 2 + (m + 1);
    assert s[w] == '-' && IsF(s[w + 1]) && s[e] == ')';
    var g := w + 2 + 1;
    assert g == e <==> m == 0;
    var r := FinderPrefix(s);
    assert r.Some?;
    assert r.value.text == s[..8 + n + m];
    assert r.value.template == s[2..2 + n];
    if m == 0 {
      assert r.value.fragments == s[n + 6..n + 7];
    } else {
      assert r.value.fragments == s[n + 7..n + 7 + m];
    }
  }

  /** A line holding one written expression has exactly one finder match. */
  lemma FindAllOfExpression(ps: seq<nat>, fs: seq<string>)
    requires ps != [] && WellFormedFragments(fs)
    ensures FindAll(RenderExpression(ps, fs))
         == [FinderMatch(RenderExpression(ps, fs), RenderTemplate(ps), FragmentCapture(fs))]
  {
    var e := RenderExpression(ps, fs);
    FinderRoundTrip(ps, fs, []);
    assert e + [] == e;
    assert e[|e|..] == [];
  }
}
