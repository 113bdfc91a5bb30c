/** What the de-obfuscator does to whole lines built by the obfuscator: a
    line holding one reorder expression comes out as that expression's
    resolution. */
module EndToEnd {
  import opened Text
  import opened Scanner
  import opened Resolver
  import opened Deobfuscator
  import opened Obfuscator

  /** A text without `(` holds no reorder expression. */
  lemma {:induction false} FindAllNoParen(s: string)
    requires '(' !in s
    ensures FindAll(s) == []
    decreases |s|
  {
    if s != [] {
      FindAllNoParen(s[1..]);
    }
  }

  /** The only placeholder in a token is its own. */
  lemma PlaceholdersOfToken(k: nat)
    ensures Placeholders(Token(k)) == [PlaceholderText(k)]
  {
    var p := PlaceholderText(k);
    var t := Token(k);
    PlaceholderPrefixOf(k, "'", true);
    assert t[1..] == p + "'";
    assert (p + "'")[|p|..] == "'";
    assert (p + "'")[..|p|] == p;
    assert Placeholders("'") == [];
  }

  /** The final expansion of a line that is just a token gives its value. */
  lemma ExpandToken(k: nat, table: Table)
    requires Token(k) in table
    ensures Expand(Token(k), table) == Ok(table[Token(k)])
  {
    var t, v := Token(k), table[Token(k)];
    PlaceholdersOfToken(k);
    assert "'" + PlaceholderText(k) + "'" == t;
    ReplaceAllAtPattern(t, [], v);
    assert t + [] == t;
    assert ReplaceAll([], t, v) == [];
    assert ReplaceAll(t, t, v) == v;
    assert ExpandWords(t, [PlaceholderText(k)], table) == ExpandWords(v, [], table);
  }

  /** Template and fragment list are read back, and the expression is the
      line's only finder match. */
  lemma ReadBack(ps: seq<nat>, fs: seq<string>)
    requires ps != [] && WellFormedFragments(fs)
    ensures FindAll(RenderExpression(ps, fs))
         == [FinderMatch(RenderExpression(ps, fs), RenderTemplate(ps), FragmentCapture(fs))]
    ensures IndexExtract(RenderTemplate(ps)) == ps
    ensures FragmentExtract(FragmentCapture(fs)) == fs
  {
    FindAllOfExpression(ps, fs);
    TemplateRoundTrip(ps);
    FragmentRoundTrip(fs);
  }

  /** The resolution loop on a line that is one reorder expression: it
      settles on the fresh token when the expression resolves, raises what
      the resolution raises, and never ends on a mismatch. */
  lemma ScanOneExpression(ps: seq<nat>, fs: seq<string>, st: LineState)
    requires ps != [] && WellFormedFragments(fs)
    requires Valid(st) && st.content == RenderExpression(ps, fs)
    ensures Resolve(ps, fs, st.table).Mismatch? ==> Scan(st) == Diverges
    ensures Resolve(ps, fs, st.table).Raised? ==> Scan(st) == Stopped(Resolve(ps, fs, st.table).failure)
    ensures Resolve(ps, fs, st.table).Resolved? ==>
              Scan(st) == Settled(LineState(Token(st.count),
                                            st.table[Token(st.count) := Resolve(ps, fs, st.table).out],
                                            st.count + 1))
  {
    ReadBack(ps, fs);
    ScanWholeMatch(FinderMatch(st.content, RenderTemplate(ps), FragmentCapture(fs)), st, ps, fs);
  }

  /** The loop on a line that is exactly one finder match. */
  lemma ScanWholeMatch(m: FinderMatch, st: LineState, ps: seq<nat>, fs: seq<string>)
    requires Valid(st) && FindAll(st.content) == [m] && m.text == st.content
    requires IndexExtract(m.template) == ps && FragmentExtract(m.fragments) == fs
    ensures Resolve(ps, fs, st.table).Mismatch? ==> Scan(st) == Diverges
    ensures Resolve(ps, fs, st.table).Raised? ==> Scan(st) == Stopped(Resolve(ps, fs, st.table).failure)
    ensures Resolve(ps, fs, st.table).Resolved? ==>
              Scan(st) == Settled(LineState(Token(st.count),
                                            st.table[Token(st.count) := Resolve(ps, fs, st.table).out],
                                            st.count + 1))
  {
    var e := st.content;
    var ms := FindAll(e);
    assert ms[0] == m;
    assert FinderShaped(m.text);
    assert OccursAt(e, e, 0);
    assert Occurs(e, m.text);
    SweepOne(e, m, st);
    assert ResolveMatch(m, st.table) == Resolve(ps, fs, st.table);
    StepOf(m, st);
    if Resolve(ps, fs, st.table).Resolved? {
      CommitWhole(st, Resolve(ps, fs, st.table).out);
    }
  }

  /** Committing a match that is the whole line leaves only the token,
      where the finder finds nothing more. */
  lemma CommitWhole(st: LineState, out: string)
    requires Valid(st) && st.content != [] && '\'' !in out
    ensures Scan(Commit(st, st.content, out)) ==
              Settled(LineState(Token(st.count), st.table[Token(st.count) := out], st.count + 1))
  {
    var e, t := st.content, Token(st.count);
    assert Commit(st, e, out) == LineState(ReplaceAll(e, e, t), st.table[t := out], st.count + 1);
    ReplaceAllWhole(e, t);
    TokenChars(st.count);
    FindAllNoParen(t);
  }

  /** One step, in terms of the resolution of its match: skipped on a
      mismatch, raising what the resolution raises, and otherwise committing
      a quote-free result. */
  lemma StepOf(m: FinderMatch, st: LineState)
    requires Valid(st) && FinderShaped(m.text)
    ensures ResolveMatch(m, st.table).Mismatch? ==> Step(m, st) == Ok(st)
    ensures ResolveMatch(m, st.table).Raised? ==> Step(m, st) == Err(ResolveMatch(m, st.table).failure)
    ensures ResolveMatch(m, st.table).Resolved? ==>
              '\'' !in ResolveMatch(m, st.table).out &&
              Step(m, st) == Ok(Commit(st, m.text, ResolveMatch(m, st.table).out))
  {
    if ResolveMatch(m, st.table).Resolved? {
      AssembleHasNoQuote(IndexExtract(m.template), FragmentExtract(m.fragments), st.table);
    }
  }

  /** A sweep over one match is that match's step. */
  lemma SweepOne(snapshot: string, m: FinderMatch, st: LineState)
    requires Valid(st) && FinderShaped(m.text) && Occurs(snapshot, m.text)
    ensures MatchesOf(snapshot, [m])
    ensures Sweep(snapshot, [m], st) == Step(m, st)
  {
    assert [m][1..] == [];
  }

  /** A text with no `[` in its fragments has none in its rendering. */
  lemma {:induction false} NoBracketInFragments(fs: seq<string>)
    requires forall k :: 0 <= k < |fs| ==> '[' !in fs[k]
    ensures '[' !in RenderFragments(fs)
    decreases |fs|
  {
    if |fs| > 1 {
      NoBracketInFragments(fs[1..]);
    }
  }

  lemma NoBracketInExpression(ps: seq<nat>, fs: seq<string>)
    requires forall k :: 0 <= k < |fs| ==> '[' !in fs[k]
    ensures '[' !in RenderExpression(ps, fs)
  {
    NoBracketInFragments(fs);
    var t := RenderTemplate(ps);
    assert '[' !in t by {
      assert forall j :: 0 <= j < |t| ==> InClass(TemplateChars, t[j]);
    }
  }

  /** A line with nothing the prepass rewrites goes into the loop as it is. */
  lemma PrepassNoCodes(line: string)
    requires CharCodes(line) == []
    ensures CodesValid(line) && CodesRepresentable(line)
    ensures PrepassAsWritten(line) == Ok(line) && Prepass(line) == Ok(line)
  {
    CodesValidMeans(line);
    ValidCodesRepresentable(line);
  }

  /** A line holding one reorder expression (whose fragments hold no `[`)
      comes out as the expression's resolution against the empty table:
      the reordered text, the exception the resolution raises, or no end
      at all when the numbers of indices and fragments differ. */
  lemma SingleExpressionLine(ps: seq<nat>, fs: seq<string>)
    requires ps != [] && WellFormedFragments(fs)
    requires forall k :: 0 <= k < |fs| ==> '[' !in fs[k]
    ensures CodesRepresentable(RenderExpression(ps, fs))
    ensures Resolve(ps, fs, map[]).Resolved? ==>
              DeobfuscateLine(RenderExpression(ps, fs)) == Done(Resolve(ps, fs, map[]).out)
    ensures Resolve(ps, fs, map[]).Raised? ==>
              DeobfuscateLine(RenderExpression(ps, fs)) == Failed(Resolve(ps, fs, map[]).failure)
    ensures Resolve(ps, fs, map[]).Mismatch? ==>
              DeobfuscateLine(RenderExpression(ps, fs)) == Hangs
  {
    var e := RenderExpression(ps, fs);
    NoBracketInExpression(ps, fs);
    NoBracketNoCodes(e);
    PrepassNoCodes(e);
    EmptyTableValid();
    var st := LineState(e, map[], 0);
    ScanOneExpression(ps, fs, st);
    if Resolve(ps, fs, map[]).Resolved? {
      ExpandToken(0, map[][Token(0) := Resolve(ps, fs, map[]).out]);
    }
  }

  /** Obfuscating a text and de-obfuscating the result gives the text back:
      when each piece sits at the fragment position the template names for
      it (and pieces are trimmed and not placeholder-shaped), the line
      de-obfuscates to the pieces in order. */
  lemma DeobfuscatesReordering(ps: seq<nat>, fs: seq<string>, pieces: seq<string>)
    requires ps != [] && WellFormedFragments(fs)
    requires forall k :: 0 <= k < |fs| ==> '[' !in fs[k]
    requires |pieces| == |ps| == |fs|
    requires forall i :: 0 <= i < |ps| ==> ps[i] < |fs| && fs[ps[i]] == pieces[i]
    requires forall i :: 0 <= i < |pieces| ==> !PlaceholderShaped(pieces[i]) && Strip(pieces[i]) == pieces[i]
    ensures CodesRepresentable(RenderExpression(ps, fs))
    ensures DeobfuscateLine(RenderExpression(ps, fs)) == Done(Concat(pieces))
  {
    ResolveUndoesReorder(ps, fs, map[], pieces);
    ResolvedLine(ps, fs, Concat(pieces));
  }

  lemma ResolvedLine(ps: seq<nat>, fs: seq<string>, out: string)
    requires ps != [] && WellFormedFragments(fs)
    requires forall k :: 0 <= k < |fs| ==> '[' !in fs[k]
    requires Resolve(ps, fs, map[]) == Resolved(out)
    ensures CodesRepresentable(RenderExpression(ps, fs))
    ensures DeobfuscateLine(RenderExpression(ps, fs)) == Done(out)
  {
    SingleExpressionLine(ps, fs);
  }

  // ---------------------------------------------------------------------
  // Worked examples
  // ---------------------------------------------------------------------

  lemma ExampleDigits()
    ensures DecimalString(0) == "0" && DecimalString(1) == "1"
    ensures DecimalString(2) == "2" && DecimalString(5) == "5"
  {
  }

  lemma ExampleTemplates()
    ensures RenderTemplate([0, 1]) == "{0}{1}"
    ensures RenderTemplate([2, 0, 1]) == "{2}{0}{1}"
    ensures RenderTemplate([5]) == "{5}"
  {
    ExampleDigits();
    assert [0, 1][1..] == [1] && [2, 0, 1][1..] == [0, 1];
    assert RenderTemplate([1]) == "{1}";
  }

  lemma ExampleFragmentLists()
    ensures RenderFragments(["A", "B", "C"]) == "'A','B','C'"
    ensures RenderFragments(["A"]) == "'A'"
  {
    assert ["A", "B", "C"][1..] == ["B", "C"] && ["B", "C"][1..] == ["C"];
    assert RenderFragments(["C"]) == "'C'";
    assert RenderFragments(["B", "C"]) == "'B','C'";
  }

  /** Indices are read left to right, each from the leftmost `{digits}`:
      a doubled brace and a non-digit inside braces are skipped. */
  lemma ExampleIndices()
    ensures Positions("{{0}}") == [0]
    ensures Positions("{x}{1}") == [1]
  {
    ExampleDoubledBrace("{{0}}");
    ExampleLetterInBraces("{x}{1}");
  }

  lemma ExampleDoubledBrace(a: string)
    requires a == "{{0}}"
    ensures Positions(a) == [0]
  {
    assert IndexPrefix(a).None? by {
      assert a[1..][0] == '{';
    }
    IndexPrefixOf(a[1..], 3);
    assert a[1..][1..2] == "0";
    assert Positions(a[1..][3..]) == [] by {
      assert '{' !in a[1..][3..];
    }
  }

  lemma ExampleLetterInBraces(b: string)
    requires b == "{x}{1}"
    ensures Positions(b) == [1]
  {
    assert IndexPrefix(b).None? by {
      assert b[1..][0] == 'x';
    }
    assert IndexPrefix(b[1..]).None?;
    assert IndexPrefix(b[1..][1..]).None?;
    IndexPrefixOf(b[3..], 3);
    assert b[1..][1..][1..] == b[3..];
    assert b[3..][1..2] == "1";
    assert b[3..][3..] == [];
    assert Positions(b[3..]) == [1];
    assert Positions(b[1..][1..]) == Positions(b[3..]);
    assert Positions(b) == Positions(b[1..]) == Positions(b[1..][1..]);
  }

  /** The finder takes `-f` in either case, with any whitespace, or none,
      around it. */
  lemma ExampleFinderSpacing()
    ensures FinderPrefix("(\"{0}\"-f'a')") == Some(FinderMatch("(\"{0}\"-f'a')", "{0}", "'a'"))
    ensures FinderPrefix("(\"{0}\"  -F 'a')") == Some(FinderMatch("(\"{0}\"  -F 'a')", "{0}", "'a'"))
  {
    ExampleFinderTight("(\"{0}\"-f'a')");
    ExampleFinderLoose("(\"{0}\"  -F 'a')");
  }

  lemma ExampleFinderTight(s: string)
    requires s == "(\"{0}\"-f'a')"
    ensures FinderPrefix(s) == Some(FinderMatch(s, "{0}", "'a'"))
  {
    TightStops(s);
    assert s[..12] == s && s[2..5] == "{0}" && s[8..11] == "'a'";
    WholeMatch(s, 5, 6, 11, 8, "{0}", "'a'");
  }

  /** A text whose runs stop at the given places is one whole match with
      the given groups. */
  lemma WholeMatch(s: string, t: nat, w: nat, e: nat, g': nat, template: string, fragments: string)
    requires PlainStops(s, t, w, e, g') && e + 1 == |s|
    requires s[2..t] == template && s[g'..e] == fragments
    ensures FinderPrefix(s) == Some(FinderMatch(s, template, fragments))
  {
    StopsMatch(s, t, w, e, g');
    assert s[..e + 1] == s;
  }

  lemma TightStops(s: string)
    requires s == "(\"{0}\"-f'a')"
    ensures PlainStops(s, 5, 6, 11, 8)
  {
    assert s[2..5] == "{0}" && s[8..11] == "'a'";
    TemplateZero(s[2..5]);
    QuotedA(s[8..11]);
    assert s[6..6] == [] && s[8..8] == [];
  }

  lemma ExampleFinderLoose(s: string)
    requires s == "(\"{0}\"  -F 'a')"
    ensures FinderPrefix(s) == Some(FinderMatch(s, "{0}", "'a'"))
  {
    LooseStops(s);
    assert s[2..5] == "{0}" && s[11..14] == "'a'";
    WholeMatch(s, 5, 8, 14, 11, "{0}", "'a'");
  }

  lemma LooseStops(s: string)
    requires s == "(\"{0}\"  -F 'a')"
    ensures PlainStops(s, 5, 8, 14, 11)
  {
    assert s[2..5] == "{0}" && s[11..14] == "'a'";
    TemplateZero(s[2..5]);
    QuotedA(s[11..14]);
    assert s[6..8] == "  " && s[10..11] == " ";
  }

  lemma TemplateZero(x: string)
    requires x == "{0}"
    ensures AllIn(x, TemplateChars)
  {
  }

  lemma QuotedA(x: string)
    requires x == "'a'"
    ensures AllIn(x, FragmentChars)
  {
    assert IsWord(x[1]);
  }

  lemma ReorderText(line: string)
    requires line == "(\"{2}{0}{1}\" -f 'A','B','C')"
    ensures RenderExpression([2, 0, 1], ["A", "B", "C"]) == line
  {
    ExampleTemplates();
    ExampleFragmentLists();
    ExpressionOf([2, 0, 1], ["A", "B", "C"], "{2}{0}{1}", "'A','B','C'");
    ReorderLiteral(line);
  }

  lemma ReorderLiteral(line: string)
    requires line == "(\"{2}{0}{1}\" -f 'A','B','C')"
    ensures line == "(\"" + "{2}{0}{1}" + "\" -f " + "'A','B','C'" + ")"
  {
  }

  lemma MismatchText()
    ensures RenderExpression([0, 1], ["A", "B", "C"]) == "(\"{0}{1}\" -f 'A','B','C')"
  {
    ExampleTemplates();
    ExampleFragmentLists();
    ExpressionOf([0, 1], ["A", "B", "C"], "{0}{1}", "'A','B','C'");
  }

  lemma IndexErrorText()
    ensures RenderExpression([5], ["A"]) == "(\"{5}\" -f 'A')"
  {
    ExampleTemplates();
    ExampleFragmentLists();
    ExpressionOf([5], ["A"], "{5}", "'A'");
  }

  lemma ExpressionOf(ps: seq<nat>, fs: seq<string>, template: string, list: string)
    requires RenderTemplate(ps) == template && RenderFragments(fs) == list
    ensures RenderExpression(ps, fs) == "(\"" + template + "\" -f " + list + ")"
  {
  }

  lemma ExampleFragments()
    ensures WellFormedFragments(["A", "B", "C"]) && WellFormedFragments(["A"])
    ensures forall k :: 0 <= k < 3 ==> '[' !in ["A", "B", "C"][k]
    ensures '[' !in "A"
  {
  }

  /** A one-letter piece is trimmed and not placeholder-shaped. */
  lemma LetterPiece(p: string)
    requires |p| == 1 && 'A' <= p[0] <= 'Z'
    ensures !PlaceholderShaped(p) && Strip(p) == p
  {
  }

  lemma ExampleSelection(pieces: seq<string>)
    requires pieces == ["C", "A", "B"]
    ensures forall i :: 0 <= i < 3 ==> [2, 0, 1][i] < 3 && ["A", "B", "C"][[2, 0, 1][i]] == pieces[i]
  {
  }

  /** Pieces of single capital letters are all trimmed and none is
      placeholder-shaped. */
  lemma LetterPieces(pieces: seq<string>)
    requires forall i :: 0 <= i < |pieces| ==> |pieces[i]| == 1 && 'A' <= pieces[i][0] <= 'Z'
    ensures forall i :: 0 <= i < |pieces| ==> !PlaceholderShaped(pieces[i]) && Strip(pieces[i]) == pieces[i]
  {
    forall i | 0 <= i < |pieces|
      ensures !PlaceholderShaped(pieces[i]) && Strip(pieces[i]) == pieces[i]
    {
      LetterPiece(pieces[i]);
    }
  }

  lemma ExampleConcat(pieces: seq<string>)
    requires pieces == ["C", "A", "B"]
    ensures Concat(pieces) == "CAB"
  {
    var rest := pieces[1..];
    assert rest == ["A", "B"] && rest[1..] == ["B"] && rest[1..][1..] == [];
    assert Concat(rest[1..]) == "B";
    assert Concat(rest) == "AB";
  }

  /** `("{2}{0}{1}" -f 'A','B','C')` becomes `CAB`. */
  lemma ExampleReorder(line: string)
    requires line == "(\"{2}{0}{1}\" -f 'A','B','C')"
    ensures CodesRepresentable(line)
    ensures DeobfuscateLine(line) == Done("CAB")
  {
    ExampleFragments();
    ExampleSelection(["C", "A", "B"]);
    LetterPieces(["C", "A", "B"]);
    ExampleConcat(["C", "A", "B"]);
    ReorderText(line);
    DeobfuscatesReordering([2, 0, 1], ["A", "B", "C"], ["C", "A", "B"]);
  }

  /** Two indices and three fragments: the loop never ends. */
  lemma ExampleMismatch(line: string)
    requires line == "(\"{0}{1}\" -f 'A','B','C')"
    ensures CodesRepresentable(line)
    ensures DeobfuscateLine(line) == Hangs
  {
    MismatchText();
    ExampleFragments();
    SingleExpressionLine([0, 1], ["A", "B", "C"]);
  }

  /** An index past the last fragment raises `IndexError`. */
  lemma ExampleIndexError(line: string)
    requires line == "(\"{5}\" -f 'A')"
    ensures CodesRepresentable(line)
    ensures DeobfuscateLine(line) == Failed(IndexError)
  {
    IndexErrorText();
    ExampleFragments();
    assert Resolve([5], ["A"], map[]) == Raised(IndexError);
    SingleExpressionLine([5], ["A"]);
  }
}
