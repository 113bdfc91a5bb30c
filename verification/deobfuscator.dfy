/** `deobfuscate_powershell_reorder` (psdecode.py:52-137), one line at a
    time: the character-code prepass, the loop that resolves every reorder
    expression into a placeholder token, and the final expansion of the
    tokens that remain. */
module Deobfuscator {
  import opened Text
  import opened Scanner
  import opened Resolver

  // ---------------------------------------------------------------------
  // The character-code prepass (psdecode.py:87-92)
  // ---------------------------------------------------------------------

  /** A code Dafny can hold as a character: below the surrogate block or
      above it. Python can build a lone surrogate, Dafny's strings cannot. */
  predicate Representable(n: nat) {
    n < 0xD800 || 0xE000 <= n
  }

  /** A code `chr` accepts and Dafny can hold: a code point below
      `0x110000` outside the surrogate block. */
  predicate ValidCode(n: nat) {
    n < 0x11_0000 && Representable(n)
  }

  /** Every construct the left-to-right scan meets has a representable code
      (a code past the last code point is representable: `chr` raises). */
  predicate CodesRepresentable(s: string)
    decreases |s|
  {
    s == [] ||
    match CharCodePrefix(s)
    case Some(c) => Representable(c.code) && CodesRepresentable(s[|c.text|..])
    case None => CodesRepresentable(s[1..])
  }

  /** Every construct the left-to-right scan meets has a valid code. */
  predicate CodesValid(s: string)
    decreases |s|
  {
    s == [] ||
    match CharCodePrefix(s)
    case Some(c) => ValidCode(c.code) && CodesValid(s[|c.text|..])
    case None => CodesValid(s[1..])
  }

  /** Every code in a list of constructs is valid. */
  predicate AllValid(cs: seq<CharCode>) {
    forall k :: 0 <= k < |cs| ==> ValidCode(cs[k].code)
  }

  lemma AllValidCons(c: CharCode, rest: seq<CharCode>)
    ensures AllValid([c] + rest) <==> ValidCode(c.code) && AllValid(rest)
  {
    var all := [c] + rest;
    assert all[0] == c;
    assert forall k :: 0 <= k < |rest| ==> all[k + 1] == rest[k];
    assert forall k :: 1 <= k < |all| ==> all[k] == rest[k - 1];
  }

  /** The codes are valid exactly when every code `finditer` reports is. */
  lemma {:induction false} CodesValidMeans(s: string)
    ensures CodesValid(s) <==> AllValid(CharCodes(s))
    decreases |s|
  {
    if s != [] {
      match CharCodePrefix(s)
      case Some(c) =>
        CodesValidMeans(s[|c.text|..]);
        AllValidCons(c, CharCodes(s[|c.text|..]));
      case None =>
        CodesValidMeans(s[1..]);
    }
  }

  /** `"'" + chr(n) + "'"`: the quoted character with code `n`. */
  function CodeLiteral(n: nat): (r: string)
    requires ValidCode(n)
    ensures |r| == 3 && r[0] == '\'' && r[2] == '\'' && r[1] as int == n
  {
    "'" + [n as char] + "'"
  }

  /** The text `[char]n` of a character-code construct. */
  function CodeText(n: nat): string {
    "[char]" + DecimalString(n)
  }

  /** Each construct, as the left-to-right scan meets it, replaced by the
      quoted character it stands for; the rest of the text is kept. */
  function SubstituteCodes(s: string): string
    requires CodesValid(s)
    decreases |s|
  {
    if s == [] then []
    else
      match CharCodePrefix(s)
      case Some(c) => CodeLiteral(c.code) + SubstituteCodes(s[|c.text|..])
      case None => [s[0]] + SubstituteCodes(s[1..])
  }

  /** The prepass as intended: every construct becomes exactly its own
      quoted character and, when there was any construct, every backtick is
      deleted; a code past the last code point raises `ValueError`. */
  function Prepass(s: string): (r: Result<string>)
    requires CodesRepresentable(s)
    ensures r.Err? <==> !CodesValid(s)
    ensures r.Err? ==> r.failure == ValueError
    ensures r.Ok? && CharCodes(s) == [] ==> r.value == s
    ensures r.Ok? && CharCodes(s) != [] ==> '`' !in r.value
  {
    if !CodesValid(s) then Err(ValueError)
    else if CharCodes(s) == [] then Ok(s)
    else Ok(RemoveAll(SubstituteCodes(s), '`'))
  }

  /** Lines 88-92 as written: for each construct found in the original
      line, EVERY occurrence of its text in the current line is replaced by
      its character, then every backtick is deleted. */
  function ApplyCodes(content: string, codes: seq<CharCode>): (r: string)
    requires AllValid(codes) && forall k :: 0 <= k < |codes| ==> |codes[k].text| > 0
    ensures codes == [] ==> r == content
    ensures codes != [] ==> '`' !in r
    decreases |codes|
  {
    if codes == [] then content
    else
      var next := RemoveAll(ReplaceAll(content, codes[0].text, CodeLiteral(codes[0].code)), '`');
      ApplyCodes(next, codes[1..])
  }

  /** The prepass as written (psdecode.py:87-92): the constructs are found
      in the original line and applied one after the other to the current
      line; a code past the last code point raises `ValueError`. */
  function PrepassAsWritten(s: string): (r: Result<string>)
    requires CodesRepresentable(s)
    ensures r.Err? <==> !CodesValid(s)
    ensures r.Err? ==> r.failure == ValueError
    ensures r.Ok? && CharCodes(s) == [] ==> r.value == s
    ensures r.Ok? && CharCodes(s) != [] ==> '`' !in r.value
  {
    if !CodesValid(s) then Err(ValueError)
    else
      CodesValidMeans(s);
      Ok(ApplyCodes(s, CharCodes(s)))
  }

  /** A construct is recognised up to the end of its digits. */
  lemma CharCodePrefixOf(n: nat, rest: string)
    requires rest == [] || !IsDigit(rest[0])
    ensures CharCodePrefix(CodeText(n) + rest) == Some(CharCode(CodeText(n), n))
  {
    var s, d := CodeText(n) + rest, DecimalString(n);
    assert s[6..] == d + rest;
    RunIs(s[6..], Digits, |d|);
    assert s[1..5] == "char";
    assert s[6..6 + |d|] == d;
  }

  /** The intended behaviour of the prepass: a construct followed by
      anything but a digit becomes its own quoted character, whatever comes
      after it. */
  lemma SubstituteCodesEachCode(n: nat, rest: string)
    requires ValidCode(n)
    requires rest == [] || !IsDigit(rest[0])
    requires CodesValid(rest)
    ensures CharCodes(CodeText(n) + rest) == [CharCode(CodeText(n), n)] + CharCodes(rest)
    ensures CodesValid(CodeText(n) + rest)
    ensures SubstituteCodes(CodeText(n) + rest) == CodeLiteral(n) + SubstituteCodes(rest)
  {
    var s := CodeText(n) + rest;
    CharCodePrefixOf(n, rest);
    assert s[|CodeText(n)|..] == rest;
  }

  /** A text with no `[` holds no construct. */
  lemma {:induction false} NoBracketNoCodes(s: string)
    requires '[' !in s
    ensures CharCodes(s) == []
    decreases |s|
  {
    if s != [] {
      assert CharCodePrefix(s) == None;
      NoBracketNoCodes(s[1..]);
    }
  }

  /** Two constructs separated by a space: the intended prepass turns each
      into its own character. */
  lemma SubstituteTwoCodes(n: nat, m: nat)
    requires ValidCode(n) && ValidCode(m)
    ensures CodesValid(CodeText(n) + " " + CodeText(m))
    ensures CharCodes(CodeText(n) + " " + CodeText(m)) == [CharCode(CodeText(n), n), CharCode(CodeText(m), m)]
    ensures SubstituteCodes(CodeText(n) + " " + CodeText(m)) == CodeLiteral(n) + " " + CodeLiteral(m)
  {
    var cn, cm := CodeText(n), CodeText(m);
    var tail := " " + cm;
    ConcatAssoc(cn, " ", cm);
    SpaceThenCode(m);
    SubstituteCodesEachCode(n, tail);
    ConcatAssoc(CodeLiteral(n), " ", CodeLiteral(m));
    assert [CharCode(cn, n)] + [CharCode(cm, m)] == [CharCode(cn, n), CharCode(cm, m)];
  }

  lemma SpaceThenCode(m: nat)
    requires ValidCode(m)
    ensures CodesValid(" " + CodeText(m))
    ensures CharCodes(" " + CodeText(m)) == [CharCode(CodeText(m), m)]
    ensures SubstituteCodes(" " + CodeText(m)) == " " + CodeLiteral(m)
  {
    var cm := CodeText(m);
    OneCode(m);
    var tail := " " + cm;
    assert CharCodePrefix(tail) == None;
    assert tail[1..] == cm;
  }

  lemma OneCode(m: nat)
    requires ValidCode(m)
    ensures CodesValid(CodeText(m))
    ensures CharCodes(CodeText(m)) == [CharCode(CodeText(m), m)]
    ensures SubstituteCodes(CodeText(m)) == CodeLiteral(m)
  {
    NoBracketNoCodes([]);
    SubstituteCodesEachCode(m, []);
    assert CodeText(m) + [] == CodeText(m);
  }

  /** A text every code of which is valid has only representable codes. */
  lemma {:induction false} ValidCodesRepresentable(s: string)
    requires CodesValid(s)
    ensures CodesRepresentable(s)
    decreases |s|
  {
    if s != [] {
      match CharCodePrefix(s)
      case Some(c) => ValidCodesRepresentable(s[|c.text|..]);
      case None => ValidCodesRepresentable(s[1..]);
    }
  }

  /** The input that shows the prepass as written going wrong: `[char]7`
      is also the start of `[char]72`, so replacing every occurrence of
      `[char]7` turns the second construct into the bell character followed
      by a stray `2`, where `H` was meant. */
  lemma PrepassAsWrittenSplitsCodes()
    ensures CodesRepresentable(CodeText(7) + " " + CodeText(72))
    ensures PrepassAsWritten(CodeText(7) + " " + CodeText(72)) == Ok(CodeLiteral(7) + " " + CodeLiteral(7) + "2")
    ensures Prepass(CodeText(7) + " " + CodeText(72)) == Ok(CodeLiteral(7) + " " + CodeLiteral(72))
  {
    var c7, c72 := CodeText(7), CodeText(72);
    var s := c7 + " " + c72;
    SubstituteTwoCodes(7, 72);
    ValidCodesRepresentable(s);
    LiteralWithoutTick(7);
    LiteralWithoutTick(72);
    AsWrittenFirstReplacement(c7, c72);
  }

  lemma LiteralWithoutTick(n: nat)
    requires ValidCode(n) && n != '`' as int
    ensures '`' !in CodeLiteral(n)
  {
    var r := CodeLiteral(n);
    assert r == [r[0], r[1], r[2]];
  }

  /** The first replacement of the pass as written rewrites both constructs,
      and then nothing is left for the second. */
  lemma AsWrittenFirstReplacement(c7: string, c72: string)
    requires c7 == CodeText(7) && c72 == CodeText(72)
    ensures ReplaceAll(c7 + " " + c72, c7, CodeLiteral(7)) == CodeLiteral(7) + " " + CodeLiteral(7) + "2"
    ensures ApplyCodes(c7 + " " + c72, [CharCode(c7, 7), CharCode(c72, 72)]) == CodeLiteral(7) + " " + CodeLiteral(7) + "2"
  {
    assert DecimalString(7) == "7";
    assert DecimalString(72) == "72";
    assert c72 == c7 + "2";
    ReplacingPrefixCode(c7, c72, CodeLiteral(7));
    AsWrittenSecondReplacement(c7, c72, CodeLiteral(7) + " " + CodeLiteral(7) + "2");
  }

  /** Replacing a construct that is also the start of the next one splits
      the next one. */
  lemma ReplacingPrefixCode(pat: string, longer: string, rep: string)
    requires |pat| > 0 && pat[0] == '[' && longer == pat + "2"
    ensures ReplaceAll(pat + " " + longer, pat, rep) == rep + " " + rep + "2"
  {
    NoBracketNoOccurrence("2", pat);
    ReplaceAllAtPattern(pat, "2", rep);
    ReplaceAllPastChar(' ', longer, pat, rep);
    assert pat + " " + longer == pat + ([' '] + longer);
    ReplaceAllAtPattern(pat, [' '] + longer, rep);
  }

  lemma AsWrittenSecondReplacement(c7: string, c72: string, once: string)
    requires |c7| > 0 && |c72| > 0 && c72[0] == '['
    requires once == CodeLiteral(7) + " " + CodeLiteral(7) + "2"
    requires ReplaceAll(c7 + " " + c72, c7, CodeLiteral(7)) == once
    ensures ApplyCodes(c7 + " " + c72, [CharCode(c7, 7), CharCode(c72, 72)]) == once
  {
    var first, second := CharCode(c7, 7), CharCode(c72, 72);
    BellTwice(once);
    ApplyCodesPair(c7 + " " + c72, first, second);
    NoBracketNoOccurrence(once, c72);
    ApplyCodesUnchanged(once, second);
  }

  /** Two bell literals hold neither a backtick nor a bracket. */
  lemma BellTwice(once: string)
    requires once == CodeLiteral(7) + " " + CodeLiteral(7) + "2"
    ensures '`' !in once && '[' !in once
  {
    LiteralWithoutTick(7);
  }

  /** Two constructs in turn: the second is applied to what the first left. */
  lemma ApplyCodesPair(content: string, first: CharCode, second: CharCode)
    requires ValidCode(first.code) && ValidCode(second.code)
    requires |first.text| > 0 && |second.text| > 0
    ensures ApplyCodes(content, [first, second]) ==
              ApplyCodes(RemoveAll(ReplaceAll(content, first.text, CodeLiteral(first.code)), '`'), [second])
  {
    assert [first, second][1..] == [second];
  }

  /** A construct that does not occur leaves a text without backticks as it is. */
  lemma ApplyCodesUnchanged(content: string, c: CharCode)
    requires ValidCode(c.code) && |c.text| > 0
    requires !Occurs(content, c.text) && '`' !in content
    ensures ApplyCodes(content, [c]) == content
  {
    assert [c][1..] == [];
  }

  /** A text without `[` starts no construct: the scan walks past it. */
  lemma {:induction false} NoBracketThenCodes(t: string, u: string)
    requires '[' !in t
    ensures CharCodes(t + u) == CharCodes(u)
    ensures CodesValid(t + u) == CodesValid(u)
    ensures CodesValid(u) ==> SubstituteCodes(t + u) == t + SubstituteCodes(u)
    decreases |t|
  {
    if t != [] {
      var h, rest := t[0], t[1..];
      assert t == [h] + rest;
      ConcatAssoc([h], rest, u);
      assert (t + u)[1..] == rest + u;
      assert CharCodePrefix(t + u) == None;
      NoBracketThenCodes(rest, u);
      if CodesValid(u) {
        ConcatAssoc([h], rest, SubstituteCodes(u));
      }
    } else {
      assert t + u == u;
    }
  }

  lemma TickHidesCode(u: string)
    ensures CharCodePrefix("[`char]7" + u) == None
    ensures ("[`char]7" + u)[1..] == "`char]7" + u
  {
    var x := "[`char]7" + u;
    assert x[1] == '`';
  }

  /** A backtick inside the brackets hides a construct from the scan. */
  lemma TickedCode(m: nat)
    requires ValidCode(m)
    ensures CharCodes("[`char]7" + CodeText(m)) == [CharCode(CodeText(m), m)]
    ensures CodesValid("[`char]7" + CodeText(m))
    ensures SubstituteCodes("[`char]7" + CodeText(m)) == "[`char]7" + CodeLiteral(m)
  {
    OneCode(m);
    TickedText(CodeText(m));
  }

  /** Behind a ticked construct, the scan goes on as if it were not there. */
  lemma TickedText(u: string)
    requires CodesValid(u)
    ensures CharCodes("[`char]7" + u) == CharCodes(u)
    ensures CodesValid("[`char]7" + u)
    ensures SubstituteCodes("[`char]7" + u) == "[`char]7" + SubstituteCodes(u)
  {
    TickHidesCode(u);
    NoBracketThenCodes("`char]7", u);
    ConcatAssoc("[", "`char]7", SubstituteCodes(u));
  }

  /** The second input on which the two passes differ: a backtick inside
      the brackets of the middle construct. The pass as written finds
      `[char]8` and `[char]7` in the original line; deleting the backticks
      after the first replacement uncovers a second `[char]7`, which the
      next replacement then rewrites as well. The corrected pass rewrites
      only the constructs the scan met and leaves the uncovered one as text. */
  lemma PrepassAsWrittenUncoversCode()
    ensures CodesRepresentable(CodeText(8) + ("[`char]7" + CodeText(7)))
    ensures PrepassAsWritten(CodeText(8) + ("[`char]7" + CodeText(7))) ==
              Ok(CodeLiteral(8) + (CodeLiteral(7) + CodeLiteral(7)))
    ensures Prepass(CodeText(8) + ("[`char]7" + CodeText(7))) ==
              Ok(CodeLiteral(8) + (CodeText(7) + CodeLiteral(7)))
  {
    var c8, c7, rest := CodeText(8), CodeText(7), "[`char]7" + CodeText(7);
    TickedCode(7);
    SubstituteCodesEachCode(8, rest);
    ValidCodesRepresentable(c8 + rest);
    assert [CharCode(c8, 8)] + [CharCode(c7, 7)] == [CharCode(c8, 8), CharCode(c7, 7)];
    CorrectedKeepsUncovered();
    ApplyCodesPair(c8 + rest, CharCode(c8, 8), CharCode(c7, 7));
    AsWrittenUncovers();
  }

  /** The corrected pass: `[char]8` and the last `[char]7` are rewritten,
      then the backtick goes. */
  lemma CorrectedKeepsUncovered()
    ensures RemoveAll(CodeLiteral(8) + ("[`char]7" + CodeLiteral(7)), '`') ==
              CodeLiteral(8) + (CodeText(7) + CodeLiteral(7))
  {
    LiteralWithoutTick(8);
    LiteralWithoutTick(7);
    RemoveAllConcat(CodeLiteral(8), "[`char]7" + CodeLiteral(7), '`');
    RemoveAllConcat("[`char]7", CodeLiteral(7), '`');
    TickRemoved();
  }

  /** Deleting the backtick of the hidden construct uncovers `[char]7`. */
  lemma TickRemoved()
    ensures RemoveAll("[`char]7", '`') == CodeText(7)
  {
    var open, tick, tail := "[", "`", "char]7";
    assert CodeText(7) == open + tail by {
      assert DecimalString(7) == "7";
    }
    assert "[`char]7" == open + (tick + tail);
    TickDropped(open, tick, tail);
  }

  lemma TickDropped(open: string, tick: string, tail: string)
    requires open == "[" && tick == "`" && tail == "char]7"
    ensures RemoveAll(open + (tick + tail), '`') == open + tail
  {
    RemoveAllConcat(open, tick + tail, '`');
    RemoveAllConcat(tick, tail, '`');
    assert RemoveAll(tick, '`') == [];
    assert '`' !in tail && '`' !in open;
  }

  /** The pass as written: the first replacement finds nothing but
      `[char]8`; the backtick goes, and the second replacement rewrites both
      `[char]7`. */
  lemma AsWrittenUncovers()
    ensures RemoveAll(ReplaceAll(CodeText(8) + ("[`char]7" + CodeText(7)), CodeText(8), CodeLiteral(8)), '`') ==
              CodeLiteral(8) + (CodeText(7) + CodeText(7))
    ensures ApplyCodes(CodeLiteral(8) + (CodeText(7) + CodeText(7)), [CharCode(CodeText(7), 7)]) ==
              CodeLiteral(8) + (CodeLiteral(7) + CodeLiteral(7))
  {
    var c8, c7, l8 := CodeText(8), CodeText(7), CodeLiteral(8);
    var rest := "[`char]7" + c7;
    EightMissesRest();
    ReplaceAllAtPattern(c8, rest, l8);
    assert ReplaceAll(c8 + rest, c8, l8) == l8 + rest;
    TickGoesFromRest(l8, c7);
    SevenTwice();
  }

  lemma TickGoesFromRest(l8: string, c7: string)
    requires l8 == CodeLiteral(8) && c7 == CodeText(7)
    ensures RemoveAll(l8 + ("[`char]7" + c7), '`') == l8 + (c7 + c7)
  {
    LiteralWithoutTick(8);
    assert '`' !in c7 by {
      assert DecimalString(7) == "7";
    }
    TickRemoved();
    RemoveAllConcat("[`char]7", c7, '`');
    RemoveAllConcat(l8, "[`char]7" + c7, '`');
  }

  /** `[char]8` occurs nowhere in the rest of the line. */
  lemma EightMissesRest()
    ensures ReplaceAll("[`char]7" + CodeText(7), CodeText(8), CodeLiteral(8)) == "[`char]7" + CodeText(7)
  {
    var c8 := CodeText(8);
    assert c8[0] == '[' && c8[1] == 'c';
    SevenMissesEight();
    TickedMiss(CodeText(7), c8, CodeLiteral(8));
  }

  /** A text behind the ticked construct that the pattern leaves alone is
      left alone with it. */
  lemma TickedMiss(u: string, pat: string, rep: string)
    requires |pat| >= 2 && pat[0] == '[' && pat[1] != '`' && ReplaceAll(u, pat, rep) == u
    ensures ReplaceAll("[`char]7" + u, pat, rep) == "[`char]7" + u
  {
    var tail := "`char]7" + u;
    assert "[`char]7" + u == ['['] + tail;
    MissBeforeTick(tail, pat, rep);
    ReplaceAllPastText("`char]7", u, pat, rep);
  }

  /** A construct cannot start at a `[` followed by a backtick. */
  lemma MissBeforeTick(u: string, pat: string, rep: string)
    requires u != [] && u[0] == '`' && |pat| >= 2 && pat[1] != '`'
    ensures ReplaceAll(['['] + u, pat, rep) == ['['] + ReplaceAll(u, pat, rep)
  {
    var s := ['['] + u;
    assert s[1] == '`';
    ReplaceAllMiss(s, pat, rep);
    assert s[1..] == u;
  }

  lemma SevenMissesEight()
    ensures ReplaceAll(CodeText(7), CodeText(8), CodeLiteral(8)) == CodeText(7)
  {
    var c8, c7, l8 := CodeText(8), CodeText(7), CodeLiteral(8);
    assert c7[6] != c8[6] by {
      assert DecimalString(7) == "7" && DecimalString(8) == "8";
    }
    ReplaceAllMiss(c7, c8, l8);
    ReplaceAllPastText(c7[1..], [], c8, l8);
    assert c7[1..] + [] == c7[1..];
    assert c7 == [c7[0]] + c7[1..];
  }

  /** Both `[char]7` after the bell literal become the bell. */
  lemma SevenTwice()
    ensures ApplyCodes(CodeLiteral(8) + (CodeText(7) + CodeText(7)), [CharCode(CodeText(7), 7)]) ==
              CodeLiteral(8) + (CodeLiteral(7) + CodeLiteral(7))
  {
    var c7, l8, l7 := CodeText(7), CodeLiteral(8), CodeLiteral(7);
    assert '[' !in l8 by { assert l8 == [l8[0], l8[1], l8[2]]; }
    ReplaceAllPastText(l8, c7 + c7, c7, l7);
    ReplaceAllAtPattern(c7, c7, l7);
    ReplaceAllWhole(c7, l7);
    LiteralWithoutTick(8);
    LiteralWithoutTick(7);
    assert '`' !in l8 + (l7 + l7);
    ApplyCodesUnchanged(l8 + (l7 + l7), CharCode(c7, 7));
    assert [CharCode(c7, 7)][1..] == [];
  }

  lemma NoBracketNoOccurrence(s: string, pat: string)
    requires |pat| > 0 && pat[0] == '[' && '[' !in s
    ensures !Occurs(s, pat)
  {
  }

  // ---------------------------------------------------------------------
  // The resolution loop (psdecode.py:95-124)
  // ---------------------------------------------------------------------

  /** The state of one line inside the loop: its text, the placeholder table
      (`occurrences`) and the number of resolutions so far
      (`count_matches`). */
  datatype LineState = LineState(content: string, table: Table, count: nat)

  predicate Valid(st: LineState) {
    TableInvariant(st.table, st.count)
  }

  /** Every entry of `older` is kept, with its value, in `newer`. */
  predicate Extends(older: Table, newer: Table) {
    forall key :: key in older ==> key in newer && newer[key] == older[key]
  }

  /** Lines 100-118 for one match: its indices and fragments are extracted
      and resolved against the table. */
  function ResolveMatch(m: FinderMatch, table: Table): Resolution {
    Resolve(IndexExtract(m.template), FragmentExtract(m.fragments), table)
  }

  /** Lines 120-124: the resolved text goes into the table under the next
      token, and every occurrence of the matched text in the line is
      replaced by that token. */
  function Commit(st: LineState, text: string, out: string): (r: LineState)
    requires Valid(st) && text != [] && '\'' !in out
    ensures Valid(r) && Extends(st.table, r.table) && r.count == st.count + 1
    ensures Token(st.count) !in st.table && r.table[Token(st.count)] == out
  {
    Mint(st.table, st.count, out);
    var token := Token(st.count);
    LineState(ReplaceAll(st.content, text, token), st.table[token := out], st.count + 1)
  }

  /** Lines 100-124 for one finder match: the indices and fragments are
      extracted from its groups and resolved; on success the result is
      committed. A mismatch changes nothing. */

  function Step(m: FinderMatch, st: LineState): (r: Result<LineState>)
    requires Valid(st) && FinderShaped(m.text)
    ensures r.Ok? ==> Valid(r.value) && Extends(st.table, r.value.table)
    ensures r.Ok? ==> r.value.count == st.count || r.value.count == st.count + 1
    ensures r.Ok? && r.value.count == st.count ==> r.value == st
    ensures r.Ok? && r.value.count > st.count ==>
              r.value.content == ReplaceAll(st.content, m.text, Token(st.count)) &&
              Token(st.count) !in st.table && Token(st.count) in r.value.table
    ensures r.Err? <==> ResolveMatch(m, st.table).Raised?
    ensures r == Ok(st) <==> ResolveMatch(m, st.table) == Mismatch
  {
    match ResolveMatch(m, st.table)
    case Mismatch => Ok(st)
    case Raised(e) => Err(e)
    case Resolved(out) =>
      AssembleHasNoQuote(IndexExtract(m.template), FragmentExtract(m.fragments), st.table);
      Ok(Commit(st, m.text, out))
  }

  /** A step never adds a `-f`, and removes one when it resolves a match
      that occurs in the line. */
  lemma StepLowersDashF(m: FinderMatch, st: LineState)
    requires Valid(st) && FinderShaped(m.text)
    ensures Step(m, st).Ok? ==> DashFCount(Step(m, st).value.content) <= DashFCount(st.content)
    ensures Step(m, st).Ok? && Step(m, st).value.count > st.count && Occurs(st.content, m.text) ==>
              DashFCount(Step(m, st).value.content) < DashFCount(st.content)
  {
    var r := Step(m, st);
    if r.Ok? && r.value.count > st.count {
      ReplacingLowersDashF(st.content, m.text, st.count, r.value.content);
    }
  }

  /** Replacing a matched expression by a token lowers the `-f` count. */
  lemma ReplacingLowersDashF(s: string, t: string, k: nat, out: string)
    requires FinderShaped(t) && out == ReplaceAll(s, t, Token(k))
    ensures DashFCount(out) <= DashFCount(s)
    ensures Occurs(s, t) ==> DashFCount(out) < DashFCount(s)
  {
    TokenInert(k);
    ReplaceAllLowersDashF(s, t, Token(k));
  }

  /** The matches of one sweep all come from the text as it stood when the
      sweep began. */
  predicate MatchesOf(snapshot: string, ms: seq<FinderMatch>) {
    forall k :: 0 <= k < |ms| ==> FinderShaped(ms[k].text) && Occurs(snapshot, ms[k].text)
  }

  /** Lines 97-124: one pass of the `for` loop over the matches found in
      `snapshot`, each applied to the line as it stands; the first failure
      ends the pass. Every resolution replaces a text holding `-f` by a
      token without one, so once anything was resolved in a line still
      equal to the snapshot, the line has fewer `-f` than before. */
  function Sweep(snapshot: string, ms: seq<FinderMatch>, st: LineState): (r: Result<LineState>)
    requires Valid(st) && MatchesOf(snapshot, ms)
    ensures r.Ok? ==> Valid(r.value) && Extends(st.table, r.value.table) && r.value.count >= st.count
    ensures r.Ok? ==> DashFCount(r.value.content) <= DashFCount(st.content)
    ensures r.Ok? && r.value.count > st.count && st.content == snapshot ==>
              DashFCount(r.value.content) < DashFCount(st.content)
    ensures r.Ok? && r.value.count == st.count ==> r.value == st
    decreases |ms|
  {
    if ms == [] then Ok(st)
    else
      var m := ms[0];
      match Step(m, st)
      case Err(e) => Err(e)
      case Ok(next) =>
        StepLowersDashF(m, st);
        assert MatchesOf(snapshot, ms[1..]) by {
          assert forall k :: 0 <= k < |ms| - 1 ==> ms[1..][k] == ms[k + 1];
        }
        Sweep(snapshot, ms[1..], next)
  }

  /** A sweep leaves the line exactly as it was when, and only when, every
      match it meets is skipped because its numbers of indices and
      fragments differ. */
  lemma {:induction false} SweepResolvesNothing(snapshot: string, ms: seq<FinderMatch>, st: LineState)
    requires Valid(st) && MatchesOf(snapshot, ms)
    ensures Sweep(snapshot, ms, st) == Ok(st) <==>
              forall k :: 0 <= k < |ms| ==> ResolveMatch(ms[k], st.table) == Mismatch
    decreases |ms|
  {
    if ms != [] {
      assert MatchesOf(snapshot, ms[1..]) by {
        assert forall k :: 0 <= k < |ms| - 1 ==> ms[1..][k] == ms[k + 1];
      }
      AllCons(ms, m => ResolveMatch(m, st.table) == Mismatch);
      var step := Step(ms[0], st);
      if ResolveMatch(ms[0], st.table) == Mismatch {
        assert step == Ok(st);
        assert Sweep(snapshot, ms, st) == Sweep(snapshot, ms[1..], st);
        SweepResolvesNothing(snapshot, ms[1..], st);
      } else if step.Ok? {
        assert step.value.count == st.count + 1;
        var rest := Sweep(snapshot, ms[1..], step.value);
        assert Sweep(snapshot, ms, st) == rest;
        assert rest.Ok? ==> rest.value.count > st.count;
      } else {
        assert Sweep(snapshot, ms, st) == Err(step.failure);
      }
    }
  }

  /** How the loop ends for a line: with no finder match left, with an
      exception, or never, because a sweep resolved nothing and so the next
      sweep would see the very same line. */
  datatype ScanOutcome = Settled(state: LineState) | Stopped(failure: Failure) | Diverges

  /** Lines 95-124: sweep while the finder finds a match. */
  function Scan(st: LineState): (r: ScanOutcome)
    requires Valid(st)
    ensures r.Settled? ==> Valid(r.state) && FindAll(r.state.content) == []
    ensures r.Settled? ==> Extends(st.table, r.state.table) && r.state.count >= st.count
    decreases DashFCount(st.content)
  {
    var ms := FindAll(st.content);
    FindAllOccur(st.content);
    if ms == [] then Settled(st)
    else
      match Sweep(st.content, ms, st)
      case Err(e) => Stopped(e)
      case Ok(next) => if next.count == st.count then Diverges else Scan(next)
  }

  /** When every match in the line has a length mismatch, the sweep
      changes nothing and the `while` would find the same matches forever. */
  lemma ScanSpins(st: LineState)
    requires Valid(st) && FindAll(st.content) != []
    requires forall k :: 0 <= k < |FindAll(st.content)| ==>
               ResolveMatch(FindAll(st.content)[k], st.table) == Mismatch
    ensures Scan(st) == Diverges
  {
    FindAllOccur(st.content);
    SweepResolvesNothing(st.content, FindAll(st.content), st);
  }

  /** The numbers of indices and of fragments of a match differ, so line 104
      skips it whatever the table holds. */
  predicate Mismatched(m: FinderMatch) {
    |IndexExtract(m.template)| != |FragmentExtract(m.fragments)|
  }

  /** A mismatched match in the line is never resolved, and no other
      resolution can overlap it: its text stays in the line for good, the
      finder keeps finding it, and the loop never ends with the line
      settled: it raises, or sweeps without end. */
  lemma {:induction false} ScanNeverSettles(st: LineState, x: FinderMatch)
    requires Valid(st) && FinderParts(x) && Mismatched(x) && Occurs(st.content, x.text)
    ensures !Scan(st).Settled?
    decreases DashFCount(st.content)
  {
    var next := SweepOfKept(st, x);
    if next.Some? {
      ScanNeverSettles(next.value, x);
    }
  }

  /** The first sweep of a line holding a mismatched match: it raises,
      changes nothing, or leaves a line with fewer `-f` that still holds
      the match. */
  lemma SweepOfKept(st: LineState, x: FinderMatch) returns (next: Option<LineState>)
    requires Valid(st) && FinderParts(x) && Mismatched(x) && Occurs(st.content, x.text)
    ensures next.None? ==> !Scan(st).Settled?
    ensures next.Some? ==> Valid(next.value) && Occurs(next.value.content, x.text)
    ensures next.Some? ==> DashFCount(next.value.content) < DashFCount(st.content)
    ensures next.Some? ==> Scan(st) == Scan(next.value)
  {
    var ms := FindAll(st.content);
    KeptFound(st.content, x);
    var r := Sweep(st.content, ms, st);
    if r.Ok? && r.value.count != st.count {
      SweepKeeps(st.content, ms, st, x);
      next := Some(r.value);
    } else {
      next := None;
    }
  }

  /** A mismatched match found in the line keeps the loop from settling,
      whatever else the line holds. */
  lemma MismatchNeverSettles(st: LineState, k: nat)
    requires Valid(st) && k < |FindAll(st.content)|
    requires ResolveMatch(FindAll(st.content)[k], st.table) == Mismatch
    ensures !Scan(st).Settled?
  {
    FindAllOccur(st.content);
    FindAllParts(st.content);
    ScanNeverSettles(st, FindAll(st.content)[k]);
  }

  /** What the finder reports for a line holding the text of a match. */
  lemma KeptFound(s: string, x: FinderMatch)
    requires FinderParts(x) && Occurs(s, x.text)
    ensures FindAll(s) != [] && MatchesOf(s, FindAll(s)) && Framed(x.text)
    ensures forall k :: 0 <= k < |FindAll(s)| ==> Apart(FindAll(s)[k], x)
  {
    FoundWhereOccurs(s, x);
    FindAllOccur(s);
    FoundApart(s, x);
    PartsFramed(x);
  }

  /** Where a match's text occurs, the finder finds something. */
  lemma FoundWhereOccurs(s: string, x: FinderMatch)
    requires FinderParts(x) && Occurs(s, x.text)
    ensures FindAll(s) != []
  {
    var j: nat :| j <= |s| && OccursAt(s, x.text, j);
    var rest := s[j + |x.text|..];
    assert s[j..] == x.text + rest;
    FinderPrefixComplete(x, rest);
    FindAllEmptyIff(s);
  }

  /** `m` is framed, and it is `x` if it has the text of `x`. */
  predicate Apart(m: FinderMatch, x: FinderMatch) {
    Framed(m.text) && (m.text == x.text ==> m == x)
  }

  /** Every match the finder reports is apart from a given match. */
  lemma FoundApart(s: string, x: FinderMatch)
    requires FinderParts(x)
    ensures forall k :: 0 <= k < |FindAll(s)| ==> Apart(FindAll(s)[k], x)
  {
    FindAllParts(s);
    forall k | 0 <= k < |FindAll(s)| ensures Apart(FindAll(s)[k], x) {
      PartsApart(FindAll(s)[k], x);
    }
  }

  lemma PartsApart(m: FinderMatch, x: FinderMatch)
    requires FinderParts(m) && FinderParts(x)
    ensures Apart(m, x)
  {
    PartsFramed(m);
    SameTextSameMatch(m, x);
  }

  /** A sweep keeps the text of a mismatched match in the line. */
  lemma {:induction false} SweepKeeps(snapshot: string, ms: seq<FinderMatch>, st: LineState, x: FinderMatch)
    requires Valid(st) && MatchesOf(snapshot, ms) && forall k :: 0 <= k < |ms| ==> Apart(ms[k], x)
    requires Framed(x.text) && Mismatched(x) && Occurs(st.content, x.text)
    ensures Sweep(snapshot, ms, st).Ok? ==> Occurs(Sweep(snapshot, ms, st).value.content, x.text)
    decreases |ms|
  {
    if ms != [] && Step(ms[0], st).Ok? {
      var next := SweepKeepsHead(snapshot, ms, st, x);
      SweepKeeps(snapshot, ms[1..], next, x);
    }
  }

  /** The first step of a sweep keeps the text, and the rest of the sweep
      starts from where it leaves the line. */
  lemma SweepKeepsHead(snapshot: string, ms: seq<FinderMatch>, st: LineState, x: FinderMatch) returns (next: LineState)
    requires Valid(st) && MatchesOf(snapshot, ms) && forall k :: 0 <= k < |ms| ==> Apart(ms[k], x)
    requires Framed(x.text) && Mismatched(x) && Occurs(st.content, x.text)
    requires ms != [] && Step(ms[0], st).Ok?
    ensures Valid(next) && Occurs(next.content, x.text)
    ensures MatchesOf(snapshot, ms[1..]) && forall k :: 0 <= k < |ms[1..]| ==> Apart(ms[1..][k], x)
    ensures Sweep(snapshot, ms, st) == Sweep(snapshot, ms[1..], next)
  {
    ApartTail(ms, x);
    SweepUnfolds(snapshot, ms, st);
    StepKeeps(ms[0], st, x);
    next := Step(ms[0], st).value;
  }

  lemma ApartTail(ms: seq<FinderMatch>, x: FinderMatch)
    requires ms != [] && forall k :: 0 <= k < |ms| ==> Apart(ms[k], x)
    ensures Apart(ms[0], x) && forall k :: 0 <= k < |ms[1..]| ==> Apart(ms[1..][k], x)
  {
    AllCons(ms, m => Apart(m, x));
  }

  /** A sweep whose first step succeeds goes on from where that step
      leaves the line. */
  lemma SweepUnfolds(snapshot: string, ms: seq<FinderMatch>, st: LineState)
    requires Valid(st) && MatchesOf(snapshot, ms) && ms != [] && Step(ms[0], st).Ok?
    ensures MatchesOf(snapshot, ms[1..])
    ensures Sweep(snapshot, ms, st) == Sweep(snapshot, ms[1..], Step(ms[0], st).value)
  {
    assert MatchesOf(snapshot, ms[1..]) by {
      assert forall k :: 0 <= k < |ms| - 1 ==> ms[1..][k] == ms[k + 1];
    }
  }

  /** One step keeps the text of a mismatched match in the line: the
      match it resolves, if any, has a different text, which cannot
      overlap it. */
  lemma StepKeeps(m: FinderMatch, st: LineState, x: FinderMatch)
    requires Valid(st) && Apart(m, x) && FinderShaped(m.text)
    requires Framed(x.text) && Mismatched(x) && Occurs(st.content, x.text)
    ensures Step(m, st).Ok? ==> Occurs(Step(m, st).value.content, x.text)
  {
    var r := Step(m, st);
    if r.Ok? && r.value.count > st.count {
      ReplaceAllKeepsFramed(st.content, m.text, Token(st.count), x.text);
    }
  }

  /** The finder reads the groups off the text, so two matches with the
      same text are the same match. */
  lemma SameTextSameMatch(m: FinderMatch, x: FinderMatch)
    requires FinderParts(m) && FinderParts(x)
    ensures m.text == x.text ==> m == x
  {
    FinderPrefixWhole(m);
    FinderPrefixWhole(x);
  }

  // ---------------------------------------------------------------------
  // The final expansion (psdecode.py:127-131)
  // ---------------------------------------------------------------------

  /** For each placeholder-shaped word, in order, the quoted word is looked
      up in the table (a `KeyError` when absent) and every occurrence of it
      in the line is replaced by its value. */
  function ExpandWords(content: string, words: seq<string>, table: Table): (r: Result<string>)
    ensures words == [] ==> r == Ok(content)
    ensures r.Err? ==> r.failure.KeyError? && r.failure.key !in table
    decreases |words|
  {
    if words == [] then Ok(content)
    else
      var key := "'" + words[0] + "'";
      if key !in table then Err(KeyError(key))
      else ExpandWords(ReplaceAll(content, key, table[key]), words[1..], table)
  }

  /** The expansion fails exactly when some quoted word has no entry, and
      then with a `KeyError` naming a missing key. */
  lemma {:induction false} ExpandWordsOutcome(content: string, words: seq<string>, table: Table)
    ensures ExpandWords(content, words, table).Ok? <==>
              forall k :: 0 <= k < |words| ==> "'" + words[k] + "'" in table
    ensures ExpandWords(content, words, table).Err? ==>
              ExpandWords(content, words, table).failure.KeyError? &&
              ExpandWords(content, words, table).failure.key !in table
    decreases |words|
  {
    if words != [] {
      var key := "'" + words[0] + "'";
      if key in table {
        ExpandWordsOutcome(ReplaceAll(content, key, table[key]), words[1..], table);
        assert forall k :: 1 <= k < |words| ==> words[1..][k - 1] == words[k];
      }
    }
  }

  /** The `KeyError` names the first word, in the order found, whose quoted
      form has no entry. */
  lemma {:induction false} ExpandWordsFailsAtFirstMissing(content: string, words: seq<string>, table: Table, i: nat)
    requires i < |words| && "'" + words[i] + "'" !in table
    requires forall j :: 0 <= j < i ==> "'" + words[j] + "'" in table
    ensures ExpandWords(content, words, table) == Err(KeyError("'" + words[i] + "'"))
    decreases i
  {
    if i > 0 {
      var key := "'" + words[0] + "'";
      assert key in table;
      assert forall j :: 0 <= j < i - 1 ==> words[1..][j] == words[j + 1];
      ExpandWordsFailsAtFirstMissing(ReplaceAll(content, key, table[key]), words[1..], table, i - 1);
    }
  }

  /** Seen from the failure: the `KeyError` names some word whose quoted
      form is missing while every word before it has an entry. */
  lemma {:induction false} ExpandWordsFailureKey(content: string, words: seq<string>, table: Table)
    ensures ExpandWords(content, words, table).Err? ==>
              exists i :: 0 <= i < |words| && MissingFirstAt(words, table, i) &&
                ExpandWords(content, words, table).failure == KeyError("'" + words[i] + "'")
    decreases |words|
  {
    if words != [] {
      var key := "'" + words[0] + "'";
      if key !in table {
        assert MissingFirstAt(words, table, 0);
      } else {
        var next := ReplaceAll(content, key, table[key]);
        ExpandWordsFailureKey(next, words[1..], table);
        if ExpandWords(next, words[1..], table).Err? {
          var i :| 0 <= i < |words[1..]| && MissingFirstAt(words[1..], table, i) &&
                   ExpandWords(next, words[1..], table).failure == KeyError("'" + words[1..][i] + "'");
          MissingFirstShift(words, table, i);
        }
      }
    }
  }

  /** Word `i` is the first whose quoted form has no entry. */
  predicate MissingFirstAt(words: seq<string>, table: Table, i: nat)
    requires i < |words|
  {
    "'" + words[i] + "'" !in table && forall j :: 0 <= j < i ==> "'" + words[j] + "'" in table
  }

  lemma MissingFirstShift(words: seq<string>, table: Table, i: nat)
    requires i + 1 < |words| && "'" + words[0] + "'" in table && MissingFirstAt(words[1..], table, i)
    ensures MissingFirstAt(words, table, i + 1) && words[i + 1] == words[1..][i]
  {
    assert forall j :: 1 <= j < i + 1 ==> words[j] == words[1..][j - 1];
  }

  /** The words are the placeholder-shaped texts of the line after the
      loop, found with `re.IGNORECASE`. */
  function Expand(content: string, table: Table): (r: Result<string>)
    ensures Placeholders(content) == [] ==> r == Ok(content)
    ensures r.Err? ==> r.failure.KeyError? && r.failure.key !in table
  {
    ExpandWords(content, Placeholders(content), table)
  }

  // ---------------------------------------------------------------------
  // A line, and the whole input (psdecode.py:81-137)
  // ---------------------------------------------------------------------

  /** What processing a line or the input does: it produces the text, raises,
      or loops forever. */
  datatype Outcome<T> = Done(value: T) | Failed(failure: Failure) | Hangs

  lemma EmptyTableValid()
    ensures TableInvariant(map[], 0)
  {
    assert TokensBelow(0) == {};
  }

  /** Lines 95-134 on the text the prepass left: the loop, from an empty
      table and count 0, then the final expansion. */
  function LoopAndExpand(content: string): Outcome<string> {
    EmptyTableValid();
    match Scan(LineState(content, map[], 0))
    case Stopped(e) => Failed(e)
    case Diverges => Hangs
    case Settled(st) =>
      match Expand(st.content, st.table)
      case Ok(out) => Done(out)
      case Err(e) => Failed(e)
  }

  /** Lines 82-134 for one line, with the prepass as written. */
  function DeobfuscateLine(line: string): (r: Outcome<string>)
    requires CodesRepresentable(line)
    ensures !CodesValid(line) ==> r == Failed(ValueError)
    ensures CharCodes(line) == [] ==> r == LoopAndExpand(line)
  {
    CodesValidMeans(line);
    match PrepassAsWritten(line)
    case Err(e) => Failed(e)
    case Ok(content) => LoopAndExpand(content)
  }

  /** One line with the corrected prepass, which rewrites each construct
      into exactly its own character. */
  function DeobfuscateLineCorrected(line: string): (r: Outcome<string>)
    requires CodesRepresentable(line)
    ensures !CodesValid(line) ==> r == Failed(ValueError)
    ensures CharCodes(line) == [] ==> r == DeobfuscateLine(line)
  {
    CodesValidMeans(line);
    match Prepass(line)
    case Err(e) => Failed(e)
    case Ok(content) => LoopAndExpand(content)
  }

  /** A line with no construct the de-obfuscator looks for passes through
      unchanged; one that merely holds a placeholder-shaped word (there is
      nothing in the empty table) raises a `KeyError`. */
  lemma PlainLine(line: string)
    requires CharCodes(line) == [] && FindAll(line) == []
    ensures CodesRepresentable(line)
    ensures Placeholders(line) == [] ==> DeobfuscateLine(line) == Done(line)
    ensures Placeholders(line) != [] ==>
              DeobfuscateLine(line) == Failed(KeyError("'" + Placeholders(line)[0] + "'"))
  {
  }

  /** The outcome of a run of lines from the outcomes of the single lines:
      the first that raises or hangs decides, otherwise the outputs are
      collected in order. */
  function Collect<T>(outs: seq<Outcome<T>>): (r: Outcome<seq<T>>)
    ensures r.Done? <==> forall i :: 0 <= i < |outs| ==> outs[i].Done?
    ensures r.Done? ==>
              |r.value| == |outs| && (forall i :: 0 <= i < |outs| ==> outs[i] == Done(r.value[i]))
    ensures !r.Done? ==>
              exists i :: 0 <= i < |outs| && !outs[i].Done? && (forall j :: 0 <= j < i ==> outs[j].Done?) &&
                (r.Failed? <==> outs[i].Failed?) && (r.Failed? ==> r.failure == outs[i].failure)
    decreases |outs|
  {
    if outs == [] then Done([])
    else
      var rest := Collect(outs[1..]);
      assert forall i :: 1 <= i < |outs| ==> outs[1..][i - 1] == outs[i];
      match outs[0]
      case Failed(e) => Failed(e)
      case Hangs => Hangs
      case Done(first) =>
        match rest
        case Done(values) => Done([first] + values)
        case Failed(e) => Failed(e)
        case Hangs => Hangs
  }

  /** The outcome of each line, in order. */
  function LineOutcomes(lines: seq<string>): (outs: seq<Outcome<string>>)
    requires forall i :: 0 <= i < |lines| ==> CodesRepresentable(lines[i])
    ensures |outs| == |lines| && forall i :: 0 <= i < |lines| ==> outs[i] == DeobfuscateLine(lines[i])
    decreases |lines|
  {
    if lines == [] then []
    else [DeobfuscateLine(lines[0])] + LineOutcomes(lines[1..])
  }

  /** Lines 81-137: every line is processed on its own; the first line that
      raises or hangs decides the outcome, and otherwise there is one output
      line per input line. */
  function Deobfuscate(lines: seq<string>): (r: Outcome<seq<string>>)
    requires forall i :: 0 <= i < |lines| ==> CodesRepresentable(lines[i])
    ensures r.Done? <==> forall i :: 0 <= i < |lines| ==> DeobfuscateLine(lines[i]).Done?
    ensures r.Done? ==>
              |r.value| == |lines| &&
              (forall i :: 0 <= i < |lines| ==> DeobfuscateLine(lines[i]) == Done(r.value[i]))
    ensures !r.Done? ==>
              exists i :: 0 <= i < |lines| && !DeobfuscateLine(lines[i]).Done? &&
                (forall j :: 0 <= j < i ==> DeobfuscateLine(lines[j]).Done?) &&
                (r.Failed? <==> DeobfuscateLine(lines[i]).Failed?) &&
                (r.Failed? ==> r.failure == DeobfuscateLine(lines[i]).failure)
  {
    Collect(LineOutcomes(lines))
  }
}
