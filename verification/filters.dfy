/** The two line filters of the tool: `remove_ticks` (psdecode.py:141-143)
    and `add_new_lines_at_semicolons` (psdecode.py:183-187). */
module Filters {
  import opened Text
  import opened Resolver

  // ---------------------------------------------------------------------
  // Backticks (psdecode.py:141-143)
  // ---------------------------------------------------------------------

  /** Every backtick is deleted except the line's last character, which is
      kept whatever it is; an empty line has no last character and raises
      `IndexError`. */
  function RemoveTicks(line: string): (r: Result<string>)
    ensures r.Ok? <==> |line| > 0
    ensures r.Err? ==> r.failure == IndexError
    ensures r.Ok? ==> |r.value| > 0 && r.value[|r.value| - 1] == line[|line| - 1]
    ensures r.Ok? ==> '`' !in r.value[..|r.value| - 1]
    ensures r.Ok? && '`' !in line[..|line| - 1] ==> r.value == line
  {
    if line == [] then Err(IndexError)
    else
      var body := RemoveAll(line[..|line| - 1], '`');
      var r := body + [line[|line| - 1]];
      assert r[..|r| - 1] == body;
      assert '`' !in line[..|line| - 1] ==> line == line[..|line| - 1] + [line[|line| - 1]];
      Ok(r)
  }

  /** Only backticks are deleted: with backticks ignored, the line is the
      same before and after. */
  lemma RemoveTicksKeepsText(line: string)
    requires |line| > 0
    ensures RemoveAll(RemoveTicks(line).value, '`') == RemoveAll(line, '`')
  {
    TicksBody(line);
    KeepsTextOf(line, line[..|line| - 1], line[|line| - 1]);
  }

  /** Deleting backticks from the front twice, then from the whole. */
  lemma TicksBody(line: string)
    requires |line| > 0
    ensures RemoveTicks(line).value == RemoveAll(line[..|line| - 1], '`') + [line[|line| - 1]]
  {
  }

  lemma KeepsTextOf(line: string, front: string, last: char)
    requires |line| > 0 && front == line[..|line| - 1] && last == line[|line| - 1]
    ensures RemoveAll(RemoveAll(front, '`') + [last], '`') == RemoveAll(line, '`')
  {
    assert line == front + [last];
    RemoveAllConcat(front, [last], '`');
    RemoveAllConcat(RemoveAll(front, '`'), [last], '`');
  }

  /** Applying the filter twice is applying it once. */
  lemma RemoveTicksIdempotent(line: string)
    requires |line| > 0
    ensures RemoveTicks(RemoveTicks(line).value) == RemoveTicks(line)
  {
  }

  // ---------------------------------------------------------------------
  // `str.split(sep)` and its inverse `sep.join`
  // ---------------------------------------------------------------------

  /** `s.split(sep)`: the pieces between separators, empty ones included,
      so there is always one more piece than separators. */
  function Split(s: string, sep: char): (r: seq<string>)
    ensures |r| > 0
    ensures forall k :: 0 <= k < |r| ==> sep !in r[k]
    decreases |s|
  {
    if s == [] then [[]]
    else
      var rest := Split(s[1..], sep);
      if s[0] == sep then [[]] + rest
      else
        assert forall k :: 1 <= k < |rest| ==> rest[1..][k - 1] == rest[k];
        [[s[0]] + rest[0]] + rest[1..]
  }

  /** `sep.join(ps)`. */
  function Join(ps: seq<string>, sep: char): string
    decreases |ps|
  {
    if |ps| == 0 then []
    else if |ps| == 1 then ps[0]
    else ps[0] + [sep] + Join(ps[1..], sep)
  }

  /** Joining the pieces of a split gives the text back. */
  lemma {:induction false} JoinOfSplit(s: string, sep: char)
    ensures Join(Split(s, sep), sep) == s
    decreases |s|
  {
    if s != [] {
      var rest := Split(s[1..], sep);
      JoinOfSplit(s[1..], sep);
      if s[0] == sep {
        assert [[]] + rest == [[]] + rest;
        assert ([[]] + rest)[1..] == rest;
      } else {
        var ps := [[s[0]] + rest[0]] + rest[1..];
        assert ps[1..] == rest[1..];
        if |rest| > 1 {
          assert Join(rest, sep) == rest[0] + [sep] + Join(rest[1..], sep);
        }
      }
    }
  }

  /** Splitting a join of separator-free pieces gives the pieces back. */
  lemma {:induction false} SplitOfJoin(ps: seq<string>, sep: char)
    requires |ps| > 0 && forall k :: 0 <= k < |ps| ==> sep !in ps[k]
    ensures Split(Join(ps, sep), sep) == ps
    decreases |ps|, |ps[0]|
  {
    if ps[0] == [] {
      if |ps| > 1 {
        SplitOfJoin(ps[1..], sep);
        JoinAfterEmpty(ps, sep);
        assert ps == [[]] + ps[1..];
      }
    } else {
      var q := [ps[0][1..]] + ps[1..];
      assert forall k :: 1 <= k < |q| ==> q[k] == ps[k];
      SplitOfJoin(q, sep);
      JoinAfterChar(ps, q, sep);
      assert q[1..] == ps[1..];
      assert ps[0] == [ps[0][0]] + q[0];
      assert ps == [[ps[0][0]] + q[0]] + q[1..];
    }
  }

  lemma JoinAfterEmpty(ps: seq<string>, sep: char)
    requires |ps| > 1 && ps[0] == []
    ensures Join(ps, sep) == [sep] + Join(ps[1..], sep)
  {
  }

  lemma JoinAfterChar(ps: seq<string>, q: seq<string>, sep: char)
    requires |ps| > 0 && ps[0] != [] && q == [ps[0][1..]] + ps[1..]
    ensures Join(ps, sep) == [ps[0][0]] + Join(q, sep)
  {
    assert q[1..] == ps[1..];
    if |ps| > 1 {
      ConcatAssoc([ps[0][0]], ps[0][1..], [sep] + Join(ps[1..], sep));
      assert ps[0] == [ps[0][0]] + ps[0][1..];
    }
  }

  // ---------------------------------------------------------------------
  // Breaking lines after semicolons (psdecode.py:183-187)
  // ---------------------------------------------------------------------

  /** `line.replace(';', ';\n').split('\n')`. */
  function BreakAfterSemicolons(line: string): seq<string> {
    Split(ReplaceAll(line, ";", ";\n"), '\n')
  }

  /** The pieces of all lines, in order (the `extend` loop). */
  function Pieces(lines: seq<string>): seq<string>
    decreases |lines|
  {
    if lines == [] then [] else BreakAfterSemicolons(lines[0]) + Pieces(lines[1..])
  }

  /** The non-empty pieces, each with a newline appended. */
  function Terminated(ps: seq<string>): seq<string>
    decreases |ps|
  {
    if ps == [] then []
    else if ps[0] == [] then Terminated(ps[1..])
    else [ps[0] + "\n"] + Terminated(ps[1..])
  }

  /** Every output line is non-empty text ending in its only newline, with a
      semicolon at most right before that newline. */
  function AddNewLinesAtSemicolons(lines: seq<string>): (r: seq<string>)
    ensures forall k :: 0 <= k < |r| ==> OutputLine(r[k])
  {
    PiecesArePieces(lines);
    TerminatedShape(Pieces(lines));
    Terminated(Pieces(lines))
  }

  /** What every output line looks like: some text without a newline,
      holding a semicolon at most as its last character, then one newline. */
  predicate OutputLine(o: string) {
    |o| >= 2 && o[|o| - 1] == '\n' && '\n' !in o[..|o| - 1] &&
    forall j :: 0 <= j < |o| - 2 ==> o[j] != ';'
  }

  /** A piece as the split leaves it: no newline, and a semicolon at most as
      its last character. */
  predicate Piece(p: string) {
    '\n' !in p && forall j :: 0 <= j < |p| - 1 ==> p[j] != ';'
  }

  /** Every `;` is directly followed by a newline. */
  predicate SemicolonsBroken(t: string) {
    forall j :: 0 <= j < |t| && t[j] == ';' ==> j + 1 < |t| && t[j + 1] == '\n'
  }

  lemma {:induction false} ReplaceAllCharConcat(a: string, b: string, c: char, rep: string)
    ensures ReplaceAll(a + b, [c], rep) == ReplaceAll(a, [c], rep) + ReplaceAll(b, [c], rep)
    decreases |a|
  {
    if a == [] {
      assert a + b == b;
    } else {
      var h, t := a[0], a[1..];
      assert a == [h] + t;
      assert a + b == [h] + (t + b);
      ReplaceAllCharConcat(t, b, c, rep);
      ReplaceAllConsStep(h, t, b, c, rep);
    }
  }

  lemma ReplaceAllConsStep(h: char, t: string, b: string, c: char, rep: string)
    requires ReplaceAll(t + b, [c], rep) == ReplaceAll(t, [c], rep) + ReplaceAll(b, [c], rep)
    ensures ReplaceAll([h] + (t + b), [c], rep) == ReplaceAll([h] + t, [c], rep) + ReplaceAll(b, [c], rep)
  {
    ReplaceAllOfCons(h, t + b, c, rep);
    ReplaceAllOfCons(h, t, c, rep);
    var head := if h == c then rep else [h];
    ConcatAssoc(head, ReplaceAll(t, [c], rep), ReplaceAll(b, [c], rep));
  }

  /** Replacing a single character, one character at a time. */
  lemma ReplaceAllOfCons(h: char, t: string, c: char, rep: string)
    ensures ReplaceAll([h] + t, [c], rep) == (if h == c then rep else [h]) + ReplaceAll(t, [c], rep)
  {
    if h == c {
      ReplaceAllAtPattern([c], t, rep);
    } else {
      ReplaceAllPastChar(h, t, [c], rep);
    }
  }

  /** After the replacement, every semicolon is followed by a newline. */
  lemma {:induction false} ReplacementBreaks(s: string)
    ensures SemicolonsBroken(ReplaceAll(s, ";", ";\n"))
    decreases |s|
  {
    if s != [] {
      ReplacementBreaks(s[1..]);
      var rest := ReplaceAll(s[1..], ";", ";\n");
      if s[..1] == ";" {
        assert ReplaceAll(s, ";", ";\n") == ";\n" + rest;
      } else {
        assert s[0] != ';';
        assert ReplaceAll(s, ";", ";\n") == [s[0]] + rest;
      }
    }
  }

  /** Splitting such a text at newlines leaves only pieces. */
  lemma {:induction false} SplitBrokenPieces(t: string)
    requires SemicolonsBroken(t)
    ensures forall k :: 0 <= k < |Split(t, '\n')| ==> Piece(Split(t, '\n')[k])
    decreases |t|
  {
    if t != [] {
      var rest := Split(t[1..], '\n');
      assert SemicolonsBroken(t[1..]) by {
        forall j | 0 <= j < |t| - 1 && t[1..][j] == ';' ensures j + 1 < |t| - 1 && t[1..][j + 1] == '\n' {
          assert t[j + 1] == ';';
        }
      }
      SplitBrokenPieces(t[1..]);
      if t[0] != '\n' {
        var p := [t[0]] + rest[0];
        if t[0] == ';' {
          assert t[1] == '\n';
          assert rest[0] == [];
        }
        assert forall j :: 1 <= j < |p| ==> p[j] == rest[0][j - 1];
        assert Piece(p);
        assert forall k :: 1 <= k < |rest| ==> Split(t, '\n')[k] == rest[k];
      }
    }
  }

  lemma BreakGivesPieces(line: string)
    ensures forall k :: 0 <= k < |BreakAfterSemicolons(line)| ==> Piece(BreakAfterSemicolons(line)[k])
  {
    ReplacementBreaks(line);
    SplitBrokenPieces(ReplaceAll(line, ";", ";\n"));
  }

  lemma {:induction false} PiecesArePieces(lines: seq<string>)
    ensures forall k :: 0 <= k < |Pieces(lines)| ==> Piece(Pieces(lines)[k])
    decreases |lines|
  {
    if lines != [] {
      BreakGivesPieces(lines[0]);
      PiecesArePieces(lines[1..]);
    }
  }

  lemma {:induction false} TerminatedShape(ps: seq<string>)
    requires forall k :: 0 <= k < |ps| ==> Piece(ps[k])
    ensures forall k :: 0 <= k < |Terminated(ps)| ==> OutputLine(Terminated(ps)[k])
    decreases |ps|
  {
    if ps != [] {
      TerminatedShape(ps[1..]);
      if ps[0] != [] {
        var o := ps[0] + "\n";
        assert o[..|o| - 1] == ps[0];
      }
    }
  }

  // The filter keeps the text: only newlines are added or dropped.

  lemma {:induction false} RemoveNewlinesOfJoin(ps: seq<string>)
    requires forall k :: 0 <= k < |ps| ==> '\n' !in ps[k]
    ensures RemoveAll(Join(ps, '\n'), '\n') == Concat(ps)
    decreases |ps|
  {
    if |ps| == 1 {
      assert Concat(ps) == ps[0] + Concat([]);
    } else if |ps| > 1 {
      RemoveNewlinesOfJoin(ps[1..]);
      RemoveAllConcat(ps[0] + ['\n'], Join(ps[1..], '\n'), '\n');
      RemoveAllConcat(ps[0], ['\n'], '\n');
    }
  }

  lemma {:induction false} ReplacementKeepsText(s: string)
    ensures RemoveAll(ReplaceAll(s, ";", ";\n"), '\n') == RemoveAll(s, '\n')
    decreases |s|
  {
    if s != [] {
      ReplacementKeepsText(s[1..]);
      var rest := ReplaceAll(s[1..], ";", ";\n");
      assert s == [s[0]] + s[1..];
      RemoveAllConcat([s[0]], s[1..], '\n');
      if s[..1] == ";" {
        assert ReplaceAll(s, ";", ";\n") == ";\n" + rest;
        RemoveAllConcat(";\n", rest, '\n');
      } else {
        assert ReplaceAll(s, ";", ";\n") == [s[0]] + rest;
        RemoveAllConcat([s[0]], rest, '\n');
      }
    }
  }

  lemma BreakKeepsText(line: string)
    ensures Concat(BreakAfterSemicolons(line)) == RemoveAll(line, '\n')
  {
    var t := ReplaceAll(line, ";", ";\n");
    JoinOfSplit(t, '\n');
    RemoveNewlinesOfJoin(Split(t, '\n'));
    ReplacementKeepsText(line);
  }

  lemma {:induction false} PiecesKeepText(lines: seq<string>)
    ensures Concat(Pieces(lines)) == RemoveAll(Concat(lines), '\n')
    decreases |lines|
  {
    if lines != [] {
      PiecesKeepText(lines[1..]);
      BreakKeepsText(lines[0]);
      ConcatAppend(BreakAfterSemicolons(lines[0]), Pieces(lines[1..]));
      RemoveAllConcat(lines[0], Concat(lines[1..]), '\n');
    }
  }

  lemma {:induction false} TerminatedKeepsText(ps: seq<string>)
    requires forall k :: 0 <= k < |ps| ==> '\n' !in ps[k]
    ensures RemoveAll(Concat(Terminated(ps)), '\n') == Concat(ps)
    decreases |ps|
  {
    if ps != [] {
      TerminatedKeepsText(ps[1..]);
      if ps[0] != [] {
        RemoveAllConcat(ps[0] + "\n", Concat(Terminated(ps[1..])), '\n');
        RemoveAllConcat(ps[0], "\n", '\n');
      }
    }
  }

  /** With newlines ignored, the output is the input. */
  lemma AddNewLinesKeepsText(lines: seq<string>)
    ensures RemoveAll(Concat(AddNewLinesAtSemicolons(lines)), '\n') == RemoveAll(Concat(lines), '\n')
  {
    PiecesArePieces(lines);
    TerminatedKeepsText(Pieces(lines));
    PiecesKeepText(lines);
  }

  // Running the filter again changes nothing.

  lemma {:induction false} PiecesAppend(a: seq<string>, b: seq<string>)
    ensures Pieces(a + b) == Pieces(a) + Pieces(b)
    decreases |a|
  {
    if a == [] {
      assert a + b == b;
    } else {
      assert (a + b)[1..] == a[1..] + b;
      PiecesAppend(a[1..], b);
    }
  }

  lemma {:induction false} TerminatedAppend(a: seq<string>, b: seq<string>)
    ensures Terminated(a + b) == Terminated(a) + Terminated(b)
    decreases |a|
  {
    if a == [] {
      assert a + b == b;
    } else {
      assert (a + b)[1..] == a[1..] + b;
      TerminatedAppend(a[1..], b);
    }
  }

  lemma NoSemicolonUnchanged(s: string)
    requires ';' !in s
    ensures ReplaceAll(s, ";", ";\n") == s
  {
    AbsentCharNoOccurrence(s, ';');
  }

  /** Joining and terminating a piece followed by empty pieces. */
  lemma EmptyTail(p: string)
    requires p != []
    ensures Join([p, []], '\n') == p + "\n"
    ensures Join([p, [], []], '\n') == p + "\n" + "\n"
    ensures Terminated([p, []]) == [p + "\n"]
    ensures Terminated([p, [], []]) == [p + "\n"]
  {
    var e: string := [];
    var one: seq<string> := [e];
    var two: seq<string> := [e, e];
    assert one[1..] == [];
    assert two[1..] == one;
    assert [p, e][1..] == one;
    assert [p, e, e][1..] == two;
    assert Join(one, '\n') == e;
    assert Join(two, '\n') == e + "\n" + e;
    assert Terminated(one) == [];
    assert Terminated(two) == [];
  }

  /** An output line breaks into itself (and empty pieces). */
  lemma OutputLineFixed(o: string)
    requires OutputLine(o)
    ensures Terminated(BreakAfterSemicolons(o)) == [o]
  {
    var p := o[..|o| - 1];
    assert o == p + "\n";
    if p[|p| - 1] == ';' {
      var q := p[..|p| - 1];
      assert p == q + ";";
      assert ';' !in q;
      BreakAfterFinalSemicolon(q);
    } else {
      assert ';' !in o;
      NoSemicolonUnchanged(o);
      EmptyTail(p);
      SplitOfJoin([p, []], '\n');
    }
  }

  /** A line whose only semicolon ends its text breaks there, leaving two
      empty pieces behind. */
  lemma BreakAfterFinalSemicolon(q: string)
    requires ';' !in q && '\n' !in q
    ensures Terminated(BreakAfterSemicolons(q + ";" + "\n")) == [q + ";" + "\n"]
  {
    var p := q + ";";
    var t := p + "\n" + "\n";
    NoSemicolonUnchanged(q);
    NoSemicolonUnchanged("\n");
    ReplaceAllCharConcat(q, ";" + "\n", ';', ";\n");
    ReplaceAllCharConcat(";", "\n", ';', ";\n");
    ReplaceAllWhole(";", ";\n");
    ConcatAssoc(q, ";", "\n");
    ConcatAssoc(q, ";\n", "\n");
    assert ReplaceAll(p + "\n", ";", ";\n") == t;
    assert '\n' !in p;
    EmptyTail(p);
    SplitOfJoin([p, [], []], '\n');
  }

  /** A list of output lines passes through the filter unchanged. */
  lemma {:induction false} OutputLinesFixed(outs: seq<string>)
    requires forall k :: 0 <= k < |outs| ==> OutputLine(outs[k])
    ensures AddNewLinesAtSemicolons(outs) == outs
    decreases |outs|
  {
    if outs != [] {
      OutputLinesFixed(outs[1..]);
      OutputLineFixed(outs[0]);
      TerminatedAppend(BreakAfterSemicolons(outs[0]), Pieces(outs[1..]));
    }
  }

  /** Applying the filter twice is applying it once. */
  lemma AddNewLinesIdempotent(lines: seq<string>)
    ensures AddNewLinesAtSemicolons(AddNewLinesAtSemicolons(lines)) == AddNewLinesAtSemicolons(lines)
  {
    OutputLinesFixed(AddNewLinesAtSemicolons(lines));
  }
}
