/** Resolving one reorder expression (psdecode.py:112-124): the fragments
    are put back together in the order the template's indices give, and the
    result is stored in the table of placeholder tokens under a fresh token. */
module Resolver {
  import opened Text
  import opened Scanner

  /** The exceptions the de-obfuscator can raise: indexing the fragment
      list out of range, looking up a placeholder that has no table entry,
      and a character code beyond the last Unicode code point. */
  datatype Failure = IndexError | KeyError(key: string) | ValueError

  datatype Result<T> = Ok(value: T) | Err(failure: Failure)

  /** The placeholder table (`occurrences`): quoted token to resolved text. */
  type Table = map<string, string>

  /** The text `{#subs_k}` of the k-th placeholder. */
  function PlaceholderText(k: nat): string {
    "{#subs_" + DecimalString(k) + "}"
  }

  /** The quoted token `'{#subs_k}'` minted by the k-th resolution of a line. */
  function Token(k: nat): string {
    "'" + PlaceholderText(k) + "'"
  }

  /** Distinct resolutions mint distinct tokens. */
  lemma TokenInjective(i: nat, j: nat)
    requires Token(i) == Token(j)
    ensures i == j
  {
    var di, dj := DecimalString(i), DecimalString(j);
    assert |di| == |dj|;
    assert di == Token(i)[8..8 + |di|];
    assert dj == Token(j)[8..8 + |dj|];
    DecimalStringInjective(i, j);
  }

  /** A placeholder text is recognised as one, with or without
      `re.IGNORECASE`, whatever follows it. */
  lemma PlaceholderPrefixOf(k: nat, rest: string, ignoreCase: bool)
    ensures PlaceholderPrefix(PlaceholderText(k) + rest, ignoreCase) == Some(|PlaceholderText(k)|)
  {
    var p, d := PlaceholderText(k) + rest, DecimalString(k);
    assert p[7..] == d + ("}" + rest);
    RunOfDigits(d, "}" + rest);
    assert p[2..6] == "subs";
  }

  lemma PlaceholderTextShaped(k: nat)
    ensures PlaceholderShaped(PlaceholderText(k))
  {
    PlaceholderPrefixOf(k, [], false);
    assert PlaceholderText(k) + [] == PlaceholderText(k);
  }

  /** A token holds none of the characters that start a reorder expression
      or a character code. */
  lemma TokenChars(k: nat)
    ensures '(' !in Token(k) && '[' !in Token(k) && '-' !in Token(k)
  {
    var d := DecimalString(k);
    assert Token(k) == "'{#subs_" + d + "}'";
    assert forall j :: 8 <= j < 8 + |d| ==> Token(k)[j] == d[j - 8];
  }

  lemma {:induction false} RunOfDigits(d: string, rest: string)
    requires AllDigits(d)
    requires rest == [] || !IsDigit(rest[0])
    ensures Run(d + rest, Digits) == |d|
  {
    RunIs(d + rest, Digits, |d|);
  }

  /** A token holds no `-f`: it has no `-` at all. */
  lemma TokenInert(k: nat)
    ensures Inert(Token(k)) && DashFCount(Token(k)) == 0
  {
    TokenChars(k);
    NoDashNoDashF(Token(k));
  }

  lemma {:induction false} NoDashNoDashF(s: string)
    requires '-' !in s
    ensures DashFCount(s) == 0
    decreases |s|
  {
    if |s| >= 2 {
      assert s[0] != '-';
      NoDashNoDashF(s[1..]);
    }
  }

  /** The tokens of the first `n` resolutions. */
  function TokensBelow(n: nat): set<string> {
    set k: nat | k < n :: Token(k)
  }

  /** What the table holds after `count` resolutions: exactly one entry per
      token minted, and no value holding a quote (so no value holds a
      token). */
  predicate TableInvariant(table: Table, count: nat) {
    table.Keys == TokensBelow(count) && forall key :: key in table ==> '\'' !in table[key]
  }

  /** Storing a quote-free result under the next token keeps the invariant,
      and the token is new: no earlier entry is overwritten. */
  lemma Mint(table: Table, count: nat, out: string)
    requires TableInvariant(table, count)
    requires '\'' !in out
    ensures Token(count) !in table
    ensures TableInvariant(table[Token(count) := out], count + 1)
  {
    if Token(count) in table {
      var k: nat :| k < count && Token(k) == Token(count);
      TokenInjective(k, count);
    }
    assert TokensBelow(count + 1) == TokensBelow(count) + {Token(count)};
  }

  // ---------------------------------------------------------------------
  // Looking up one fragment (psdecode.py:115-118)
  // ---------------------------------------------------------------------

  /** The piece one fragment contributes: a fragment that starts like a
      placeholder is replaced by the table's value for its quoted form (a
      `KeyError` when there is none); any other fragment is stripped. */
  function Deref(f: string, table: Table): (r: Result<string>)
    ensures r.Err? <==> PlaceholderShaped(f) && "'" + f + "'" !in table
    ensures r.Err? ==> r.failure == KeyError("'" + f + "'")
    ensures r.Ok? && PlaceholderShaped(f) ==> r.value == table["'" + f + "'"]
    ensures r.Ok? && !PlaceholderShaped(f) ==> r.value == Strip(f)
  {
    if PlaceholderShaped(f) then
      var key := "'" + f + "'";
      if key in table then Ok(table[key]) else Err(KeyError(key))
    else Ok(Strip(f))
  }

  /** A fragment holding a minted placeholder stands for the text stored
      under its token; a placeholder never minted raises a `KeyError` naming
      the token. */
  lemma DerefPlaceholder(k: nat, table: Table)
    ensures Deref(PlaceholderText(k), table) ==
              if Token(k) in table then Ok(table[Token(k)]) else Err(KeyError(Token(k)))
  {
    PlaceholderTextShaped(k);
  }

  /** Index `p` cannot be resolved: it is out of range, or it selects a
      placeholder with no table entry. */
  predicate Bad(p: nat, fs: seq<string>, table: Table) {
    p >= |fs| || Deref(fs[p], table).Err?
  }

  function FailureAt(p: nat, fs: seq<string>, table: Table): Failure
    requires Bad(p, fs, table)
  {
    if p >= |fs| then IndexError else Deref(fs[p], table).failure
  }

  /** The concatenation of a list of texts. */
  function Concat(pieces: seq<string>): string {
    if pieces == [] then [] else pieces[0] + Concat(pieces[1..])
  }

  lemma {:induction false} ConcatAppend(a: seq<string>, b: seq<string>)
    ensures Concat(a + b) == Concat(a) + Concat(b)
    decreases |a|
  {
    if a == [] {
      assert a + b == b;
    } else {
      assert (a + b)[1..] == a[1..] + b;
      ConcatAppend(a[1..], b);
    }
  }

  /** Lines 113-118: the pieces selected by the indices, in index order,
      concatenated; the first index that cannot be resolved raises. */
  function Assemble(ps: seq<nat>, fs: seq<string>, table: Table): (r: Result<string>)
    ensures r.Err? ==> r.failure == IndexError || (r.failure.KeyError? && r.failure.key !in table)
    ensures r.Ok? ==> forall i :: 0 <= i < |ps| ==> ps[i] < |fs|
    decreases |ps|
  {
    if ps == [] then Ok([])
    else if ps[0] >= |fs| then Err(IndexError)
    else
      match Deref(fs[ps[0]], table)
      case Err(e) => Err(e)
      case Ok(piece) =>
        match Assemble(ps[1..], fs, table)
        case Err(e) => Err(e)
        case Ok(rest) => Ok(piece + rest)
  }

  /** Assembling succeeds exactly when every index can be resolved. */
  lemma {:induction false} AssembleOkIff(ps: seq<nat>, fs: seq<string>, table: Table)
    ensures Assemble(ps, fs, table).Ok? <==> forall i :: 0 <= i < |ps| ==> !Bad(ps[i], fs, table)
    decreases |ps|
  {
    if ps != [] {
      AssembleOkIff(ps[1..], fs, table);
      AssembleOkCons(ps, fs, table);
      AllGoodCons(ps, fs, table);
    }
  }

  lemma AllGoodCons(ps: seq<nat>, fs: seq<string>, table: Table)
    requires ps != []
    ensures (forall i :: 0 <= i < |ps| ==> !Bad(ps[i], fs, table)) <==>
              !Bad(ps[0], fs, table) && forall i :: 0 <= i < |ps[1..]| ==> !Bad(ps[1..][i], fs, table)
  {
    assert forall i :: 1 <= i < |ps| ==> ps[1..][i - 1] == ps[i];
  }

  lemma AssembleOkCons(ps: seq<nat>, fs: seq<string>, table: Table)
    requires ps != []
    ensures Assemble(ps, fs, table).Ok? <==> !Bad(ps[0], fs, table) && Assemble(ps[1..], fs, table).Ok?
  {
  }

  /** When it fails, it fails with the failure of the first bad index. */
  lemma {:induction false} AssembleFailsAtFirstBad(ps: seq<nat>, fs: seq<string>, table: Table, i: nat)
    requires i < |ps| && Bad(ps[i], fs, table)
    requires forall j :: 0 <= j < i ==> !Bad(ps[j], fs, table)
    ensures Assemble(ps, fs, table) == Err(FailureAt(ps[i], fs, table))
    decreases i
  {
    if i > 0 {
      assert forall j :: 0 <= j < i - 1 ==> ps[1..][j] == ps[j + 1];
      AssembleFailsAtFirstBad(ps[1..], fs, table, i - 1);
    }
  }

  /** When every index resolves to a known piece, the output is those
      pieces in index order. */
  lemma {:induction false} AssembleIsConcat(ps: seq<nat>, fs: seq<string>, table: Table, pieces: seq<string>)
    requires |pieces| == |ps|
    requires forall i :: 0 <= i < |ps| ==> ps[i] < |fs| && Deref(fs[ps[i]], table) == Ok(pieces[i])
    ensures Assemble(ps, fs, table) == Ok(Concat(pieces))
    decreases |ps|
  {
    if ps != [] {
      assert forall i :: 0 <= i < |ps| - 1 ==> ps[1..][i] == ps[i + 1] && pieces[1..][i] == pieces[i + 1];
      AssembleIsConcat(ps[1..], fs, table, pieces[1..]);
      AssembleCons(ps, fs, table, pieces);
    }
  }

  lemma AssembleCons(ps: seq<nat>, fs: seq<string>, table: Table, pieces: seq<string>)
    requires |pieces| == |ps| > 0 && ps[0] < |fs| && Deref(fs[ps[0]], table) == Ok(pieces[0])
    requires Assemble(ps[1..], fs, table) == Ok(Concat(pieces[1..]))
    ensures Assemble(ps, fs, table) == Ok(Concat(pieces))
  {
  }

  // ---------------------------------------------------------------------
  // One resolution (psdecode.py:112-124)
  // ---------------------------------------------------------------------

  /** What resolving one expression does: it yields the reordered text, is
      skipped because the numbers of indices and fragments differ, or raises. */
  datatype Resolution = Resolved(out: string) | Mismatch | Raised(failure: Failure)

  /** Line 112: only an expression with as many indices as fragments is
      resolved. */
  function Resolve(ps: seq<nat>, fs: seq<string>, table: Table): (r: Resolution)
    ensures r == Mismatch <==> |ps| != |fs|
    ensures r.Raised? ==> r.failure == IndexError || (r.failure.KeyError? && r.failure.key !in table)
  {
    if |ps| != |fs| then Mismatch
    else
      match Assemble(ps, fs, table)
      case Ok(out) => Resolved(out)
      case Err(e) => Raised(e)
  }

  /** The three outcomes, characterised by the inputs. */
  lemma ResolveOutcomes(ps: seq<nat>, fs: seq<string>, table: Table)
    ensures Resolve(ps, fs, table) == Mismatch <==> |ps| != |fs|
    ensures Resolve(ps, fs, table).Resolved? <==>
              |ps| == |fs| && forall i :: 0 <= i < |ps| ==> !Bad(ps[i], fs, table)
    ensures forall i :: 0 <= i < |ps| && |ps| == |fs| && Bad(ps[i], fs, table) &&
                        (forall j :: 0 <= j < i ==> !Bad(ps[j], fs, table)) ==>
              Resolve(ps, fs, table) == Raised(FailureAt(ps[i], fs, table))
  {
    AssembleOkIff(ps, fs, table);
    forall i | 0 <= i < |ps| && |ps| == |fs| && Bad(ps[i], fs, table) &&
               (forall j :: 0 <= j < i ==> !Bad(ps[j], fs, table))
      ensures Resolve(ps, fs, table) == Raised(FailureAt(ps[i], fs, table))
    {
      AssembleFailsAtFirstBad(ps, fs, table, i);
    }
  }

  /** Resolution undoes a reordering: if fragment `ps[i]` holds the i-th
      piece (already trimmed, and not placeholder-shaped), the result is the
      pieces in their original order. */
  lemma ResolveUndoesReorder(ps: seq<nat>, fs: seq<string>, table: Table, pieces: seq<string>)
    requires |pieces| == |ps| == |fs|
    requires forall i :: 0 <= i < |ps| ==> ps[i] < |fs| && fs[ps[i]] == pieces[i]
    requires forall i :: 0 <= i < |pieces| ==> !PlaceholderShaped(pieces[i]) && Strip(pieces[i]) == pieces[i]
    ensures Resolve(ps, fs, table) == Resolved(Concat(pieces))
  {
    AssembleIsConcat(ps, fs, table, pieces);
  }

  /** A resolved text never holds a quote when the table does not and the
      fragments are content text, so it can be stored under a new token. */
  lemma {:induction false} AssembleHasNoQuote(ps: seq<nat>, fs: seq<string>, table: Table)
    requires forall key :: key in table ==> '\'' !in table[key]
    requires forall k :: 0 <= k < |fs| ==> IsContentText(fs[k])
    ensures Assemble(ps, fs, table).Ok? ==> '\'' !in Assemble(ps, fs, table).value
    decreases |ps|
  {
    if ps != [] && ps[0] < |fs| {
      AssembleHasNoQuote(ps[1..], fs, table);
      ContentTextHasNoQuote(fs[ps[0]]);
    }
  }
}
