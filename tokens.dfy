/**
 * Lexical helpers shared by the statement parser: optional token handles,
 * the case-insensitive word comparison every keyword test uses, the
 * identifier test of GetNextIdentToken and the split of a qualified name
 * `table.column` used by the bookmark lookup of COMMENT ON COLUMN.
 */
module Tokens {

  /** A token handle that may be absent (a null `Token *` in the parser). */
  datatype Option<T> = None | Some(value: T)

  /** The first handle that is present, as the parser's Nvl(a, b). */
  function Nvl<T>(a: Option<T>, b: Option<T>): (r: Option<T>)
    ensures r.Some? <==> a.Some? || b.Some?
    ensures a.Some? ==> r == a
  {
    if a.Some? then a else b
  }

  /** ASCII upper-casing of one character; any other character is kept. */
  function UpperChar(c: char): char
  {
    if 'a' <= c <= 'z' then (c as int - 32) as char else c
  }

  /** The case-folded form of a word. */
  function Fold(s: string): (r: string)
    ensures |r| == |s|
    ensures forall i :: 0 <= i < |s| ==> r[i] == UpperChar(s[i])
  {
    seq(|s|, i requires 0 <= i < |s| => UpperChar(s[i]))
  }

  /** Keyword and identifier equality of the parser: case-insensitive. */
  predicate SameWord(a: string, b: string)
  {
    |a| == |b| && forall i :: 0 <= i < |a| ==> UpperChar(a[i]) == UpperChar(b[i])
  }

  /** Two words are the same word exactly when their folded forms are equal. */
  lemma SameWordFold(a: string, b: string)
    ensures SameWord(a, b) <==> Fold(a) == Fold(b)
  {
    if Fold(a) == Fold(b) {
      assert forall i :: 0 <= i < |a| ==> Fold(a)[i] == Fold(b)[i];
    }
  }

  /** Folding a folded word changes nothing, so folded bookmark keys are stable. */
  lemma FoldIdempotent(s: string)
    ensures Fold(Fold(s)) == Fold(s)
  {
  }

  /** SameWord is an equivalence, so "the first recorded table that matches" is well defined. */
  lemma SameWordEquivalence(a: string, b: string, c: string)
    ensures SameWord(a, a)
    ensures SameWord(a, b) ==> SameWord(b, a)
    ensures SameWord(a, b) && SameWord(b, c) ==> SameWord(a, c)
  {
  }

  predicate IsLetter(c: char)
  {
    'a' <= c <= 'z' || 'A' <= c <= 'Z'
  }

  /**
   * A token GetNextIdentToken accepts: a word or a quoted name, never
   * punctuation such as `(`, `)`, `,` or `;`.
   */
  predicate IsIdent(s: string)
  {
    |s| > 0 && (IsLetter(s[0]) || s[0] == '_' || s[0] == '"' || s[0] == '`' || s[0] == '[')
  }

  /** Index of the last `.` in a name, if any. */
  function LastDot(s: string): (r: Option<nat>)
    ensures r.Some? ==> r.value < |s| && s[r.value] == '.'
    ensures r.Some? ==> forall j :: r.value < j < |s| ==> s[j] != '.'
    ensures r.None? ==> forall j :: 0 <= j < |s| ==> s[j] != '.'
  {
    if |s| == 0 then None
    else if s[|s| - 1] == '.' then Some(|s| - 1)
    else LastDot(s[..|s| - 1])
  }

  /**
   * Splits `owner.column` at the last dot into (owner, column); a name
   * without a dot has an empty owner.
   */
  function SplitQualified(s: string): (r: (string, string))
  {
    match LastDot(s)
    case None => ("", s)
    case Some(k) => (s[..k], s[k + 1..])
  }

  /** Splitting a qualified name gives back its two parts. */
  lemma {:induction false} SplitJoin(owner: string, column: string)
    requires forall j :: 0 <= j < |column| ==> column[j] != '.'
    ensures SplitQualified(owner + "." + column) == (owner, column)
  {
    var s := owner + "." + column;
    var d := LastDot(s);
    assert s[|owner|] == '.';
    assert d.Some? && d.value == |owner|;
    assert s[..|owner|] == owner;
    assert s[|owner| + 1..] == column;
  }

  /** A word that is w1 is not w2 when the two differ at their first letter. */
  lemma NotSameWord(a: string, w1: string, w2: string)
    requires SameWord(a, w1) && |w1| > 0 && |w2| > 0 && UpperChar(w1[0]) != UpperChar(w2[0])
    ensures !SameWord(a, w2)
  {
    assert Fold(a)[0] == Fold(w1)[0];
  }
}
