/**
 * The rewrite state the statement handlers edit in place: per token a
 * removed flag, the display text (Token::Change), the synthetic text spliced
 * before it (Prepend, PrependCopy) and after it (Append, AppendCopy), plus the
 * ranges commented out (Comment). Tokens are never reordered; an edit on an
 * absent (null) token does nothing.
 */
module Document {
  import opened Tokens

  /** A commented-out range of tokens with the marker text put in front of it. */
  datatype Note = Note(from: nat, to: nat, text: string)

  datatype Doc = Doc(removed: seq<bool>, text: seq<string>,
                     before: seq<seq<string>>, after: seq<seq<string>>,
                     notes: seq<Note>)
  {
    /** All per-token sequences cover the n tokens of the stream. */
    predicate Fits(n: nat)
    {
      |removed| == n && |text| == n && |before| == n && |after| == n
    }
  }

  /** The document as lexed: nothing removed, original text, no splices. */
  function Initial(src: seq<string>): (d: Doc)
    ensures d.Fits(|src|) && d.text == src && d.notes == []
  {
    Doc(seq(|src|, i => false), src, seq(|src|, i => []), seq(|src|, i => []), [])
  }

  /** Edits only add: removed flags stay set, splices and notes only grow; display text may change. */
  ghost predicate Extends(d0: Doc, d1: Doc)
  {
    && |d1.removed| == |d0.removed| && |d1.text| == |d0.text|
    && |d1.before| == |d0.before| && |d1.after| == |d0.after|
    && d0.notes <= d1.notes
    && (forall i :: 0 <= i < |d0.removed| && d0.removed[i] ==> d1.removed[i])
    && (forall i :: 0 <= i < |d0.before| ==> d0.before[i] <= d1.before[i])
    && (forall i :: 0 <= i < |d0.after| ==> d0.after[i] <= d1.after[i])
  }

  lemma ExtendsTrans(d0: Doc, d1: Doc, d2: Doc)
    requires Extends(d0, d1) && Extends(d1, d2)
    ensures Extends(d0, d2)
  {
  }

  predicate Holds(d: Doc, t: Option<nat>)
  {
    t.Some? ==> t.value < |d.removed|
  }

  /** Token::Remove(t). */
  function Remove(d: Doc, t: Option<nat>): (r: Doc)
    requires d.Fits(|d.removed|) && Holds(d, t)
    ensures r.Fits(|d.removed|)
    ensures r.text == d.text && r.before == d.before && r.after == d.after && r.notes == d.notes
  {
    if t.Some? then d.(removed := d.removed[t.value := true]) else d
  }

  /** Token::Remove(from, to): every token of the closed range is removed. */
  function RemoveRange(d: Doc, from: nat, to: nat): (r: Doc)
    requires d.Fits(|d.removed|) && from <= to < |d.removed|
    ensures r.Fits(|d.removed|)
    ensures r.text == d.text && r.before == d.before && r.after == d.after && r.notes == d.notes
  {
    d.(removed := seq(|d.removed|, i requires 0 <= i < |d.removed| => d.removed[i] || from <= i <= to))
  }

  /** Token::Change(t, s): t is shown as s. */
  function Change(d: Doc, t: Option<nat>, s: string): (r: Doc)
    requires d.Fits(|d.removed|) && Holds(d, t)
    ensures r.Fits(|d.removed|)
    ensures r.removed == d.removed && r.before == d.before && r.after == d.after && r.notes == d.notes
  {
    if t.Some? then d.(text := d.text[t.value := s]) else d
  }

  /** Prepend(t, s): s is spliced in right before t, after anything prepended earlier. */
  function Prepend(d: Doc, t: Option<nat>, s: string): (r: Doc)
    requires d.Fits(|d.removed|) && Holds(d, t)
    ensures r.Fits(|d.removed|)
    ensures r.removed == d.removed && r.text == d.text && r.after == d.after && r.notes == d.notes
  {
    if t.Some? then d.(before := d.before[t.value := d.before[t.value] + [s]]) else d
  }

  /** Append(t, s): s is spliced in after t, after anything appended earlier. */
  function Append(d: Doc, t: Option<nat>, s: string): (r: Doc)
    requires d.Fits(|d.removed|) && Holds(d, t)
    ensures r.Fits(|d.removed|)
    ensures r.removed == d.removed && r.text == d.text && r.before == d.before && r.notes == d.notes
  {
    if t.Some? then d.(after := d.after[t.value := d.after[t.value] + [s]]) else d
  }

  /** The current display text of a token, for PrependCopy and AppendCopy. */
  function CopyOf(d: Doc, t: Option<nat>): Option<string>
    requires d.Fits(|d.removed|) && Holds(d, t)
  {
    if t.Some? then Some(d.text[t.value]) else None
  }

  /** AppendCopy(at, from): a copy of from's text is appended after at; nothing when from is absent. */
  function AppendCopy(d: Doc, at: Option<nat>, from: Option<nat>): (r: Doc)
    requires d.Fits(|d.removed|) && Holds(d, at) && Holds(d, from)
    ensures r.Fits(|d.removed|)
  {
    if from.Some? then Append(d, at, d.text[from.value]) else d
  }

  /** PrependCopy(at, from): a copy of from's text is prepended before at. */
  function PrependCopy(d: Doc, at: Option<nat>, from: Option<nat>): (r: Doc)
    requires d.Fits(|d.removed|) && Holds(d, at) && Holds(d, from)
    ensures r.Fits(|d.removed|)
  {
    if from.Some? then Prepend(d, at, d.text[from.value]) else d
  }

  /** Comment(from, to) and Comment(marker, from, to): the range is commented out. */
  function Comment(d: Doc, from: nat, to: nat, marker: string): (r: Doc)
    requires d.Fits(|d.removed|)
    ensures r.Fits(|d.removed|)
    ensures r.removed == d.removed && r.text == d.text && r.before == d.before && r.after == d.after
    ensures r.notes == d.notes + [Note(from, to, marker)]
  {
    d.(notes := d.notes + [Note(from, to, marker)])
  }

  /** The tokens lo..hi-1 removed one after another (nothing when the span is empty). */
  function RemoveSpan(d: Doc, lo: nat, hi: nat): (r: Doc)
    requires d.Fits(|d.removed|) && lo <= hi <= |d.removed|
    ensures r.Fits(|d.removed|)
    ensures r.text == d.text && r.before == d.before && r.after == d.after && r.notes == d.notes
    decreases hi - lo
  {
    if lo == hi then d else RemoveSpan(Remove(d, Some(lo)), lo + 1, hi)
  }

  /** A span removal removes exactly the span and keeps every other flag. */
  lemma {:induction false} RemoveSpanAt(d: Doc, lo: nat, hi: nat, i: nat)
    requires d.Fits(|d.removed|) && lo <= hi <= |d.removed| && i < |d.removed|
    ensures RemoveSpan(d, lo, hi).removed[i] == (d.removed[i] || lo <= i < hi)
    decreases hi - lo
  {
    if lo < hi {
      RemoveSpanAt(Remove(d, Some(lo)), lo + 1, hi, i);
    }
  }

  /** Removing a span and then the range right after it removes the joined span. */
  lemma RemoveSpanThenRange(d: Doc, lo: nat, mid: nat, hi: nat)
    requires d.Fits(|d.removed|) && lo <= mid <= hi < |d.removed|
    ensures RemoveRange(RemoveSpan(d, lo, mid), mid, hi) == RemoveSpan(d, lo, hi + 1)
  {
    var left := RemoveRange(RemoveSpan(d, lo, mid), mid, hi);
    var right := RemoveSpan(d, lo, hi + 1);
    forall i | 0 <= i < |d.removed|
      ensures left.removed[i] == right.removed[i]
    {
      RemoveSpanAt(d, lo, mid, i);
      RemoveSpanAt(d, lo, hi + 1, i);
    }
  }

  /**
   * What each edit does at token i: Remove sets the flag, Change replaces
   * the text, Prepend and Append add one splice after the earlier ones.
   */
  lemma EditsAt(d: Doc, t: Option<nat>, s: string, i: nat)
    requires d.Fits(|d.removed|) && Holds(d, t) && i < |d.removed|
    ensures Remove(d, t).removed[i] == (d.removed[i] || t == Some(i))
    ensures Change(d, t, s).text[i] == (if t == Some(i) then s else d.text[i])
    ensures Prepend(d, t, s).before[i] == (if t == Some(i) then d.before[i] + [s] else d.before[i])
    ensures Append(d, t, s).after[i] == (if t == Some(i) then d.after[i] + [s] else d.after[i])
    ensures RemoveRange(d, i, i).removed[i]
  {
  }

  /** Every edit only adds to the document: nothing removed comes back, no splice is lost. */
  lemma EditsExtend(d: Doc, t: Option<nat>, s: string, from: nat, to: nat, marker: string)
    requires d.Fits(|d.removed|) && Holds(d, t)
    ensures Extends(d, Remove(d, t)) && Extends(d, Change(d, t, s))
    ensures Extends(d, Prepend(d, t, s)) && Extends(d, Append(d, t, s))
    ensures Extends(d, Comment(d, from, to, marker))
    ensures from <= to < |d.removed| ==> Extends(d, RemoveRange(d, from, to))
  {
  }
}
