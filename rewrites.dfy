/**
 * The two DML rewrites as functions of the document: the multi-row
 * `INSERT ... VALUES (..), (..)` that becomes `SELECT .. FROM dual UNION ALL
 * SELECT .. FROM dual`, and the `(c1, c2) = (v1, v2)` assignment of UPDATE
 * SET that becomes `c1 = v1, c2 = v2`. The handlers in the parser are proved
 * to leave the document equal to these; the lemmas say what they do.
 */
module Rewrites {
  import opened Tokens
  import opened Document

  /** One row of a VALUES list: its `(`, the token that closed it, and the `,` after it. */
  datatype Row = Row(open: nat, close: Option<nat>, comma: Option<nat>)

  predicate RowFits(r: Row, n: nat)
  {
    r.open < n && (r.close.Some? ==> r.close.value < n) && (r.comma.Some? ==> r.comma.value < n)
  }

  /** A row is rewritten unless it is the first row and no row follows it. */
  predicate RowRewritten(r: Row, k: nat)
  {
    r.comma.Some? || k > 0
  }

  /**
   * The document after the VALUES loop handled the row with index k (0 for
   * the first row), token by token: a rewritten row loses its tokens (and
   * the first one VALUES), gets " SELECT " before its `(` and " FROM dual"
   * after its closing token, then " UNION ALL " when a comma follows.
   */
  function RowEdit(d: Doc, values: nat, r: Row, k: nat): (d': Doc)
    requires d.Fits(|d.removed|) && values < |d.removed| && RowFits(r, |d.removed|)
    ensures d'.Fits(|d.removed|)
  {
    var n := |d.removed|;
    if !RowRewritten(r, k) then d
    else
      d.(removed := seq(n, i requires 0 <= i < n => d.removed[i] || i in RowTokens(r) || (k == 0 && i == values)),
         before := seq(n, i requires 0 <= i < n => if i == r.open then d.before[i] + [" SELECT "] else d.before[i]),
         after := seq(n, i requires 0 <= i < n =>
                       if r.close == Some(i) then d.after[i] + [" FROM ", "dual"] + Union(r) else d.after[i]))
  }

  /** The calls the VALUES loop makes for a rewritten row, in the order it makes them. */
  function RowSteps(d: Doc, values: nat, r: Row, k: nat): (d': Doc)
    requires d.Fits(|d.removed|) && values < |d.removed| && RowFits(r, |d.removed|)
    ensures d'.Fits(|d.removed|)
  {
    var d1 := if k == 0 then Remove(d, Some(values)) else d;
    var d2 := Prepend(d1, Some(r.open), " SELECT ");
    var d3 := Append(Append(d2, r.close, " FROM "), r.close, "dual");
    var d4 := if r.comma.Some? then Append(d3, r.close, " UNION ALL ") else d3;
    Remove(Remove(Remove(d4, Some(r.open)), r.close), r.comma)
  }

  /** The loop's calls for a rewritten row leave exactly the document RowEdit describes. */
  lemma RowStepsEdit(d: Doc, values: nat, r: Row, k: nat)
    requires d.Fits(|d.removed|) && values < |d.removed| && RowFits(r, |d.removed|)
    requires RowRewritten(r, k)
    ensures RowSteps(d, values, r, k) == RowEdit(d, values, r, k)
  {
    var s := RowSteps(d, values, r, k);
    var e := RowEdit(d, values, r, k);
    forall i | 0 <= i < |d.removed|
      ensures s.removed[i] == e.removed[i] && s.before[i] == e.before[i] && s.after[i] == e.after[i]
    {
      RowStepsAt(d, values, r, k, i);
    }
    assert s.removed == e.removed;
    assert s.before == e.before;
    assert s.after == e.after;
  }

  lemma RowStepsAt(d: Doc, values: nat, r: Row, k: nat, i: nat)
    requires d.Fits(|d.removed|) && values < |d.removed| && RowFits(r, |d.removed|)
    requires i < |d.removed|
    ensures var s := RowSteps(d, values, r, k);
      && s.removed[i] == (d.removed[i] || i in RowTokens(r) || (k == 0 && i == values))
      && s.before[i] == (if i == r.open then d.before[i] + [" SELECT "] else d.before[i])
      && s.after[i] == (if r.close == Some(i) then d.after[i] + [" FROM ", "dual"] + Union(r) else d.after[i])
  {
    var d1 := if k == 0 then Remove(d, Some(values)) else d;
    var d2 := Prepend(d1, Some(r.open), " SELECT ");
    var d3 := Append(Append(d2, r.close, " FROM "), r.close, "dual");
    var d4 := if r.comma.Some? then Append(d3, r.close, " UNION ALL ") else d3;
    assert RowSteps(d, values, r, k) == Remove(Remove(Remove(d4, Some(r.open)), r.close), r.comma);
    assert d4.removed == d1.removed && d4.before == d2.before;
    assert d2.after == d.after;
    assert d3.after[i] == (if r.close == Some(i) then d.after[i] + [" FROM ", "dual"] else d.after[i]) by {
      if r.close == Some(i) {
        assert d.after[i] + [" FROM "] + ["dual"] == d.after[i] + [" FROM ", "dual"];
      }
    }
  }

  /** The document after the rows of a VALUES list were processed in order. */
  function RowsEdit(d: Doc, values: nat, rows: seq<Row>): (d': Doc)
    requires d.Fits(|d.removed|) && values < |d.removed|
    requires forall j :: 0 <= j < |rows| ==> RowFits(rows[j], |d.removed|)
    ensures d'.Fits(|d.removed|)
    decreases |rows|
  {
    if rows == [] then d
    else RowEdit(RowsEdit(d, values, rows[..|rows| - 1]), values, rows[|rows| - 1], |rows| - 1)
  }

  /** A single-row INSERT keeps its VALUES form: nothing is edited. */
  lemma SingleRowUntouched(d: Doc, values: nat, r: Row)
    requires d.Fits(|d.removed|) && values < |d.removed| && RowFits(r, |d.removed|)
    requires r.comma.None?
    ensures RowsEdit(d, values, [r]) == d
  {
    assert [r][..0] == [];
  }

  /** The tokens of one row the rewrite may touch: `(`, the closing token and the `,`. */
  function RowTokens(r: Row): set<nat>
  {
    {r.open} + (if r.close.Some? then {r.close.value} else {}) + (if r.comma.Some? then {r.comma.value} else {})
  }

  /** VALUES and the tokens of every row. */
  function ValuesTokens(values: nat, rows: seq<Row>): set<nat>
    decreases |rows|
  {
    if rows == [] then {values} else ValuesTokens(values, rows[..|rows| - 1]) + RowTokens(rows[|rows| - 1])
  }

  /**
   * The shape of a VALUES list as the loop reads it: VALUES, then rows whose
   * tokens come in stream order, every row but the last followed by `,`.
   */
  ghost predicate RowsInOrder(values: nat, rows: seq<Row>, n: nat)
  {
    && |rows| > 0 && values < rows[0].open
    && (forall j :: 0 <= j < |rows| ==> RowFits(rows[j], n) && rows[j].close.Some? && rows[j].open < rows[j].close.value)
    && (forall j :: 0 <= j < |rows| - 1 ==> rows[j].comma.Some?)
    && (forall j :: 0 <= j < |rows| && rows[j].comma.Some? ==> rows[j].close.value < rows[j].comma.value)
    && (forall j, l :: 0 <= j < l < |rows| ==> rows[j].comma.Some? && rows[j].comma.value < rows[l].open)
  }

  /** " UNION ALL " follows a row exactly when a comma (another row) follows it. */
  function Union(r: Row): seq<string>
  {
    if r.comma.Some? then [" UNION ALL "] else []
  }

  /** What one rewritten row changes at token i: only its own tokens (and VALUES for the first row). */
  lemma RowEditAt(d: Doc, values: nat, r: Row, k: nat, i: nat)
    requires d.Fits(|d.removed|) && values < |d.removed| && RowFits(r, |d.removed|)
    requires RowRewritten(r, k) && r.close.Some? && r.open != r.close.value && i < |d.removed|
    ensures var d' := RowEdit(d, values, r, k);
      && d'.removed[i] == (d.removed[i] || i == r.open || r.close == Some(i) || r.comma == Some(i) || (k == 0 && i == values))
      && d'.before[i] == (if i == r.open then d.before[i] + [" SELECT "] else d.before[i])
      && d'.after[i] == (if r.close == Some(i) then d.after[i] + [" FROM ", "dual"] + Union(r) else d.after[i])
  {
  }

  lemma RowEditText(d: Doc, values: nat, r: Row, k: nat)
    requires d.Fits(|d.removed|) && values < |d.removed| && RowFits(r, |d.removed|)
    ensures var d' := RowEdit(d, values, r, k); d'.text == d.text && d'.notes == d.notes
  {
  }

  /**
   * d' is d with the rows of a VALUES list rewritten: VALUES is removed;
   * every row loses its `(`, its closing token and the `,` after it, gets
   * " SELECT " before it and " FROM dual" after it, followed by " UNION ALL "
   * when another row follows. No other token is touched.
   */
  ghost predicate RowsRewritten(d: Doc, d': Doc, values: nat, rows: seq<Row>)
  {
    && d.Fits(|d.removed|) && d'.Fits(|d.removed|) && RowsInOrder(values, rows, |d.removed|)
    && d'.text == d.text && d'.notes == d.notes
    && d'.removed[values]
    && (forall j :: 0 <= j < |rows| ==>
          && d'.removed[rows[j].open] && d'.removed[rows[j].close.value]
          && d'.before[rows[j].open] == d.before[rows[j].open] + [" SELECT "]
          && d'.after[rows[j].close.value] == d.after[rows[j].close.value] + [" FROM ", "dual"] + Union(rows[j]))
    && (forall j :: 0 <= j < |rows| && rows[j].comma.Some? ==> d'.removed[rows[j].comma.value])
    && (forall i :: 0 <= i < |d.removed| && i !in ValuesTokens(values, rows) ==>
          d'.removed[i] == d.removed[i] && d'.before[i] == d.before[i] && d'.after[i] == d.after[i])
  }

  /** A non-empty prefix of an ordered VALUES list is ordered too. */
  lemma RowsInOrderInit(values: nat, rows: seq<Row>, n: nat, k: nat)
    requires RowsInOrder(values, rows, n) && 0 < k <= |rows|
    ensures RowsInOrder(values, rows[..k], n)
  {
    var init := rows[..k];
    assert forall j :: 0 <= j < k ==> init[j] == rows[j];
  }

  /** The first row of a list that goes on is rewritten on its own. */
  lemma FirstRowRewritten(d: Doc, values: nat, r: Row)
    requires d.Fits(|d.removed|) && RowsInOrder(values, [r], |d.removed|) && r.comma.Some?
    ensures RowsRewritten(d, RowEdit(d, values, r, 0), values, [r])
  {
    FirstRowOwn(d, values, r);
    FirstRowFrame(d, values, r);
    RowEditText(d, values, r, 0);
    assert [r][0] == r;
  }

  lemma FirstRowOwn(d: Doc, values: nat, r: Row)
    requires d.Fits(|d.removed|) && RowsInOrder(values, [r], |d.removed|) && r.comma.Some?
    ensures var d' := RowEdit(d, values, r, 0);
      && d'.removed[values] && d'.removed[r.open] && d'.removed[r.close.value] && d'.removed[r.comma.value]
      && d'.before[r.open] == d.before[r.open] + [" SELECT "]
      && d'.after[r.close.value] == d.after[r.close.value] + [" FROM ", "dual"] + Union(r)
  {
    RowEditAt(d, values, r, 0, values);
    RowEditAt(d, values, r, 0, r.open);
    RowEditAt(d, values, r, 0, r.close.value);
    RowEditAt(d, values, r, 0, r.comma.value);
  }

  lemma FirstRowFrame(d: Doc, values: nat, r: Row)
    requires d.Fits(|d.removed|) && RowsInOrder(values, [r], |d.removed|) && r.comma.Some?
    ensures var d' := RowEdit(d, values, r, 0);
      forall i :: 0 <= i < |d.removed| && i !in ValuesTokens(values, [r]) ==>
        d'.removed[i] == d.removed[i] && d'.before[i] == d.before[i] && d'.after[i] == d.after[i]
  {
    assert ValuesTokens(values, [r]) == {values} + RowTokens(r) by {
      assert [r][..0] == [];
    }
    forall i | 0 <= i < |d.removed| && i !in ValuesTokens(values, [r])
      ensures var d' := RowEdit(d, values, r, 0);
        d'.removed[i] == d.removed[i] && d'.before[i] == d.before[i] && d'.after[i] == d.after[i]
    {
      RowEditAt(d, values, r, 0, i);
    }
  }

  /** Rewriting one more row, whose tokens all follow the earlier rows', keeps the earlier rows' edits. */
  lemma NextRowRewritten(d: Doc, prev: Doc, values: nat, init: seq<Row>, last: Row)
    requires RowsRewritten(d, prev, values, init)
    requires RowsInOrder(values, init + [last], |d.removed|)
    requires RowFits(last, |d.removed|) && last.close.Some? && last.open < last.close.value
    ensures RowsRewritten(d, RowEdit(prev, values, last, |init|), values, init + [last])
  {
    var rows := init + [last];
    RowEditText(prev, values, last, |init|);
    NextRowFresh(d, prev, values, init, last);
    InRowTokens(values, init, 0);
    assert rows[|init|] == last;
    assert values < last.open < last.close.value;
    RowEditOff(prev, values, last, |init|, values);
    NextRowOwn(d, prev, values, init, last);
    NextRowFrame(d, prev, values, init, last);
  }

  lemma NextRowOwn(d: Doc, prev: Doc, values: nat, init: seq<Row>, last: Row)
    requires RowsRewritten(d, prev, values, init)
    requires RowsInOrder(values, init + [last], |d.removed|)
    requires RowFits(last, |d.removed|) && last.close.Some? && last.open < last.close.value
    ensures var rows := init + [last]; var d' := RowEdit(prev, values, last, |init|);
      && (forall j :: 0 <= j < |rows| ==>
            && d'.removed[rows[j].open] && d'.removed[rows[j].close.value]
            && d'.before[rows[j].open] == d.before[rows[j].open] + [" SELECT "]
            && d'.after[rows[j].close.value] == d.after[rows[j].close.value] + [" FROM ", "dual"] + Union(rows[j]))
      && (forall j :: 0 <= j < |rows| && rows[j].comma.Some? ==> d'.removed[rows[j].comma.value])
  {
    var rows := init + [last];
    var d' := RowEdit(prev, values, last, |init|);
    forall j | 0 <= j < |rows|
      ensures && d'.removed[rows[j].open] && d'.removed[rows[j].close.value]
              && (rows[j].comma.Some? ==> d'.removed[rows[j].comma.value])
              && d'.before[rows[j].open] == d.before[rows[j].open] + [" SELECT "]
              && d'.after[rows[j].close.value] == d.after[rows[j].close.value] + [" FROM ", "dual"] + Union(rows[j])
    {
      NextRowAt(d, prev, values, init, last, j);
    }
  }

  /** A row edit leaves every token outside its row as it was, except VALUES for the first row. */
  lemma RowEditOff(d: Doc, values: nat, r: Row, k: nat, i: nat)
    requires d.Fits(|d.removed|) && values < |d.removed| && RowFits(r, |d.removed|)
    requires i < |d.removed| && i !in RowTokens(r)
    ensures var d' := RowEdit(d, values, r, k);
      && d'.removed[i] == (d.removed[i] || (RowRewritten(r, k) && k == 0 && i == values))
      && d'.before[i] == d.before[i] && d'.after[i] == d.after[i]
  {
  }

  /** The new row's tokens are none of the earlier rows'. */
  lemma NextRowFresh(d: Doc, prev: Doc, values: nat, init: seq<Row>, last: Row)
    requires RowsRewritten(d, prev, values, init)
    requires RowsInOrder(values, init + [last], |d.removed|)
    ensures forall i :: i in ValuesTokens(values, init) ==> i < last.open
  {
    var rows := init + [last];
    forall j | 0 <= j < |init|
      ensures init[j].comma.Some? && init[j].comma.value < last.open
    {
      assert rows[j] == init[j] && rows[|init|] == last;
    }
    ValuesTokensBelow(values, init, last.open);
  }

  /** Row j of the longer list carries its edits after the new row is rewritten. */
  lemma NextRowAt(d: Doc, prev: Doc, values: nat, init: seq<Row>, last: Row, j: nat)
    requires RowsRewritten(d, prev, values, init)
    requires RowsInOrder(values, init + [last], |d.removed|)
    requires RowFits(last, |d.removed|) && last.close.Some? && last.open < last.close.value
    requires j <= |init|
    ensures var r := (init + [last])[j]; var d' := RowEdit(prev, values, last, |init|);
      && d'.removed[r.open] && d'.removed[r.close.value]
      && (r.comma.Some? ==> d'.removed[r.comma.value])
      && d'.before[r.open] == d.before[r.open] + [" SELECT "]
      && d'.after[r.close.value] == d.after[r.close.value] + [" FROM ", "dual"] + Union(r)
  {
    var rows := init + [last];
    if j == |init| {
      assert rows[j] == last;
      NextRowFresh(d, prev, values, init, last);
      NextRowLast(d, prev, values, init, last);
    } else {
      var r := init[j];
      assert rows[j] == r && rows[|init|] == last;
      KeepRow(d, prev, values, r, last, |init|);
    }
  }

  /** A row edited earlier keeps its edits when a later row is rewritten. */
  lemma KeepRow(d: Doc, prev: Doc, values: nat, r: Row, last: Row, k: nat)
    requires d.Fits(|d.removed|) && prev.Fits(|d.removed|) && values < |d.removed|
    requires RowFits(r, |d.removed|) && RowFits(last, |d.removed|)
    requires r.close.Some? && r.comma.Some? && r.open < r.close.value < r.comma.value < last.open
    requires last.close.Some? && last.open < last.close.value
    requires last.comma.Some? ==> last.close.value < last.comma.value
    requires prev.removed[r.open] && prev.removed[r.close.value] && prev.removed[r.comma.value]
    requires prev.before[r.open] == d.before[r.open] + [" SELECT "]
    requires prev.after[r.close.value] == d.after[r.close.value] + [" FROM ", "dual"] + Union(r)
    ensures var d' := RowEdit(prev, values, last, k);
      && d'.removed[r.open] && d'.removed[r.close.value] && d'.removed[r.comma.value]
      && d'.before[r.open] == d.before[r.open] + [" SELECT "]
      && d'.after[r.close.value] == d.after[r.close.value] + [" FROM ", "dual"] + Union(r)
  {
    RowEditOff(prev, values, last, k, r.open);
    RowEditOff(prev, values, last, k, r.close.value);
    RowEditOff(prev, values, last, k, r.comma.value);
  }

  lemma NextRowLast(d: Doc, prev: Doc, values: nat, init: seq<Row>, last: Row)
    requires RowsRewritten(d, prev, values, init)
    requires RowsInOrder(values, init + [last], |d.removed|)
    requires RowFits(last, |d.removed|) && last.close.Some? && last.open < last.close.value
    requires forall i :: i in ValuesTokens(values, init) ==> i < last.open
    ensures var d' := RowEdit(prev, values, last, |init|);
      && d'.removed[last.open] && d'.removed[last.close.value]
      && (last.comma.Some? ==> d'.removed[last.comma.value])
      && d'.before[last.open] == d.before[last.open] + [" SELECT "]
      && d'.after[last.close.value] == d.after[last.close.value] + [" FROM ", "dual"] + Union(last)
  {
    var rows := init + [last];
    assert rows[|init|] == last;
    RowEditAt(prev, values, last, |init|, last.open);
    RowEditAt(prev, values, last, |init|, last.close.value);
    if last.comma.Some? {
      RowEditAt(prev, values, last, |init|, last.comma.value);
    }
    assert last.open !in ValuesTokens(values, init);
    assert last.close.value !in ValuesTokens(values, init);
  }

  /** VALUES and the tokens of each row are among the tokens of the list. */
  lemma {:induction false} InRowTokens(values: nat, rows: seq<Row>, j: nat)
    requires j < |rows|
    ensures RowTokens(rows[j]) <= ValuesTokens(values, rows)
    ensures values in ValuesTokens(values, rows)
    decreases |rows|
  {
    var init := rows[..|rows| - 1];
    if j < |rows| - 1 {
      InRowTokens(values, init, j);
      assert init[j] == rows[j];
    } else if |rows| > 1 {
      InRowTokens(values, init, 0);
    }
  }

  lemma NextRowFrame(d: Doc, prev: Doc, values: nat, init: seq<Row>, last: Row)
    requires RowsRewritten(d, prev, values, init)
    requires RowsInOrder(values, init + [last], |d.removed|)
    requires RowFits(last, |d.removed|) && last.close.Some? && last.open < last.close.value
    ensures var d' := RowEdit(prev, values, last, |init|);
      forall i :: 0 <= i < |d.removed| && i !in ValuesTokens(values, init + [last]) ==>
        d'.removed[i] == d.removed[i] && d'.before[i] == d.before[i] && d'.after[i] == d.after[i]
  {
    var rows := init + [last];
    assert rows[..|rows| - 1] == init;
    assert ValuesTokens(values, rows) == ValuesTokens(values, init) + RowTokens(last);
    forall i | 0 <= i < |d.removed| && i !in ValuesTokens(values, rows)
      ensures var d' := RowEdit(prev, values, last, |init|);
        d'.removed[i] == d.removed[i] && d'.before[i] == d.before[i] && d'.after[i] == d.after[i]
    {
      RowEditAt(prev, values, last, |init|, i);
    }
  }

  /** All tokens of an ordered list come before a position that follows its last comma. */
  lemma {:induction false} ValuesTokensBelow(values: nat, rows: seq<Row>, bound: nat)
    requires |rows| > 0 && values < rows[0].open
    requires forall j :: 0 <= j < |rows| ==> rows[j].comma.Some? && rows[j].comma.value < bound
    requires forall j :: 0 <= j < |rows| ==> rows[j].close.Some? && rows[j].close.value < rows[j].comma.value
    requires forall j :: 0 <= j < |rows| ==> rows[j].open < rows[j].close.value
    ensures forall i :: i in ValuesTokens(values, rows) ==> i < bound
    decreases |rows|
  {
    if |rows| > 1 {
      var init := rows[..|rows| - 1];
      assert forall j :: 0 <= j < |init| ==> init[j] == rows[j];
      ValuesTokensBelow(values, init, bound);
    } else {
      assert rows[..0] == [];
    }
  }

  /** A VALUES list of two or more rows is rewritten as a UNION ALL of SELECT ... FROM dual. */
  lemma {:induction false} MultiRowRewrite(d: Doc, values: nat, rows: seq<Row>)
    requires d.Fits(|d.removed|) && RowsInOrder(values, rows, |d.removed|)
    requires rows[0].comma.Some?
    ensures RowsRewritten(d, RowsEdit(d, values, rows), values, rows)
    decreases |rows|
  {
    var n := |rows| - 1;
    var init := rows[..n];
    assert rows == init + [rows[n]];
    if n == 0 {
      RowsInOrderInit(values, rows, |d.removed|, 1);
      assert rows[..1] == [rows[0]];
      FirstRowRewritten(d, values, rows[0]);
    } else {
      RowsInOrderInit(values, rows, |d.removed|, n);
      MultiRowRewrite(d, values, init);
      NextRowRewritten(d, RowsEdit(d, values, init), values, init, rows[n]);
    }
  }

  /**
   * The rows as the VALUES loop reads them, all below hi: each row starts
   * after VALUES or after the `,` that ended the row before; its closing
   * token follows its `(`, and a `,` follows its closing token.
   */
  ghost predicate RowsRead(values: nat, rows: seq<Row>, hi: nat)
    decreases |rows|
  {
    rows == [] ||
    var k := |rows| - 1;
    var r := rows[k];
    && RowsRead(values, rows[..k], r.open)
    && (if k == 0 then values < r.open else rows[k - 1].comma.Some? && rows[k - 1].comma.value < r.open)
    && (r.close.Some? ==> r.open < r.close.value)
    && (r.comma.Some? ==> r.close.Some? && r.close.value < r.comma.value)
    && RowFits(r, hi)
  }

  /** A row read after the list, below hi, extends it. */
  lemma RowsReadSnoc(values: nat, rows: seq<Row>, r: Row, hi: nat)
    requires RowsRead(values, rows, r.open)
    requires if rows == [] then values < r.open else rows[|rows| - 1].comma.Some? && rows[|rows| - 1].comma.value < r.open
    requires (r.close.Some? ==> r.open < r.close.value) && (r.comma.Some? ==> r.close.Some? && r.close.value < r.comma.value)
    requires RowFits(r, hi)
    ensures RowsRead(values, rows + [r], hi)
  {
    assert (rows + [r])[..|rows|] == rows;
  }

  /** One more row edits the document as the loop does for it. */
  lemma RowsEditSnoc(d: Doc, values: nat, rows: seq<Row>, r: Row)
    requires d.Fits(|d.removed|) && values < |d.removed|
    requires forall j :: 0 <= j < |rows| ==> RowFits(rows[j], |d.removed|)
    requires RowFits(r, |d.removed|)
    ensures forall j :: 0 <= j < |rows + [r]| ==> RowFits((rows + [r])[j], |d.removed|)
    ensures RowsEdit(d, values, rows + [r]) ==
      if RowRewritten(r, |rows|) then RowSteps(RowsEdit(d, values, rows), values, r, |rows|) else RowsEdit(d, values, rows)
  {
    assert (rows + [r])[..|rows|] == rows;
    if RowRewritten(r, |rows|) {
      RowStepsEdit(RowsEdit(d, values, rows), values, r, |rows|);
    }
  }

  /** Rows read below a bound are read below any larger bound. */
  lemma RowsReadGrow(values: nat, rows: seq<Row>, hi: nat, hi2: nat)
    requires RowsRead(values, rows, hi) && hi <= hi2
    ensures RowsRead(values, rows, hi2)
  {
  }

  /** Every token of a list read below hi is below hi. */

  lemma {:induction false} RowsReadBelow(values: nat, rows: seq<Row>, hi: nat, j: nat)
    requires RowsRead(values, rows, hi) && j < |rows|
    ensures RowFits(rows[j], hi) && values < rows[j].open
    ensures rows[j].close.Some? ==> rows[j].open < rows[j].close.value
    ensures rows[j].comma.Some? ==> rows[j].close.Some? && rows[j].close.value < rows[j].comma.value
    ensures j > 0 ==> rows[j - 1].comma.Some? && rows[j - 1].comma.value < rows[j].open
    decreases |rows|
  {
    var k := |rows| - 1;
    if j < k {
      RowsReadBelow(values, rows[..k], rows[k].open, j);
    } else if j > 0 {
      RowsReadBelow(values, rows[..k], rows[k].open, j - 1);
    }
  }

  /** A list the loop read whose rows were all closed is a VALUES list in stream order. */
  lemma {:induction false} RowsReadInOrder(values: nat, rows: seq<Row>, hi: nat)
    requires RowsRead(values, rows, hi) && rows != []
    requires forall j :: 0 <= j < |rows| ==> rows[j].close.Some?
    ensures RowsInOrder(values, rows, hi)
    decreases |rows|
  {
    var k := |rows| - 1;
    var init := rows[..k];
    forall j | 0 <= j < |rows|
      ensures RowFits(rows[j], hi) && rows[j].open < rows[j].close.value
      ensures j < k ==> rows[j].comma.Some?
    {
      RowsReadBelow(values, rows, hi, j);
      if j < k {
        RowsReadBelow(values, rows, hi, j + 1);
      }
    }
    if k > 0 {
      RowsReadInOrder(values, init, rows[k].open);
      forall j, l | 0 <= j < l < |rows|
        ensures rows[j].comma.Some? && rows[j].comma.value < rows[l].open
      {
        if l < k {
          assert init[j] == rows[j] && init[l] == rows[l];
        } else {
          RowsReadBelow(values, rows, hi, k);
          assert init[j] == rows[j];
          if j < k - 1 {
            assert init[j].comma.value < init[k - 1].open;
          }
        }
      }
    }
  }

  /**
   * The VALUES list of an INSERT as the loop reads and edits it: a single
   * row is left alone; two or more closed rows become a UNION ALL of
   * SELECT ... FROM dual.
   */
  lemma ValuesRewrite(d: Doc, values: nat, rows: seq<Row>)
    requires d.Fits(|d.removed|) && values < |d.removed| && RowsRead(values, rows, |d.removed|) && rows != []
    requires forall j :: 0 <= j < |rows| ==> rows[j].close.Some?
    requires rows[|rows| - 1].comma.None?
    ensures forall j :: 0 <= j < |rows| ==> RowFits(rows[j], |d.removed|)
    ensures |rows| == 1 ==> RowsEdit(d, values, rows) == d
    ensures |rows| > 1 ==> RowsRewritten(d, RowsEdit(d, values, rows), values, rows)
  {
    RowsReadInOrder(values, rows, |d.removed|);
    if |rows| == 1 {
      SingleRowUntouched(d, values, rows[0]);
    } else {
      MultiRowRewrite(d, values, rows);
    }
  }

  /** A column of an UPDATE column list and the `,` that followed it. */
  datatype ColRef = ColRef(col: nat, comma: Option<nat>)

  predicate ColFits(c: ColRef, n: nat)
  {
    c.col < n && (c.comma.Some? ==> c.comma.value < n)
  }

  /** One pair of a list assignment: a copy of the column and " = " go before the value; the column and its comma go. */
  function PairEdit(d: Doc, c: ColRef, v: nat): (d': Doc)
    requires d.Fits(|d.removed|) && ColFits(c, |d.removed|) && v < |d.removed|
    ensures d'.Fits(|d.removed|)
  {
    var d1 := PrependCopy(d, Some(v), Some(c.col));
    var d2 := Prepend(d1, Some(v), " = ");
    Remove(Remove(d2, Some(c.col)), c.comma)
  }

  /** The first k pairs of columns and values, paired in order. */
  function Pairs(d: Doc, cols: seq<ColRef>, vals: seq<nat>, k: nat): (d': Doc)
    requires d.Fits(|d.removed|) && k <= |cols| && k <= |vals|
    requires forall j :: 0 <= j < |cols| ==> ColFits(cols[j], |d.removed|)
    requires forall j :: 0 <= j < |vals| ==> vals[j] < |d.removed|
    ensures d'.Fits(|d.removed|)
    decreases k
  {
    if k == 0 then d else PairEdit(Pairs(d, cols, vals, k - 1), cols[k - 1], vals[k - 1])
  }

  function Min(a: nat, b: nat): nat
  {
    if a <= b then a else b
  }

  /** A `(c1, ...) = (v1, ...)` assignment of UPDATE SET. */
  datatype Assign = Assign(open: Option<nat>, cols: seq<ColRef>, close: Option<nat>, equal: nat,
                           open2: Option<nat>, vals: seq<nat>, close2: Option<nat>)

  predicate AssignFits(a: Assign, n: nat)
  {
    && (a.open.Some? ==> a.open.value < n) && (a.close.Some? ==> a.close.value < n) && a.equal < n
    && (a.open2.Some? ==> a.open2.value < n) && (a.close2.Some? ==> a.close2.value < n)
    && (forall j :: 0 <= j < |a.cols| ==> ColFits(a.cols[j], n))
    && (forall j :: 0 <= j < |a.vals| ==> a.vals[j] < n)
  }

  /**
   * The edits for one assignment: with more than one value the pairs are
   * expanded and both parenthesis pairs and `=` are removed; a single value
   * is left alone.
   */
  function AssignEdit(d: Doc, a: Assign): (d': Doc)
    requires d.Fits(|d.removed|) && AssignFits(a, |d.removed|)
    ensures d'.Fits(|d.removed|)
  {
    if |a.vals| <= 1 then d
    else
      var d1 := Pairs(d, a.cols, a.vals, Min(|a.cols|, |a.vals|));
      Remove(Remove(Remove(Remove(Remove(d1, a.open), a.close), Some(a.equal)), a.open2), a.close2)
  }

  /** The document after the assignments of a SET list were processed in order. */
  function AssignsEdit(d: Doc, assigns: seq<Assign>): (d': Doc)
    requires d.Fits(|d.removed|)
    requires forall j :: 0 <= j < |assigns| ==> AssignFits(assigns[j], |d.removed|)
    ensures d'.Fits(|d.removed|)
    decreases |assigns|
  {
    if assigns == [] then d
    else AssignEdit(AssignsEdit(d, assigns[..|assigns| - 1]), assigns[|assigns| - 1])
  }

  /** Every assignment of a SET list fits below n with its tokens in stream order. */
  ghost predicate AssignsRead(assigns: seq<Assign>, n: nat)
  {
    forall j :: 0 <= j < |assigns| ==> AssignFits(assigns[j], n) && PairsInOrder(assigns[j].cols, assigns[j].vals, n)
  }

  /** Reading one more assignment applies its edit after those of the list so far. */
  lemma AssignsEditSnoc(d: Doc, assigns: seq<Assign>, a: Assign)
    requires d.Fits(|d.removed|) && AssignsRead(assigns, |d.removed|)
    requires AssignFits(a, |d.removed|) && PairsInOrder(a.cols, a.vals, |d.removed|)
    ensures AssignsRead(assigns + [a], |d.removed|)
    ensures AssignsEdit(d, assigns + [a]) == AssignEdit(AssignsEdit(d, assigns), a)
  {
    assert (assigns + [a])[..|assigns|] == assigns;
  }

  /** An assignment that fits below n, in order below n, fits and is in order below any larger bound. */
  lemma AssignGrow(a: Assign, n: nat, n': nat)
    requires AssignFits(a, n) && PairsInOrder(a.cols, a.vals, n) && n <= n'
    ensures AssignFits(a, n') && PairsInOrder(a.cols, a.vals, n')
  {
  }

  /** A single-value assignment `c = v` is not edited. */
  lemma SingleValueUntouched(d: Doc, a: Assign)
    requires d.Fits(|d.removed|) && AssignFits(a, |d.removed|) && |a.vals| <= 1
    ensures AssignEdit(d, a) == d
  {
  }

  /**
   * Columns, their commas and values are distinct tokens in stream order:
   * every column (and its comma) comes before the next column, and all
   * columns come before the first value; values are increasing.
   */
  ghost predicate PairsInOrder(cols: seq<ColRef>, vals: seq<nat>, n: nat)
  {
    && (forall j :: 0 <= j < |cols| ==> ColFits(cols[j], n))
    && (forall j :: 0 <= j < |vals| ==> vals[j] < n)
    && (forall j :: 0 <= j < |cols| && cols[j].comma.Some? ==> cols[j].col < cols[j].comma.value)
    && (forall j, l :: 0 <= j < l < |cols| ==> cols[j].col < cols[l].col)
    && (forall j, l :: 0 <= j < l < |cols| && cols[j].comma.Some? ==> cols[j].comma.value < cols[l].col)
    && (forall j, l :: 0 <= j < |cols| && 0 <= l < |vals| ==> cols[j].col < vals[l])
    && (forall j, l :: 0 <= j < |cols| && 0 <= l < |vals| && cols[j].comma.Some? ==> cols[j].comma.value < vals[l])
    && (forall j, l :: 0 <= j < l < |vals| ==> vals[j] < vals[l])
  }

  /** Values read one after another from lo, all below hi, in stream order. */
  ghost predicate ValsRead(vals: seq<nat>, lo: nat, hi: nat)
    decreases |vals|
  {
    vals == [] ||
    var k := |vals| - 1;
    ValsRead(vals[..k], lo, vals[k]) && lo <= vals[k] < hi
  }

  /** One more value read after the list extends it. */
  lemma ValsReadSnoc(vals: seq<nat>, lo: nat, v: nat, hi: nat)
    requires ValsRead(vals, lo, v) && lo <= v < hi
    ensures ValsRead(vals + [v], lo, hi)
  {
    assert (vals + [v])[..|vals|] == vals;
  }

  /** A list read from lo was read from any smaller start. */
  lemma {:induction false} ValsReadFrom(vals: seq<nat>, lo': nat, lo: nat, hi: nat)
    requires ValsRead(vals, lo, hi) && lo' <= lo
    ensures ValsRead(vals, lo', hi)
    decreases |vals|
  {
    if vals != [] {
      ValsReadFrom(vals[..|vals| - 1], lo', lo, vals[|vals| - 1]);
    }
  }

  /** A list read below hi was read below any larger bound. */
  lemma ValsReadGrow(vals: seq<nat>, lo: nat, hi: nat, hi': nat)
    requires ValsRead(vals, lo, hi) && hi <= hi'
    ensures ValsRead(vals, lo, hi')
  {
  }

  /** Each value read lies in the range and before every later one. */
  lemma {:induction false} ValsReadAt(vals: seq<nat>, lo: nat, hi: nat, j: nat)
    requires ValsRead(vals, lo, hi) && j < |vals|
    ensures lo <= vals[j] < hi
    ensures forall l :: j < l < |vals| ==> vals[j] < vals[l]
    decreases |vals|
  {
    var k := |vals| - 1;
    if j < k {
      var init := vals[..k];
      ValsReadAt(init, lo, vals[k], j);
      forall l | j < l < |vals|
        ensures vals[j] < vals[l]
      {
        if l < k {
          assert init[l] == vals[l];
        }
      }
    }
  }

  /**
   * The columns of a list assignment, `(c1, c2, ...`, sit at every other
   * token from lo with their commas in between; values read after them are
   * in stream order: the pairs are in the order PairsInOrder asks for.
   */
  lemma AssignPairsInOrder(cols: seq<ColRef>, vals: seq<nat>, lo: nat, mid: nat, n: nat)
    requires forall k :: 0 <= k < |cols| ==> cols[k].col == lo + 2 * k
    requires forall k :: 0 <= k < |cols| && cols[k].comma.Some? ==> cols[k].comma.value == cols[k].col + 1
    requires lo + 2 * |cols| <= mid <= n && ValsRead(vals, mid, n)
    ensures PairsInOrder(cols, vals, n)
  {
    forall j | 0 <= j < |vals|
      ensures mid <= vals[j] < n && forall l :: j < l < |vals| ==> vals[j] < vals[l]
    {
      ValsReadAt(vals, mid, n, j);
    }
  }

  /** The first k columns, their commas and the first k values. */
  function PairTokens(cols: seq<ColRef>, vals: seq<nat>, k: nat): set<nat>
    requires k <= |cols| && k <= |vals|
  {
    if k == 0 then {}
    else
      var c := cols[k - 1];
      PairTokens(cols, vals, k - 1) + {c.col, vals[k - 1]} + (if c.comma.Some? then {c.comma.value} else {})
  }

  /** What one pair changes at token i: only its column, its comma and its value. */
  lemma PairEditAt(d: Doc, c: ColRef, v: nat, i: nat)
    requires d.Fits(|d.removed|) && ColFits(c, |d.removed|) && v < |d.removed| && i < |d.removed|
    ensures var d' := PairEdit(d, c, v);
      && d'.text == d.text && d'.notes == d.notes && d'.after == d.after
      && d'.removed[i] == (d.removed[i] || i == c.col || c.comma == Some(i))
      && d'.before[i] == (if i == v then d.before[i] + [d.text[c.col], " = "] else d.before[i])
  {
  }

  /**
   * d' is d with k pairs expanded: value j has a copy of column j's text and
   * " = " in front of it, column j and its comma are removed, and no other
   * token is touched.
   */
  ghost predicate PairsExpanded(d: Doc, d': Doc, cols: seq<ColRef>, vals: seq<nat>, k: nat)
  {
    && d.Fits(|d.removed|) && d'.Fits(|d.removed|) && k <= |cols| && k <= |vals|
    && PairsInOrder(cols, vals, |d.removed|)
    && d'.text == d.text && d'.notes == d.notes && d'.after == d.after
    && (forall j :: 0 <= j < k ==>
          && d'.before[vals[j]] == d.before[vals[j]] + [d.text[cols[j].col], " = "]
          && d'.removed[cols[j].col]
          && (cols[j].comma.Some? ==> d'.removed[cols[j].comma.value]))
    && (forall i :: 0 <= i < |d.removed| && i !in PairTokens(cols, vals, k) ==>
          d'.removed[i] == d.removed[i] && d'.before[i] == d.before[i])
  }

  /** Expanding the first k pairs of an ordered list does what PairsExpanded says. */
  lemma {:induction false} PairsExpand(d: Doc, cols: seq<ColRef>, vals: seq<nat>, k: nat)
    requires d.Fits(|d.removed|) && k <= |cols| && k <= |vals|
    requires PairsInOrder(cols, vals, |d.removed|)
    ensures PairsExpanded(d, Pairs(d, cols, vals, k), cols, vals, k)
    decreases k
  {
    if k > 0 {
      PairsExpand(d, cols, vals, k - 1);
      NextPairOwn(d, Pairs(d, cols, vals, k - 1), cols, vals, k);
      NextPairFrame(d, Pairs(d, cols, vals, k - 1), cols, vals, k);
      PairEditAt(Pairs(d, cols, vals, k - 1), cols[k - 1], vals[k - 1], 0);
    }
  }

  lemma NextPairOwn(d: Doc, prev: Doc, cols: seq<ColRef>, vals: seq<nat>, k: nat)
    requires 0 < k && PairsExpanded(d, prev, cols, vals, k - 1) && k <= |cols| && k <= |vals|
    ensures var d' := PairEdit(prev, cols[k - 1], vals[k - 1]);
      forall j :: 0 <= j < k ==>
        && d'.before[vals[j]] == d.before[vals[j]] + [d.text[cols[j].col], " = "]
        && d'.removed[cols[j].col]
        && (cols[j].comma.Some? ==> d'.removed[cols[j].comma.value])
  {
    var c, v := cols[k - 1], vals[k - 1];
    forall j | 0 <= j < k
      ensures var d' := PairEdit(prev, c, v);
        && d'.before[vals[j]] == d.before[vals[j]] + [d.text[cols[j].col], " = "]
        && d'.removed[cols[j].col]
        && (cols[j].comma.Some? ==> d'.removed[cols[j].comma.value])
    {
      PairEditAt(prev, c, v, vals[j]);
      PairEditAt(prev, c, v, cols[j].col);
      if cols[j].comma.Some? {
        PairEditAt(prev, c, v, cols[j].comma.value);
      }
      if j < k - 1 {
        assert vals[j] < v;
      } else {
        assert vals[j] !in PairTokens(cols, vals, k - 1) by {
          PairTokensBelow(cols, vals, k - 1, v, |d.removed|);
        }
      }
    }
  }

  lemma NextPairFrame(d: Doc, prev: Doc, cols: seq<ColRef>, vals: seq<nat>, k: nat)
    requires 0 < k && PairsExpanded(d, prev, cols, vals, k - 1) && k <= |cols| && k <= |vals|
    ensures var d' := PairEdit(prev, cols[k - 1], vals[k - 1]);
      forall i :: 0 <= i < |d.removed| && i !in PairTokens(cols, vals, k) ==>
        d'.removed[i] == d.removed[i] && d'.before[i] == d.before[i]
  {
    forall i | 0 <= i < |d.removed| && i !in PairTokens(cols, vals, k)
      ensures var d' := PairEdit(prev, cols[k - 1], vals[k - 1]);
        d'.removed[i] == d.removed[i] && d'.before[i] == d.before[i]
    {
      PairEditAt(prev, cols[k - 1], vals[k - 1], i);
    }
  }

  /** The tokens of the first k pairs come before value k. */
  lemma {:induction false} PairTokensBelow(cols: seq<ColRef>, vals: seq<nat>, k: nat, v: nat, n: nat)
    requires k <= |cols| && k < |vals| && v == vals[k] && PairsInOrder(cols, vals, n)
    ensures forall i :: i in PairTokens(cols, vals, k) ==> i < v
    decreases k
  {
    if k > 0 {
      PairTokensBelow(cols, vals, k - 1, vals[k - 1], n);
      assert vals[k - 1] < v;
    }
  }

  /**
   * A list assignment `(c1, c2, ...) = (v1, v2, ...)` with two or more values
   * becomes `c1 = v1, c2 = v2, ...`: each value gets its column's text and
   * " = " in front, the columns, their commas, both parenthesis pairs and
   * the `=` are removed; surplus columns or values are left as they are.
   */
  lemma ListAssignRewrite(d: Doc, a: Assign)
    requires d.Fits(|d.removed|) && AssignFits(a, |d.removed|) && |a.vals| > 1
    requires PairsInOrder(a.cols, a.vals, |d.removed|)
    ensures var d' := AssignEdit(d, a);
      && d'.text == d.text && d'.after == d.after && d'.notes == d.notes
      && d'.removed[a.equal]
      && (forall t :: t in [a.open, a.close, a.open2, a.close2] && t.Some? ==> d'.removed[t.value])
      && (forall j :: 0 <= j < Min(|a.cols|, |a.vals|) ==>
            && d'.before[a.vals[j]] == d.before[a.vals[j]] + [d.text[a.cols[j].col], " = "]
            && d'.removed[a.cols[j].col]
            && (a.cols[j].comma.Some? ==> d'.removed[a.cols[j].comma.value]))
      && (forall i :: 0 <= i < |d.removed| && i !in PairTokens(a.cols, a.vals, Min(|a.cols|, |a.vals|))
                      && Some(i) !in [a.open, a.close, Some(a.equal), a.open2, a.close2] ==>
            d'.removed[i] == d.removed[i] && d'.before[i] == d.before[i])
  {
    var k := Min(|a.cols|, |a.vals|);
    var d1 := Pairs(d, a.cols, a.vals, k);
    var d' := AssignEdit(d, a);
    PairsExpand(d, a.cols, a.vals, k);
    PunctuationRemoved(d1, a, a.equal);
    forall t | t in [a.open, a.close, a.open2, a.close2] && t.Some?
      ensures d'.removed[t.value]
    {
      PunctuationRemoved(d1, a, t.value);
    }
    forall j | 0 <= j < k
      ensures d'.removed[a.cols[j].col] && (a.cols[j].comma.Some? ==> d'.removed[a.cols[j].comma.value])
    {
      PunctuationRemoved(d1, a, a.cols[j].col);
      if a.cols[j].comma.Some? {
        PunctuationRemoved(d1, a, a.cols[j].comma.value);
      }
    }
    ListAssignFrame(d, a);
  }

  /** A list assignment leaves every token outside its pairs and punctuation as it was. */
  lemma ListAssignFrame(d: Doc, a: Assign)
    requires d.Fits(|d.removed|) && AssignFits(a, |d.removed|) && |a.vals| > 1
    requires PairsInOrder(a.cols, a.vals, |d.removed|)
    ensures var d' := AssignEdit(d, a);
      forall i :: 0 <= i < |d.removed| && i !in PairTokens(a.cols, a.vals, Min(|a.cols|, |a.vals|))
                  && Some(i) !in [a.open, a.close, Some(a.equal), a.open2, a.close2] ==>
        d'.removed[i] == d.removed[i] && d'.before[i] == d.before[i]
  {
    var k := Min(|a.cols|, |a.vals|);
    var d1 := Pairs(d, a.cols, a.vals, k);
    var d' := AssignEdit(d, a);
    PairsExpand(d, a.cols, a.vals, k);
    forall i | 0 <= i < |d.removed| && i !in PairTokens(a.cols, a.vals, k)
               && Some(i) !in [a.open, a.close, Some(a.equal), a.open2, a.close2]
      ensures d'.removed[i] == d.removed[i] && d'.before[i] == d.before[i]
    {
      PunctuationRemoved(d1, a, i);
    }
  }

  /** The parentheses and `=` of a list assignment are removed after its pairs; nothing else changes. */
  lemma PunctuationRemoved(d1: Doc, a: Assign, i: nat)
    requires d1.Fits(|d1.removed|) && AssignFits(a, |d1.removed|) && i < |d1.removed|
    ensures var d' := Remove(Remove(Remove(Remove(Remove(d1, a.open), a.close), Some(a.equal)), a.open2), a.close2);
      && d'.text == d1.text && d'.before == d1.before && d'.after == d1.after && d'.notes == d1.notes
      && d'.removed[i] == (d1.removed[i] || Some(i) in [a.open, a.close, Some(a.equal), a.open2, a.close2])
  {
  }
}
