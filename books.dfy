/**
 * The bookmark registry: a position in the token stream recorded under a
 * (kind, owner[, column]) key by one statement and read by a later one. Keys
 * hold the folded names, so a lookup matches owners case-insensitively.
 * Also the column list of CREATE TABLE as the bookmarks and the identity
 * column it records.
 */
module Bookmarks {
  import opened Tokens

  /** BOOK_CT_START, BOOK_CT_END, BOOK_CTC_END, BOOK_CTC_ALL_END, BOOK_CI_START, BOOK_CI_END. */
  datatype BookKind = CtStart | CtEnd | CtcEnd | CtcAllEnd | CiStart | CiEnd

  datatype BookKey = BookKey(kind: BookKind, owner: string, column: string)

  /** Key of a bookmark owned by an object (table or index). */
  function ObjectKey(kind: BookKind, owner: string): BookKey
  {
    BookKey(kind, Fold(owner), "")
  }

  /** Key of the end-of-column bookmark of column `column` of table `table`. */
  function ColumnKey(table: string, column: string): BookKey
  {
    BookKey(CtcEnd, Fold(table), Fold(column))
  }

  /** The key COMMENT ON COLUMN looks up for a name written `table.column`. */
  function CommentKey(name: string): BookKey
  {
    var parts := SplitQualified(name);
    ColumnKey(parts.0, parts.1)
  }

  /**
   * COMMENT ON COLUMN t.c finds the bookmark CREATE TABLE recorded for
   * column c of table t, whatever the case either statement spells them in.
   */
  lemma CommentFindsColumn(table: string, column: string, name: string)
    requires forall j :: 0 <= j < |column| ==> column[j] != '.'
    requires exists t, c :: SameWord(t, table) && SameWord(c, column) && name == t + "." + c
    ensures CommentKey(name) == ColumnKey(table, column)
  {
    var t, c :| SameWord(t, table) && SameWord(c, column) && name == t + "." + c;
    assert forall j :: 0 <= j < |c| ==> c[j] != '.' by {
      forall j | 0 <= j < |c|
        ensures c[j] != '.'
      {
        assert Fold(c)[j] == Fold(column)[j];
      }
    }
    SplitJoin(t, c);
  }

  /** One entry of a CREATE TABLE column list: a standalone constraint or a column. */
  datatype ColumnItem =
    | Constraint
    | Column(name: nat, nameText: string, serial: bool, last: nat)

  /** The registry after each column of the list bookmarked its last token, in order. */
  function ColumnBooks(books: map<BookKey, nat>, table: string, items: seq<ColumnItem>): map<BookKey, nat>
    decreases |items|
  {
    if items == [] then books
    else
      var prev := ColumnBooks(books, table, items[..|items| - 1]);
      match items[|items| - 1]
      case Constraint => prev
      case Column(_, text, _, last) => prev[ColumnKey(table, text) := last]
  }

  /** The identity column after the list: the last column typed SERIAL, else the one before. */
  function IdentityColumn(id: Option<nat>, items: seq<ColumnItem>): Option<nat>
    decreases |items|
  {
    if items == [] then id
    else
      var prev := IdentityColumn(id, items[..|items| - 1]);
      match items[|items| - 1]
      case Constraint => prev
      case Column(name, _, serial, _) => if serial then Some(name) else prev
  }

  /** Reading one more item extends the bookmarks and the identity column by that item alone. */
  lemma ColumnItemSnoc(books: map<BookKey, nat>, table: string, items: seq<ColumnItem>, item: ColumnItem)
    ensures ColumnBooks(books, table, items + [item]) ==
      if item.Column? then ColumnBooks(books, table, items)[ColumnKey(table, item.nameText) := item.last]
      else ColumnBooks(books, table, items)
    ensures IdentityColumn(None, items + [item]) ==
      if item.Column? && item.serial then Some(item.name) else IdentityColumn(None, items)
  {
    assert (items + [item])[..|items|] == items;
  }

  /** Bookmarks not named by any column of the list are left as they were. */
  lemma {:induction false} ColumnBooksKeep(books: map<BookKey, nat>, table: string, items: seq<ColumnItem>, key: BookKey)
    requires forall j :: 0 <= j < |items| && items[j].Column? ==> ColumnKey(table, items[j].nameText) != key
    ensures key in ColumnBooks(books, table, items) <==> key in books
    ensures key in books ==> ColumnBooks(books, table, items)[key] == books[key]
    decreases |items|
  {
    if items != [] {
      ColumnBooksKeep(books, table, items[..|items| - 1], key);
    }
  }

  /**
   * Every column of the list can be found by (table, column) and leads to the
   * last token of its definition, unless a later column has the same name.
   */
  lemma {:induction false} ColumnBookFound(books: map<BookKey, nat>, table: string, items: seq<ColumnItem>, k: nat)
    requires k < |items| && items[k].Column?
    requires forall j :: k < j < |items| && items[j].Column? ==> !SameWord(items[j].nameText, items[k].nameText)
    ensures var key := ColumnKey(table, items[k].nameText);
      key in ColumnBooks(books, table, items) && ColumnBooks(books, table, items)[key] == items[k].last
    decreases |items|
  {
    var key := ColumnKey(table, items[k].nameText);
    if k < |items| - 1 {
      ColumnBookFound(books, table, items[..|items| - 1], k);
      assert items[..|items| - 1][k] == items[k];
      var lastItem := items[|items| - 1];
      if lastItem.Column? {
        assert !SameWord(lastItem.nameText, items[k].nameText);
        assert ColumnKey(table, lastItem.nameText) != key;
      }
    }
  }

  /** items[j] is a SERIAL column and no later column is SERIAL. */
  ghost predicate LastSerial(items: seq<ColumnItem>, j: int)
  {
    && 0 <= j < |items| && items[j].Column? && items[j].serial
    && forall i :: j < i < |items| && items[i].Column? ==> !items[i].serial
  }

  /** The identity column is recorded iff some column of the list is typed SERIAL (or one was before). */
  lemma {:induction false} IdentityColumnRecorded(id: Option<nat>, items: seq<ColumnItem>)
    ensures IdentityColumn(id, items).Some? <==>
      id.Some? || exists j :: 0 <= j < |items| && items[j].Column? && items[j].serial
    ensures forall j :: LastSerial(items, j) ==> IdentityColumn(id, items) == Some(items[j].name)
    decreases |items|
  {
    if items != [] {
      var init := items[..|items| - 1];
      IdentityColumnRecorded(id, init);
      forall j | 0 <= j < |init|
        ensures init[j] == items[j]
      {
      }
    }
  }

  /**
   * The registry after CREATE TABLE: the start bookmark on CREATE, one per
   * column, the end of the column list on its `)` (when there is one) and
   * the end of the statement on its last token.
   */
  function TableBooks(books: map<BookKey, nat>, table: string, create: nat, items: seq<ColumnItem>,
                      close: Option<nat>, last: nat): map<BookKey, nat>
  {
    var withStart := books[ObjectKey(CtStart, table) := create];
    var withColumns := ColumnBooks(withStart, table, items);
    var withClose := if close.Some? then withColumns[ObjectKey(CtcAllEnd, table) := close.value] else withColumns;
    withClose[ObjectKey(CtEnd, table) := last]
  }

  /**
   * After CREATE TABLE the table's start and end bookmarks are its first and
   * last tokens, and each column whose name no later column repeats is found
   * under (table, column) at its last token.
   */
  lemma TableBooksFound(books: map<BookKey, nat>, table: string, create: nat, items: seq<ColumnItem>,
                        close: Option<nat>, last: nat)
    ensures var b := TableBooks(books, table, create, items, close, last);
      && ObjectKey(CtStart, table) in b && b[ObjectKey(CtStart, table)] == create
      && ObjectKey(CtEnd, table) in b && b[ObjectKey(CtEnd, table)] == last
      && (close.Some? ==> ObjectKey(CtcAllEnd, table) in b && b[ObjectKey(CtcAllEnd, table)] == close.value)
      && (forall k ::
            (&& 0 <= k < |items| && items[k].Column?
             && forall j :: k < j < |items| && items[j].Column? ==> !SameWord(items[j].nameText, items[k].nameText)) ==>
            ColumnKey(table, items[k].nameText) in b && b[ColumnKey(table, items[k].nameText)] == items[k].last)
  {
    var withStart := books[ObjectKey(CtStart, table) := create];
    ColumnBooksKeep(withStart, table, items, ObjectKey(CtStart, table));
    forall k | 0 <= k < |items| && items[k].Column? &&
            (forall j :: k < j < |items| && items[j].Column? ==> !SameWord(items[j].nameText, items[k].nameText))
      ensures var b := TableBooks(books, table, create, items, close, last);
        ColumnKey(table, items[k].nameText) in b && b[ColumnKey(table, items[k].nameText)] == items[k].last
    {
      ColumnBookFound(withStart, table, items, k);
    }
  }
}
