/**
 * The rewrites the DDL handlers apply to the token stream, each one a
 * composition of the document edits, with lemmas that say token by token
 * what the statement looks like afterwards.
 */
module Edits {
  import opened Tokens
  import opened Document

  /** COMMENT ON TABLE: the COMMENT keyword becomes ALTER, ON is removed and IS becomes COMMENT. */
  function CommentOnTable(d: Doc, comment: nat, on: nat, isWord: Option<nat>): (r: Doc)
    requires d.Fits(|d.removed|) && comment < |d.removed| && on < |d.removed| && Holds(d, isWord)
    ensures r.Fits(|d.removed|)
  {
    Change(Remove(Change(d, Some(comment), "ALTER"), Some(on)), isWord, "COMMENT")
  }

  /**
   * COMMENT ON TABLE t IS 'x' reads ALTER TABLE t COMMENT 'x': only ON is
   * removed, only COMMENT and IS change their text, and nothing is spliced.
   */
  lemma CommentOnTableEffect(d: Doc, comment: nat, on: nat, isWord: Option<nat>, i: nat)
    requires d.Fits(|d.removed|) && comment < |d.removed| && on < |d.removed| && Holds(d, isWord)
    requires isWord != Some(comment) && i < |d.removed|
    ensures var r := CommentOnTable(d, comment, on, isWord);
      && r.removed[i] == (d.removed[i] || i == on)
      && r.text[i] == (if i == comment then "ALTER" else if isWord == Some(i) then "COMMENT" else d.text[i])
      && r.before == d.before && r.after == d.after && r.notes == d.notes
  {
    var d1 := Change(d, Some(comment), "ALTER");
    var d2 := Remove(d1, Some(on));
    EditsAt(d, Some(comment), "ALTER", i);
    EditsAt(d1, Some(on), "", i);
    EditsAt(d2, isWord, "COMMENT", i);
  }

  /**
   * COMMENT ON COLUMN: ` COMMENT ` and a copy of the text are appended after
   * the column's bookmarked token, and the statement is commented out.
   */
  function CommentOnColumn(d: Doc, comment: nat, last: nat, book: Option<nat>, text: Option<nat>): (r: Doc)
    requires d.Fits(|d.removed|) && Holds(d, book) && Holds(d, text)
    ensures r.Fits(|d.removed|)
  {
    var moved := if book.Some? then AppendCopy(Append(d, book, " COMMENT "), book, text) else d;
    Comment(moved, comment, last, "Moved to CREATE TABLE\n")
  }

  /**
   * COMMENT ON COLUMN moves the comment into the column definition: the
   * bookmarked token, and no other, gets ` COMMENT ` and the comment text
   * after it; the statement from COMMENT to its end is commented out
   * whether or not the column was found; nothing is removed or changed.
   */
  lemma CommentOnColumnEffect(d: Doc, comment: nat, last: nat, book: Option<nat>, text: Option<nat>, i: nat)
    requires d.Fits(|d.removed|) && Holds(d, book) && Holds(d, text) && i < |d.removed|
    ensures var r := CommentOnColumn(d, comment, last, book, text);
      && r.removed == d.removed && r.text == d.text && r.before == d.before
      && r.notes == d.notes + [Note(comment, last, "Moved to CREATE TABLE\n")]
      && r.after[i] == (if book == Some(i) then d.after[i] + [" COMMENT "] + (if text.Some? then [d.text[text.value]] else [])
                        else d.after[i])
  {
    if book.Some? {
      var d1 := Append(d, book, " COMMENT ");
      EditsAt(d, book, " COMMENT ", i);
      if text.Some? {
        EditsAt(d1, book, d1.text[text.value], i);
      }
    }
  }

  /**
   * CREATE TYPE: ` OR REPLACE` after CREATE, and the `/` line that runs the
   * statement after its last token.
   */
  function CreateTypeEdit(d: Doc, create: nat, end: nat): (r: Doc)
    requires d.Fits(|d.removed|) && create < |d.removed| && end < |d.removed|
    ensures r.Fits(|d.removed|)
  {
    Append(Append(d, Some(create), " OR REPLACE"), Some(end), "\n/")
  }

  /** CREATE TYPE only splices text after CREATE and after the statement's end, in that order. */
  lemma CreateTypeEffect(d: Doc, create: nat, end: nat, i: nat)
    requires d.Fits(|d.removed|) && create < end < |d.removed| && i < |d.removed|
    ensures var r := CreateTypeEdit(d, create, end);
      && r.removed == d.removed && r.text == d.text && r.before == d.before && r.notes == d.notes
      && r.after[i] == (if i == create then d.after[i] + [" OR REPLACE"]
                        else if i == end then d.after[i] + ["\n/"] else d.after[i])
  {
    EditsAt(d, Some(create), " OR REPLACE", i);
    EditsAt(Append(d, Some(create), " OR REPLACE"), Some(end), "\n/", i);
  }

  /**
   * A routine body without BEGIN and END still needs an END in the target:
   * it is spliced after the last token of the block.
   */
  function EndBlock(d: Doc, last: Option<nat>, begin: Option<nat>, end: Option<nat>): (r: Doc)
    requires d.Fits(|d.removed|) && Holds(d, last)
    ensures r.Fits(|d.removed|)
  {
    if begin.None? && end.None? then Append(d, last, "\nEND;") else d
  }

  /** An END that no `;` follows gets one. */
  function EndSemicolon(d: Doc, end: Option<nat>, semi: bool): (r: Doc)
    requires d.Fits(|d.removed|) && Holds(d, end)
    ensures r.Fits(|d.removed|)
  {
    if end.Some? && !semi then Append(d, end, ";") else d
  }

  /**
   * Closing a body splices at most one text after one token and nothing
   * else: "\nEND;" after the block's last token when there was neither
   * BEGIN nor END, ";" after END when no semicolon followed it.
   */
  lemma CloseBodyEffect(d: Doc, last: Option<nat>, begin: Option<nat>, end: Option<nat>, semi: bool, i: nat)
    requires d.Fits(|d.removed|) && Holds(d, last) && Holds(d, end) && i < |d.removed|
    ensures var r := EndSemicolon(EndBlock(d, last, begin, end), end, semi);
      && r.removed == d.removed && r.text == d.text && r.before == d.before && r.notes == d.notes
      && r.after[i] == d.after[i] + (if begin.None? && end.None? && last == Some(i) then ["\nEND;"]
                                     else if end == Some(i) && !semi then [";"] else [])
  {
    EditsAt(d, last, "\nEND;", i);
    EditsAt(EndBlock(d, last, begin, end), end, ";", i);
  }

  /**
   * What the body of CREATE TRIGGER was found to hold: where it starts,
   * BEGIN, the last token of a trigger the conversion pattern removes, the
   * position after the block, END, whether a `;` closed it and an outer
   * label after END.
   */
  datatype TriggerBody = TriggerBody(
    start: nat, begin: Option<nat>, removedTo: Option<nat>, blockEnd: nat,
    end: Option<nat>, semi: bool, labelled: Option<nat>)

  /** The body's tokens are tokens of the document and a removed trigger starts at create. */
  predicate TriggerBodyFits(d: Doc, create: nat, b: TriggerBody)
  {
    && 0 < b.blockEnd <= |d.removed|
    && (b.removedTo.Some? ==> create <= b.removedTo.value < |d.removed|)
    && Holds(d, b.end) && Holds(d, b.labelled)
  }

  /**
   * The edits of a trigger body, in the order they are made: the matched
   * trigger removed, END added, the outer label removed, `;` added.
   */
  function TriggerBodyEdit(d: Doc, create: nat, b: TriggerBody): (r: Doc)
    requires d.Fits(|d.removed|) && TriggerBodyFits(d, create, b)
    ensures r.Fits(|d.removed|)
  {
    var patterned := if b.removedTo.Some? then RemoveRange(d, create, b.removedTo.value) else d;
    var ended := EndBlock(patterned, Some(b.blockEnd - 1), b.begin, b.end);
    EndSemicolon(Remove(ended, b.labelled), b.end, b.semi)
  }

  /**
   * Token by token: a trigger the pattern matched is removed from CREATE
   * through its END or `;`, an outer label after END is removed, and no
   * text changes.
   */
  lemma TriggerBodyRemoved(d: Doc, create: nat, b: TriggerBody, i: nat)
    requires d.Fits(|d.removed|) && TriggerBodyFits(d, create, b) && i < |d.removed|
    ensures var r := TriggerBodyEdit(d, create, b);
      && r.removed[i] == (d.removed[i] || (b.removedTo.Some? && create <= i <= b.removedTo.value) || b.labelled == Some(i))
      && r.text == d.text && r.before == d.before && r.notes == d.notes
  {
    var patterned := if b.removedTo.Some? then RemoveRange(d, create, b.removedTo.value) else d;
    var ended := EndBlock(patterned, Some(b.blockEnd - 1), b.begin, b.end);
    assert ended.removed == patterned.removed;
    EditsAt(ended, b.labelled, "", i);
  }

  /** The body's END and `;` are supplied where missing, and nothing else is spliced. */
  lemma TriggerBodyAfter(d: Doc, create: nat, b: TriggerBody, i: nat)
    requires d.Fits(|d.removed|) && TriggerBodyFits(d, create, b) && i < |d.removed|
    ensures TriggerBodyEdit(d, create, b).after[i] ==
      d.after[i] + (if b.begin.None? && b.end.None? && i == b.blockEnd - 1 then ["\nEND;"]
                    else if b.end == Some(i) && !b.semi then [";"] else [])
  {
    var patterned := if b.removedTo.Some? then RemoveRange(d, create, b.removedTo.value) else d;
    assert patterned.after == d.after;
    var ended := EndBlock(patterned, Some(b.blockEnd - 1), b.begin, b.end);
    var unlabelled := Remove(ended, b.labelled);
    assert EndSemicolon(unlabelled, b.end, b.semi).after == EndSemicolon(ended, b.end, b.semi).after;
    CloseBodyEffect(patterned, Some(b.blockEnd - 1), b.begin, b.end, b.semi, i);
  }

  /**
   * What the body of a routine was found to hold: the second BEGIN, the
   * position after the block, END and whether a `;` closed it.
   */
  datatype RoutineBody = RoutineBody(begin: Option<nat>, blockEnd: nat, end: Option<nat>, semi: bool)

  predicate RoutineBodyFits(d: Doc, b: RoutineBody)
  {
    0 < b.blockEnd <= |d.removed| && Holds(d, b.end)
  }

  /** The edits of a routine body: END after the block when BEGIN and END are both missing, `;` after END. */
  function RoutineBodyEdit(d: Doc, b: RoutineBody): (r: Doc)
    requires d.Fits(|d.removed|) && RoutineBodyFits(d, b)
    ensures r.Fits(|d.removed|)
  {
    EndSemicolon(EndBlock(d, Some(b.blockEnd - 1), b.begin, b.end), b.end, b.semi)
  }

  /**
   * The head of CREATE FUNCTION: CREATE always becomes CREATE OR REPLACE,
   * and FUNCTION becomes PROCEDURE when the function is converted to one.
   */
  function FunctionHead(d: Doc, create: nat, func: nat, toProc: bool): (r: Doc)
    requires d.Fits(|d.removed|) && create < |d.removed| && func < |d.removed|
    ensures r.Fits(|d.removed|)
  {
    Change(if toProc then Change(d, Some(func), "PROCEDURE") else d, Some(create), "CREATE OR REPLACE")
  }

  /** The rewrite of a whole CREATE FUNCTION statement. */
  function FunctionEdit(d: Doc, create: nat, func: nat, toProc: bool, b: RoutineBody): (r: Doc)
    requires d.Fits(|d.removed|) && create < |d.removed| && func < |d.removed| && RoutineBodyFits(d, b)
    ensures r.Fits(|d.removed|)
  {
    RoutineBodyEdit(FunctionHead(d, create, func, toProc), b)
  }

  /**
   * Token by token, CREATE FUNCTION removes nothing; it shows CREATE as
   * CREATE OR REPLACE and FUNCTION as PROCEDURE when converted, and
   * splices only the missing END and `;`.
   */
  lemma FunctionEffect(d: Doc, create: nat, func: nat, toProc: bool, b: RoutineBody, i: nat)
    requires d.Fits(|d.removed|) && create < |d.removed| && func < |d.removed| && RoutineBodyFits(d, b)
    requires create != func && i < |d.removed|
    ensures var r := FunctionEdit(d, create, func, toProc, b);
      && r.removed == d.removed && r.before == d.before && r.notes == d.notes
      && r.text[i] == (if i == create then "CREATE OR REPLACE" else if toProc && i == func then "PROCEDURE" else d.text[i])
      && r.after[i] == d.after[i] + (if b.begin.None? && b.end.None? && i == b.blockEnd - 1 then ["\nEND;"]
                                     else if b.end == Some(i) && !b.semi then [";"] else [])
  {
    var renamed := if toProc then Change(d, Some(func), "PROCEDURE") else d;
    EditsAt(d, Some(func), "PROCEDURE", i);
    EditsAt(renamed, Some(create), "CREATE OR REPLACE", i);
    var head := FunctionHead(d, create, func, toProc);
    CloseBodyEffect(head, Some(b.blockEnd - 1), b.begin, b.end, b.semi, i);
  }

  /** A statement run as dynamic SQL inside a routine: EXECUTE IMMEDIATE ' before it and ' after its last token. */
  function ExecuteImmediate(d: Doc, stmt: nat, last: nat): (r: Doc)
    requires d.Fits(|d.removed|) && stmt < |d.removed| && last < |d.removed|
    ensures r.Fits(|d.removed|)
  {
    Append(Prepend(d, Some(stmt), "EXECUTE IMMEDIATE '"), Some(last), "'")
  }

  /** The text of the PL/SQL block that emulates DROP TABLE ... IF EXISTS, around the statement. */
  const IfExistsOpen := "BEGIN\n   EXECUTE IMMEDIATE '"
  const IfExistsClose := "';\nEXCEPTION\n   WHEN OTHERS THEN NULL;\nEND;\n/"

  /**
   * What DROP TABLE found after DROP: the table name, CASCADE when
   * CONSTRAINTS follows it, whether IF followed the name, the `;` taken
   * after it then, whether the table is a session table, and whether the
   * statement is inside a routine.
   */
  datatype DropTable = DropTable(
    name: nat, cascade: Option<nat>, ifExists: bool, semi: Option<nat>, session: bool, inRoutine: bool)

  predicate DropTableFits(d: Doc, drop: nat, t: DropTable)
  {
    && drop < |d.removed| && t.name < |d.removed|
    && (t.cascade.Some? ==> t.cascade.value + 1 < |d.removed|)
    && Holds(d, t.semi)
  }

  /**
   * The first edits of DROP TABLE: CASCADE CONSTRAINTS removed, then the
   * statement put in a block that ignores a missing table when IF was
   * written, else IF EXISTS before the name.
   */
  function DropGuard(d: Doc, drop: nat, t: DropTable): (r: Doc)
    requires d.Fits(|d.removed|) && DropTableFits(d, drop, t)
    ensures r.Fits(|d.removed|) && r.notes == d.notes && r.text == d.text
  {
    var uncascaded := Uncascaded(d, t);
    if t.ifExists then Remove(Append(Prepend(uncascaded, Some(drop), IfExistsOpen), Some(t.name), IfExistsClose), t.semi)
    else Prepend(uncascaded, Some(t.name), "IF EXISTS ")
  }

  /** For a session table DROP becomes TRUNCATE, run as dynamic SQL inside a routine. */
  function DropSession(d: Doc, drop: nat, t: DropTable): (r: Doc)
    requires d.Fits(|d.removed|) && DropTableFits(d, drop, t)
    ensures r.Fits(|d.removed|) && r.notes == d.notes && r.removed == d.removed
  {
    if !t.session then d
    else
      var truncated := Change(d, Some(drop), "TRUNCATE");
      if t.inRoutine then ExecuteImmediate(truncated, drop, t.name) else truncated
  }

  /** The edits of DROP TABLE in the order they are made. */
  function DropTableEdit(d: Doc, drop: nat, t: DropTable): (r: Doc)
    requires d.Fits(|d.removed|) && DropTableFits(d, drop, t)
    ensures r.Fits(|d.removed|)
  {
    DropSession(DropGuard(d, drop, t), drop, t)
  }

  /** CASCADE CONSTRAINTS removal on its own. */
  function Uncascaded(d: Doc, t: DropTable): (r: Doc)
    requires d.Fits(|d.removed|) && (t.cascade.Some? ==> t.cascade.value + 1 < |d.removed|)
    ensures r.Fits(|d.removed|) && r.text == d.text && r.before == d.before && r.after == d.after && r.notes == d.notes
    ensures forall i :: 0 <= i < |d.removed| ==>
      r.removed[i] == (d.removed[i] || (t.cascade.Some? && t.cascade.value <= i <= t.cascade.value + 1))
  {
    if t.cascade.Some? then RemoveRange(d, t.cascade.value, t.cascade.value + 1) else d
  }

  lemma DropGuardIf(d: Doc, drop: nat, t: DropTable, i: nat)
    requires d.Fits(|d.removed|) && DropTableFits(d, drop, t) && t.ifExists && i < |d.removed|
    ensures var r := DropGuard(d, drop, t);
      && r.removed[i] == (d.removed[i] || (t.cascade.Some? && t.cascade.value <= i <= t.cascade.value + 1)
                          || t.semi == Some(i))
      && r.before[i] == d.before[i] + (if i == drop then [IfExistsOpen] else [])
      && r.after[i] == d.after[i] + (if i == t.name then [IfExistsClose] else [])
  {
    var u := Uncascaded(d, t);
    var withOpen := Prepend(u, Some(drop), IfExistsOpen);
    assert DropGuard(d, drop, t) == Remove(Append(withOpen, Some(t.name), IfExistsClose), t.semi);
    EditsAt(u, Some(drop), IfExistsOpen, i);
    EditsAt(withOpen, Some(t.name), IfExistsClose, i);
    EditsAt(Append(withOpen, Some(t.name), IfExistsClose), t.semi, "", i);
  }

  lemma DropGuardPlain(d: Doc, drop: nat, t: DropTable, i: nat)
    requires d.Fits(|d.removed|) && DropTableFits(d, drop, t) && !t.ifExists && i < |d.removed|
    ensures var r := DropGuard(d, drop, t);
      && r.removed[i] == (d.removed[i] || (t.cascade.Some? && t.cascade.value <= i <= t.cascade.value + 1))
      && r.before[i] == d.before[i] + (if i == t.name then ["IF EXISTS "] else [])
      && r.after[i] == d.after[i]
  {
    var u := Uncascaded(d, t);
    assert DropGuard(d, drop, t) == Prepend(u, Some(t.name), "IF EXISTS ");
    EditsAt(u, Some(t.name), "IF EXISTS ", i);
  }

  lemma DropGuardAt(d: Doc, drop: nat, t: DropTable, i: nat)
    requires d.Fits(|d.removed|) && DropTableFits(d, drop, t) && i < |d.removed|
    ensures var r := DropGuard(d, drop, t);
      && r.removed[i] == (d.removed[i] || (t.cascade.Some? && t.cascade.value <= i <= t.cascade.value + 1)
                          || (t.ifExists && t.semi == Some(i)))
      && r.before[i] == d.before[i] + (if t.ifExists && i == drop then [IfExistsOpen] else [])
                                    + (if !t.ifExists && i == t.name then ["IF EXISTS "] else [])
      && r.after[i] == d.after[i] + (if t.ifExists && i == t.name then [IfExistsClose] else [])
  {
    if t.ifExists {
      DropGuardIf(d, drop, t, i);
    } else {
      DropGuardPlain(d, drop, t, i);
    }
  }

  lemma DropSessionAt(d: Doc, drop: nat, t: DropTable, i: nat)
    requires d.Fits(|d.removed|) && DropTableFits(d, drop, t) && drop != t.name && i < |d.removed|
    ensures var r := DropSession(d, drop, t);
      && r.text[i] == (if t.session && i == drop then "TRUNCATE" else d.text[i])
      && r.before[i] == d.before[i] + (if t.session && t.inRoutine && i == drop then ["EXECUTE IMMEDIATE '"] else [])
      && r.after[i] == d.after[i] + (if t.session && t.inRoutine && i == t.name then ["'"] else [])
  {
    var truncated := Change(d, Some(drop), "TRUNCATE");
    EditsAt(d, Some(drop), "TRUNCATE", i);
    EditsAt(truncated, Some(drop), "EXECUTE IMMEDIATE '", i);
    EditsAt(Prepend(truncated, Some(drop), "EXECUTE IMMEDIATE '"), Some(t.name), "'", i);
  }

  /**
   * Token by token, DROP TABLE removes CASCADE CONSTRAINTS and the `;`
   * after an IF form, changes only DROP, to TRUNCATE for a session table,
   * and comments nothing out.
   */
  lemma DropTableRemoved(d: Doc, drop: nat, t: DropTable, i: nat)
    requires d.Fits(|d.removed|) && DropTableFits(d, drop, t) && drop != t.name && i < |d.removed|
    ensures var r := DropTableEdit(d, drop, t);
      && r.removed[i] == (d.removed[i] || (t.cascade.Some? && t.cascade.value <= i <= t.cascade.value + 1)
                          || (t.ifExists && t.semi == Some(i)))
      && r.text[i] == (if t.session && i == drop then "TRUNCATE" else d.text[i])
      && r.notes == d.notes
  {
    DropGuardAt(d, drop, t, i);
    DropSessionAt(DropGuard(d, drop, t), drop, t, i);
  }

  /**
   * What DROP TABLE splices around its tokens: the IF EXISTS block around
   * the statement, or IF EXISTS before the name, and EXECUTE IMMEDIATE
   * quotes around a session table's TRUNCATE inside a routine.
   */
  lemma DropTableSplices(d: Doc, drop: nat, t: DropTable, i: nat)
    requires d.Fits(|d.removed|) && DropTableFits(d, drop, t) && drop != t.name && i < |d.removed|
    ensures var r := DropTableEdit(d, drop, t);
      && r.before[i] == d.before[i] + (if t.ifExists && i == drop then [IfExistsOpen] else [])
                                    + (if !t.ifExists && i == t.name then ["IF EXISTS "] else [])
                                    + (if t.session && t.inRoutine && i == drop then ["EXECUTE IMMEDIATE '"] else [])
      && r.after[i] == d.after[i] + (if t.ifExists && i == t.name then [IfExistsClose] else [])
                                  + (if t.session && t.inRoutine && i == t.name then ["'"] else [])
  {
    DropGuardAt(d, drop, t, i);
    DropSessionAt(DropGuard(d, drop, t), drop, t, i);
  }

  /** Dynamic SQL only quotes the statement: EXECUTE IMMEDIATE ' before its first token and ' after its last. */
  lemma ExecuteImmediateAt(d: Doc, stmt: nat, last: nat, i: nat)
    requires d.Fits(|d.removed|) && stmt < |d.removed| && last < |d.removed| && i < |d.removed|
    ensures var r := ExecuteImmediate(d, stmt, last);
      && r.removed == d.removed && r.text == d.text && r.notes == d.notes
      && r.before[i] == d.before[i] + (if i == stmt then ["EXECUTE IMMEDIATE '"] else [])
      && r.after[i] == d.after[i] + (if i == last then ["'"] else [])
  {
    EditsAt(d, Some(stmt), "EXECUTE IMMEDIATE '", i);
    EditsAt(Prepend(d, Some(stmt), "EXECUTE IMMEDIATE '"), Some(last), "'", i);
  }
}
