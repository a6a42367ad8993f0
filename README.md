# Oracle-to-MySQL statement layer, modelled in Dafny

This project models the statement layer of an Oracle-to-MySQL/MariaDB SQL
converter (`Parser/statements.cpp`). The layer is a recursive-descent parser.
It walks a lexed token stream with a cursor and pushback, and it rewrites the
stream in place:

- it changes the text of tokens;
- it marks tokens or token ranges removed;
- it attaches text before or after tokens;
- it comments statements out;
- it records bookmarks, which later statements use to edit earlier ones.

The files follow the program's structure:

| file | module | contents |
|---|---|---|
| `tokens.dfy` | `Tokens` | `Option`, case-insensitive word equality (`SameWord`), identifiers, splitting `table.column` names |
| `document.dfy` | `Document` | the rewritten stream `Doc` and its edit operations (`Remove`, `RemoveRange`, `Change`, `Prepend`, `Append`, copies, `Comment`) with their per-token meaning |
| `scans.dfy` | `Scans` | leading keywords, CREATE object keywords, and the option runs of ALTER INDEX, CREATE VIEW and function options |
| `books.dfy` | `Bookmarks` | the bookmark keys and what CREATE TABLE records under them |
| `rewrites.dfy` | `Rewrites` | the two DML rewrites: multi-row INSERT ... VALUES and UPDATE list assignments |
| `edits.dfy` | `Edits` | the edits of COMMENT ON, CREATE TYPE, trigger and function bodies, DROP TABLE and TRUNCATE |
| `parser.dfy` | `Statements` | the `Parser` class: cursor, document, bookmarks, scopes and routine state, and one method per handler |

How the model is built:

- **Tokens.** A token is a position in the constant stream `src`, and a null
  token is `None`. `pos` is the position of the next token to be taken.
  `GetNextWordToken` and `GetNextCharToken` take a token only when it matches,
  ignoring case. `PushBack(t)` makes `t` the next token again.
- **Edits.** Every handler states its new document as one of the `Edits` or
  `Rewrites` functions of the old document. Lemmas then say what that function
  does to each token.
- **Sub-grammars.** The sub-grammars defined outside this file are expression,
  data type, SELECT, WHERE, block, constraints and the trigger pattern. They
  are represented only by how far they read. That extent comes from the
  constant table `grammar`, and it never moves the cursor backward or past the
  end.
- **External helpers.** Emitters and lifecycle helpers defined elsewhere are
  appended to the call log `calls` when the handler calls them.
- **Missing checks on null.** The source reads through a token without
  checking it in two places: DROP TABLE with nothing after the table name, and
  a function parameter without a data type. There the model sets `fault`.

## Model

| member | source | states |
|---|---|---|
| Statements.Parser.ParseStatement | Parser/statements.cpp:7-47 | A null token or an unknown leading keyword returns false and changes nothing. Otherwise the kind is the one of the leading keyword; the returned flag, document, bookmarks, call log, routine state and fault flag are those `StatementDone` gives for that kind's handler, and the scopes, object scope and statement scope those `ScopesDone` gives: the statement scope is kept, only INSERT may push the values scope (exactly when VALUES was read and the statement failed), only CREATE may leave the object scope its modifiers selected (when no object keyword follows them), and only DROP may raise the fault flag (`DropFault`). The rows, assignments, column items, index columns and trigger and function bodies are the ones the stream functions read. One following `;` is then taken whether or not the handler succeeded, with no further edit. |
| Statements.Parser.ParseKnownStatement | Parser/statements.cpp:16-46 | For a known leading keyword: the handler's effect on every part of the state as `StatementDone` and `ScopesDone` give it, and then one following `;` taken. |
| Statements.Parser.RunHandler | Parser/statements.cpp:16-38 | ALTER, COMMENT, CREATE, DROP, INSERT and UPDATE each run their own handler, whose success condition, edits, routine state, fault flag and read structures (`InsertDone` with the head of `InsertHead` and the rows of `RowsFrom`, `UpdateDone` with the assignments of `AssignsFrom`, `CreateDone`, `DropDone`) are relayed per kind; ALTER, COMMENT and DROP touch neither the bookmarks, the call log nor the routine state. The scopes, object scope and statement scope change only as `ScopesDone` says. |
| Statements.Parser.RunAlter | Parser/statements.cpp:16-17 | The ALTER handler's effect as `StatementDone` gives it, with no scope and no fault change. |
| Statements.Parser.RunComment | Parser/statements.cpp:20-21 | The COMMENT handler's effect as `StatementDone` gives it, with no scope and no fault change. |
| Statements.Parser.RunCreate | Parser/statements.cpp:24-25 | The CREATE handler's effect (`CreateDone`, including the routine state of `ObjectRoutine`), with the object scope left as the modifiers selected it only when no object keyword follows them. |
| Statements.Parser.RunDrop | Parser/statements.cpp:28-29 | The DROP handler's effect (`DropDone`, with its cursor end), the fault flag becoming `DropFault`. |
| Statements.Parser.RunInsert | Parser/statements.cpp:32-33 | The INSERT handler's effect (`InsertDone`), the values scope pushed exactly when VALUES was read and the statement failed. |
| Statements.Parser.RunUpdate | Parser/statements.cpp:36-37 | The UPDATE handler's effect (`UpdateDone`), with no scope and no fault change. |
| Statements.Parser.ParseCreateStatement | Parser/statements.cpp:50-168 | At the end of the stream it returns false with nothing changed. Otherwise a FORCE, EDITIONABLE or NONEDITIONABLE modifier is removed, and then the document, bookmarks, call log, routine state and cursor are the chosen object handler's (`CreateDone`, through `ObjectDone` and `ObjectRoutine`): INDEX, TABLE, TRIGGER, TYPE and VIEW with their own success conditions and edits (a failed CREATE TABLE keeping the start and column bookmarks it set, a created table becoming the routine's last statement, TRIGGER clearing the routine), TABLESPACE and unknown words failing with nothing more changed. GLOBAL makes the handler run in the temporary-table scope and CREATE TABLE keeps it; INDEX runs in the index scope and TABLE otherwise in the table scope. The scopes are kept; the object scope is restored on every path that reaches the router, and left as set when the stream ends after the modifiers. |
| Statements.Parser.ParseCreateObject | Parser/statements.cpp:58-168 | Before the end of the stream: the head is read as `HeadRead` describes and the effect is `CreateDone` from the token after CREATE, the scopes kept, and the handler scope chosen by INDEX, TABLE and GLOBAL. |
| Statements.Parser.CreateAfterHead | Parser/statements.cpp:101-168 | Once the head is read: the object scope the modifiers select, the dropped modifier removed, and then no handler when no object keyword follows (false, nothing more changed) or the handler's effect (`CreateDone`). |
| Statements.Parser.NoObjectCreateDone | Parser/statements.cpp:101-128 | When the modifiers run to the end of the stream, CREATE fails having only removed the dropped modifier. |
| Statements.Parser.DispatchCreateObject | Parser/statements.cpp:127-168 | With an object keyword after the head, the effect stated by `CreateDone`: the handler's `ObjectDone` on the document with the dropped modifier removed, and the routine state of `ObjectRoutine`. |
| Statements.Parser.ReadCreateHead | Parser/statements.cpp:60-125 | The modifiers are read as `HeadRead` describes, the token to drop is in the stream, and the cursor ends after the object keyword, or at the end of the stream when none comes. |
| Statements.Parser.ReadFirstModifier | Parser/statements.cpp:70-98 | OR [REPLACE], UNIQUE, GLOBAL [TEMPORARY] and PUBLIC are recognised in that order of precedence. Each is followed by one more taken token, and the cursor ends exactly there. |
| Statements.Parser.ReadSecondModifier | Parser/statements.cpp:101-125 | FORCE, EDITIONABLE and NONEDITIONABLE are marked to be dropped, and otherwise MATERIALIZED is recorded. Only then is the next token taken. |
| Statements.Parser.ModifierEnd | Parser/statements.cpp:70-98 | The first group of modifiers spans at most two tokens after its first word. |
| Statements.Parser.DispatchCreate | Parser/statements.cpp:133-163 | The document, bookmarks, call log and cursor are the chosen object handler's (`ObjectDone`), with the TABLE items of `TableBody` and its bookmarks on success and on failure, the INDEX columns and end of `IndexBodyFrom` and the TRIGGER body read where `TriggerHeaderEnd` puts it; the routine state becomes `ObjectRoutine` and the scopes are kept. INDEX runs in the index scope, TABLE in the table scope unless temporary. TABLESPACE and unknown words fail, read only the keyword and edit nothing. |
| Statements.Parser.DispatchCreateIndex | Parser/statements.cpp:133-137 | INDEX runs in the index scope with the index handler's effect (`ObjectDone`) and routine state (`ObjectRoutine`). |
| Statements.Parser.DispatchCreateTable | Parser/statements.cpp:140-147 | TABLE runs in the table scope, or the temporary one when it was set, with the table handler's effect (`ObjectDone`) and routine state (`ObjectRoutine`). |
| Statements.Parser.TableObjectDone | Parser/statements.cpp:140-147 | A CREATE TABLE run as `TableDone` describes, leaving the document as it was, is the TABLE case of `ObjectDone`. |
| Statements.Parser.DispatchCreateOther | Parser/statements.cpp:152-163 | TRIGGER, TYPE and VIEW run their own handler with that handler's effect (`ObjectDone`) and routine state (`ObjectRoutine`); for TYPE the registered type end is the last token of the data type. |
| Statements.Parser.ParseAlterStatement | Parser/statements.cpp:171-196 | At the end of the stream it returns false and changes nothing. A word other than TABLE or INDEX is taken and returns false with no edit. TABLE has the effect `TableAltered` states and INDEX the one `IndexAltered` states, and the statement scope is back to its entry value. |
| Statements.Parser.ReadDropCascade | Parser/statements.cpp:235-237 | After an optional PRIMARY and then an optional KEY, the CASCADE at exactly that position is returned when present, and None otherwise. |
| Statements.Parser.ParseAlterTableStatement | Parser/statements.cpp:199-248 | Succeeds iff a table name and one more token follow. The only edit is the removal of the CASCADE of `DROP [PRIMARY] [KEY] CASCADE`, at the position `CascadeAt` gives after DROP, and nothing is removed when the token after the name is not DROP. |
| Statements.Parser.DropPrimaryKeyCascade | Parser/statements.cpp:232-241 | In `DROP PRIMARY KEY CASCADE` the CASCADE removed is the third word after DROP. |
| Statements.Parser.ReadIndexOption | Parser/statements.cpp:264-295 | A NOPARALLEL, or a PARALLEL with its argument, is taken and counted once, and the loop goes on at `OptionNext`. Any other token is pushed back and ends the loop. |
| Statements.Parser.ScanIndexOptions | Parser/statements.cpp:262-296 | The loop reads exactly the option run `IndexOptions` describes and stops before the first other token. |
| Statements.Parser.ParseAlterIndexStatement | Parser/statements.cpp:251-311 | Always true. When at least one NOPARALLEL or PARALLEL n option was read, ALTER through a following `;` (else the last option) is commented out; otherwise nothing is edited. |
| Statements.Parser.ReadCommentHead | Parser/statements.cpp:323-340 | Fails iff ON or the type token is missing. It states the exact positions of the optional name, the optional IS and the text. |
| Statements.Parser.ParseCommentStatement | Parser/statements.cpp:314-383 | Fails iff ON or the type is missing, and then nothing is edited. TABLE: the edit `CommentOnTable`. COLUMN: the edit `CommentOnColumn` at the column's `BOOK_CTC_END` bookmark, which comments the statement through `;` or its last token. Any other type: no edit. The cursor ends after the text, and after a following `;` for COLUMN. |
| Statements.Parser.RewriteComment | Parser/statements.cpp:342-376 | TABLE (and only TABLE) is rewritten by `CommentOnTable`, COLUMN by `CommentOnColumn` at the bookmark the qualified name finds, and any other type is left unedited. |
| Statements.Parser.MoveColumnComment | Parser/statements.cpp:354-376 | The edit `CommentOnColumn` at the column's bookmark. The statement is commented through a following `;`, which is taken, or else through the text. |
| Edits.CommentOnTableEffect | Parser/statements.cpp:343-351 | COMMENT becomes ALTER, ON is removed, IS becomes COMMENT, and nothing else changes. |
| Edits.CommentOnColumnEffect | Parser/statements.cpp:362-375 | " COMMENT " and a copy of the text go after the bookmarked token only if there is one. The statement note "Moved to CREATE TABLE" is added either way. |
| Bookmarks.CommentFindsColumn | Parser/statements.cpp:363 | The `table.column` name of COMMENT ON COLUMN finds the key under which CREATE TABLE bookmarked that column (line 508), ignoring case. |
| Tokens.SplitJoin | Parser/statements.cpp:363 | Splitting `owner.column` at its last dot gives back owner and column. |
| Tokens.LastDot | Parser/statements.cpp:363 | It is the position of the last `.` of the name, or None when there is no dot. |
| Statements.Parser.ReadColumn | Parser/statements.cpp:488-505 | A column is read iff an identifier comes. It records the name, whether the type token is SERIAL, and the last token of its constraints. |
| Statements.Parser.ReadColumnItem | Parser/statements.cpp:480-511 | Either a standalone constraint, or a column whose last token is bookmarked under (table, column). Nothing is read when neither comes. |
| Statements.Parser.ColumnsReadGrow | Parser/statements.cpp:477-528 | Items read from a token range were read from any range around it. |
| Statements.Parser.ColumnsReadAt | Parser/statements.cpp:477-528 | Every item of the column list lies in the range the list was read from. |
| Statements.Parser.ParseCreateTableColumns | Parser/statements.cpp:471-531 | The items, whether the list ended in `, )` and where it ends are exactly `ColumnsFrom` of the start: items are read while each is followed by a comma not followed by `)`. True iff at least one item was read. The bookmarks are exactly `ColumnBooks` of the items, and the identity column is the last SERIAL column. |
| Statements.Parser.ColumnItemAt | Parser/statements.cpp:479-511 | No item iff neither a standalone constraint nor an identifier comes; otherwise the item and its end are read as `ColumnRead` states. |
| Statements.Parser.ColumnsFrom | Parser/statements.cpp:477-528 | The list is empty iff no item starts there; a list cut by `, )` ends right before the `)`, after the comma. |
| Statements.Parser.ColumnsNext | Parser/statements.cpp:477-528 | One item and the separator after it either end the list as `ColumnsFrom` reads it or leave the rest of it to read. |
| Statements.Parser.ReadColumnEntry | Parser/statements.cpp:479-511 | One item, as `ColumnItemAt` gives it, is appended; the bookmarks and the identity column follow the items. |
| Statements.Parser.ReadColumnStep | Parser/statements.cpp:477-528 | One pass of the loop: the list goes on after a comma not followed by `)`, and otherwise the items and the cursor are the whole of `ColumnsFrom`. |
| Statements.Parser.ReadColumnSeparator | Parser/statements.cpp:516-527 | The list goes on after a comma not followed by `)`. `, )` is a trailing comma with the `)` pushed back, and without a comma nothing is taken. |
| Bookmarks.ColumnItemSnoc | Parser/statements.cpp:477-528 | One more list item adds only its own bookmark, and a SERIAL column becomes the identity column. |
| Statements.Parser.ColumnsReadSnoc | Parser/statements.cpp:477-528 | The items read so far, plus the next item, were all read from the range up to the cursor. |
| Bookmarks.ColumnBooksKeep | Parser/statements.cpp:508 | Column bookmarks leave every other key unchanged. |
| Bookmarks.ColumnBookFound | Parser/statements.cpp:508 | Each column's key holds the last token of its last definition. |
| Bookmarks.IdentityColumnRecorded | Parser/statements.cpp:498-499 | An identity column is recorded iff some column has type SERIAL, and it is the last such column. |
| Statements.Parser.ReadTableBody | Parser/statements.cpp:417-447 | Exactly `TableBody` of the start. AS [( )] is the CREATE TABLE AS form and needs no column list. Otherwise `(` and a `)` where `ColumnsFrom` ends the list are required, and `)` is bookmarked as `BOOK_CTC_ALL_END`. |
| Statements.Parser.TableBody | Parser/statements.cpp:417-447 | Well formed iff AS, or `(` and a `)` where the column list ends; the `)` is present iff the column form closed, and it is the last token of the part. |
| Statements.Parser.ReadColumnList | Parser/statements.cpp:429-446 | `(`, the columns and `)` as `TableBody` gives them; `)` is bookmarked as `BOOK_CTC_ALL_END`; fails without `(` or `)`. |
| Statements.Parser.ReadColumnsClosed | Parser/statements.cpp:433-446 | The items of `ColumnsFrom`, then `)` iff it stands where the list ends, bookmarked as `BOOK_CTC_ALL_END`. |
| Statements.Parser.FinishCreateTable | Parser/statements.cpp:449-465 | An optional `;`, then the `BOOK_CT_END` bookmark on the last token. Identity emulation is requested iff a SERIAL column was found. The first and last statement of the routine are updated. |
| Statements.Parser.ParseCreateTable | Parser/statements.cpp:386-531 | Fails at once without a name, with the bookmarks unchanged. It succeeds iff AS follows the name, or `(` follows it and `)` stands where `ColumnsFrom` ends the list. The items, the `)` and the end are `TableBody`'s, the end taking an optional `;` on success. On success the bookmarks are `TableBooks`, with `BOOK_CT_END` on the last token, and identity emulation is logged iff a column is SERIAL. On failure after the name the bookmarks are the start bookmark on CREATE plus one end bookmark per column read (`ColumnBooks`), and the routine state and call log are unchanged. |
| Bookmarks.TableBooksFound | Parser/statements.cpp:402-454 | After CREATE TABLE, the start, end, column-list end and every column's end can be looked up. |
| Statements.Parser.ReadIndexColumn | Parser/statements.cpp:579-601 | An identifier, then the cursor ends at `IndexColumnEnd` (past its expression and an optional ASC or DESC) and past a comma when one stands there. A token that is no comma is pushed back. |
| Statements.Parser.ReadIndexColumns | Parser/statements.cpp:577-602 | The columns and the end are exactly `IndexColumnsFrom` of the start: identifiers in stream order, each after the first preceded by a comma. The list is empty iff no identifier comes. |
| Statements.Parser.IndexColumnEnd | Parser/statements.cpp:585-594 | An index column ends past its first token, its expression and an optional ASC or DESC. |
| Statements.Parser.IndexColumnsFrom | Parser/statements.cpp:577-602 | The list is empty iff no identifier comes, and then ends where it starts; otherwise it starts with that identifier. |
| Statements.Parser.IndexColumnsNext | Parser/statements.cpp:577-602 | One column and the comma after it either end the list as `IndexColumnsFrom` reads it or leave the rest of it to read. |
| Statements.Parser.ReadIndexStep | Parser/statements.cpp:577-602 | One pass of the loop keeps the columns comma-listed, and when it stops the columns and cursor are the whole of `IndexColumnsFrom`. |
| Statements.Parser.CommaListedGrow | Parser/statements.cpp:577-602 | A column list read from a range was read from any range around it. |
| Statements.Parser.CommaListedAt | Parser/statements.cpp:577-602 | Each listed column is an identifier inside the range, after the previous one and directly after a comma. |
| Statements.Parser.ReadIndexTable | Parser/statements.cpp:564-567 | ON is optional, and the table must be an identifier. |
| Statements.Parser.ReadIndexBody | Parser/statements.cpp:564-607 | Exactly `IndexBodyFrom` of the start: the table after an optional ON, then the column list of `IndexListFrom`, which is empty when the table is missing. |
| Statements.Parser.IndexBodyFrom | Parser/statements.cpp:564-607 | The part never moves back, and lists no columns without a table. |
| Statements.Parser.IndexListFrom | Parser/statements.cpp:573-607 | An optional `(`, the columns, an optional `)` and the index options never move back. |
| Statements.Parser.ReadIndexList | Parser/statements.cpp:573-607 | Exactly `IndexListFrom`: an optional `(`, the comma-listed columns, an optional `)` and the index options. |
| Statements.Parser.ParseCreateIndex | Parser/statements.cpp:545-615 | Fails iff the index or the table name is missing. `BOOK_CI_START` is set once the name is read. On success the columns and the end are `IndexBodyFrom`'s, and `BOOK_CI_END` is on the last token the index options read. |
| Statements.Parser.ParseNamedIndex | Parser/statements.cpp:561-614 | After the name: `BOOK_CI_START` is set, the body is `IndexBodyFrom`'s, and `BOOK_CI_END` is set on the last token read iff the table came. |
| Statements.Parser.ReadTypeHead | Parser/statements.cpp:1168-1181 | The name, the data type token, and where the data type and the constraints end. |
| Statements.Parser.ParseCreateType | Parser/statements.cpp:1159-1198 | Fails only at the end of the stream, changing nothing. Otherwise it logs `_udt.Add(name, datatype, type_end)` with type_end the last token of the data type, applies `CreateTypeEdit`, and ends past the column constraints and an optional `;`. |
| Edits.CreateTypeEffect | Parser/statements.cpp:1189-1194 | " OR REPLACE" goes after CREATE and "\n/" after the last token, and nothing else changes. |
| Statements.Parser.ReadViewHead | Parser/statements.cpp:1209-1237 | The view name must be an identifier, and without one nothing is taken. After it the cursor is at `ViewHeadEnd`: past the `(` column list, which ends at the first token that is no identifier or no comma after one, past its `)`, and past AS. |
| Statements.Parser.ReadViewColumns | Parser/statements.cpp:1216-1231 | The column-list loop stops exactly at `ViewColumnsEnd`. |
| Statements.Parser.ViewColumnsEnd | Parser/statements.cpp:1216-1231 | The list never moves back, and it is empty when no identifier comes. |
| Statements.Parser.ReadViewOption | Parser/statements.cpp:1243-1269 | WITH READ ONLY is taken whole. A WITH without READ ONLY is pushed back, and any other token is taken. |
| Statements.Parser.StripViewOptions | Parser/statements.cpp:1241-1270 | The maximal run of WITH READ ONLY options is removed (`ViewOptions`), and the token after the run is taken unless it is WITH. |
| Scans.ViewOptions | Parser/statements.cpp:1241-1270 | Every third token from the start of the run begins a WITH READ ONLY option, and the run ends at a token that does not. |
| Document.RemoveSpanAt | Parser/statements.cpp:1259 | Removing a span marks exactly the tokens inside it. |
| Document.RemoveSpanThenRange | Parser/statements.cpp:1259 | Removing one more option after a removed span is the same as removing the longer span. |
| Statements.Parser.ParseCreateView | Parser/statements.cpp:1201-1290 | Fails iff no name comes. The only edit is the removal of the option run. |
| Statements.Parser.ReadTriggerTiming | Parser/statements.cpp:823-837 | BEFORE, AFTER or INSTEAD [OF], and nothing is taken otherwise. The cursor ends at `TimingEnd`. |
| Statements.Parser.TimingEnd | Parser/statements.cpp:823-837 | The timing clause never moves back. |
| Statements.Parser.ReadTriggerEvents | Parser/statements.cpp:845-885 | The events are INSERT, DELETE or UPDATE, the first at the cursor and each later one right after a comma, with `UPDATE OF` columns skipped. The list is empty iff no event comes, and the cursor stops at the first token that continues no list (`EventList`). |
| Statements.Parser.EventsLoopNext | Parser/statements.cpp:845-885 | One event and the comma after it either end the list as `EventsFrom` reads it or leave the rest of it to read. |
| Statements.Parser.ReadTriggerEvent | Parser/statements.cpp:849-883 | An event is taken iff one comes. Then the cursor is past it, its `UPDATE OF` columns and a following comma, whose presence is `more`. Otherwise nothing is taken. |
| Statements.Parser.EventsListed | Parser/statements.cpp:845-885 | The events `EventsFrom` collects form an `EventList`: stream order, a comma before each later event, empty iff no event comes. |
| Statements.Parser.EventsConsListed | Parser/statements.cpp:845-885 | An event followed by a comma and a list is again a list. |
| Statements.Parser.SkipUpdateColumns | Parser/statements.cpp:862-873 | After OF, the columns are identifiers separated by commas, and the cursor stops at `UpdateColumnsEnd`. Without OF nothing is taken. |
| Statements.Parser.ReadReferencing | Parser/statements.cpp:891-934 | After REFERENCING, the cursor and the NEW and OLD correlation names of the routine are exactly those `Correlations` gives, and no other routine field changes; the cursor is `CorrelationsEnd`. Without REFERENCING nothing changes. |
| Statements.Parser.ReadCorrelation | Parser/statements.cpp:896-933 | One NEW, OLD or OLD_TABLE item is read exactly as `CorrelationStep` gives it. Any other token is pushed back. |
| Statements.Parser.Correlations | Parser/statements.cpp:891-934 | A correlation name that changes is a token inside the list, or absent at the end of the stream. |
| Statements.Parser.CorrelationsEnd | Parser/statements.cpp:891-934 | The correlation list never moves back. |
| Statements.Parser.CorrelationsEndSame | Parser/statements.cpp:891-934 | Where the REFERENCING list ends does not depend on the correlation names known before it: `Correlations` ends at `CorrelationsEnd`. |
| Statements.Parser.ReadTriggerCondition | Parser/statements.cpp:937-963 | After FOR EACH ROW or STATEMENT, a WHEN condition is read as a boolean expression, and the cursor ends at its end. The scope stack is balanced. |
| Statements.Parser.ReadForEach | Parser/statements.cpp:937-949 | EACH only after FOR, ROW only after EACH, and STATEMENT where ROW did not come (`ForEachEnd`). |
| Statements.Parser.ReadTriggerHeader | Parser/statements.cpp:823-963 | The cursor ends at `TriggerHeaderEnd`: timing, events, ON and the table, REFERENCING and its correlations, FOR EACH and WHEN with its condition. The table after ON is an identifier. Only the NEW and OLD correlation names of the routine change, and the scope stack is balanced. |
| Statements.Parser.TriggerHeaderEnd | Parser/statements.cpp:823-963 | The header never moves back. |
| Statements.Parser.TriggerTargetEnd | Parser/statements.cpp:823-889 | Timing, events, ON and the table never move back. |
| Statements.Parser.TriggerTailEnd | Parser/statements.cpp:891-963 | REFERENCING, FOR EACH and WHEN never move back. |
| Statements.Parser.ReadTriggerTarget | Parser/statements.cpp:823-889 | The cursor ends at `TriggerTargetEnd`, and the table is an identifier inside what was read. |
| Statements.Parser.ReadTriggerFiring | Parser/statements.cpp:823-885 | The cursor ends where the events of `EventsFrom` end, after the timing of `TimingEnd`. |
| Statements.Parser.ReadTriggerTable | Parser/statements.cpp:888-889 | An optional ON, then the table iff an identifier comes; the cursor ends past it. |
| Statements.Parser.ReadTriggerTail | Parser/statements.cpp:891-963 | The cursor ends at `TriggerTailEnd`; only the NEW and OLD correlation names change, and the scope stack is balanced. |
| Statements.Parser.ReadTriggerPattern | Parser/statements.cpp:981-996 | BEGIN, the removed range and the cursor are exactly `TriggerPatternFrom` of the start: the removal happens exactly when the `TriggerPattern` grammar matches and END or `;` comes after it. CREATE through the `;` after END, or END itself, is removed, and nothing else. |
| Statements.Parser.TriggerPatternFrom | Parser/statements.cpp:981-996 | The pattern check never moves back. |
| Statements.Parser.RemoveMatchedTrigger | Parser/statements.cpp:990-995 | END and `;` are taken when they come, and CREATE through the later of them is removed; nothing is removed when neither comes. |
| Statements.Parser.ReadTriggerBlock | Parser/statements.cpp:998-1019 | The block ends where the Block grammar stops. The document gains the END the block lacks, loses the outer label after END, and gains the closing `;`, as `EndBlock` and `EndSemicolon` state. |
| Statements.Parser.CloseTriggerEnd | Parser/statements.cpp:1009-1019 | A `;`, or the name or outer label (which is removed) and then `;`. An END still without `;` gets one appended. |
| Statements.Parser.ParseCreateTriggerBody | Parser/statements.cpp:978-1026 | The body starts at the cursor, and BEGIN, the removed range and the block end are those `TriggerPatternFrom` and the Block grammar give (`TriggerBodyAt`). The document becomes `TriggerBodyEdit`: pattern removal, END added when BEGIN and END are both missing, and the closing `;`. |
| Edits.TriggerBodyRemoved | Parser/statements.cpp:985-1019 | The tokens removed are the pattern range and the outer label after END, and no others. |
| Edits.TriggerBodyAfter | Parser/statements.cpp:1002-1019 | "\nEND;" follows the block's last token iff BEGIN and END are both missing, and ";" follows an END not followed by `;`. |
| Edits.CloseBodyEffect | Parser/statements.cpp:1800-1824 | The same two additions for a routine body, and nothing else. |
| Statements.Parser.ParseCreateTrigger | Parser/statements.cpp:794-976 | CREATE becomes CREATE OR REPLACE unless OR was written. Without a name it fails with the routine set to a trigger started at CREATE. Otherwise the body starts where `TriggerHeaderEnd` ends the header, is read as `TriggerBodyAt` says, the body edit follows, and the routine is reset again. |
| Statements.Parser.StartTrigger | Parser/statements.cpp:802-809 | The routine is cleared and set to a trigger started at CREATE, and CREATE becomes CREATE OR REPLACE unless OR was written. |
| Statements.Parser.ParseNamedTrigger | Parser/statements.cpp:812-975 | After the name: the body starts where `TriggerHeaderEnd` ends the header and is read as `TriggerBodyAt` says, the document gets `TriggerBodyEdit`, and the routine is cleared again. |
| Statements.Parser.ParseTriggerBodyAndClear | Parser/statements.cpp:967-973 | The body is read from the cursor as `TriggerBodyAt` says and edited by `TriggerBodyEdit`; then the copy and the routine are cleared. |
| Statements.Parser.ParseSplEndName | Parser/statements.cpp:1697-1728 | True iff the next token repeats the routine name or its outer label. Only the label is removed. Anything else is pushed back. |
| Statements.Parser.ParseFunctionOptions | Parser/statements.cpp:1751-1775 | The maximal run of DETERMINISTIC is taken. True iff there was one. |
| Scans.SkipRun | Parser/statements.cpp:1755-1772 | Every token in the run is the word, and the run ends at a token that is not. |
| Statements.Parser.ParseFunctionReturns | Parser/statements.cpp:1731-1748 | False only at the end of the stream. The token is taken whatever it is, and RETURN is followed by its data type. |
| Statements.Parser.ReadParameterMode | Parser/statements.cpp:707-720 | IN, IN OUT or OUT is taken, and any other token is pushed back. |
| Statements.Parser.ReadParameterEnd | Parser/statements.cpp:738-769 | DEFAULT takes its value, and a comma means more parameters follow. |
| Statements.Parser.ReadParameter | Parser/statements.cpp:699-736 | A parameter needs an identifier name. A type not given as %TYPE is propagated to the name. A missing type there sets `fault` and stops, which happens only at the end of the stream. |
| Statements.Parser.ParseFunctionParameters | Parser/statements.cpp:686-775 | The parameters are identifiers inside the list. Every new type entry maps a parameter name to a later type token. The `)` is recorded as the parameter close. `fault` is never cleared, and is raised only when the stream ends inside the list. |
| Statements.Parser.ReadEndSemicolon | Parser/statements.cpp:1807-1819 | Exactly `EndSemicolonFrom`: `;`, or the routine name then `;`. Anything else is pushed back. |
| Statements.Parser.EndSemicolonFrom | Parser/statements.cpp:1807-1819 | The `;` is found only when it is the last token taken, and the cursor never moves back. |
| Statements.Parser.ReadRoutineBlock | Parser/statements.cpp:1783-1798 | Exactly `RoutineBlockFrom`: a BEGIN before the declarations is taken and forgotten, `begin` is the BEGIN after them, and the block ends where the Block grammar stops. The routine state is unchanged. |
| Statements.Parser.RoutineBlockFrom | Parser/statements.cpp:1783-1798 | `begin`, when there is one, is a BEGIN inside the part read, and the part never moves back. |
| Statements.Parser.CloseRoutineBody | Parser/statements.cpp:1800-1824 | END when it comes, then the `;` of `EndSemicolonFrom`. END is added after the block when BEGIN and END are both missing, and the closing `;` as in `CloseBodyEffect`. |
| Statements.Parser.RoutineBodyEnd | Parser/statements.cpp:1800-1824 | The cursor after a routine body never moves back from the block end. |
| Statements.Parser.ParseFunctionBody | Parser/statements.cpp:1778-1833 | The body is read from the cursor as `RoutineBodyAt` states, and the cursor ends at `RoutineBodyEnd`. The document becomes `RoutineBodyEdit`. BEGIN-after-declare moving and generated variables are then requested with the body start. |
| Statements.Parser.SplPostActions | Parser/statements.cpp:778-791 | IF-SELECT declarations are requested iff some were moved. Then the copy and the routine state are cleared. |
| Statements.Parser.ReadFunctionSignature | Parser/statements.cpp:648-664 | After the parameters, returns and options, AS or else IS is taken, and the returned token is the one taken; when none is returned, neither AS nor IS stands where the cursor stops. `fault` is never cleared, and is raised only when the stream ends inside the parameter list. |
| Statements.Parser.FinishFunction | Parser/statements.cpp:669-680 | Data type sizes, the optional `/` (the cursor moves past it exactly when it comes), post actions, and the routine state is cleared. |
| Statements.Parser.ParseCreateFunction | Parser/statements.cpp:618-683 | Fails iff no name comes, leaving a function routine started at CREATE with nothing else changed. Otherwise the body is read from where the signature ends as `FunctionRead` states, the AS or IS token passed to the BEGIN move is the one just before the body (and when none is passed, neither word starts the body), the cursor ends past the body and an optional `/`, a raised `fault` means the stream ended inside the parameters, the document becomes `FunctionEdit`, the whole call sequence is logged, and the routine is cleared. |
| Statements.Parser.ParseNamedFunction | Parser/statements.cpp:637-682 | After the name: the body is read from where the signature ends (`FunctionRead`), the AS or IS token passed to the BEGIN move is the one just before the body (or neither word stands there), and the cursor ends past the body and an optional `/`; the document becomes `FunctionEdit` (CREATE OR REPLACE, PROCEDURE for a configured name, the body edits), the body and finish calls are logged in order, and the routine is cleared. |
| Edits.FunctionEffect | Parser/statements.cpp:618-683 | CREATE becomes CREATE OR REPLACE, and FUNCTION becomes PROCEDURE iff the name is configured for it. The body additions are made, and nothing is removed. |
| Statements.Parser.ReadDropTail | Parser/statements.cpp:1066-1093 | The token after the name is taken. IF starts the guarded form, with a following `;`. CASCADE CONSTRAINTS is taken whole. |
| Statements.Parser.ParseDropTable | Parser/statements.cpp:1051-1123 | Succeeds iff a name and one more token follow. Without a name the cursor stays; with a name and no success it ends after the name; on success after the name, the token after it and an optional CASCADE CONSTRAINTS or `;`. `fault` becomes raised exactly when it was, or when the name is the last token. Every field of the resulting edit is derived from the tokens, the session tables and the routine scope. |
| Edits.Uncascaded | Parser/statements.cpp:1075-1080 | CASCADE CONSTRAINTS is removed as a range, and nothing else. |
| Edits.DropGuardIf | Parser/statements.cpp:1083-1094 | The IF form wraps DROP in BEGIN EXECUTE IMMEDIATE '...'; EXCEPTION ... END; / and removes the following `;`. |
| Edits.DropGuardPlain | Parser/statements.cpp:1095-1098 | Without IF, "IF EXISTS " is put before the name and nothing else is spliced. |
| Edits.DropGuardAt | Parser/statements.cpp:1083-1098 | The two forms combined, per token. |
| Edits.DropSessionAt | Parser/statements.cpp:1102-1120 | For a session table, DROP becomes TRUNCATE. Inside a procedure, function or trigger it is also wrapped in EXECUTE IMMEDIATE '...'. |
| Scans.FirstMatch | Parser/statements.cpp:1102-1120 | It is the first session table equal to the name, ignoring case, or None iff there is none. |
| Edits.DropTableRemoved | Parser/statements.cpp:1064-1120 | Removed tokens and changed text of the whole DROP TABLE rewrite. |
| Edits.DropTableSplices | Parser/statements.cpp:1083-1120 | Text before and after each token for the whole DROP TABLE rewrite, in the order the source adds it. |
| Statements.Parser.ParseDropTrigger | Parser/statements.cpp:1126-1156 | True iff a name comes. No edit, since the IF EXISTS branch cannot run. |
| Statements.Parser.ParseDropStatement | Parser/statements.cpp:1028-1049 | TABLE and TRIGGER are routed with their exact success conditions and edits; anything else fails with no edit. `DropDone` also states where the cursor ends in each case and that the fault flag becomes `DropFault`: raised exactly when it was, or when DROP TABLE is followed by a name that ends the stream. |
| Statements.Parser.ParseTruncateStatement | Parser/statements.cpp:1462-1488 | Succeeds iff TABLE and a name follow. Inside a procedure or function the statement is wrapped in EXECUTE IMMEDIATE '...'. |
| Edits.ExecuteImmediateAt | Parser/statements.cpp:1481-1485 | "EXECUTE IMMEDIATE '" goes before the statement and "'" after the name, and nothing else changes. |
| Statements.Parser.InsertColumnsFrom | Parser/statements.cpp:1333-1350 | The column list read from a point never moves back nor past the stream, and is empty iff no identifier stands there. |
| Statements.Parser.InsertColumnList | Parser/statements.cpp:1318-1351 | After the `(` of INSERT INTO t the cursor never goes back before that `(`, which is where a `(SELECT` subquery leaves it. |
| Statements.Parser.InsertHead | Parser/statements.cpp:1301-1351 | The head never moves back nor past the stream, and when INTO and a name stand there it ends past both. |
| Statements.Parser.ReadInsertColumns | Parser/statements.cpp:1333-1350 | Columns and cursor are exactly `InsertColumnsFrom`'s: identifiers at every other position, separated by commas, the token after each taken whatever it is. The list is empty iff no identifier comes. |
| Statements.Parser.InsertColumnsShape | Parser/statements.cpp:1333-1350 | The columns `InsertColumnsFrom` reads stand every second token from the start, each but the last followed by `,`, and the cursor stops after the last delimiter or at the end of the stream. |
| Statements.Parser.InsertColumnsStep | Parser/statements.cpp:1333-1350 | One round of the column loop: it stops without an identifier, continues after a column followed by `,`, and otherwise ends after the column and its delimiter. |
| Statements.Parser.TakeInsertColumns | Parser/statements.cpp:1333-1350 | The column loop reads exactly `InsertColumnsFrom`'s columns and stops where it says. |
| Statements.Parser.ReadInsertColumnList | Parser/statements.cpp:1318-1351 | Columns and cursor are exactly `InsertColumnList`'s: `(SELECT` without a second `(` is pushed back to the `(` and lists no column; otherwise the columns are read after `(`, or after `(SELECT (`. |
| Statements.Parser.ReadInsertHead | Parser/statements.cpp:1301-1351 | INTO and a table name are required, and the table is recorded as the routine's last insert table as soon as it is read. Columns and cursor are exactly `InsertHead`'s. |
| Statements.Parser.ReadRowValues | Parser/statements.cpp:1388-1413 | The row's closing token is the token after its last expression, or None at the end of the stream. |
| Statements.Parser.ReadRow | Parser/statements.cpp:1379-1416 | A row starts iff `(` comes. Its tokens are in order, and its comma is the token right after the row. |
| Statements.Parser.RowValues | Parser/statements.cpp:1388-1413 | The row's closing token is the last one taken, after its first value; a missing one means the stream ended, and a comma in its place only at the end of the stream. |
| Statements.Parser.RowAt | Parser/statements.cpp:1379-1416 | A row starts iff `(` comes; its `)` follows its `(`, and a `,` after the `)` announces the next row, which starts right after it. |
| Statements.Parser.RowsFrom | Parser/statements.cpp:1377-1440 | The list never moves back. |
| Statements.Parser.RowsListed | Parser/statements.cpp:1377-1440 | The rows of `RowsFrom` form a `RowList`: the first opens at the start, each on `(`, each next one right after the previous row's `,`, and a normal end is a row without `,`. |
| Statements.Parser.ReadValuesRows | Parser/statements.cpp:1377-1440 | The rows, whether the list ended normally and the cursor are exactly `RowsFrom` of the start. The document is `RowsEdit` of those rows. |
| Statements.Parser.RowsSoFarStep | Parser/statements.cpp:1377-1440 | One row read where the loop stands either ends the list as `RowsFrom` reads it, normally or at a missing `(`, or leaves the rest to read. |
| Statements.Parser.ReadValuesRow | Parser/statements.cpp:1377-1440 | One pass of the loop: a missing `(` ends the list as `RowsFrom` reads it, a row without `,` ends it normally with the document `RowsEdit` of all rows, and otherwise the loop goes on. |
| Statements.Parser.RowsLoopNext | Parser/statements.cpp:1377-1440 | One more row keeps the rows ordered and fitting, applies exactly that row's edit, and ends the list as `RowsFrom` reads it when no `,` follows. |
| Statements.Parser.ReadValuesClause | Parser/statements.cpp:1374-1442 | The rows and the end are those `ValuesRead` gives: `RowsFrom` after VALUES, and `ReturningEnd` when the rows end normally. The values scope is entered, and left only then. |
| Statements.Parser.ParseInsertStatement | Parser/statements.cpp:1293-1459 | Without INTO and a name it fails, stopping where `InsertHead` stops, with nothing edited, requested or recorded. Otherwise the table is recorded as the routine's last insert table whatever follows; VALUES is taken iff it stands where `InsertHead` ends the head, and without it the statement fails after an optional `(`. With VALUES the rows of `RowsFrom` are edited by `RowsEdit` (see `InsertRowsRewritten`), success needs them to end normally, and then the scopes are balanced and the CONTINUE handler for INSERT is requested; a failure after VALUES leaves the values scope entered and requests nothing. |
| Statements.Parser.ReadInsertValues | Parser/statements.cpp:1354-1459 | VALUES is taken iff it stands at the cursor. Without it the statement fails after an optional `(`, with nothing edited, requested or entered; otherwise the rows after VALUES are read as `ValuesRead` states, the CONTINUE handler is requested iff they end normally, and on failure the values scope stays entered. |
| Statements.Parser.ReadInsertRows | Parser/statements.cpp:1369-1456 | The rows after VALUES as `ValuesRead` states, and the CONTINUE handler requested iff they end normally, with the scopes then balanced; on failure the values scope stays entered. |
| Statements.Parser.InsertRowsRewritten | Parser/statements.cpp:1369-1440 | When the rows read after VALUES end normally and the last one is closed, they open on `(` from right after VALUES; one row is left as it is, and two or more are rewritten to SELECT ... FROM dual UNION ALL with VALUES, the `(`, `)` and `,` removed and nothing outside the clause touched (`RowsRewritten`). |
| Statements.Parser.ReadReturning | Parser/statements.cpp:1444-1452 | The cursor ends at `ReturningEnd`: RETURNING, an optional column, INTO only after a column, an optional variable. Nothing is taken iff RETURNING does not come. |
| Statements.Parser.ReturningEnd | Parser/statements.cpp:1444-1452 | The clause never moves the cursor back, and is empty iff RETURNING does not come. |
| Rewrites.RowStepsEdit | Parser/statements.cpp:1421-1436 | The source's edit steps for a row equal the pointwise `RowEdit` definition. |
| Rewrites.RowStepsAt | Parser/statements.cpp:1421-1436 | Per token, a row step removes the row's tokens (and VALUES for the first row), and adds " SELECT " before it and " FROM dual" plus the UNION ALL after it. |
| Rewrites.RowEditAt | Parser/statements.cpp:1421-1436 | The same, for the pointwise definition. |
| Rewrites.RowEditText | Parser/statements.cpp:1421-1436 | Rewriting a row changes no token text and no note. |
| Rewrites.RowEditOff | Parser/statements.cpp:1421-1436 | Tokens outside the row are untouched, except VALUES for the first row. |
| Rewrites.SingleRowUntouched | Parser/statements.cpp:1421 | A single row without a comma is left untouched. |
| Rewrites.RowsEditSnoc | Parser/statements.cpp:1377-1440 | Reading one more row applies its edit after those of the rows so far. |
| Rewrites.RowsReadSnoc | Parser/statements.cpp:1377-1440 | The rows read so far stay in stream order when a row is added. |
| Rewrites.RowsReadBelow | Parser/statements.cpp:1377-1440 | Each row read lies after VALUES and after the previous row's comma. |
| Rewrites.RowsReadInOrder | Parser/statements.cpp:1377-1440 | Rows read in a loop satisfy the ordering the rewrite lemmas need. |
| Rewrites.RowsInOrderInit | Parser/statements.cpp:1377-1440 | A prefix of ordered rows is ordered. |
| Rewrites.FirstRowRewritten | Parser/statements.cpp:1421-1436 | The first of several rows is rewritten and VALUES is removed. |
| Rewrites.FirstRowOwn | Parser/statements.cpp:1421-1436 | The first row's own tokens are rewritten. |
| Rewrites.FirstRowFrame | Parser/statements.cpp:1421-1436 | Nothing outside the first row and VALUES changes. |
| Rewrites.NextRowRewritten | Parser/statements.cpp:1421-1436 | Each further row keeps the rewrite of every row so far. |
| Rewrites.NextRowOwn | Parser/statements.cpp:1421-1436 | After another row, every row so far is rewritten. |
| Rewrites.NextRowAt | Parser/statements.cpp:1421-1436 | The same, for one given row. |
| Rewrites.KeepRow | Parser/statements.cpp:1421-1436 | A later row's edit does not undo an earlier row's. |
| Rewrites.NextRowLast | Parser/statements.cpp:1421-1436 | The new row is rewritten. |
| Rewrites.NextRowFresh | Parser/statements.cpp:1421-1436 | Earlier rows' tokens all lie before the new row. |
| Rewrites.NextRowFrame | Parser/statements.cpp:1421-1436 | Tokens outside all rows and VALUES are untouched. |
| Rewrites.InRowTokens | Parser/statements.cpp:1421-1436 | Each row's tokens and VALUES belong to the statement's edited tokens. |
| Rewrites.ValuesTokensBelow | Parser/statements.cpp:1421-1436 | The edited tokens lie below the bound of the last comma. |
| Rewrites.MultiRowRewrite | Parser/statements.cpp:1369-1440 | With two or more rows, VALUES is removed. Every row loses its parentheses and comma and gains " SELECT " and " FROM dual", and every row but the last gains " UNION ALL ". Nothing else changes. |
| Rewrites.ValuesRewrite | Parser/statements.cpp:1369-1440 | For the rows the loop reads: one row is untouched, and several rows are rewritten as in `MultiRowRewrite`. |
| Statements.Parser.ReadUpdateTarget | Parser/statements.cpp:1501-1572 | Succeeds iff a name and one more token follow, and then ends at `UpdateTargetEnd`. It covers FROM and its table list, an alias, or SET directly. |
| Statements.Parser.UpdateTargetEnd | Parser/statements.cpp:1501-1572 | The target takes at least the name and one more token. |
| Statements.Parser.ReadUpdateFrom | Parser/statements.cpp:1524-1550 | The FROM list ends exactly at `UpdateFromEnd`: items separated by commas. |
| Statements.Parser.UpdateFromEnd | Parser/statements.cpp:1524-1550 | The FROM list never moves back, and takes at least one token unless the stream has ended. |
| Statements.Parser.ReadUpdateFromItem | Parser/statements.cpp:1528-1545 | A parenthesised subquery with its `)`, or else an identifier, then one alias token (`UpdateFromItemEnd`). |
| Statements.Parser.UpdateFromItemEnd | Parser/statements.cpp:1528-1545 | An item takes at least one token unless the stream has ended. |
| Statements.Parser.ReadAssignColumns | Parser/statements.cpp:1583-1596 | Exactly `AssignCols` of the start: columns only after `(`, at every other position, each followed by its comma while the list continues. Without `(` one identifier is still taken. |
| Statements.Parser.AssignCols | Parser/statements.cpp:1583-1596 | Columns are listed only after `(`, and the list never moves back. |
| Statements.Parser.AssignColsShape | Parser/statements.cpp:1583-1596 | The columns `AssignCols` reads sit at every other token from the start, each but possibly the last followed by its comma. |
| Statements.Parser.AssignColsNext | Parser/statements.cpp:1583-1596 | A column followed by a comma is listed before the rest of the list. |
| Statements.Parser.ReadAssignColumn | Parser/statements.cpp:1583-1596 | One pass of the loop either goes on with the rest of `AssignCols` or ends it. |
| Statements.Parser.ReadAssignValues | Parser/statements.cpp:1621-1643 | No values after a subquery. Otherwise exactly `AssignVals`: at most one without `(`, and else values in stream order while a comma follows each. |
| Statements.Parser.AssignVals | Parser/statements.cpp:1621-1643 | At most one value without `(`, and the list never moves back. |
| Statements.Parser.AssignValsNext | Parser/statements.cpp:1621-1643 | A value whose expression is followed by a comma is listed before the rest of the list. |
| Statements.Parser.ReadAssignValue | Parser/statements.cpp:1621-1643 | One pass of the loop either goes on with the rest of `AssignVals` or ends it, the values staying ordered. |
| Statements.Parser.ReadAssignLeft | Parser/statements.cpp:1581-1600 | The `(`, the columns right after it, `)` and `=`; without `=` the assignment is none as `AssignAt` reads it. |
| Statements.Parser.ReadAssignment | Parser/statements.cpp:1581-1645 | Exactly `AssignAt` of the start: an assignment exists iff `=` came. Its tokens are in stream order, and without `(` it has no columns and at most one value. |
| Statements.Parser.AssignAt | Parser/statements.cpp:1581-1645 | An assignment carries the `=` it was read with; without `(` it has no columns and at most one value. |
| Statements.Parser.AssignRight | Parser/statements.cpp:1605-1645 | The second `(` only after a first one, the `)` as the last token taken, and at most one value without `(`. |
| Statements.Parser.ReadAssignRight | Parser/statements.cpp:1605-1645 | Exactly `AssignRight`, the values in order. |
| Statements.Parser.AssignAtFrom | Parser/statements.cpp:1581-1645 | A left side and a right side read in sequence make up `AssignAt` of the start. |
| Statements.Parser.AssignReadFrom | Parser/statements.cpp:1581-1645 | They also make up an `AssignRead` assignment: its tokens in stream order within what was read. |
| Statements.Parser.ReadAssignments | Parser/statements.cpp:1575-1682 | The assignments and the cursor are exactly `AssignsFrom` of the start. The document is `AssignsEdit` of them. |
| Statements.Parser.AssignsFrom | Parser/statements.cpp:1575-1682 | The SET list never moves back. |
| Statements.Parser.AssignsNext | Parser/statements.cpp:1575-1682 | One assignment read where the loop stands either ends the list as `AssignsFrom` reads it or leaves the rest to read. |
| Statements.Parser.AssignsEditNext | Parser/statements.cpp:1575-1682 | One more assignment keeps the list in order and applies exactly its own edit. |
| Statements.Parser.ReadAssignStep | Parser/statements.cpp:1575-1682 | One pass of the loop: the document stays `AssignsEdit` of the assignments read, and when it stops they are the whole of `AssignsFrom`. |
| Statements.Parser.ReadAssignEdit | Parser/statements.cpp:1581-1676 | One assignment as `AssignAt` reads it, with its edit applied; none leaves the document and the list as they were. |
| Statements.Parser.ParseUpdateStatement | Parser/statements.cpp:1491-1694 | The last fetched cursor is cleared and no other routine field changes. The statement succeeds iff a name and one more token follow, and then the SET list read after `UpdateTargetEnd` (`AssignsFrom`) is rewritten by `AssignsEdit` and the CONTINUE handler for UPDATE is requested. On failure nothing is edited or requested. |
| Rewrites.ValsReadSnoc | Parser/statements.cpp:1621-1643 | Values read so far stay ordered when one is added. |
| Rewrites.ValsReadGrow | Parser/statements.cpp:1621-1643 | Values read below a bound are below any larger bound. |
| Rewrites.ValsReadAt | Parser/statements.cpp:1621-1643 | Each value lies in range and before every later value. |
| Rewrites.AssignPairsInOrder | Parser/statements.cpp:1583-1643 | Columns at every other position, followed by values read after them, are in the order the pairing lemmas need. |
| Rewrites.AssignsEditSnoc | Parser/statements.cpp:1575-1682 | Reading one more assignment applies its edit after the previous ones. |
| Rewrites.AssignGrow | Parser/statements.cpp:1575-1682 | An assignment that fits below a bound fits below any larger one. |
| Rewrites.SingleValueUntouched | Parser/statements.cpp:1648 | An assignment with at most one value is left unchanged. |
| Rewrites.PairEditAt | Parser/statements.cpp:1659-1663 | One pair puts a copy of the column and " = " before the value, and removes the column and its comma. |
| Rewrites.PairsExpand | Parser/statements.cpp:1650-1667 | After k pairs, exactly the first k columns and values are expanded. |
| Rewrites.NextPairOwn | Parser/statements.cpp:1650-1667 | Each further pair keeps the expansion of every pair so far. |
| Rewrites.NextPairFrame | Parser/statements.cpp:1650-1667 | Tokens outside the pairs so far are untouched. |
| Rewrites.PairTokensBelow | Parser/statements.cpp:1650-1667 | The tokens of earlier pairs lie before the next value. |
| Rewrites.PunctuationRemoved | Parser/statements.cpp:1669-1675 | Both parenthesis pairs and `=` are removed, and nothing else. |
| Rewrites.ListAssignRewrite | Parser/statements.cpp:1648-1676 | With two or more values, columns and values are paired in order up to the shorter list. Each value gains a copy of its column and " = ", each column and its comma are removed, and so are both parenthesis pairs and `=`. Surplus columns or values, and every other token, are left as they are. |
| Scans.LeadingKeyword | Parser/statements.cpp:16-38 | `Leading` gives a statement kind exactly when the word equals that kind's keyword, ignoring case, in both directions. |
| Scans.KeywordsDistinct | Parser/statements.cpp:16-38 | No word starts two kinds of statement. |
| Scans.ObjectOfKeyword | Parser/statements.cpp:133-163 | `ObjectOf` gives an object kind exactly when the word equals that kind's keyword, ignoring case, in both directions. |
| Scans.ObjectKeywordsDistinct | Parser/statements.cpp:133-163 | No word names two kinds of object. |
| Scans.IndexOptions | Parser/statements.cpp:256-296 | The option count equals the removed count. There are no options iff the run is empty, and the run ends at a non-option. |
| Scans.IndexOptionsStep | Parser/statements.cpp:264-291 | Each option counts once in both counters, and the scan continues after the option and its argument. |
| Scans.IndexOptionsRun | Parser/statements.cpp:262-296 | The run alternates NOPARALLEL and PARALLEL n exactly as the loop reads them. |
| Tokens.Nvl | Parser/statements.cpp:1194 | It is the first present token of the two. |
| Document.EditsAt | Parser/statements.cpp:107 | Per token: Remove marks it, Change replaces its text, and Prepend and Append add text before or after it. |

## Left out

- Statistics macros are not modelled. They only report and never affect the rewrite.
- The sub-grammars defined elsewhere (expression, boolean expression, data type, typed variable, SELECT, WHERE, block, declarations, column and standalone constraints, index options, the trigger pattern) are represented by the constant extent table `grammar`. Their own edits are not modelled.
- The emitters and lifecycle helpers defined elsewhere (identity emulation, CONTINUE handlers, BEGIN-after-declare moving, data type sizes, IF-SELECT declarations, generated variables, ClearCopy, ClearSplScope, `_udt.Add`) are recorded in the `calls` log with their arguments only.
- `IsFuncToProc` is a configuration lookup. It is modelled as membership of the folded name in the constant set `funcToProc`.
- Identifier comparison (`Token::Compare` and `CompareIdentifiersExistingParts`) is case-insensitive equality of the whole text (`SameWord`). Schema-qualified partial matches are not modelled, and neither are wide characters.
- The difference between `Append` and `AppendNoFormat`/`PrependNoFormat`, and the final serialisation of the stream, are not modelled.
- Identifier classes (`SQL_IDENT_OBJECT`, `SQL_IDENT_COLUMN_SINGLE`, `SQL_IDENT_PARAM`) and `_option_rems` are not modelled. Any identifier is accepted.
- The `result_sets` and `proc` out-parameters of the routers are not modelled, since this layer never sets them.
- Statements.Parser.RewriteComment: `GetBookmark2`, which looks up the column of COMMENT ON COLUMN, is defined elsewhere. Its lookup is modelled as splitting `table.column` at the last `.` and comparing both parts ignoring case (`CommentKey`).
- Statements.Parser.ReadTriggerPattern: `Token::Remove(create, last)` with a null `last` (pattern matched, but neither END nor `;` after it) is defined elsewhere. It is modelled as removing nothing.
- Statements.Parser.ReadUpdateFromItem: a subquery in the FROM list is read as a SELECT statement whether or not a SELECT keyword starts it. The grammar extent decides where it ends.
- Statements.Parser.ParseFunctionParameters: does not state how a DEFAULT value is skipped.
- Statements.Parser.ParseCreateFunction: where the signature ends (the body start) is not stated as a function of the stream, because DEFAULT skipping and the type propagation of the parameters are not. `fault` is stated as raised only when the stream ends inside the parameter list, not the converse.
- Statements.Parser.ReadFunctionSignature: where the parameters, returns and options end is not stated as a function of the stream, for the same reason as for ParseCreateFunction; `fault` is stated as raised only when the stream ends inside the parameter list, not the converse.
- Statements.Parser.ParseNamedFunction: the body start is where the signature reading stops, which is not stated as a function of the stream, for the same reason as for ParseCreateFunction.
- Statements.Parser.InsertRowsRewritten: a last row cut off by the end of the stream, with no `)`, is left out of the rewrite statement.
- Statements.Parser.ParseSplEndName: compares the whole name ignoring case, where the source compares the parts that exist.
- Statements.Parser.ParseUpdateStatement: does not state where the cursor stops after the WHERE clause.
- `_spl_moved_if_select` is only set by the block grammar, which is not modelled. In the model it stays 0, so `SplPostActions` never requests the IF-SELECT declarations in practice.
- The routers do not call `ParseCreateFunction` and `ParseTruncateStatement`. They are modelled as entry points of their own, with the scope passed in.

Behaviour kept as the code has it:

- **Object scope on early return.** `ParseCreateStatement` returns at the end of the stream after the modifiers without restoring the object scope (lines 127-128).
- **DROP TABLE.** The token after the name is always taken. With IF, EXISTS is neither removed nor taken, and the `;` test looks at the token after IF. A null token there is dereferenced, which is `fault` in the model.
- **DROP TRIGGER.** The IF EXISTS branch is dead because its flag is the constant false.
- **INSERT without VALUES** always returns false, because `select` is never assigned (line 1355).
- **INSERT row without `(`.** Such a row returns false without leaving the values scope (line 1382).
- **CREATE VIEW options.** A token after the options that is not WITH is taken without pushback.
- **UPDATE column lists.** An identifier is taken even when there is no `(` (lines 1585-1588).
- **Function bodies.** The BEGIN before the declarations is taken and then forgotten (lines 1783-1789). The token after the parameters is taken by `ParseFunctionReturns` whatever it is.
- **CREATE TABLESPACE** always fails, and there is no FUNCTION branch in the CREATE router.
