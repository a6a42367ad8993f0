/**
 * The statement layer of the Oracle-to-MySQL converter: a recursive-descent
 * parser that walks a lexed token stream with a cursor and pushback and
 * rewrites the stream in place. Tokens are positions in `src`; the cursor
 * `pos` is the position of the next token to be taken.
 */
module Statements {
  import opened Tokens
  import opened Document
  import opened Scans
  import opened Bookmarks
  import opened Rewrites
  import opened Edits

  /** The parser's scope codes (SQL_SCOPE_* and SQL_STMT_*); NoScope is the 0 of the source. */
  datatype Scope =
    | NoScope | TableScope | TempTableScope | IndexScope
    | FuncScope | ProcScope | TriggerScope
    | AlterTableStmt | InsertValuesScope | TriggerWhenScope

  /** Sub-grammars defined outside the statement layer; the model knows only how far each reads. */
  datatype SubGrammar =
    | Expression | BooleanExpression | DataType | VarDataTypeAttribute | TypedVariable
    | SelectStatement | WhereClause | Block | ColumnConstraints | StandaloneConstraints
    | IndexOptionsClause | DeclarationBlock | TriggerPattern

  /** Emitters and lifecycle helpers defined elsewhere, recorded when the statement layer calls them. */
  datatype Call =
    | EmulateIdentity(create: nat, table: nat, column: nat, last: nat)
    | ContinueHandlerForInsert(insert: nat)
    | ContinueHandlerForUpdate(update: nat)
    | AppendDataTypeSizes
    | MoveBeginAfterDeclare(create: nat, asKeyword: Option<nat>, begin: Option<nat>, bodyStart: Option<nat>)
    | AddGeneratedVariables
    | IfSelectDeclarations
    | ClearCopy
    | ClearSplScope
    | UdtAdd(name: nat, dataType: Option<nat>, typeEnd: Option<nat>)

  /** The state of the routine (procedure, function or trigger) being converted: the _spl_* members. */
  datatype Routine = Routine(
    scope: Scope, start: Option<nat>, name: Option<nat>, funcToProc: bool,
    newName: Option<nat>, oldName: Option<nat>, paramClose: Option<nat>, outerLabel: Option<nat>,
    movedIfSelect: nat, beginBlocks: seq<Option<nat>>,
    firstNonDeclare: Option<nat>, lastStmt: Option<nat>,
    lastInsertTable: Option<nat>, lastFetchCursor: Option<nat>)

  /** The routine state as ClearSplScope leaves it. */
  function ClearedRoutine(): (r: Routine)
    ensures r.scope == NoScope && r.start.None? && r.name.None? && r.outerLabel.None? && r.beginBlocks == []
    ensures r.movedIfSelect == 0 && r.newName.None? && r.oldName.None?
  {
    Routine(NoScope, None, None, false, None, None, None, None, 0, [], None, None, None, None)
  }

  /**
   * The modifiers of a CREATE statement: OR (of OR REPLACE), UNIQUE, GLOBAL
   * TEMPORARY, the FORCE or (NON)EDITIONABLE word that is dropped, and
   * MATERIALIZED; next is the object keyword, absent at the end of the stream.
   */
  datatype CreateHead = CreateHead(
    orWord: Option<nat>, unique: Option<nat>, temp: bool,
    dropped: Option<nat>, materialized: Option<nat>, next: Option<nat>)

  /** What the statement handlers write: the document, the bookmark registry and the log of outside calls. */
  datatype Effects = Effects(doc: Doc, books: map<BookKey, nat>, calls: seq<Call>)

  /** What an object handler of CREATE read, as far as its effect depends on it. */
  datatype CreateOutcome =
    | NothingCreated
    | IndexCreated(cols: seq<nat>)
    | TableCreated(items: seq<ColumnItem>, idCol: Option<nat>, close: Option<nat>)
    | TriggerCreated(body: TriggerBody)
    | TypeCreated(typeEnd: Option<nat>, end: nat)
    | ViewCreated(start: nat, end: nat)

  /** What the handler ParseStatement chose read, as far as its effect depends on it. */
  datatype Handled =
    | Unhandled
    | AlterHandled(cascade: Option<nat>, scan: OptionScan)
    | CommentHandled(name: Option<nat>, isWord: Option<nat>, text: Option<nat>, book: Option<nat>)
    | CreateHandled(head: CreateHead, made: CreateOutcome)
    | DropHandled(table: DropTable)
    | InsertHandled(values: nat, rows: seq<Row>)
    | UpdateHandled(assigns: seq<Assign>)

  class Parser {
    /** The token texts as lexed. */
    const src: seq<string>
    /** Where each sub-grammar stops reading when it starts at a position. */
    const grammar: map<(SubGrammar, nat), nat>
    /** Folded names of functions configured to be converted to procedures (IsFuncToProc). */
    const funcToProc: set<string>

    var pos: nat
    var doc: Doc
    var books: map<BookKey, nat>
    var objScope: Scope
    var stmtScope: Scope
    /** The Enter/Leave scope stack. */
    var scopes: seq<Scope>
    /** Names of the session (temporary) tables created so far. */
    var sessionTables: seq<string>
    var spl: Routine
    /** Data type propagated to a parameter name: name position to type position. */
    var paramType: map<nat, nat>
    var calls: seq<Call>
    /** Set where the source would dereference a null token. */
    var fault: bool

    /** The cursor is within the stream and the rewrite state covers every token. */
    ghost predicate Valid()
      reads this`pos, this`doc
    {
      pos <= |src| && doc.Fits(|src|)
    }

    constructor (src: seq<string>, grammar: map<(SubGrammar, nat), nat>, funcToProc: set<string>,
                 sessionTables: seq<string>)
      ensures Valid() && this.src == src && this.grammar == grammar && this.funcToProc == funcToProc
      ensures pos == 0 && doc == Initial(src) && books == map[] && scopes == [] && calls == []
      ensures objScope == NoScope && stmtScope == NoScope && spl == ClearedRoutine()
      ensures this.sessionTables == sessionTables && !fault
    {
      this.src := src;
      this.grammar := grammar;
      this.funcToProc := funcToProc;
      this.sessionTables := sessionTables;
      pos := 0;
      doc := Initial(src);
      books := map[];
      objScope := NoScope;
      stmtScope := NoScope;
      scopes := [];
      spl := ClearedRoutine();
      paramType := map[];
      calls := [];
      fault := false;
    }

    /** Token p exists and is the word w (any case). */
    predicate WordAt(p: int, w: string)
    {
      0 <= p < |src| && SameWord(src[p], w)
    }

    /** Token p exists and is an identifier. */
    predicate IdentAt(p: int)
    {
      0 <= p < |src| && IsIdent(src[p])
    }

    /** The token at p, if the stream has one there. */
    function TokenAt(p: nat): (t: Option<nat>)
      ensures t.Some? <==> p < |src|
      ensures t.Some? ==> t.value == p
    {
      if p < |src| then Some(p) else None
    }

    /** Where sub-grammar g stops when it starts at p: never before p, never past the end. */
    function Extent(g: SubGrammar, p: nat): (q: nat)
      ensures p <= q && (p <= |src| ==> q <= |src|)
    {
      if (g, p) in grammar && p <= grammar[(g, p)] <= |src| then grammar[(g, p)] else p
    }

    /**
     * GetBookmark(BOOK_CTC_END, name): the last token of the CREATE TABLE
     * column a `table.column` name designates, if one was recorded.
     */
    function BookFor(b: map<BookKey, nat>, name: Option<nat>): (t: Option<nat>)
      ensures t.Some? <==> name.Some? && name.value < |src| && CommentKey(src[name.value]) in b
                           && b[CommentKey(src[name.value])] < |src|
      ensures t.Some? ==> t.value == b[CommentKey(src[name.value])]
    {
      if name.Some? && name.value < |src| && CommentKey(src[name.value]) in b
         && b[CommentKey(src[name.value])] < |src|
      then Some(b[CommentKey(src[name.value])]) else None
    }

    /** GetLastToken: the token taken last. */
    function LastTaken(): (t: Option<nat>)
      reads this`pos
      ensures t.Some? <==> pos > 0
      ensures t.Some? ==> t.value == pos - 1
    {
      if pos > 0 then Some(pos - 1) else None
    }

    /** GetNextToken: takes the next token, if there is one. */
    method NextToken() returns (t: Option<nat>)
      requires pos <= |src|
      modifies this`pos
      ensures t == TokenAt(old(pos))
      ensures pos == if t.Some? then old(pos) + 1 else old(pos)
    {
      t := TokenAt(pos);
      if t.Some? {
        pos := pos + 1;
      }
    }

    /** GetNextWordToken and GetNextCharToken: takes the next token only if it is w. */
    method NextWord(w: string) returns (t: Option<nat>)
      requires pos <= |src|
      modifies this`pos
      ensures t == if WordAt(old(pos), w) then Some(old(pos)) else None
      ensures pos == if t.Some? then old(pos) + 1 else old(pos)
    {
      if WordAt(pos, w) {
        t := Some(pos);
        pos := pos + 1;
      } else {
        t := None;
      }
    }

    /** The conditional forms GetNextCharToken(prev, c) and GetNext(prev, w): nothing when prev is absent. */
    method NextWordAfter(prev: Option<nat>, w: string) returns (t: Option<nat>)
      requires pos <= |src|
      modifies this`pos
      ensures t == if prev.Some? && WordAt(old(pos), w) then Some(old(pos)) else None
      ensures pos == if t.Some? then old(pos) + 1 else old(pos)
    {
      if prev.Some? {
        t := NextWord(w);
      } else {
        t := None;
      }
    }

    /** GetNextIdentToken: takes the next token only if it is an identifier. */
    method NextIdent() returns (t: Option<nat>)
      requires pos <= |src|
      modifies this`pos
      ensures t == if IdentAt(old(pos)) then Some(old(pos)) else None
      ensures pos == if t.Some? then old(pos) + 1 else old(pos)
    {
      if IdentAt(pos) {
        t := Some(pos);
        pos := pos + 1;
      } else {
        t := None;
      }
    }

    /** PushBack(t): the next token taken is t again; nothing for an absent token. */
    method PushBack(t: Option<nat>)
      requires t.Some? ==> t.value <= |src|
      modifies this`pos
      ensures pos == if t.Some? then t.value else old(pos)
    {
      if t.Some? {
        pos := t.value;
      }
    }

    /** A sub-grammar defined elsewhere reads its tokens. */
    method Sub(g: SubGrammar)
      requires pos <= |src|
      modifies this`pos
      ensures pos == Extent(g, old(pos))
    {
      pos := Extent(g, pos);
    }

    /** A sub-grammar that reports whether it recognised anything: it did iff it read a token. */
    method SubFound(g: SubGrammar) returns (found: bool)
      requires pos <= |src|
      modifies this`pos
      ensures pos == Extent(g, old(pos))
      ensures found <==> pos > old(pos)
    {
      var start := pos;
      pos := Extent(g, pos);
      found := pos > start;
    }

    /** Enter(scope). */
    method Enter(s: Scope)
      modifies this`scopes
      ensures scopes == old(scopes) + [s]
    {
      scopes := scopes + [s];
    }

    /** Leave(scope): closes the innermost scope. */
    method Leave(s: Scope)
      modifies this`scopes
      ensures scopes == if old(scopes) == [] then [] else old(scopes)[..|old(scopes)| - 1]
    {
      if scopes != [] {
        scopes := scopes[..|scopes| - 1];
      }
    }

    /** ClearSplScope: the routine state is reset. */
    method ClearSpl()
      modifies this`spl, this`calls
      ensures spl == ClearedRoutine() && calls == old(calls) + [ClearSplScope]
    {
      spl := ClearedRoutine();
      calls := calls + [ClearSplScope];
    }

    // ------------------------------------------------------------------
    // Dispatch
    // ------------------------------------------------------------------

    /**
     * ParseStatement: routes a statement by its leading keyword. A handled
     * statement may be followed by one `;`, which is taken whatever the
     * handler returned; an unknown keyword returns false and takes nothing.
     */
    method ParseStatement(token: Option<nat>) returns (r: bool, kind: Option<Kind>, ghost handlerEnd: nat, ghost outcome: Handled)
      requires Valid() && (token.Some? ==> token.value < pos)
      modifies this
      ensures Valid()
      ensures token.None? ==> kind.None?
      ensures token.Some? ==> kind == Leading(src[token.value])
      ensures kind.None? ==> !r && unchanged(this)
      ensures kind.Some? ==> old(pos) <= handlerEnd <= pos
      ensures kind.Some? ==> pos == if WordAt(handlerEnd, ";") then handlerEnd + 1 else handlerEnd
      ensures kind.Some? ==>
        StatementDone(token.value, kind.value, old(pos), Effects(old(doc), old(books), old(calls)), Effects(doc, books, calls),
                      old(spl), spl, old(fault), fault, sessionTables, handlerEnd, r, outcome)
      ensures kind.Some? ==>
        ScopesDone(kind.value, old(pos), r, outcome, old(scopes), scopes, old(objScope), objScope,
                   old(stmtScope), stmtScope, old(fault), fault)
      ensures kind == Some(InsertStmt) && outcome.InsertHandled? ==>
        scopes == old(scopes) + (if !r && outcome.values != 0 then [InsertValuesScope] else [])
    {
      handlerEnd := pos;
      outcome := Unhandled;
      if token.None? {
        return false, None, handlerEnd, outcome;
      }
      kind := Leading(src[token.value]);
      if kind.None? {
        return false, kind, handlerEnd, outcome;
      }
      r, handlerEnd, outcome := ParseKnownStatement(token.value, kind.value);
    }

    /** A statement of kind k with leading keyword t: its handler runs, and then one following `;` is taken. */
    method ParseKnownStatement(t: nat, k: Kind) returns (r: bool, ghost handlerEnd: nat, ghost outcome: Handled)
      requires Valid() && t < pos
      modifies this`pos, this`doc, this`books, this`calls, this`spl, this`scopes, this`objScope, this`stmtScope, this`fault
      ensures Valid() && old(pos) <= handlerEnd <= pos
      ensures pos == if WordAt(handlerEnd, ";") then handlerEnd + 1 else handlerEnd
      ensures StatementDone(t, k, old(pos), Effects(old(doc), old(books), old(calls)), Effects(doc, books, calls),
                            old(spl), spl, old(fault), fault, sessionTables, handlerEnd, r, outcome)
      ensures ScopesDone(k, old(pos), r, outcome, old(scopes), scopes, old(objScope), objScope,
                         old(stmtScope), stmtScope, old(fault), fault)
      ensures k == InsertStmt && outcome.InsertHandled? ==>
        scopes == old(scopes) + (if !r && outcome.values != 0 then [InsertValuesScope] else [])
    {
      r, outcome := RunHandler(t, k);
      handlerEnd := pos;
      ghost var now := Effects(doc, books, calls);
      ghost var sc := scopes;
      var semi := NextWord(";");
      assert Effects(doc, books, calls) == now && scopes == sc;
    }

    /** The handler for statements of kind k, whose leading keyword is t. */
    method RunHandler(t: nat, k: Kind) returns (r: bool, ghost outcome: Handled)
      requires Valid() && t < pos
      modifies this`pos, this`doc, this`books, this`calls, this`spl, this`scopes, this`objScope, this`stmtScope, this`fault
      ensures Valid() && old(pos) <= pos
      ensures StatementDone(t, k, old(pos), Effects(old(doc), old(books), old(calls)), Effects(doc, books, calls),
                            old(spl), spl, old(fault), fault, sessionTables, pos, r, outcome)
      ensures ScopesDone(k, old(pos), r, outcome, old(scopes), scopes, old(objScope), objScope,
                         old(stmtScope), stmtScope, old(fault), fault)
      ensures k == InsertStmt && outcome.InsertHandled? ==>
        scopes == old(scopes) + (if !r && outcome.values != 0 then [InsertValuesScope] else [])
    {
      match k {
        case AlterStmt => r, outcome := RunAlter(t);
        case CommentStmt => r, outcome := RunComment(t);
        case CreateStmt => r, outcome := RunCreate(t);
        case DropStmt => r, outcome := RunDrop(t);
        case InsertStmt => r, outcome := RunInsert(t);
        case UpdateStmt => r, outcome := RunUpdate(t);
      }
    }

    /** ALTER as the router runs it. */
    method RunAlter(t: nat) returns (r: bool, ghost outcome: Handled)
      requires Valid() && t < pos
      modifies this`pos, this`doc, this`stmtScope
      ensures Valid() && old(pos) <= pos
      ensures StatementDone(t, AlterStmt, old(pos), Effects(old(doc), old(books), old(calls)), Effects(doc, books, calls),
                            old(spl), spl, old(fault), fault, sessionTables, pos, r, outcome)
      ensures ScopesDone(AlterStmt, old(pos), r, outcome, old(scopes), scopes, old(objScope), objScope,
                         old(stmtScope), stmtScope, old(fault), fault)
    {
      ghost var cascade, scan;
      r, cascade, scan := ParseAlterStatement(t);
      outcome := AlterHandled(cascade, scan);
    }

    /** COMMENT as the router runs it. */
    method RunComment(t: nat) returns (r: bool, ghost outcome: Handled)
      requires Valid() && t < pos
      modifies this`pos, this`doc
      ensures Valid() && old(pos) <= pos
      ensures StatementDone(t, CommentStmt, old(pos), Effects(old(doc), old(books), old(calls)), Effects(doc, books, calls),
                            old(spl), spl, old(fault), fault, sessionTables, pos, r, outcome)
      ensures ScopesDone(CommentStmt, old(pos), r, outcome, old(scopes), scopes, old(objScope), objScope,
                         old(stmtScope), stmtScope, old(fault), fault)
    {
      var name, isWord, text, book;
      r, name, isWord, text, book := ParseCommentStatement(t);
      outcome := CommentHandled(name, isWord, text, book);
    }

    /** CREATE as the router runs it. */
    method RunCreate(t: nat) returns (r: bool, ghost outcome: Handled)
      requires Valid() && t < pos
      modifies this`pos, this`doc, this`books, this`calls, this`spl, this`scopes, this`objScope
      ensures Valid() && old(pos) <= pos
      ensures StatementDone(t, CreateStmt, old(pos), Effects(old(doc), old(books), old(calls)), Effects(doc, books, calls),
                            old(spl), spl, old(fault), fault, sessionTables, pos, r, outcome)
      ensures ScopesDone(CreateStmt, old(pos), r, outcome, old(scopes), scopes, old(objScope), objScope,
                         old(stmtScope), stmtScope, old(fault), fault)
    {
      var head;
      ghost var handlerScope, made;
      r, head, handlerScope, made := ParseCreateStatement(t);
      outcome := CreateHandled(head, made);
    }

    /** DROP as the router runs it. */
    method RunDrop(t: nat) returns (r: bool, ghost outcome: Handled)
      requires Valid() && t < pos
      modifies this`pos, this`doc, this`fault
      ensures Valid() && old(pos) <= pos
      ensures StatementDone(t, DropStmt, old(pos), Effects(old(doc), old(books), old(calls)), Effects(doc, books, calls),
                            old(spl), spl, old(fault), fault, sessionTables, pos, r, outcome)
      ensures ScopesDone(DropStmt, old(pos), r, outcome, old(scopes), scopes, old(objScope), objScope,
                         old(stmtScope), stmtScope, old(fault), fault)
    {
      ghost var dropped;
      r, dropped := ParseDropStatement(t);
      outcome := DropHandled(dropped);
    }

    /** INSERT as the router runs it. */
    method RunInsert(t: nat) returns (r: bool, ghost outcome: Handled)
      requires Valid() && t < pos
      modifies this`pos, this`doc, this`spl, this`scopes, this`calls
      ensures Valid() && old(pos) <= pos
      ensures StatementDone(t, InsertStmt, old(pos), Effects(old(doc), old(books), old(calls)), Effects(doc, books, calls),
                            old(spl), spl, old(fault), fault, sessionTables, pos, r, outcome)
      ensures ScopesDone(InsertStmt, old(pos), r, outcome, old(scopes), scopes, old(objScope), objScope,
                         old(stmtScope), stmtScope, old(fault), fault)
    {
      var values, rows;
      r, values, rows := ParseInsertStatement(t);
      outcome := InsertHandled(values, rows);
    }

    /** UPDATE as the router runs it. */
    method RunUpdate(t: nat) returns (r: bool, ghost outcome: Handled)
      requires Valid() && t < pos
      modifies this`pos, this`doc, this`spl, this`calls
      ensures Valid() && old(pos) <= pos
      ensures StatementDone(t, UpdateStmt, old(pos), Effects(old(doc), old(books), old(calls)), Effects(doc, books, calls),
                            old(spl), spl, old(fault), fault, sessionTables, pos, r, outcome)
      ensures ScopesDone(UpdateStmt, old(pos), r, outcome, old(scopes), scopes, old(objScope), objScope,
                         old(stmtScope), stmtScope, old(fault), fault)
    {
      var assigns;
      r, assigns := ParseUpdateStatement(t);
      outcome := UpdateHandled(assigns);
    }

    /**
     * The effect of the statement with leading keyword t of the given kind,
     * its handler reading from p and stopping at end: the handler the kind
     * names runs, with the effect its own predicate states, and the parts of
     * the state that handler does not write stay as they were.
     */
    ghost predicate StatementDone(t: nat, kind: Kind, p: nat, was: Effects, now: Effects, rt0: Routine, rt: Routine,
                                  f0: bool, f: bool, tables: seq<string>, end: nat, r: bool, out: Handled)
    {
      match kind
      case AlterStmt =>
        && out.AlterHandled? && now.books == was.books && now.calls == was.calls && rt == rt0
        && AlterDone(t, p, was.doc, now.doc, end, r, out.cascade, out.scan)
      case CommentStmt =>
        && out.CommentHandled? && now.books == was.books && now.calls == was.calls && rt == rt0
        && CommentDone(t, p, was.doc, now.doc, was.books, end, r, out.name, out.isWord, out.text, out.book)
      case CreateStmt =>
        out.CreateHandled? && CreateDone(t, p, was, now, rt0, rt, end, r, out.head, out.made)
      case DropStmt =>
        && out.DropHandled? && now.books == was.books && now.calls == was.calls && rt == rt0
        && DropDone(t, p, was.doc, now.doc, end, f0, f, r, out.table, tables, InRoutine(rt0.scope))
      case InsertStmt =>
        out.InsertHandled? && now.books == was.books && InsertDone(t, p, was, now, rt0, rt, end, r, out.values, out.rows)
      case UpdateStmt =>
        out.UpdateHandled? && now.books == was.books && UpdateDone(t, p, was, now, rt0, rt, r, out.assigns)
    }

    /**
     * The scopes and the fault flag after the handler for a statement of the
     * given kind, read from p: INSERT may leave the values scope entered,
     * CREATE leaves the object scope it selected when no object keyword
     * follows the modifiers, and DROP may raise the fault flag; the
     * statement scope, and every part a handler does not set, stay as they were.
     */
    ghost predicate ScopesDone(kind: Kind, p: nat, r: bool, out: Handled, sc0: seq<Scope>, sc: seq<Scope>,
                               obj0: Scope, obj: Scope, stmt0: Scope, stmt: Scope, f0: bool, f: bool)
    {
      && stmt == stmt0
      && sc == sc0 + (if kind == InsertStmt && out.InsertHandled? && !r && out.values != 0 then [InsertValuesScope] else [])
      && obj == (if kind == CreateStmt && out.CreateHandled? && p < |src| && out.head.next.None?
                 then (if out.head.temp then TempTableScope else NoScope) else obj0)
      && f == (if kind == DropStmt then DropFault(p, f0) else f0)
    }

    /** ParseAlterStatement: ALTER TABLE and ALTER INDEX; the word after ALTER is taken in any case. */
    method ParseAlterStatement(alter: nat) returns (r: bool, ghost cascade: Option<nat>, ghost scan: OptionScan)
      requires Valid() && alter < pos
      modifies this`pos, this`doc, this`stmtScope
      ensures Valid() && old(pos) <= pos && stmtScope == old(stmtScope)
      ensures AlterDone(alter, old(pos), old(doc), doc, pos, r, cascade, scan)
    {
      cascade, scan := None, OptionScan(0, 0, 0);
      var next := NextToken();
      if next.None? {
        return false, cascade, scan;
      }
      if WordAt(next.value, "TABLE") {
        NotSameWord(src[next.value], "TABLE", "INDEX");
        r, cascade := ParseAlterTableStatement(alter, next.value);
      } else if WordAt(next.value, "INDEX") {
        r, scan := ParseAlterIndexStatement(alter, next.value);
      } else {
        r := false;
      }
    }

    /**
     * ALTER with the word after it at p, the cursor ending at end: nothing
     * happens at the end of the stream or for a word other than TABLE or
     * INDEX (that word is taken); otherwise TableAltered or IndexAltered.
     */
    ghost predicate AlterDone(alter: nat, p: nat, d0: Doc, d: Doc, end: nat, r: bool, cascade: Option<nat>, scan: OptionScan)
    {
      && d0.Fits(|src|) && alter < |src|
      && (p == |src| ==> !r && end == p && d == d0)
      && (p < |src| && !WordAt(p, "TABLE") && !WordAt(p, "INDEX") ==> !r && end == p + 1 && d == d0)
      && (WordAt(p, "TABLE") ==> TableAltered(p + 1, d0, d, r, cascade))
      && (WordAt(p, "INDEX") ==> IndexAltered(alter, p + 1, d0, d, end, r, scan))
    }

    /**
     * ALTER TABLE with the name at p: it needs the name and one more token;
     * the only edit is the removal of CASCADE from
     * `DROP [PRIMARY] [KEY] CASCADE`, and only when that clause follows.
     */
    ghost predicate TableAltered(p: nat, d0: Doc, d: Doc, r: bool, cascade: Option<nat>)
    {
      && d0.Fits(|src|)
      && (r <==> IdentAt(p) && p + 1 < |src|)
      && cascade == (if r && WordAt(p + 1, "DROP") && WordAt(CascadeAt(p + 2), "CASCADE") then Some(CascadeAt(p + 2)) else None)
      && d == Remove(d0, cascade)
    }

    /**
     * ALTER INDEX with the optional name at p: always true; the option run
     * after the name is read, and when it holds an option the statement is
     * commented out through a following `;`, or else through its last option.
     */
    ghost predicate IndexAltered(alter: nat, p: nat, d0: Doc, d: Doc, end: nat, r: bool, scan: OptionScan)
    {
      && d0.Fits(|src|) && p <= |src|
      && r && scan == IndexOptions(src, if IdentAt(p) then p + 1 else p)
      && (scan.options == 0 ==> end == scan.end && d == d0)
      && (scan.options > 0 ==> && end == (if WordAt(scan.end, ";") then scan.end + 1 else scan.end)
                               && 0 < end && d == Comment(d0, alter, end - 1, ""))
    }

    /**
     * The DROP clause of ALTER TABLE: optional PRIMARY, optional KEY, then
     * CASCADE, which is the only token of the clause returned.
     */
    method ReadDropCascade() returns (cascade: Option<nat>)
      requires pos <= |src|
      modifies this`pos
      ensures old(pos) <= pos <= |src|
      ensures var q := CascadeAt(old(pos));
        && cascade == (if WordAt(q, "CASCADE") then Some(q) else None)
        && pos == q + (if cascade.Some? then 1 else 0)
      ensures WordAt(old(pos), "CASCADE") ==> cascade == Some(old(pos))
    {
      var primary := NextWord("PRIMARY");
      var key := NextWord("KEY");
      cascade := NextWord("CASCADE");
      if WordAt(old(pos), "CASCADE") {
        NotSameWord(src[old(pos)], "CASCADE", "PRIMARY");
        NotSameWord(src[old(pos)], "CASCADE", "KEY");
      }
    }

    /** Where CASCADE stands in `DROP [PRIMARY] [KEY] CASCADE` when the clause after DROP starts at p. */
    function CascadeAt(p: nat): (q: nat)
      ensures p <= q <= p + 2
    {
      var afterPrimary := if WordAt(p, "PRIMARY") then p + 1 else p;
      if WordAt(afterPrimary, "KEY") then afterPrimary + 1 else afterPrimary
    }

    /** In `DROP PRIMARY KEY CASCADE` and its shorter forms, CASCADE is the token found. */
    lemma DropPrimaryKeyCascade(p: nat)
      requires WordAt(p, "CASCADE") || (WordAt(p, "PRIMARY") && WordAt(p + 1, "CASCADE"))
            || (WordAt(p, "KEY") && WordAt(p + 1, "CASCADE"))
            || (WordAt(p, "PRIMARY") && WordAt(p + 1, "KEY") && WordAt(p + 2, "CASCADE"))
      ensures WordAt(CascadeAt(p), "CASCADE")
    {
      if WordAt(p, "CASCADE") {
        NotSameWord(src[p], "CASCADE", "PRIMARY");
        NotSameWord(src[p], "CASCADE", "KEY");
      } else if WordAt(p, "KEY") {
        NotSameWord(src[p], "KEY", "PRIMARY");
      } else if WordAt(p + 1, "CASCADE") {
        NotSameWord(src[p + 1], "CASCADE", "KEY");
      }
    }

    /**
     * ParseAlterTableStatement: needs a table name and one more token. The
     * statement scope is ALTER TABLE while the clause is read and is back to
     * its entry value afterwards. `DROP [PRIMARY] [KEY] CASCADE` loses CASCADE.
     */
    method ParseAlterTableStatement(alter: nat, table: nat) returns (r: bool, cascade: Option<nat>)
      requires Valid() && alter < pos
      modifies this`pos, this`doc, this`stmtScope
      ensures Valid() && old(pos) <= pos
      ensures r <==> IdentAt(old(pos)) && old(pos) + 1 < |src|
      ensures stmtScope == old(stmtScope)
      ensures cascade.Some? ==> r && WordAt(old(pos) + 1, "DROP") && cascade.value < |src| && WordAt(cascade.value, "CASCADE")
      ensures doc == Remove(old(doc), cascade)
      ensures r && WordAt(old(pos) + 1, "DROP") ==>
        var q := CascadeAt(old(pos) + 2); cascade == (if WordAt(q, "CASCADE") then Some(q) else None)
      ensures r && WordAt(old(pos) + 1, "DROP") && WordAt(old(pos) + 2, "CASCADE") ==> cascade == Some(old(pos) + 2)
      ensures TableAltered(old(pos), old(doc), doc, r, cascade)
    {
      cascade := None;
      var tableName := NextIdent();
      if tableName.None? {
        return false, cascade;
      }
      var next := NextToken();
      if next.None? {
        return false, cascade;
      }
      var prevStmtScope := stmtScope;
      stmtScope := AlterTableStmt;
      if WordAt(next.value, "ADD") {
        var found := SubFound(StandaloneConstraints);
      } else if WordAt(next.value, "DROP") {
        cascade := ReadDropCascade();
        doc := Remove(doc, cascade);
      }
      stmtScope := prevStmtScope;
      r := true;
    }

    /**
     * One step of the ALTER INDEX option loop: NOPARALLEL, or PARALLEL and its
     * argument, is taken and counted; any other token is pushed back.
     */
    method ReadIndexOption() returns (counted: bool)
      requires pos <= |src|
      modifies this`pos
      ensures counted <==> old(pos) < |src| && IsIndexOption(src[old(pos)])
      ensures !counted ==> pos == old(pos)
      ensures counted ==> pos == OptionNext(src, old(pos))
    {
      var next := NextToken();
      if next.None? {
        return false;
      }
      if WordAt(next.value, "NOPARALLEL") {
        counted := true;
      } else if WordAt(next.value, "PARALLEL") {
        var num := NextToken();
        counted := true;
      } else {
        PushBack(next);
        counted := false;
      }
    }

    /** The option loop of ALTER INDEX: reads exactly the option run IndexOptions describes. */
    method ScanIndexOptions() returns (scan: OptionScan)
      requires pos <= |src|
      modifies this`pos
      ensures scan == IndexOptions(src, old(pos)) && pos == scan.end
    {
      var start := pos;
      var options := 0;
      var removed := 0;
      while true
        invariant start <= pos <= |src| && options == removed
        invariant IndexOptions(src, start) ==
          OptionScan(IndexOptions(src, pos).end, options + IndexOptions(src, pos).options,
                     removed + IndexOptions(src, pos).removed)
        decreases |src| - pos
      {
        var before := pos;
        var counted := ReadIndexOption();
        if !counted {
          break;
        }
        IndexOptionsStep(src, before);
        options := options + 1;
        removed := removed + 1;
      }
      scan := OptionScan(pos, options, removed);
    }

    /**
     * ParseAlterIndexStatement: after the optional index name, reads the run
     * of NOPARALLEL / PARALLEL n options. Every option is one the target does
     * not have, so when there is at least one the whole statement, through
     * a following `;` or else the last option, is commented out. Always true.
     */
    method ParseAlterIndexStatement(alter: nat, index: nat) returns (r: bool, scan: OptionScan)
      requires Valid() && alter < pos
      modifies this`pos, this`doc
      ensures Valid() && r && old(pos) <= pos
      ensures scan == IndexOptions(src, if IdentAt(old(pos)) then old(pos) + 1 else old(pos))
      ensures scan.options == 0 ==> pos == scan.end && doc == old(doc)
      ensures scan.options > 0 ==> pos == (if WordAt(scan.end, ";") then scan.end + 1 else scan.end)
      ensures scan.options > 0 ==> doc == Comment(old(doc), alter, pos - 1, "")
      ensures IndexAltered(alter, old(pos), old(doc), doc, pos, r, scan)
    {
      var name := NextIdent();
      scan := ScanIndexOptions();
      if scan.options > 0 && scan.options == scan.removed {
        var semi := NextWord(";");
        var last := if semi.Some? then semi else LastTaken();
        doc := Comment(doc, alter, last.value, "");
      }
      r := true;
    }

    /**
     * The head of COMMENT ON: ON, the object type, then an optional name, an
     * optional IS and the comment text; ok is false when ON or the type is
     * missing.
     */
    method ReadCommentHead() returns (ok: bool, on: nat, typ: nat, name: Option<nat>, isWord: Option<nat>, text: Option<nat>)
      requires pos <= |src|
      modifies this`pos
      ensures old(pos) <= pos <= |src|
      ensures ok <==> WordAt(old(pos), "ON") && old(pos) + 1 < |src|
      ensures ok ==> on == old(pos) && typ == old(pos) + 1
      ensures ok ==> name == (if IdentAt(old(pos) + 2) then Some(old(pos) + 2) else None)
      ensures ok ==> var p := if name.Some? then old(pos) + 3 else old(pos) + 2;
        && isWord == (if WordAt(p, "IS") then Some(p) else None)
        && text == TokenAt(if isWord.Some? then p + 1 else p)
      ensures ok ==> pos == if text.Some? then text.value + 1 else |src|
      ensures isWord.Some? ==> isWord.value < |src|
      ensures text.Some? ==> text.value < |src|
    {
      on, typ, name, isWord, text := 0, 0, None, None, None;
      var onWord := NextWord("ON");
      if onWord.None? {
        return false, on, typ, name, isWord, text;
      }
      var t := NextToken();
      if t.None? {
        return false, on, typ, name, isWord, text;
      }
      on, typ := onWord.value, t.value;
      name := NextIdent();
      isWord := NextWord("IS");
      text := NextToken();
      ok := true;
    }

    /**
     * ParseCommentStatement: COMMENT ON type [name] [IS] [text]. Without ON
     * or a type word the statement is not recognised. COMMENT ON TABLE
     * becomes ALTER TABLE name COMMENT text. COMMENT ON COLUMN t.c moves the
     * comment into CREATE TABLE t, after the last token of column c (found
     * through its bookmark), and comments the statement out through a
     * following `;`. Any other type is accepted unchanged.
     */
    method ParseCommentStatement(comment: nat)
      returns (r: bool, name: Option<nat>, isWord: Option<nat>, text: Option<nat>, book: Option<nat>)
      requires Valid() && comment < pos
      modifies this`pos, this`doc
      ensures Valid() && old(pos) <= pos
      ensures CommentDone(comment, old(pos), old(doc), doc, books, pos, r, name, isWord, text, book)
    {
      book := None;
      var ok, on, typ;
      ok, on, typ, name, isWord, text := ReadCommentHead();
      if !ok {
        return false, name, isWord, text, book;
      }
      book := RewriteComment(comment, on, name, isWord, text);
      r := true;
    }

    /** The rewrite COMMENT ON makes for the object type after ON at on, once its text is read. */
    method RewriteComment(comment: nat, on: nat, name: Option<nat>, isWord: Option<nat>, text: Option<nat>)
      returns (book: Option<nat>)
      requires Valid() && comment < |src| && on + 1 < |src| && Holds(doc, isWord) && Holds(doc, text)
      requires 0 < pos && pos == if text.Some? then text.value + 1 else |src|
      modifies this`pos, this`doc
      ensures Valid() && old(pos) <= pos
      ensures CommentRewritten(comment, on, old(doc), doc, books, old(pos), pos, name, isWord, text, book)
    {
      book := None;
      if WordAt(on + 1, "TABLE") {
        NotSameWord(src[on + 1], "TABLE", "COLUMN");
        doc := CommentOnTable(doc, comment, on, isWord);
      } else if WordAt(on + 1, "COLUMN") {
        book := MoveColumnComment(comment, name, text);
      }
    }

    /**
     * COMMENT with ON at p, the cursor ending at end: it needs ON and a type
     * word. COMMENT ON TABLE becomes ALTER TABLE name COMMENT text; COMMENT
     * ON COLUMN moves the text after the column's bookmarked last token and
     * takes a following `;`; any other type changes nothing.
     */
    ghost predicate CommentDone(comment: nat, p: nat, d0: Doc, d: Doc, b: map<BookKey, nat>, end: nat, r: bool,
                                name: Option<nat>, isWord: Option<nat>, text: Option<nat>, book: Option<nat>)
    {
      && d0.Fits(|src|) && comment < |src| && Holds(d0, isWord) && Holds(d0, text)
      && (r <==> WordAt(p, "ON") && p + 1 < |src|)
      && (!r ==> d == d0)
      && (r ==> && CommentHeadRead(p, name, isWord, text)
                && CommentRewritten(comment, p, d0, d, b, if text.Some? then text.value + 1 else |src|, end,
                                    name, isWord, text, book))
    }

    /**
     * The rewrite for the type word after ON at on, the text read up to
     * after and the cursor ending at end: TABLE and COLUMN as CommentDone
     * says, any other type nothing.
     */
    ghost predicate CommentRewritten(comment: nat, on: nat, d0: Doc, d: Doc, b: map<BookKey, nat>, after: nat, end: nat,
                                     name: Option<nat>, isWord: Option<nat>, text: Option<nat>, book: Option<nat>)
    {
      && d0.Fits(|src|) && comment < |src| && on < |src| && Holds(d0, isWord) && Holds(d0, text)
      && (WordAt(on + 1, "TABLE") ==> end == after && d == CommentOnTable(d0, comment, on, isWord))
      && (WordAt(on + 1, "COLUMN") ==>
            && end == after + (if WordAt(after, ";") then 1 else 0) && 0 < end
            && book == BookFor(b, name) && d == CommentOnColumn(d0, comment, end - 1, book, text))
      && (!WordAt(on + 1, "TABLE") && !WordAt(on + 1, "COLUMN") ==> end == after && d == d0)
    }

    /** After ON at p and the type word: an optional name, an optional IS and the comment text. */
    ghost predicate CommentHeadRead(p: nat, name: Option<nat>, isWord: Option<nat>, text: Option<nat>)
    {
      && name == (if IdentAt(p + 2) then Some(p + 2) else None)
      && var q := if name.Some? then p + 3 else p + 2;
         && isWord == (if WordAt(q, "IS") then Some(q) else None)
         && text == TokenAt(if isWord.Some? then q + 1 else q)
    }

    /**
     * COMMENT ON COLUMN: the comment goes after the column's bookmarked last
     * token, and the statement is commented out through a following `;`, or
     * else through its last token.
     */
    method MoveColumnComment(comment: nat, name: Option<nat>, text: Option<nat>) returns (book: Option<nat>)
      requires Valid() && 0 < pos && Holds(doc, text)
      modifies this`pos, this`doc
      ensures Valid() && old(pos) <= pos
      ensures pos == old(pos) + (if WordAt(old(pos), ";") then 1 else 0)
      ensures book == BookFor(books, name) && doc == CommentOnColumn(old(doc), comment, pos - 1, book, text)
    {
      book := BookFor(books, name);
      var semi := NextWord(";");
      var last := if semi.Some? then semi else LastTaken();
      doc := CommentOnColumn(doc, comment, last.value, book, text);
    }

    /**
     * The first group of CREATE modifiers: OR [REPLACE], UNIQUE, GLOBAL
     * [TEMPORARY] or PUBLIC. The word first is already taken; when it is one
     * of these the token after the group is taken as well.
     */
    method ReadFirstModifier(first: nat) returns (h: CreateHead, next: Option<nat>)
      requires first < |src| && pos == first + 1
      modifies this`pos
      ensures h.orWord == (if WordAt(first, "OR") then Some(first) else None)
      ensures h.unique == (if !WordAt(first, "OR") && WordAt(first, "UNIQUE") then Some(first) else None)
      ensures h.temp <==> !WordAt(first, "OR") && !WordAt(first, "UNIQUE") && WordAt(first, "GLOBAL")
      ensures h.dropped.None? && h.materialized.None? && h.next.None?
      ensures var m := ModifierEnd(first);
        next == (if m == first then Some(first) else TokenAt(m)) &&
        pos == (if m == first then first + 1 else if m < |src| then m + 1 else |src|)
    {
      next := Some(first);
      h := CreateHead(None, None, false, None, None, None);
      if WordAt(first, "OR") {
        var replace := NextWord("REPLACE");
        next := NextToken();
        h := h.(orWord := Some(first));
      } else if WordAt(first, "UNIQUE") {
        next := NextToken();
        h := h.(unique := Some(first));
      } else if WordAt(first, "GLOBAL") {
        var temporary := NextWord("TEMPORARY");
        next := NextToken();
        h := h.(temp := true);
      } else if WordAt(first, "PUBLIC") {
        next := NextToken();
      }
    }

    /**
     * The second group: FORCE or (NON)EDITIONABLE, which is dropped, or
     * MATERIALIZED. When next is one of these the following token is taken.
     */
    method ReadSecondModifier(h0: CreateHead, next: Option<nat>) returns (h: CreateHead)
      requires pos <= |src| && (next.Some? ==> next.value + 1 == pos)
      modifies this`pos
      ensures h.orWord == h0.orWord && h.unique == h0.unique && h.temp == h0.temp
      ensures h.dropped == (if next.Some? && IsDroppedModifier(next.value) then next else None)
      ensures h.materialized == (if next.Some? && !IsDroppedModifier(next.value) && WordAt(next.value, "MATERIALIZED")
                                 then next else None)
      ensures h.dropped.Some? || h.materialized.Some? ==> h.next == TokenAt(old(pos)) && pos == old(pos) + (if old(pos) < |src| then 1 else 0)
      ensures h.dropped.None? && h.materialized.None? ==> h.next == next && pos == old(pos)
    {
      h := h0.(dropped := None, materialized := None, next := next);
      if next.Some? && IsDroppedModifier(next.value) {
        var after := NextToken();
        h := h.(dropped := next, next := after);
      } else if next.Some? && WordAt(next.value, "MATERIALIZED") {
        var after := NextToken();
        h := h.(materialized := next, next := after);
      }
    }

    /** Position of the token after the first group of CREATE modifiers starting at first. */
    function ModifierEnd(first: nat): (m: nat)
      ensures first <= m <= first + 2
    {
      if WordAt(first, "OR") then first + 1 + (if WordAt(first + 1, "REPLACE") then 1 else 0)
      else if WordAt(first, "UNIQUE") then first + 1
      else if WordAt(first, "GLOBAL") then first + 1 + (if WordAt(first + 1, "TEMPORARY") then 1 else 0)
      else if WordAt(first, "PUBLIC") then first + 1
      else first
    }

    /** The object the token t names after CREATE, if any. */
    function ObjectAt(t: Option<nat>): Option<ObjectKind>
    {
      if t.Some? && t.value < |src| then ObjectOf(src[t.value]) else None
    }

    /** FORCE, EDITIONABLE and NONEDITIONABLE are dropped from the target statement. */
    predicate IsDroppedModifier(p: nat)
    {
      WordAt(p, "FORCE") || WordAt(p, "EDITIONABLE") || WordAt(p, "NONEDITIONABLE")
    }

    /** The object handler of CREATE once the head read at p has named an object. */
    method DispatchCreateObject(create: nat, h: CreateHead, ghost p: nat, ghost was: Effects, ghost rt0: Routine)
      returns (r: bool, ghost handlerScope: Scope, ghost made: CreateOutcome)
      requires Valid() && create < p < |src| && HeadRead(p, h) && Holds(was.doc, h.dropped) && was.doc.Fits(|src|)
      requires h.next.Some? && h.next.value < |src| && create < pos && pos == h.next.value + 1
      requires Effects(doc, books, calls) == was.(doc := Remove(was.doc, h.dropped)) && rt0 == spl
      requires objScope == NoScope || objScope == TempTableScope
      modifies this`pos, this`doc, this`books, this`calls, this`spl, this`scopes, this`objScope
      ensures Valid() && old(pos) <= pos
      ensures ObjectOf(src[h.next.value]) == Some(IndexObject) ==> handlerScope == IndexScope
      ensures ObjectOf(src[h.next.value]) == Some(TableObject) ==>
        handlerScope == (if old(objScope) == TempTableScope then TempTableScope else TableScope)
      ensures CreateDone(create, p, was, Effects(doc, books, calls), rt0, spl, pos, r, h, made)
      ensures scopes == old(scopes)
    {
      r, handlerScope, made := DispatchCreate(create, h, h.next.value, was.(doc := Remove(was.doc, h.dropped)));
    }

    /**
     * The object handlers of CREATE. INDEX runs in the index scope and
     * TABLE in the table scope unless GLOBAL TEMPORARY set the temporary
     * one; TABLESPACE always fails; any other word fails without reading.
     */
    method DispatchCreate(create: nat, h: CreateHead, n: nat, ghost was: Effects) returns (r: bool, ghost handlerScope: Scope, ghost made: CreateOutcome)
      requires Valid() && create < pos && n < |src| && pos == n + 1 && was == Effects(doc, books, calls)
      requires objScope == NoScope || objScope == TempTableScope
      modifies this`pos, this`doc, this`books, this`calls, this`spl, this`scopes, this`objScope
      ensures Valid() && old(pos) <= pos
      ensures ObjectOf(src[n]) == Some(IndexObject) ==> handlerScope == IndexScope
      ensures ObjectOf(src[n]) == Some(TableObject) ==>
        handlerScope == (if old(objScope) == TempTableScope then TempTableScope else TableScope)
      ensures ObjectDone(create, h.orWord, n, was, Effects(doc, books, calls), pos, r, made)
      ensures spl == ObjectRoutine(create, n, old(spl), r)
      ensures scopes == old(scopes)
    {
      handlerScope := objScope;
      made := NothingCreated;
      match ObjectOf(src[n])
      case None =>
        r := false;
      case Some(IndexObject) =>
        r, made := DispatchCreateIndex(create, h, n, was);
        handlerScope := objScope;
      case Some(TableObject) =>
        r, made := DispatchCreateTable(create, h, n, was);
        handlerScope := objScope;
      case Some(TablespaceObject) =>
        r := false;
      case Some(_) =>
        r, made := DispatchCreateOther(create, h, n, was);
    }

    /** CREATE INDEX, run in the index scope. */
    method DispatchCreateIndex(create: nat, h: CreateHead, n: nat, ghost was: Effects) returns (r: bool, ghost made: CreateOutcome)
      requires Valid() && create < pos && n < |src| && pos == n + 1 && was == Effects(doc, books, calls)
      requires ObjectOf(src[n]) == Some(IndexObject)
      modifies this`pos, this`books, this`objScope
      ensures Valid() && old(pos) <= pos && objScope == IndexScope
      ensures ObjectDone(create, h.orWord, n, was, Effects(doc, books, calls), pos, r, made)
      ensures spl == ObjectRoutine(create, n, old(spl), r)
    {
      objScope := IndexScope;
      var cols;
      r, cols := ParseCreateIndex(create, h.unique, n);
      made := IndexCreated(cols);
    }

    /** CREATE TABLE, run in the table scope unless GLOBAL TEMPORARY set the temporary one. */
    method DispatchCreateTable(create: nat, h: CreateHead, n: nat, ghost was: Effects) returns (r: bool, ghost made: CreateOutcome)
      requires Valid() && create < pos && n < |src| && pos == n + 1 && was == Effects(doc, books, calls)
      requires ObjectOf(src[n]) == Some(TableObject)
      requires objScope == NoScope || objScope == TempTableScope
      modifies this`pos, this`books, this`calls, this`spl, this`objScope
      ensures Valid() && old(pos) <= pos
      ensures objScope == (if old(objScope) == TempTableScope then TempTableScope else TableScope)
      ensures ObjectDone(create, h.orWord, n, was, Effects(doc, books, calls), pos, r, made)
      ensures spl == ObjectRoutine(create, n, old(spl), r)
    {
      if objScope == NoScope {
        objScope := TableScope;
      }
      var items, idCol, close;
      r, items, idCol, close := ParseCreateTable(create, n);
      made := TableCreated(items, idCol, close);
      ghost var now := Effects(doc, books, calls);
      TableObjectDone(create, h.orWord, n, was, now, pos, r, made);
    }

    /** ObjectDone for the TABLE keyword is TableDone with the document kept. */
    lemma TableObjectDone(create: nat, orWord: Option<nat>, n: nat, was: Effects, now: Effects, end: nat, r: bool, made: CreateOutcome)
      requires n < |src| && was.doc.Fits(|src|) && create <= n && ObjectOf(src[n]) == Some(TableObject)
      requires made.TableCreated? && now.doc == was.doc
      requires TableDone(create, n + 1, was, now, end, r, made.items, made.idCol, made.close)
      ensures ObjectDone(create, orWord, n, was, now, end, r, made)
    {
    }

    /** The CREATE handlers that run in the scope they are given: TRIGGER, TYPE and VIEW. */
    method DispatchCreateOther(create: nat, h: CreateHead, n: nat, ghost was: Effects) returns (r: bool, ghost made: CreateOutcome)
      requires Valid() && create < pos && n < |src| && pos == n + 1 && was == Effects(doc, books, calls)
      requires ObjectOf(src[n]) in {Some(TriggerObject), Some(TypeObject), Some(ViewObject)}
      modifies this`pos, this`doc, this`books, this`calls, this`spl, this`scopes
      ensures Valid() && old(pos) <= pos
      ensures ObjectDone(create, h.orWord, n, was, Effects(doc, books, calls), pos, r, made)
      ensures spl == ObjectRoutine(create, n, old(spl), r)
      ensures scopes == old(scopes)
    {
      if ObjectOf(src[n]) == Some(TriggerObject) {
        var body;
        r, body := ParseCreateTrigger(create, h.orWord, n);
        made := TriggerCreated(body);
      } else if ObjectOf(src[n]) == Some(TypeObject) {
        var typeEnd, end;
        r, typeEnd, end := ParseCreateType(create, n);
        made := TypeCreated(typeEnd, end);
      } else {
        var start, end;
        r, start, end := ParseCreateView(create, h.materialized, n);
        made := ViewCreated(start, end);
      }
    }

    /**
     * ParseCreateStatement: reads the modifiers after CREATE and routes on
     * the object keyword. The object scope is cleared (or set to the
     * temporary-table scope by GLOBAL TEMPORARY) while the statement is
     * read and restored afterwards, except when the stream ends before the
     * object keyword: that return leaves it as it was set.
     */
    method ParseCreateStatement(create: nat) returns (r: bool, h: CreateHead, ghost handlerScope: Scope, ghost made: CreateOutcome)
      requires Valid() && create < pos
      modifies this`pos, this`doc, this`books, this`calls, this`spl, this`scopes, this`objScope
      ensures Valid() && old(pos) <= pos
      ensures CreateDone(create, old(pos), Effects(old(doc), old(books), old(calls)), Effects(doc, books, calls),
                         old(spl), spl, pos, r, h, made)
      ensures scopes == old(scopes)
      ensures old(pos) == |src| ==> objScope == old(objScope)
      ensures old(pos) < |src| && h.next.None? ==> objScope == (if h.temp then TempTableScope else NoScope)
      ensures old(pos) < |src| && h.next.Some? ==> objScope == old(objScope)
      ensures ObjectAt(h.next) == Some(IndexObject) ==> handlerScope == IndexScope
      ensures ObjectAt(h.next) == Some(TableObject) ==> handlerScope == (if h.temp then TempTableScope else TableScope)
    {
      handlerScope := objScope;
      made := NothingCreated;
      h := CreateHead(None, None, false, None, None, None);
      if pos == |src| {
        return false, h, handlerScope, made;
      }
      var prevScope := objScope;
      r, h, handlerScope, made := ParseCreateObject(create);
      if h.next.Some? {
        ghost var now := Effects(doc, books, calls);
        objScope := prevScope;
        assert Effects(doc, books, calls) == now;
      }
    }

    /**
     * CREATE before the end of the stream: the modifiers, the object scope
     * they select, the removal of a dropped modifier and the object handler.
     */
    method ParseCreateObject(create: nat) returns (r: bool, h: CreateHead, ghost handlerScope: Scope, ghost made: CreateOutcome)
      requires Valid() && create < pos < |src|
      modifies this`pos, this`doc, this`books, this`calls, this`spl, this`scopes, this`objScope
      ensures Valid() && old(pos) <= pos
      ensures CreateDone(create, old(pos), Effects(old(doc), old(books), old(calls)), Effects(doc, books, calls),
                         old(spl), spl, pos, r, h, made)
      ensures scopes == old(scopes)
      ensures h.next.None? ==> objScope == (if h.temp then TempTableScope else NoScope)
      ensures ObjectAt(h.next) == Some(IndexObject) ==> handlerScope == IndexScope
      ensures ObjectAt(h.next) == Some(TableObject) ==> handlerScope == (if h.temp then TempTableScope else TableScope)
    {
      h := ReadCreateHead();
      r, handlerScope, made := CreateAfterHead(create, h, old(pos), Effects(old(doc), old(books), old(calls)), old(spl));
    }

    /**
     * CREATE once its head is read from p: the object scope the modifiers
     * select, the removal of a dropped modifier and the object handler.
     */
    method CreateAfterHead(create: nat, h: CreateHead, ghost p: nat, ghost was: Effects, ghost rt0: Routine)
      returns (r: bool, ghost handlerScope: Scope, ghost made: CreateOutcome)
      requires Valid() && create < p < pos <= |src| && HeadRead(p, h)
      requires h.dropped.Some? ==> h.dropped.value < |src|
      requires if h.next.Some? then pos == h.next.value + 1 else pos == |src|
      requires was == Effects(doc, books, calls) && rt0 == spl
      modifies this`pos, this`doc, this`books, this`calls, this`spl, this`scopes, this`objScope
      ensures Valid() && old(pos) <= pos
      ensures CreateDone(create, p, was, Effects(doc, books, calls), rt0, spl, pos, r, h, made)
      ensures scopes == old(scopes)
      ensures h.next.None? ==> objScope == (if h.temp then TempTableScope else NoScope)
      ensures ObjectAt(h.next) == Some(IndexObject) ==> handlerScope == IndexScope
      ensures ObjectAt(h.next) == Some(TableObject) ==> handlerScope == (if h.temp then TempTableScope else TableScope)
    {
      handlerScope := objScope;
      made := NothingCreated;
      objScope := if h.temp then TempTableScope else NoScope;
      doc := Remove(doc, h.dropped);
      if h.next.None? {
        r := false;
        NoObjectCreateDone(create, p, was, Effects(doc, books, calls), rt0, spl, pos, h);
        return;
      }
      r, handlerScope, made := DispatchCreateObject(create, h, p, was, rt0);
    }

    /** CREATE whose modifiers run to the end of the stream removes the dropped modifier and nothing else. */
    lemma NoObjectCreateDone(create: nat, p: nat, was: Effects, now: Effects, rt0: Routine, rt: Routine, end: nat, h: CreateHead)
      requires p < |src| && HeadRead(p, h) && Holds(was.doc, h.dropped) && was.doc.Fits(|src|) && h.next.None?
      requires now == was.(doc := Remove(was.doc, h.dropped)) && rt == rt0
      ensures CreateDone(create, p, was, now, rt0, rt, end, false, h, NothingCreated)
    {
    }

    /** The word after CREATE and the modifiers after it, up to and including the object keyword. */
    method ReadCreateHead() returns (h: CreateHead)
      requires pos < |src|
      modifies this`pos
      ensures HeadRead(old(pos), h) && old(pos) < pos <= |src|
      ensures h.dropped.Some? ==> h.dropped.value < |src|
      ensures if h.next.Some? then pos == h.next.value + 1 else pos == |src|
    {
      var first := NextToken();
      var next;
      h, next := ReadFirstModifier(first.value);
      h := ReadSecondModifier(h, next);
    }

    /**
     * The modifiers of CREATE as read from the word first after it: OR,
     * UNIQUE or GLOBAL in first place, then at the position m after that
     * group a FORCE or (NON)EDITIONABLE that is dropped or a MATERIALIZED,
     * and the object keyword after those.
     */
    ghost predicate HeadRead(first: nat, h: CreateHead)
    {
      var m := ModifierEnd(first);
      && h.orWord == (if WordAt(first, "OR") then Some(first) else None)
      && h.unique == (if !WordAt(first, "OR") && WordAt(first, "UNIQUE") then Some(first) else None)
      && h.temp == (!WordAt(first, "OR") && !WordAt(first, "UNIQUE") && WordAt(first, "GLOBAL"))
      && h.dropped == (if IsDroppedModifier(m) then Some(m) else None)
      && h.materialized == (if !IsDroppedModifier(m) && WordAt(m, "MATERIALIZED") then Some(m) else None)
      && h.next == TokenAt(if h.dropped.Some? || h.materialized.Some? then m + 1 else m)
    }

    /**
     * The effect of CREATE when the token after it is at p, the cursor
     * ending at end: at the end of the stream nothing happens; otherwise the
     * modifiers are read as HeadRead says, a dropped modifier is removed,
     * and the object keyword, when there is one, selects ObjectDone.
     */
    ghost predicate CreateDone(create: nat, p: nat, was: Effects, now: Effects, rt0: Routine, rt: Routine, end: nat, r: bool,
                               h: CreateHead, made: CreateOutcome)
    {
      && was.doc.Fits(|src|)
      && (p == |src| ==> !r && end == p && now == was && rt == rt0)
      && (p < |src| ==>
            && HeadRead(p, h) && Holds(was.doc, h.dropped)
            && (h.next.None? ==> !r && now == was.(doc := Remove(was.doc, h.dropped)) && rt == rt0)
            && (h.next.Some? ==>
                  && ObjectDone(create, h.orWord, h.next.value, was.(doc := Remove(was.doc, h.dropped)), now, end, r, made)
                  && rt == ObjectRoutine(create, h.next.value, rt0, r)))
    }

    /**
     * The effect of the object handler chosen by the keyword at n, the
     * cursor ending at end. INDEX and TABLE leave the document as it was,
     * TRIGGER, TYPE and VIEW the registry; TABLESPACE and an unknown word
     * fail and change nothing.
     */
    ghost predicate ObjectDone(create: nat, orWord: Option<nat>, n: nat, was: Effects, now: Effects,
                               end: nat, r: bool, made: CreateOutcome)
    {
      && n < |src| && was.doc.Fits(|src|) && create <= n
      && match ObjectOf(src[n])
         case None => !r && end == n + 1 && now == was
         case Some(TablespaceObject) => !r && end == n + 1 && now == was
         case Some(IndexObject) =>
           && made.IndexCreated? && now.doc == was.doc && now.calls == was.calls
           && IndexDone(create, n + 1, was.books, now.books, end, r, made.cols)
         case Some(TableObject) =>
           && made.TableCreated? && now.doc == was.doc
           && TableDone(create, n + 1, was, now, end, r, made.items, made.idCol, made.close)
         case Some(TriggerObject) =>
           made.TriggerCreated? && now.books == was.books && TriggerDone(create, orWord, n + 1, was, now, end, r, made.body)
         case Some(TypeObject) =>
           made.TypeCreated? && now.books == was.books && TypeDone(create, n + 1, was, now, end, r, made.typeEnd, made.end)
         case Some(ViewObject) =>
           && made.ViewCreated? && now.books == was.books && now.calls == was.calls
           && ViewDone(n + 1, was.doc, now.doc, end, r, made.start, made.end)
    }

    /**
     * The routine state after the CREATE handler chosen by the keyword at n,
     * from rt0 and whether it succeeded: a created table becomes the
     * routine's last statement, and its first non-declaration one if there
     * was none; TRIGGER clears the routine, which stays a trigger started at
     * CREATE when no name followed; the other objects keep it.
     */
    function ObjectRoutine(create: nat, n: nat, rt0: Routine, r: bool): Routine
      requires n < |src|
    {
      match ObjectOf(src[n])
      case Some(TableObject) =>
        if r then rt0.(firstNonDeclare := Nvl(rt0.firstNonDeclare, Some(create)), lastStmt := Some(create)) else rt0
      case Some(TriggerObject) =>
        if r then ClearedRoutine() else ClearedRoutine().(scope := TriggerScope, start := Some(create))
      case _ => rt0
    }

    /**
     * CREATE INDEX read from p, the registry going from b0 to b and the
     * cursor ending at end: success needs the index name and, after an
     * optional ON, the table name. The start bookmark on CREATE is set once
     * the name is read, the end bookmark on the last token read only on
     * success, and the index columns are listed with commas between them.
     */
    ghost predicate IndexDone(create: nat, p: nat, b0: map<BookKey, nat>, b: map<BookKey, nat>, end: nat, r: bool,
                              cols: seq<nat>)
    {
      && p <= end <= |src|
      && (r <==> IdentAt(p) && IdentAt(p + 1 + (if WordAt(p + 1, "ON") then 1 else 0)))
      && (!IdentAt(p) ==> end == p && b == b0)
      && (IdentAt(p) ==> NamedIndexDone(create, p, b0, b, end, r, cols))
      && (!r ==> cols == [])
    }

    /**
     * CREATE INDEX after its name at p: the body is IndexBodyFrom(p + 1),
     * the start bookmark is set, and the end bookmark and the columns only
     * when the table name was found.
     */
    ghost predicate NamedIndexDone(create: nat, p: nat, b0: map<BookKey, nat>, b: map<BookKey, nat>, end: nat, r: bool,
                                   cols: seq<nat>)
      requires p < |src|
    {
      && var ib := IndexBodyFrom(p + 1);
      && (r <==> ib.0.Some?) && cols == ib.1 && end == ib.2
      && (!r ==> b == b0[ObjectKey(CiStart, src[p]) := create])
      && (r ==> p < end && b == b0[ObjectKey(CiStart, src[p]) := create][ObjectKey(CiEnd, src[p]) := end - 1]
                && CommaListed(cols, p + 2, end))
    }

    /**
     * CREATE TABLE read from p, the cursor ending at end: it fails at once
     * without a name; the columns and constraints read lie in the statement
     * and the identity column is the last SERIAL one; on success the
     * registry is TableBooks of them and identity emulation is requested
     * exactly when there is such a column; on failure after the name the
     * start bookmark and the column bookmarks already set stay.
     */
    ghost predicate TableDone(create: nat, p: nat, was: Effects, now: Effects, end: nat, r: bool,
                              items: seq<ColumnItem>, idCol: Option<nat>, close: Option<nat>)
    {
      && p <= end <= |src|
      && (!IdentAt(p) ==> !r && end == p && now.books == was.books && items == [] && close.None?)
      && (IdentAt(p) ==> var tb := TableBody(p + 1);
            && (r <==> tb.0) && items == tb.1 && close == tb.2
            && end == (if r then tb.3 + (if WordAt(tb.3, ";") then 1 else 0) else tb.3))
      && (r <==> IdentAt(p) && (WordAt(p + 1, "AS") || (WordAt(p + 1, "(") && WordAt(ColumnsFrom(p + 2).2, ")"))))
      && ColumnsRead(items, p, end) && idCol == IdentityColumn(None, items)
      && (r ==> && IdentAt(p) && 0 < end && now.books == TableBooks(was.books, src[p], create, items, close, end - 1)
                && now.calls == was.calls + (if idCol.Some? then [EmulateIdentity(create, p, idCol.value, end - 1)] else []))
      && (IdentAt(p) && !r ==> now.books == ColumnBooks(was.books[ObjectKey(CtStart, src[p]) := create], src[p], items))
      && (!r ==> now.calls == was.calls)
    }

    /**
     * CREATE TRIGGER read from p, the cursor ending at end: CREATE becomes
     * CREATE OR REPLACE unless OR was written; without a name the statement
     * fails there, otherwise the body is rewritten by TriggerBodyEdit; the
     * routine state is reset on entry and, on success, again after the copy
     * blocks are cleared.
     */
    ghost predicate TriggerDone(create: nat, orWord: Option<nat>, p: nat, was: Effects, now: Effects, end: nat, r: bool,
                                b: TriggerBody)
    {
      && was.doc.Fits(|src|) && create < |src| && p <= end
      && (r <==> IdentAt(p))
      && var named := if orWord.None? then Change(was.doc, Some(create), "CREATE OR REPLACE") else was.doc;
         && (!r ==> end == p && now.doc == named && now.calls == was.calls + [ClearSplScope])
         && (r ==> && NamedTriggerDone(create, p, named, now.doc, b)
                   && now.calls == was.calls + [ClearSplScope, ClearCopy, ClearSplScope])
    }

    /**
     * CREATE TRIGGER after its name at p: the body starts where the header
     * after the name ends, its pattern check is TriggerPatternFrom there and
     * its block ends where the Block grammar stops; the document goes from
     * d0 to d by TriggerBodyEdit.
     */
    ghost predicate NamedTriggerDone(create: nat, p: nat, d0: Doc, d: Doc, b: TriggerBody)
    {
      p < |src| && b.start == TriggerHeaderEnd(p + 1) && TriggerBodyDone(create, d0, d, b)
    }

    /** A trigger body read from b.start as TriggerBodyAt says, and the document edited by TriggerBodyEdit. */
    ghost predicate TriggerBodyDone(create: nat, d0: Doc, d: Doc, b: TriggerBody)
    {
      && d0.Fits(|d0.removed|) && TriggerBodyFits(d0, create, b)
      && d == TriggerBodyEdit(d0, create, b) && TriggerBodyAt(b)
    }

    /**
     * A trigger body as read from where it starts: BEGIN, the pattern check
     * and the end of the block are those TriggerPatternFrom and the Block
     * grammar give.
     */
    ghost predicate TriggerBodyAt(b: TriggerBody)
    {
      && b.start <= |src|
      && var t := TriggerPatternFrom(b.start);
      && b.begin == t.0 && b.removedTo == t.1 && b.blockEnd == Extent(Block, t.2)
    }

    /**
     * CREATE TYPE read from p, the cursor ending at end: it fails only at
     * the end of the stream; otherwise the type is registered with the
     * token after its name as data type, and CreateTypeEdit marks CREATE
     * and the statement's last token, last.
     */
    ghost predicate TypeDone(create: nat, p: nat, was: Effects, now: Effects, end: nat, r: bool,
                             typeEnd: Option<nat>, last: nat)
    {
      && was.doc.Fits(|src|) && p <= end <= |src|
      && (r <==> p < |src|)
      && (!r ==> end == p && now.doc == was.doc && now.calls == was.calls)
      && (r ==> && create < last && last == end - 1
                && var afterType := Extent(DataType, if p + 1 < |src| then p + 2 else p + 1);
                && typeEnd == Some(afterType - 1)
                && var c := Extent(ColumnConstraints, afterType);
                && end == c + (if WordAt(c, ";") then 1 else 0)
                && now.calls == was.calls + [UdtAdd(p, TokenAt(p + 1), typeEnd)]
                && now.doc == CreateTypeEdit(was.doc, create, last))
    }

    /**
     * CREATE VIEW read from p, the document going from d0 to d and the
     * cursor ending at end: it fails only without a name; the options start
     * after the head (ViewHeadEnd), their maximal run ends at stop and is
     * removed, and the token after the run is taken unless it is WITH.
     */
    ghost predicate ViewDone(p: nat, d0: Doc, d: Doc, end: nat, r: bool, start: nat, stop: nat)
    {
      && d0.Fits(|src|) && p <= end
      && (r <==> IdentAt(p))
      && (!r ==> end == p && d == d0)
      && (r ==> && start == ViewHeadEnd(p + 1) && stop == ViewOptions(src, start)
                && d == RemoveSpan(d0, start, stop)
                && end == (if stop < |src| && !WordAt(stop, "WITH") then stop + 1 else stop))
    }

    /** Token p is the routine's outer label without its trailing `:`. */
    predicate OuterLabelAt(p: nat)
      reads this`spl
    {
      && spl.outerLabel.Some? && spl.outerLabel.value < |src| && p < |src|
      && |src[spl.outerLabel.value]| > 0
      && SameWord(src[spl.outerLabel.value][..|src[spl.outerLabel.value]| - 1], src[p])
    }

    /**
     * ParseSplEndName: after END a routine may repeat its name, or its outer
     * label, which is removed for the target. Anything else is pushed back.
     */
    method ParseSplEndName(name: Option<nat>, end: Option<nat>) returns (r: bool)
      requires Valid() && (name.Some? ==> name.value < |src|)
      modifies this`pos, this`doc
      ensures Valid()
      ensures r <==> name.Some? && old(pos) < |src| && (SameWord(src[name.value], src[old(pos)]) || OuterLabelAt(old(pos)))
      ensures pos == if r then old(pos) + 1 else old(pos)
      ensures doc == if r && !SameWord(src[name.value], src[old(pos)]) then Remove(old(doc), Some(old(pos))) else old(doc)
    {
      if name.None? {
        return false;
      }
      var next := NextToken();
      if next.None? {
        return false;
      }
      if SameWord(src[name.value], src[next.value]) {
        return true;
      }
      if OuterLabelAt(next.value) {
        doc := Remove(doc, next);
        return true;
      }
      PushBack(next);
      r := false;
    }

    /**
     * The start of a trigger body: an optional BEGIN, then the conversion
     * pattern for whole triggers; when the pattern matches, the trigger is
     * removed from CREATE through its END or `;`.
     */
    method ReadTriggerPattern(create: nat) returns (begin: Option<nat>, removedTo: Option<nat>)
      requires Valid() && create < pos
      modifies this`pos, this`doc
      ensures Valid() && old(pos) <= pos
      ensures begin == if WordAt(old(pos), "BEGIN") then Some(old(pos)) else None
      ensures removedTo.Some? ==> create <= removedTo.value < pos
      ensures removedTo.Some? ==> WordAt(removedTo.value, ";") || WordAt(removedTo.value, "END")
      ensures doc == if removedTo.Some? then RemoveRange(old(doc), create, removedTo.value) else old(doc)
      ensures (begin, removedTo, pos) == TriggerPatternFrom(old(pos))
    {
      begin := NextWord("BEGIN");
      removedTo := None;
      var pattern := SubFound(TriggerPattern);
      if pattern {
        removedTo := RemoveMatchedTrigger(create);
      }
    }

    /**
     * After a matched trigger pattern: END and a `;` after it are taken when
     * they come, and CREATE through the last of them is removed.
     */
    method RemoveMatchedTrigger(create: nat) returns (removedTo: Option<nat>)
      requires Valid() && create < pos
      modifies this`pos, this`doc
      ensures Valid() && old(pos) <= pos
      ensures var end := if WordAt(old(pos), "END") then Some(old(pos)) else None;
        var s := old(pos) + (if end.Some? then 1 else 0);
        var semi := if WordAt(s, ";") then Some(s) else None;
        removedTo == Nvl(semi, end) && pos == s + (if semi.Some? then 1 else 0)
      ensures removedTo.Some? ==> create <= removedTo.value < pos
      ensures doc == if removedTo.Some? then RemoveRange(old(doc), create, removedTo.value) else old(doc)
    {
      var end := NextWord("END");
      var semi := NextWord(";");
      removedTo := Nvl(semi, end);
      if removedTo.Some? {
        doc := RemoveRange(doc, create, removedTo.value);
      }
    }

    /**
     * The start of a trigger body read from p: BEGIN when it comes; then,
     * when the TriggerPattern grammar matches, an END and a `;` after it
     * are taken when they come, and the last of them is the last token of
     * the removed trigger; last, where the block starts.
     */
    function TriggerPatternFrom(p: nat): (r: (Option<nat>, Option<nat>, nat))
      requires p <= |src|
      ensures p <= r.2 <= |src|
    {
      var begin := if WordAt(p, "BEGIN") then Some(p) else None;
      var b0 := p + (if begin.Some? then 1 else 0);
      var q := Extent(TriggerPattern, b0);
      var end := if WordAt(q, "END") then Some(q) else None;
      var s := q + (if end.Some? then 1 else 0);
      var semi := if WordAt(s, ";") then Some(s) else None;
      (begin, if q > b0 then Nvl(semi, end) else None, if q > b0 then s + (if semi.Some? then 1 else 0) else q)
    }

    /**
     * The `;` after a trigger's END, possibly after the trigger name (or
     * the outer label, which is removed); an END still without one gets it
     * appended.
     */
    method CloseTriggerEnd(name: nat, end: Option<nat>) returns (semi: bool, labelled: Option<nat>)
      requires Valid() && name < |src| && (end.Some? ==> end.value < |src|)
      modifies this`pos, this`doc
      ensures Valid() && old(pos) <= pos
      ensures semi ==> WordAt(pos - 1, ";")
      ensures WordAt(old(pos), ";") ==> semi && pos == old(pos) + 1 && labelled.None?
      ensures labelled.Some? ==> labelled.value == old(pos) < pos && OuterLabelAt(old(pos))
      ensures doc == EndSemicolon(Remove(old(doc), labelled), end, semi)
    {
      labelled := None;
      var start := pos;
      var semiTok := NextWord(";");
      if semiTok.Some? {
        return true, labelled;
      }
      var named := ParseSplEndName(Some(name), end);
      if named && !SameWord(src[name], src[start]) {
        labelled := Some(start);
      }
      if named {
        semiTok := NextWord(";");
      }
      semi := semiTok.Some?;
      doc := EndSemicolon(doc, end, semi);
    }

    /**
     * ParseCreateTriggerBody: the pattern check, the block, END, and the
     * closing `;`. Without BEGIN and END an END is added after the block.
     */
    method ParseCreateTriggerBody(create: nat, name: nat) returns (b: TriggerBody)
      requires Valid() && create < pos && name < |src|
      modifies this`pos, this`doc
      ensures Valid() && old(pos) <= b.blockEnd <= pos
      ensures b.begin == if WordAt(old(pos), "BEGIN") then Some(old(pos)) else None
      ensures b.end == if WordAt(b.blockEnd, "END") then Some(b.blockEnd) else None
      ensures b.removedTo.Some? ==> WordAt(b.removedTo.value, ";") || WordAt(b.removedTo.value, "END")
      ensures b.labelled.Some? ==> OuterLabelAt(b.labelled.value)
      ensures b.start == old(pos) && TriggerBodyDone(create, old(doc), doc, b)
    {
      var start := pos;
      var begin, removedTo := ReadTriggerPattern(create);
      var blockEnd, end, semi, labelled := ReadTriggerBlock(name, begin);
      b := TriggerBody(start, begin, removedTo, blockEnd, end, semi, labelled);
    }

    /**
     * The block of a trigger body, END and the closing `;`: END is added
     * after the block when neither BEGIN nor END was written.
     */
    method ReadTriggerBlock(name: nat, begin: Option<nat>)
      returns (blockEnd: nat, end: Option<nat>, semi: bool, labelled: Option<nat>)
      requires Valid() && 0 < pos && name < |src|
      modifies this`pos, this`doc
      ensures Valid() && old(pos) <= blockEnd <= pos && 0 < blockEnd
      ensures end == if WordAt(blockEnd, "END") then Some(blockEnd) else None
      ensures labelled.Some? ==> labelled.value < |src| && OuterLabelAt(labelled.value)
      ensures doc == EndSemicolon(Remove(EndBlock(old(doc), Some(blockEnd - 1), begin, end), labelled), end, semi)
      ensures blockEnd == Extent(Block, old(pos))
    {
      Sub(Block);
      blockEnd := pos;
      end := NextWord("END");
      doc := EndBlock(doc, LastTaken(), begin, end);
      semi, labelled := CloseTriggerEnd(name, end);
    }

    /** BEFORE, AFTER or INSTEAD [OF]: when the trigger fires. */
    method ReadTriggerTiming() returns (timing: Option<nat>)
      requires pos <= |src|
      modifies this`pos
      ensures old(pos) <= pos <= |src|
      ensures timing.Some? <==> WordAt(old(pos), "BEFORE") || WordAt(old(pos), "AFTER") || WordAt(old(pos), "INSTEAD")
      ensures timing.Some? ==> timing == Some(old(pos))
      ensures timing.None? ==> pos == old(pos)
      ensures pos == TimingEnd(old(pos))
    {
      timing := NextWord("BEFORE");
      if timing.None? {
        timing := NextWord("AFTER");
        if timing.None? {
          timing := NextWord("INSTEAD");
          if timing.Some? {
            var of := NextWord("OF");
          }
        }
      }
    }

    /** Where the trigger timing read from p ends: past BEFORE, AFTER, or INSTEAD and an optional OF. */
    function TimingEnd(p: nat): (q: nat)
      requires p <= |src|
      ensures p <= q <= |src|
    {
      if WordAt(p, "BEFORE") || WordAt(p, "AFTER") then p + 1
      else if WordAt(p, "INSTEAD") then p + 1 + (if WordAt(p + 1, "OF") then 1 else 0)
      else p
    }

    /**
     * Where the trigger header read from p ends: timing, events, an
     * optional ON and the table name, REFERENCING and its correlations,
     * FOR EACH and WHEN with its condition.
     */
    function TriggerHeaderEnd(p: nat): (q: nat)
      requires p <= |src|
      ensures p <= q <= |src|
    {
      TriggerTailEnd(TriggerTargetEnd(p))
    }

    /** Where timing, events, an optional ON and the table name read from p end. */
    function TriggerTargetEnd(p: nat): (q: nat)
      requires p <= |src|
      ensures p <= q <= |src|
    {
      var e := EventsFrom(TimingEnd(p)).1;
      var on := e + (if WordAt(e, "ON") then 1 else 0);
      on + (if IdentAt(on) then 1 else 0)
    }

    /** Where REFERENCING with its correlations, FOR EACH and WHEN with its condition, read from p, end. */
    function TriggerTailEnd(p: nat): (q: nat)
      requires p <= |src|
      ensures p <= q <= |src|
    {
      var rf := if WordAt(p, "REFERENCING") then CorrelationsEnd(p + 1) else p;
      var c := ForEachEnd(rf);
      if WordAt(c, "WHEN") then Extent(BooleanExpression, c + 1) else c
    }

    /** Token p is a trigger event. */
    predicate IsTriggerEvent(p: nat)
    {
      WordAt(p, "INSERT") || WordAt(p, "DELETE") || WordAt(p, "UPDATE")
    }

    /** Where `OF col, ...` after an UPDATE event stops when it would start at p. */
    function UpdateColumnsEnd(p: nat): (q: nat)
      requires p <= |src|
      ensures p <= q <= |src|
      ensures !WordAt(p, "OF") ==> q == p
    {
      if WordAt(p, "OF") then ColumnRunEnd(p + 1) else p
    }

    /** The column run of `OF`: any token, then a comma continues the run. */
    function ColumnRunEnd(p: nat): (q: nat)
      requires p <= |src|
      ensures p <= q <= |src|
      decreases |src| - p
    {
      var afterColumn := if p < |src| then p + 1 else p;
      if WordAt(afterColumn, ",") then ColumnRunEnd(afterColumn + 1) else afterColumn
    }

    /**
     * The trigger events of the list starting at p and the position where
     * the list ends: an event, its OF columns for UPDATE, and a comma
     * continues; a token that is no event ends the list without being taken.
     */
    function EventsFrom(p: nat): (r: (seq<nat>, nat))
      requires p <= |src|
      ensures p <= r.1 <= |src|
      decreases |src| - p
    {
      if !IsTriggerEvent(p) then ([], p)
      else
        var q := EventEnd(p);
        if WordAt(q, ",") then var rest := EventsFrom(q + 1); ([p] + rest.0, rest.1)
        else ([p], q)
    }

    /** The position after the event at p, past its OF columns for UPDATE. */
    function EventEnd(p: nat): (q: nat)
      requires p < |src|
      ensures p < q <= |src|
    {
      if WordAt(p, "UPDATE") then UpdateColumnsEnd(p + 1) else p + 1
    }

    /**
     * The events of a list read from p, ending at end: empty exactly when no
     * event stands at p, starting at p otherwise, in stream order, each
     * INSERT, DELETE or UPDATE, and each one after the first right after a
     * comma.
     */
    ghost predicate EventList(p: nat, events: seq<nat>, end: nat)
    {
      && (events == [] <==> !IsTriggerEvent(p))
      && (events == [] ==> end == p)
      && (events != [] ==> events[0] == p)
      && (forall k :: 0 <= k < |events| ==> p <= events[k] < end && IsTriggerEvent(events[k]))
      && (forall k :: 0 < k < |events| ==> events[k - 1] < events[k] && WordAt(events[k] as int - 1, ","))
    }

    /** The list EventsFrom reads is an EventList. */
    lemma {:induction false} EventsListed(p: nat)
      requires p <= |src|
      ensures EventList(p, EventsFrom(p).0, EventsFrom(p).1)
      decreases |src| - p
    {
      var r := EventsFrom(p);
      if !IsTriggerEvent(p) {
        assert r == ([], p);
      } else {
        var q := EventEnd(p);
        if WordAt(q, ",") {
          var rest := EventsFrom(q + 1);
          EventsListed(q + 1);
          assert r == ([p] + rest.0, rest.1);
          EventsConsListed(p, q, rest.0, rest.1);
        } else {
          assert r == ([p], q);
        }
      }
    }

    /** An event, then a comma, in front of an event list starting after the comma is an event list. */
    lemma EventsConsListed(p: nat, q: nat, rest: seq<nat>, end: nat)
      requires p < q && IsTriggerEvent(p) && WordAt(q, ",") && q + 1 <= end
      requires EventList(q + 1, rest, end)
      ensures EventList(p, [p] + rest, end)
    {
      var events := [p] + rest;
      forall k | 0 < k < |events|
        ensures events[k - 1] < events[k] && WordAt(events[k] as int - 1, ",")
      {
        assert events[k] == rest[k - 1];
        if k > 1 {
          assert events[k - 1] == rest[k - 2];
        }
      }
    }

    /**
     * The event list: INSERT, DELETE or UPDATE [OF columns], separated by
     * commas. The first token that is no event is pushed back.
     */
    method ReadTriggerEvents() returns (events: seq<nat>)
      requires pos <= |src|
      modifies this`pos
      ensures (events, pos) == EventsFrom(old(pos))
    {
      events := [];
      ghost var r0 := EventsFrom(pos);
      assert events + EventsFrom(pos).0 == EventsFrom(pos).0;
      while true
        invariant old(pos) <= pos <= |src| && r0 == EventsFrom(old(pos)) && EventsLoop(r0, events, pos)
        decreases |src| - pos
      {
        ghost var p := pos;
        var event, more := ReadTriggerEvent();
        if event.None? {
          assert events + [] == events;
          return;
        }
        EventsLoopNext(r0, events, p, pos, more);
        events := events + [event.value];
        if !more {
          return;
        }
      }
    }

    /** events read before p, EventsFrom reading the rest from p, make up the list r0. */
    ghost predicate EventsLoop(r0: (seq<nat>, nat), events: seq<nat>, p: nat)
    {
      p <= |src| && r0.0 == events + EventsFrom(p).0 && r0.1 == EventsFrom(p).1
    }

    /** One event read at p, ending at q: the list ends there or goes on at q. */
    lemma EventsLoopNext(r0: (seq<nat>, nat), events: seq<nat>, p: nat, q: nat, more: bool)
      requires EventsLoop(r0, events, p) && IsTriggerEvent(p) && p < |src| && q <= |src|
      requires more == WordAt(EventEnd(p), ",") && q == EventEnd(p) + (if more then 1 else 0)
      ensures more ==> EventsLoop(r0, events + [p], q)
      ensures !more ==> r0 == (events + [p], q)
    {
      if more {
        assert EventsFrom(p) == ([p] + EventsFrom(q).0, EventsFrom(q).1);
        assert events + ([p] + EventsFrom(q).0) == events + [p] + EventsFrom(q).0;
      } else {
        assert EventsFrom(p) == ([p], q);
      }
    }

    /**
     * One event of the list: INSERT, DELETE or UPDATE with its OF columns,
     * and the comma after it, which says whether the list goes on. A token
     * that is no event is pushed back.
     */
    method ReadTriggerEvent() returns (event: Option<nat>, more: bool)
      requires pos <= |src|
      modifies this`pos
      ensures old(pos) <= pos <= |src|
      ensures event.None? <==> !IsTriggerEvent(old(pos))
      ensures event.None? ==> !more && pos == old(pos) && EventsFrom(old(pos)) == ([], pos)
      ensures event.Some? ==> && event == Some(old(pos)) && more == WordAt(EventEnd(old(pos)), ",")
                              && pos == EventEnd(old(pos)) + (if more then 1 else 0)
      ensures event.Some? && more ==> EventsFrom(old(pos)) == ([old(pos)] + EventsFrom(pos).0, EventsFrom(pos).1)
      ensures event.Some? && !more ==> EventsFrom(old(pos)) == ([old(pos)], pos)
    {
      more := false;
      event := NextToken();
      if event.None? {
        return;
      }
      if !IsTriggerEvent(event.value) {
        PushBack(event);
        return None, false;
      }
      if WordAt(event.value, "UPDATE") {
        SkipUpdateColumns();
      }
      var comma := NextWord(",");
      more := comma.Some?;
    }

    /** OF col, ... after an UPDATE event. */
    method SkipUpdateColumns()
      requires pos <= |src|
      modifies this`pos
      ensures pos == UpdateColumnsEnd(old(pos))
    {
      var of := NextWord("OF");
      if of.None? {
        return;
      }
      while true
        invariant old(pos) < pos <= |src|
        invariant ColumnRunEnd(pos) == UpdateColumnsEnd(old(pos))
        decreases |src| - pos
      {
        var col := NextToken();
        var comma := NextWord(",");
        if comma.None? {
          return;
        }
      }
    }

    /**
     * The REFERENCING list from p, with the NEW and OLD correlation names
     * known so far: NEW [AS] name and OLD [AS] name set the name to the
     * token after them (absent at the end of the stream), OLD_TABLE [AS]
     * name is skipped, and any other token ends the list without being
     * taken. The result is where the list ends and the two names.
     */
    function Correlations(p: nat, newName: Option<nat>, oldName: Option<nat>): (r: (nat, Option<nat>, Option<nat>))
      requires p <= |src|
      ensures p <= r.0 <= |src|
      ensures r.1 == newName || r.1.None? || p < r.1.value < r.0
      ensures r.2 == oldName || r.2.None? || p < r.2.value < r.0
      decreases |src| - p
    {
      match CorrelationStep(p, newName, oldName)
      case None => (p, newName, oldName)
      case Some(s) => Correlations(s.0, s.1, s.2)
    }

    /** Where the REFERENCING list from p ends, whatever names were known before it. */
    function CorrelationsEnd(p: nat): (q: nat)
      requires p <= |src|
      ensures p <= q <= |src|
      decreases |src| - p
    {
      match CorrelationStep(p, None, None)
      case None => p
      case Some(s) => CorrelationsEnd(s.0)
    }

    /** The names known before the REFERENCING list do not move where it ends. */
    lemma {:induction false} CorrelationsEndSame(p: nat, newName: Option<nat>, oldName: Option<nat>)
      requires p <= |src|
      ensures Correlations(p, newName, oldName).0 == CorrelationsEnd(p)
      decreases |src| - p
    {
      var s := CorrelationStep(p, newName, oldName);
      if s.Some? {
        CorrelationsEndSame(s.value.0, s.value.1, s.value.2);
      }
    }

    /** One item of the REFERENCING list at p, or None when the list ends there. */
    function CorrelationStep(p: nat, newName: Option<nat>, oldName: Option<nat>): (s: Option<(nat, Option<nat>, Option<nat>)>)
      requires p <= |src|
      ensures s.None? <==> !(WordAt(p, "NEW") || WordAt(p, "OLD") || WordAt(p, "OLD_TABLE"))
      ensures s.Some? ==> p < s.value.0 <= |src|
      ensures s.Some? ==> s.value.1 == newName || s.value.1.None? || p < s.value.1.value < s.value.0
      ensures s.Some? ==> s.value.2 == oldName || s.value.2.None? || p < s.value.2.value < s.value.0
    {
      if !(WordAt(p, "NEW") || WordAt(p, "OLD") || WordAt(p, "OLD_TABLE")) then None
      else
        var at := if WordAt(p + 1, "AS") then p + 2 else p + 1;
        var name := TokenAt(at);
        var next := if name.Some? then at + 1 else at;
        if WordAt(p, "NEW") then Some((next, name, oldName))
        else if WordAt(p, "OLD") then Some((next, newName, name))
        else Some((next, newName, oldName))
    }

    /**
     * REFERENCING NEW [AS] name, OLD [AS] name and OLD_TABLE [AS] name, in
     * any order; the NEW and OLD correlation names are recorded for the
     * routine.
     */
    method ReadReferencing()
      requires pos <= |src|
      modifies this`pos, this`spl
      ensures var r := if WordAt(old(pos), "REFERENCING") then Correlations(old(pos) + 1, old(spl.newName), old(spl.oldName))
                       else (old(pos), old(spl.newName), old(spl.oldName));
        pos == r.0 && spl == old(spl).(newName := r.1, oldName := r.2)
      ensures pos == if WordAt(old(pos), "REFERENCING") then CorrelationsEnd(old(pos) + 1) else old(pos)
    {
      var referencing := NextWord("REFERENCING");
      if referencing.None? {
        return;
      }
      var newName, oldName := spl.newName, spl.oldName;
      ghost var r := Correlations(pos, newName, oldName);
      CorrelationsEndSame(pos, newName, oldName);
      var more := true;
      while more
        invariant pos <= |src|
        invariant Correlations(pos, newName, oldName) == r
        invariant spl == old(spl)
        invariant !more ==> CorrelationStep(pos, newName, oldName).None?
        decreases |src| - pos, more
      {
        ghost var was := (pos, newName, oldName);
        more, newName, oldName := ReadCorrelation(newName, oldName);
        assert more ==> Correlations(was.0, was.1, was.2) == Correlations(pos, newName, oldName);
      }
      assert r == (pos, newName, oldName);
      spl := spl.(newName := newName, oldName := oldName);
    }

    /** One item of the REFERENCING list: `more` is false when none starts at the cursor. */
    method ReadCorrelation(newName: Option<nat>, oldName: Option<nat>) returns (more: bool, newName': Option<nat>, oldName': Option<nat>)
      requires pos <= |src|
      modifies this`pos
      ensures more <==> CorrelationStep(old(pos), newName, oldName).Some?
      ensures more ==> (pos, newName', oldName') == CorrelationStep(old(pos), newName, oldName).value
      ensures !more ==> pos == old(pos) && newName' == newName && oldName' == oldName
    {
      newName', oldName' := newName, oldName;
      var next := NextToken();
      if next.None? {
        return false, newName, oldName;
      }
      if WordAt(next.value, "NEW") {
        var asWord := NextWord("AS");
        newName' := NextToken();
      } else if WordAt(next.value, "OLD") {
        var asWord := NextWord("AS");
        oldName' := NextToken();
      } else if WordAt(next.value, "OLD_TABLE") {
        var asWord := NextWord("AS");
        var name := NextToken();
      } else {
        PushBack(next);
        return false, newName, oldName;
      }
      more := true;
    }

    /**
     * Where `FOR EACH ROW` or `FOR EACH STATEMENT` ends when it may start at
     * p: EACH only after FOR, ROW only after EACH, and STATEMENT wherever ROW
     * did not come.
     */
    function ForEachEnd(p: nat): (q: nat)
      requires p <= |src|
      ensures p <= q <= p + 3 && q <= |src|
      ensures !WordAt(p, "FOR") && !WordAt(p, "STATEMENT") ==> q == p
    {
      var afterFor := if WordAt(p, "FOR") then p + 1 else p;
      var each := WordAt(p, "FOR") && WordAt(afterFor, "EACH");
      var afterEach := if each then afterFor + 1 else afterFor;
      var row := each && WordAt(afterEach, "ROW");
      var afterRow := if row then afterEach + 1 else afterEach;
      if !row && WordAt(afterRow, "STATEMENT") then afterRow + 1 else afterRow
    }

    /** FOR EACH ROW or FOR EACH STATEMENT, each word optional. */
    method ReadForEach()
      requires pos <= |src|
      modifies this`pos
      ensures pos == ForEachEnd(old(pos))
    {
      var forWord := NextWord("FOR");
      var each := NextWordAfter(forWord, "EACH");
      var row := NextWordAfter(each, "ROW");
      if row.None? {
        var statement := NextWord("STATEMENT");
      }
    }

    /** FOR EACH ROW or FOR EACH STATEMENT, then WHEN and its condition, read in the trigger-condition scope. */
    method ReadTriggerCondition()
      requires pos <= |src|
      modifies this`pos, this`scopes
      ensures var q := ForEachEnd(old(pos));
        pos == (if WordAt(q, "WHEN") then Extent(BooleanExpression, q + 1) else q)
      ensures scopes == old(scopes)
    {
      ReadForEach();
      var when := NextWord("WHEN");
      if when.Some? {
        Enter(TriggerWhenScope);
        Sub(BooleanExpression);
        Leave(TriggerWhenScope);
      }
    }

    /** The trigger header after the name: timing, events, ON table, REFERENCING and the condition. */
    method ReadTriggerHeader() returns (table: Option<nat>)
      requires pos <= |src|
      modifies this`pos, this`spl, this`scopes
      ensures old(pos) <= pos <= |src|
      ensures table.Some? ==> old(pos) <= table.value < pos && IdentAt(table.value)
      ensures spl == old(spl).(newName := spl.newName, oldName := spl.oldName)
      ensures scopes == old(scopes)
      ensures pos == TriggerHeaderEnd(old(pos))
    {
      table := ReadTriggerTarget();
      ReadTriggerTail();
    }

    /** Timing, events, ON and the table name of a trigger. */
    method ReadTriggerTarget() returns (table: Option<nat>)
      requires pos <= |src|
      modifies this`pos
      ensures old(pos) <= pos <= |src|
      ensures table.Some? ==> old(pos) <= table.value < pos && IdentAt(table.value)
      ensures pos == TriggerTargetEnd(old(pos))
    {
      ReadTriggerFiring();
      table := ReadTriggerTable();
    }

    /** The timing and the events of a trigger. */
    method ReadTriggerFiring()
      requires pos <= |src|
      modifies this`pos
      ensures pos == EventsFrom(TimingEnd(old(pos))).1
    {
      var timing := ReadTriggerTiming();
      var events := ReadTriggerEvents();
    }

    /** ON, which is optional, and the table name of a trigger. */
    method ReadTriggerTable() returns (table: Option<nat>)
      requires pos <= |src|
      modifies this`pos
      ensures var on := old(pos) + (if WordAt(old(pos), "ON") then 1 else 0);
        && table == (if IdentAt(on) then Some(on) else None)
        && pos == on + (if IdentAt(on) then 1 else 0)
    {
      var on := NextWord("ON");
      table := NextIdent();
    }

    /** REFERENCING and the condition of a trigger. */
    method ReadTriggerTail()
      requires pos <= |src|
      modifies this`pos, this`spl, this`scopes
      ensures old(pos) <= pos <= |src|
      ensures spl == old(spl).(newName := spl.newName, oldName := spl.oldName)
      ensures scopes == old(scopes)
      ensures pos == TriggerTailEnd(old(pos))
    {
      ReadReferencing();
      ReadTriggerCondition();
    }

    /**
     * ParseCreateTrigger: the routine state is reset and set to a trigger
     * started at CREATE, which becomes CREATE OR REPLACE unless OR was
     * written. Without a name the statement fails there; otherwise the
     * header and body are read and the routine state is reset again.
     */
    method ParseCreateTrigger(create: nat, orWord: Option<nat>, trigger: nat) returns (r: bool, b: TriggerBody)
      requires Valid() && create < pos
      modifies this`pos, this`doc, this`calls, this`spl, this`scopes
      ensures Valid() && old(pos) <= pos
      ensures TriggerDone(create, orWord, old(pos), Effects(old(doc), old(books), old(calls)), Effects(doc, books, calls), pos, r, b)
      ensures scopes == old(scopes)
      ensures !r ==> spl == ClearedRoutine().(scope := TriggerScope, start := Some(create))
      ensures r ==> spl == ClearedRoutine()
    {
      b := TriggerBody(0, None, None, 1, None, false, None);
      StartTrigger(create, orWord);
      var name := NextIdent();
      if name.None? {
        return false, b;
      }
      spl := spl.(name := name);
      b := ParseNamedTrigger(create, name.value);
      r := true;
    }

    /**
     * The start of CREATE TRIGGER: the routine state is reset and set to a
     * trigger started at CREATE, which becomes CREATE OR REPLACE unless OR
     * was written.
     */
    method StartTrigger(create: nat, orWord: Option<nat>)
      requires Valid() && create < pos
      modifies this`doc, this`calls, this`spl
      ensures Valid()
      ensures doc == if orWord.None? then Change(old(doc), Some(create), "CREATE OR REPLACE") else old(doc)
      ensures calls == old(calls) + [ClearSplScope]
      ensures spl == ClearedRoutine().(scope := TriggerScope, start := Some(create))
    {
      ClearSpl();
      spl := spl.(scope := TriggerScope, start := Some(create));
      if orWord.None? {
        doc := Change(doc, Some(create), "CREATE OR REPLACE");
      }
    }

    /**
     * CREATE TRIGGER after its name: the header, then the body read from
     * where the header ends; the copy blocks are cleared and the routine
     * state is reset.
     */
    method ParseNamedTrigger(create: nat, name: nat) returns (b: TriggerBody)
      requires Valid() && create < pos && pos == name + 1 && name < |src|
      modifies this`pos, this`doc, this`calls, this`spl, this`scopes
      ensures Valid() && old(pos) <= pos
      ensures scopes == old(scopes) && spl == ClearedRoutine()
      ensures NamedTriggerDone(create, name, old(doc), doc, b)
      ensures calls == old(calls) + [ClearCopy, ClearSplScope]
    {
      var table := ReadTriggerHeader();
      b := ParseTriggerBodyAndClear(create, name);
    }

    /** The trigger body from the cursor, then the copy and routine state cleared. */
    method ParseTriggerBodyAndClear(create: nat, name: nat) returns (b: TriggerBody)
      requires Valid() && create < pos && name < |src|
      modifies this`pos, this`doc, this`calls, this`spl
      ensures Valid() && old(pos) <= pos
      ensures spl == ClearedRoutine()
      ensures b.start == old(pos) && TriggerBodyDone(create, old(doc), doc, b)
      ensures calls == old(calls) + [ClearCopy, ClearSplScope]
    {
      b := ParseCreateTriggerBody(create, name);
      calls := calls + [ClearCopy];
      ClearSpl();
    }

    /**
     * One column definition of CREATE TABLE: the column name, the data type
     * token and the rest of the type, then the column constraints. The item
     * records the name, whether the type is SERIAL and the last token read.
     */
    method ReadColumn() returns (item: Option<ColumnItem>)
      requires pos <= |src|
      modifies this`pos
      ensures old(pos) <= pos <= |src|
      ensures item.None? <==> !IdentAt(old(pos))
      ensures item.None? ==> pos == old(pos)
      ensures item.Some? ==> old(pos) < pos && item.value == Column(old(pos), src[old(pos)], WordAt(old(pos) + 1, "SERIAL"), pos - 1)
      ensures item.Some? ==> pos == Extent(ColumnConstraints, Extent(DataType, if old(pos) + 1 < |src| then old(pos) + 2 else old(pos) + 1))
    {
      var column := NextIdent();
      if column.None? {
        return None;
      }
      var typ := NextToken();
      Sub(DataType);
      Sub(ColumnConstraints);
      item := Some(Column(column.value, src[column.value], typ.Some? && WordAt(typ.value, "SERIAL"), pos - 1));
    }

    /** A column item read from tokens lo..hi-1: its name, its text, its SERIAL flag and its last token. */
    predicate ColumnRead(item: ColumnItem, lo: nat, hi: nat)
    {
      item.Column? ==>
        && lo <= item.name <= item.last < hi && IdentAt(item.name)
        && item.nameText == src[item.name]
        && item.serial == WordAt(item.name + 1, "SERIAL")
    }

    /** Every item of the list was read from tokens lo..hi-1. */
    predicate ColumnsRead(items: seq<ColumnItem>, lo: nat, hi: nat)
      decreases |items|
    {
      items == [] || (ColumnsRead(items[..|items| - 1], lo, hi) && ColumnRead(items[|items| - 1], lo, hi))
    }

    /** Items read from a range were read from any range around it. */
    lemma {:induction false} ColumnsReadGrow(items: seq<ColumnItem>, lo: nat, hi: nat, lo': nat, hi': nat)
      requires ColumnsRead(items, lo, hi) && lo' <= lo && hi <= hi'
      ensures ColumnsRead(items, lo', hi')
      decreases |items|
    {
      if items != [] {
        ColumnsReadGrow(items[..|items| - 1], lo, hi, lo', hi');
      }
    }

    /** What ColumnsRead says about each item. */
    lemma {:induction false} ColumnsReadAt(items: seq<ColumnItem>, lo: nat, hi: nat, j: nat)
      requires ColumnsRead(items, lo, hi) && j < |items|
      ensures ColumnRead(items[j], lo, hi)
      decreases |items|
    {
      if j < |items| - 1 {
        ColumnsReadAt(items[..|items| - 1], lo, hi, j);
      }
    }

    /** A list read from lo..mid-1 and one more item read from lo..hi-1 were read from lo..hi-1. */
    lemma ColumnsReadSnoc(items: seq<ColumnItem>, item: ColumnItem, lo: nat, mid: nat, hi: nat)
      requires ColumnsRead(items, lo, mid) && ColumnRead(item, lo, hi) && mid <= hi
      ensures ColumnsRead(items + [item], lo, hi)
    {
      assert (items + [item])[..|items|] == items;
      ColumnsReadGrow(items, lo, mid, lo, hi);
    }

    /**
     * The item of the CREATE TABLE list starting at p and where it ends: a
     * standalone constraint when its grammar takes tokens, otherwise a
     * column (name, type token and the rest of the type, constraints),
     * none without a name.
     */
    function ColumnItemAt(p: nat): (r: Option<(ColumnItem, nat)>)
      requires p <= |src|
      ensures r.Some? ==> p < r.value.1 <= |src| && ColumnRead(r.value.0, p, r.value.1)
      ensures r.None? <==> Extent(StandaloneConstraints, p) == p && !IdentAt(p)
    {
      var c := Extent(StandaloneConstraints, p);
      if c > p then Some((Constraint, c))
      else if !IdentAt(p) then None
      else
        var e := Extent(ColumnConstraints, Extent(DataType, if p + 1 < |src| then p + 2 else p + 1));
        Some((Column(p, src[p], WordAt(p + 1, "SERIAL"), e - 1), e))
    }

    /**
     * The CREATE TABLE list read from p: items while each is followed by a
     * comma that is not followed by `)`; whether the list ended in such a
     * trailing comma; and where it ends (before the `)` of a trailing comma).
     */
    function ColumnsFrom(p: nat): (r: (seq<ColumnItem>, bool, nat))
      requires p <= |src|
      ensures p <= r.2 <= |src|
      ensures r.1 ==> 0 < r.2 && WordAt(r.2 - 1, ",") && WordAt(r.2, ")")
      ensures r.0 == [] <==> ColumnItemAt(p).None?
      decreases |src| - p
    {
      match ColumnItemAt(p)
      case None => ([], false, p)
      case Some((item, q)) =>
        if !WordAt(q, ",") then ([item], false, q)
        else if WordAt(q + 1, ")") then ([item], true, q + 1)
        else var t := ColumnsFrom(q + 1); ([item] + t.0, t.1, t.2)
    }

    /** items read before p, ColumnsFrom reading the rest from p, make up the list r0. */
    ghost predicate ColumnsLoop(r0: (seq<ColumnItem>, bool, nat), items: seq<ColumnItem>, p: nat)
    {
      && p <= |src|
      && r0.0 == items + ColumnsFrom(p).0 && r0.1 == ColumnsFrom(p).1 && r0.2 == ColumnsFrom(p).2
    }

    /**
     * One step of the CREATE TABLE list: the item x read from p and the
     * separator after it, ending at end; the list ends or goes on at end.
     */
    lemma ColumnsNext(r0: (seq<ColumnItem>, bool, nat), items: seq<ColumnItem>, p: nat, x: Option<(ColumnItem, nat)>,
                      end: nat, more: bool, trailing: bool)
      requires ColumnsLoop(r0, items, p) && ColumnItemAt(p) == x
      requires x.None? ==> end == p && !more && !trailing
      requires x.Some? ==> var q := x.value.1;
        && (more ==> !trailing && end == q + 1 && WordAt(q, ",") && !WordAt(end, ")"))
        && (trailing ==> !more && end == q + 1 && WordAt(q, ",") && WordAt(end, ")"))
        && (!more && !trailing ==> end == q && !WordAt(q, ","))
      ensures x.None? ==> r0 == (items, false, end)
      ensures x.Some? && !more ==> r0 == (items + [x.value.0], trailing, end)
      ensures x.Some? && more ==> ColumnsLoop(r0, items + [x.value.0], end)
    {
      var r := ColumnsFrom(p);
      if x.None? {
        assert items + [] == items;
      } else if more {
        var t := ColumnsFrom(end);
        assert r == ([x.value.0] + t.0, t.1, t.2);
        assert items + ([x.value.0] + t.0) == items + [x.value.0] + t.0;
      } else {
        assert r == ([x.value.0], trailing, end);
      }
    }

    /**
     * One item of the CREATE TABLE list: a standalone constraint if the
     * constraint grammar recognises one, otherwise a column definition,
     * whose last token is bookmarked under (table, column).
     */
    method ReadColumnItem(table: nat) returns (item: Option<ColumnItem>)
      requires pos <= |src| && table < |src|
      modifies this`pos, this`books
      ensures old(pos) <= pos <= |src|
      ensures item.Some? ==> ColumnRead(item.value, old(pos), pos)
      ensures item.None? ==> books == old(books) && pos == old(pos)
      ensures item.Some? && item.value.Constraint? ==> books == old(books)
      ensures item.Some? && item.value.Column? ==>
        books == old(books)[ColumnKey(src[table], item.value.nameText) := item.value.last]
      ensures item.Some? ==> old(pos) < pos || item.value.Constraint?
      ensures ColumnItemAt(old(pos)) == if item.Some? then Some((item.value, pos)) else None
    {
      var cns := SubFound(StandaloneConstraints);
      if cns {
        return Some(Constraint);
      }
      item := ReadColumn();
      if item.Some? {
        books := books[ColumnKey(src[table], item.value.nameText) := item.value.last];
      }
    }

    /** One item of the CREATE TABLE list, added to the items, the bookmarks and the identity column. */
    method ReadColumnEntry(table: nat, items: seq<ColumnItem>, idCol: Option<nat>, ghost b0: map<BookKey, nat>, ghost lo: nat)
      returns (item: Option<ColumnItem>, items': seq<ColumnItem>, idCol': Option<nat>)
      requires lo <= pos <= |src| && table < |src|
      requires books == ColumnBooks(b0, src[table], items) && idCol == IdentityColumn(None, items)
      requires ColumnsRead(items, lo, pos)
      modifies this`pos, this`books
      ensures old(pos) <= pos <= |src|
      ensures ColumnItemAt(old(pos)) == if item.Some? then Some((item.value, pos)) else None
      ensures item.None? ==> pos == old(pos)
      ensures items' == if item.Some? then items + [item.value] else items
      ensures books == ColumnBooks(b0, src[table], items') && idCol' == IdentityColumn(None, items')
      ensures ColumnsRead(items', lo, pos)
    {
      var start := pos;
      item := ReadColumnItem(table);
      if item.None? {
        return item, items, idCol;
      }
      ColumnItemSnoc(b0, src[table], items, item.value);
      ColumnsReadSnoc(items, item.value, lo, start, pos);
      items' := items + [item.value];
      idCol' := if item.value.Column? && item.value.serial then Some(item.value.name) else idCol;
    }

    /**
     * One pass of the CREATE TABLE list loop: an item and the separator
     * after it. The list goes on (`more`) after a comma not followed by
     * `)`; otherwise r0 is the whole list as read.
     */
    method ReadColumnStep(table: nat, ghost r0: (seq<ColumnItem>, bool, nat), items: seq<ColumnItem>, idCol: Option<nat>,
                          ghost b0: map<BookKey, nat>, ghost lo: nat)
      returns (more: bool, items': seq<ColumnItem>, idCol': Option<nat>, trailing: bool)
      requires lo <= pos <= |src| && table < |src| && ColumnsLoop(r0, items, pos)
      requires books == ColumnBooks(b0, src[table], items) && idCol == IdentityColumn(None, items)
      requires ColumnsRead(items, lo, pos)
      modifies this`pos, this`books
      ensures old(pos) <= pos <= |src|
      ensures books == ColumnBooks(b0, src[table], items') && idCol' == IdentityColumn(None, items')
      ensures ColumnsRead(items', lo, pos)
      ensures more ==> old(pos) < pos && !trailing && ColumnsLoop(r0, items', pos)
      ensures !more ==> r0 == (items', trailing, pos)
    {
      var start := pos;
      var item;
      item, items', idCol' := ReadColumnEntry(table, items, idCol, b0, lo);
      if item.None? {
        ColumnsNext(r0, items, start, None, pos, false, false);
        return false, items', idCol', false;
      }
      var mid := pos;
      more, trailing := ReadColumnSeparator();
      ColumnsNext(r0, items, start, Some((item.value, mid)), pos, more, trailing);
      ColumnsReadGrow(items', lo, mid, lo, pos);
    }

    /**
     * ParseCreateTableColumns: the list of columns and standalone constraints
     * between the parentheses of CREATE TABLE. Every column bookmarks its
     * last token under (table, column); the last SERIAL column is the
     * identity column. A `,` directly followed by `)` ends the list with
     * the `)` pushed back. True iff at least one item was read.
     */
    method ParseCreateTableColumns(table: nat) returns (found: bool, items: seq<ColumnItem>, idCol: Option<nat>, trailing: bool)
      requires pos <= |src| && table < |src|
      modifies this`pos, this`books
      ensures old(pos) <= pos <= |src|
      ensures found <==> |items| > 0
      ensures books == ColumnBooks(old(books), src[table], items)
      ensures idCol == IdentityColumn(None, items)
      ensures ColumnsRead(items, old(pos), pos)
      ensures trailing ==> WordAt(pos - 1, ",") && WordAt(pos, ")")
      ensures (items, trailing, pos) == ColumnsFrom(old(pos))
    {
      items, idCol, trailing := [], None, false;
      ghost var r0 := ColumnsFrom(pos);
      var more := true;
      while more
        invariant old(pos) <= pos <= |src|
        invariant books == ColumnBooks(old(books), src[table], items)
        invariant idCol == IdentityColumn(None, items)
        invariant ColumnsRead(items, old(pos), pos)
        invariant more ==> ColumnsLoop(r0, items, pos)
        invariant !more ==> r0 == (items, trailing, pos)
        decreases |src| - pos, more
      {
        more, items, idCol, trailing := ReadColumnStep(table, r0, items, idCol, old(books), old(pos));
      }
      found := |items| > 0;
    }

    /**
     * The comma after a column item: the list goes on (`more`) after a
     * comma not followed by `)`; `, )` is a trailing comma, with the `)`
     * pushed back.
     */
    method ReadColumnSeparator() returns (more: bool, trailing: bool)
      requires pos <= |src|
      modifies this`pos
      ensures old(pos) <= pos <= |src|
      ensures more ==> !trailing && pos == old(pos) + 1 && WordAt(old(pos), ",") && !WordAt(pos, ")")
      ensures trailing ==> !more && pos == old(pos) + 1 && WordAt(old(pos), ",") && WordAt(pos, ")")
      ensures !more && !trailing ==> pos == old(pos) && !WordAt(old(pos), ",")
    {
      more, trailing := false, false;
      var comma := NextWord(",");
      if comma.None? {
        return;
      }
      var close := NextWord(")");
      if close.Some? {
        PushBack(close);
        trailing := true;
        return;
      }
      more := true;
    }

    /**
     * The part of CREATE TABLE after the name read from p: whether it is
     * well formed, the items of the column list, its closing `)` and where
     * the part ends. `AS` takes an optional `(` and a `)` after it.
     */
    function TableBody(p: nat): (r: (bool, seq<ColumnItem>, Option<nat>, nat))
      requires p <= |src|
      ensures p <= r.3 <= |src|
      ensures r.0 <==> WordAt(p, "AS") || (WordAt(p, "(") && WordAt(ColumnsFrom(p + 1).2, ")"))
      ensures r.2.Some? <==> !WordAt(p, "AS") && WordAt(p, "(") && WordAt(ColumnsFrom(p + 1).2, ")")
      ensures r.2.Some? ==> r.2.value == r.3 - 1 && WordAt(r.2.value, ")")
    {
      if WordAt(p, "AS") then
        (true, [], None, if WordAt(p + 1, "(") then (if WordAt(p + 2, ")") then p + 3 else p + 2) else p + 1)
      else if !WordAt(p, "(") then (false, [], None, p)
      else
        var t := ColumnsFrom(p + 1);
        if WordAt(t.2, ")") then (true, t.0, Some(t.2), t.2 + 1) else (false, t.0, None, t.2)
    }

    /**
     * The column list of CREATE TABLE: `(` items `)`, where the `)` is
     * bookmarked as the end of the column list; ok is false when `(` or
     * `)` is missing.
     */
    method ReadColumnList(table: nat) returns (ok: bool, items: seq<ColumnItem>, idCol: Option<nat>, close: Option<nat>)
      requires pos <= |src| && table < |src| && !WordAt(pos, "AS")
      modifies this`pos, this`books
      ensures old(pos) <= pos <= |src|
      ensures !WordAt(old(pos), "(") ==> !ok && books == old(books) && items == []
      ensures ColumnsRead(items, old(pos) + 1, pos)
      ensures WordAt(old(pos), "(") && close.None? ==> !ok && books == ColumnBooks(old(books), src[table], items)
      ensures close.Some? ==> books == ColumnBooks(old(books), src[table], items)[ObjectKey(CtcAllEnd, src[table]) := close.value]
      ensures idCol == IdentityColumn(None, items)
      ensures ok <==> close.Some?
      ensures (ok, items, close, pos) == TableBody(old(pos))
    {
      var open := NextWord("(");
      if open.None? {
        return false, [], None, None;
      }
      ok, items, idCol, close := ReadColumnsClosed(table);
    }

    /** The items of the CREATE TABLE column list after its `(`, and the `)` that closes it. */
    method ReadColumnsClosed(table: nat) returns (ok: bool, items: seq<ColumnItem>, idCol: Option<nat>, close: Option<nat>)
      requires pos <= |src| && table < |src|
      modifies this`pos, this`books
      ensures old(pos) <= pos <= |src|
      ensures ColumnsRead(items, old(pos), pos)
      ensures close.None? ==> books == ColumnBooks(old(books), src[table], items)
      ensures close.Some? ==> books == ColumnBooks(old(books), src[table], items)[ObjectKey(CtcAllEnd, src[table]) := close.value]
      ensures idCol == IdentityColumn(None, items)
      ensures ok <==> close.Some?
      ensures var t := ColumnsFrom(old(pos));
        (ok, items, close, pos) == if WordAt(t.2, ")") then (true, t.0, Some(t.2), t.2 + 1) else (false, t.0, None, t.2)
    {
      var found, trailing;
      found, items, idCol, trailing := ParseCreateTableColumns(table);
      var mid := pos;
      close := NextWord(")");
      ColumnsReadGrow(items, old(pos), mid, old(pos), pos);
      if close.None? {
        return false, items, idCol, close;
      }
      books := books[ObjectKey(CtcAllEnd, src[table]) := close.value];
      ok := true;
    }

    /**
     * The part of CREATE TABLE after the name: `AS [( )]` for CREATE TABLE AS
     * SELECT, or `(` columns `)`, where the `)` is bookmarked as the end of
     * the column list. ok is false when `(` or `)` is missing.
     */
    method ReadTableBody(table: nat) returns (ok: bool, asForm: bool, items: seq<ColumnItem>, idCol: Option<nat>, close: Option<nat>)
      requires pos <= |src| && table < |src|
      modifies this`pos, this`books
      ensures old(pos) <= pos <= |src|
      ensures asForm <==> WordAt(old(pos), "AS")
      ensures asForm ==> ok && items == [] && close.None? && books == old(books)
      ensures !asForm && !WordAt(old(pos), "(") ==> !ok && books == old(books) && items == []
      ensures ColumnsRead(items, old(pos) + 1, pos)
      ensures !asForm && WordAt(old(pos), "(") && close.None? ==> !ok && books == ColumnBooks(old(books), src[table], items)
      ensures close.Some? ==> ok && close.value == pos - 1 && WordAt(close.value, ")")
      ensures close.Some? ==> books == ColumnBooks(old(books), src[table], items)[ObjectKey(CtcAllEnd, src[table]) := close.value]
      ensures idCol == IdentityColumn(None, items)
      ensures ok <==> asForm || close.Some?
      ensures (ok, items, close, pos) == TableBody(old(pos))
    {
      var asWord := NextWord("AS");
      asForm := asWord.Some?;
      if asForm {
        var open := NextWord("(");
        if open.Some? {
          var closeAs := NextWord(")");
        }
        return true, asForm, [], None, None;
      }
      ok, items, idCol, close := ReadColumnList(table);
    }

    /**
     * ParseCreateTable: CREATE TABLE name followed by AS or a column list.
     * The CREATE token is bookmarked as the start of the table and the
     * last token (a following `;` included) as its end. Identity emulation
     * is requested exactly when a SERIAL column was found. The statement
     * becomes the routine's last statement, and its first non-declaration
     * one if there was none yet.
     */
    method ParseCreateTable(create: nat, token: nat) returns (r: bool, items: seq<ColumnItem>, idCol: Option<nat>, close: Option<nat>)
      requires Valid() && create < pos
      modifies this`pos, this`books, this`calls, this`spl
      ensures Valid() && old(pos) <= pos
      ensures TableDone(create, old(pos), Effects(old(doc), old(books), old(calls)), Effects(doc, books, calls), pos, r, items, idCol, close)
      ensures !r ==> spl == old(spl)
      ensures r ==> spl == old(spl).(firstNonDeclare := Nvl(old(spl).firstNonDeclare, Some(create)), lastStmt := Some(create))
    {
      items, idCol, close := [], None, None;
      var table := NextIdent();
      if table.None? {
        return false, items, idCol, close;
      }
      var t := table.value;
      books := books[ObjectKey(CtStart, src[t]) := create];
      ghost var b1 := books;
      var ok, asForm;
      ok, asForm, items, idCol, close := ReadTableBody(t);
      assert !ok ==> books == ColumnBooks(b1, src[t], items);
      ColumnsReadGrow(items, t + 2, pos, t, pos);
      var mid := pos;
      if ok {
        ghost var c0 := calls;
        FinishCreateTable(create, t, idCol);
        assert calls == c0 + (if idCol.Some? then [EmulateIdentity(create, t, idCol.value, pos - 1)] else []);
        ColumnsReadGrow(items, t, mid, t, pos);
      }
      r := ok;
      NamedTableDone(create, t, Effects(old(doc), old(books), old(calls)), Effects(doc, books, calls), pos, r, items, idCol, close, mid);
    }

    /** TableDone after a name at p, from the body TableBody reads after it and the optional `;`. */
    lemma NamedTableDone(create: nat, p: nat, was: Effects, now: Effects, end: nat, r: bool,
                         items: seq<ColumnItem>, idCol: Option<nat>, close: Option<nat>, mid: nat)
      requires IdentAt(p) && (r, items, close, mid) == TableBody(p + 1)
      requires end == (if r then mid + (if WordAt(mid, ";") then 1 else 0) else mid)
      requires ColumnsRead(items, p, end) && idCol == IdentityColumn(None, items)
      requires r ==> && 0 < end && now.books == TableBooks(was.books, src[p], create, items, close, end - 1)
                     && now.calls == was.calls + (if idCol.Some? then [EmulateIdentity(create, p, idCol.value, end - 1)] else [])
      requires !r ==> now.books == ColumnBooks(was.books[ObjectKey(CtStart, src[p]) := create], src[p], items)
      requires !r ==> now.calls == was.calls
      ensures TableDone(create, p, was, now, end, r, items, idCol, close)
    {
    }

    /**
     * The end of CREATE TABLE: an optional `;`, the end bookmark on the last
     * token, identity emulation when a SERIAL column was found, and the
     * routine's first and last statement markers.
     */
    method FinishCreateTable(create: nat, table: nat, idCol: Option<nat>)
      requires 0 < pos <= |src| && table < |src|
      modifies this`pos, this`books, this`calls, this`spl
      ensures pos == old(pos) + (if WordAt(old(pos), ";") then 1 else 0)
      ensures books == old(books)[ObjectKey(CtEnd, src[table]) := pos - 1]
      ensures calls == old(calls) + (if idCol.Some? then [EmulateIdentity(create, table, idCol.value, pos - 1)] else [])
      ensures spl == old(spl).(firstNonDeclare := Nvl(old(spl).firstNonDeclare, Some(create)), lastStmt := Some(create))
    {
      var semi := NextWord(";");
      var last := pos - 1;
      books := books[ObjectKey(CtEnd, src[table]) := last];
      if idCol.Some? {
        calls := calls + [EmulateIdentity(create, table, idCol.value, last)];
      }
      spl := spl.(firstNonDeclare := Nvl(spl.firstNonDeclare, Some(create)), lastStmt := Some(create));
    }

    /**
     * cols are identifiers read from tokens lo..hi-1, in increasing order,
     * each one after the first directly preceded by a comma.
     */
    predicate CommaListed(cols: seq<nat>, lo: nat, hi: nat)
      decreases |cols|
    {
      cols == [] ||
      var k := |cols| - 1;
      && CommaListed(cols[..k], lo, cols[k]) && lo <= cols[k] < hi && IdentAt(cols[k])
      && (k > 0 ==> WordAt(cols[k] - 1, ","))
    }

    /** A list read from a range was read from any range around it. */
    lemma {:induction false} CommaListedGrow(cols: seq<nat>, lo: nat, hi: nat, lo': nat, hi': nat)
      requires CommaListed(cols, lo, hi) && lo' <= lo && hi <= hi'
      ensures CommaListed(cols, lo', hi')
      decreases |cols|
    {
      if cols != [] {
        var k := |cols| - 1;
        CommaListedGrow(cols[..k], lo, cols[k], lo', cols[k]);
      }
    }

    /** What CommaListed says about each element. */
    lemma {:induction false} CommaListedAt(cols: seq<nat>, lo: nat, hi: nat, j: nat)
      requires CommaListed(cols, lo, hi) && j < |cols|
      ensures lo <= cols[j] < hi && IdentAt(cols[j])
      ensures 0 < j ==> cols[j - 1] < cols[j] && WordAt(cols[j] - 1, ",")
      decreases |cols|
    {
      var k := |cols| - 1;
      if j < k {
        CommaListedAt(cols[..k], lo, cols[k], j);
        CommaListedGrow(cols[..k], lo, cols[k], lo, hi);
      } else if 0 < j {
        CommaListedAt(cols[..k], lo, cols[k], j - 1);
      }
    }

    /**
     * Where an index column starting with the identifier at p ends: past
     * the expression it starts and an optional ASC or DESC.
     */
    function IndexColumnEnd(p: nat): (q: nat)
      requires p < |src|
      ensures p < q <= |src|
    {
      var e := Extent(Expression, p + 1);
      if WordAt(e, "ASC") || WordAt(e, "DESC") then e + 1 else e
    }

    /** The index columns read from p, and where the list ends: a comma after a column continues it. */
    function IndexColumnsFrom(p: nat): (r: (seq<nat>, nat))
      requires p <= |src|
      ensures p <= r.1 <= |src|
      ensures r.0 == [] <==> !IdentAt(p)
      ensures r.0 == [] ==> r.1 == p
      ensures r.0 != [] ==> r.0[0] == p
      decreases |src| - p
    {
      if !IdentAt(p) then ([], p)
      else
        var q := IndexColumnEnd(p);
        if WordAt(q, ",") then var t := IndexColumnsFrom(q + 1); ([p] + t.0, t.1) else ([p], q)
    }

    /** cols read before p, IndexColumnsFrom reading the rest from p, make up the list r0. */
    ghost predicate IndexColumnsLoop(r0: (seq<nat>, nat), cols: seq<nat>, p: nat)
    {
      p <= |src| && r0.0 == cols + IndexColumnsFrom(p).0 && r0.1 == IndexColumnsFrom(p).1
    }

    /** One index column read from p, ending at q: the list ends there or goes on at q. */
    lemma IndexColumnsNext(r0: (seq<nat>, nat), cols: seq<nat>, p: nat, q: nat, more: bool)
      requires IndexColumnsLoop(r0, cols, p) && IdentAt(p) && q <= |src|
      requires more == WordAt(IndexColumnEnd(p), ",")
      requires q == if more then IndexColumnEnd(p) + 1 else IndexColumnEnd(p)
      ensures more ==> IndexColumnsLoop(r0, cols + [p], q)
      ensures !more ==> r0 == (cols + [p], q)
    {
      if more {
        var t := IndexColumnsFrom(q);
        assert IndexColumnsFrom(p) == ([p] + t.0, t.1);
        assert cols + ([p] + t.0) == cols + [p] + t.0;
      }
    }

    /**
     * The part of CREATE INDEX after the index name, read from p: the
     * table (after an optional ON), the columns after an optional `(`, and
     * where the index options after an optional `)` end; without a table
     * name it ends there.
     */
    function IndexBodyFrom(p: nat): (r: (Option<nat>, seq<nat>, nat))
      requires p <= |src|
      ensures p <= r.2 <= |src|
      ensures r.0.None? ==> r.1 == []
    {
      var at := p + (if WordAt(p, "ON") then 1 else 0);
      if !IdentAt(at) then (None, [], at)
      else
        var l := IndexListFrom(at + 1);
        (Some(at), l.0, l.1)
    }

    /**
     * The columns of CREATE INDEX read from p, after an optional `(`, and
     * where the index options after an optional `)` end.
     */
    function IndexListFrom(p: nat): (r: (seq<nat>, nat))
      requires p <= |src|
      ensures p <= r.1 <= |src|
    {
      var c := IndexColumnsFrom(if WordAt(p, "(") then p + 1 else p);
      (c.0, Extent(IndexOptionsClause, if WordAt(c.1, ")") then c.1 + 1 else c.1))
    }

    /**
     * One index column: an identifier (possibly the start of an expression),
     * an optional ASC or DESC, then a comma when more columns follow; a
     * token that is not a comma is pushed back.
     */
    method ReadIndexColumn() returns (col: Option<nat>, more: bool)
      requires pos <= |src|
      modifies this`pos
      ensures old(pos) <= pos <= |src|
      ensures col == if IdentAt(old(pos)) then Some(old(pos)) else None
      ensures col.None? ==> pos == old(pos) && !more
      ensures col.Some? ==> old(pos) < pos
      ensures more ==> WordAt(pos - 1, ",")
      ensures col.Some? ==> more == WordAt(IndexColumnEnd(old(pos)), ",")
      ensures col.Some? ==> pos == if more then IndexColumnEnd(old(pos)) + 1 else IndexColumnEnd(old(pos))
    {
      col := NextIdent();
      if col.None? {
        return col, false;
      }
      Sub(Expression);
      var next := NextToken();
      if next.Some? && (WordAt(next.value, "ASC") || WordAt(next.value, "DESC")) {
        next := NextToken();
      }
      more := next.Some? && WordAt(next.value, ",");
      if !more {
        PushBack(next);
      }
    }

    /** One pass of the index column loop: a column, and whether a comma after it continues the list. */
    method ReadIndexStep(ghost r0: (seq<nat>, nat), cols: seq<nat>, ghost lo: nat) returns (more: bool, cols': seq<nat>)
      requires lo <= pos <= |src| && IndexColumnsLoop(r0, cols, pos) && CommaListed(cols, lo, pos)
      requires cols != [] ==> WordAt(pos - 1, ",")
      modifies this`pos
      ensures old(pos) <= pos <= |src| && CommaListed(cols', lo, pos)
      ensures more ==> old(pos) < pos && IndexColumnsLoop(r0, cols', pos) && WordAt(pos - 1, ",")
      ensures !more ==> (cols', pos) == r0
    {
      var start := pos;
      var col;
      col, more := ReadIndexColumn();
      if col.None? {
        assert cols + [] == cols;
        return false, cols;
      }
      IndexColumnsNext(r0, cols, start, pos, more);
      assert (cols + [col.value])[..|cols|] == cols;
      cols' := cols + [col.value];
      CommaListedGrow(cols', lo, col.value + 1, lo, pos);
    }

    /** The index column list: columns separated by commas. */
    method ReadIndexColumns() returns (cols: seq<nat>)
      requires pos <= |src|
      modifies this`pos
      ensures old(pos) <= pos <= |src|
      ensures cols == [] <==> !IdentAt(old(pos))
      ensures cols == [] ==> pos == old(pos)
      ensures cols != [] ==> cols[0] == old(pos)
      ensures CommaListed(cols, old(pos), pos)
      ensures (cols, pos) == IndexColumnsFrom(old(pos))
    {
      cols := [];
      ghost var r0 := IndexColumnsFrom(pos);
      var more := true;
      while more
        invariant old(pos) <= pos <= |src| && CommaListed(cols, old(pos), pos)
        invariant more ==> IndexColumnsLoop(r0, cols, pos) && (cols != [] ==> WordAt(pos - 1, ","))
        invariant !more ==> (cols, pos) == r0
        decreases |src| - pos, more
      {
        more, cols := ReadIndexStep(r0, cols, old(pos));
      }
    }

    /** The column list of CREATE INDEX, in optional parentheses, and the index options after it. */
    method ReadIndexList() returns (cols: seq<nat>)
      requires pos <= |src|
      modifies this`pos
      ensures old(pos) <= pos <= |src|
      ensures CommaListed(cols, old(pos), pos)
      ensures (cols, pos) == IndexListFrom(old(pos))
    {
      var open := NextWord("(");
      var start := pos;
      cols := ReadIndexColumns();
      var mid := pos;
      var close := NextWord(")");
      Sub(IndexOptionsClause);
      CommaListedGrow(cols, start, mid, old(pos), pos);
    }

    /** The table of CREATE INDEX, its column list and the index options after it. */
    method ReadIndexBody() returns (table: Option<nat>, cols: seq<nat>)
      requires pos <= |src|
      modifies this`pos
      ensures old(pos) <= pos <= |src|
      ensures var at := old(pos) + (if WordAt(old(pos), "ON") then 1 else 0);
        table == if IdentAt(at) then Some(at) else None
      ensures table.None? ==> cols == []
      ensures CommaListed(cols, old(pos) + 1, pos)
      ensures (table, cols, pos) == IndexBodyFrom(old(pos))
    {
      cols := [];
      table := ReadIndexTable();
      if table.None? {
        return;
      }
      var start := pos;
      assert old(pos) + (if WordAt(old(pos), "ON") then 1 else 0) == table.value == start - 1;
      cols := ReadIndexList();
      CommaListedGrow(cols, start, pos, old(pos) + 1, pos);
    }

    /** ON and the table name of CREATE INDEX; ON itself is optional. */
    method ReadIndexTable() returns (table: Option<nat>)
      requires pos <= |src|
      modifies this`pos
      ensures var at := old(pos) + (if WordAt(old(pos), "ON") then 1 else 0);
        table == (if IdentAt(at) then Some(at) else None) && pos == if table.Some? then at + 1 else at
    {
      var on := NextWord("ON");
      table := NextIdent();
    }

    /**
     * ParseCreateIndex: CREATE [UNIQUE] INDEX name ON table (columns)
     * options. It fails when the index or table name is missing. The CREATE
     * token is bookmarked as the start of the index, under its name, and
     * the last token read as its end.
     */
    method ParseCreateIndex(create: nat, unique: Option<nat>, index: nat) returns (r: bool, cols: seq<nat>)
      requires pos <= |src|
      modifies this`pos, this`books
      ensures old(pos) <= pos <= |src|
      ensures IndexDone(create, old(pos), old(books), books, pos, r, cols)
    {
      cols := [];
      var name := NextIdent();
      if name.None? {
        return false, cols;
      }
      r, cols := ParseNamedIndex(create, name.value);
    }

    /** CREATE INDEX after its name n: the table, the columns and the index options. */
    method ParseNamedIndex(create: nat, n: nat) returns (r: bool, cols: seq<nat>)
      requires IdentAt(n) && pos == n + 1
      modifies this`pos, this`books
      ensures old(pos) <= pos <= |src|
      ensures NamedIndexDone(create, n, old(books), books, pos, r, cols)
    {
      books := books[ObjectKey(CiStart, src[n]) := create];
      var table;
      table, cols := ReadIndexBody();
      if table.None? {
        return false, cols;
      }
      books := books[ObjectKey(CiEnd, src[n]) := pos - 1];
      r := true;
    }

    /**
     * The head of CREATE TYPE: the type name, the system data type and the
     * rest of the type, then optional constraints.
     */
    method ReadTypeHead() returns (name: Option<nat>, dataType: Option<nat>, typeEnd: Option<nat>)
      requires pos <= |src|
      modifies this`pos
      ensures old(pos) <= pos <= |src|
      ensures name == TokenAt(old(pos))
      ensures name.None? ==> pos == old(pos)
      ensures name.Some? ==> dataType == TokenAt(old(pos) + 1)
      ensures name.Some? ==>
        var afterType := Extent(DataType, old(pos) + 1 + (if dataType.Some? then 1 else 0));
        typeEnd == Some(afterType - 1) && pos == Extent(ColumnConstraints, afterType)
    {
      dataType, typeEnd := None, None;
      name := NextToken();
      if name.None? {
        return;
      }
      dataType := NextToken();
      Sub(DataType);
      typeEnd := LastTaken();
      Sub(ColumnConstraints);
    }

    /**
     * ParseCreateType: CREATE TYPE name datatype [constraints] [;]. The type
     * is registered with its data type, ` OR REPLACE` follows CREATE and a
     * `/` line follows the statement's last token. It fails only when the
     * stream ends after TYPE.
     */
    method ParseCreateType(create: nat, typ: nat) returns (r: bool, typeEnd: Option<nat>, end: nat)
      requires Valid() && create < pos
      modifies this`pos, this`doc, this`calls
      ensures Valid() && old(pos) <= pos
      ensures TypeDone(create, old(pos), Effects(old(doc), old(books), old(calls)), Effects(doc, books, calls), pos, r, typeEnd, end)
    {
      end := 0;
      var name, dataType;
      name, dataType, typeEnd := ReadTypeHead();
      if name.None? {
        return false, typeEnd, end;
      }
      calls := calls + [UdtAdd(name.value, dataType, typeEnd)];
      var semi := NextWord(";");
      end := pos - 1;
      doc := CreateTypeEdit(doc, create, end);
      r := true;
    }

    /**
     * Where the column names of a CREATE VIEW column list stop when the
     * list goes on at p: an identifier, and a comma after it continues.
     */
    function ViewColumnsEnd(p: nat): (q: nat)
      requires p <= |src|
      ensures p <= q <= |src|
      ensures !IdentAt(p) ==> q == p
      decreases |src| - p
    {
      if !IdentAt(p) then p
      else if WordAt(p + 1, ",") then ViewColumnsEnd(p + 2)
      else p + 1
    }

    /**
     * Where the head of CREATE VIEW ends when the token after the name is at
     * p: past `(`, the column names and `)` when the list is opened, then
     * past AS when it comes.
     */
    function ViewHeadEnd(p: nat): (q: nat)
      requires p <= |src|
      ensures p <= q <= |src|
    {
      var afterColumns := if WordAt(p, "(") then ViewColumnsEnd(p + 1) else p;
      var afterClose := if WordAt(p, "(") && WordAt(afterColumns, ")") then afterColumns + 1 else afterColumns;
      if WordAt(afterClose, "AS") then afterClose + 1 else afterClose
    }

    /**
     * The head of CREATE VIEW: the view name, an optional parenthesised
     * column list and AS.
     */
    method ReadViewHead() returns (name: Option<nat>)
      requires pos <= |src|
      modifies this`pos
      ensures old(pos) <= pos <= |src|
      ensures name == if IdentAt(old(pos)) then Some(old(pos)) else None
      ensures name.None? ==> pos == old(pos)
      ensures name.Some? ==> pos == ViewHeadEnd(old(pos) + 1)
    {
      name := NextIdent();
      if name.None? {
        return;
      }
      var open := NextWord("(");
      if open.Some? {
        ReadViewColumns();
      }
      var close := NextWordAfter(open, ")");
      var asWord := NextWord("AS");
    }

    /** The column names of CREATE VIEW after its `(`, separated by commas. */
    method ReadViewColumns()
      requires pos <= |src|
      modifies this`pos
      ensures pos == ViewColumnsEnd(old(pos))
    {
      while true
        invariant old(pos) <= pos <= |src|
        invariant ViewColumnsEnd(pos) == ViewColumnsEnd(old(pos))
        decreases |src| - pos
      {
        ghost var p := pos;
        var column := NextIdent();
        if column.None? {
          assert ViewColumnsEnd(p) == p;
          return;
        }
        var comma := NextWord(",");
        if comma.None? {
          assert ViewColumnsEnd(p) == p + 1;
          return;
        }
        assert ViewColumnsEnd(p) == ViewColumnsEnd(pos);
      }
    }

    /**
     * One step of the CREATE VIEW option loop: WITH READ ONLY is taken
     * whole; a WITH not followed by READ ONLY is pushed back; any other
     * token is taken and ends the loop.
     */
    method ReadViewOption() returns (option: bool)
      requires pos <= |src|
      modifies this`pos
      ensures option <==> IsViewOption(src, old(pos))
      ensures pos == if option then old(pos) + 3
                     else if old(pos) < |src| && !WordAt(old(pos), "WITH") then old(pos) + 1
                     else old(pos)
    {
      var first := NextToken();
      if first.None? {
        return false;
      }
      if !WordAt(first.value, "WITH") {
        return false;
      }
      var read := NextWord("READ");
      var only := NextWordAfter(read, "ONLY");
      if read.Some? && only.Some? {
        return true;
      }
      PushBack(first);
      option := false;
    }

    /**
     * The CREATE VIEW option loop: the maximal run of WITH READ ONLY options
     * is removed; the token after the run is taken unless it is WITH.
     */
    method StripViewOptions() returns (end: nat)
      requires Valid()
      modifies this`pos, this`doc
      ensures Valid()
      ensures end == ViewOptions(src, old(pos))
      ensures doc == RemoveSpan(old(doc), old(pos), end)
      ensures pos == if end < |src| && !WordAt(end, "WITH") then end + 1 else end
    {
      end := pos;
      while true
        invariant Valid() && old(pos) <= end == pos
        invariant ViewOptions(src, end) == ViewOptions(src, old(pos))
        invariant doc == RemoveSpan(old(doc), old(pos), end)
        decreases |src| - pos
      {
        var option := ReadViewOption();
        if !option {
          return;
        }
        RemoveSpanThenRange(old(doc), old(pos), end, end + 2);
        doc := RemoveRange(doc, end, end + 2);
        end := pos;
      }
    }

    /**
     * ParseCreateView: CREATE [MATERIALIZED] VIEW name [(columns)] AS, then
     * the view options, which are removed. It fails only without a name.
     */
    method ParseCreateView(create: nat, materialized: Option<nat>, view: nat) returns (r: bool, start: nat, end: nat)
      requires Valid()
      modifies this`pos, this`doc
      ensures Valid() && old(pos) <= pos
      ensures ViewDone(old(pos), old(doc), doc, pos, r, start, end)
    {
      start, end := 0, 0;
      var name := ReadViewHead();
      if name.None? {
        return false, start, end;
      }
      start := pos;
      end := StripViewOptions();
      r := true;
    }

    // ------------------------------------------------------------------
    // Routines
    // ------------------------------------------------------------------

    /** ParseFunctionOptions: takes the run of DETERMINISTIC options; true iff there was one. */
    method ParseFunctionOptions() returns (r: bool)
      requires pos <= |src|
      modifies this`pos
      ensures pos == SkipRun(src, old(pos), "DETERMINISTIC")
      ensures r <==> WordAt(old(pos), "DETERMINISTIC")
    {
      r := false;
      while true
        invariant old(pos) <= pos <= |src|
        invariant SkipRun(src, pos, "DETERMINISTIC") == SkipRun(src, old(pos), "DETERMINISTIC")
        invariant r <==> pos > old(pos)
        invariant pos > old(pos) ==> WordAt(old(pos), "DETERMINISTIC")
        decreases |src| - pos
      {
        var next := NextToken();
        if next.None? {
          break;
        }
        if WordAt(next.value, "DETERMINISTIC") {
          r := true;
          continue;
        }
        PushBack(next);
        break;
      }
    }

    /**
     * ParseFunctionReturns: the token after the parameters is taken whatever
     * it is; when it is RETURN the data type follows. False only at the end
     * of the stream.
     */
    method ParseFunctionReturns() returns (r: bool)
      requires pos <= |src|
      modifies this`pos
      ensures r <==> old(pos) < |src|
      ensures !r ==> pos == old(pos)
      ensures r && !WordAt(old(pos), "RETURN") ==> pos == old(pos) + 1
      ensures r && WordAt(old(pos), "RETURN") ==>
        pos == Extent(DataType, if old(pos) + 1 < |src| then old(pos) + 2 else old(pos) + 1)
    {
      var returnWord := NextToken();
      if returnWord.None? {
        return false;
      }
      if WordAt(returnWord.value, "RETURN") {
        var dataType := NextToken();
        Sub(DataType);
      }
      r := true;
    }

    /** IN, OUT or IN OUT after a parameter name; any other token is pushed back. */
    method ReadParameterMode()
      requires pos <= |src|
      modifies this`pos
      ensures pos == old(pos) + (if WordAt(old(pos), "IN") then (if WordAt(old(pos) + 1, "OUT") then 2 else 1)
                                 else if WordAt(old(pos), "OUT") then 1 else 0)
    {
      var mode := NextToken();
      if mode.Some? && WordAt(mode.value, "IN") {
        var out := NextWord("OUT");
      } else if mode.Some? && WordAt(mode.value, "OUT") {
      } else {
        PushBack(mode);
      }
    }

    /**
     * The end of a parameter: DEFAULT and its value, then a comma when more
     * parameters follow. A token that is not DEFAULT is pushed back.
     */
    method ReadParameterEnd() returns (more: bool)
      requires pos <= |src|
      modifies this`pos
      ensures old(pos) <= pos <= |src|
      ensures more ==> old(pos) < pos && WordAt(pos - 1, ",")
    {
      var next := NextToken();
      if next.None? {
        return false;
      }
      if WordAt(next.value, "DEFAULT") {
        var defaultExp := NextToken();
      } else {
        PushBack(next);
      }
      var comma := NextWord(",");
      more := comma.Some?;
    }

    /**
     * One parameter: name, mode, data type. A type that is not given as
     * %TYPE is read and propagated to the name; a missing type token there
     * is the null dereference of the source.
     */
    method ReadParameter() returns (name: Option<nat>, dataType: Option<nat>, typed: bool, more: bool)
      requires pos <= |src|
      modifies this`pos, this`paramType, this`fault
      ensures old(pos) <= pos <= |src|
      ensures name == if IdentAt(old(pos)) then Some(old(pos)) else None
      ensures name.None? ==> pos == old(pos) && !more && paramType == old(paramType) && fault == old(fault)
      ensures name.Some? ==> old(pos) < pos
      ensures dataType.Some? ==> old(pos) < dataType.value < pos
      ensures name.Some? && !typed && dataType.None? ==> fault && !more && paramType == old(paramType)
      ensures name.Some? && !typed && dataType.Some? ==>
        fault == old(fault) && paramType == old(paramType)[name.value := dataType.value]
      ensures name.Some? && typed ==> fault == old(fault) && paramType == old(paramType)
      ensures fault != old(fault) ==> pos == |src|
      ensures more ==> WordAt(pos - 1, ",")
    {
      dataType, typed, more := None, false, false;
      name := NextIdent();
      if name.None? {
        return;
      }
      ReadParameterMode();
      dataType := NextToken();
      typed := SubFound(TypedVariable);
      if !typed {
        Sub(DataType);
        Sub(VarDataTypeAttribute);
        if dataType.None? {
          fault := true;
          return;
        }
        paramType := paramType[name.value := dataType.value];
      }
      more := ReadParameterEnd();
    }

    /**
     * ParseFunctionParameters: an optional `(`, parameters separated by
     * commas, and the `)` recorded as the routine's parameter close. Every
     * parameter typed in place gets its data type propagated.
     */
    method ParseFunctionParameters(functionName: nat) returns (params: seq<nat>)
      requires pos <= |src|
      modifies this`pos, this`paramType, this`fault, this`spl
      ensures old(pos) <= pos <= |src|
      ensures spl == old(spl).(paramClose := spl.paramClose)
      ensures spl.paramClose.Some? ==> spl.paramClose.value == pos - 1 && WordAt(pos - 1, ")")
      ensures forall k :: 0 <= k < |params| ==> old(pos) <= params[k] < pos && IdentAt(params[k])
      ensures forall n :: n in paramType ==>
        (n in old(paramType) && paramType[n] == old(paramType)[n]) || (old(pos) <= n < paramType[n] < pos && IdentAt(n))
      ensures !fault ==> old(fault) == fault
      ensures fault != old(fault) ==> pos == |src|
    {
      params := [];
      var open := NextWord("(");
      while true
        invariant old(pos) <= pos <= |src|
        invariant forall k :: 0 <= k < |params| ==> old(pos) <= params[k] < pos && IdentAt(params[k])
        invariant forall n :: n in paramType ==>
          (n in old(paramType) && paramType[n] == old(paramType)[n]) || (old(pos) <= n < paramType[n] < pos && IdentAt(n))
        invariant !fault ==> old(fault) == fault
        invariant fault != old(fault) ==> pos == |src|
        invariant spl == old(spl)
        decreases |src| - pos
      {
        var name, dataType, typed, more := ReadParameter();
        if name.None? {
          break;
        }
        params := params + [name.value];
        if !more {
          break;
        }
      }
      var close := NextWord(")");
      spl := spl.(paramClose := close);
    }

    /**
     * The `;` after a routine's END, which may come after the routine's
     * name; a token that is neither is pushed back.
     */
    method ReadEndSemicolon(name: nat) returns (semi: bool)
      requires pos <= |src| && name < |src|
      modifies this`pos
      ensures semi <==> (|| WordAt(old(pos), ";")
                         || (old(pos) < |src| && SameWord(src[name], src[old(pos)]) && WordAt(old(pos) + 1, ";")))
      ensures pos == old(pos) + (if WordAt(old(pos), ";") then 1
                                 else if old(pos) < |src| && SameWord(src[name], src[old(pos)])
                                 then (if WordAt(old(pos) + 1, ";") then 2 else 1) else 0)
      ensures (semi, pos) == EndSemicolonFrom(name, old(pos))
    {
      var semiTok := NextWord(";");
      if semiTok.None? {
        var next := NextToken();
        if next.Some? && SameWord(src[name], src[next.value]) {
          semiTok := NextWord(";");
        } else {
          PushBack(next);
        }
      }
      semi := semiTok.Some?;
    }

    /**
     * The `;` that closes a routine read from p, and where the cursor stops:
     * `;`, or the routine's name and then an optional `;`.
     */
    function EndSemicolonFrom(name: nat, p: nat): (r: (bool, nat))
      requires name < |src| && p <= |src|
      ensures p <= r.1 <= |src|
      ensures r.0 ==> p < r.1 && WordAt(r.1 - 1, ";")
    {
      if WordAt(p, ";") then (true, p + 1)
      else if p < |src| && SameWord(src[name], src[p]) then
        if WordAt(p + 1, ";") then (true, p + 2) else (false, p + 1)
      else (false, p)
    }

    /**
     * The BEGIN and the block end of a routine read from p: an optional
     * BEGIN, the declarations, then BEGIN if written and the block.
     */
    function RoutineBlockFrom(p: nat): (r: (Option<nat>, nat))
      requires p <= |src|
      ensures p <= r.1 <= |src|
      ensures r.0.Some? ==> p <= r.0.value < r.1 && WordAt(r.0.value, "BEGIN")
    {
      var d := Extent(DeclarationBlock, if WordAt(p, "BEGIN") then p + 1 else p);
      if WordAt(d, "BEGIN") then (Some(d), Extent(Block, d + 1)) else (None, Extent(Block, d))
    }

    /** Where the cursor stops after a routine body b: past END, if written, and the closing `;`. */
    function RoutineBodyEnd(name: nat, b: RoutineBody): (q: nat)
      requires name < |src| && b.blockEnd <= |src| && (b.end.Some? ==> b.blockEnd < |src|)
      ensures b.blockEnd <= q <= |src|
    {
      EndSemicolonFrom(name, b.blockEnd + (if b.end.Some? then 1 else 0)).1
    }

    /**
     * A routine body as read from p: BEGIN and the block end as
     * RoutineBlockFrom gives them, END right after the block, and the
     * closing `;` as EndSemicolonFrom finds it.
     */
    ghost predicate RoutineBodyAt(name: nat, p: nat, b: RoutineBody)
    {
      && name < |src| && p <= |src|
      && (b.begin, b.blockEnd) == RoutineBlockFrom(p)
      && b.end == (if WordAt(b.blockEnd, "END") then Some(b.blockEnd) else None)
      && b.semi == EndSemicolonFrom(name, b.blockEnd + (if b.end.Some? then 1 else 0)).0
    }

    /**
     * The declarations and block of a routine. A BEGIN right after AS is
     * taken before the declarations and forgotten; begin is the BEGIN after
     * them. The innermost block start is pushed for the block and popped
     * after it.
     */
    method ReadRoutineBlock() returns (begin: Option<nat>, blockEnd: nat)
      requires pos <= |src|
      modifies this`pos, this`spl
      ensures old(pos) <= blockEnd == pos <= |src|
      ensures var declStart := if WordAt(old(pos), "BEGIN") then old(pos) + 1 else old(pos);
        begin == if WordAt(Extent(DeclarationBlock, declStart), "BEGIN") then Some(Extent(DeclarationBlock, declStart)) else None
      ensures begin.Some? ==> old(pos) <= begin.value < blockEnd
      ensures (begin, blockEnd) == RoutineBlockFrom(old(pos))
      ensures spl == old(spl)
    {
      var first := NextWord("BEGIN");
      Sub(DeclarationBlock);
      begin := NextWord("BEGIN");
      spl := spl.(beginBlocks := spl.beginBlocks + [Nvl(begin, LastTaken())]);
      Sub(Block);
      spl := spl.(beginBlocks := spl.beginBlocks[..|spl.beginBlocks| - 1]);
      blockEnd := pos;
    }

    /** END after a routine's block, END added when BEGIN was missing too, and the closing `;`. */
    method CloseRoutineBody(name: nat, begin: Option<nat>) returns (end: Option<nat>, semi: bool)
      requires Valid() && 0 < pos && name < |src|
      modifies this`pos, this`doc
      ensures Valid() && old(pos) <= pos
      ensures end == if WordAt(old(pos), "END") then Some(old(pos)) else None
      ensures semi ==> WordAt(pos - 1, ";")
      ensures (semi, pos) == EndSemicolonFrom(name, old(pos) + (if end.Some? then 1 else 0))
      ensures doc == EndSemicolon(EndBlock(old(doc), Some(old(pos) - 1), begin, end), end, semi)
    {
      end := NextWord("END");
      doc := EndBlock(doc, LastTaken(), begin, end);
      semi := ReadEndSemicolon(name);
      doc := EndSemicolon(doc, end, semi);
    }

    /**
     * ParseFunctionBody: the block, END (added when neither BEGIN nor END
     * was written) and the closing `;` (added after END when missing);
     * then BEGIN is moved after the declarations and the generated
     * variables are declared.
     */
    method ParseFunctionBody(create: nat, name: nat, asTok: Option<nat>) returns (b: RoutineBody)
      requires Valid() && 0 < pos && name < |src|
      modifies this`pos, this`doc, this`spl, this`calls
      ensures Valid() && old(pos) <= b.blockEnd <= pos && spl == old(spl)
      ensures b.begin.Some? ==> WordAt(b.begin.value, "BEGIN") && old(pos) <= b.begin.value < b.blockEnd
      ensures b.end == if WordAt(b.blockEnd, "END") then Some(b.blockEnd) else None
      ensures b.semi ==> WordAt(pos - 1, ";")
      ensures RoutineBodyFits(old(doc), b) && doc == RoutineBodyEdit(old(doc), b)
      ensures RoutineBodyAt(name, old(pos), b) && pos == RoutineBodyEnd(name, b)
      ensures calls == old(calls) + [MoveBeginAfterDeclare(create, asTok, b.begin, Some(old(pos) - 1)), AddGeneratedVariables]
    {
      var bodyStart := LastTaken();
      var begin, blockEnd := ReadRoutineBlock();
      var end, semi := CloseRoutineBody(name, begin);
      b := RoutineBody(begin, blockEnd, end, semi);
      calls := calls + [MoveBeginAfterDeclare(create, asTok, begin, bodyStart), AddGeneratedVariables];
    }

    /** SplPostActions: declarations for SELECTs moved out of IF conditions, then the copy blocks and the routine state are cleared. */
    method SplPostActions()
      modifies this`spl, this`calls
      ensures spl == ClearedRoutine()
      ensures calls == old(calls) + (if old(spl).movedIfSelect > 0 then [IfSelectDeclarations] else []) + [ClearCopy, ClearSplScope]
    {
      if spl.movedIfSelect > 0 {
        calls := calls + [IfSelectDeclarations];
      }
      calls := calls + [ClearCopy];
      ClearSpl();
    }

    /** The signature after a routine's name: parameters, RETURN type, options, and AS or IS. */
    method ReadFunctionSignature(name: nat) returns (asTok: Option<nat>)
      requires pos <= |src|
      modifies this`pos, this`paramType, this`fault, this`spl
      ensures old(pos) <= pos <= |src|
      ensures spl == old(spl).(paramClose := spl.paramClose)
      ensures asTok.Some? ==> asTok.value == pos - 1 && (WordAt(pos - 1, "AS") || WordAt(pos - 1, "IS"))
      ensures asTok.None? ==> !WordAt(pos, "AS") && !WordAt(pos, "IS")
      ensures !fault ==> old(fault) == fault
      ensures fault != old(fault) ==> pos == |src|
    {
      var params := ParseFunctionParameters(name);
      var returned := ParseFunctionReturns();
      var options := ParseFunctionOptions();
      asTok := NextWord("AS");
      if asTok.None? {
        asTok := NextWord("IS");
      }
    }

    /** The end of CREATE FUNCTION: data type sizes, an optional `/`, the post actions and a second clear. */
    method FinishFunction()
      requires pos <= |src|
      modifies this`pos, this`spl, this`calls
      ensures old(pos) <= pos <= |src| && spl == ClearedRoutine()
      ensures pos == old(pos) + (if WordAt(old(pos), "/") then 1 else 0)
      ensures calls == old(calls) + [AppendDataTypeSizes]
                       + (if old(spl).movedIfSelect > 0 then [IfSelectDeclarations] else [])
                       + [ClearCopy, ClearSplScope, ClearCopy, ClearSplScope]
    {
      calls := calls + [AppendDataTypeSizes];
      var slash := NextWord("/");
      SplPostActions();
      calls := calls + [ClearCopy];
      ClearSpl();
    }

    /**
     * What CREATE FUNCTION named at name read once its signature ended at
     * bodyStart: the body as RoutineBodyAt gives it, then an optional `/`
     * where the cursor stops. The fault flag is raised only by a parameter
     * cut off by the end of the stream, so the body is then empty.
     */
    ghost predicate FunctionRead(name: nat, bodyStart: nat, b: RoutineBody, fault0: bool, fault: bool, end: nat)
    {
      && (fault0 ==> fault)
      && (fault != fault0 ==> bodyStart == |src|)
      && RoutineBodyAt(name, bodyStart, b)
      && var e := RoutineBodyEnd(name, b);
      && end == e + (if WordAt(e, "/") then 1 else 0)
    }

    /**
     * ParseCreateFunction: the routine state is reset to a function started
     * at CREATE. Without a name the statement fails there. Otherwise CREATE
     * becomes CREATE OR REPLACE, FUNCTION becomes PROCEDURE when the name is
     * configured for that, and after the signature and body an optional `/`
     * is taken and the routine state is cleared.
     */
    method ParseCreateFunction(create: nat, func: nat) returns (r: bool, b: RoutineBody, asTok: Option<nat>, ghost bodyStart: nat)
      requires Valid() && create < pos && func < pos && create != func
      modifies this`pos, this`doc, this`spl, this`calls, this`paramType, this`fault
      ensures Valid() && old(pos) <= pos
      ensures r <==> IdentAt(old(pos))
      ensures !r ==> && doc == old(doc) && pos == old(pos)
                     && spl == ClearedRoutine().(scope := FuncScope, start := Some(create))
                     && calls == old(calls) + [ClearSplScope]
      ensures !r ==> fault == old(fault)
      ensures r ==> var toProc := Fold(src[old(pos)]) in funcToProc;
        && RoutineBodyFits(old(doc), b) && doc == FunctionEdit(old(doc), create, func, toProc, b)
        && old(pos) < bodyStart <= b.blockEnd
        && (asTok.Some? ==> asTok.value == bodyStart - 1 && (WordAt(bodyStart - 1, "AS") || WordAt(bodyStart - 1, "IS")))
        && (asTok.None? ==> !WordAt(bodyStart, "AS") && !WordAt(bodyStart, "IS"))
        && FunctionRead(old(pos), bodyStart, b, old(fault), fault, pos)
        && spl == ClearedRoutine()
        && calls == old(calls) + [ClearSplScope, MoveBeginAfterDeclare(create, asTok, b.begin, Some(bodyStart - 1)), AddGeneratedVariables, AppendDataTypeSizes, ClearCopy, ClearSplScope, ClearCopy, ClearSplScope]
    {
      ClearSpl();
      spl := spl.(scope := FuncScope, start := Some(create));
      var name := NextIdent();
      if name.None? {
        return false, RoutineBody(None, 1, None, false), None, pos;
      }
      b, asTok, bodyStart := ParseNamedFunction(create, func, name.value);
      r := true;
    }

    /** CREATE FUNCTION after its name: the head rewrite, the signature, the body and the finish. */
    method ParseNamedFunction(create: nat, func: nat, name: nat) returns (b: RoutineBody, asTok: Option<nat>, ghost bodyStart: nat)
      requires Valid() && create < pos && func < pos && create != func && name < pos
      requires spl.movedIfSelect == 0
      modifies this`pos, this`doc, this`spl, this`calls, this`paramType, this`fault
      ensures Valid() && old(pos) <= pos
      ensures var toProc := Fold(src[name]) in funcToProc;
        && RoutineBodyFits(old(doc), b) && doc == FunctionEdit(old(doc), create, func, toProc, b)
        && old(pos) <= bodyStart <= b.blockEnd
        && (asTok.Some? ==> asTok.value == bodyStart - 1 && (WordAt(bodyStart - 1, "AS") || WordAt(bodyStart - 1, "IS")))
        && (asTok.None? ==> !WordAt(bodyStart, "AS") && !WordAt(bodyStart, "IS"))
        && FunctionRead(name, bodyStart, b, old(fault), fault, pos)
        && spl == ClearedRoutine()
        && calls == old(calls) + [MoveBeginAfterDeclare(create, asTok, b.begin, Some(bodyStart - 1)), AddGeneratedVariables, AppendDataTypeSizes, ClearCopy, ClearSplScope, ClearCopy, ClearSplScope]
    {
      var toProc := Fold(src[name]) in funcToProc;
      spl := spl.(name := Some(name), funcToProc := toProc);
      doc := FunctionHead(doc, create, func, toProc);
      ghost var head := doc;
      asTok := ReadFunctionSignature(name);
      bodyStart := pos;
      b := ParseFunctionBody(create, name, asTok);
      assert doc == RoutineBodyEdit(head, b);
      FinishFunction();
    }

    // ------------------------------------------------------------------
    // DROP and TRUNCATE
    // ------------------------------------------------------------------

    /** The routine scopes in which DDL has to run as dynamic SQL. */
    predicate InRoutine(scope: Scope)
    {
      scope == ProcScope || scope == FuncScope || scope == TriggerScope
    }

    /**
     * The token after the table name of DROP TABLE, which is taken whatever
     * it is: IF, CASCADE (with CONSTRAINTS, which is then taken too) or
     * another token; after IF a `;` is taken too.
     */
    method ReadDropTail() returns (ifExists: bool, cascade: Option<nat>, semi: Option<nat>)
      requires pos < |src|
      modifies this`pos
      ensures ifExists == WordAt(old(pos), "IF")
      ensures cascade == if WordAt(old(pos), "CASCADE") && WordAt(old(pos) + 1, "CONSTRAINTS") then Some(old(pos)) else None
      ensures semi == if ifExists && WordAt(old(pos) + 1, ";") then Some(old(pos) + 1) else None
      ensures pos == old(pos) + 1 + (if cascade.Some? || semi.Some? then 1 else 0)
    {
      var next := NextToken();
      ifExists := WordAt(next.value, "IF");
      cascade, semi := None, None;
      if WordAt(next.value, "CASCADE") {
        var constraints := NextWord("CONSTRAINTS");
        if constraints.Some? {
          cascade := next;
        }
      }
      if ifExists {
        semi := NextWord(";");
      }
    }

    /**
     * ParseDropTableStatement: fails without a table name; at the end of
     * the stream after the name the source dereferences a null token.
     * Otherwise the statement is rewritten by DropTableEdit: IF EXISTS
     * emulation, CASCADE CONSTRAINTS removed, and TRUNCATE for the first
     * session table of that name.
     */
    method ParseDropTable(drop: nat) returns (r: bool, t: DropTable)
      requires Valid() && drop < pos
      modifies this`pos, this`doc, this`fault
      ensures Valid() && old(pos) <= pos
      ensures r <==> IdentAt(old(pos)) && old(pos) + 1 < |src|
      ensures !r ==> doc == old(doc)
      ensures !r && IdentAt(old(pos)) ==> fault
      ensures r ==> TableDropped(drop, old(pos), old(doc), doc, t, sessionTables, InRoutine(spl.scope)) && fault == old(fault)
      ensures fault == (old(fault) || (IdentAt(old(pos)) && old(pos) + 1 == |src|))
      ensures !IdentAt(old(pos)) ==> pos == old(pos)
      ensures IdentAt(old(pos)) && !r ==> pos == old(pos) + 1
      ensures r ==> pos == old(pos) + 2 + (if t.cascade.Some? || t.semi.Some? then 1 else 0)
    {
      t := DropTable(0, None, false, None, false, false);
      var name := NextIdent();
      if name.None? {
        return false, t;
      }
      if pos == |src| {
        fault := true;
        return false, t;
      }
      var ifExists, cascade, semi := ReadDropTail();
      var session := FirstMatch(sessionTables, src[name.value], 0).Some?;
      t := DropTable(name.value, cascade, ifExists, semi, session, InRoutine(spl.scope));
      doc := DropTableEdit(doc, drop, t);
      r := true;
    }

    /**
     * DROP TABLE with the name at p: every field of the edit is read off the
     * tokens after the name, the session tables and whether a routine is
     * being converted, and DropTableEdit rewrites the statement.
     */
    ghost predicate TableDropped(drop: nat, p: nat, d0: Doc, d: Doc, t: DropTable, tables: seq<string>, inRoutine: bool)
    {
      && d0.Fits(|src|) && p < |src|
      && t.name == p && drop != t.name
      && t.ifExists == WordAt(p + 1, "IF")
      && t.cascade == (if WordAt(p + 1, "CASCADE") && WordAt(p + 2, "CONSTRAINTS") then Some(p + 1) else None)
      && t.semi == (if t.ifExists && WordAt(p + 2, ";") then Some(p + 2) else None)
      && t.session == FirstMatch(tables, src[p], 0).Some?
      && t.inRoutine == inRoutine
      && DropTableFits(d0, drop, t) && d == DropTableEdit(d0, drop, t)
    }

    /** ParseDropTriggerStatement: only the trigger name is read; nothing is rewritten. */
    method ParseDropTrigger() returns (r: bool)
      requires pos <= |src|
      modifies this`pos
      ensures r <==> IdentAt(old(pos))
      ensures pos == if r then old(pos) + 1 else old(pos)
    {
      var name := NextIdent();
      r := name.Some?;
    }

    /** The fault flag after DROP with the object keyword at p: raised when a table name ends the stream. */
    function DropFault(p: nat, f0: bool): bool
    {
      f0 || (WordAt(p, "TABLE") && IdentAt(p + 1) && p + 2 == |src|)
    }

    /**
     * ParseDropStatement: DROP TABLE or DROP TRIGGER; the object keyword is
     * taken whatever it is, and any other object fails.
     */
    method ParseDropStatement(drop: nat) returns (r: bool, ghost t: DropTable)
      requires Valid() && drop < pos
      modifies this`pos, this`doc, this`fault
      ensures Valid() && old(pos) <= pos
      ensures DropDone(drop, old(pos), old(doc), doc, pos, old(fault), fault, r, t, sessionTables, InRoutine(spl.scope))
    {
      t := DropTable(0, None, false, None, false, false);
      var next := NextToken();
      if next.None? {
        return false, t;
      }
      if WordAt(next.value, "TABLE") {
        r, t := ParseDropTable(drop);
      } else if WordAt(next.value, "TRIGGER") {
        r := ParseDropTrigger();
      } else {
        r := false;
      }
    }

    /**
     * DROP with the object keyword at p, the cursor ending at end and the
     * fault flag going from f0 to f: DROP TABLE as TableDropped says, DROP
     * TRIGGER with its name and no edit; any other object is taken and
     * fails. A table name that ends the stream raises the fault flag.
     */
    ghost predicate DropDone(drop: nat, p: nat, d0: Doc, d: Doc, end: nat, f0: bool, f: bool, r: bool, t: DropTable,
                             tables: seq<string>, inRoutine: bool)
    {
      && d0.Fits(|src|)
      && f == DropFault(p, f0)
      && (p == |src| ==> !r && end == p)
      && (p < |src| && !WordAt(p, "TABLE") && !WordAt(p, "TRIGGER") ==> end == p + 1)
      && (WordAt(p, "TABLE") && !IdentAt(p + 1) ==> end == p + 1)
      && (WordAt(p, "TABLE") && IdentAt(p + 1) && !r ==> end == p + 2)
      && (WordAt(p, "TABLE") && r ==> end == p + 3 + (if t.cascade.Some? || t.semi.Some? then 1 else 0))
      && (WordAt(p, "TRIGGER") ==> end == p + 1 + (if IdentAt(p + 1) then 1 else 0))
      && (r ==> WordAt(p, "TABLE") || WordAt(p, "TRIGGER"))
      && (WordAt(p, "TABLE") ==> (r <==> IdentAt(p + 1) && p + 2 < |src|))
      && (WordAt(p, "TABLE") && r ==> TableDropped(drop, p + 1, d0, d, t, tables, inRoutine))
      && (WordAt(p, "TRIGGER") ==> (r <==> IdentAt(p + 1)))
      && (!(WordAt(p, "TABLE") && r) ==> d == d0)
    }

    /**
     * ParseTruncateStatement: TRUNCATE TABLE name; inside a procedure or
     * function the statement runs as dynamic SQL. TRUNCATE without TABLE
     * takes nothing.
     */
    method ParseTruncateStatement(truncate: nat, scope: Scope) returns (r: bool)
      requires Valid() && truncate < pos
      modifies this`pos, this`doc
      ensures Valid() && old(pos) <= pos
      ensures r <==> WordAt(old(pos), "TABLE") && IdentAt(old(pos) + 1)
      ensures !WordAt(old(pos), "TABLE") ==> pos == old(pos)
      ensures doc == if r && (scope == ProcScope || scope == FuncScope) then ExecuteImmediate(old(doc), truncate, old(pos) + 1) else old(doc)
    {
      var table := NextWord("TABLE");
      if table.None? {
        return false;
      }
      var name := NextIdent();
      if name.None? {
        return false;
      }
      if scope == ProcScope || scope == FuncScope {
        doc := ExecuteImmediate(doc, truncate, name.value);
      }
      r := true;
    }

    // ------------------------------------------------------------------
    // INSERT
    // ------------------------------------------------------------------

    /**
     * The column list of INSERT read from p: identifiers, each followed by
     * one token that is taken whatever it is; the list goes on after a `,`.
     * The columns read and where the cursor stops.
     */
    function InsertColumnsFrom(p: nat): (r: (seq<nat>, nat))
      requires p <= |src|
      ensures p <= r.1 <= |src|
      ensures r.0 == [] <==> !IdentAt(p)
      decreases |src| - p
    {
      if !IdentAt(p) then ([], p)
      else if WordAt(p + 1, ",") then
        var rest := InsertColumnsFrom(p + 2);
        ([p] + rest.0, rest.1)
      else ([p], if p + 1 < |src| then p + 2 else p + 1)
    }

    /**
     * The columns InsertColumnsFrom(p) reads stand every second token from
     * p, separated by commas, and the cursor stops after the delimiter
     * of the last one (or at the end of the stream).
     */
    lemma {:induction false} InsertColumnsShape(p: nat, cols: seq<nat>, end: nat)
      requires p <= |src| && (cols, end) == InsertColumnsFrom(p)
      ensures forall k :: 0 <= k < |cols| ==> cols[k] == p + 2 * k && IdentAt(cols[k])
      ensures forall k :: 0 <= k < |cols| - 1 ==> WordAt(cols[k] + 1, ",")
      ensures cols == [] ==> end == p
      ensures cols != [] ==> end == p + 2 * |cols| || end == p + 2 * |cols| - 1 == |src|
      decreases |src| - p
    {
      if IdentAt(p) && WordAt(p + 1, ",") {
        var rest := InsertColumnsFrom(p + 2);
        InsertColumnsShape(p + 2, rest.0, rest.1);
        assert forall k :: 1 <= k < |cols| ==> cols[k] == rest.0[k - 1];
      }
    }

    /**
     * The optional column list of INSERT with `(` at open: `(SELECT` not
     * followed by `(` is a subquery and the cursor goes back to the `(`;
     * otherwise the columns are read, after `SELECT (` when those stand there.
     */
    function InsertColumnList(open: nat): (r: (seq<nat>, nat))
      requires open < |src|
      ensures open <= r.1 <= |src|
    {
      if WordAt(open + 1, "SELECT") && !WordAt(open + 2, "(") then ([], open)
      else if WordAt(open + 1, "SELECT") then InsertColumnsFrom(open + 3)
      else InsertColumnsFrom(open + 1)
    }

    /**
     * The head of INSERT read from p: INTO, the table name and the optional
     * column list. The columns read and where the cursor stops.
     */
    function InsertHead(p: nat): (r: (seq<nat>, nat))
      requires p <= |src|
      ensures p <= r.1 <= |src|
      ensures WordAt(p, "INTO") && IdentAt(p + 1) ==> p + 2 <= r.1
    {
      if !WordAt(p, "INTO") then ([], p)
      else if !IdentAt(p + 1) then ([], p + 1)
      else if !WordAt(p + 2, "(") then ([], p + 2)
      else InsertColumnList(p + 2)
    }

    /**
     * The column list of INSERT: each column is followed by one token that
     * is taken whatever it is; the list goes on while that token is `,`.
     */
    method ReadInsertColumns() returns (cols: seq<nat>)
      requires pos <= |src|
      modifies this`pos
      ensures (cols, pos) == InsertColumnsFrom(old(pos))
      ensures cols == [] <==> !IdentAt(old(pos))
      ensures forall k :: 0 <= k < |cols| ==> cols[k] == old(pos) + 2 * k && IdentAt(cols[k])
      ensures forall k :: 0 <= k < |cols| - 1 ==> WordAt(cols[k] + 1, ",")
      ensures cols == [] ==> pos == old(pos)
      ensures cols != [] ==> pos == old(pos) + 2 * |cols| || pos == old(pos) + 2 * |cols| - 1 == |src|
      ensures pos <= |src|
    {
      cols := TakeInsertColumns();
      InsertColumnsShape(old(pos), cols, pos);
    }

    /** The loop of ReadInsertColumns. */
    method TakeInsertColumns() returns (cols: seq<nat>)
      requires pos <= |src|
      modifies this`pos
      ensures (cols, pos) == InsertColumnsFrom(old(pos))
    {
      cols := [];
      ghost var whole := InsertColumnsFrom(pos);
      assert whole.0 == cols + whole.0;
      while true
        invariant InsertColumnsLoop(old(pos), cols, pos)
        decreases |src| - pos
      {
        ghost var p := pos;
        InsertColumnsStep(old(pos), cols, p);
        var col := NextIdent();
        if col.None? {
          return;
        }
        var del := NextToken();
        cols := cols + [col.value];
        if del.None? || !WordAt(del.value, ",") {
          return;
        }
      }
    }

    /** ReadInsertColumns after reading cols from p0, the cursor at p: the rest of the list is read from p. */
    ghost predicate InsertColumnsLoop(p0: nat, cols: seq<nat>, p: nat)
    {
      && p0 <= p <= |src|
      && var rest := InsertColumnsFrom(p);
      && InsertColumnsFrom(p0) == (cols + rest.0, rest.1)
    }

    /** One round of ReadInsertColumns: the list stops without a column, or after a column not followed by `,`. */
    lemma InsertColumnsStep(p0: nat, cols: seq<nat>, p: nat)
      requires InsertColumnsLoop(p0, cols, p)
      ensures !IdentAt(p) ==> InsertColumnsFrom(p0) == (cols, p)
      ensures IdentAt(p) && WordAt(p + 1, ",") ==> InsertColumnsLoop(p0, cols + [p], p + 2)
      ensures IdentAt(p) && !WordAt(p + 1, ",") ==> InsertColumnsFrom(p0) == (cols + [p], if p + 1 < |src| then p + 2 else p + 1)
    {
      if !IdentAt(p) {
        assert cols + [] == cols;
      } else if WordAt(p + 1, ",") {
        var rest := InsertColumnsFrom(p + 2);
        assert cols + ([p] + rest.0) == (cols + [p]) + rest.0;
      }
    }

    /**
     * After INSERT INTO t `(`: a `(SELECT` that is not followed by another
     * `(` is a subquery, and the `(` is pushed back; otherwise the column
     * list is read (after SELECT ( when those were there).
     */
    method ReadInsertColumnList(open: nat) returns (cols: seq<nat>)
      requires pos <= |src| && open < pos
      modifies this`pos
      ensures pos <= |src|
      ensures open <= pos
      ensures old(pos) == open + 1 ==> (cols, pos) == InsertColumnList(open)
      ensures WordAt(old(pos), "SELECT") && !WordAt(old(pos) + 1, "(") ==> pos == open && cols == []
      ensures !WordAt(old(pos), "SELECT") ==> old(pos) <= pos && (cols == [] <==> !IdentAt(old(pos)))
      ensures forall k :: 0 <= k < |cols| ==> IdentAt(cols[k]) && cols[k] < pos
    {
      var select := NextWord("SELECT");
      var paren := NextWordAfter(select, "(");
      if select.Some? && paren.None? {
        PushBack(Some(open));
        return [];
      }
      cols := ReadInsertColumns();
    }

    /** INSERT INTO name and the optional column list; the name is recorded as the routine's last insert table. */
    method ReadInsertHead() returns (table: Option<nat>, cols: seq<nat>)
      requires pos <= |src|
      modifies this`pos, this`spl
      ensures old(pos) <= pos <= |src| && (table.Some? ==> table.value < pos)
      ensures table.Some? <==> WordAt(old(pos), "INTO") && IdentAt(old(pos) + 1)
      ensures table.Some? ==> table.value == old(pos) + 1 && spl == old(spl).(lastInsertTable := table)
      ensures table.None? ==> spl == old(spl)
      ensures forall k :: 0 <= k < |cols| ==> IdentAt(cols[k]) && cols[k] < pos
      ensures (cols, pos) == InsertHead(old(pos))
    {
      cols := [];
      var into := NextWord("INTO");
      if into.None? {
        return None, cols;
      }
      table := NextIdent();
      if table.None? {
        return;
      }
      spl := spl.(lastInsertTable := table);
      var open := NextWord("(");
      if open.Some? {
        cols := ReadInsertColumnList(open.value);
      }
    }

    /**
     * The values of one row after its `(`: expressions, each followed by a
     * token that is taken; the row goes on while that token is `,`. close
     * is the last such token, absent only at the end of the stream.
     */
    method ReadRowValues() returns (close: Option<nat>)
      requires pos <= |src|
      modifies this`pos
      ensures (close, pos) == RowValues(old(pos))
    {
      close := None;
      while true
        invariant old(pos) <= pos <= |src|
        invariant close.Some? ==> old(pos) < close.value == pos - 1 && WordAt(close.value, ",")
        invariant close.None? ==> pos == old(pos)
        invariant RowValues(old(pos)) == (if close.Some? && pos == |src| then (close, pos) else RowValues(pos))
        decreases |src| - pos
      {
        var exp := NextToken();
        if exp.None? {
          return;
        }
        Sub(Expression);
        var delimiter := NextToken();
        if delimiter.None? {
          return None;
        }
        close := delimiter;
        if !WordAt(delimiter.value, ",") {
          return;
        }
      }
    }

    /**
     * The values of a row when they start at p, after its `(`: an expression
     * starting with any token, then a delimiter; a `,` delimiter goes on
     * with the next expression. The result is the row's closing token (the
     * last delimiter, absent when the stream ends right after an
     * expression) and where the values end.
     */
    function RowValues(p: nat): (r: (Option<nat>, nat))
      requires p <= |src|
      ensures p <= r.1 <= |src|
      ensures r.0.Some? ==> p < r.0.value == r.1 - 1
      ensures r.0.None? ==> r.1 == |src|
      ensures r.0.Some? && WordAt(r.0.value, ",") ==> r.1 == |src|
      decreases |src| - p
    {
      if p == |src| then (None, p)
      else
        var e := Extent(Expression, p + 1);
        if e == |src| then (None, e)
        else if WordAt(e, ",") && e + 1 < |src| then RowValues(e + 1)
        else (Some(e), e + 1)
    }

    /**
     * The row starting at p, with where it ends: `(`, its values, and a
     * following `,` announcing another row. None when no `(` stands at p.
     */
    function RowAt(p: nat): (r: Option<(Row, nat)>)
      requires p <= |src|
      ensures r.None? <==> !WordAt(p, "(")
      ensures r.Some? ==> && r.value.0.open == p && p < r.value.1 <= |src| && RowFits(r.value.0, |src|)
                          && (r.value.0.close.Some? ==> p < r.value.0.close.value)
                          && (r.value.0.comma.Some? ==> && r.value.0.close.Some? && r.value.0.close.value < r.value.0.comma.value
                                                        && WordAt(r.value.0.comma.value, ",") && r.value.1 == r.value.0.comma.value + 1)
                          && (r.value.0.comma.None? ==> !WordAt(r.value.1, ","))
    {
      if !WordAt(p, "(") then None
      else
        var v := RowValues(p + 1);
        if WordAt(v.1, ",") then Some((Row(p, v.0, Some(v.1)), v.1 + 1))
        else Some((Row(p, v.0, None), v.1))
    }

    /**
     * The rows of a VALUES list starting at p: a row, and another while a
     * `,` follows. The flag says whether the list ended normally, after a
     * row without a following `,`; it is false when the token after a `,`
     * (or at p) is no `(`.
     */
    function RowsFrom(p: nat): (r: (seq<Row>, bool, nat))
      requires p <= |src|
      ensures p <= r.2 <= |src|
      decreases |src| - p
    {
      match RowAt(p)
      case None => ([], false, p)
      case Some(step) =>
        if step.0.comma.None? then ([step.0], true, step.1)
        else var rest := RowsFrom(step.1); ([step.0] + rest.0, rest.1, rest.2)
    }

    /**
     * What RowsFrom reads from p: the first row opens at p, every row opens
     * on `(` and the next one right after its `,`, and the list ends either
     * at a row with no `,` after it (success) or at a token that is no `(`.
     */
    ghost predicate RowList(p: nat, rows: seq<Row>, ok: bool, end: nat)
    {
      && p <= end <= |src|
      && (rows == [] <==> !WordAt(p, "("))
      && (rows != [] ==> rows[0].open == p)
      && (forall j :: 0 <= j < |rows| ==> WordAt(rows[j].open, "(") && RowFits(rows[j], |src|))
      && (forall j :: 0 <= j < |rows| - 1 ==> rows[j].comma.Some? && rows[j + 1].open == rows[j].comma.value + 1)
      && (forall j :: 0 <= j < |rows| && rows[j].comma.Some? ==> WordAt(rows[j].comma.value, ",") && rows[j].close.Some?)
      && (ok <==> rows != [] && rows[|rows| - 1].comma.None?)
      && (ok ==> !WordAt(end, ","))
      && (!ok ==> !WordAt(end, "(") && (rows != [] ==> end == rows[|rows| - 1].comma.value + 1))
    }

    /** The rows RowsFrom reads form a RowList. */
    lemma {:induction false} RowsListed(p: nat)
      requires p <= |src|
      ensures RowList(p, RowsFrom(p).0, RowsFrom(p).1, RowsFrom(p).2)
      decreases |src| - p
    {
      if WordAt(p, "(") {
        var step := RowAt(p).value;
        if step.0.comma.Some? {
          var rest := RowsFrom(step.1);
          RowsListed(step.1);
          var rows := [step.0] + rest.0;
          assert RowsFrom(p) == (rows, rest.1, rest.2);
          forall j | 0 <= j < |rows| - 1
            ensures rows[j].comma.Some? && rows[j + 1].open == rows[j].comma.value + 1
          {
            if j > 0 {
              assert rows[j] == rest.0[j - 1];
            }
          }
          assert rows[|rows| - 1] == (if rest.0 == [] then step.0 else rest.0[|rest.0| - 1]);
        }
      }
    }

    /** One row of a VALUES list: `(`, its values and the `,` that announces another row. */
    method ReadRow() returns (row: Option<Row>)
      requires pos <= |src|
      modifies this`pos
      ensures old(pos) <= pos <= |src|
      ensures row.Some? <==> WordAt(old(pos), "(")
      ensures row.None? ==> pos == old(pos)
      ensures RowStep(old(pos), row, pos)
      ensures row.Some? ==> && row.value.open == old(pos) && RowFits(row.value, pos)
                            && (row.value.close.Some? ==> row.value.open < row.value.close.value)
                            && (row.value.comma.Some? ==> row.value.close.Some? && row.value.close.value < row.value.comma.value)
                            && (row.value.comma.Some? ==> row.value.comma.value == pos - 1 && WordAt(pos - 1, ","))
                            && (row.value.comma.None? ==> !WordAt(pos, ","))
    {
      var open := NextWord("(");
      if open.None? {
        return None;
      }
      var close := ReadRowValues();
      var comma := NextWord(",");
      row := Some(Row(open.value, close, comma));
    }

    /**
     * The rows of a VALUES list, rewritten as they are read: when a second
     * row follows, every row becomes SELECT ... FROM dual joined by UNION
     * ALL (RowsEdit). A row without `(` fails the statement.
     */
    method ReadValuesRows(values: nat) returns (ok: bool, rows: seq<Row>)
      requires Valid() && values < pos
      modifies this`pos, this`doc
      ensures Valid() && old(pos) <= pos
      ensures (rows, ok, pos) == RowsFrom(old(pos))
      ensures RowsRead(values, rows, pos)
      ensures forall j :: 0 <= j < |rows| ==> RowFits(rows[j], |src|)
      ensures doc == RowsEdit(old(doc), values, rows)
    {
      rows := [];
      assert rows + RowsFrom(pos).0 == RowsFrom(pos).0;
      while true
        invariant Valid() && old(pos) <= pos
        invariant RowsLoop(values, old(doc), old(pos), rows, pos, doc)
        decreases |src| - pos
      {
        var row := ReadValuesRow(values, old(doc), old(pos), rows, |rows|);
        if row.None? {
          return false, rows;
        }
        rows := rows + [row.value];
        if row.value.comma.None? {
          return true, rows;
        }
      }
    }

    /** The rows read so far from p0, the cursor at p and the document d, between two rows. */
    ghost predicate RowsLoop(values: nat, d0: Doc, p0: nat, rows: seq<Row>, p: nat, d: Doc)
    {
      && p0 <= p <= |src| && d0.Fits(|src|) && values < |src|
      && RowsSoFar(p0, rows, p)
      && RowsRead(values, rows, p) && (forall j :: 0 <= j < |rows| ==> RowFits(rows[j], |src|))
      && d == RowsEdit(d0, values, rows)
      && (rows == [] ==> values < p)
      && (rows != [] ==> rows[|rows| - 1].comma.Some? && rows[|rows| - 1].comma.value < p)
    }

    /** The rows read from p0 up to p, with the rest of the list read from p, make up the list read from p0. */
    ghost predicate RowsSoFar(p0: nat, rows: seq<Row>, p: nat)
      requires p0 <= |src| && p <= |src|
    {
      var rest := RowsFrom(p); RowsFrom(p0) == (rows + rest.0, rest.1, rest.2)
    }

    /** One step of the VALUES loop from p: the row RowAt finds there, the cursor then at q. */
    ghost predicate RowStep(p: nat, row: Option<Row>, q: nat)
      requires p <= |src|
    {
      && (row.None? ==> q == p && RowAt(p).None?)
      && (row.Some? ==> RowAt(p) == Some((row.value, q)))
    }

    /**
     * The rows so far and one more step: the list from p0 either ends with
     * that step or goes on from where it left the cursor.
     */
    lemma RowsSoFarStep(p0: nat, rows: seq<Row>, p: nat, row: Option<Row>, q: nat)
      requires p0 <= |src| && p <= |src| && RowsSoFar(p0, rows, p) && RowStep(p, row, q)
      ensures row.None? ==> RowsFrom(p0) == (rows, false, p)
      ensures row.Some? && row.value.comma.None? ==> RowsFrom(p0) == (rows + [row.value], true, q)
      ensures row.Some? && row.value.comma.Some? ==> q <= |src| && RowsSoFar(p0, rows + [row.value], q)
    {
      if row.None? {
        assert rows + [] == rows;
      } else if row.value.comma.Some? {
        assert rows + ([row.value] + RowsFrom(q).0) == (rows + [row.value]) + RowsFrom(q).0;
      }
    }

    /** The next row of the VALUES list, rewritten as the rows before it were. */
    method ReadValuesRow(values: nat, ghost d0: Doc, ghost p0: nat, ghost rows: seq<Row>, k: nat) returns (row: Option<Row>)
      requires Valid() && RowsLoop(values, d0, p0, rows, pos, doc) && k == |rows|
      modifies this`pos, this`doc
      ensures Valid() && old(pos) <= pos
      ensures row.None? ==> && pos == old(pos) && doc == old(doc) && RowsFrom(p0) == (rows, false, pos)
      ensures row.Some? ==> old(pos) < pos
      ensures row.Some? && row.value.comma.None? ==>
        && RowsFrom(p0) == (rows + [row.value], true, pos)
        && RowsRead(values, rows + [row.value], pos) && (forall j :: 0 <= j < |rows| + 1 ==> RowFits((rows + [row.value])[j], |src|))
        && doc == RowsEdit(d0, values, rows + [row.value])
      ensures row.Some? && row.value.comma.Some? ==> RowsLoop(values, d0, p0, rows + [row.value], pos, doc)
    {
      ghost var p := pos;
      row := ReadRow();
      if row.None? {
        RowsSoFarStep(p0, rows, p, row, pos);
        return;
      }
      var r := row.value;
      RowsLoopNext(values, d0, p0, rows, p, doc, r, pos);
      if RowRewritten(r, k) {
        doc := RowSteps(doc, values, r, k);
      }
    }

    /** The loop's state after one more row r, read from p up to q, and its edit. */
    lemma RowsLoopNext(values: nat, d0: Doc, p0: nat, rows: seq<Row>, p: nat, d: Doc, r: Row, q: nat)
      requires RowsLoop(values, d0, p0, rows, p, d) && RowAt(p) == Some((r, q))
      ensures var d' := if RowRewritten(r, |rows|) then RowSteps(d, values, r, |rows|) else d;
        && RowsRead(values, rows + [r], q) && (forall j :: 0 <= j < |rows| + 1 ==> RowFits((rows + [r])[j], |src|))
        && d' == RowsEdit(d0, values, rows + [r])
        && (r.comma.None? ==> RowsFrom(p0) == (rows + [r], true, q))
        && (r.comma.Some? ==> RowsLoop(values, d0, p0, rows + [r], q, d'))
    {
      RowsSoFarStep(p0, rows, p, Some(r), q);
      RowsReadSnoc(values, rows, r, q);
      RowsEditSnoc(d0, values, rows, r);
    }

    /**
     * Where `RETURNING col INTO var` ends when it may start at p: the column
     * and the variable are identifiers, and INTO is looked for only after a
     * column. Without RETURNING nothing is read.
     */
    function ReturningEnd(p: nat): (q: nat)
      requires p <= |src|
      ensures p <= q <= |src|
      ensures q == p <==> !WordAt(p, "RETURNING")
    {
      if !WordAt(p, "RETURNING") then p
      else
        var afterCol := if IdentAt(p + 1) then p + 2 else p + 1;
        var afterInto := if IdentAt(p + 1) && WordAt(afterCol, "INTO") then afterCol + 1 else afterCol;
        if IdentAt(afterInto) then afterInto + 1 else afterInto
    }

    /** RETURNING column INTO variable after the VALUES list. */
    method ReadReturning()
      requires pos <= |src|
      modifies this`pos
      ensures pos == ReturningEnd(old(pos))
    {
      var returning := NextWord("RETURNING");
      if returning.Some? {
        var col := NextIdent();
        var into := NextWordAfter(col, "INTO");
        var variable := NextIdent();
      }
    }

    /**
     * The VALUES clause after VALUES: the rows, read in the INSERT VALUES
     * scope (left entered when a row has no `(`), then RETURNING.
     */
    method ReadValuesClause(values: nat) returns (ok: bool, rows: seq<Row>)
      requires Valid() && pos == values + 1
      modifies this`pos, this`doc, this`scopes
      ensures Valid() && old(pos) <= pos
      ensures ValuesRead(values, values + 1, old(doc), doc, pos, ok, rows)
      ensures ok ==> scopes == old(scopes)
      ensures !ok ==> scopes == old(scopes) + [InsertValuesScope]
    {
      Enter(InsertValuesScope);
      ok, rows := ReadValuesRows(values);
      RowsListed(old(pos));
      RowsReadGrow(values, rows, pos, |src|);
      if ok {
        Leave(InsertValuesScope);
        ReadReturning();
      }
    }

    /**
     * The VALUES clause read from p with VALUES at values, the cursor ending
     * at end: exactly the rows RowsFrom reads, then RETURNING after a list
     * that ended normally; the document d is d0 with those rows rewritten.
     */
    ghost predicate ValuesRead(values: nat, p: nat, d0: Doc, d: Doc, end: nat, ok: bool, rows: seq<Row>)
    {
      && values < p <= |src| && d0.Fits(|src|)
      && var t := RowsFrom(p);
      && rows == t.0 && ok == t.1 && end == (if ok then ReturningEnd(t.2) else t.2)
      && RowsRead(values, rows, |src|) && (forall j :: 0 <= j < |rows| ==> RowFits(rows[j], |src|))
      && d == RowsEdit(d0, values, rows)
      && (ok ==> rows != [] && rows[|rows| - 1].comma.None?)
    }

    /**
     * A VALUES clause whose rows end normally, the last one on its `)`: the
     * rows open on `(` from right after VALUES, one row is left as it is,
     * and two or more are rewritten to SELECT ... FROM dual UNION ALL.
     */
    lemma InsertRowsRewritten(values: nat, d0: Doc, d: Doc, end: nat, rows: seq<Row>)
      requires ValuesRead(values, values + 1, d0, d, end, true, rows)
      requires rows[|rows| - 1].close.Some?
      ensures rows[0].open == values + 1 && forall j :: 0 <= j < |rows| ==> WordAt(rows[j].open, "(")
      ensures |rows| == 1 ==> d == d0
      ensures |rows| > 1 ==> RowsRewritten(d0, d, values, rows)
    {
      RowsListed(values + 1);
      assert forall j :: 0 <= j < |rows| ==> rows[j].close.Some?;
      ValuesRewrite(d0, values, rows);
    }

    /**
     * ParseInsertStatement: INSERT INTO name [(columns)] VALUES rows. Without
     * VALUES (a subquery form) the statement fails after an optional `(`.
     * A CONTINUE handler is emulated after a success.
     */
    method ParseInsertStatement(insert: nat) returns (r: bool, values: nat, rows: seq<Row>)
      requires Valid() && insert < pos
      modifies this`pos, this`doc, this`spl, this`scopes, this`calls
      ensures Valid() && old(pos) <= pos
      ensures InsertDone(insert, old(pos), Effects(old(doc), books, old(calls)), Effects(doc, books, calls),
                         old(spl), spl, pos, r, values, rows)
      ensures r ==> scopes == old(scopes)
      ensures !r ==> scopes == old(scopes) + (if values != 0 then [InsertValuesScope] else [])
    {
      values, rows := 0, [];
      var table, cols := ReadInsertHead();
      if table.None? {
        return false, values, rows;
      }
      assert doc == old(doc) && calls == old(calls) && old(pos) + 1 < pos;
      r, values, rows := ReadInsertValues(insert);
    }

    /**
     * The part of an INSERT after its head: without VALUES
     * nothing is rewritten; otherwise the VALUES clause as ValuesRead says,
     * and a CONTINUE handler is emulated when it ends normally.
     */
    ghost predicate InsertValuesDone(insert: nat, d0: Doc, d: Doc, c0: seq<Call>, c: seq<Call>,
                                     end: nat, r: bool, values: nat, rows: seq<Row>)
    {
      && (values == 0 ==> !r && d == d0)
      && (values != 0 ==> WordAt(values, "VALUES")
                          && ValuesRead(values, values + 1, d0, d, end, r, rows))
      && c == (if r then c0 + [ContinueHandlerForInsert(insert)] else c0)
    }

    /** The part of an INSERT after its head: VALUES and the rows. */
    method ReadInsertValues(insert: nat) returns (r: bool, values: nat, rows: seq<Row>)
      requires Valid() && insert < pos
      modifies this`pos, this`doc, this`scopes, this`calls
      ensures Valid() && old(pos) <= pos
      ensures InsertValuesDone(insert, old(doc), doc, old(calls), calls, pos, r, values, rows)
      ensures values != 0 ==> values == old(pos)
      ensures values == (if WordAt(old(pos), "VALUES") then old(pos) else 0)
      ensures values == 0 ==> pos == old(pos) + (if WordAt(old(pos), "(") then 1 else 0)
      ensures r ==> scopes == old(scopes)
      ensures !r ==> scopes == old(scopes) + (if values != 0 then [InsertValuesScope] else [])
    {
      values, rows := 0, [];
      var valuesTok := NextWord("VALUES");
      if valuesTok.None? {
        var open := NextWord("(");
        return false, values, rows;
      }
      values := valuesTok.value;
      r, rows := ReadInsertRows(insert, values);
    }

    /** The rows after VALUES, then the CONTINUE handler emulated after a success. */
    method ReadInsertRows(insert: nat, values: nat) returns (r: bool, rows: seq<Row>)
      requires Valid() && 0 < values && pos == values + 1 && WordAt(values, "VALUES")
      modifies this`pos, this`doc, this`scopes, this`calls
      ensures Valid() && old(pos) <= pos
      ensures InsertValuesDone(insert, old(doc), doc, old(calls), calls, pos, r, values, rows)
      ensures r ==> scopes == old(scopes)
      ensures !r ==> scopes == old(scopes) + [InsertValuesScope]
    {
      r, rows := ReadValuesClause(values);
      if r {
        calls := calls + [ContinueHandlerForInsert(insert)];
      }
    }

    /**
     * INSERT with INTO expected at p, the cursor ending at end: success needs
     * INTO, the table name and VALUES followed by well-formed rows; the rows
     * read are rewritten by RowsEdit (also when a row is malformed), the
     * table is remembered for the routine and a CONTINUE handler is emulated.
     */
    ghost predicate InsertDone(insert: nat, p: nat, was: Effects, now: Effects, rt0: Routine, rt: Routine,
                               end: nat, r: bool, values: nat, rows: seq<Row>)
    {
      && was.doc.Fits(|src|) && p <= |src|
      && (r ==> WordAt(p, "INTO") && IdentAt(p + 1))
      && var head := InsertHead(p).1;
      && (if WordAt(p, "INTO") && IdentAt(p + 1)
          then && values == (if WordAt(head, "VALUES") then head else 0)
               && (values == 0 ==> end == head + (if WordAt(head, "(") then 1 else 0))
               && (values != 0 ==> p + 1 < values) && InsertValuesDone(insert, was.doc, now.doc, was.calls, now.calls, end, r, values, rows)
               && rt == rt0.(lastInsertTable := Some(p + 1))
          else !r && values == 0 && end == head && now.doc == was.doc && now.calls == was.calls && rt == rt0)
    }

    // ------------------------------------------------------------------
    // UPDATE
    // ------------------------------------------------------------------

    /**
     * Where the table list of UPDATE ... FROM ends when an item starts at p:
     * a comma after an item continues the list.
     */
    function UpdateFromEnd(p: nat): (q: nat)
      requires p <= |src|
      ensures p <= q <= |src|
      ensures p < |src| ==> p < q
      decreases |src| - p
    {
      var q := UpdateFromItemEnd(p);
      if WordAt(q, ",") then UpdateFromEnd(q + 1) else q
    }

    /**
     * Where one item of that list ends: a parenthesised subquery with its
     * `)` when it comes, or else a table name when one comes, then one token
     * taken as the alias.
     */
    function UpdateFromItemEnd(p: nat): (q: nat)
      requires p <= |src|
      ensures p <= q <= |src|
      ensures p < |src| ==> p < q
    {
      var afterItem :=
        if WordAt(p, "(") then
          var s := Extent(SelectStatement, p + 1);
          if WordAt(s, ")") then s + 1 else s
        else if IdentAt(p) then p + 1 else p;
      if afterItem < |src| then afterItem + 1 else afterItem
    }

    /** One item of the UPDATE ... FROM list with its alias. */
    method ReadUpdateFromItem()
      requires pos <= |src|
      modifies this`pos
      ensures pos == UpdateFromItemEnd(old(pos))
    {
      var open := NextWord("(");
      if open.Some? {
        Sub(SelectStatement);
        var close := NextWord(")");
      } else {
        var table := NextIdent();
      }
      var alias := NextToken();
    }

    /**
     * UPDATE t FROM ...: a list of tables or parenthesised subqueries, each
     * followed by one token taken as its alias, separated by commas.
     */
    method ReadUpdateFrom()
      requires pos <= |src|
      modifies this`pos
      ensures pos == UpdateFromEnd(old(pos))
    {
      while true
        invariant old(pos) <= pos <= |src|
        invariant UpdateFromEnd(pos) == UpdateFromEnd(old(pos))
        decreases |src| - pos
      {
        ReadUpdateFromItem();
        var comma := NextWord(",");
        if comma.None? {
          return;
        }
      }
    }

    /**
     * Where the SET list starts for an UPDATE whose table name is at p:
     * after FROM and its table list and SET, after SET, or after an alias
     * and SET (either SET may be missing).
     */
    function UpdateTargetEnd(p: nat): (q: nat)
      requires p + 1 < |src|
      ensures p + 2 <= q <= |src|
    {
      if WordAt(p + 1, "FROM") then
        var e := UpdateFromEnd(p + 2);
        if WordAt(e, "SET") then e + 1 else e
      else if WordAt(p + 1, "SET") then p + 2
      else if WordAt(p + 2, "SET") then p + 3
      else p + 2
    }

    /**
     * The target of UPDATE up to SET: the table name, then FROM and its
     * table list, an alias, or SET itself. Fails without a name or at the
     * end of the stream after it.
     */
    method ReadUpdateTarget() returns (ok: bool)
      requires pos <= |src|
      modifies this`pos
      ensures old(pos) <= pos <= |src|
      ensures ok <==> IdentAt(old(pos)) && old(pos) + 1 < |src|
      ensures ok && WordAt(old(pos) + 1, "SET") ==> pos == old(pos) + 2
      ensures ok && !WordAt(old(pos) + 1, "SET") && !WordAt(old(pos) + 1, "FROM") ==>
        pos == old(pos) + (if WordAt(old(pos) + 2, "SET") then 3 else 2)
      ensures ok ==> pos == UpdateTargetEnd(old(pos))
    {
      var name := NextIdent();
      if name.None? {
        return false;
      }
      var next := NextToken();
      if next.None? {
        return false;
      }
      if WordAt(next.value, "FROM") {
        ReadUpdateFrom();
        var setWord := NextWord("SET");
      } else if !WordAt(next.value, "SET") {
        var setWord := NextWord("SET");
      }
      ok := true;
    }

    /**
     * The columns of an assignment read from p: identifiers each followed
     * by a comma while the list goes on; without `(` (open false) one
     * identifier is taken and none listed. Also the position after them.
     */
    function AssignCols(p: nat, open: bool): (r: (seq<ColRef>, nat))
      requires p <= |src|
      ensures p <= r.1 <= |src|
      ensures !open ==> r.0 == []
      decreases |src| - p
    {
      if !IdentAt(p) then ([], p)
      else if !open then ([], p + 1)
      else if WordAt(p + 1, ",") then var t := AssignCols(p + 2, open); ([ColRef(p, Some(p + 1))] + t.0, t.1)
      else ([ColRef(p, None)], p + 1)
    }

    /**
     * The columns AssignCols reads sit at every other token from p, each
     * but possibly the last followed by its comma.
     */
    lemma {:induction false} AssignColsShape(p: nat, open: bool)
      requires p <= |src|
      ensures ColsShape(AssignCols(p, open).0, p, AssignCols(p, open).1)
      decreases |src| - p
    {
      if open && IdentAt(p) && WordAt(p + 1, ",") {
        AssignColsShape(p + 2, open);
        var t := AssignCols(p + 2, open);
        var cols := AssignCols(p, open).0;
        assert cols == [ColRef(p, Some(p + 1))] + t.0;
        forall k | 0 < k < |cols|
          ensures cols[k] == t.0[k - 1]
        {
        }
        assert cols[0] == ColRef(p, Some(p + 1));
      }
    }

    /**
     * Columns read from p to end: at every other token from p, each but
     * possibly the last followed by its comma.
     */
    ghost predicate ColsShape(cols: seq<ColRef>, p: nat, end: nat)
    {
      && (forall k :: 0 <= k < |cols| ==> cols[k].col == p + 2 * k && IdentAt(cols[k].col))
      && (forall k :: 0 <= k < |cols| && cols[k].comma.Some? ==> cols[k].comma.value == cols[k].col + 1 && WordAt(cols[k].col + 1, ","))
      && (forall k :: 0 <= k < |cols| - 1 ==> cols[k].comma.Some?)
      && p + 2 * |cols| <= end + 1 && (cols != [] && cols[|cols| - 1].comma.Some? ==> p + 2 * |cols| <= end)
    }

    /** Reading one more column and its comma after cols keeps what AssignCols reads. */
    lemma AssignColsNext(p: nat, cols: seq<ColRef>)
      requires IdentAt(p) && WordAt(p + 1, ",")
      ensures AssignCols(p, true).0 == [ColRef(p, Some(p + 1))] + AssignCols(p + 2, true).0
      ensures cols + AssignCols(p, true).0 == cols + [ColRef(p, Some(p + 1))] + AssignCols(p + 2, true).0
      ensures AssignCols(p, true).1 == AssignCols(p + 2, true).1
    {
    }

    /**
     * The values of an assignment read from p: one expression when many is
     * false, otherwise expressions while each is followed by a comma.
     */
    function AssignVals(p: nat, many: bool): (r: (seq<nat>, nat))
      requires p <= |src|
      ensures p <= r.1 <= |src|
      ensures !many ==> |r.0| <= 1
      decreases |src| - p
    {
      if p == |src| then ([], p)
      else
        var e := Extent(Expression, p + 1);
        if !many then ([p], e)
        else if WordAt(e, ",") then var t := AssignVals(e + 1, many); ([p] + t.0, t.1)
        else ([p], e)
    }

    /**
     * One assignment read from p, and the position after what was taken:
     * none when no `=` follows the columns. Values are parenthesised only
     * when the columns are; a subquery in their place lists no value.
     */
    function AssignAt(p: nat): (r: (Option<Assign>, nat))
      requires p <= |src|
      ensures p <= r.1 <= |src|
      ensures r.0.Some? ==> p <= r.0.value.equal < r.1 && WordAt(r.0.value.equal, "=")
      ensures r.0.Some? && r.0.value.open.None? ==> r.0.value.cols == [] && |r.0.value.vals| <= 1
    {
      var open := if WordAt(p, "(") then Some(p) else None;
      var cs := AssignCols(if open.Some? then p + 1 else p, open.Some?);
      var close := if open.Some? && WordAt(cs.1, ")") then Some(cs.1) else None;
      var equal := if close.Some? then cs.1 + 1 else cs.1;
      if !WordAt(equal, "=") then (None, equal)
      else
        var rt := AssignRight(equal + 1, open.Some?);
        (Some(Assign(open, cs.0, close, equal, rt.0, rt.1, rt.2)), rt.3)
    }

    /**
     * The values side of an assignment read from p, after its `=`: `(`,
     * the values and `)` when the columns were parenthesised (open), with a
     * subquery in place of the values; the position after them comes last.
     */
    function AssignRight(p: nat, open: bool): (r: (Option<nat>, seq<nat>, Option<nat>, nat))
      requires p <= |src|
      ensures p <= r.3 <= |src|
      ensures !open ==> r.0.None? && r.2.None? && |r.1| <= 1
      ensures r.0.Some? ==> r.0.value == p && WordAt(p, "(")
      ensures r.2.Some? ==> r.2.value == r.3 - 1 && WordAt(r.2.value, ")")
    {
      var open2 := if open && WordAt(p, "(") then Some(p) else None;
      var q := if open2.Some? then p + 1 else p;
      var sel := if open2.Some? then Extent(SelectStatement, q) else q;
      var vs := if sel > q then ([], sel) else AssignVals(q, open2.Some?);
      var close2 := if open2.Some? && WordAt(vs.1, ")") then Some(vs.1) else None;
      (open2, vs.0, close2, if close2.Some? then vs.1 + 1 else vs.1)
    }

    /**
     * The SET list read from p: assignments while each is followed by a
     * comma, and the position after what was taken.
     */
    function AssignsFrom(p: nat): (r: (seq<Assign>, nat))
      requires p <= |src|
      ensures p <= r.1 <= |src|
      decreases |src| - p
    {
      var a := AssignAt(p);
      if a.0.None? then ([], a.1)
      else if WordAt(a.1, ",") then var t := AssignsFrom(a.1 + 1); ([a.0.value] + t.0, t.1)
      else ([a.0.value], a.1)
    }

    /**
     * The column list of an assignment: only after `(`, identifiers each
     * followed by a comma while the list goes on. Without `(` one
     * identifier is still taken and no column is listed.
     */
    method ReadAssignColumns(open: Option<nat>) returns (cols: seq<ColRef>)
      requires pos <= |src|
      modifies this`pos
      ensures old(pos) <= pos <= |src|
      ensures open.None? ==> cols == []
      ensures ColsShape(cols, old(pos), pos)
      ensures (cols, pos) == AssignCols(old(pos), open.Some?)
    {
      cols := [];
      var more := true;
      while more
        invariant more ==> AssignColsLoop(old(pos), open.Some?, cols, pos)
        invariant !more ==> (cols, pos) == AssignCols(old(pos), open.Some?)
        decreases |src| - pos, more
      {
        cols, more := ReadAssignColumn(open, old(pos), cols);
      }
      ghost var r := AssignCols(old(pos), open.Some?);
      assert cols == r.0 && pos == r.1;
      AssignColsShape(old(pos), open.Some?);
    }

    /** cols read from p0 to p, AssignCols reading the rest from p. */
    ghost predicate AssignColsLoop(p0: nat, open: bool, cols: seq<ColRef>, p: nat)
    {
      && p0 <= p <= |src|
      && AssignCols(p0, open).0 == cols + AssignCols(p, open).0
      && AssignCols(p0, open).1 == AssignCols(p, open).1
    }

    /** One step of the column list: an identifier and, after `(`, its comma. */
    method ReadAssignColumn(open: Option<nat>, ghost p0: nat, cols: seq<ColRef>) returns (cols': seq<ColRef>, more: bool)
      requires pos <= |src| && AssignColsLoop(p0, open.Some?, cols, pos)
      modifies this`pos
      ensures more ==> old(pos) < pos && AssignColsLoop(p0, open.Some?, cols', pos)
      ensures !more ==> (cols', pos) == AssignCols(p0, open.Some?)
    {
      ghost var p := pos;
      cols' := cols;
      var col := NextIdent();
      if col.None? || open.None? {
        assert AssignCols(p, open.Some?).0 == [];
        assert cols + [] == cols;
        return cols', false;
      }
      var comma := NextWord(",");
      var step := [ColRef(col.value, comma)];
      if comma.None? {
        assert AssignCols(p, open.Some?).0 == step;
        return cols + step, false;
      }
      AssignColsNext(p, cols);
      return cols + step, true;
    }

    /**
     * The values of an assignment: nothing after a subquery; one expression
     * when the values are not parenthesised; otherwise expressions separated
     * by commas.
     */
    method ReadAssignValues(open2: Option<nat>, select: bool) returns (vals: seq<nat>)
      requires pos <= |src|
      modifies this`pos
      ensures old(pos) <= pos <= |src|
      ensures ValsRead(vals, old(pos), pos)
      ensures select ==> vals == [] && pos == old(pos)
      ensures open2.None? ==> |vals| <= 1
      ensures !select ==> (vals, pos) == AssignVals(old(pos), open2.Some?)
    {
      vals := [];
      if select {
        return;
      }
      var more := true;
      while more
        invariant old(pos) <= pos <= |src| && ValsRead(vals, old(pos), pos)
        invariant more ==> AssignValsLoop(old(pos), open2.Some?, vals, pos)
        invariant !more ==> (vals, pos) == AssignVals(old(pos), open2.Some?)
        decreases |src| - pos, more
      {
        vals, more := ReadAssignValue(open2.Some?, old(pos), vals);
      }
    }

    /** vals read from p0 to p, AssignVals reading the rest from p. */
    ghost predicate AssignValsLoop(p0: nat, many: bool, vals: seq<nat>, p: nat)
    {
      && p0 <= p <= |src|
      && AssignVals(p0, many).0 == vals + AssignVals(p, many).0
      && AssignVals(p0, many).1 == AssignVals(p, many).1
    }

    /** One step of the values: an expression and, when many, its comma. */
    method ReadAssignValue(many: bool, ghost p0: nat, vals: seq<nat>) returns (vals': seq<nat>, more: bool)
      requires pos <= |src| && AssignValsLoop(p0, many, vals, pos) && ValsRead(vals, p0, pos)
      modifies this`pos
      ensures old(pos) <= pos <= |src| && ValsRead(vals', p0, pos)
      ensures more ==> old(pos) < pos && AssignValsLoop(p0, many, vals', pos)
      ensures !more ==> (vals', pos) == AssignVals(p0, many)
    {
      ghost var p := pos;
      var exp := NextToken();
      if exp.None? {
        assert vals + [] == vals;
        return vals, false;
      }
      Sub(Expression);
      ValsReadSnoc(vals, p0, exp.value, pos);
      vals' := vals + [exp.value];
      if !many {
        return vals', false;
      }
      var comma := NextWord(",");
      if comma.None? {
        return vals', false;
      }
      AssignValsNext(p, vals);
      more := true;
    }

    /** Reading one more value and its comma after vals keeps what AssignVals reads. */
    lemma AssignValsNext(p: nat, vals: seq<nat>)
      requires p < |src| && WordAt(Extent(Expression, p + 1), ",")
      ensures AssignVals(p, true).0 == [p] + AssignVals(Extent(Expression, p + 1) + 1, true).0
      ensures vals + AssignVals(p, true).0 == vals + [p] + AssignVals(Extent(Expression, p + 1) + 1, true).0
      ensures AssignVals(p, true).1 == AssignVals(Extent(Expression, p + 1) + 1, true).1
    {
    }

    /** The columns side of an assignment read from p as AssignAt reads it, up to its `=` at equal. */
    ghost predicate LeftRead(p: nat, open: Option<nat>, cols: seq<ColRef>, close: Option<nat>, equal: nat)
    {
      && p <= equal < |src| && WordAt(equal, "=")
      && open == (if WordAt(p, "(") then Some(p) else None)
      && var cs := AssignCols(if open.Some? then p + 1 else p, open.Some?);
      && cols == cs.0 && close == (if open.Some? && WordAt(cs.1, ")") then Some(cs.1) else None)
      && equal == (if close.Some? then cs.1 + 1 else cs.1)
    }

    /**
     * The columns side of an assignment read from p to end: columns at
     * every other token after `(`, each comma right after its column, the
     * `)` inside and the `=` last.
     */
    ghost predicate LeftShape(p: nat, open: Option<nat>, cols: seq<ColRef>, close: Option<nat>, equal: Option<nat>, end: nat)
    {
      && (open.None? ==> cols == [])
      && (forall k :: 0 <= k < |cols| ==> cols[k].col == p + 1 + 2 * k)
      && (forall k :: 0 <= k < |cols| && cols[k].comma.Some? ==> cols[k].comma.value == cols[k].col + 1)
      && (close.Some? ==> p < close.value < end)
      && (equal.Some? ==> equal.value == end - 1 && p + 1 + 2 * |cols| <= end && WordAt(equal.value, "="))
    }

    /** `(` columns `)` and `=` of one assignment; equal is absent when there is no `=`. */
    method ReadAssignLeft() returns (open: Option<nat>, cols: seq<ColRef>, close: Option<nat>, equal: Option<nat>)
      requires pos <= |src|
      modifies this`pos
      ensures old(pos) <= pos <= |src|
      ensures open == if WordAt(old(pos), "(") then Some(old(pos)) else None
      ensures LeftShape(old(pos), open, cols, close, equal, pos)
      ensures equal.Some? ==> LeftRead(old(pos), open, cols, close, equal.value)
      ensures equal.None? ==> AssignAt(old(pos)) == (None, pos)
    {
      open := NextWord("(");
      var colStart := pos;
      cols := ReadAssignColumns(open);
      close := NextWordAfter(open, ")");
      equal := NextWord("=");
    }

    /**
     * One assignment of SET. found is false when no `=` came; otherwise the
     * assignment (c) = (v) is complete, its tokens are in stream order and
     * all before pos.
     */
    method ReadAssignment() returns (found: bool, a: Assign)
      requires pos <= |src|
      modifies this`pos
      ensures old(pos) <= pos <= |src|
      ensures found ==> AssignRead(a, old(pos), pos)
      ensures AssignAt(old(pos)) == (if found then Some(a) else None, pos)
    {
      var open, cols, close, equal := ReadAssignLeft();
      a := Assign(None, [], None, 0, None, [], None);
      if equal.None? {
        return false, a;
      }
      var open2, vals, close2 := ReadAssignRight(open);
      AssignAtFrom(old(pos), open, cols, close, equal.value, open2, vals, close2, pos);
      AssignReadFrom(old(pos), open, cols, close, equal.value, open2, vals, close2, pos);
      a := Assign(open, cols, close, equal.value, open2, vals, close2);
      found := true;
    }

    /**
     * An assignment read from p to end: its tokens in stream order, all
     * below end, its `=` in place, and a single unparenthesised value.
     */
    ghost predicate AssignRead(a: Assign, p: nat, end: nat)
    {
      && AssignFits(a, end) && PairsInOrder(a.cols, a.vals, end) && p <= a.equal
      && WordAt(a.equal, "=") && (a.open.None? ==> |a.vals| <= 1 && a.cols == [])
    }

    /** The two halves of an assignment, read from p and after its `=`, make the assignment AssignAt reads. */
    lemma AssignAtFrom(p: nat, open: Option<nat>, cols: seq<ColRef>, close: Option<nat>, equal: nat,
                       open2: Option<nat>, vals: seq<nat>, close2: Option<nat>, end: nat)
      requires LeftRead(p, open, cols, close, equal)
      requires (open2, vals, close2, end) == AssignRight(equal + 1, open.Some?)
      ensures AssignAt(p) == (Some(Assign(open, cols, close, equal, open2, vals, close2)), end)
    {
    }

    /** The two halves of an assignment, read from p and after its `=`, are in stream order below end. */
    lemma AssignReadFrom(p: nat, open: Option<nat>, cols: seq<ColRef>, close: Option<nat>, equal: nat,
                         open2: Option<nat>, vals: seq<nat>, close2: Option<nat>, end: nat)
      requires LeftRead(p, open, cols, close, equal)
      requires (open2, vals, close2, end) == AssignRight(equal + 1, open.Some?)
      requires ValsRead(vals, equal + 1, end)
      ensures AssignRead(Assign(open, cols, close, equal, open2, vals, close2), p, end)
    {
      var q := if open.Some? then p + 1 else p;
      AssignColsShape(q, open.Some?);
      AssignPairsInOrder(cols, vals, q, equal + 1, end);
      AssignFitsFrom(Assign(open, cols, close, equal, open2, vals, close2), end);
    }

    /** An assignment whose pairs are in order below end, and whose brackets and `=` are too, fits below end. */
    lemma AssignFitsFrom(a: Assign, end: nat)
      requires PairsInOrder(a.cols, a.vals, end) && a.equal < end
      requires (a.open.Some? ==> a.open.value < end) && (a.close.Some? ==> a.close.value < end)
      requires (a.open2.Some? ==> a.open2.value < end) && (a.close2.Some? ==> a.close2.value < end)
      ensures AssignFits(a, end)
    {
    }

    /** The values side of an assignment, as AssignRight reads it. */
    method ReadAssignRight(open: Option<nat>) returns (open2: Option<nat>, vals: seq<nat>, close2: Option<nat>)
      requires pos <= |src|
      modifies this`pos
      ensures (open2, vals, close2, pos) == AssignRight(old(pos), open.Some?)
      ensures ValsRead(vals, old(pos), pos)
    {
      open2 := NextWordAfter(open, "(");
      var select := false;
      if open2.Some? {
        select := SubFound(SelectStatement);
      }
      var valStart := pos;
      vals := ReadAssignValues(open2, select);
      close2 := NextWordAfter(open2, ")");
      ValsReadGrow(vals, valStart, pos - (if close2.Some? then 1 else 0), pos);
      ValsReadFrom(vals, old(pos), valStart, pos);
    }

    /**
     * The SET list: assignments separated by commas, each rewritten as it is
     * read (AssignsEdit): a list assignment with two or more values becomes
     * one `c = v` per pair.
     */
    method ReadAssignments() returns (assigns: seq<Assign>)
      requires Valid()
      modifies this`pos, this`doc
      ensures Valid() && old(pos) <= pos
      ensures AssignsRead(assigns, |src|)
      ensures doc == AssignsEdit(old(doc), assigns)
      ensures (assigns, pos) == AssignsFrom(old(pos))
    {
      ghost var r0 := AssignsFrom(pos);
      assigns := [];
      var more := true;
      while more
        invariant Valid() && old(pos) <= pos
        invariant AssignsRead(assigns, |src|) && doc == AssignsEdit(old(doc), assigns)
        invariant more ==> AssignsLoop(r0, assigns, pos)
        invariant !more ==> (assigns, pos) == r0
        decreases |src| - pos, more
      {
        assigns, more := ReadAssignStep(r0, old(doc), assigns);
      }
    }

    /** An assignment read after a list extends the list read and its rewrite. */
    lemma AssignsEditNext(d0: Doc, assigns: seq<Assign>, a: Assign, p: nat, end: nat)
      requires d0.Fits(|src|) && AssignsRead(assigns, |src|) && AssignRead(a, p, end) && end <= |src|
      ensures AssignsRead(assigns + [a], |src|)
      ensures AssignsEdit(d0, assigns + [a]) == AssignEdit(AssignsEdit(d0, assigns), a)
    {
      AssignGrow(a, end, |src|);
      AssignsEditSnoc(d0, assigns, a);
    }

    /**
     * One step of the SET list: an assignment, rewritten as AssignEdit says,
     * and the comma after it; more is false when the list ends.
     */
    method ReadAssignStep(ghost r0: (seq<Assign>, nat), ghost d0: Doc, assigns: seq<Assign>) returns (assigns': seq<Assign>, more: bool)
      requires Valid() && AssignsLoop(r0, assigns, pos)
      requires d0.Fits(|src|) && AssignsRead(assigns, |src|) && doc == AssignsEdit(d0, assigns)
      modifies this`pos, this`doc
      ensures Valid() && old(pos) <= pos
      ensures AssignsRead(assigns', |src|) && doc == AssignsEdit(d0, assigns')
      ensures more ==> old(pos) < pos && AssignsLoop(r0, assigns', pos)
      ensures !more ==> (assigns', pos) == r0
    {
      var found, a := ReadAssignEdit(r0, d0, assigns);
      if !found {
        return assigns, false;
      }
      var comma := NextWord(",");
      assigns' := assigns + [a];
      more := comma.Some?;
    }

    /** One assignment of the SET list read and rewritten after the list so far. */
    method ReadAssignEdit(ghost r0: (seq<Assign>, nat), ghost d0: Doc, ghost assigns: seq<Assign>) returns (found: bool, a: Assign)
      requires Valid() && AssignsLoop(r0, assigns, pos)
      requires d0.Fits(|src|) && AssignsRead(assigns, |src|) && doc == AssignsEdit(d0, assigns)
      modifies this`pos, this`doc
      ensures Valid() && old(pos) <= pos
      ensures !found ==> doc == old(doc) && (assigns, pos) == r0
      ensures found ==> old(pos) < pos && AssignsAfter(r0, assigns + [a], pos)
      ensures found ==> AssignsRead(assigns + [a], |src|) && doc == AssignsEdit(d0, assigns + [a])
    {
      found, a := ReadAssignment();
      AssignsNext(r0, assigns, old(pos), if found then Some(a) else None, pos);
      if found {
        AssignsEditNext(d0, assigns, a, old(pos), pos);
        doc := AssignEdit(doc, a);
      }
    }

    /** assigns read before p, AssignsFrom reading the rest from p, make up the list r0. */
    ghost predicate AssignsLoop(r0: (seq<Assign>, nat), assigns: seq<Assign>, p: nat)
    {
      && p <= |src|
      && r0.0 == assigns + AssignsFrom(p).0
      && r0.1 == AssignsFrom(p).1
    }

    /** assigns read up to q, where the list ends or goes on after a comma. */
    ghost predicate AssignsAfter(r0: (seq<Assign>, nat), assigns: seq<Assign>, q: nat)
    {
      && q <= |src|
      && if WordAt(q, ",") then AssignsLoop(r0, assigns, q + 1) else r0 == (assigns, q)
    }

    /**
     * One step of the SET list: the assignment a read from p ends at q;
     * then the list ends, or goes on after the comma at q.
     */
    lemma AssignsNext(r0: (seq<Assign>, nat), assigns: seq<Assign>, p: nat, a: Option<Assign>, q: nat)
      requires AssignsLoop(r0, assigns, p) && AssignAt(p) == (a, q)
      ensures a.None? ==> (assigns, q) == r0
      ensures a.Some? ==> AssignsAfter(r0, assigns + [a.value], q)
    {
      var r := AssignsFrom(p);
      var comma := a.Some? && WordAt(q, ",");
      if a.None? {
        assert r == ([], q);
        assert assigns + [] == assigns;
      } else if comma {
        var t := AssignsFrom(q + 1);
        assert r == ([a.value] + t.0, t.1);
        assert assigns + ([a.value] + t.0) == assigns + [a.value] + t.0;
      } else {
        assert r == ([a.value], q);
      }
    }

    /**
     * ParseUpdateStatement: the routine's last fetched cursor is forgotten;
     * then the target, the SET list rewritten by AssignsEdit, and WHERE. A
     * CONTINUE handler for NOT FOUND is emulated after a success.
     */
    method ParseUpdateStatement(update: nat) returns (r: bool, assigns: seq<Assign>)
      requires Valid() && update < pos
      modifies this`pos, this`doc, this`spl, this`calls
      ensures Valid() && old(pos) <= pos
      ensures UpdateDone(update, old(pos), Effects(old(doc), books, old(calls)), Effects(doc, books, calls), old(spl), spl, r, assigns)
    {
      assigns := [];
      spl := spl.(lastFetchCursor := None);
      var ok := ReadUpdateTarget();
      if !ok {
        return false, assigns;
      }
      assigns := ReadAssignments();
      Sub(WhereClause);
      calls := calls + [ContinueHandlerForUpdate(update)];
      r := true;
    }

    /**
     * UPDATE with the target at p: the routine's last fetched cursor is
     * forgotten; success needs the target name and one more token, and then
     * the SET list is rewritten by AssignsEdit and a CONTINUE handler for
     * NOT FOUND is emulated; a failure changes nothing else.
     */
    ghost predicate UpdateDone(update: nat, p: nat, was: Effects, now: Effects, rt0: Routine, rt: Routine,
                               r: bool, assigns: seq<Assign>)
    {
      && was.doc.Fits(|src|)
      && rt == rt0.(lastFetchCursor := None)
      && (r <==> IdentAt(p) && p + 1 < |src|)
      && (r ==> && assigns == AssignsFrom(UpdateTargetEnd(p)).0
                && AssignsRead(assigns, |src|) && now.doc == AssignsEdit(was.doc, assigns)
                && now.calls == was.calls + [ContinueHandlerForUpdate(update)])
      && (!r ==> now.doc == was.doc && now.calls == was.calls)
    }
  }
}
