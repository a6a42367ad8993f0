/**
 * Pure descriptions of the token scans the statement handlers run in loops:
 * the keyword tables of the dispatcher and the CREATE router, the ALTER
 * INDEX option run, the CREATE VIEW option run, the run of DETERMINISTIC
 * function options and the lookup of a recorded session table. The
 * handlers' loops are proved to compute exactly these.
 */
module Scans {
  import opened Tokens

  /** Statements ParseStatement routes, in the order it tests them. */
  datatype Kind = AlterStmt | CommentStmt | CreateStmt | DropStmt | InsertStmt | UpdateStmt

  /** The leading keyword of each statement kind. */
  function Keyword(k: Kind): string
  {
    match k
    case AlterStmt => "ALTER"
    case CommentStmt => "COMMENT"
    case CreateStmt => "CREATE"
    case DropStmt => "DROP"
    case InsertStmt => "INSERT"
    case UpdateStmt => "UPDATE"
  }

  /**
   * The statement a leading word starts, first match in the dispatcher's
   * order; None for a word that starts no statement this parser handles.
   */
  function Leading(w: string): Option<Kind>
  {
    if SameWord(w, "ALTER") then Some(AlterStmt)
    else if SameWord(w, "COMMENT") then Some(CommentStmt)
    else if SameWord(w, "CREATE") then Some(CreateStmt)
    else if SameWord(w, "DROP") then Some(DropStmt)
    else if SameWord(w, "INSERT") then Some(InsertStmt)
    else if SameWord(w, "UPDATE") then Some(UpdateStmt)
    else None
  }

  /** Leading names kind k exactly when w is k's keyword, ignoring case. */
  lemma LeadingKeyword(w: string)
    ensures forall k :: Leading(w) == Some(k) <==> SameWord(w, Keyword(k))
  {
    KeywordsDistinct();
  }

  /** No word starts two kinds of statement, so the dispatcher's test order does not matter. */
  lemma KeywordsDistinct()
    ensures forall a: Kind, b: Kind :: a != b ==> Fold(Keyword(a)) != Fold(Keyword(b))
  {
    assert Fold("COMMENT")[1] == 'O' && Fold("CREATE")[1] == 'R';
    assert Fold("INSERT")[0] == 'I' && Fold("UPDATE")[0] == 'U' && Fold("CREATE")[0] == 'C';
  }

  /** Objects ParseCreateStatement routes, in the order it tests them. */
  datatype ObjectKind = IndexObject | TableObject | TablespaceObject | TriggerObject | TypeObject | ViewObject

  /** The keyword naming each object kind after CREATE. */
  function ObjectKeyword(k: ObjectKind): string
  {
    match k
    case IndexObject => "INDEX"
    case TableObject => "TABLE"
    case TablespaceObject => "TABLESPACE"
    case TriggerObject => "TRIGGER"
    case TypeObject => "TYPE"
    case ViewObject => "VIEW"
  }

  /** The object a word after the CREATE modifiers names, if the CREATE router handles it. */
  function ObjectOf(w: string): Option<ObjectKind>
  {
    if SameWord(w, "INDEX") then Some(IndexObject)
    else if SameWord(w, "TABLE") then Some(TableObject)
    else if SameWord(w, "TABLESPACE") then Some(TablespaceObject)
    else if SameWord(w, "TRIGGER") then Some(TriggerObject)
    else if SameWord(w, "TYPE") then Some(TypeObject)
    else if SameWord(w, "VIEW") then Some(ViewObject)
    else None
  }

  /** ObjectOf names object kind k exactly when w is k's keyword, ignoring case. */
  lemma ObjectOfKeyword(w: string)
    ensures forall k :: ObjectOf(w) == Some(k) <==> SameWord(w, ObjectKeyword(k))
  {
    ObjectKeywordsDistinct();
  }

  /** No word names two kinds of object, so the router's test order does not matter. */
  lemma ObjectKeywordsDistinct()
    ensures forall a: ObjectKind, b: ObjectKind :: a != b ==> Fold(ObjectKeyword(a)) != Fold(ObjectKeyword(b))
  {
    assert Fold("TABLE")[1] == 'A' && Fold("TRIGGER")[1] == 'R' && Fold("TYPE")[1] == 'Y';
    assert Fold("INDEX")[0] == 'I' && Fold("VIEW")[0] == 'V' && Fold("TABLE")[0] == 'T';
  }

  /** What the ALTER INDEX option loop found: where it stopped and its two counters. */
  datatype OptionScan = OptionScan(end: nat, options: nat, removed: nat)

  /** The options ALTER INDEX knows, all of them removed for the target. */
  predicate IsIndexOption(w: string)
  {
    SameWord(w, "NOPARALLEL") || SameWord(w, "PARALLEL")
  }

  /**
   * The ALTER INDEX option loop from position p: NOPARALLEL counts one
   * option, PARALLEL counts one and takes the next token as its argument,
   * anything else stops the scan at that token (which is pushed back).
   */
  function IndexOptions(src: seq<string>, p: nat): (r: OptionScan)
    requires p <= |src|
    ensures p <= r.end <= |src|
    ensures r.options == r.removed
    ensures r.options == 0 <==> r.end == p
    ensures r.options == 0 <==> p == |src| || !IsIndexOption(src[p])
    ensures r.end == |src| || !IsIndexOption(src[r.end])
    decreases |src| - p
  {
    if p == |src| then OptionScan(p, 0, 0)
    else if SameWord(src[p], "NOPARALLEL") then
      var r := IndexOptions(src, p + 1);
      OptionScan(r.end, r.options + 1, r.removed + 1)
    else if SameWord(src[p], "PARALLEL") then
      var r := IndexOptions(src, if p + 1 < |src| then p + 2 else p + 1);
      OptionScan(r.end, r.options + 1, r.removed + 1)
    else OptionScan(p, 0, 0)
  }

  /** Where the option loop goes on after the option at p: past NOPARALLEL, or past PARALLEL and its argument. */
  function OptionNext(src: seq<string>, p: nat): (q: nat)
    requires p < |src|
    ensures p < q <= |src|
  {
    if SameWord(src[p], "NOPARALLEL") || p + 1 == |src| then p + 1 else p + 2
  }

  /** An option counts once and the scan goes on where OptionNext says. */
  lemma IndexOptionsStep(src: seq<string>, p: nat)
    requires p < |src| && IsIndexOption(src[p])
    ensures var r := IndexOptions(src, OptionNext(src, p));
      IndexOptions(src, p) == OptionScan(r.end, r.options + 1, r.removed + 1)
  {
  }

  /**
   * Tokens p..q-1 are a run of options: NOPARALLEL, or PARALLEL with one
   * argument token (which may be missing only at the end of the stream);
   * n counts the options in the run.
   */
  ghost predicate OptionRun(src: seq<string>, p: nat, q: nat, n: nat)
    requires p <= q <= |src|
    decreases q - p
  {
    if p == q then n == 0
    else if SameWord(src[p], "NOPARALLEL") then n > 0 && OptionRun(src, p + 1, q, n - 1)
    else if SameWord(src[p], "PARALLEL") then
      n > 0 && (if p + 1 == q then q == |src| && n == 1 else OptionRun(src, p + 2, q, n - 1))
    else false
  }

  /** The option loop consumes exactly an option run and counts its options. */
  lemma {:induction false} IndexOptionsRun(src: seq<string>, p: nat)
    requires p <= |src|
    ensures var r := IndexOptions(src, p); OptionRun(src, p, r.end, r.options)
    decreases |src| - p
  {
    if p == |src| || !IsIndexOption(src[p]) {
    } else if SameWord(src[p], "NOPARALLEL") {
      IndexOptionsRun(src, p + 1);
    } else if p + 1 < |src| {
      IndexOptionsRun(src, p + 2);
    } else {
      IndexOptionsRun(src, p + 1);
    }
  }

  /** Tokens p..p+2 are the view option WITH READ ONLY. */
  predicate IsViewOption(src: seq<string>, p: nat)
  {
    p + 2 < |src| && SameWord(src[p], "WITH") && SameWord(src[p + 1], "READ") && SameWord(src[p + 2], "ONLY")
  }

  /**
   * End of the run of WITH READ ONLY options that starts at p: every third
   * token from p up to the end starts one, and the token at the end does not.
   */
  function ViewOptions(src: seq<string>, p: nat): (q: nat)
    requires p <= |src|
    ensures p <= q <= |src| && (q - p) % 3 == 0
    ensures forall k :: p <= k < q && (k - p) % 3 == 0 ==> IsViewOption(src, k)
    ensures !IsViewOption(src, q)
    decreases |src| - p
  {
    if IsViewOption(src, p) then ViewOptions(src, p + 3) else p
  }

  /** Position after the run of tokens equal to w that starts at p. */
  function SkipRun(src: seq<string>, p: nat, w: string): (q: nat)
    requires p <= |src|
    ensures p <= q <= |src|
    ensures forall k :: p <= k < q ==> SameWord(src[k], w)
    ensures q == |src| || !SameWord(src[q], w)
    decreases |src| - p
  {
    if p < |src| && SameWord(src[p], w) then SkipRun(src, p + 1, w) else p
  }

  /** Index of the first recorded name, from position from on, equal to name. */
  function FirstMatch(names: seq<string>, name: string, from: nat): (r: Option<nat>)
    requires from <= |names|
    ensures r.Some? ==> from <= r.value < |names| && SameWord(names[r.value], name)
    ensures r.Some? ==> forall j :: from <= j < r.value ==> !SameWord(names[j], name)
    ensures r.None? <==> forall j :: from <= j < |names| ==> !SameWord(names[j], name)
    decreases |names| - from
  {
    if from == |names| then None
    else if SameWord(names[from], name) then Some(from)
    else FirstMatch(names, name, from + 1)
  }
}
