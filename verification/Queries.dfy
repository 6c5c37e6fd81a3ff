/** The paged SELECT statements: how the clauses, arguments and placeholder numbers are built,
    and what the statements mean under SQL's three-valued logic. */
module Queries {
  import opened Text
  import opened JsonValues
  import opened Rows
  import opened Cursors
  import opened LikePatterns

  // ---------- statements ----------

  // DataField(f) is the expression data->>'f'.
  datatype Column = PkColumn | RkColumn | DataField(name: string)

  datatype Op = Eq | Gt | Gte | Lt | Lte

  // Numbers are $n placeholders.
  datatype Clause =
    | Compare(column: Column, op: Op, arg: nat)
    | LikeArg(column: Column, arg: nat)
    | IsNotNull(column: Column)
    | PkAndAfter(second: Column, pkArg: nat, secondArg: nat)   // (pk, second) > ($pkArg, $secondArg)

  datatype Arg = TextArg(text: string) | IntArg(n: int)

  datatype Query = Query(where: seq<Clause>, args: seq<Arg>, orderBy: seq<Column>, limitArg: nat)

  datatype ListOptions = ListOptions(limit: int, pageToken: string, rkBeginsWith: string,
                                     rkGt: string, rkGte: string, rkLt: string, rkLte: string)

  datatype IndexConfig = IndexConfig(pkField: string, rkField: string)   // rkField is empty for a pk-only index

  // ---------- evaluation ----------

  // What the database brings: its collation and the text ->> gives for a JSON value other than a string.
  datatype Db = Db(lt: (string, string) -> bool, render: Json -> string, hasRK: bool)

  datatype Truth = True | False | Unknown

  function And3(a: Truth, b: Truth): Truth {
    if a == False || b == False then False else if a == True && b == True then True else Unknown
  }

  function Or3(a: Truth, b: Truth): Truth {
    if a == True || b == True then True else if a == False && b == False then False else Unknown
  }

  function Truly(b: bool): Truth { if b then True else False }

  // NULL is None.
  function ColumnText(db: Db, column: Column, key: Key, data: Fields): Option<string> {
    match column
    case PkColumn => Some(key.pk)
    case RkColumn => if db.hasRK then Some(key.rk) else None
    case DataField(f) => FieldText(db, data, f)
  }

  function FieldText(db: Db, data: Fields, f: string): Option<string> {
    if f !in data || data[f].Null? then None
    else if data[f].Str? then Some(data[f].s)
    else Some(db.render(data[f]))
  }

  // An argument that is missing or not text has no value to compare with.
  function ArgText(args: seq<Arg>, n: nat): Option<string> {
    if 1 <= n <= |args| && args[n - 1].TextArg? then Some(args[n - 1].text) else None
  }

  function CompareText(db: Db, op: Op, a: Option<string>, b: Option<string>): Truth {
    if a.None? || b.None? then Unknown
    else
      match op
      case Eq => Truly(a.value == b.value)
      case Gt => Truly(db.lt(b.value, a.value))
      case Gte => Truly(!db.lt(a.value, b.value))
      case Lt => Truly(db.lt(a.value, b.value))
      case Lte => Truly(!db.lt(b.value, a.value))
  }

  function Eval(db: Db, c: Clause, args: seq<Arg>, key: Key, data: Fields): Truth {
    match c
    case Compare(column, op, n) => CompareText(db, op, ColumnText(db, column, key, data), ArgText(args, n))
    case LikeArg(column, n) =>
      var text, pattern := ColumnText(db, column, key, data), ArgText(args, n);
      if text.None? || pattern.None? then Unknown else Truly(Like(text.value, pattern.value))
    case IsNotNull(column) => Truly(ColumnText(db, column, key, data).Some?)
    case PkAndAfter(second, n, m) =>
      // Row values compare as SQL defines it: pk first, and the second column only on equal pk.
      var pk := Some(key.pk);
      Or3(CompareText(db, Gt, pk, ArgText(args, n)),
          And3(CompareText(db, Eq, pk, ArgText(args, n)),
               CompareText(db, Gt, ColumnText(db, second, key, data), ArgText(args, m))))
  }

  // The clauses joined with AND.
  function EvalWhere(db: Db, where: seq<Clause>, args: seq<Arg>, key: Key, data: Fields): Truth {
    if where == [] then True
    else And3(EvalWhere(db, where[..|where| - 1], args, key, data), Eval(db, where[|where| - 1], args, key, data))
  }

  // A row is returned only if its WHERE is true, not merely not false.
  predicate Selects(db: Db, where: seq<Clause>, args: seq<Arg>, key: Key, data: Fields) {
    EvalWhere(db, where, args, key, data) == True
  }

  // ---------- placeholder numbering ----------

  function ClausePlaceholders(c: Clause): seq<nat> {
    match c
    case Compare(_, _, n) => [n]
    case LikeArg(_, n) => [n]
    case IsNotNull(_) => []
    case PkAndAfter(_, n, m) => [n, m]
  }

  function Placeholders(where: seq<Clause>): seq<nat> {
    if where == [] then [] else Placeholders(where[..|where| - 1]) + ClausePlaceholders(where[|where| - 1])
  }

  function OneTo(n: nat): seq<nat> {
    seq(n, i => i + 1)
  }

  // Reading the clauses from left to right, the placeholders are $1, $2, ... with one
  // argument each and the next free number in argIdx.
  predicate Numbered(where: seq<Clause>, args: seq<Arg>, argIdx: nat) {
    argIdx == |args| + 1 && Placeholders(where) == OneTo(|args|)
  }

  lemma ClauseIgnoresMoreArgs(db: Db, c: Clause, args: seq<Arg>, more: seq<Arg>, key: Key, data: Fields)
    requires forall n | n in ClausePlaceholders(c) :: 1 <= n <= |args|
    ensures Eval(db, c, args + more, key, data) == Eval(db, c, args, key, data)
  {
    match c {
      case Compare(_, _, n) => assert n in ClausePlaceholders(c);
      case LikeArg(_, n) => assert n in ClausePlaceholders(c);
      case IsNotNull(_) =>
      case PkAndAfter(_, n, m) => assert n in ClausePlaceholders(c) && m in ClausePlaceholders(c);
    }
  }

  lemma {:induction false} MoreArgsChangeNothing(db: Db, where: seq<Clause>, args: seq<Arg>, more: seq<Arg>, key: Key,
                                                 data: Fields)
    requires forall n | n in Placeholders(where) :: 1 <= n <= |args|
    ensures EvalWhere(db, where, args + more, key, data) == EvalWhere(db, where, args, key, data)
  {
    if where != [] {
      var init, c := where[..|where| - 1], where[|where| - 1];
      var placeholders, own := Placeholders(init), ClausePlaceholders(c);
      assert Placeholders(where) == placeholders + own;
      assert forall n | n in placeholders :: n in Placeholders(where);
      assert forall n | n in own :: n in Placeholders(where);
      ClauseIgnoresMoreArgs(db, c, args, more, key, data);
      MoreArgsChangeNothing(db, init, args, more, key, data);
    }
  }

  // Appending a clause over the next placeholders conjoins its meaning and keeps the numbering.
  lemma Appended(db: Db, where: seq<Clause>, args: seq<Arg>, argIdx: nat, c: Clause, more: seq<Arg>)
    requires Numbered(where, args, argIdx)
    requires ClausePlaceholders(c) == seq(|more|, i => argIdx + i)
    ensures Numbered(where + [c], args + more, argIdx + |more|)
    ensures forall key, data :: Selects(db, where + [c], args + more, key, data)
                                <==> Selects(db, where, args, key, data) && Eval(db, c, args + more, key, data) == True
  {
    assert (where + [c])[..|where|] == where;
    assert Placeholders(where + [c]) == OneTo(|args|) + ClausePlaceholders(c);
    forall key, data
      ensures Selects(db, where + [c], args + more, key, data)
              <==> Selects(db, where, args, key, data) && Eval(db, c, args + more, key, data) == True
    {
      MoreArgsChangeNothing(db, where, args, more, key, data);
    }
  }

  // ---------- what the options ask for ----------

  datatype FilterKind = BeginsWith | Against(op: Op)

  // One range key filter, on a text that may be NULL; an empty bound is no filter.
  predicate Meets(db: Db, kind: FilterKind, bound: string, t: Option<string>) {
    bound != "" ==> t.Some? && MeetsText(db, kind, bound, t.value)
  }

  predicate MeetsText(db: Db, kind: FilterKind, bound: string, t: string) {
    match kind
    case BeginsWith => BeginsWithFilter(t, bound)
    case Against(Eq) => t == bound
    case Against(Gt) => db.lt(bound, t)
    case Against(Gte) => !db.lt(t, bound)
    case Against(Lt) => db.lt(t, bound)
    case Against(Lte) => !db.lt(bound, t)
  }

  predicate RkFilter(db: Db, opts: ListOptions, t: Option<string>) {
    && Meets(db, BeginsWith, opts.rkBeginsWith, t)
    && Meets(db, Against(Gt), opts.rkGt, t)
    && Meets(db, Against(Gte), opts.rkGte, t)
    && Meets(db, Against(Lt), opts.rkLt, t)
    && Meets(db, Against(Lte), opts.rkLte, t)
  }

  predicate HasRkFilter(opts: ListOptions) {
    opts.rkBeginsWith != "" || opts.rkGt != "" || opts.rkGte != "" || opts.rkLt != "" || opts.rkLte != ""
  }

  // An empty or undecodable token asks for the first page.
  function TokenCursor(token: string): Option<Cursor> {
    if token == "" then None else DecodeCursor(token)
  }

  // The row lies after the cursor; second is the column that breaks ties of pk, if any.
  predicate AfterCursor(db: Db, cursor: Option<Cursor>, second: Option<Column>, key: Key, data: Fields) {
    cursor.Some? ==>
      || db.lt(cursor.value.pk, key.pk)
      || (second.Some? && key.pk == cursor.value.pk
          && var t := ColumnText(db, second.value, key, data);
             t.Some? && db.lt(cursor.value.rk, t.value))
  }

  predicate ListMeaning(db: Db, pk: string, opts: ListOptions, key: Key, data: Fields) {
    && key.pk == pk
    && (db.hasRK ==> RkFilter(db, opts, Some(key.rk)))
    && AfterCursor(db, TokenCursor(opts.pageToken), TieBreak(db.hasRK), key, data)
  }

  function TieBreak(hasRK: bool): Option<Column> {
    if hasRK then Some(RkColumn) else None
  }

  predicate ScanMeaning(db: Db, opts: ListOptions, key: Key, data: Fields) {
    AfterCursor(db, TokenCursor(opts.pageToken), TieBreak(db.hasRK), key, data)
  }

  function IndexTieBreak(index: IndexConfig): Option<Column> {
    if index.rkField != "" then Some(DataField(index.rkField)) else None
  }

  predicate QueryIndexMeaning(db: Db, index: IndexConfig, indexPk: string, opts: ListOptions, key: Key, data: Fields) {
    && FieldText(db, data, index.pkField) == Some(indexPk)
    && (index.rkField != "" ==> RkFilter(db, opts, FieldText(db, data, index.rkField)))
    && AfterCursor(db, TokenCursor(opts.pageToken), IndexTieBreak(index), key, data)
  }

  // The predicate of the partial index that the migration creates.
  predicate InPartialIndex(db: Db, index: IndexConfig, data: Fields) {
    && FieldText(db, data, index.pkField).Some?
    && (index.rkField != "" ==> FieldText(db, data, index.rkField).Some?)
  }

  predicate ScanIndexMeaning(db: Db, index: IndexConfig, opts: ListOptions, key: Key, data: Fields) {
    && InPartialIndex(db, index, data)
    && AfterCursor(db, TokenCursor(opts.pageToken), IndexTieBreak(index), key, data)
  }

  // ---------- building ----------

  // One `if bound != ""` step of the two filter builders below.
  method AppendFilter(ghost db: Db, where: seq<Clause>, args: seq<Arg>, argIdx: nat, rkExpr: Column, kind: FilterKind,
                      bound: string)
    returns (w: seq<Clause>, a: seq<Arg>, i: nat)
    requires Numbered(where, args, argIdx)
    ensures Numbered(w, a, i)
    ensures forall key, data :: Selects(db, w, a, key, data)
              <==> Selects(db, where, args, key, data) && Meets(db, kind, bound, ColumnText(db, rkExpr, key, data))
  {
    w, a, i := where, args, argIdx;
    if bound != "" {
      var clause := if kind.BeginsWith? then LikeArg(rkExpr, i) else Compare(rkExpr, kind.op, i);
      var arg := TextArg(if kind.BeginsWith? then bound + "%" else bound);
      Appended(db, w, a, i, clause, [arg]);
      w, a, i := w + [clause], a + [arg], i + 1;
    }
  }

  method AppendIndexRKFilters(ghost db: Db, where: seq<Clause>, args: seq<Arg>, argIdx: nat, rkExpr: Column,
                              opts: ListOptions)
    returns (w: seq<Clause>, a: seq<Arg>, i: nat)
    requires Numbered(where, args, argIdx)
    ensures Numbered(w, a, i)
    ensures forall key, data :: Selects(db, w, a, key, data)
              <==> Selects(db, where, args, key, data) && RkFilter(db, opts, ColumnText(db, rkExpr, key, data))
  {
    w, a, i := AppendFilter(db, where, args, argIdx, rkExpr, BeginsWith, opts.rkBeginsWith);
    w, a, i := AppendFilter(db, w, a, i, rkExpr, Against(Gt), opts.rkGt);
    w, a, i := AppendFilter(db, w, a, i, rkExpr, Against(Gte), opts.rkGte);
    w, a, i := AppendFilter(db, w, a, i, rkExpr, Against(Lt), opts.rkLt);
    w, a, i := AppendFilter(db, w, a, i, rkExpr, Against(Lte), opts.rkLte);
  }

  method AppendRKFilters(ghost db: Db, where: seq<Clause>, args: seq<Arg>, argIdx: nat, hasRK: bool, opts: ListOptions)
    returns (w: seq<Clause>, a: seq<Arg>, i: nat)
    requires Numbered(where, args, argIdx)
    ensures Numbered(w, a, i)
    ensures forall key, data :: Selects(db, w, a, key, data)
              <==> Selects(db, where, args, key, data)
                   && (hasRK ==> RkFilter(db, opts, ColumnText(db, RkColumn, key, data)))
  {
    if !hasRK {
      return where, args, argIdx;
    }
    w, a, i := AppendIndexRKFilters(db, where, args, argIdx, RkColumn, opts);
  }

  method AppendCursorFilter(ghost db: Db, where: seq<Clause>, args: seq<Arg>, argIdx: nat, hasRK: bool, token: string,
                            rkExpr: Option<Column>)
    returns (w: seq<Clause>, a: seq<Arg>, i: nat)
    requires Numbered(where, args, argIdx)
    ensures Numbered(w, a, i)
    ensures forall key, data :: Selects(db, w, a, key, data)
              <==> Selects(db, where, args, key, data)
                   && AfterCursor(db, TokenCursor(token), if hasRK then rkExpr else None, key, data)
  {
    w, a, i := where, args, argIdx;
    if token == "" {
      return;
    }
    var c := DecodeCursor(token);
    if c.None? {
      return;
    }
    if hasRK && rkExpr.Some? {
      Appended(db, w, a, i, PkAndAfter(rkExpr.value, i, i + 1), [TextArg(c.value.pk), TextArg(c.value.rk)]);
      w, a, i := w + [PkAndAfter(rkExpr.value, i, i + 1)], a + [TextArg(c.value.pk), TextArg(c.value.rk)], i + 2;
    } else {
      Appended(db, w, a, i, Compare(PkColumn, Gt, i), [TextArg(c.value.pk)]);
      w, a, i := w + [Compare(PkColumn, Gt, i)], a + [TextArg(c.value.pk)], i + 1;
    }
  }
}
