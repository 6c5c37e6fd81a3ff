/** The list, scan and index endpoints of the store: one page per call, with a token for the next. */
module Lists {
  import opened Text
  import opened JsonValues
  import opened Sequences
  import opened Rows
  import opened Cursors
  import opened Queries

  // A row as the driver hands it over; rk is NULL in a table without a range key.
  datatype ResultRow = ResultRow(pk: ByteString, rk: Option<ByteString>, data: Fields)

  datatype ItemResult = ItemResult(pk: string, rk: string, data: Fields)

  // nextPageToken is empty on the last page.
  datatype ListResult = ListResult(items: seq<ItemResult>, nextPageToken: string)

  // ---------- what the database answers ----------

  function RowKey(r: ResultRow): Key {
    Key(r.pk, r.rk.GetOr(""))
  }

  // NULLs sort last.
  predicate TextLt(db: Db, a: Option<string>, b: Option<string>) {
    a.Some? && (b.None? || db.lt(a.value, b.value))
  }

  predicate OrderLt(db: Db, orderBy: seq<Column>, k: Key, kData: Fields, l: Key, lData: Fields) {
    if orderBy == [] then false
    else
      var a, b := ColumnText(db, orderBy[0], k, kData), ColumnText(db, orderBy[0], l, lData);
      TextLt(db, a, b) || (a == b && OrderLt(db, orderBy[1..], k, kData, l, lData))
  }

  function LimitOf(q: Query): int {
    if 1 <= q.limitArg <= |q.args| && q.args[q.limitArg - 1].IntArg? then q.args[q.limitArg - 1].n else 0
  }

  // rows is some answer to q over table: rows that q selects, each once, in its order with ties
  // broken at will, and none left out unless the limit was reached by rows that may come first.
  ghost predicate IsAnswer(db: Db, table: Table, q: Query, rows: seq<ResultRow>) {
    && (forall i | 0 <= i < |rows| :: rows[i].rk.Some? == db.hasRK)
    && (forall i | 0 <= i < |rows| :: RowKey(rows[i]) in table && rows[i].data == table[RowKey(rows[i])].data)
    && (forall i | 0 <= i < |rows| :: Selects(db, q.where, q.args, RowKey(rows[i]), rows[i].data))
    && (forall i, j | 0 <= i < j < |rows| ::
          RowKey(rows[i]) != RowKey(rows[j])
          && !OrderLt(db, q.orderBy, RowKey(rows[j]), rows[j].data, RowKey(rows[i]), rows[i].data))
    && |rows| <= LimitOf(q)
    && (forall k | k in table && Selects(db, q.where, q.args, k, table[k].data) && !Among(k, rows) ::
          |rows| == LimitOf(q)
          && forall i | 0 <= i < |rows| :: !OrderLt(db, q.orderBy, k, table[k].data, RowKey(rows[i]), rows[i].data))
  }

  ghost predicate Among(k: Key, rows: seq<ResultRow>) {
    exists i :: 0 <= i < |rows| && RowKey(rows[i]) == k
  }

  // exec runs statements against table.
  ghost predicate Executes(db: Db, table: Table, exec: Query -> seq<ResultRow>) {
    forall q :: LimitOf(q) > 0 ==> IsAnswer(db, table, q, exec(q))
  }

  // ---------- pages ----------

  function ItemKey(item: ItemResult): Key {
    Key(item.pk, item.rk)
  }

  function ItemOf(r: ResultRow): ItemResult {
    ItemResult(r.pk, r.rk.GetOr(""), r.data)
  }

  function PageLimit(limit: int): (n: nat)
    ensures n > 0
  {
    if limit <= 0 then 50 else limit
  }

  ghost predicate OnPage(k: Key, res: ListResult) {
    exists i :: 0 <= i < |res.items| && ItemKey(res.items[i]) == k
  }

  // res holds the first rows, in key order, of the eligible ones, and a token exactly if some are left.
  ghost predicate IsPage(db: Db, table: Table, eligible: set<Key>, limit: int, res: ListResult) {
    && |res.items| <= PageLimit(limit)
    && (forall i | 0 <= i < |res.items| ::
          ItemKey(res.items[i]) in eligible && ItemKey(res.items[i]) in table
          && res.items[i].data == table[ItemKey(res.items[i])].data)
    && Ascending(ItemOrder(db), res.items)
    && (res.nextPageToken == "" <==> forall k | k in eligible :: OnPage(k, res))
    && (res.nextPageToken != "" ==>
          && |res.items| == PageLimit(limit)
          && TokenCursor(res.nextPageToken) == Some(LastCursor(res))
          && forall k | k in eligible && !OnPage(k, res) :: KeyLt(db.lt, LastKey(res), k))
  }

  function ItemOrder(db: Db): (ItemResult, ItemResult) -> bool {
    (a: ItemResult, b: ItemResult) => KeyLt(db.lt, ItemKey(a), ItemKey(b))
  }

  function LastKey(res: ListResult): Key
    requires res.items != []
  {
    ItemKey(res.items[|res.items| - 1])
  }

  function LastCursor(res: ListResult): Cursor
    requires res.items != []
  {
    Cursor(res.items[|res.items| - 1].pk, res.items[|res.items| - 1].rk)
  }

  // ---------- queryItems ----------

  // q is where/args with ORDER BY and a LIMIT of one row more than the page, as one statement:
  // every placeholder, the limit's included, names its own argument.
  ghost predicate Completes(db: Db, q: Query, where: seq<Clause>, args: seq<Arg>, orderBy: seq<Column>, limit: int) {
    && q.where == where && q.orderBy == orderBy
    && Placeholders(q.where) + [q.limitArg] == OneTo(|q.args|)
    && LimitOf(q) == PageLimit(limit) + 1
    && forall key, data :: Selects(db, q.where, q.args, key, data) <==> Selects(db, where, args, key, data)
  }

  // The extra row only tells that there is a next page; the token encodes the last row kept.
  ghost predicate KeepsPage(rows: seq<ResultRow>, limit: int, res: ListResult) {
    && |res.items| == (if |rows| > PageLimit(limit) then PageLimit(limit) else |rows|)
    && (forall i | 0 <= i < |res.items| :: res.items[i] == ItemOf(rows[i]))
    && (res.nextPageToken == "" <==> |rows| <= PageLimit(limit))
    && (res.nextPageToken != "" ==>
          res.nextPageToken == EncodeCursor(rows[|res.items| - 1].pk, rows[|res.items| - 1].rk.GetOr("")))
  }

  method BuildStatement(ghost db: Db, where: seq<Clause>, args: seq<Arg>, argIdx: nat, fetchLimit: int,
                        orderBy: seq<Column>)
    returns (q: Query)
    requires Numbered(where, args, argIdx)
    ensures fetchLimit > 1 ==> Completes(db, q, where, args, orderBy, fetchLimit - 1)
  {
    q := Query(where, args + [IntArg(fetchLimit)], orderBy, argIdx);
    forall key, data
      ensures Selects(db, where, q.args, key, data) <==> Selects(db, where, args, key, data)
    {
      MoreArgsChangeNothing(db, where, args, [IntArg(fetchLimit)], key, data);
    }
  }

  method CollectPage(rows: seq<ResultRow>, limit: nat) returns (res: ListResult)
    requires limit > 0
    ensures KeepsPage(rows, limit, res)
  {
    var collected: seq<ItemResult> := [];
    for i := 0 to |rows|
      invariant |collected| == i && forall j | 0 <= j < i :: collected[j] == ItemOf(rows[j])
    {
      var rkVal := "";
      if rows[i].rk.Some? {
        rkVal := rows[i].rk.value;
      }
      collected := collected + [ItemResult(rows[i].pk, rkVal, rows[i].data)];
    }
    var hasMore := |collected| > limit;
    if hasMore {
      collected := collected[..limit];
    }
    res := ListResult(collected, "");
    if hasMore && |collected| > 0 {
      var last := collected[|collected| - 1];
      assert last == ItemOf(rows[|collected| - 1]);
      CursorRoundTrip(last.pk, last.rk);
      res := res.(nextPageToken := EncodeCursor(last.pk, last.rk));
    }
  }

  method QueryItems(ghost db: Db, exec: Query -> seq<ResultRow>, where: seq<Clause>, args: seq<Arg>, argIdx: nat,
                    limit: int, hasRK: bool, pkExpr: Column, rkExpr: Option<Column>)
    returns (res: ListResult, ghost q: Query)
    requires Numbered(where, args, argIdx)
    requires hasRK ==> rkExpr.Some?
    ensures Completes(db, q, where, args, if hasRK then [pkExpr, rkExpr.value] else [pkExpr], limit)
    ensures KeepsPage(exec(q), limit, res)
  {
    var pageLimit := limit;
    if pageLimit <= 0 {
      pageLimit := 50;
    }
    var orderBy := [pkExpr];
    if hasRK {
      orderBy := [pkExpr, rkExpr.value];
    }
    var query := BuildStatement(db, where, args, argIdx, pageLimit + 1, orderBy);
    q := query;
    res := CollectPage(exec(query), pageLimit);
  }

  // ---------- ListItems and ScanTable ----------

  function BaseOrder(hasRK: bool): seq<Column> {
    if hasRK then [PkColumn, RkColumn] else [PkColumn]
  }

  // On valid keys, ORDER BY the base key columns is the strict total order of keys.
  lemma BaseOrderIsKeyOrder(db: Db, k: Key, kData: Fields, l: Key, lData: Fields)
    requires StrictTotalOrder(db.lt) && ValidKey(k, db.hasRK) && ValidKey(l, db.hasRK)
    ensures OrderLt(db, BaseOrder(db.hasRK), k, kData, l, lData) <==> KeyLt(db.lt, k, l)
    ensures k != l ==> KeyLt(db.lt, k, l) || KeyLt(db.lt, l, k)
  {
    assert !db.lt("", "");
    if db.hasRK {
      assert [RkColumn][1..] == [];
      assert OrderLt(db, [RkColumn], k, kData, l, lData) <==> db.lt(k.rk, l.rk);
      assert [PkColumn, RkColumn][1..] == [RkColumn];
    } else {
      assert [PkColumn][1..] == [];
    }
  }

  function RowOrder(db: Db): (ResultRow, ResultRow) -> bool {
    (a: ResultRow, b: ResultRow) => KeyLt(db.lt, RowKey(a), RowKey(b))
  }

  lemma RowsAscend(db: Db, table: Table, q: Query, rows: seq<ResultRow>)
    requires StrictTotalOrder(db.lt) && ValidKeys(table, db.hasRK)
    requires IsAnswer(db, table, q, rows) && q.orderBy == BaseOrder(db.hasRK)
    ensures Ascending(RowOrder(db), rows)
  {
    forall i, j | 0 <= i < j < |rows|
      ensures KeyLt(db.lt, RowKey(rows[i]), RowKey(rows[j]))
    {
      BaseOrderIsKeyOrder(db, RowKey(rows[j]), rows[j].data, RowKey(rows[i]), rows[i].data);
    }
  }

  // A selected row that is not on the page comes after it, and there was a row to spare.
  lemma LeftOver(db: Db, table: Table, q: Query, rows: seq<ResultRow>, limit: int, res: ListResult, k: Key)
    requires StrictTotalOrder(db.lt) && ValidKeys(table, db.hasRK)
    requires IsAnswer(db, table, q, rows) && LimitOf(q) == PageLimit(limit) + 1
    requires q.orderBy == BaseOrder(db.hasRK) && Ascending(RowOrder(db), rows)
    requires KeepsPage(rows, limit, res)
    requires k in table && Selects(db, q.where, q.args, k, table[k].data) && !OnPage(k, res)
    ensures |rows| > |res.items| > 0 && KeyLt(db.lt, LastKey(res), k)
  {
    if Among(k, rows) {
      var j :| 0 <= j < |rows| && RowKey(rows[j]) == k;
      assert forall i | 0 <= i < |res.items| :: ItemKey(res.items[i]) == RowKey(rows[i]);
      assert j >= |res.items|;
    } else {
      assert |rows| == LimitOf(q);
      var last := rows[|res.items| - 1];
      BaseOrderIsKeyOrder(db, k, table[k].data, RowKey(last), last.data);
    }
  }

  lemma SpareRowLeftOver(db: Db, rows: seq<ResultRow>, limit: int, res: ListResult)
    requires StrictTotalOrder(db.lt) && Ascending(RowOrder(db), rows)
    requires KeepsPage(rows, limit, res) && |rows| > |res.items|
    ensures !OnPage(RowKey(rows[|res.items|]), res)
  {
    var spare := |res.items|;
    forall i | 0 <= i < spare
      ensures ItemKey(res.items[i]) != RowKey(rows[spare])
    {
      RowsInOrder(db, rows, i, spare);
      assert res.items[i] == ItemOf(rows[i]);
    }
  }

  lemma RowsInOrder(db: Db, rows: seq<ResultRow>, i: nat, j: nat)
    requires Ascending(RowOrder(db), rows) && i < j < |rows|
    ensures KeyLt(db.lt, RowKey(rows[i]), RowKey(rows[j]))
  {
    assert RowOrder(db)(rows[i], rows[j]);
  }

  lemma ItemsAscend(db: Db, rows: seq<ResultRow>, limit: int, res: ListResult)
    requires Ascending(RowOrder(db), rows) && KeepsPage(rows, limit, res)
    ensures Ascending(ItemOrder(db), res.items)
  {
    forall i, j | 0 <= i < j < |res.items|
      ensures ItemOrder(db)(res.items[i], res.items[j])
    {
      RowsInOrder(db, rows, i, j);
      assert res.items[i] == ItemOf(rows[i]) && res.items[j] == ItemOf(rows[j]);
      assert KeyLt(db.lt, ItemKey(res.items[i]), ItemKey(res.items[j]));
    }
  }

  lemma TokenNamesLast(db: Db, table: Table, rows: seq<ResultRow>, limit: int, res: ListResult)
    requires ValidKeys(table, db.hasRK) && KeepsPage(rows, limit, res) && res.nextPageToken != ""
    requires forall i | 0 <= i < |rows| :: RowKey(rows[i]) in table
    ensures TokenCursor(res.nextPageToken) == Some(LastCursor(res))
  {
    var last := rows[|res.items| - 1];
    assert ValidKey(RowKey(last), db.hasRK);
    KeyValuesRoundTrip(last.pk, last.rk.GetOr(""));
  }

  // The rows kept by queryItems, and its token, are a page of the rows that the statement selects.
  lemma BasePage(db: Db, table: Table, q: Query, rows: seq<ResultRow>, eligible: set<Key>, limit: int, res: ListResult)
    requires StrictTotalOrder(db.lt) && ValidKeys(table, db.hasRK)
    requires IsAnswer(db, table, q, rows) && LimitOf(q) == PageLimit(limit) + 1
    requires q.orderBy == BaseOrder(db.hasRK)
    requires forall k :: k in eligible <==> k in table && Selects(db, q.where, q.args, k, table[k].data)
    requires KeepsPage(rows, limit, res)
    ensures IsPage(db, table, eligible, limit, res)
  {
    RowsAscend(db, table, q, rows);
    ItemsAscend(db, rows, limit, res);
    forall k | k in eligible && !OnPage(k, res)
      ensures |rows| > |res.items| > 0 && KeyLt(db.lt, LastKey(res), k)
    {
      LeftOver(db, table, q, rows, limit, res, k);
    }
    if res.nextPageToken != "" {
      TokenNamesLast(db, table, rows, limit, res);
      SpareRowLeftOver(db, rows, limit, res);
      assert RowKey(rows[|res.items|]) in eligible;
    }
    assert forall i | 0 <= i < |res.items| :: ItemKey(res.items[i]) == RowKey(rows[i]);
  }

  ghost function ListEligible(db: Db, table: Table, pk: string, opts: ListOptions): set<Key> {
    set k | k in table && ListMeaning(db, pk, opts, k, table[k].data)
  }

  ghost function ScanEligible(db: Db, table: Table, opts: ListOptions): set<Key> {
    set k | k in table && ScanMeaning(db, opts, k, table[k].data)
  }

  method ListItems(ghost db: Db, ghost table: Table, exec: Query -> seq<ResultRow>, pk: string, hasRK: bool,
                   opts: ListOptions)
    returns (res: ListResult)
    requires StrictTotalOrder(db.lt) && ValidKeys(table, db.hasRK) && Executes(db, table, exec) && hasRK == db.hasRK
    ensures IsPage(db, table, ListEligible(db, table, pk, opts), opts.limit, res)
  {
    var where, args, argIdx := [Compare(PkColumn, Eq, 1)], [TextArg(pk)], 2;
    Appended(db, [], [], 1, where[0], args);
    assert where == [] + [where[0]] && args == [] + args;
    where, args, argIdx := AppendRKFilters(db, where, args, argIdx, hasRK, opts);
    where, args, argIdx := AppendCursorFilter(db, where, args, argIdx, hasRK, opts.pageToken, Some(RkColumn));
    assert forall key, data :: Selects(db, where, args, key, data) <==> ListMeaning(db, pk, opts, key, data);
    ghost var q;
    res, q := QueryItems(db, exec, where, args, argIdx, opts.limit, hasRK, PkColumn, Some(RkColumn));
    BasePage(db, table, q, exec(q), ListEligible(db, table, pk, opts), opts.limit, res);
  }

  method ScanTable(ghost db: Db, ghost table: Table, exec: Query -> seq<ResultRow>, hasRK: bool, opts: ListOptions)
    returns (res: ListResult)
    requires StrictTotalOrder(db.lt) && ValidKeys(table, db.hasRK) && Executes(db, table, exec) && hasRK == db.hasRK
    ensures IsPage(db, table, ScanEligible(db, table, opts), opts.limit, res)
  {
    var where, args, argIdx := AppendCursorFilter(db, [], [], 1, hasRK, opts.pageToken, Some(RkColumn));
    ghost var q;
    res, q := QueryItems(db, exec, where, args, argIdx, opts.limit, hasRK, PkColumn, Some(RkColumn));
    BasePage(db, table, q, exec(q), ScanEligible(db, table, opts), opts.limit, res);
  }

  // ---------- QueryIndex and ScanIndex ----------

  function IndexOrder(index: IndexConfig): seq<Column> {
    if index.rkField != "" then [DataField(index.pkField), DataField(index.rkField)] else [DataField(index.pkField)]
  }

  // res holds eligible rows, each once, in index order with ties broken at will; the token, present
  // exactly if some eligible row is missing, holds the base key of the last one.
  ghost predicate IsIndexPage(db: Db, table: Table, index: IndexConfig, eligible: set<Key>, limit: int,
                              res: ListResult) {
    && |res.items| <= PageLimit(limit)
    && (forall i | 0 <= i < |res.items| ::
          ItemKey(res.items[i]) in eligible && ItemKey(res.items[i]) in table
          && res.items[i].data == table[ItemKey(res.items[i])].data)
    && (forall i, j | 0 <= i < j < |res.items| ::
          ItemKey(res.items[i]) != ItemKey(res.items[j])
          && !OrderLt(db, IndexOrder(index), ItemKey(res.items[j]), res.items[j].data,
                      ItemKey(res.items[i]), res.items[i].data))
    && (forall k, i | k in eligible && k in table && !OnPage(k, res) && 0 <= i < |res.items| ::
          !OrderLt(db, IndexOrder(index), k, table[k].data, ItemKey(res.items[i]), res.items[i].data))
    && (res.nextPageToken == "" <==> forall k | k in eligible :: OnPage(k, res))
    && (res.nextPageToken != "" ==>
          |res.items| == PageLimit(limit) && TokenCursor(res.nextPageToken) == Some(LastCursor(res)))
  }

  lemma IndexPage(db: Db, table: Table, index: IndexConfig, q: Query, rows: seq<ResultRow>, eligible: set<Key>,
                  limit: int, res: ListResult)
    requires ValidKeys(table, db.hasRK)
    requires IsAnswer(db, table, q, rows) && LimitOf(q) == PageLimit(limit) + 1
    requires q.orderBy == IndexOrder(index)
    requires forall k :: k in eligible <==> k in table && Selects(db, q.where, q.args, k, table[k].data)
    requires KeepsPage(rows, limit, res)
    ensures IsIndexPage(db, table, index, eligible, limit, res)
  {
    assert forall i | 0 <= i < |res.items| ::
             ItemKey(res.items[i]) == RowKey(rows[i]) && res.items[i].data == rows[i].data;
    forall k, i | k in eligible && !OnPage(k, res) && 0 <= i < |res.items|
      ensures !OrderLt(db, q.orderBy, k, table[k].data, ItemKey(res.items[i]), res.items[i].data)
    {
      if Among(k, rows) {
        var j :| 0 <= j < |rows| && RowKey(rows[j]) == k;
        assert j >= |res.items| > i;
      }
    }
    if res.nextPageToken != "" {
      TokenNamesLast(db, table, rows, limit, res);
      var next := RowKey(rows[|res.items|]);
      assert next in eligible && !OnPage(next, res);
    } else {
      forall k | k in eligible
        ensures OnPage(k, res)
      {
        assert Among(k, rows);
        var j :| 0 <= j < |rows| && RowKey(rows[j]) == k;
        assert ItemKey(res.items[j]) == k;
      }
    }
  }

  ghost function QueryIndexEligible(db: Db, table: Table, index: IndexConfig, indexPk: string,
                                    opts: ListOptions): set<Key> {
    set k | k in table && QueryIndexMeaning(db, index, indexPk, opts, k, table[k].data)
  }

  ghost function ScanIndexEligible(db: Db, table: Table, index: IndexConfig, opts: ListOptions): set<Key> {
    set k | k in table && ScanIndexMeaning(db, index, opts, k, table[k].data)
  }

  // The clauses of QueryIndex before the cursor.
  method IndexClauses(ghost db: Db, index: IndexConfig, indexPk: string, rkExpr: Option<Column>, opts: ListOptions)
    returns (where: seq<Clause>, args: seq<Arg>, argIdx: nat)
    requires rkExpr == if index.rkField != "" then Some(DataField(index.rkField)) else None
    ensures Numbered(where, args, argIdx)
    ensures forall key, data :: Selects(db, where, args, key, data)
              <==> FieldText(db, data, index.pkField) == Some(indexPk)
                   && (index.rkField != "" ==> RkFilter(db, opts, FieldText(db, data, index.rkField)))
  {
    where, args, argIdx := [Compare(DataField(index.pkField), Eq, 1)], [TextArg(indexPk)], 2;
    Appended(db, [], [], 1, where[0], args);
    assert where == [] + [where[0]] && args == [] + args;
    assert forall key, data ::
             Selects(db, where, args, key, data) <==> FieldText(db, data, index.pkField) == Some(indexPk);
    if rkExpr.Some? {
      where, args, argIdx := AppendIndexRKFilters(db, where, args, argIdx, rkExpr.value, opts);
    }
  }

  method QueryIndex(ghost db: Db, ghost table: Table, exec: Query -> seq<ResultRow>, index: IndexConfig,
                    indexPk: string, opts: ListOptions)
    returns (res: ListResult)
    requires ValidKeys(table, db.hasRK) && Executes(db, table, exec)
    ensures IsIndexPage(db, table, index, QueryIndexEligible(db, table, index, indexPk, opts), opts.limit, res)
  {
    var hasRK := index.rkField != "";
    var rkExpr := None;
    if hasRK {
      rkExpr := Some(DataField(index.rkField));
    }
    var where, args, argIdx := IndexClauses(db, index, indexPk, rkExpr, opts);
    where, args, argIdx := AppendCursorFilter(db, where, args, argIdx, hasRK, opts.pageToken, rkExpr);
    ghost var q;
    res, q := QueryItems(db, exec, where, args, argIdx, opts.limit, hasRK, DataField(index.pkField), rkExpr);
    IndexPage(db, table, index, q, exec(q), QueryIndexEligible(db, table, index, indexPk, opts), opts.limit, res);
  }

  method ScanIndex(ghost db: Db, ghost table: Table, exec: Query -> seq<ResultRow>, index: IndexConfig,
                   opts: ListOptions)
    returns (res: ListResult)
    requires ValidKeys(table, db.hasRK) && Executes(db, table, exec)
    ensures IsIndexPage(db, table, index, ScanIndexEligible(db, table, index, opts), opts.limit, res)
  {
    var pkExpr := DataField(index.pkField);
    var where, args, argIdx := [IsNotNull(pkExpr)], [], 1;
    Appended(db, [], [], 1, where[0], []);
    assert where == [] + [where[0]];
    var hasRK := index.rkField != "";
    var rkExpr := None;
    if hasRK {
      rkExpr := Some(DataField(index.rkField));
      Appended(db, where, args, argIdx, IsNotNull(rkExpr.value), []);
      assert args == args + [];
      where := where + [IsNotNull(rkExpr.value)];
    }
    where, args, argIdx := AppendCursorFilter(db, where, args, argIdx, hasRK, opts.pageToken, rkExpr);
    assert forall key, data :: Selects(db, where, args, key, data) <==> ScanIndexMeaning(db, index, opts, key, data);
    ghost var q;
    res, q := QueryItems(db, exec, where, args, argIdx, opts.limit, hasRK, pkExpr, rkExpr);
    IndexPage(db, table, index, q, exec(q), ScanIndexEligible(db, table, index, opts), opts.limit, res);
  }
}
