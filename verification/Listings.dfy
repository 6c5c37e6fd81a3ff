/** What the paged endpoints return, read off their options and the rows. */
module Listings {
  import opened Text
  import opened JsonValues
  import opened Sequences
  import opened Rows
  import opened LikePatterns
  import opened Cursors
  import opened Queries
  import opened Lists
  import opened Walks

  // ---------- the range key options ----------

  // The text stands to every bound that is given as its name says, and begins with the prefix.
  predicate Within(lt: (string, string) -> bool, opts: ListOptions, t: string) {
    && (opts.rkGt != "" ==> lt(opts.rkGt, t))
    && (opts.rkGte != "" ==> !lt(t, opts.rkGte))
    && (opts.rkLt != "" ==> lt(t, opts.rkLt))
    && (opts.rkLte != "" ==> !lt(opts.rkLte, t))
    && StartsWith(t, opts.rkBeginsWith)
  }

  predicate SomeGiven(opts: ListOptions) {
    opts.rkGt != "" || opts.rkGte != "" || opts.rkLt != "" || opts.rkLte != "" || opts.rkBeginsWith != ""
  }

  // With a plain prefix the filters are these conditions, and NULL meets none; with any prefix they let every
  // key pass that meets the conditions.
  lemma FiltersIff(db: Db, opts: ListOptions, t: string)
    ensures Plain(opts.rkBeginsWith) ==> (RkFilter(db, opts, Some(t)) <==> Within(db.lt, opts, t))
    ensures (forall i | 0 <= i < |t| :: KeyValueChar(t[i])) && Within(db.lt, opts, t) ==> RkFilter(db, opts, Some(t))
    ensures RkFilter(db, opts, None) <==> !SomeGiven(opts)
  {
    if Plain(opts.rkBeginsWith) {
      PlainPrefixIsPrefix(t, opts.rkBeginsWith);
    }
    if (forall i | 0 <= i < |t| :: KeyValueChar(t[i])) && StartsWith(t, opts.rkBeginsWith) {
      FilterKeepsKeys(t, opts.rkBeginsWith);
    }
  }

  // ---------- one page of a table ----------

  // The key comes after the position of a token; an empty or undecodable token asks for the first page.
  predicate Follows(db: Db, token: string, k: Key) {
    token != "" && DecodeCursor(token).Some? ==>
      var c := DecodeCursor(token).value;
      db.lt(c.pk, k.pk) || (db.hasRK && k.pk == c.pk && db.lt(c.rk, k.rk))
  }

  // What a list of the partition asks for.
  predicate Asked(db: Db, pk: string, opts: ListOptions, k: Key) {
    k.pk == pk && (db.hasRK ==> Within(db.lt, opts, k.rk)) && Follows(db, opts.pageToken, k)
  }

  lemma ListedIff(db: Db, table: Table, pk: string, opts: ListOptions, k: Key)
    requires Plain(opts.rkBeginsWith)
    ensures k in ListEligible(db, table, pk, opts) <==> k in table && Asked(db, pk, opts, k)
  {
    FiltersIff(db, opts, k.rk);
  }

  // Whatever the prefix, a list loses no key that begins with it.
  lemma ListKeeps(db: Db, table: Table, pk: string, opts: ListOptions, k: Key)
    requires k in table && ValidKey(k, db.hasRK) && Asked(db, pk, opts, k)
    ensures k in ListEligible(db, table, pk, opts)
  {
    if db.hasRK {
      assert forall i | 0 <= i < |k.rk| :: KeyValueChar(k.rk[i]);
    }
    FiltersIff(db, opts, k.rk);
  }

  lemma ScannedIff(db: Db, table: Table, opts: ListOptions, k: Key)
    ensures k in ScanEligible(db, table, opts) <==> k in table && Follows(db, opts.pageToken, k)
  {
  }

  function Size(limit: int): int { if limit > 0 then limit else 50 }

  predicate HasItem(res: ListResult, k: Key) {
    exists i | 0 <= i < |res.items| :: res.items[i].pk == k.pk && res.items[i].rk == k.rk
  }

  // The items are rows that are asked for, by primary and range key ascending, as many as fit. Without a token these
  // are all; with one the page is full, and some that are asked for come later.
  ghost predicate PageOf(db: Db, table: Table, asked: Key -> bool, limit: int, res: ListResult) {
    && |res.items| <= Size(limit)
    && (forall i | 0 <= i < |res.items| ::
          var item := res.items[i];
          Key(item.pk, item.rk) in table && asked(Key(item.pk, item.rk))
          && item.data == table[Key(item.pk, item.rk)].data)
    && (forall i, j | 0 <= i < j < |res.items| ::
          var a, b := res.items[i], res.items[j];
          db.lt(a.pk, b.pk) || (a.pk == b.pk && db.lt(a.rk, b.rk)))
    && (res.nextPageToken == "" <==> forall k | k in table && asked(k) :: HasItem(res, k))
    && (res.nextPageToken != "" ==>
          && |res.items| == Size(limit)
          && var last := res.items[|res.items| - 1];
             && DecodeCursor(res.nextPageToken) == Some(Cursor(last.pk, last.rk))
             && forall k | k in table && asked(k) && !HasItem(res, k) ::
                  db.lt(last.pk, k.pk) || (last.pk == k.pk && db.lt(last.rk, k.rk)))
  }

  lemma OnPageIff(k: Key, res: ListResult)
    ensures OnPage(k, res) <==> HasItem(res, k)
  {
    if OnPage(k, res) {
      var i :| 0 <= i < |res.items| && ItemKey(res.items[i]) == k;
      assert res.items[i].pk == k.pk && res.items[i].rk == k.rk;
    }
    if i :| 0 <= i < |res.items| && res.items[i].pk == k.pk && res.items[i].rk == k.rk {
      assert ItemKey(res.items[i]) == k;
    }
  }

  lemma PageIsPageOf(db: Db, table: Table, eligible: set<Key>, asked: Key -> bool, limit: int, res: ListResult)
    requires IsPage(db, table, eligible, limit, res)
    requires forall k :: k in eligible <==> k in table && asked(k)
    ensures PageOf(db, table, asked, limit, res)
  {
    forall k ensures OnPage(k, res) <==> HasItem(res, k) { OnPageIff(k, res); }
    forall i, j | 0 <= i < j < |res.items|
      ensures KeyLt(db.lt, ItemKey(res.items[i]), ItemKey(res.items[j]))
    {
      assert ItemOrder(db)(res.items[i], res.items[j]);
    }
  }

  // What ListItems returns is a page of the rows of the partition that are asked for.
  lemma ListPage(db: Db, table: Table, pk: string, opts: ListOptions, res: ListResult)
    requires Plain(opts.rkBeginsWith) && IsPage(db, table, ListEligible(db, table, pk, opts), opts.limit, res)
    ensures PageOf(db, table, k => Asked(db, pk, opts, k), opts.limit, res)
  {
    forall k ensures k in ListEligible(db, table, pk, opts) <==> k in table && Asked(db, pk, opts, k) {
      ListedIff(db, table, pk, opts, k);
    }
    PageIsPageOf(db, table, ListEligible(db, table, pk, opts), k => Asked(db, pk, opts, k), opts.limit, res);
  }

  lemma ScanPage(db: Db, table: Table, opts: ListOptions, res: ListResult)
    requires IsPage(db, table, ScanEligible(db, table, opts), opts.limit, res)
    ensures PageOf(db, table, k => Follows(db, opts.pageToken, k), opts.limit, res)
  {
    forall k ensures k in ScanEligible(db, table, opts) <==> k in table && Follows(db, opts.pageToken, k) {
      ScannedIff(db, table, opts, k);
    }
    PageIsPageOf(db, table, ScanEligible(db, table, opts), k => Follows(db, opts.pageToken, k), opts.limit, res);
  }

  // ---------- the whole walk ----------

  // A complete walk of a still partition returns each row that is within the options once and no other, by primary and
  // range key ascending, in as many pages of the given size as it takes.
  lemma StillPartition(db: Db, table: Table, pk: string, opts: ListOptions, limit: int, fetches: seq<Fetch>)
    requires StrictTotalOrder(db.lt) && ValidKeys(table, db.hasRK) && Still(fetches, table, limit)
    requires Plain(opts.rkBeginsWith) && Walks.Follows(db, Partition(pk, opts), "", fetches) && Complete(fetches)
    ensures var keys := Returned(fetches);
            && (forall k ::
                  k in keys <==> k in table && k.pk == pk && (db.hasRK ==> Within(db.lt, opts, k.rk)))
            && NoDuplicates(keys)
            && (forall i, j | 0 <= i < j < |keys| ::
                  db.lt(keys[i].pk, keys[j].pk) || (keys[i].pk == keys[j].pk && db.lt(keys[i].rk, keys[j].rk)))
            && |keys| <= |fetches| * Size(limit) && (|fetches| > 1 ==> (|fetches| - 1) * Size(limit) < |keys|)
  {
    var listing, keys := Partition(pk, opts), Returned(fetches);
    WalkUnderTraffic(db, listing, fetches);
    KeyOrderStrict(db.lt);
    AscendingNoDuplicates(KeyOrder(db.lt), keys);
    StillPages(db, listing, "", table, limit, fetches);
    forall k
      ensures k in keys <==> k in table && k.pk == pk && (db.hasRK ==> Within(db.lt, opts, k.rk))
    {
      FiltersIff(db, opts, k.rk);
      if k in table && Includes(db, listing, k) {
        assert multiset(keys)[k] == 1;
      }
    }
    forall i, j | 0 <= i < j < |keys|
      ensures KeyLt(db.lt, keys[i], keys[j])
    {
      assert KeyOrder(db.lt)(keys[i], keys[j]);
    }
  }

  // ---------- pages of an index ----------

  // data->>'f' is this text: a string as it is, any other value but null as the database prints it.
  predicate HasText(db: Db, data: Fields, f: string, t: string) {
    f in data && (data[f] == Str(t) || (!data[f].Str? && !data[f].Null? && db.render(data[f]) == t))
  }

  ghost predicate IndexAfter(db: Db, index: IndexConfig, token: string, k: Key, data: Fields) {
    token != "" && DecodeCursor(token).Some? ==>
      var c := DecodeCursor(token).value;
      || db.lt(c.pk, k.pk)
      || (index.rkField != "" && k.pk == c.pk && exists t :: HasText(db, data, index.rkField, t) && db.lt(c.rk, t))
  }

  // What a query of one index value asks for: a row without the range field is within no option.
  ghost predicate IndexAsked(db: Db, index: IndexConfig, indexPk: string, opts: ListOptions, k: Key, data: Fields) {
    && HasText(db, data, index.pkField, indexPk)
    && (index.rkField != "" && SomeGiven(opts) ==>
          exists t :: HasText(db, data, index.rkField, t) && Within(db.lt, opts, t))
    && IndexAfter(db, index, opts.pageToken, k, data)
  }

  lemma FieldTextIff(db: Db, data: Fields, f: string)
    ensures forall t :: HasText(db, data, f, t) <==> FieldText(db, data, f) == Some(t)
    ensures FieldText(db, data, f).Some? <==> f in data && !data[f].Null?
  {
  }

  lemma IndexAfterIff(db: Db, index: IndexConfig, token: string, k: Key, data: Fields)
    ensures IndexAfter(db, index, token, k, data)
            <==> AfterCursor(db, TokenCursor(token), IndexTieBreak(index), k, data)
  {
    FieldTextIff(db, data, index.rkField);
  }

  lemma IndexListedIff(db: Db, table: Table, index: IndexConfig, indexPk: string, opts: ListOptions, k: Key)
    requires Plain(opts.rkBeginsWith)
    ensures k in QueryIndexEligible(db, table, index, indexPk, opts)
            <==> k in table && IndexAsked(db, index, indexPk, opts, k, table[k].data)
  {
    if k in table {
      var data := table[k].data;
      var text := FieldText(db, data, index.rkField);
      FieldTextIff(db, data, index.pkField);
      FieldTextIff(db, data, index.rkField);
      IndexAfterIff(db, index, opts.pageToken, k, data);
      FiltersIff(db, opts, text.GetOr(""));
    }
  }

  lemma IndexScannedIff(db: Db, table: Table, index: IndexConfig, opts: ListOptions, k: Key)
    ensures k in ScanIndexEligible(db, table, index, opts)
            <==> k in table
                 && index.pkField in table[k].data && !table[k].data[index.pkField].Null?
                 && (index.rkField != "" ==>
                       index.rkField in table[k].data && !table[k].data[index.rkField].Null?)
                 && IndexAfter(db, index, opts.pageToken, k, table[k].data)
  {
    if k in table {
      IndexAfterIff(db, index, opts.pageToken, k, table[k].data);
    }
  }

  // The items of one index value are rows that are asked for, each once, by the text of the range field ascending and
  // rows without it last, as many as fit; without a token these are all.
  ghost predicate IndexPageOf(db: Db, table: Table, index: IndexConfig, indexPk: string, opts: ListOptions,
                              res: ListResult) {
    && |res.items| <= Size(opts.limit) && (res.nextPageToken != "" ==> |res.items| == Size(opts.limit))
    && (forall i | 0 <= i < |res.items| ::
          var item := res.items[i];
          Key(item.pk, item.rk) in table && item.data == table[Key(item.pk, item.rk)].data
          && IndexAsked(db, index, indexPk, opts, Key(item.pk, item.rk), item.data))
    && (forall i, j | 0 <= i < j < |res.items| ::
          && (res.items[i].pk != res.items[j].pk || res.items[i].rk != res.items[j].rk)
          && (index.rkField != "" ==> TextsInOrder(db, res.items[i].data, res.items[j].data, index.rkField)))
    && (res.nextPageToken == "" <==>
          forall k | k in table && IndexAsked(db, index, indexPk, opts, k, table[k].data) :: HasItem(res, k))
  }

  // The first text is not greater than the second, and only then missing if the second is.
  ghost predicate TextsInOrder(db: Db, a: Fields, b: Fields, f: string) {
    forall t | HasText(db, b, f, t) :: exists u :: HasText(db, a, f, u) && !db.lt(t, u)
  }

  lemma OrderWithinValue(db: Db, index: IndexConfig, indexPk: string, k: Key, a: Fields, l: Key, b: Fields)
    requires StrictTotalOrder(db.lt) && index.rkField != ""
    requires HasText(db, a, index.pkField, indexPk) && HasText(db, b, index.pkField, indexPk)
    requires !OrderLt(db, IndexOrder(index), l, b, k, a)
    ensures TextsInOrder(db, a, b, index.rkField)
  {
    FieldTextIff(db, a, index.pkField);
    FieldTextIff(db, b, index.pkField);
    FieldTextIff(db, a, index.rkField);
    FieldTextIff(db, b, index.rkField);
    var order := IndexOrder(index);
    assert order == [DataField(index.pkField), DataField(index.rkField)];
    assert order[1..] == [DataField(index.rkField)] && order[1..][1..] == [];
    assert !db.lt(indexPk, indexPk);
    assert !OrderLt(db, order[1..], l, b, k, a);
    forall t | HasText(db, b, index.rkField, t)
      ensures exists u :: HasText(db, a, index.rkField, u) && !db.lt(t, u)
    {
      assert HasText(db, a, index.rkField, FieldText(db, a, index.rkField).GetOr(""));
    }
  }

  // What QueryIndex returns is such a page.
  lemma IndexQueryPage(db: Db, table: Table, index: IndexConfig, indexPk: string, opts: ListOptions, res: ListResult)
    requires StrictTotalOrder(db.lt) && Plain(opts.rkBeginsWith)
    requires IsIndexPage(db, table, index, QueryIndexEligible(db, table, index, indexPk, opts), opts.limit, res)
    ensures IndexPageOf(db, table, index, indexPk, opts, res)
  {
    var eligible := QueryIndexEligible(db, table, index, indexPk, opts);
    forall k
      ensures OnPage(k, res) <==> HasItem(res, k)
      ensures k in eligible <==> k in table && IndexAsked(db, index, indexPk, opts, k, table[k].data)
    {
      OnPageIff(k, res);
      IndexListedIff(db, table, index, indexPk, opts, k);
    }
    forall i, j | 0 <= i < j < |res.items| && index.rkField != ""
      ensures TextsInOrder(db, res.items[i].data, res.items[j].data, index.rkField)
    {
      OrderWithinValue(db, index, indexPk, ItemKey(res.items[i]), res.items[i].data, ItemKey(res.items[j]),
                       res.items[j].data);
    }
  }
}
