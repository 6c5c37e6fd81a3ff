/** What validation guarantees to the rest of the service. */
module ValidConfigs {
  import opened Text
  import opened Sequences
  import opened JsonValues
  import opened Configs
  import Items
  import Rows
  import Queries
  import Indexes
  import Traffic
  import Reconciling

  // The handler of a configured table.
  function HandlerOf(t: TableConfig, matches: (string, string) -> bool, schemaOk: Json -> bool): Items.TableHandler {
    Items.TableHandler(t.primaryKey.field, FieldOrEmpty(t.rangeKey), v => matches(t.primaryKey.pattern, v),
                       v => t.rangeKey.Some? && matches(t.rangeKey.value.pattern, v), schemaOk)
  }

  function IndexOf(idx: IndexConfig): Queries.IndexConfig {
    Queries.IndexConfig(idx.primaryKey.field, FieldOrEmpty(idx.rangeKey))
  }

  // The handler has the key fields and patterns of its table, and they meet what the item protocol needs.
  lemma HandlerFieldsOk(lib: Libraries, t: TableConfig, matches: (string, string) -> bool, schemaOk: Json -> bool)
    requires TableOk(lib, t)
    ensures var th := HandlerOf(t, matches, schemaOk);
            && Traffic.FieldsOk(th) && (th.HasRK() <==> t.rangeKey.Some?)
            && th.pkField == t.primaryKey.field && (t.rangeKey.Some? ==> th.rkField == t.rangeKey.value.field)
            && (forall v :: th.pkPatternOk(v) <==> matches(t.primaryKey.pattern, v))
            && (t.rangeKey.Some? ==> forall v :: th.rkPatternOk(v) <==> matches(t.rangeKey.value.pattern, v))
  {
  }

  // What a valid schema says of a key field: a string with a pattern that compiles.
  ghost predicate DescribesKey(lib: Libraries, schema: Json, field: string) {
    schema.Obj? && "properties" in schema.fields && schema.fields["properties"].Obj? ==>
      var props := schema.fields["properties"].fields;
      && field in props && props[field].Obj?
      && "type" in props[field].fields && props[field].fields["type"] == Str("string")
      && "pattern" in props[field].fields
      && exists pattern :: props[field].fields["pattern"] == Str(pattern) && pattern != "" && lib.regexOk(pattern)
  }

  predicate NameSpelled(s: string) { Spelled(s, LOWER, LOWER + DIGITS + "_") }

  predicate FieldSpelled(s: string) { Spelled(s, LOWER + UPPER, LOWER + UPPER + DIGITS + "_-") }

  // The key fields of a table, or of an index of it after these.
  function KeyFieldsOf(primaryKey: KeyConfig, rangeKey: Option<KeyConfig>): seq<string> {
    [primaryKey.field] + if rangeKey.Some? then [rangeKey.value.field] else []
  }

  function TableNames(tables: seq<TableConfig>): seq<string> {
    seq(|tables|, i requires 0 <= i < |tables| => tables[i].name)
  }

  function IndexNames(indexes: seq<IndexConfig>): seq<string> {
    seq(|indexes|, i requires 0 <= i < |indexes| => indexes[i].name)
  }

  // An index has a name, key fields of its own, and attributes in its projection exactly if it includes some.
  predicate AcceptedIndex(t: TableConfig, idx: IndexConfig) {
    && NameSpelled(idx.name)
    && (forall f | f in KeyFieldsOf(idx.primaryKey, idx.rangeKey) :: FieldSpelled(f))
    && NoDuplicates(KeyFieldsOf(t.primaryKey, t.rangeKey) + KeyFieldsOf(idx.primaryKey, idx.rangeKey))
    && (idx.projection.Some? ==>
          && idx.projection.value.kind in ["ALL", "KEYS_ONLY", "INCLUDE"]
          && (idx.projection.value.kind == "INCLUDE" <==> idx.projection.value.nonKeyAttributes != []))
  }

  // A table has a name, key fields with patterns, a schema that describes them, and indexes of different names.
  ghost predicate AcceptedTable(lib: Libraries, t: TableConfig) {
    && NameSpelled(t.name)
    && (forall f | f in KeyFieldsOf(t.primaryKey, t.rangeKey) :: FieldSpelled(f))
    && NoDuplicates(KeyFieldsOf(t.primaryKey, t.rangeKey))
    && t.primaryKey.pattern != "" && (t.rangeKey.Some? ==> t.rangeKey.value.pattern != "")
    && t.schema.Some? && lib.definitionOk(t.schema.value)
    && (forall f | f in KeyFieldsOf(t.primaryKey, t.rangeKey) :: DescribesKey(lib, t.schema.value, f))
    && NoDuplicates(IndexNames(t.indexes))
    && forall idx | idx in t.indexes :: AcceptedIndex(t, idx)
  }

  lemma KeyFieldsAre(primaryKey: KeyConfig, rangeKey: Option<KeyConfig>)
    ensures primaryKey.field in KeyFieldsOf(primaryKey, rangeKey)
    ensures rangeKey.Some? ==> rangeKey.value.field in KeyFieldsOf(primaryKey, rangeKey)
    ensures forall f | f in KeyFieldsOf(primaryKey, rangeKey) ::
              f == primaryKey.field || (rangeKey.Some? && f == rangeKey.value.field)
    ensures NoDuplicates(KeyFieldsOf(primaryKey, rangeKey))
            <==> (rangeKey.Some? ==> primaryKey.field != rangeKey.value.field)
  {
    var fields := KeyFieldsOf(primaryKey, rangeKey);
    assert fields[0] == primaryKey.field;
    if rangeKey.Some? {
      assert fields[1] == rangeKey.value.field;
    }
  }

  lemma FieldsDistinctIff(t: TableConfig, idx: IndexConfig)
    requires t.rangeKey.Some? ==> t.primaryKey.field != t.rangeKey.value.field
    ensures FieldsDistinct(t, idx)
            <==> NoDuplicates(KeyFieldsOf(t.primaryKey, t.rangeKey) + KeyFieldsOf(idx.primaryKey, idx.rangeKey))
  {
    var base, own := KeyFieldsOf(t.primaryKey, t.rangeKey), KeyFieldsOf(idx.primaryKey, idx.rangeKey);
    var all := base + own;
    assert forall i | 0 <= i < |base| :: all[i] == base[i];
    assert forall i | 0 <= i < |own| :: all[|base| + i] == own[i];
    if FieldsDistinct(t, idx) {
      forall i, j | 0 <= i < j < |all| ensures all[i] != all[j] {}
    }
    if NoDuplicates(all) {
      assert all[0] != all[|base|] && (|base| == 2 ==> all[1] != all[|base|]);
      assert |own| == 2 ==> all[0] != all[|base| + 1] && all[|base|] != all[|base| + 1];
      assert |own| == 2 && |base| == 2 ==> all[1] != all[|base| + 1];
    }
  }

  lemma FieldsSpelledIff(primaryKey: KeyConfig, rangeKey: Option<KeyConfig>)
    ensures (forall f | f in KeyFieldsOf(primaryKey, rangeKey) :: FieldSpelled(f))
            <==> KeyFieldOk(primaryKey.field) && (rangeKey.Some? ==> KeyFieldOk(rangeKey.value.field))
  {
    KeyFieldsAre(primaryKey, rangeKey);
    RulesAre(primaryKey.field);
    if rangeKey.Some? {
      RulesAre(rangeKey.value.field);
    }
  }

  lemma IndexAcceptedIff(t: TableConfig, idx: IndexConfig)
    requires t.rangeKey.Some? ==> t.primaryKey.field != t.rangeKey.value.field
    ensures IndexOk(t, idx) <==> AcceptedIndex(t, idx)
  {
    FieldsDistinctIff(t, idx);
    RulesAre(idx.name);
    FieldsSpelledIff(idx.primaryKey, idx.rangeKey);
  }

  lemma SchemaKeysIff(lib: Libraries, t: TableConfig)
    requires t.schema.Some?
    ensures SchemaKeysOk(lib, t)
            <==> forall f | f in KeyFieldsOf(t.primaryKey, t.rangeKey) :: DescribesKey(lib, t.schema.value, f)
  {
    KeyFieldsAre(t.primaryKey, t.rangeKey);
  }

  lemma KeysDefinedIff(t: TableConfig)
    ensures KeysDefined(t) <==>
              && (forall f | f in KeyFieldsOf(t.primaryKey, t.rangeKey) :: FieldSpelled(f))
              && NoDuplicates(KeyFieldsOf(t.primaryKey, t.rangeKey))
              && t.primaryKey.pattern != "" && (t.rangeKey.Some? ==> t.rangeKey.value.pattern != "")
  {
    KeyFieldsAre(t.primaryKey, t.rangeKey);
    FieldsSpelledIff(t.primaryKey, t.rangeKey);
  }

  lemma TableAcceptedIff(lib: Libraries, t: TableConfig)
    ensures TableOk(lib, t) <==> AcceptedTable(lib, t)
  {
    RulesAre(t.name);
    KeysDefinedIff(t);
    if t.schema.Some? {
      SchemaKeysIff(lib, t);
    }
    assert UniqueIndexNames(t.indexes) <==> NoDuplicates(IndexNames(t.indexes)) by {
      assert forall i | 0 <= i < |t.indexes| :: IndexNames(t.indexes)[i] == t.indexes[i].name;
    }
    if KeysDefined(t) {
      forall idx ensures IndexOk(t, idx) <==> AcceptedIndex(t, idx) { IndexAcceptedIff(t, idx); }
    }
  }

  // The configurations that validation accepts: at least one table, no name twice, and each table as it should be.
  lemma ConfigAcceptedIff(lib: Libraries, tables: seq<TableConfig>)
    ensures TablesOk(lib, tables) <==>
              tables != [] && NoDuplicates(TableNames(tables)) && forall t | t in tables :: AcceptedTable(lib, t)
  {
    assert UniqueTableNames(tables) <==> NoDuplicates(TableNames(tables)) by {
      assert forall i | 0 <= i < |tables| :: TableNames(tables)[i] == tables[i].name;
    }
    forall i | 0 <= i < |tables| ensures TableOk(lib, tables[i]) <==> AcceptedTable(lib, tables[i]) {
      TableAcceptedIff(lib, tables[i]);
    }
  }

  // For every index of every valid configuration, choosing rows by the stripped data that is stored is
  // choosing them by the whole documents.
  lemma IndexesSelectAlike(lib: Libraries, t: TableConfig, i: nat, matches: (string, string) -> bool,
                           schemaOk: Json -> bool, db: Queries.Db, indexPk: string, opts: Queries.ListOptions,
                           key: Rows.Key, doc: Fields)
    requires TableOk(lib, t) && i < |t.indexes|
    ensures var index, idx := IndexOf(t.indexes[i]), t.indexes[i];
            && index.pkField == idx.primaryKey.field && (index.rkField != "" <==> idx.rangeKey.Some?)
            && (idx.rangeKey.Some? ==> index.rkField == idx.rangeKey.value.field)
    ensures var th, index := HandlerOf(t, matches, schemaOk), IndexOf(t.indexes[i]);
            && (Queries.InPartialIndex(db, index, th.Strip(doc)) <==> Queries.InPartialIndex(db, index, doc))
            && (Queries.ScanIndexMeaning(db, index, opts, key, th.Strip(doc))
                <==> Queries.ScanIndexMeaning(db, index, opts, key, doc))
            && (Queries.QueryIndexMeaning(db, index, indexPk, opts, key, th.Strip(doc))
                <==> Queries.QueryIndexMeaning(db, index, indexPk, opts, key, doc))
  {
    assert IndexOk(t, t.indexes[i]);
    Indexes.StrippedSelectsAlike(db, IndexOf(t.indexes[i]), indexPk, opts, key, doc,
                                 t.primaryKey.field, FieldOrEmpty(t.rangeKey));
  }

  // Validated names are what the results about migrations ask for.
  lemma ValidNames(lib: Libraries, tables: seq<TableConfig>)
    requires TablesOk(lib, tables)
    ensures Reconciling.WellNamed(tables)
  {
    forall i | 0 <= i < |tables| ensures Reconciling.TableNamed(tables[i]) {
      assert TableOk(lib, tables[i]);
    }
  }
}
