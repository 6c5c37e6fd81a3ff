/** Table configuration and its validation. */
module Configs {
  import opened Text
  import opened JsonValues

  datatype KeyConfig = KeyConfig(field: string, pattern: string)

  datatype Projection = Projection(kind: string, nonKeyAttributes: seq<string>)

  datatype IndexConfig = IndexConfig(name: string, primaryKey: KeyConfig, rangeKey: Option<KeyConfig>,
                                     projection: Option<Projection>, allowIndexScan: bool)

  datatype TableConfig = TableConfig(name: string, primaryKey: KeyConfig, rangeKey: Option<KeyConfig>,
                                     allowTableScan: bool, schema: Option<Json>, indexes: seq<IndexConfig>)

  function FieldOrEmpty(k: Option<KeyConfig>): string {
    match k case Some(c) => c.field case None => ""
  }

  class Config {
    var port: int
    var tables: seq<TableConfig>

    constructor (port: int, tables: seq<TableConfig>)
      ensures this.port == port && this.tables == tables
    {
      this.port, this.tables := port, tables;
    }
  }

  // The schema library and the regular expression compiler.
  datatype Libraries = Libraries(definitionOk: Json -> bool, regexOk: string -> bool)

  // ---------- what a valid configuration is ----------

  predicate ProjectionOk(p: Projection) {
    match p.kind
    case "ALL" => p.nonKeyAttributes == []
    case "KEYS_ONLY" => p.nonKeyAttributes == []
    case "INCLUDE" => p.nonKeyAttributes != []
    case _ => false
  }

  // No two of the key fields of an index and of its table are the same.
  predicate FieldsDistinct(t: TableConfig, idx: IndexConfig) {
    && idx.primaryKey.field != t.primaryKey.field
    && (t.rangeKey.Some? ==> idx.primaryKey.field != t.rangeKey.value.field)
    && (idx.rangeKey.Some? ==>
          && idx.rangeKey.value.field != t.primaryKey.field
          && (t.rangeKey.Some? ==> idx.rangeKey.value.field != t.rangeKey.value.field)
          && idx.rangeKey.value.field != idx.primaryKey.field)
  }

  predicate IndexOk(t: TableConfig, idx: IndexConfig) {
    && NameOk(idx.name)
    && KeyFieldOk(idx.primaryKey.field)
    && (idx.rangeKey.Some? ==> KeyFieldOk(idx.rangeKey.value.field))
    && FieldsDistinct(t, idx)
    && (idx.projection.Some? ==> ProjectionOk(idx.projection.value))
  }

  predicate UniqueIndexNames(indexes: seq<IndexConfig>) {
    forall i, j | 0 <= i < j < |indexes| :: indexes[i].name != indexes[j].name
  }

  // A schema that lists properties must give each key field as a string with a usable pattern.
  predicate PropertyOk(lib: Libraries, props: Fields, field: string) {
    && field in props && props[field].Obj?
    && var prop := props[field].fields;
       && "type" in prop && prop["type"] == Str("string")
       && "pattern" in prop && prop["pattern"].Str? && prop["pattern"].s != "" && lib.regexOk(prop["pattern"].s)
  }

  predicate SchemaKeysOk(lib: Libraries, t: TableConfig) {
    t.schema.Some? && t.schema.value.Obj? && "properties" in t.schema.value.fields
    && t.schema.value.fields["properties"].Obj? ==>
      var props := t.schema.value.fields["properties"].fields;
      PropertyOk(lib, props, t.primaryKey.field)
      && (t.rangeKey.Some? ==> PropertyOk(lib, props, t.rangeKey.value.field))
  }

  predicate KeysDefined(t: TableConfig) {
    && KeyFieldOk(t.primaryKey.field) && t.primaryKey.pattern != ""
    && (t.rangeKey.Some? ==>
          KeyFieldOk(t.rangeKey.value.field) && t.rangeKey.value.pattern != ""
              && t.primaryKey.field != t.rangeKey.value.field)
  }

  predicate TableOk(lib: Libraries, t: TableConfig) {
    && NameOk(t.name)
    && KeysDefined(t)
    && t.schema.Some? && lib.definitionOk(t.schema.value) && SchemaKeysOk(lib, t)
    && (forall i | 0 <= i < |t.indexes| :: IndexOk(t, t.indexes[i]))
    && UniqueIndexNames(t.indexes)
  }

  predicate UniqueTableNames(tables: seq<TableConfig>) {
    forall i, j | 0 <= i < j < |tables| :: tables[i].name != tables[j].name
  }

  predicate TablesOk(lib: Libraries, tables: seq<TableConfig>) {
    tables != [] && (forall i | 0 <= i < |tables| :: TableOk(lib, tables[i])) && UniqueTableNames(tables)
  }

  // ---------- validation ----------

  // Accepts exactly the valid configurations, and fills in the default port even when it rejects.
  method Validate(lib: Libraries, cfg: Config) returns (ok: bool)
    modifies cfg`port
    ensures cfg.port == if old(cfg.port) == 0 then 8080 else old(cfg.port)
    ensures ok <==> TablesOk(lib, cfg.tables)
  {
    if cfg.port == 0 {
      cfg.port := 8080;
    }
    if |cfg.tables| == 0 {
      return false;
    }
    var tableNames: set<string> := {};
    for i := 0 to |cfg.tables|
      invariant cfg.port == if old(cfg.port) == 0 then 8080 else old(cfg.port)
      invariant tableNames == set j | 0 <= j < i :: cfg.tables[j].name
      invariant forall j | 0 <= j < i :: TableOk(lib, cfg.tables[j])
      invariant UniqueTableNames(cfg.tables[..i])
    {
      var t := cfg.tables[i];
      if t.name == "" || !NameOk(t.name) {
        return false;
      }
      if t.name in tableNames {
        return false;
      }
      tableNames := tableNames + {t.name};
      var tableOk := ValidateTable(lib, t);
      if !tableOk {
        return false;
      }
    }
    assert cfg.tables[..|cfg.tables|] == cfg.tables;
    return true;
  }

  method ValidateTable(lib: Libraries, t: TableConfig) returns (ok: bool)
    requires NameOk(t.name)
    ensures ok <==> TableOk(lib, t)
  {
    if t.primaryKey.field == "" || !KeyFieldOk(t.primaryKey.field) || t.primaryKey.pattern == "" {
      return false;
    }
    if t.rangeKey.Some? {
      var rk := t.rangeKey.value;
      if rk.field == "" || !KeyFieldOk(rk.field) || rk.pattern == "" || t.primaryKey.field == rk.field {
        return false;
      }
    }
    if t.schema.None? || !lib.definitionOk(t.schema.value) {
      return false;
    }
    var schemaOk := ValidateSchemaKeys(lib, t);
    if !schemaOk {
      return false;
    }
    var indexNames: set<string> := {};
    for j := 0 to |t.indexes|
      invariant indexNames == set k | 0 <= k < j :: t.indexes[k].name
      invariant forall k | 0 <= k < j :: IndexOk(t, t.indexes[k])
      invariant UniqueIndexNames(t.indexes[..j])
    {
      var idx := t.indexes[j];
      if idx.name == "" || !NameOk(idx.name) || idx.name in indexNames {
        return false;
      }
      indexNames := indexNames + {idx.name};
      var indexOk := ValidateIndex(t, idx);
      if !indexOk {
        return false;
      }
    }
    assert t.indexes[..|t.indexes|] == t.indexes;
    return true;
  }

  method ValidateSchemaKeys(lib: Libraries, t: TableConfig) returns (ok: bool)
    requires t.schema.Some?
    ensures ok <==> SchemaKeysOk(lib, t)
  {
    if !t.schema.value.Obj? {
      return true;
    }
    var schemaMap := t.schema.value.fields;
    if "properties" !in schemaMap || !schemaMap["properties"].Obj? {
      return true;
    }
    var props := schemaMap["properties"].fields;
    ok := ValidateSchemaKeyField(lib, props, t.primaryKey.field);
    if ok && t.rangeKey.Some? {
      ok := ValidateSchemaKeyField(lib, props, t.rangeKey.value.field);
    }
  }

  method ValidateSchemaKeyField(lib: Libraries, props: Fields, field: string) returns (ok: bool)
    ensures ok <==> PropertyOk(lib, props, field)
  {
    if field !in props || !props[field].Obj? {
      return false;
    }
    var prop := props[field].fields;
    if "type" !in prop || !prop["type"].Str? || prop["type"].s != "string" {
      return false;
    }
    if "pattern" !in prop || !prop["pattern"].Str? || prop["pattern"].s == "" {
      return false;
    }
    return lib.regexOk(prop["pattern"].s);
  }

  method ValidateIndex(t: TableConfig, idx: IndexConfig) returns (ok: bool)
    requires NameOk(idx.name)
    ensures ok <==> IndexOk(t, idx)
  {
    if idx.primaryKey.field == "" || !KeyFieldOk(idx.primaryKey.field) || idx.primaryKey.field == t.primaryKey.field {
      return false;
    }
    if t.rangeKey.Some? && idx.primaryKey.field == t.rangeKey.value.field {
      return false;
    }
    if idx.rangeKey.Some? {
      var rk := idx.rangeKey.value;
      if rk.field == "" || !KeyFieldOk(rk.field) || rk.field == t.primaryKey.field {
        return false;
      }
      if t.rangeKey.Some? && rk.field == t.rangeKey.value.field {
        return false;
      }
      if rk.field == idx.primaryKey.field {
        return false;
      }
    }
    if idx.projection.Some? {
      var p := idx.projection.value;
      if p.kind == "ALL" || p.kind == "KEYS_ONLY" {
        if |p.nonKeyAttributes| > 0 {
          return false;
        }
      } else if p.kind == "INCLUDE" {
        if |p.nonKeyAttributes| == 0 {
          return false;
        }
      } else {
        return false;
      }
    }
    return true;
  }
}
