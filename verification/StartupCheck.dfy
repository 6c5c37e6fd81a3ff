/** The check at startup that the configuration is the one the database was migrated to. */
module StartupCheck {
  import opened Text
  import opened Configs
  import opened CanonicalForms
  import opened Migrations
  import opened Histories

  datatype CheckResult = Passed | NoMetaTable | MissingHash | EmptyHash | Mismatch

  // White space as strings.TrimSpace knows it.
  predicate IsSpace(c: char) {
    var n := c as int;
    0x09 <= n <= 0x0d || n == 0x20 || n == 0x85 || n == 0xa0 || n == 0x1680
    || 0x2000 <= n <= 0x200a || n == 0x2028 || n == 0x2029 || n == 0x202f || n == 0x205f || n == 0x3000
  }

  predicate Blank(s: string) {
    forall i | 0 <= i < |s| :: IsSpace(s[i])
  }

  // A row that holds no hash reads as the empty hash.
  function StoredHash(row: MetaRow): string {
    match row case ConfigHash(hash) => hash case KeyFields(_, _) => ""
  }

  function Compare(db: Db, expected: string): CheckResult {
    if db.meta.None? then NoMetaTable
    else if META !in db.meta.value then MissingHash
    else if Blank(StoredHash(db.meta.value[META])) then EmptyHash
    else if StoredHash(db.meta.value[META]) != expected then Mismatch
    else Passed
  }

  method ValidateTablesConfigHash(db: Db, tables: seq<TableConfig>, hashOf: MinimalStructure -> string)
    returns (r: CheckResult, ghost form: MinimalStructure)
    ensures IsCanonical(form, tables) && r == Compare(db, hashOf(form))
    ensures r == NoMetaTable <==> db.meta.None?
    ensures r == MissingHash <==> db.meta.Some? && "_meta" !in db.meta.value
    ensures r == EmptyHash <==>
              db.meta.Some? && "_meta" in db.meta.value
                && match db.meta.value["_meta"]
                   case KeyFields(_, _) => true
                   case ConfigHash(hash) => forall c | c in hash :: IsSpace(c)
    ensures r == Passed <==>
              db.meta.Some? && "_meta" in db.meta.value && db.meta.value["_meta"] == ConfigHash(hashOf(form))
                && exists c | c in hashOf(form) :: !IsSpace(c)
  {
    var minimal := BuildMinimalTableStructure(tables);
    form := minimal;
    var expectedHash := hashOf(minimal);
    if db.meta.None? {
      return NoMetaTable, minimal;
    }
    if META !in db.meta.value {
      return MissingHash, minimal;
    }
    var stored := StoredHash(db.meta.value[META]);
    if Blank(stored) {
      return EmptyHash, minimal;
    }
    if stored != expectedHash {
      return Mismatch, minimal;
    }
    return Passed, minimal;
  }

  // What sha256 in hexadecimal gives.
  predicate IsHexDigit(c: char) { IsDigit(c) || 'a' <= c <= 'f' }

  ghost predicate HexHashes(hashOf: MinimalStructure -> string) {
    forall f :: |hashOf(f)| == 64 && forall i | 0 <= i < 64 :: IsHexDigit(hashOf(f)[i])
  }

  // The hash tells these two structures apart.
  predicate NoCollision(hashOf: MinimalStructure -> string, f: MinimalStructure, g: MinimalStructure) {
    hashOf(f) == hashOf(g) ==> f == g
  }

  // ---------- after one migration ----------

  // A database migrated to the first configuration accepts the second exactly if the two have the same
  // tables, key fields and indexes; otherwise the complaint is a mismatch.
  lemma CheckAfterMigrate(lib: Libraries, db: Db, tables1: seq<TableConfig>, form1: MinimalStructure, o: Options,
                          order: seq<string>, tables2: seq<TableConfig>, form2: MinimalStructure,
                          hashOf: MinimalStructure -> string)
    requires TablesOk(lib, tables1) && TablesOk(lib, tables2)
    requires IsCanonical(form1, tables1) && IsCanonical(form2, tables2)
    requires HexHashes(hashOf) && NoCollision(hashOf, form1, form2)
    requires !o.dryRun && Transaction(db, tables1, o, hashOf(form1), order).Ok?
    ensures Compare(Transaction(db, tables1, o, hashOf(form1), order).db, hashOf(form2))
            == if SameTables(tables1, tables2) then Passed else Mismatch
  {
    CompareHashes(Transaction(db, tables1, o, hashOf(form1), order).db, form1, form2, hashOf);
    CanonicalIff(form1, tables1, form2, tables2);
  }

  lemma CompareHashes(db: Db, form1: MinimalStructure, form2: MinimalStructure, hashOf: MinimalStructure -> string)
    requires HexHashes(hashOf) && NoCollision(hashOf, form1, form2)
    requires db.meta.Some? && META in db.meta.value && db.meta.value[META] == ConfigHash(hashOf(form1))
    ensures Compare(db, hashOf(form2)) == if form1 == form2 then Passed else Mismatch
  {
    assert !IsSpace(hashOf(form1)[0]) by {
      assert IsHexDigit(hashOf(form1)[0]);
    }
  }

  // ---------- after any history ----------

  // The last run that committed.
  ghost function LastCommitted(runs: seq<Run>): Option<Run> {
    if runs == [] then None
    else
      var before, r := runs[..|runs| - 1], runs[|runs| - 1];
      if Succeeds(After(before), r) && !r.o.dryRun then Some(r) else LastCommitted(before)
  }

  // Each run was of a valid configuration and stored its hash.
  ghost predicate Genuine(lib: Libraries, r: Run, hashOf: MinimalStructure -> string) {
    TablesOk(lib, r.tables) && exists form :: IsCanonical(form, r.tables) && r.hash == hashOf(form)
  }

  ghost predicate AllGenuine(lib: Libraries, runs: seq<Run>, hashOf: MinimalStructure -> string) {
    forall i | 0 <= i < |runs| :: Genuine(lib, runs[i], hashOf)
  }

  lemma {:induction false} LastCommittedHash(runs: seq<Run>)
    ensures var last, db := LastCommitted(runs), After(runs);
            if last.Some? then
              last.value in runs && db.meta.Some? && META in db.meta.value
                  && db.meta.value[META] == ConfigHash(last.value.hash)
            else db == EMPTY_DB
  {
    if runs != [] {
      LastCommittedHash(runs[..|runs| - 1]);
    }
  }

  // Whatever runs failed or were dry runs, the server starts exactly with the structure of the last
  // configuration that was migrated to.
  lemma StartupCheckIff(lib: Libraries, runs: seq<Run>, tables: seq<TableConfig>, form: MinimalStructure,
                        hashOf: MinimalStructure -> string)
    requires AllGenuine(lib, runs, hashOf) && TablesOk(lib, tables) && IsCanonical(form, tables)
    requires HexHashes(hashOf)
    requires forall i, f | 0 <= i < |runs| && IsCanonical(f, runs[i].tables) :: NoCollision(hashOf, f, form)
    ensures var last := LastCommitted(runs);
            Compare(After(runs), hashOf(form))
            == if last.None? then NoMetaTable
               else if SameTables(last.value.tables, tables) then Passed
               else Mismatch
  {
    LastCommittedHash(runs);
    var last := LastCommitted(runs);
    if last.Some? {
      var i :| 0 <= i < |runs| && runs[i] == last.value;
      assert Genuine(lib, runs[i], hashOf);
      var form1 :| IsCanonical(form1, last.value.tables) && last.value.hash == hashOf(form1);
      CompareHashes(After(runs), form1, form, hashOf);
      CanonicalIff(form1, last.value.tables, form, tables);
    }
  }
}
