/** What every reachable table looks like, and page walks made while requests keep coming. */
module Traffic {
  import opened Text
  import opened JsonValues
  import opened Documents
  import opened Sequences
  import opened Rows
  import opened Queries
  import opened Walks
  import I = Items

  // What a validated configuration says of the key fields.
  predicate FieldsOk(th: I.TableHandler) {
    KeyFieldOk(th.pkField) && (th.HasRK() ==> KeyFieldOk(th.rkField)) && th.pkField != th.rkField
  }

  // The stored data of a row: no key field in it, and every object key by the rule.
  predicate RowOk(th: I.TableHandler, k: Key, data: Fields) {
    ValidKey(k, th.HasRK()) && NoKeyFields(data, th.pkField, th.rkField) && KeysOk(Obj(data))
  }

  predicate PatchOk(th: I.TableHandler, p: I.Pending) {
    ValidKey(p.key, th.HasRK()) && KeysOk(Obj(p.merged)) && th.Carries(p.merged, p.key)
  }

  predicate Clean(th: I.TableHandler, s: I.State) {
    && (forall k | k in s.table :: RowOk(th, k, s.table[k].data))
    && (forall c | c in s.pending :: PatchOk(th, s.pending[c]))
  }

  lemma StripIsClean(th: I.TableHandler, k: Key, data: Fields)
    requires FieldsOk(th) && ValidKey(k, th.HasRK()) && KeysOk(Obj(data))
    ensures RowOk(th, k, th.Strip(data))
  {
  }

  lemma InjectIsClean(th: I.TableHandler, k: Key, data: Fields)
    requires FieldsOk(th) && KeysOk(Obj(data))
    ensures KeysOk(Obj(th.Inject(data, k))) && th.Carries(th.Inject(data, k), k)
  {
    assert JsonKeyOk(th.pkField) && (th.HasRK() ==> JsonKeyOk(th.rkField));
  }

  lemma RowKeepsClean(th: I.TableHandler, s: I.State, t: I.State, k: Key, row: Row)
    requires Clean(th, s) && RowOk(th, k, row.data) && t.table == s.table[k := row]
    requires forall c | c in t.pending :: c in s.pending && t.pending[c] == s.pending[c]
    ensures Clean(th, t)
  {
  }

  lemma PutKeepsClean(th: I.TableHandler, s: I.State, pk: string, rk: string, body: Option<Json>, now: int)
    requires FieldsOk(th) && Clean(th, s)
    ensures Clean(th, I.NextPut(th, s, pk, rk, body, now))
  {
    var key, after := th.RowKey(pk, rk), I.NextPut(th, s, pk, rk, body, now);
    if th.KeyOk(pk, rk) && I.PutAccepted(th, key, body) {
      var data := I.Decoded(body).value;
      assert KeysOk(Obj(data));
      StripIsClean(th, key, data);
      RowKeepsClean(th, s, after, key, Row(th.Strip(data), now));
    }
  }

  lemma PendingKeepsClean(th: I.TableHandler, s: I.State, client: nat, p: I.Pending)
    requires Clean(th, s) && PatchOk(th, p)
    ensures Clean(th, s.(pending := s.pending[client := p]))
  {
  }

  lemma MergedIsClean(th: I.TableHandler, k: Key, data: Fields, patch: Fields)
    requires FieldsOk(th) && RowOk(th, k, data) && KeysOk(Obj(patch))
    ensures KeysOk(Obj(th.Inject(Merge(data, patch), k))) && th.Carries(th.Inject(Merge(data, patch), k), k)
  {
    MergeKeepsKeysOk(data, patch);
    InjectIsClean(th, k, Merge(data, patch));
  }

  // The read step of a PATCH either answers it, or leaves it pending with the merged document.
  lemma PatchReadTakes(th: I.TableHandler, s: I.State, client: nat, pk: string, rk: string, body: Option<Json>)
    requires client !in s.pending && client in I.NextPatchRead(th, s, client, pk, rk, body).pending
    ensures var key := th.RowKey(pk, rk);
            && th.KeyOk(pk, rk) && I.PatchAccepted(th, key, body) && key in s.table
            && var patch, row := I.Decoded(body).value, s.table[key];
               var merged := th.Inject(Merge(row.data, patch), key);
               && th.schemaOk(Obj(merged))
               && I.NextPatchRead(th, s, client, pk, rk, body)
                  == s.(pending := s.pending[client := I.Pending(key, patch, merged, row.updatedAt, |s.history|)])
  {
  }

  lemma PatchReadAnswers(th: I.TableHandler, s: I.State, client: nat, pk: string, rk: string, body: Option<Json>)
    requires client in s.pending || client !in I.NextPatchRead(th, s, client, pk, rk, body).pending
    ensures var after := I.NextPatchRead(th, s, client, pk, rk, body);
            after.table == s.table && after.pending == s.pending
  {
  }

  lemma PatchReadKeepsClean(th: I.TableHandler, s: I.State, client: nat, pk: string, rk: string, body: Option<Json>)
    requires FieldsOk(th) && Clean(th, s)
    ensures Clean(th, I.NextPatchRead(th, s, client, pk, rk, body))
  {
    var key, after := th.RowKey(pk, rk), I.NextPatchRead(th, s, client, pk, rk, body);
    if client !in s.pending && client in after.pending {
      PatchReadTakes(th, s, client, pk, rk, body);
      MergedIsClean(th, key, s.table[key].data, I.Decoded(body).value);
      PendingKeepsClean(th, s, client, after.pending[client]);
    } else {
      PatchReadAnswers(th, s, client, pk, rk, body);
    }
  }

  lemma PatchCommitKeepsClean(th: I.TableHandler, s: I.State, client: nat, now: int)
    requires FieldsOk(th) && Clean(th, s)
    ensures Clean(th, I.NextPatchCommit(th, s, client, now))
  {
    if client in s.pending {
      StripIsClean(th, s.pending[client].key, s.pending[client].merged);
    }
  }

  lemma NextKeepsClean(th: I.TableHandler, s: I.State, e: I.Event)
    requires FieldsOk(th) && Clean(th, s)
    ensures Clean(th, I.Next(th, s, e))
  {
    match e
    case Get(_, _) =>
    case Put(pk, rk, body, now) => PutKeepsClean(th, s, pk, rk, body, now);
    case Delete(_, _) =>
    case PatchRead(client, pk, rk, body) => PatchReadKeepsClean(th, s, client, pk, rk, body);
    case PatchCommit(client, now) => PatchCommitKeepsClean(th, s, client, now);
  }

  // In every reachable table, stamps fresh or not, rows have valid keys and clean data.
  lemma {:induction false} ReachableClean(th: I.TableHandler, events: seq<I.Event>)
    requires FieldsOk(th)
    ensures Clean(th, I.Run(th, I.Empty, events))
  {
    if events != [] {
      ReachableClean(th, events[..|events| - 1]);
      NextKeepsClean(th, I.Run(th, I.Empty, events[..|events| - 1]), events[|events| - 1]);
    }
  }

  // Adding "_type" to an answer never replaces a field of the document.
  lemma TypeFieldIsFree(th: I.TableHandler, events: seq<I.Event>, k: Key)
    requires FieldsOk(th) && k in I.Run(th, I.Empty, events).table
    ensures var doc := th.Inject(I.Run(th, I.Empty, events).table[k].data, k);
            "_type" !in doc && I.Payload(doc) - {"_type"} == doc
  {
    ReachableClean(th, events);
    var data := I.Run(th, I.Empty, events).table[k].data;
    InjectIsClean(th, k, data);
    var doc := th.Inject(data, k);
    assert !JsonKeyOk("_type");
    assert I.Payload(doc) - {"_type"} == doc;
  }

  // ---------- schema validity ----------

  // The schema accepts objects only, and only with the key fields.
  ghost predicate SchemaRequiresKeys(th: I.TableHandler) {
    && !th.schemaOk(Null)
    && forall m: Fields :: th.schemaOk(Obj(m)) ==> th.pkField in m && (th.HasRK() ==> th.rkField in m)
  }

  predicate Valid(th: I.TableHandler, s: I.State) {
    && (forall k | k in s.table :: th.schemaOk(Obj(th.Inject(s.table[k].data, k))))
    && (forall c | c in s.pending ::
          th.schemaOk(Obj(s.pending[c].merged)) && th.Carries(s.pending[c].merged, s.pending[c].key))
  }

  lemma PutKeepsValid(th: I.TableHandler, s: I.State, pk: string, rk: string, body: Option<Json>, now: int)
    requires FieldsOk(th) && SchemaRequiresKeys(th) && Valid(th, s)
    ensures Valid(th, I.NextPut(th, s, pk, rk, body, now))
  {
    var key := th.RowKey(pk, rk);
    if th.KeyOk(pk, rk) && I.PutAccepted(th, key, body) {
      var doc := I.Decoded(body).value;
      assert body == Some(Obj(doc)) && th.Carries(doc, key);
      InjectUndoesStrip(doc, th.pkField, key.pk, th.rkField, key.rk);
    }
  }

  lemma PatchReadKeepsValid(th: I.TableHandler, s: I.State, client: nat, pk: string, rk: string, body: Option<Json>)
    requires FieldsOk(th) && Valid(th, s)
    ensures Valid(th, I.NextPatchRead(th, s, client, pk, rk, body))
  {
    var key, after := th.RowKey(pk, rk), I.NextPatchRead(th, s, client, pk, rk, body);
    if client !in s.pending && client in after.pending {
      PatchReadTakes(th, s, client, pk, rk, body);
      InjectCarries(th, key, Merge(s.table[key].data, I.Decoded(body).value));
    } else {
      PatchReadAnswers(th, s, client, pk, rk, body);
    }
  }

  lemma InjectCarries(th: I.TableHandler, k: Key, data: Fields)
    requires FieldsOk(th)
    ensures th.Carries(th.Inject(data, k), k)
  {
  }

  lemma PatchCommitKeepsValid(th: I.TableHandler, s: I.State, client: nat, now: int)
    requires FieldsOk(th) && Valid(th, s)
    ensures Valid(th, I.NextPatchCommit(th, s, client, now))
  {
    if client in s.pending {
      var p := s.pending[client];
      InjectUndoesStrip(p.merged, th.pkField, p.key.pk, th.rkField, p.key.rk);
    }
  }

  lemma NextKeepsValid(th: I.TableHandler, s: I.State, e: I.Event)
    requires FieldsOk(th) && SchemaRequiresKeys(th) && Valid(th, s)
    ensures Valid(th, I.Next(th, s, e))
  {
    match e
    case Get(_, _) =>
    case Put(pk, rk, body, now) => PutKeepsValid(th, s, pk, rk, body, now);
    case Delete(_, _) =>
    case PatchRead(client, pk, rk, body) => PatchReadKeepsValid(th, s, client, pk, rk, body);
    case PatchCommit(client, now) => PatchCommitKeepsValid(th, s, client, now);
  }

  // If the schema requires the key fields, every row of every reachable table, keys injected, is schema-valid.
  lemma {:induction false} ReachableValid(th: I.TableHandler, events: seq<I.Event>)
    requires FieldsOk(th) && SchemaRequiresKeys(th)
    ensures Valid(th, I.Run(th, I.Empty, events))
  {
    if events != [] {
      ReachableValid(th, events[..|events| - 1]);
      NextKeepsValid(th, I.Run(th, I.Empty, events[..|events| - 1]), events[|events| - 1]);
    }
  }

  // ---------- walks between requests ----------

  ghost function TableAfter(th: I.TableHandler, events: seq<I.Event>, n: nat): Table
    requires n <= |events|
  {
    I.Run(th, I.Empty, events[..n]).table
  }

  // Page i is fetched after the first times[i] events.
  ghost predicate Interleaved(th: I.TableHandler, events: seq<I.Event>, times: seq<nat>, fetches: seq<Fetch>) {
    && |times| == |fetches|
    && (forall i | 0 <= i < |times| :: times[i] <= |events|)
    && (forall i, j | 0 <= i < j < |times| :: times[i] <= times[j])
    && (forall i | 0 <= i < |times| :: fetches[i].table == TableAfter(th, events, times[i]))
  }

  predicate Deletes(th: I.TableHandler, e: I.Event, k: Key) {
    e.Delete? && th.KeyOk(e.pk, e.rk) && th.RowKey(e.pk, e.rk) == k
  }

  lemma NextKeepsKey(th: I.TableHandler, s: I.State, e: I.Event, k: Key)
    requires k in s.table && !Deletes(th, e, k)
    ensures k in I.Next(th, s, e).table
  {
  }

  lemma TableAfterNext(th: I.TableHandler, events: seq<I.Event>, n: nat)
    requires 0 < n <= |events|
    ensures I.Run(th, I.Empty, events[..n]) == I.Next(th, I.Run(th, I.Empty, events[..n - 1]), events[n - 1])
  {
    assert events[..n][..n - 1] == events[..n - 1];
  }

  // Only a DELETE takes a key away.
  lemma {:induction false} StaysUnlessDeleted(th: I.TableHandler, events: seq<I.Event>, m: nat, n: nat, k: Key)
    requires m <= n <= |events| && k in TableAfter(th, events, m)
    requires forall i | m <= i < n :: !Deletes(th, events[i], k)
    ensures k in TableAfter(th, events, n)
    decreases n
  {
    if m < n {
      StaysUnlessDeleted(th, events, m, n - 1, k);
      TableAfterNext(th, events, n);
      NextKeepsKey(th, I.Run(th, I.Empty, events[..n - 1]), events[n - 1], k);
    }
  }

  // A walk made in pages between arbitrary requests returns no key twice, and exactly once every key
  // that was there at the first page and was not deleted before the last.
  lemma WalkBetweenRequests(db: Db, th: I.TableHandler, events: seq<I.Event>, listing: Listing, times: seq<nat>,
                            fetches: seq<Fetch>, k: Key)
    requires StrictTotalOrder(db.lt) && FieldsOk(th) && db.hasRK == th.HasRK()
    requires Interleaved(th, events, times, fetches)
    requires Follows(db, listing, "", fetches) && Complete(fetches)
    requires Includes(db, listing, k) && k in fetches[0].table
    requires forall i | times[0] <= i < times[|times| - 1] :: !Deletes(th, events[i], k)
    ensures Ascending(KeyOrder(db.lt), Returned(fetches)) && multiset(Returned(fetches))[k] == 1
  {
    forall i | 0 <= i < |fetches|
      ensures ValidKeys(fetches[i].table, db.hasRK) && k in fetches[i].table
    {
      ReachableClean(th, events[..times[i]]);
      assert forall l | l in fetches[i].table :: RowOk(th, l, fetches[i].table[l].data);
      assert i > 0 ==> times[0] <= times[i];
      assert i < |times| - 1 ==> times[i] <= times[|times| - 1];
      StaysUnlessDeleted(th, events, times[0], times[i], k);
    }
    WalkUnderTraffic(db, listing, fetches);
  }
}
