/** The store's statements and the item endpoints as methods, each proved to take its step of the protocol. */
module ItemServer {
  import opened Text
  import opened JsonValues
  import opened Documents
  import opened Rows
  import opened Items
  import opened Answers
  import MergeInPlace

  // ---------- store ----------

  // One table. A statement's rk is NULL exactly when the table has no range key.
  class Store {
    const hasRK: bool
    var rows: Table

    constructor (hasRK: bool)
      ensures this.hasRK == hasRK && rows == map[]
    {
      this.hasRK := hasRK;
      rows := map[];
    }

    ghost predicate Shaped()
      reads this
    {
      !hasRK ==> forall k | k in rows :: k.rk == ""
    }

    // WHERE pk = $1 [AND rk = $2]
    static predicate Matches(k: Key, pk: string, rk: Option<string>) {
      k.pk == pk && (rk.Some? ==> k.rk == rk.value)
    }

    static function KeyOf(pk: string, rk: Option<string>): Key {
      Key(pk, rk.GetOr(""))
    }

    method GetItemForUpdate(pk: string, rk: Option<string>) returns (row: Option<Row>)
      requires Shaped() && rk.Some? == hasRK
      ensures row == if KeyOf(pk, rk) in rows then Some(rows[KeyOf(pk, rk)]) else None
    {
      var found := set k | k in rows && Matches(k, pk, rk);
      assert found == if KeyOf(pk, rk) in rows then {KeyOf(pk, rk)} else {};
      if found == {} {
        return None;
      }
      var k :| k in found;
      return Some(rows[k]);
    }

    method GetItem(pk: string, rk: Option<string>) returns (data: Option<Fields>)
      requires Shaped() && rk.Some? == hasRK
      ensures data == if KeyOf(pk, rk) in rows then Some(rows[KeyOf(pk, rk)].data) else None
    {
      var row := GetItemForUpdate(pk, rk);
      data := match row case Some(r) => Some(r.data) case None => None;
    }

    // INSERT ... ON CONFLICT (key) DO UPDATE
    method PutItem(pk: string, rk: Option<string>, data: Fields, now: int)
      requires Shaped() && rk.Some? == hasRK
      modifies this
      ensures Shaped() && rows == old(rows)[KeyOf(pk, rk) := Row(data, now)]
    {
      var key := KeyOf(pk, rk);
      if key !in rows {
        rows := rows[key := Row(data, now)];
      } else {
        rows := rows[key := rows[key].(data := data, updatedAt := now)];
      }
    }

    // UPDATE ... WHERE key AND updated_at = $n; updated tells whether any row was affected.
    method PutItemIfUnchanged(pk: string, rk: Option<string>, data: Fields, expected: int,
                              now: int) returns (updated: bool)
      requires Shaped() && rk.Some? == hasRK
      modifies this
      ensures Shaped()
      ensures var key := KeyOf(pk, rk);
              && (updated <==> key in old(rows) && old(rows)[key].updatedAt == expected)
              && rows == if updated then old(rows)[key := Row(data, now)] else old(rows)
    {
      var affected := set k | k in rows && Matches(k, pk, rk) && rows[k].updatedAt == expected;
      ghost var before := rows;
      rows := map k | k in rows :: if k in affected then Row(data, now) else rows[k];
      updated := |affected| > 0;
      var key := KeyOf(pk, rk);
      assert affected == if key in before && before[key].updatedAt == expected then {key} else {};
    }

    // DELETE ... WHERE key
    method DeleteItem(pk: string, rk: Option<string>)
      requires Shaped() && rk.Some? == hasRK
      modifies this
      ensures Shaped() && rows == old(rows) - {KeyOf(pk, rk)}
    {
      rows := map k | k in rows && !Matches(k, pk, rk) :: rows[k];
    }
  }

  // ---------- endpoints ----------

  // The local variables of a PATCH between its read and its conditional update.
  datatype Locals = Locals(pk: string, rk: string, merged: Fields, updatedAt: int)

  // The item endpoints of one table. The ghost fields are the protocol's bookkeeping.
  class Server {
    const th: TableHandler
    const store: Store
    var inFlight: map<nat, Locals>
    ghost var pending: map<nat, Pending>
    ghost var history: seq<Commit>
    ghost var replies: seq<Reply>

    constructor (th: TableHandler)
      ensures Valid() && fresh(store) && this.th == th && St() == Empty
    {
      this.th := th;
      store := new Store(th.HasRK());
      inFlight, pending, history, replies := map[], map[], [], [];
    }

    ghost predicate Valid()
      reads this, store
    {
      && store.Shaped() && store.hasRK == th.HasRK()
      && inFlight.Keys == pending.Keys
      && forall c | c in pending ::
           && pending[c].key == th.RowKey(inFlight[c].pk, inFlight[c].rk)
           && pending[c].merged == inFlight[c].merged && pending[c].updatedAt == inFlight[c].updatedAt
    }

    ghost function St(): State
      reads this, store
    {
      State(store.rows, pending, history, replies)
    }

    // rkPtr is nil for a table without a range key.
    function RkPtr(rk: string): Option<string> {
      if th.HasRK() then Some(rk) else None
    }

    method HandleGet(pk: string, rk: string) returns (status: int, body: Fields)
      requires Valid()
      modifies this
      ensures Valid() && St() == Next(th, old(St()), Get(pk, rk))
      ensures replies != [] && LastReply(St()) == GetReply(th.RowKey(pk, rk), |history|, status, body)
      ensures var key := Named(th, pk, rk);
              && status == (if BadKey(th, pk, rk) then 400 else if key !in store.rows then 404 else 200)
              && (status == 200 ==> Shows(th, body, key, store.rows[key].data))
    {
      GetAnswers(th, St(), pk, rk);
      status, body := 400, map[];
      var key := th.RowKey(pk, rk);
      if th.KeyOk(pk, rk) {
        var data := store.GetItem(pk, RkPtr(rk));
        if data.None? {
          status := 404;
        } else {
          var injected := InjectKeys(data.value, th.pkField, pk, th.rkField, key.rk);
          status, body := 200, Payload(injected);
        }
      }
      replies := replies + [GetReply(key, |history|, status, body)];
    }

    method HandlePut(pk: string, rk: string, body: Option<Json>, now: int) returns (status: int, answer: Fields)
      requires Valid()
      modifies this, store
      ensures Valid() && St() == Next(th, old(St()), Put(pk, rk, body, now))
      ensures replies != [] && LastReply(St()) == PutReply(th.RowKey(pk, rk), |history|, status, answer)
      ensures status == if PutRefused(th, pk, rk, body) then 400 else 200
      ensures status == 200 ==> Shows(th, answer, Named(th, pk, rk), DocOf(body).fields)
    {
      PutAnswers(th, St(), pk, rk, body, now);
      status, answer := 400, map[];
      var key := th.RowKey(pk, rk);
      if th.KeyOk(pk, rk) && PutAccepted(th, key, body) {
        var stripped := StripKeys(Decoded(body).value, th.pkField, th.rkField);
        store.PutItem(pk, RkPtr(rk), stripped, now);
        history := history + [Wrote(key, stripped)];
        var result := InjectKeys(stripped, th.pkField, pk, th.rkField, key.rk);
        status, answer := 200, Payload(result);
      }
      replies := replies + [PutReply(key, |history|, status, answer)];
    }

    method HandleDelete(pk: string, rk: string) returns (status: int)
      requires Valid()
      modifies this, store
      ensures Valid() && St() == Next(th, old(St()), Delete(pk, rk))
      ensures replies != [] && LastReply(St()) == DeleteReply(th.RowKey(pk, rk), |history|, status)
      ensures status == if BadKey(th, pk, rk) then 400 else 204
    {
      DeleteAnswers(th, St(), pk, rk);
      status := 400;
      if th.KeyOk(pk, rk) {
        store.DeleteItem(pk, RkPtr(rk));
        history := history + [Removed(th.RowKey(pk, rk))];
        status := 204;
      }
      replies := replies + [DeleteReply(th.RowKey(pk, rk), |history|, status)];
    }

    // The first half of a PATCH: the checks, the read, the merge and the schema check. The request is
    // answered with a status, or goes on to its conditional update.
    method BeginPatch(client: nat, pk: string, rk: string, body: Option<Json>) returns (status: Option<int>)
      requires Valid()
      modifies this
      ensures Valid() && St() == Next(th, old(St()), PatchRead(client, pk, rk, body))
      ensures old(client !in pending) ==> (status.None? <==> client in pending)
      ensures status.Some? ==>
                && replies != [] && LastReply(St()).PatchReply?
                && LastReply(St()).status == status.value && LastReply(St()).body == map[]
      ensures old(client !in pending) && PatchRefused(th, pk, rk, body) ==> status == Some(400)
      ensures old(client !in pending) && !PatchRefused(th, pk, rk, body) ==>
                (status == Some(404) <==> Named(th, pk, rk) !in store.rows)
    {
      if client in inFlight {
        return None;
      }
      PatchRefusedIff(th, pk, rk, body);
      var key := th.RowKey(pk, rk);
      if !th.KeyOk(pk, rk) || !PatchAccepted(th, key, body) {
        replies := replies + [PatchReply(key, map[], |history|, |history|, 400, map[])];
        return Some(400);
      }
      var patch := Decoded(body).value;
      var existing := store.GetItemForUpdate(pk, RkPtr(rk));
      if existing.None? {
        replies := replies + [PatchReply(key, patch, |history|, |history|, 404, map[])];
        return Some(404);
      }
      var mergedData := MergeInPlace.MergeDecoded(existing.value.data, patch);
      var merged := InjectKeys(mergedData, th.pkField, pk, th.rkField, key.rk);
      if !th.schemaOk(Obj(merged)) {
        replies := replies + [PatchReply(key, patch, |history|, |history|, 400, map[])];
        return Some(400);
      }
      inFlight := inFlight[client := Locals(pk, rk, merged, existing.value.updatedAt)];
      pending := pending[client := Pending(key, patch, merged, existing.value.updatedAt, |history|)];
      return None;
    }

    // The second half: the conditional update, from the variables that the first half left.
    method FinishPatch(client: nat, now: int) returns (status: int, answer: Fields)
      requires Valid()
      modifies this, store
      ensures Valid() && St() == Next(th, old(St()), PatchCommit(client, now))
      ensures old(client in pending) ==>
                && replies != [] && LastReply(St()).PatchReply?
                && LastReply(St()).status == status && LastReply(St()).body == answer
    {
      status, answer := 409, map[];
      if client !in inFlight {
        return;
      }
      var local := inFlight[client];
      ghost var p := pending[client];
      var stripped := StripKeys(local.merged, th.pkField, th.rkField);
      var updated := store.PutItemIfUnchanged(local.pk, RkPtr(local.rk), stripped, local.updatedAt, now);
      assert updated <==> Unchanged(old(store.rows), p);
      inFlight, pending := inFlight - {client}, pending - {client};
      if updated {
        history := history + [Patched(p.key, p.patch)];
        status, answer := 200, Payload(local.merged);
      }
      replies := replies + [PatchReply(p.key, p.patch, p.readAt, |history|, status, answer)];
    }

    // Any requests, in any interleaving of their statements.
    method Serve(events: seq<Event>)
      requires Valid()
      modifies this, store
      ensures Valid() && St() == Run(th, old(St()), events)
    {
      ghost var s := St();
      for i := 0 to |events|
        invariant Valid() && St() == Run(th, s, events[..i])
      {
        assert events[..i + 1] == events[..i] + [events[i]];
        RunStep(th, s, events[..i], events[i]);
        match events[i] {
          case Get(pk, rk) => var _, _ := HandleGet(pk, rk);
          case Put(pk, rk, body, now) => var _, _ := HandlePut(pk, rk, body, now);
          case Delete(pk, rk) => var _ := HandleDelete(pk, rk);
          case PatchRead(client, pk, rk, body) => var _ := BeginPatch(client, pk, rk, body);
          case PatchCommit(client, now) => var _, _ := FinishPatch(client, now);
        }
      }
      assert events[..|events|] == events;
    }

    // A whole PATCH, with other requests served between its two statements.
    method HandlePatch(client: nat, pk: string, rk: string, body: Option<Json>, others: seq<Event>, now: int)
      returns (status: int, answer: Fields)
      requires Valid() && client !in pending
      requires forall i | 0 <= i < |others| :: !Finishes(others[i], client)
      modifies this, store
      ensures Valid()
      ensures St() == PatchAmong(th, old(St()), client, pk, rk, body, others, now)
      ensures replies != [] && LastReply(St()).PatchReply? && LastReply(St()).status == status
          && LastReply(St()).body == answer
      ensures PatchRefused(th, pk, rk, body) ==> status == 400
      ensures !PatchRefused(th, pk, rk, body) && Named(th, pk, rk) !in old(store.rows) ==> status == 404
    {
      answer := map[];
      var early := BeginPatch(client, pk, rk, body);
      if early.Some? {
        return early.value, map[];
      }
      ghost var begun := St();
      Serve(others);
      OthersLeavePending(th, begun, others, client);
      status, answer := FinishPatch(client, now);
    }
  }

  // A PATCH and, if it gets past its read, the requests served before its conditional update.
  function PatchAmong(th: TableHandler, s: State, client: nat, pk: string, rk: string, body: Option<Json>,
                      others: seq<Event>, now: int): State {
    var begun := Next(th, s, PatchRead(client, pk, rk, body));
    if client in begun.pending then Next(th, Run(th, begun, others), PatchCommit(client, now)) else begun
  }

  predicate Finishes(e: Event, client: nat) {
    e.PatchCommit? && e.client == client
  }

  lemma NextLeavesPending(th: TableHandler, s: State, e: Event, client: nat)
    requires client in s.pending && !Finishes(e, client)
    ensures client in Next(th, s, e).pending && Next(th, s, e).pending[client] == s.pending[client]
  {
  }

  lemma {:induction false} OthersLeavePending(th: TableHandler, s: State, others: seq<Event>, client: nat)
    requires client in s.pending
    requires forall i | 0 <= i < |others| :: !Finishes(others[i], client)
    ensures client in Run(th, s, others).pending && Run(th, s, others).pending[client] == s.pending[client]
  {
    if others != [] {
      var last := |others| - 1;
      OthersLeavePending(th, s, others[..last], client);
      NextLeavesPending(th, Run(th, s, others[..last]), others[last], client);
    }
  }
}
