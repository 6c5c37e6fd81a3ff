/** The item protocol of one table as a state machine. Each SQL statement is one atomic step; a PATCH is
    two of them, a read and a conditional update, with any other requests in between. */
module Items {
  import opened Text
  import opened JsonValues
  import opened Documents
  import opened Rows

  // ---------- requests ----------

  // rkField is empty for a table without a range key. The patterns and the schema are abstract.
  datatype TableHandler = TableHandler(pkField: string, rkField: string, pkPatternOk: string -> bool,
                                       rkPatternOk: string -> bool, schemaOk: Json -> bool) {
    predicate HasRK() { rkField != "" }

    // The URL values name a key of this table.
    predicate KeyOk(pk: string, rk: string) {
      && KeyValueOk(pk) && pkPatternOk(pk)
      && (HasRK() ==> KeyValueOk(rk) && rkPatternOk(rk))
    }

    function RowKey(pk: string, rk: string): Key { Key(pk, if HasRK() then rk else "") }

    function Strip(data: Fields): Fields { Stripped(data, pkField, rkField) }

    function Inject(data: Fields, key: Key): Fields { Injected(data, pkField, key.pk, rkField, key.rk) }

    predicate Carries(data: Fields, key: Key) { CarriesKeys(data, pkField, key.pk, rkField, key.rk) }
  }

  // A body decoded into a document: an object, or null for no members at all. None is a body that is not JSON.
  function Decoded(body: Option<Json>): Option<Fields> {
    match body
    case Some(Obj(m)) => Some(m)
    case Some(Null) => Some(map[])
    case _ => None
  }

  // A key field in a body, if there, must be a string equal to the value in the URL.
  predicate FieldMatches(doc: Fields, field: string, value: string) {
    field in doc ==> doc[field] == Str(value)
  }

  predicate PutAccepted(th: TableHandler, key: Key, body: Option<Json>) {
    && Decoded(body).Some?
    && KeysOk(body.value)
    && FieldMatches(Decoded(body).value, th.pkField, key.pk)
    && (th.HasRK() ==> FieldMatches(Decoded(body).value, th.rkField, key.rk))
    && th.schemaOk(body.value)
  }

  predicate PatchAccepted(th: TableHandler, key: Key, body: Option<Json>) {
    && Decoded(body).Some?
    && KeysOk(body.value)
    && th.Carries(Decoded(body).value, key)
  }

  // The document answered with: its fields and "_type".
  function Payload(data: Fields): Fields {
    data["_type" := Str("item")]
  }

  // ---------- states ----------

  // A PATCH between its read and its conditional update: the merged document with keys, the stamp it
  // read, and the number of commits at that time.
  datatype Pending = Pending(key: Key, patch: Fields, merged: Fields, updatedAt: int, readAt: nat)

  datatype Commit = Wrote(key: Key, data: Fields) | Removed(key: Key) | Patched(key: Key, patch: Fields)

  // What was answered, after how many commits.
  datatype Reply =
    | GetReply(key: Key, at: nat, status: int, body: Fields)
    | PutReply(key: Key, at: nat, status: int, body: Fields)
    | DeleteReply(key: Key, at: nat, status: int)
    | PatchReply(key: Key, patch: Fields, readAt: nat, at: nat, status: int, body: Fields)

  datatype State = State(table: Table, pending: map<nat, Pending>, history: seq<Commit>, replies: seq<Reply>)

  const Empty := State(map[], map[], [], [])

  datatype Event =
    | Get(pk: string, rk: string)
    | Put(pk: string, rk: string, body: Option<Json>, now: int)
    | Delete(pk: string, rk: string)
    | PatchRead(client: nat, pk: string, rk: string, body: Option<Json>)
    | PatchCommit(client: nat, now: int)

  function Answer(s: State, reply: Reply): State {
    s.(replies := s.replies + [reply])
  }

  function LastReply(s: State): Reply
    requires s.replies != []
  {
    s.replies[|s.replies| - 1]
  }

  function Next(th: TableHandler, s: State, e: Event): State {
    match e
    case Get(pk, rk) => NextGet(th, s, pk, rk)
    case Put(pk, rk, body, now) => NextPut(th, s, pk, rk, body, now)
    case Delete(pk, rk) => NextDelete(th, s, pk, rk)
    case PatchRead(client, pk, rk, body) => NextPatchRead(th, s, client, pk, rk, body)
    case PatchCommit(client, now) => NextPatchCommit(th, s, client, now)
  }

  function NextGet(th: TableHandler, s: State, pk: string, rk: string): State {
    var key := th.RowKey(pk, rk);
    if !th.KeyOk(pk, rk) then Answer(s, GetReply(key, |s.history|, 400, map[]))
    else if key !in s.table then Answer(s, GetReply(key, |s.history|, 404, map[]))
    else Answer(s, GetReply(key, |s.history|, 200, Payload(th.Inject(s.table[key].data, key))))
  }

  function NextPut(th: TableHandler, s: State, pk: string, rk: string, body: Option<Json>, now: int): State {
    var key := th.RowKey(pk, rk);
    if !th.KeyOk(pk, rk) || !PutAccepted(th, key, body) then Answer(s, PutReply(key, |s.history|, 400, map[]))
    else
      var stripped := th.Strip(Decoded(body).value);
      var after := s.(table := s.table[key := Row(stripped, now)], history := s.history + [Wrote(key, stripped)]);
      Answer(after, PutReply(key, |after.history|, 200, Payload(th.Inject(stripped, key))))
  }

  function NextDelete(th: TableHandler, s: State, pk: string, rk: string): State {
    var key := th.RowKey(pk, rk);
    if !th.KeyOk(pk, rk) then Answer(s, DeleteReply(key, |s.history|, 400))
    else
      var after := s.(table := s.table - {key}, history := s.history + [Removed(key)]);
      Answer(after, DeleteReply(key, |after.history|, 204))
  }

  // A client stands for one request, so a client with a pending PATCH does not start another.
  function NextPatchRead(th: TableHandler, s: State, client: nat, pk: string, rk: string, body: Option<Json>): State {
    var key, at := th.RowKey(pk, rk), |s.history|;
    if client in s.pending then s
    else if !th.KeyOk(pk, rk) || !PatchAccepted(th, key, body) then
      Answer(s, PatchReply(key, map[], at, at, 400, map[]))
    else
      var patch := Decoded(body).value;
      if key !in s.table then Answer(s, PatchReply(key, patch, at, at, 404, map[]))
      else
        var merged := th.Inject(Merge(s.table[key].data, patch), key);
        if !th.schemaOk(Obj(merged)) then Answer(s, PatchReply(key, patch, at, at, 400, map[]))
        else s.(pending := s.pending[client := Pending(key, patch, merged, s.table[key].updatedAt, at)])
  }

  // UPDATE ... WHERE the key matches AND updated_at is still the stamp that was read.
  predicate Unchanged(table: Table, p: Pending) {
    p.key in table && table[p.key].updatedAt == p.updatedAt
  }

  function NextPatchCommit(th: TableHandler, s: State, client: nat, now: int): State {
    if client !in s.pending then s
    else
      var p := s.pending[client];
      var done := s.(pending := s.pending - {client});
      if !Unchanged(s.table, p) then Answer(done, PatchReply(p.key, p.patch, p.readAt, |s.history|, 409, map[]))
      else
        var after := done.(table := s.table[p.key := Row(th.Strip(p.merged), now)],
                           history := s.history + [Patched(p.key, p.patch)]);
        Answer(after, PatchReply(p.key, p.patch, p.readAt, |after.history|, 200, Payload(p.merged)))
  }

  function Run(th: TableHandler, s: State, events: seq<Event>): State {
    if events == [] then s else Next(th, Run(th, s, events[..|events| - 1]), events[|events| - 1])
  }

  // ---------- the assumption on now() ----------

  // A write of a key never gets the stamp that another PATCH of the key, still to be committed, has read.
  predicate FreshStamp(th: TableHandler, s: State, e: Event) {
    match e
    case Put(pk, rk, _, now) =>
      forall c | c in s.pending && s.pending[c].key == th.RowKey(pk, rk) :: s.pending[c].updatedAt != now
    case PatchCommit(client, now) =>
      client in s.pending ==>
        forall c | c in s.pending && c != client && s.pending[c].key == s.pending[client].key ::
          s.pending[c].updatedAt != now
    case _ => true
  }

  predicate FreshRun(th: TableHandler, s: State, events: seq<Event>) {
    events == [] ||
    (FreshRun(th, s, events[..|events| - 1])
     && FreshStamp(th, Run(th, s, events[..|events| - 1]), events[|events| - 1]))
  }

  // ---------- sequential replay ----------

  // A PATCH as one atomic step on the document as it stands.
  function AtomicPatch(th: TableHandler, key: Key, data: Fields, patch: Fields): Fields {
    th.Inject(Merge(data, patch), key)
  }

  function Apply(th: TableHandler, docs: map<Key, Fields>, c: Commit): map<Key, Fields> {
    match c
    case Wrote(key, data) => docs[key := data]
    case Removed(key) => docs - {key}
    case Patched(key, patch) =>
      if key in docs then docs[key := th.Strip(AtomicPatch(th, key, docs[key], patch))] else docs
  }

  function Replay(th: TableHandler, history: seq<Commit>): map<Key, Fields> {
    if history == [] then map[] else Apply(th, Replay(th, history[..|history| - 1]), history[|history| - 1])
  }

  function Contents(table: Table): map<Key, Fields> {
    map k | k in table :: table[k].data
  }

  predicate CommittedSince(history: seq<Commit>, from: nat, key: Key) {
    exists i :: from <= i < |history| && history[i].key == key
  }

  // An answer is what the sequential replay gives at its place in the history.
  predicate ReplyOk(th: TableHandler, history: seq<Commit>, r: Reply) {
    r.at <= |history| &&
    match r
    case GetReply(key, at, status, body) =>
      var docs := Replay(th, history[..at]);
      && (status == 200 ==> key in docs && body == Payload(th.Inject(docs[key], key)))
      && (status == 404 ==> key !in docs)
    case PutReply(key, at, status, body) =>
      status == 200 ==>
        at > 0 && history[at - 1].Wrote? && history[at - 1].key == key
            && body == Payload(th.Inject(history[at - 1].data, key))
    case DeleteReply(key, at, status) => status == 204 ==> at > 0 && history[at - 1] == Removed(key)
    case PatchReply(key, patch, readAt, at, status, body) =>
      && (status == 200 ==>
            at > 0 && history[at - 1] == Patched(key, patch)
            && var before := Replay(th, history[..at - 1]);
               key in before && body == Payload(AtomicPatch(th, key, before[key], patch)))
      && (status == 404 ==> key !in Replay(th, history[..at]))
      && (status == 409 ==> readAt <= at && CommittedSince(history[..at], readAt, key))
      && (status == 200 ==> readAt < at && !CommittedSince(history[..at - 1], readAt, key))
  }

  // ---------- the invariant ----------

  // Its row is as it was read exactly if nothing was committed on its key since, and then the
  // document merged at the read is the one an atomic merge would give now.
  predicate PendingOk(th: TableHandler, table: Table, history: seq<Commit>, p: Pending) {
    && p.readAt <= |history|
    && (Unchanged(table, p) <==> !CommittedSince(history, p.readAt, p.key))
    && (Unchanged(table, p) ==> p.merged == AtomicPatch(th, p.key, table[p.key].data, p.patch))
  }

  predicate Inv(th: TableHandler, s: State) {
    && Contents(s.table) == Replay(th, s.history)
    && (forall c | c in s.pending :: PendingOk(th, s.table, s.history, s.pending[c]))
    && (forall i | 0 <= i < |s.replies| :: ReplyOk(th, s.history, s.replies[i]))
  }

  lemma ReplyStaysOk(th: TableHandler, history: seq<Commit>, c: Commit, r: Reply)
    requires ReplyOk(th, history, r)
    ensures ReplyOk(th, history + [c], r)
  {
    assert (history + [c])[..r.at] == history[..r.at];
    assert r.at > 0 ==> (history + [c])[..r.at - 1] == history[..r.at - 1];
  }

  // One commit on a key, with a stamp that p did not read if it writes, outdates p exactly if it is on p's key.
  lemma PendingStaysOk(th: TableHandler, s: State, c: Commit, row: Option<Row>, p: Pending)
    requires PendingOk(th, s.table, s.history, p)
    requires row.Some? && c.key == p.key ==> row.value.updatedAt != p.updatedAt
    ensures var table := if row.Some? then s.table[c.key := row.value] else s.table - {c.key};
            PendingOk(th, table, s.history + [c], p)
  {
    var history := s.history + [c];
    if c.key == p.key {
      assert history[|s.history|].key == p.key;
      assert CommittedSince(history, p.readAt, p.key);
    } else {
      assert CommittedSince(history, p.readAt, p.key) ==> CommittedSince(s.history, p.readAt, p.key);
      if CommittedSince(s.history, p.readAt, p.key) {
        var i :| p.readAt <= i < |s.history| && s.history[i].key == p.key;
        assert history[i].key == p.key;
      }
    }
  }

  lemma Committed(th: TableHandler, s: State, after: State, c: Commit, row: Option<Row>)
    requires Inv(th, s)
    requires after.table == if row.Some? then s.table[c.key := row.value] else s.table - {c.key}
    requires after.history == s.history + [c]
    requires forall d | d in after.pending :: d in s.pending && after.pending[d] == s.pending[d]
    requires forall d | d in after.pending && row.Some? && after.pending[d].key == c.key ::
               row.value.updatedAt != after.pending[d].updatedAt
    requires Contents(after.table) == Apply(th, Contents(s.table), c)
    requires after.replies == s.replies
    ensures Inv(th, after)
  {
    assert after.history[..|s.history|] == s.history;
    forall d | d in after.pending
      ensures PendingOk(th, after.table, after.history, after.pending[d])
    {
      PendingStaysOk(th, s, c, row, s.pending[d]);
    }
    forall i | 0 <= i < |s.replies|
      ensures ReplyOk(th, after.history, s.replies[i])
    {
      ReplyStaysOk(th, s.history, c, s.replies[i]);
    }
  }

  lemma AnswerKeepsInv(th: TableHandler, s: State, reply: Reply)
    requires Inv(th, s) && ReplyOk(th, s.history, reply)
    ensures Inv(th, Answer(s, reply))
  {
  }

  lemma PendingKeepsInv(th: TableHandler, s: State, client: nat, p: Pending)
    requires Inv(th, s) && PendingOk(th, s.table, s.history, p)
    ensures Inv(th, s.(pending := s.pending[client := p]))
  {
  }

  lemma NextKeepsInv(th: TableHandler, s: State, e: Event)
    requires Inv(th, s) && FreshStamp(th, s, e)
    ensures Inv(th, Next(th, s, e))
  {
    match e
    case Get(pk, rk) => GetKeepsInv(th, s, pk, rk);
    case Put(pk, rk, body, now) => PutKeepsInv(th, s, pk, rk, body, now);
    case Delete(pk, rk) => DeleteKeepsInv(th, s, pk, rk);
    case PatchRead(client, pk, rk, body) => PatchReadKeepsInv(th, s, client, pk, rk, body);
    case PatchCommit(client, now) => PatchCommitKeepsInv(th, s, client, now);
  }

  lemma GetKeepsInv(th: TableHandler, s: State, pk: string, rk: string)
    requires Inv(th, s)
    ensures Inv(th, NextGet(th, s, pk, rk))
  {
    assert s.history[..|s.history|] == s.history;
    AnswerKeepsInv(th, s, LastReply(NextGet(th, s, pk, rk)));
  }

  lemma PutKeepsInv(th: TableHandler, s: State, pk: string, rk: string, body: Option<Json>, now: int)
    requires Inv(th, s) && FreshStamp(th, s, Put(pk, rk, body, now))
    ensures Inv(th, NextPut(th, s, pk, rk, body, now))
  {
    var key, after := th.RowKey(pk, rk), s;
    if th.KeyOk(pk, rk) && PutAccepted(th, key, body) {
      var stripped := th.Strip(Decoded(body).value);
      var row, c := Row(stripped, now), Wrote(key, stripped);
      after := s.(table := s.table[key := row], history := s.history + [c]);
      assert Contents(after.table) == Apply(th, Contents(s.table), c);
      Committed(th, s, after, c, Some(row));
    }
    AnswerKeepsInv(th, after, LastReply(NextPut(th, s, pk, rk, body, now)));
  }

  lemma DeleteKeepsInv(th: TableHandler, s: State, pk: string, rk: string)
    requires Inv(th, s)
    ensures Inv(th, NextDelete(th, s, pk, rk))
  {
    var key, after := th.RowKey(pk, rk), s;
    if th.KeyOk(pk, rk) {
      after := s.(table := s.table - {key}, history := s.history + [Removed(key)]);
      assert Contents(after.table) == Apply(th, Contents(s.table), Removed(key));
      Committed(th, s, after, Removed(key), None);
    }
    AnswerKeepsInv(th, after, LastReply(NextDelete(th, s, pk, rk)));
  }

  lemma PatchReadKeepsInv(th: TableHandler, s: State, client: nat, pk: string, rk: string, body: Option<Json>)
    requires Inv(th, s)
    ensures Inv(th, NextPatchRead(th, s, client, pk, rk, body))
  {
    var after := NextPatchRead(th, s, client, pk, rk, body);
    if client !in s.pending {
      if client in after.pending {
        var p := after.pending[client];
        assert after == s.(pending := s.pending[client := p]);
        assert !CommittedSince(s.history, p.readAt, p.key);
        PendingKeepsInv(th, s, client, p);
      } else {
        assert after == Answer(s, LastReply(after));
        assert s.history[..|s.history|] == s.history;
        AnswerKeepsInv(th, s, LastReply(after));
      }
    }
  }

  lemma PatchCommitKeepsInv(th: TableHandler, s: State, client: nat, now: int)
    requires Inv(th, s) && FreshStamp(th, s, PatchCommit(client, now))
    ensures Inv(th, NextPatchCommit(th, s, client, now))
  {
    if client in s.pending {
      var p, after := s.pending[client], s.(pending := s.pending - {client});
      assert PendingOk(th, s.table, s.history, p);
      assert s.history[..|s.history|] == s.history;
      if Unchanged(s.table, p) {
        var row, c := Row(th.Strip(p.merged), now), Patched(p.key, p.patch);
        after := after.(table := s.table[p.key := row], history := s.history + [c]);
        assert Contents(after.table) == Apply(th, Contents(s.table), c);
        Committed(th, s, after, c, Some(row));
        assert after.history[..|after.history| - 1] == s.history;
      }
      AnswerKeepsInv(th, after, LastReply(NextPatchCommit(th, s, client, now)));
    }
  }

  // ---------- the theorems ----------

  lemma {:induction false} RunKeepsInv(th: TableHandler, s: State, events: seq<Event>)
    requires Inv(th, s) && FreshRun(th, s, events)
    ensures Inv(th, Run(th, s, events))
  {
    if events != [] {
      RunKeepsInv(th, s, events[..|events| - 1]);
      NextKeepsInv(th, Run(th, s, events[..|events| - 1]), events[|events| - 1]);
    }
  }

  // Whatever the interleaving, the table holds the sequential replay of the commits, each successful
  // PATCH acting as one atomic merge on the document just before it, and every answer agrees.
  lemma NoLostUpdates(th: TableHandler, events: seq<Event>)
    requires FreshRun(th, Empty, events)
    ensures var s := Run(th, Empty, events);
            && Contents(s.table) == Replay(th, s.history)
            && forall i | 0 <= i < |s.replies| :: ReplyOk(th, s.history, s.replies[i])
  {
    assert Contents(Empty.table) == map[];
    RunKeepsInv(th, Empty, events);
  }

  // The conditional update of a PATCH is refused exactly when some write or delete of its key was
  // committed since its read; a refusal changes no row and commits nothing.
  lemma ConflictIff(th: TableHandler, events: seq<Event>, client: nat, now: int)
    requires FreshRun(th, Empty, events)
    requires client in Run(th, Empty, events).pending
    ensures var s := Run(th, Empty, events);
            var p, after := s.pending[client], Next(th, s, PatchCommit(client, now));
            var reply := after.replies[|s.replies|];
            && (reply.status == 409 <==> CommittedSince(s.history, p.readAt, p.key))
            && (reply.status == 200 <==> !CommittedSince(s.history, p.readAt, p.key))
            && (reply.status == 409 ==> after.table == s.table && after.history == s.history)
  {
    assert Contents(Empty.table) == map[];
    RunKeepsInv(th, Empty, events);
    var s := Run(th, Empty, events);
    assert PendingOk(th, s.table, s.history, s.pending[client]);
  }

  // What a GET of the key answers in state s.
  function Seen(th: TableHandler, s: State, pk: string, rk: string): Reply {
    LastReply(NextGet(th, s, pk, rk))
  }

  // An accepted PUT is answered with the document and the key fields, and a GET then sees the same.
  lemma PutThenGet(th: TableHandler, s: State, pk: string, rk: string, body: Option<Json>, now: int)
    requires th.KeyOk(pk, rk) && PutAccepted(th, th.RowKey(pk, rk), body) && th.pkField != th.rkField
    ensures var key, after := th.RowKey(pk, rk), Next(th, s, Put(pk, rk, body, now));
            && LastReply(after).status == Seen(th, after, pk, rk).status == 200
            && LastReply(after).body == Seen(th, after, pk, rk).body == Payload(th.Inject(Decoded(body).value, key))
  {
    var key := th.RowKey(pk, rk);
    InjectUndoesStrip(Decoded(body).value, th.pkField, key.pk, th.rkField, key.rk);
  }

  lemma DeleteThenGet(th: TableHandler, s: State, pk: string, rk: string)
    requires th.KeyOk(pk, rk)
    ensures var after := Next(th, s, Delete(pk, rk));
            LastReply(after).status == 204 && Seen(th, after, pk, rk).status == 404
  {
  }

  // A PATCH that succeeds answers with what a GET sees next.
  lemma PatchThenGet(th: TableHandler, s: State, client: nat, now: int, pk: string, rk: string)
    requires Inv(th, s) && client in s.pending && s.pending[client].key == th.RowKey(pk, rk)
    requires th.KeyOk(pk, rk) && th.pkField != th.rkField
    ensures var after := Next(th, s, PatchCommit(client, now));
            LastReply(after).status == 200 ==>
              Seen(th, after, pk, rk).status == 200 && Seen(th, after, pk, rk).body == LastReply(after).body
  {
    var p := s.pending[client];
    assert PendingOk(th, s.table, s.history, p);
    if Unchanged(s.table, p) {
      InjectUndoesStrip(Merge(s.table[p.key].data, p.patch), th.pkField, p.key.pk, th.rkField, p.key.rk);
      InjectUndoesStrip(p.merged, th.pkField, p.key.pk, th.rkField, p.key.rk);
    }
  }

  // An acceptable PATCH of an existing item that nothing comes between succeeds: it answers with the
  // merged document, stores it without the key fields, and touches no other row.
  lemma UndisturbedPatch(th: TableHandler, s: State, client: nat, pk: string, rk: string, body: Option<Json>, now: int)
    requires var key := th.RowKey(pk, rk);
             && client !in s.pending && th.KeyOk(pk, rk) && PatchAccepted(th, key, body) && key in s.table
             && th.schemaOk(Obj(AtomicPatch(th, key, s.table[key].data, Decoded(body).value)))
    ensures var key := th.RowKey(pk, rk);
            var doc := AtomicPatch(th, key, s.table[key].data, Decoded(body).value);
            var after := Next(th, Next(th, s, PatchRead(client, pk, rk, body)), PatchCommit(client, now));
            && LastReply(after).status == 200 && LastReply(after).body == Payload(doc)
            && after.table == s.table[key := Row(th.Strip(doc), now)] && after.pending == s.pending
  {
    var read := Next(th, s, PatchRead(client, pk, rk, body));
    assert client in read.pending && Unchanged(read.table, read.pending[client]);
    assert read.pending - {client} == s.pending;
  }

  // ---------- without fresh stamps ----------

  // The event writes the row of this key, with this stamp.
  predicate Writes(th: TableHandler, s: State, e: Event, key: Key, now: int) {
    match e
    case Put(pk, rk, body, stamp) =>
      th.KeyOk(pk, rk) && th.RowKey(pk, rk) == key && PutAccepted(th, key, body) && stamp == now
    case PatchCommit(client, stamp) =>
      && client in s.pending && s.pending[client].key == key && Unchanged(s.table, s.pending[client]) && stamp == now
    case _ => false
  }

  // The assumption is no stronger than needed: after any write of its row, by a PUT or by another PATCH, a pending
  // PATCH is refused exactly if the stamp of the write is not the one it has read.
  lemma StampDecides(th: TableHandler, s: State, e: Event, now: int, client: nat, later: int)
    requires client in s.pending && Writes(th, s, e, s.pending[client].key, now)
    requires e.PatchCommit? ==> e.client != client
    ensures var p, written := s.pending[client], Next(th, s, e);
            var after := Next(th, written, PatchCommit(client, later));
            && CommittedSince(written.history, |s.history|, p.key)
            && after.replies != [] && LastReply(after).PatchReply?
            && LastReply(after).status == if now == p.updatedAt then 200 else 409
  {
    var p, written := s.pending[client], Next(th, s, e);
    assert |written.history| == |s.history| + 1 && written.history[|s.history|].key == p.key;
    assert client in written.pending && written.pending[client] == p;
    assert p.key in written.table && written.table[p.key].updatedAt == now;
  }

  const PLAIN := TableHandler("id", "", (_: string) => true, (_: string) => true, (_: Json) => true)

  function Doc(field: string, value: string): Option<Json> {
    Some(Obj(map["id" := Str("k"), field := Str(value)]))
  }

  lemma RunStep(th: TableHandler, s: State, events: seq<Event>, e: Event)
    ensures Run(th, s, events + [e]) == Next(th, Run(th, s, events), e)
  {
    assert (events + [e])[..|events|] == events;
  }

  lemma ReplayStep(th: TableHandler, history: seq<Commit>, c: Commit)
    ensures Replay(th, history + [c]) == Apply(th, Replay(th, history), c)
  {
    assert (history + [c])[..|history|] == history;
  }

  const KEY := Key("k", "")
  const PATCH: Fields := map["id" := Str("k"), "b" := Str("2")]

  // Two writes of one key under one stamp: the PATCH that read the first overwrites the second unseen.
  const SAME_STAMP := [Put("k", "", Doc("a", "1"), 5), PatchRead(0, "k", "", Doc("b", "2")),
                       Put("k", "", Doc("a", "3"), 5), PatchCommit(0, 6)]

  const FIRST: Commit := Wrote(KEY, map["a" := Str("1")])
  const SECOND: Commit := Wrote(KEY, map["a" := Str("3")])

  // The table holds one row, the PATCH is pending or not, and the history is as given.
  predicate At(s: State, row: Row, pending: bool, history: seq<Commit>) {
    && s.table == map[KEY := row] && s.history == history && (pending <==> 0 in s.pending)
    && (pending ==> s.pending[0].key == KEY && s.pending[0].patch == PATCH && s.pending[0].updatedAt == 5
                    && PLAIN.Strip(s.pending[0].merged) == map["a" := Str("1"), "b" := Str("2")])
  }

  lemma DocAccepted(field: string, value: string)
    requires field == "a" || field == "b"
    ensures PutAccepted(PLAIN, KEY, Doc(field, value)) && PatchAccepted(PLAIN, KEY, Doc(field, value))
  {
    assert KeysOk(Doc(field, value).value);
  }

  lemma PutDoc(s: State, value: string)
    ensures var after := Next(PLAIN, s, Put("k", "", Doc("a", value), 5));
            && after.table == s.table[KEY := Row(map["a" := Str(value)], 5)] && after.pending == s.pending
            && after.history == s.history + [Wrote(KEY, map["a" := Str(value)])]
  {
    DocAccepted("a", value);
    assert PLAIN.Strip(Doc("a", value).value.fields) == map["a" := Str(value)];
  }

  lemma MergedDoc(value: string)
    ensures Merge(map["a" := Str(value)], PATCH) == map["id" := Str("k"), "a" := Str(value), "b" := Str("2")]
  {
  }

  lemma PatchedDoc(value: string)
    ensures PLAIN.Strip(AtomicPatch(PLAIN, KEY, map["a" := Str(value)], PATCH))
            == map["a" := Str(value), "b" := Str("2")]
  {
    MergedDoc(value);
    var merged: Fields := map["id" := Str("k"), "a" := Str(value), "b" := Str("2")];
    assert PLAIN.Inject(merged, KEY) == merged;
    assert PLAIN.Strip(merged) == map["a" := Str(value), "b" := Str("2")];
  }

  lemma ReadDoc(s: State)
    requires At(s, Row(map["a" := Str("1")], 5), false, [FIRST])
    ensures At(Next(PLAIN, s, PatchRead(0, "k", "", Doc("b", "2"))), Row(map["a" := Str("1")], 5), true, [FIRST])
  {
    DocAccepted("b", "2");
    PatchedDoc("1");
    assert Doc("b", "2") == Some(Obj(PATCH));
  }

  lemma CommitDoc(s: State)
    requires At(s, Row(map["a" := Str("3")], 5), true, [FIRST, SECOND])
    ensures var after := Next(PLAIN, s, PatchCommit(0, 6));
            && At(after, Row(map["a" := Str("1"), "b" := Str("2")], 6), false, [FIRST, SECOND, Patched(KEY, PATCH)])
            && after.replies != [] && LastReply(after).status == 200
  {
  }

  lemma SameStampRun()
    ensures var s := Run(PLAIN, Empty, SAME_STAMP);
            && At(s, Row(map["a" := Str("1"), "b" := Str("2")], 6), false, [FIRST, SECOND, Patched(KEY, PATCH)])
            && s.replies != [] && LastReply(s).status == 200
  {
    var e := SAME_STAMP;
    SameStampGoesOn();
    RunStep(PLAIN, Empty, e[..3], e[3]);
    assert e[..3] + [e[3]] == e;
    CommitDoc(Run(PLAIN, Empty, e[..3]));
  }

  lemma SameStampGoesOn()
    ensures At(Run(PLAIN, Empty, SAME_STAMP[..3]), Row(map["a" := Str("3")], 5), true, [FIRST, SECOND])
  {
    var e := SAME_STAMP;
    SameStampBegins();
    RunStep(PLAIN, Empty, e[..2], e[2]);
    assert e[..2] + [e[2]] == e[..3];
    SecondPut(Run(PLAIN, Empty, e[..2]));
  }

  lemma SecondPut(s: State)
    requires At(s, Row(map["a" := Str("1")], 5), true, [FIRST])
    ensures At(Next(PLAIN, s, Put("k", "", Doc("a", "3"), 5)), Row(map["a" := Str("3")], 5), true, [FIRST, SECOND])
  {
    PutDoc(s, "3");
  }

  lemma SameStampBegins()
    ensures At(Run(PLAIN, Empty, SAME_STAMP[..2]), Row(map["a" := Str("1")], 5), true, [FIRST])
  {
    var e := SAME_STAMP;
    RunStep(PLAIN, Empty, [], e[0]);
    assert [] + [e[0]] == [e[0]] && [e[0]] + [e[1]] == e[..2];
    PutDoc(Empty, "1");
    RunStep(PLAIN, Empty, [e[0]], e[1]);
    ReadDoc(Run(PLAIN, Empty, [e[0]]));
  }

  // Replayed, the same commits keep the second document's field.
  lemma SameStampReplay()
    ensures var docs := Replay(PLAIN, [FIRST, SECOND, Patched(KEY, PATCH)]);
            KEY in docs && "a" in docs[KEY] && docs[KEY]["a"] == Str("3")
  {
    ReplayTwo();
    ReplayStep(PLAIN, [FIRST, SECOND], Patched(KEY, PATCH));
    assert [FIRST, SECOND] + [Patched(KEY, PATCH)] == [FIRST, SECOND, Patched(KEY, PATCH)];
    PatchedDoc("3");
  }

  lemma ReplayTwo()
    ensures Replay(PLAIN, [FIRST, SECOND]) == map[KEY := map["a" := Str("3")]]
  {
    ReplayStep(PLAIN, [], FIRST);
    ReplayStep(PLAIN, [FIRST], SECOND);
    assert [] + [FIRST] == [FIRST] && [FIRST] + [SECOND] == [FIRST, SECOND];
  }

  // So without fresh stamps a committed update can be lost, although every request was answered 200.
  lemma SameStampLosesUpdate()
    ensures var s := Run(PLAIN, Empty, SAME_STAMP);
            Contents(s.table) != Replay(PLAIN, s.history) && s.replies != [] && LastReply(s).status == 200
    ensures !FreshRun(PLAIN, Empty, SAME_STAMP)
  {
    SameStampRun();
    SameStampReplay();
    var s := Run(PLAIN, Empty, SAME_STAMP);
    assert Contents(s.table)[KEY]["a"] == Str("1");
    if FreshRun(PLAIN, Empty, SAME_STAMP) {
      NoLostUpdates(PLAIN, SAME_STAMP);
      assert false;
    }
  }
}
