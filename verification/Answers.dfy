/** What the item endpoints answer, read off the request and the table: which requests are refused and why,
    and what a document looks like in an answer and in its row. */
module Answers {
  import opened Text
  import opened JsonValues
  import opened Documents
  import opened Rows
  import opened Items

  // A document in an answer: its type, its key fields with the values of the key, and the other fields of data.
  ghost predicate Shows(th: TableHandler, body: Fields, key: Key, data: Fields) {
    && "_type" in body && body["_type"] == Str("item")
    && (th.pkField != "_type" && th.pkField != th.rkField ==> th.pkField in body && body[th.pkField] == Str(key.pk))
    && (th.rkField != "" && th.rkField != "_type" ==> th.rkField in body && body[th.rkField] == Str(key.rk))
    && forall f | f != "_type" && f != th.pkField && (th.rkField == "" || f != th.rkField) ::
         (f in body <==> f in data) && (f in data ==> body[f] == data[f])
  }

  // A row of a document: its fields but for the key fields.
  ghost predicate Stores(th: TableHandler, row: Row, doc: Fields) {
    forall f ::
      (f in row.data <==> f in doc && f != th.pkField && (th.rkField == "" || f != th.rkField))
      && (f in row.data ==> row.data[f] == doc[f])
  }

  lemma PayloadShows(th: TableHandler, key: Key, data: Fields)
    ensures Shows(th, Payload(th.Inject(data, key)), key, data)
  {
  }

  lemma StripStores(th: TableHandler, doc: Fields, now: int)
    ensures Stores(th, Row(th.Strip(doc), now), doc)
  {
  }

  // ---------- what is refused ----------

  // A value in the URL breaks the rule for key values or the pattern of its field.
  predicate BadKey(th: TableHandler, pk: string, rk: string) {
    || !KeyValueOk(pk) || !th.pkPatternOk(pk)
    || (th.rkField != "" && (!KeyValueOk(rk) || !th.rkPatternOk(rk)))
  }

  // The document that a JSON text stands for: an object, or null for one without fields.
  datatype Doc = NoDoc | ADoc(fields: Fields)

  function DocOf(body: Option<Json>): Doc {
    if body == Some(Null) then ADoc(map[])
    else if body.Some? && body.value.Obj? then ADoc(body.value.fields)
    else NoDoc
  }

  // The body is no document, or an object key in it, at any depth, breaks the rule.
  predicate BadDoc(body: Option<Json>) {
    || DocOf(body).NoDoc?
    || exists f | f in DocOf(body).fields :: !JsonKeyOk(f) || !KeysOk(DocOf(body).fields[f])
  }

  predicate HasOther(doc: Fields, field: string, value: string) {
    field in doc && doc[field] != Str(value)
  }

  predicate PutRefused(th: TableHandler, pk: string, rk: string, body: Option<Json>) {
    || BadKey(th, pk, rk) || BadDoc(body)
    || HasOther(DocOf(body).fields, th.pkField, pk)
    || (th.rkField != "" && HasOther(DocOf(body).fields, th.rkField, rk))
    || !th.schemaOk(body.value)
  }

  predicate PatchRefused(th: TableHandler, pk: string, rk: string, body: Option<Json>) {
    || BadKey(th, pk, rk) || BadDoc(body)
    || th.pkField !in DocOf(body).fields || HasOther(DocOf(body).fields, th.pkField, pk)
    || (th.rkField != "" && (th.rkField !in DocOf(body).fields || HasOther(DocOf(body).fields, th.rkField, rk)))
  }

  lemma DocIff(body: Option<Json>)
    ensures BadDoc(body) <==> Decoded(body).None? || !KeysOk(body.value)
    ensures Decoded(body).Some? ==> DocOf(body) == ADoc(Decoded(body).value)
  {
  }

  lemma PutRefusedIff(th: TableHandler, pk: string, rk: string, body: Option<Json>)
    ensures PutRefused(th, pk, rk, body) <==> !th.KeyOk(pk, rk) || !PutAccepted(th, th.RowKey(pk, rk), body)
  {
    DocIff(body);
  }

  lemma PatchRefusedIff(th: TableHandler, pk: string, rk: string, body: Option<Json>)
    ensures PatchRefused(th, pk, rk, body) <==> !th.KeyOk(pk, rk) || !PatchAccepted(th, th.RowKey(pk, rk), body)
  {
    DocIff(body);
  }

  // ---------- the answers ----------

  // The key that a request names: its range part is empty in a table without a range key.
  function Named(th: TableHandler, pk: string, rk: string): Key {
    Key(pk, if th.rkField != "" then rk else "")
  }

  // One answer more.
  predicate OneMore(s: State, t: State) {
    |t.replies| == |s.replies| + 1 && t.replies[..|s.replies|] == s.replies
  }

  // No row but that of the key is touched.
  ghost predicate OthersStay(s: Table, t: Table, key: Key) {
    forall k | k != key :: (k in t <==> k in s) && (k in s ==> t[k] == s[k])
  }

  // In every state: 400 exactly for a bad key; else 200 with the row exactly if there is one; and nothing changes.
  lemma GetAnswers(th: TableHandler, s: State, pk: string, rk: string)
    ensures var t, key := Next(th, s, Get(pk, rk)), Named(th, pk, rk);
            && t.table == s.table && t.pending == s.pending && t.history == s.history && OneMore(s, t)
            && var reply := LastReply(t);
               && reply.GetReply? && reply.key == key
               && (if BadKey(th, pk, rk) then reply.status == 400
                   else if key !in s.table then reply.status == 404
                   else reply.status == 200 && Shows(th, reply.body, key, s.table[key].data))
  {
    var key := th.RowKey(pk, rk);
    if key in s.table {
      PayloadShows(th, key, s.table[key].data);
    }
  }

  // 400 exactly for a bad key; else 204, and the row of the key is gone and no other.
  lemma DeleteAnswers(th: TableHandler, s: State, pk: string, rk: string)
    ensures var t, key := Next(th, s, Delete(pk, rk)), Named(th, pk, rk);
            && t.pending == s.pending && OneMore(s, t)
            && var reply := LastReply(t);
               && reply.DeleteReply? && reply.key == key
               && (if BadKey(th, pk, rk)
                   then reply.status == 400 && t.table == s.table && t.history == s.history
                   else
                     && reply.status == 204 && t.history == s.history + [Removed(key)]
                     && key !in t.table && OthersStay(s.table, t.table, key))
  {
  }

  // 400 exactly if the key or the document is bad, a key field in it has another value, or the schema rejects it;
  // else 200, the row holds the document, and no other row changes.
  lemma PutAnswers(th: TableHandler, s: State, pk: string, rk: string, body: Option<Json>, now: int)
    ensures var t, key := Next(th, s, Put(pk, rk, body, now)), Named(th, pk, rk);
            && t.pending == s.pending && OneMore(s, t)
            && var reply := LastReply(t);
               && reply.PutReply? && reply.key == key
               && (if PutRefused(th, pk, rk, body)
                   then reply.status == 400 && t.table == s.table && t.history == s.history
                   else
                     && reply.status == 200 && Shows(th, reply.body, key, DocOf(body).fields)
                     && key in t.table && t.table[key].updatedAt == now
                     && Stores(th, t.table[key], DocOf(body).fields) && OthersStay(s.table, t.table, key))
  {
    PutRefusedIff(th, pk, rk, body);
    if !PutRefused(th, pk, rk, body) {
      var doc := Decoded(body).value;
      StripStores(th, doc, now);
      PayloadShows(th, th.RowKey(pk, rk), th.Strip(doc));
    }
  }

  // A PATCH is answered with this status, and no row, commit or pending PATCH changes.
  ghost predicate Refuses(s: State, t: State, key: Key, status: int) {
    && t.pending == s.pending && t.history == s.history && t.table == s.table
    && OneMore(s, t)
    && var reply := LastReply(t);
       reply.PatchReply? && reply.key == key && reply.status == status && reply.body == map[]
  }

  // merged is data with the key fields.
  ghost predicate Keyed(th: TableHandler, merged: Fields, key: Key, data: Fields) {
    && (th.pkField != th.rkField ==> th.pkField in merged && merged[th.pkField] == Str(key.pk))
    && (th.rkField != "" ==> th.rkField in merged && merged[th.rkField] == Str(key.rk))
    && forall f | f != th.pkField && (th.rkField == "" || f != th.rkField) ::
         (f in merged <==> f in data) && (f in data ==> merged[f] == data[f])
  }

  lemma InjectKeyed(th: TableHandler, key: Key, data: Fields)
    ensures Keyed(th, th.Inject(data, key), key, data)
  {
  }

  // The read step of a PATCH answers 400 exactly if the key or the document is bad, or a key field is missing from it
  // or has another value; else 404 without a row, and 400 if the schema rejects the merged document. In all other
  // cases it goes on; it never changes a row.
  lemma PatchReadAnswers(th: TableHandler, s: State, client: nat, pk: string, rk: string, body: Option<Json>)
    requires client !in s.pending
    ensures var t, key := Next(th, s, PatchRead(client, pk, rk, body)), Named(th, pk, rk);
            if PatchRefused(th, pk, rk, body) then Refuses(s, t, key, 400)
            else if key !in s.table then Refuses(s, t, key, 404)
            else
              exists merged ::
                && Keyed(th, merged, key, Merge(s.table[key].data, DocOf(body).fields))
                && if !th.schemaOk(Obj(merged)) then Refuses(s, t, key, 400)
                   else
                     && t.replies == s.replies && t.table == s.table && t.history == s.history
                     && t.pending == s.pending[client := Pending(key, DocOf(body).fields, merged,
                                                                 s.table[key].updatedAt, |s.history|)]
  {
    var key := th.RowKey(pk, rk);
    PatchRefusedIff(th, pk, rk, body);
    if !PatchRefused(th, pk, rk, body) && key in s.table {
      InjectKeyed(th, key, Merge(s.table[key].data, Decoded(body).value));
    }
  }

  // The commit step answers 409 and changes no row, exactly if the row is gone or has another stamp; else it answers
  // 200 with the merged document, and the row holds it.
  lemma PatchCommitAnswers(th: TableHandler, s: State, client: nat, now: int)
    requires client in s.pending
    ensures var t, p := Next(th, s, PatchCommit(client, now)), s.pending[client];
            && t.pending == s.pending - {client} && OneMore(s, t)
            && var reply := LastReply(t);
               && reply.PatchReply? && reply.key == p.key
               && (if p.key !in s.table || s.table[p.key].updatedAt != p.updatedAt
                   then reply.status == 409 && t.table == s.table && t.history == s.history
                   else
                     && reply.status == 200 && reply.body == p.merged["_type" := Str("item")]
                     && p.key in t.table && t.table[p.key].updatedAt == now
                     && Stores(th, t.table[p.key], p.merged) && OthersStay(s.table, t.table, p.key))
  {
    StripStores(th, s.pending[client].merged, now);
  }

  // ---------- every answer ----------

  // An answer with a document holds its type.
  predicate Typed(reply: Reply) {
    reply.status == 200 && !reply.DeleteReply? ==> "_type" in reply.body && reply.body["_type"] == Str("item")
  }

  lemma NextTyped(th: TableHandler, s: State, e: Event)
    requires forall i | 0 <= i < |s.replies| :: Typed(s.replies[i])
    ensures forall i | 0 <= i < |Next(th, s, e).replies| :: Typed(Next(th, s, e).replies[i])
  {
    var t := Next(th, s, e);
    if t.replies != s.replies {
      LastTyped(th, s, e);
      assert t.replies == s.replies + [LastReply(t)];
    }
  }

  lemma LastTyped(th: TableHandler, s: State, e: Event)
    requires Next(th, s, e).replies != s.replies
    ensures var t := Next(th, s, e);
            t.replies != [] && t.replies == s.replies + [LastReply(t)] && Typed(LastReply(t))
  {
  }

  // In every interleaving every 200 answer has the type of an item.
  lemma {:induction false} AnswersTyped(th: TableHandler, events: seq<Event>)
    ensures forall i | 0 <= i < |Run(th, Empty, events).replies| :: Typed(Run(th, Empty, events).replies[i])
  {
    if events != [] {
      AnswersTyped(th, events[..|events| - 1]);
      NextTyped(th, Run(th, Empty, events[..|events| - 1]), events[|events| - 1]);
    }
  }
}
