/** The provider of API documents: generated once per table, cached, and handed out as copies. */
module Providers {
  import opened Text
  import opened Configs

  type Bytes = seq<bv8>

  // ---------- one caller at a time ----------

  // The table of a name is the last one listed.
  function TableMap(tables: seq<TableConfig>): map<string, TableConfig> {
    if tables == [] then map[]
    else TableMap(tables[..|tables| - 1])[tables[|tables| - 1].name := tables[|tables| - 1]]
  }

  predicate Lists(tables: seq<TableConfig>, name: string) {
    exists i | 0 <= i < |tables| :: tables[i].name == name
  }

  // No later table has the name of table i.
  predicate LastOfName(tables: seq<TableConfig>, i: nat)
    requires i < |tables|
  {
    forall j | i < j < |tables| :: tables[j].name != tables[i].name
  }

  // The map holds exactly the names listed, each with the last table of that name.
  ghost predicate MapsNames(tableMap: map<string, TableConfig>, tables: seq<TableConfig>) {
    && (forall name :: name in tableMap <==> Lists(tables, name))
    && (forall i | 0 <= i < |tables| && LastOfName(tables, i) :: tableMap[tables[i].name] == tables[i])
  }

  lemma ListsMore(tables: seq<TableConfig>, t: TableConfig, name: string)
    ensures Lists(tables + [t], name) <==> Lists(tables, name) || t.name == name
  {
    if i :| 0 <= i < |tables| && tables[i].name == name {
      assert (tables + [t])[i].name == name;
    }
    if t.name == name {
      assert (tables + [t])[|tables|].name == name;
    }
  }

  lemma LastOfNameMore(tables: seq<TableConfig>, t: TableConfig, i: nat)
    requires i < |tables|
    ensures LastOfName(tables + [t], i) <==> LastOfName(tables, i) && t.name != tables[i].name
  {
    assert forall j | 0 <= j < |tables| :: (tables + [t])[j] == tables[j];
    assert (tables + [t])[|tables|] == t;
  }

  lemma {:induction false} TableMapMaps(tables: seq<TableConfig>)
    ensures MapsNames(TableMap(tables), tables)
  {
    if tables != [] {
      var init, last := tables[..|tables| - 1], tables[|tables| - 1];
      TableMapMaps(init);
      assert tables == init + [last];
      forall name ensures name in TableMap(tables) <==> Lists(tables, name) {
        ListsMore(init, last, name);
      }
      forall i | 0 <= i < |tables| && LastOfName(tables, i)
        ensures TableMap(tables)[tables[i].name] == tables[i]
      {
        if i < |init| {
          LastOfNameMore(init, last, i);
        }
      }
    }
  }

  // Direct generation; None is an error.
  function Direct(tables: map<string, TableConfig>, generate: TableConfig -> Option<Bytes>,
                  name: string): Option<Bytes> {
    if name in tables then generate(tables[name]) else None
  }

  class Provider {
    const tables: map<string, TableConfig>
    const generate: TableConfig -> Option<Bytes>
    var cache: map<string, array<bv8>>

    ghost predicate Valid()
      reads this, cache.Values
    {
      forall n | n in cache :: Direct(tables, generate, n) == Some(cache[n][..])
    }

    constructor (tables: seq<TableConfig>, generate: TableConfig -> Option<Bytes>)
      ensures Valid() && this.tables == TableMap(tables) && this.generate == generate && cache == map[]
      ensures MapsNames(this.tables, tables)
    {
      var tableMap: map<string, TableConfig> := map[];
      for i := 0 to |tables|
        invariant tableMap == TableMap(tables[..i])
      {
        assert tables[..i + 1][..i] == tables[..i];
        tableMap := tableMap[tables[i].name := tables[i]];
      }
      assert tables[..|tables|] == tables;
      TableMapMaps(tables);
      this.tables, this.generate, cache := tableMap, generate, map[];
    }

    // Success is a new buffer with the bytes of direct generation, which no cache entry shares; entries stay.
    method YAML(tableName: string) returns (r: Option<array<bv8>>)
      requires Valid()
      modifies this`cache
      ensures Valid()
      ensures r.Some? <==> tableName in tables && generate(tables[tableName]).Some?
      ensures r.Some? ==> fresh(r.value) && Some(r.value[..]) == generate(tables[tableName])
      ensures r.Some? ==> tableName in cache && r.value !in cache.Values
      ensures cache.Keys == old(cache.Keys) + if r.Some? then {tableName} else {}
      ensures forall n | n in old(cache) :: cache[n] == old(cache[n])
    {
      if tableName in cache {
        var out := CopyBytes(cache[tableName]);
        return Some(out);
      }
      if tableName !in tables {
        return None;
      }
      var doc := generate(tables[tableName]);
      if doc.None? {
        return None;
      }
      var buffer := ToArray(doc.value);
      cache := cache[tableName := buffer];
      var out := CopyBytes(buffer);
      return Some(out);
    }
  }

  // With unique names, a listed table is generated by its name, and any other name is refused.
  lemma DirectOfListed(tables: seq<TableConfig>, generate: TableConfig -> Option<Bytes>, name: string)
    requires UniqueTableNames(tables)
    ensures forall i | 0 <= i < |tables| && tables[i].name == name ::
              Direct(TableMap(tables), generate, name) == generate(tables[i])
    ensures !Lists(tables, name) ==> Direct(TableMap(tables), generate, name) == None
  {
    TableMapMaps(tables);
  }

  // A generated document in memory.
  method ToArray(bytes: Bytes) returns (a: array<bv8>)
    ensures fresh(a) && a[..] == bytes
  {
    a := new bv8[|bytes|](i requires 0 <= i < |bytes| => bytes[i]);
  }

  method CopyBytes(source: array<bv8>) returns (out: array<bv8>)
    ensures fresh(out) && out[..] == source[..]
  {
    out := new bv8[source.Length];
    for i := 0 to source.Length
      invariant out[..i] == source[..i]
    {
      out[i] := source[i];
    }
    assert out[..] == out[..source.Length] && source[..] == source[..source.Length];
  }

  // ---------- any number of callers ----------

  // Who may touch a buffer: a generated document nobody, the copy in progress its maker, a returned copy its caller.
  datatype Role = Document(name: string) | Scratch(client: nat) | Returned

  datatype Buffer = Buffer(bytes: Bytes, role: Role)

  // What a call is about to do.
  datatype Call =
    | Generate(name: string)                             // nothing was cached
    | Publish(name: string, doc: nat)                    // generated, to be stored under the lock
    | Allocate(name: string, doc: nat)                   // the document to copy is known
    | Copy(name: string, doc: nat, out: nat, done: nat)  // so many bytes are copied

  datatype Answer = Copied(client: nat, name: string, bytes: Bytes) | Refused(client: nat, name: string)

  datatype State = State(cache: map<string, nat>, heap: seq<Buffer>, calls: map<nat, Call>, answers: seq<Answer>)

  const START := State(map[], [], map[], [])

  datatype Event =
    | Enter(client: nat, name: string)        // the first look at the cache, under the read lock
    | Step(client: nat)                       // the next step of the client's call
    | Write(buffer: nat, at: nat, byte: bv8)  // a caller writes into a buffer it was given

  type Generator = string -> Option<Bytes>

  function Look(s: State, name: string): Call {
    if name in s.cache then Allocate(name, s.cache[name]) else Generate(name)
  }

  function Next(direct: Generator, s: State, e: Event): State {
    match e
    case Enter(client, name) =>
      if client in s.calls then s else s.(calls := s.calls[client := Look(s, name)])
    case Step(client) =>
      if client in s.calls then Advance(direct, s, client) else s
    case Write(a, at, byte) =>
      if a < |s.heap| && s.heap[a].role == Returned && at < |s.heap[a].bytes|
      then SetBytes(s, a, s.heap[a].bytes[at := byte])
      else s
  }

  function SetBytes(s: State, a: nat, bytes: Bytes): State
    requires a < |s.heap|
  {
    s.(heap := s.heap[a := s.heap[a].(bytes := bytes)])
  }

  function Finish(s: State, client: nat, answer: Answer): State {
    s.(calls := s.calls - {client}, answers := s.answers + [answer])
  }

  function Zeros(n: nat): Bytes { seq(n, i => 0 as bv8) }

  function Advance(direct: Generator, s: State, client: nat): State
    requires client in s.calls
  {
    match s.calls[client]
    case Generate(name) =>
      (match direct(name)
       case None => Finish(s, client, Refused(client, name))
       case Some(bytes) =>
         s.(heap := s.heap + [Buffer(bytes, Document(name))], calls := s.calls[client := Publish(name, |s.heap|)]))
    case Publish(name, doc) =>
      // Another call may have been faster: its document stays.
      if name in s.cache then s.(calls := s.calls[client := Allocate(name, s.cache[name])])
      else s.(cache := s.cache[name := doc], calls := s.calls[client := Allocate(name, doc)])
    case Allocate(name, doc) =>
      if doc < |s.heap| then
        s.(heap := s.heap + [Buffer(Zeros(|s.heap[doc].bytes|), Scratch(client))],
           calls := s.calls[client := Copy(name, doc, |s.heap|, 0)])
      else s
    case Copy(name, doc, out, done) =>
      if doc < |s.heap| && out < |s.heap| && done < |s.heap[doc].bytes| && done < |s.heap[out].bytes| then
        SetBytes(s, out, s.heap[out].bytes[done := s.heap[doc].bytes[done]])
          .(calls := s.calls[client := Copy(name, doc, out, done + 1)])
      else if out < |s.heap| then
        Finish(s.(heap := s.heap[out := s.heap[out].(role := Returned)]), client,
               Copied(client, name, s.heap[out].bytes))
      else s
  }

  function Run(direct: Generator, events: seq<Event>): State {
    if events == [] then START else Next(direct, Run(direct, events[..|events| - 1]), events[|events| - 1])
  }

  predicate HoldsDocument(s: State, a: nat, name: string) {
    a < |s.heap| && s.heap[a].role == Document(name)
  }

  predicate CallOk(s: State, client: nat, call: Call) {
    match call
    case Generate(_) => true
    case Publish(name, doc) => HoldsDocument(s, doc, name)
    case Allocate(name, doc) => HoldsDocument(s, doc, name)
    case Copy(name, doc, out, done) =>
      && HoldsDocument(s, doc, name)
      && out < |s.heap| && s.heap[out].role == Scratch(client)
      && done <= |s.heap[out].bytes| == |s.heap[doc].bytes|
      && s.heap[out].bytes[..done] == s.heap[doc].bytes[..done]
  }

  predicate AnswerOk(direct: Generator, answer: Answer) {
    match answer
    case Copied(_, name, bytes) => direct(name) == Some(bytes)
    case Refused(_, name) => direct(name).None?
  }

  predicate DocumentOk(direct: Generator, b: Buffer) {
    b.role.Document? ==> direct(b.role.name) == Some(b.bytes)
  }

  ghost predicate Inv(direct: Generator, s: State) {
    && (forall a | 0 <= a < |s.heap| :: DocumentOk(direct, s.heap[a]))
    && (forall name | name in s.cache :: HoldsDocument(s, s.cache[name], name))
    && (forall client | client in s.calls :: CallOk(s, client, s.calls[client]))
    && (forall i | 0 <= i < |s.answers| :: AnswerOk(direct, s.answers[i]))
  }

  predicate MayChange(role: Role, client: nat) {
    role.Returned? || role == Scratch(client)
  }

  // What a step of a client may do to the buffers: nothing to documents or to other calls' copies.
  ghost predicate Frame(s: State, t: State, client: nat) {
    && |s.heap| <= |t.heap|
    && forall a | 0 <= a < |s.heap| && !MayChange(s.heap[a].role, client) :: t.heap[a] == s.heap[a]
  }

  lemma FrameKeepsCall(s: State, t: State, client: nat, other: nat, call: Call)
    requires Frame(s, t, client) && CallOk(s, other, call) && other != client
    ensures CallOk(t, other, call)
  {
  }

  // A step that respects the frame keeps the invariant if it leaves its own call, the new buffers and
  // the new answers right.
  lemma FrameKeepsInv(direct: Generator, s: State, t: State, client: nat)
    requires Inv(direct, s) && Frame(s, t, client)
    requires forall a | 0 <= a < |t.heap| :: DocumentOk(direct, t.heap[a])
    requires forall name | name in t.cache :: HoldsDocument(t, t.cache[name], name)
    requires client in t.calls ==> CallOk(t, client, t.calls[client])
    requires t.calls - {client} == s.calls - {client}
    requires forall i | 0 <= i < |t.answers| :: AnswerOk(direct, t.answers[i])
    ensures Inv(direct, t)
  {
    forall other | other in t.calls && other != client
      ensures CallOk(t, other, t.calls[other])
    {
      assert other in t.calls - {client} && (t.calls - {client})[other] == (s.calls - {client})[other];
      FrameKeepsCall(s, t, client, other, s.calls[other]);
    }
  }

  lemma NextKeepsInv(direct: Generator, s: State, e: Event)
    requires Inv(direct, s)
    ensures Inv(direct, Next(direct, s, e))
  {
    match e
    case Enter(client, _) => FrameKeepsInv(direct, s, Next(direct, s, e), client);
    case Step(client) => if client in s.calls { AdvanceKeepsInv(direct, s, client); }
    case Write(a, at, byte) => WriteKeepsInv(direct, s, a, at, byte);
  }

  lemma WriteKeepsInv(direct: Generator, s: State, a: nat, at: nat, byte: bv8)
    requires Inv(direct, s)
    ensures Inv(direct, Next(direct, s, Write(a, at, byte)))
  {
    var t := Next(direct, s, Write(a, at, byte));
    forall client | client in t.calls
      ensures CallOk(t, client, t.calls[client])
    {
      assert CallOk(s, client, s.calls[client]);
    }
  }

  lemma AdvanceKeepsInv(direct: Generator, s: State, client: nat)
    requires Inv(direct, s) && client in s.calls
    ensures Inv(direct, Advance(direct, s, client))
  {
    assert CallOk(s, client, s.calls[client]);
    match s.calls[client]
    case Generate(name) => FrameKeepsInv(direct, s, Advance(direct, s, client), client);
    case Publish(name, doc) => FrameKeepsInv(direct, s, Advance(direct, s, client), client);
    case Allocate(name, doc) => FrameKeepsInv(direct, s, Advance(direct, s, client), client);
    case Copy(name, doc, out, done) => CopyKeepsInv(direct, s, client, name, doc, out, done);
  }

  lemma CopyKeepsInv(direct: Generator, s: State, client: nat, name: string, doc: nat, out: nat, done: nat)
    requires Inv(direct, s) && client in s.calls && s.calls[client] == Copy(name, doc, out, done)
    requires CallOk(s, client, s.calls[client])
    ensures Inv(direct, Advance(direct, s, client))
  {
    var t := Advance(direct, s, client);
    assert doc != out && DocumentOk(direct, s.heap[doc]);
    if done < |s.heap[doc].bytes| {
      assert t.heap[out].bytes[..done + 1] == s.heap[doc].bytes[..done + 1];
    } else {
      assert s.heap[out].bytes == s.heap[out].bytes[..done] == s.heap[doc].bytes[..done] == s.heap[doc].bytes;
    }
    FrameKeepsInv(direct, s, t, client);
  }

  // Every finished call got the bytes of direct generation, or its refusal, however the calls overlapped
  // and whatever callers wrote into their copies.
  lemma {:induction false} AnswersAreDirect(direct: Generator, events: seq<Event>)
    ensures Inv(direct, Run(direct, events))
    ensures forall i | 0 <= i < |Run(direct, events).answers| :: AnswerOk(direct, Run(direct, events).answers[i])
  {
    if events != [] {
      AnswersAreDirect(direct, events[..|events| - 1]);
      NextKeepsInv(direct, Run(direct, events[..|events| - 1]), events[|events| - 1]);
    }
  }

  // ---------- each call ----------

  function Size(direct: Generator, name: string): nat {
    match direct(name) case Some(bytes) => |bytes| case None => 0
  }

  // How many steps a call is from its answer.
  function StepsLeft(direct: Generator, call: Call): int {
    match call
    case Generate(name) => if direct(name).Some? then Size(direct, name) + 4 else 1
    case Publish(name, _) => Size(direct, name) + 3
    case Allocate(name, _) => Size(direct, name) + 2
    case Copy(name, _, _, done) => Size(direct, name) + 1 - done
  }

  // The answers a client got, in order.
  function AnswersTo(client: nat, answers: seq<Answer>): seq<Answer> {
    if answers == [] then []
    else
      var before, last := AnswersTo(client, answers[..|answers| - 1]), answers[|answers| - 1];
      if last.client == client then before + [last] else before
  }

  lemma AnswersToMore(client: nat, answers: seq<Answer>, a: Answer)
    ensures AnswersTo(client, answers + [a])
            == if a.client == client then AnswersTo(client, answers) + [a] else AnswersTo(client, answers)
  {
    assert (answers + [a])[..|answers|] == answers;
  }

  // A step of a call brings it one nearer to its answer, which is for the name it was entered with.
  lemma StepsForward(direct: Generator, s: State, client: nat)
    requires Inv(direct, s) && client in s.calls
    ensures var call, t := s.calls[client], Next(direct, s, Step(client));
            if StepsLeft(direct, call) > 1 then
              && client in t.calls && t.calls[client].name == call.name && t.answers == s.answers
              && StepsLeft(direct, t.calls[client]) == StepsLeft(direct, call) - 1
            else
              && client !in t.calls && |t.answers| == |s.answers| + 1 && t.answers[..|s.answers|] == s.answers
              && t.answers[|s.answers|].name == call.name && t.answers[|s.answers|].client == client
  {
    assert CallOk(s, client, s.calls[client]);
    var call := s.calls[client];
    if !call.Generate? {
      assert DocumentOk(direct, s.heap[call.doc]);
    }
  }

  // The events of others leave a call and the answers to it alone.
  lemma OthersLeaveCall(direct: Generator, s: State, e: Event, client: nat)
    requires e != Step(client) && (e.Enter? ==> e.client != client)
    ensures var t := Next(direct, s, e);
            && (client in t.calls <==> client in s.calls)
            && (client in s.calls ==> t.calls[client] == s.calls[client])
            && AnswersTo(client, t.answers) == AnswersTo(client, s.answers)
  {
    assert e.Step? ==> e.client != client;
    var t := Next(direct, s, e);
    if t.answers != s.answers {
      AnswersToMore(client, s.answers, t.answers[|s.answers|]);
    }
  }

  // A client's own steps among events.
  function StepsOf(client: nat, events: seq<Event>): nat {
    if events == [] then 0
    else StepsOf(client, events[..|events| - 1]) + if events[|events| - 1] == Step(client) then 1 else 0
  }

  // A call for a name with so many steps left, or its answer as the one answer more.
  ghost predicate Underway(direct: Generator, s: State, client: nat, name: string, before: seq<Answer>, left: int) {
    if client in s.calls then
      && s.calls[client].name == name && StepsLeft(direct, s.calls[client]) == left
      && AnswersTo(client, s.answers) == before
    else
      left <= 0 && exists a :: AnswersTo(client, s.answers) == before + [a] && a.name == name && AnswerOk(direct, a)
  }

  lemma UnderwayNext(direct: Generator, s: State, e: Event, client: nat, name: string, before: seq<Answer>, left: int)
    requires Inv(direct, s) && Underway(direct, s, client, name, before, left) && (e.Enter? ==> e.client != client)
    ensures Underway(direct, Next(direct, s, e), client, name, before, if e == Step(client) then left - 1 else left)
  {
    var t := Next(direct, s, e);
    if e != Step(client) {
      OthersLeaveCall(direct, s, e, client);
    } else if client in s.calls {
      StepsForward(direct, s, client);
      if client !in t.calls {
        var a := t.answers[|s.answers|];
        assert CallOk(s, client, s.calls[client]);
        NextKeepsInv(direct, s, e);
        assert t.answers == s.answers + [a];
        AnswersToMore(client, s.answers, a);
      }
    }
  }

  lemma RunNext(direct: Generator, events: seq<Event>, n: nat)
    requires 0 < n <= |events|
    ensures Run(direct, events[..n]) == Next(direct, Run(direct, events[..n - 1]), events[n - 1])
    ensures Inv(direct, Run(direct, events[..n - 1]))
  {
    assert events[..n][..n - 1] == events[..n - 1];
    AnswersAreDirect(direct, events[..n - 1]);
  }

  lemma StepsOfNext(client: nat, events: seq<Event>, m: nat, n: nat)
    requires m < n <= |events|
    ensures StepsOf(client, events[m..n])
            == StepsOf(client, events[m..n - 1]) + if events[n - 1] == Step(client) then 1 else 0
  {
    assert events[m..n][..n - 1 - m] == events[m..n - 1];
  }

  lemma {:induction false} CallUnderway(direct: Generator, events: seq<Event>, m: nat, n: nat, client: nat,
                                        name: string, before: seq<Answer>, left: int)
    requires m <= n <= |events| && Underway(direct, Run(direct, events[..m]), client, name, before, left)
    requires forall i | m <= i < n && events[i].Enter? :: events[i].client != client
    ensures Underway(direct, Run(direct, events[..n]), client, name, before, left - StepsOf(client, events[m..n]))
    decreases n
  {
    if m < n {
      CallUnderway(direct, events, m, n - 1, client, name, before, left);
      RunNext(direct, events, n);
      StepsOfNext(client, events, m, n);
      UnderwayNext(direct, Run(direct, events[..n - 1]), events[n - 1], client, name, before,
                   left - StepsOf(client, events[m..n - 1]));
    } else {
      assert events[m..n] == [];
    }
  }

  lemma EnterUnderway(direct: Generator, s: State, client: nat, name: string)
    requires client !in s.calls
    ensures Underway(direct, Next(direct, s, Enter(client, name)), client, name, AnswersTo(client, s.answers),
                     StepsLeft(direct, Look(s, name)))
  {
  }

  // A client that has entered for a name, and takes the steps its call needs among any events of others,
  // gets exactly one answer: that of direct generation for the name. With fewer steps it has none yet.
  lemma CallIsAnswered(direct: Generator, events: seq<Event>, m: nat, n: nat, client: nat, name: string)
    requires m < n <= |events| && events[m] == Enter(client, name) && client !in Run(direct, events[..m]).calls
    requires forall i | m < i < n && events[i].Enter? :: events[i].client != client
    ensures var before, now := Run(direct, events[..m]), Run(direct, events[..n]);
            if StepsOf(client, events[m + 1..n]) >= StepsLeft(direct, Look(before, name)) then
              && client !in now.calls
              && exists a :: AnswersTo(client, now.answers) == AnswersTo(client, before.answers) + [a]
                             && a.name == name && AnswerOk(direct, a)
            else client in now.calls && AnswersTo(client, now.answers) == AnswersTo(client, before.answers)
  {
    var before, now := Run(direct, events[..m]), Run(direct, events[..n]);
    RunNext(direct, events, m + 1);
    EnterUnderway(direct, before, client, name);
    CallUnderway(direct, events, m + 1, n, client, name, AnswersTo(client, before.answers),
                 StepsLeft(direct, Look(before, name)));
    AnswersAreDirect(direct, events[..n]);
    if client in now.calls {
      assert CallOk(now, client, now.calls[client]);
      StepsRemain(direct, now, client);
    }
  }

  lemma StepsRemain(direct: Generator, s: State, client: nat)
    requires Inv(direct, s) && client in s.calls
    ensures StepsLeft(direct, s.calls[client]) > 0
  {
    assert CallOk(s, client, s.calls[client]);
    if !s.calls[client].Generate? {
      assert DocumentOk(direct, s.heap[s.calls[client].doc]);
    }
  }

  // ---------- the tables that are listed ----------

  function DirectOf(tables: seq<TableConfig>, generate: TableConfig -> Option<Bytes>): Generator {
    name => Direct(TableMap(tables), generate, name)
  }

  // With unique names and in any interleaving, every finished call got the bytes generated for the listed table of
  // its name; it was refused only for a name that is not listed, or whose generation fails.
  lemma AnswersAreDocuments(tables: seq<TableConfig>, generate: TableConfig -> Option<Bytes>, events: seq<Event>,
                            a: Answer)
    requires UniqueTableNames(tables) && a in Run(DirectOf(tables, generate), events).answers
    ensures a.Copied? ==>
              exists i | 0 <= i < |tables| :: tables[i].name == a.name && generate(tables[i]) == Some(a.bytes)
    ensures a.Refused? ==> forall i | 0 <= i < |tables| && tables[i].name == a.name :: generate(tables[i]).None?
  {
    var direct := DirectOf(tables, generate);
    AnswersAreDirect(direct, events);
    assert AnswerOk(direct, a);
    DirectOfListed(tables, generate, a.name);
  }

  // A caller that enters for a listed table, and takes enough steps, gets exactly one answer: the document generated
  // for that table, or a refusal if its generation fails.
  lemma ListedIsAnswered(tables: seq<TableConfig>, generate: TableConfig -> Option<Bytes>, events: seq<Event>, m: nat,
                         n: nat, client: nat, i: nat)
    requires UniqueTableNames(tables) && i < |tables| && m < n <= |events|
    requires events[m] == Enter(client, tables[i].name)
    requires client !in Run(DirectOf(tables, generate), events[..m]).calls
    requires forall k | m < k < n && events[k].Enter? :: events[k].client != client
    requires var bytes := generate(tables[i]);
             StepsOf(client, events[m + 1..n]) >= if bytes.Some? then |bytes.value| + 4 else 1
    ensures var before := Run(DirectOf(tables, generate), events[..m]);
            var now := Run(DirectOf(tables, generate), events[..n]);
            var name, bytes := tables[i].name, generate(tables[i]);
            && client !in now.calls
            && AnswersTo(client, now.answers)
               == AnswersTo(client, before.answers)
                  + [if bytes.Some? then Copied(client, name, bytes.value) else Refused(client, name)]
  {
    var direct, name := DirectOf(tables, generate), tables[i].name;
    var before, now := Run(direct, events[..m]), Run(direct, events[..n]);
    DirectOfListed(tables, generate, name);
    AnswersAreDirect(direct, events[..m]);
    EnoughSteps(direct, before, name);
    CallIsAnswered(direct, events, m, n, client, name);
    var a :| AnswersTo(client, now.answers) == AnswersTo(client, before.answers) + [a] && a.name == name
             && AnswerOk(direct, a);
    AnswersToClient(client, now.answers);
    assert a in AnswersTo(client, now.answers) && a.client == client;
  }

  lemma EnoughSteps(direct: Generator, s: State, name: string)
    requires Inv(direct, s)
    ensures StepsLeft(direct, Look(s, name)) <= if direct(name).Some? then Size(direct, name) + 4 else 1
  {
    if name in s.cache {
      assert HoldsDocument(s, s.cache[name], name) && DocumentOk(direct, s.heap[s.cache[name]]);
    }
  }

  lemma {:induction false} AnswersToClient(client: nat, answers: seq<Answer>)
    ensures forall a | a in AnswersTo(client, answers) :: a.client == client
  {
    if answers != [] {
      AnswersToClient(client, answers[..|answers| - 1]);
    }
  }

  // ---------- what stays as it is ----------

  function WriteInto(bytes: Bytes, a: nat, e: Event): (r: Bytes)
    ensures |r| == |bytes|
  {
    if e.Write? && e.buffer == a && e.at < |bytes| then bytes[e.at := e.byte] else bytes
  }

  // The writes of a run into one buffer, applied in order.
  function Written(bytes: Bytes, a: nat, events: seq<Event>): (r: Bytes)
    ensures |r| == |bytes|
  {
    if events == [] then bytes
    else WriteInto(Written(bytes, a, events[..|events| - 1]), a, events[|events| - 1])
  }

  ghost predicate CacheKept(s: State, t: State) {
    forall name | name in s.cache :: name in t.cache && t.cache[name] == s.cache[name]
  }

  lemma NextKeepsBuffers(direct: Generator, s: State, e: Event, a: nat)
    requires Inv(direct, s) && a < |s.heap|
    ensures var t := Next(direct, s, e);
            && a < |t.heap|
            && (s.heap[a].role.Document? ==> t.heap[a] == s.heap[a])
            && (s.heap[a].role.Returned? ==> t.heap[a] == Buffer(WriteInto(s.heap[a].bytes, a, e), Returned))
  {
    if e.Step? && e.client in s.calls {
      assert CallOk(s, e.client, s.calls[e.client]);
    }
  }

  lemma NextKeepsCache(direct: Generator, s: State, e: Event)
    ensures CacheKept(s, Next(direct, s, e))
  {
  }

  // A cached document is never replaced.
  lemma {:induction false} CacheStays(direct: Generator, events: seq<Event>, m: nat, n: nat)
    requires m <= n <= |events|
    ensures CacheKept(Run(direct, events[..m]), Run(direct, events[..n]))
    decreases n
  {
    if m < n {
      CacheStays(direct, events, m, n - 1);
      RunNext(direct, events, n);
      NextKeepsCache(direct, Run(direct, events[..n - 1]), events[n - 1]);
    }
  }

  lemma WrittenNext(bytes: Bytes, a: nat, events: seq<Event>, m: nat, n: nat)
    requires m < n <= |events|
    ensures Written(bytes, a, events[m..n]) == WriteInto(Written(bytes, a, events[m..n - 1]), a, events[n - 1])
  {
    assert events[m..n][..n - 1 - m] == events[m..n - 1];
  }

  // A buffer that was so is now as its role allows, given the writes into it since.
  ghost predicate BufferKept(was: Buffer, written: Bytes, s: State, a: nat) {
    && a < |s.heap|
    && (was.role.Document? ==> s.heap[a] == was)
    && (was.role.Returned? ==> s.heap[a] == Buffer(written, Returned))
  }

  lemma BufferKeptNext(direct: Generator, s: State, e: Event, was: Buffer, written: Bytes, a: nat)
    requires Inv(direct, s) && BufferKept(was, written, s, a)
    ensures BufferKept(was, WriteInto(written, a, e), Next(direct, s, e), a)
  {
    NextKeepsBuffers(direct, s, e, a);
  }

  // A document in memory is never changed, and a returned copy changes only by writes into itself.
  lemma {:induction false} BuffersStayApart(direct: Generator, events: seq<Event>, m: nat, n: nat, a: nat)
    requires m <= n <= |events| && a < |Run(direct, events[..m]).heap|
    ensures var was := Run(direct, events[..m]).heap[a];
            BufferKept(was, Written(was.bytes, a, events[m..n]), Run(direct, events[..n]), a)
    decreases n
  {
    var was := Run(direct, events[..m]).heap[a];
    if m < n {
      BuffersStayApart(direct, events, m, n - 1, a);
      RunNext(direct, events, n);
      WrittenNext(was.bytes, a, events, m, n);
      BufferKeptNext(direct, Run(direct, events[..n - 1]), events[n - 1], was,
                     Written(was.bytes, a, events[m..n - 1]), a);
    } else {
      assert events[m..n] == [];
    }
  }
}
