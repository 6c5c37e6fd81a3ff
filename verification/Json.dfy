/** JSON values after decoding. A number is kept as the text it is printed with;
    an object is a map, since the order of its members carries no meaning. */
module JsonValues {
  import opened Text

  datatype Json =
    | Null
    | Bool(b: bool)
    | Num(text: string)
    | Str(s: string)
    | Arr(items: seq<Json>)
    | Obj(fields: Fields)

  type Fields = map<string, Json>

  // Every object key, at every depth and inside arrays too, follows the JSON key rule.
  predicate KeysOk(j: Json) {
    match j
    case Obj(m) => forall k | k in m :: JsonKeyOk(k) && KeysOk(m[k])
    case Arr(items) => forall i | 0 <= i < |items| :: KeysOk(items[i])
    case _ => true
  }

  // ---------- the rule, place by place ----------

  datatype Step = Field(name: string) | Element(i: nat)

  // What stands at the end of a path into a value.
  function At(j: Json, path: seq<Step>): Option<Json>
    decreases |path|
  {
    if path == [] then Some(j)
    else
      match path[0]
      case Field(k) => if j.Obj? && k in j.fields then At(j.fields[k], path[1..]) else None
      case Element(i) => if j.Arr? && i < |j.items| then At(j.items[i], path[1..]) else None
  }

  // The path leads to an object with a bad key.
  predicate BadAt(j: Json, path: seq<Step>) {
    var there := At(j, path);
    there.Some? && there.value.Obj? && exists k | k in there.value.fields :: !JsonKeyOk(k)
  }

  lemma {:induction false} GoodEverywhere(j: Json, path: seq<Step>)
    requires KeysOk(j)
    ensures !BadAt(j, path)
    decreases |path|
  {
    if path != [] {
      match path[0]
      case Field(k) => if j.Obj? && k in j.fields { GoodEverywhere(j.fields[k], path[1..]); }
      case Element(i) => if j.Arr? && i < |j.items| { GoodEverywhere(j.items[i], path[1..]); }
    }
  }

  lemma {:induction false} BadSomewhere(j: Json) returns (path: seq<Step>)
    requires !KeysOk(j)
    ensures BadAt(j, path)
  {
    path := [];
    if j.Arr? {
      var i :| 0 <= i < |j.items| && !KeysOk(j.items[i]);
      var rest := BadSomewhere(j.items[i]);
      path := [Element(i)] + rest;
    } else if forall k | k in j.fields :: JsonKeyOk(k) {
      var k :| k in j.fields && !KeysOk(j.fields[k]);
      var rest := BadSomewhere(j.fields[k]);
      path := [Field(k)] + rest;
    }
  }

  // A value keeps the rule exactly if no path leads to an object with a bad key.
  lemma KeysOkIff(j: Json)
    ensures KeysOk(j) <==> forall path :: !BadAt(j, path)
  {
    if KeysOk(j) {
      forall path ensures !BadAt(j, path) { GoodEverywhere(j, path); }
    } else {
      var path := BadSomewhere(j);
    }
  }
}
