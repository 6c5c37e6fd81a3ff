/** Merge patch as the service runs it: on mutable objects, changing the target in place
    while ranging over the patch's keys in an arbitrary order. */
module MergeInPlace {
  import opened JsonValues
  import Documents

  // A decoded member: an object is a reference, everything else is a value.
  datatype Member = Leaf(json: Json) | Node(obj: JsonObject)

  class JsonObject {
    var members: map<string, Member>
    ghost var contents: Fields          // the JSON object this tree stands for
    ghost var repr: set<JsonObject>     // this object and every object below it

    // The object is the root of a tree: no object below it is reachable twice.
    ghost predicate Valid()
      reads this, repr
      ensures Valid() ==> this in repr
      decreases repr, 1
    {
      && this in repr
      && contents.Keys == members.Keys
      && (forall k | k in members :: Holds(k, members[k]))
      && (forall k, l | k in members && l in members && k != l && members[k].Node? && members[l].Node? ::
            members[k].obj.repr !! members[l].obj.repr)
    }

    ghost predicate Holds(k: string, m: Member)
      requires this in repr && k in contents
      reads this, repr
      decreases repr, 0
    {
      match m
      case Leaf(j) => !j.Obj? && contents[k] == j
      case Node(o) =>
        && o in repr && o.repr <= repr && this !in o.repr
        && o.Valid() && contents[k] == Obj(o.contents)
    }
  }

  // The part of a patch that a loop has already applied.
  ghost function Applied(patch: Fields, rest: set<string>): Fields {
    map k | k in patch && k !in rest :: patch[k]
  }

  // Applying one more key touches that key alone, whichever keys came before it.
  lemma MergeOneMore(target: Fields, patch: Fields, rest: set<string>, k: string)
    requires k in patch && k in rest
    ensures var before := Documents.Merge(target, Applied(patch, rest));
            && (k in before <==> k in target)
            && (k in target ==> before[k] == target[k])
            && Documents.Merge(target, Applied(patch, rest - {k}))
               == if patch[k].Null? then before - {k}
                  else before[k := Documents.MergeMember(target, k, patch[k])]
  {
    assert Applied(patch, rest - {k}) == Applied(patch, rest)[k := patch[k]];
    MergeExtended(target, Applied(patch, rest), k, patch[k]);
  }

  lemma MergeExtended(target: Fields, done: Fields, k: string, value: Json)
    requires k !in done
    ensures Documents.Merge(target, done[k := value])
            == if value.Null? then Documents.Merge(target, done) - {k}
               else Documents.Merge(target, done)[k := Documents.MergeMember(target, k, value)]
  {
    var before := Documents.Merge(target, done);
    var after := Documents.Merge(target, done[k := value]);
    assert after.Keys == if value.Null? then before.Keys - {k} else before.Keys + {k};
    forall l | l in after && l != k
      ensures after[l] == before[l]
    {
      assert l in done ==> after[l] == Documents.MergeMember(target, l, done[l]);
    }
  }

  method DeleteMember(target: JsonObject, k: string)
    requires target.Valid()
    modifies target
    ensures target.Valid() && target.repr == old(target.repr)
    ensures target.members == old(target.members) - {k}
    ensures target.contents == old(target.contents) - {k}
  {
    target.members := target.members - {k};
    target.contents := target.contents - {k};
  }

  // All of target but the member at k is in order.
  ghost predicate ValidBut(target: JsonObject, k: string)
    reads target, target.repr
  {
    && target in target.repr
    && target.contents.Keys == target.members.Keys
    && (forall l | l in target.members && l != k :: target.Holds(l, target.members[l]))
    && (forall l, m | l in target.members && m in target.members && l != m && l != k && m != k ::
          ReprOf(target.members[l]) !! ReprOf(target.members[m]))
  }

  method SetMember(target: JsonObject, k: string, value: Member)
    requires ValidBut(target, k)
    requires value.Leaf? ==> !value.json.Obj?
    requires value.Node? ==> value.obj.Valid() && target !in value.obj.repr
    requires forall l | l in target.members && l != k :: ReprOf(target.members[l]) !! ReprOf(value)
    modifies target
    ensures target.Valid() && target.members == old(target.members)[k := value]
    ensures target.repr == old(target.repr) + ReprOf(value)
    ensures target.contents == old(target.contents)[k := JsonOf(value)]
  {
    target.members := target.members[k := value];
    target.contents := target.contents[k := JsonOf(value)];
    target.repr := target.repr + ReprOf(value);
    forall l | l in target.members ensures target.Holds(l, target.members[l]) {
      assert l != k ==> target.members[l] == old(target.members[l]) && old(target.Holds(l, target.members[l]));
    }
  }

  // No object of the patch still to be applied has been grafted into the target,
  // and the target's own objects under the remaining keys are still its own.
  ghost predicate Apart(target: JsonObject, patch: JsonObject, rest: set<string>, own: set<JsonObject>)
    reads target, set k | k in target.members && target.members[k].Node? :: target.members[k].obj
    reads patch, set k | k in patch.members && patch.members[k].Node? :: patch.members[k].obj
  {
    && patch !in target.repr && rest <= patch.members.Keys
    && (forall k | k in rest && patch.members[k].Node? :: target.repr !! patch.members[k].obj.repr)
    && (forall k | k in rest && k in target.members :: ReprOf(target.members[k]) <= own)
  }

  method MergePatch(target: JsonObject, patch: JsonObject) returns (result: JsonObject)
    requires target.Valid() && patch.Valid() && target.repr !! patch.repr
    modifies target.repr
    ensures result == target && target.Valid()
    ensures target.contents == Documents.Merge(old(target.contents), old(patch.contents))
    ensures target.repr <= old(target.repr) + patch.repr
    decreases patch.repr, 2
  {
    ghost var own, t, p := target.repr, target.contents, patch.contents;
    var rest := patch.members.Keys;
    assert Applied(p, rest) == map[] && Documents.Merge(t, map[]) == t;
    while rest != {}
      invariant patch.Valid() && patch.contents == p
      invariant target.Valid() && target in own && target.repr <= own + patch.repr
      invariant Apart(target, patch, rest, own)
      invariant target.contents == Documents.Merge(t, Applied(p, rest))
      decreases rest
    {
      var k :| k in rest;
      ApplyKey(target, patch, k, rest, own, t);
      rest := rest - {k};
    }
    assert Applied(p, {}) == p;
    result := target;
  }

  // One iteration of the loop.
  method ApplyKey(target: JsonObject, patch: JsonObject, k: string, ghost rest: set<string>,
                  ghost own: set<JsonObject>, ghost t: Fields)
    requires patch.Valid() && target.Valid() && target in own && target.repr <= own + patch.repr
    requires own !! patch.repr && k in rest && Apart(target, patch, rest, own)
    requires target.contents == Documents.Merge(t, Applied(patch.contents, rest))
    modifies own
    ensures patch.Valid() && patch.contents == old(patch.contents) && patch.repr == old(patch.repr)
    ensures target.Valid() && target.repr <= own + patch.repr
    ensures Apart(target, patch, rest - {k}, own)
    ensures target.contents == Documents.Merge(t, Applied(patch.contents, rest - {k}))
    decreases patch.repr, 1
  {
    ghost var was := target.repr;
    MergeOneMore(t, patch.contents, rest, k);
    assert patch.Holds(k, patch.members[k]);
    MergeMember(target, k, patch.members[k]);
    StaysApart(target, patch, k, rest, own, was);
  }

  // Growing the target's objects by those grafted at k keeps it apart from the rest of the patch.
  lemma StaysApart(target: JsonObject, patch: JsonObject, k: string, rest: set<string>,
                   own: set<JsonObject>, was: set<JsonObject>)
    requires patch.Valid() && k in rest && rest <= patch.members.Keys
    requires patch !in was && was <= own + patch.repr && target.repr <= was + ReprOf(patch.members[k])
    requires forall l | l in rest && patch.members[l].Node? :: was !! patch.members[l].obj.repr
    requires forall l | l in rest && l != k && l in target.members :: ReprOf(target.members[l]) <= own
    ensures target.repr <= own + patch.repr
    ensures Apart(target, patch, rest - {k}, own)
  {
    assert patch.Holds(k, patch.members[k]);
    forall l | l in rest && l != k && patch.members[l].Node?
      ensures target.repr !! patch.members[l].obj.repr
    {
      assert patch.members[l].obj.repr !! ReprOf(patch.members[k]);
    }
  }

  // The objects a merge at key k may change, the target aside.
  ghost function ChildRepr(target: JsonObject, k: string): set<JsonObject>
    reads target, if k in target.members && target.members[k].Node? then {target.members[k].obj} else {}
  {
    if k in target.members && target.members[k].Node? then target.members[k].obj.repr else {}
  }

  ghost function ReprOf(m: Member): set<JsonObject>
    reads if m.Node? then {m.obj} else {}
  {
    if m.Node? then m.obj.repr else {}
  }

  ghost function JsonOf(m: Member): Json
    reads if m.Node? then {m.obj} else {}
  {
    if m.Node? then Obj(m.obj.contents) else m.json
  }

  // No member but the one at k was added, replaced or given other objects.
  twostate predicate OnlyAt(target: JsonObject, k: string)
    reads target, set l | l in target.members && target.members[l].Node? :: target.members[l].obj
  {
    forall l | l in target.members && l != k ::
      l in old(target.members) && target.members[l] == old(target.members)[l]
      && ReprOf(target.members[l]) == old(ReprOf(target.members[l]))
  }

  // One iteration: delete, recurse or replace.
  method MergeMember(target: JsonObject, k: string, value: Member)
    requires target.Valid()
    requires value.Leaf? ==> !value.json.Obj?
    requires value.Node? ==> value.obj.Valid() && target.repr !! value.obj.repr
    modifies target, ChildRepr(target, k)
    ensures target.Valid() && target.repr <= old(target.repr) + ReprOf(value)
    ensures target.contents == if value == Leaf(Null) then old(target.contents) - {k}
                               else old(target.contents)[k :=
                                      Documents.MergeMember(old(target.contents), k, old(JsonOf(value)))]
    ensures OnlyAt(target, k)
    decreases ReprOf(value), 4
  {
    if value == Leaf(Null) {
      DeleteMember(target, k);
    } else if value.Node? && k in target.members && target.members[k].Node? {
      assert target.Holds(k, target.members[k]);
      MergeChild(target, k, value.obj);
    } else {
      SetMember(target, k, value);
    }
  }

  // The recursive step: merge into the object that target already holds at k.
  method MergeChild(target: JsonObject, k: string, patchChild: JsonObject)
    requires target.Valid() && k in target.members && target.members[k].Node?
    requires patchChild.Valid() && target.repr !! patchChild.repr
    modifies target, target.members[k].obj.repr
    ensures target.Valid() && target.members == old(target.members)
    ensures target.repr <= old(target.repr) + patchChild.repr
    ensures target.contents == old(target.contents)[k := Obj(Documents.Merge(
                old(target.members[k].obj.contents), old(patchChild.contents)))]
    ensures forall l | l in target.members && l != k :: ReprOf(target.members[l]) == old(ReprOf(target.members[l]))
    decreases patchChild.repr, 3
  {
    var child := target.members[k].obj;
    assert target.Holds(k, Node(child));
    var merged := MergePatch(child, patchChild);
    forall l | l in target.members && l != k
      ensures target.Holds(l, target.members[l])
      ensures ReprOf(target.members[l]) == old(ReprOf(target.members[l]))
      ensures ReprOf(target.members[l]) !! old(child.repr)
    {
      assert old(target.Holds(l, target.members[l]));
      if target.members[l].Node? {
        assert old(target.members[l].obj.repr !! child.repr);
      }
    }
    SetMember(target, k, Node(merged));
    assert target.members == old(target.members);
  }

  // ---------- from and to values ----------

  // Decoding gives a tree of its own.
  method Unmarshal(data: Fields) returns (obj: JsonObject)
    ensures fresh(obj.repr) && obj.Valid() && obj.contents == data
    decreases Obj(data), 0
  {
    obj := new JsonObject;
    obj.members, obj.contents, obj.repr := map[], map[], {obj};
    var rest := data.Keys;
    while rest != {}
      invariant rest <= data.Keys && fresh(obj.repr) && obj.Valid()
      invariant obj.contents == map k | k in data && k !in rest :: data[k]
      decreases rest
    {
      var k :| k in rest;
      rest := rest - {k};
      UnmarshalMember(obj, k, data[k], data);
    }
    assert (map k | k in data && k !in rest :: data[k]) == data;
  }

  method UnmarshalMember(obj: JsonObject, k: string, value: Json, ghost data: Fields)
    requires obj.Valid() && k !in obj.members && value < Obj(data)
    modifies obj
    ensures obj.Valid() && fresh(obj.repr - old(obj.repr)) && obj.contents == old(obj.contents)[k := value]
    decreases value, 1
  {
    if value.Obj? {
      var child := Unmarshal(value.fields);
      SetMember(obj, k, Node(child));
    } else {
      SetMember(obj, k, Leaf(value));
    }
  }

  method Marshal(obj: JsonObject) returns (data: Fields)
    requires obj.Valid()
    ensures data == obj.contents
    decreases obj.repr
  {
    data := map[];
    var rest := obj.members.Keys;
    while rest != {}
      invariant rest <= obj.members.Keys
      invariant data == map k | k in obj.contents && k !in rest :: obj.contents[k]
      decreases rest
    {
      var k :| k in rest;
      rest := rest - {k};
      assert obj.Holds(k, obj.members[k]);
      match obj.members[k] {
        case Leaf(json) => data := data[k := json];
        case Node(child) =>
          var fields := Marshal(child);
          data := data[k := Obj(fields)];
      }
    }
    assert (map k | k in obj.contents && k !in rest :: obj.contents[k]) == obj.contents;
  }

  // The merge of a stored document with a patch, both decoded, read back as a value.
  method MergeDecoded(data: Fields, patch: Fields) returns (merged: Fields)
    ensures merged == Documents.Merge(data, patch)
  {
    var target := Unmarshal(data);
    var patchObject := Unmarshal(patch);
    var result := MergePatch(target, patchObject);
    merged := Marshal(result);
  }
}
