/** Documents: stripping and injecting key fields, and the service's merge patch
    set against section 2 of RFC 7396. */
module Documents {
  import opened JsonValues

  // ---------- key fields ----------

  // rkField is empty when the table has no range key.
  function Stripped(data: Fields, pkField: string, rkField: string): Fields {
    data - {pkField} - (if rkField != "" then {rkField} else {})
  }

  function Injected(data: Fields, pkField: string, pk: string, rkField: string, rk: string): Fields {
    var withPk := data[pkField := Str(pk)];
    if rkField != "" then withPk[rkField := Str(rk)] else withPk
  }

  // The key fields, with exactly the given values, are members of data.
  predicate CarriesKeys(data: Fields, pkField: string, pk: string, rkField: string, rk: string) {
    && pkField in data && data[pkField] == Str(pk)
    && (rkField != "" ==> rkField in data && data[rkField] == Str(rk))
  }

  predicate NoKeyFields(data: Fields, pkField: string, rkField: string) {
    pkField !in data && (rkField != "" ==> rkField !in data)
  }

  method StripKeys(data: Fields, pkField: string, rkField: string) returns (result: Fields)
    ensures result == Stripped(data, pkField, rkField)
  {
    result := map[];
    var rest := data.Keys;
    while rest != {}
      invariant rest <= data.Keys
      invariant result == Stripped(map k | k in data && k !in rest :: data[k], pkField, rkField)
      decreases rest
    {
      var k :| k in rest;
      rest := rest - {k};
      if k == pkField || (rkField != "" && k == rkField) {
        continue;
      }
      result := result[k := data[k]];
    }
    assert (map k | k in data && k !in rest :: data[k]) == data;
  }

  method InjectKeys(data: Fields, pkField: string, pk: string, rkField: string, rk: string) returns (result: Fields)
    ensures result == Injected(data, pkField, pk, rkField, rk)
  {
    result := map[];
    var rest := data.Keys;
    while rest != {}
      invariant rest <= data.Keys
      invariant result == map k | k in data && k !in rest :: data[k]
      decreases rest
    {
      var k :| k in rest;
      rest := rest - {k};
      result := result[k := data[k]];
    }
    assert result == data;
    result := result[pkField := Str(pk)];
    if rkField != "" {
      result := result[rkField := Str(rk)];
    }
  }

  // What is read back after a document was stored without its key fields: the document
  // itself exactly when it carried both, and otherwise the document with them filled in.
  lemma InjectUndoesStrip(data: Fields, pkField: string, pk: string, rkField: string, rk: string)
    requires pkField != rkField
    ensures var back := Injected(Stripped(data, pkField, rkField), pkField, pk, rkField, rk);
            && (back == data <==> CarriesKeys(data, pkField, pk, rkField, rk))
            && back == Injected(data, pkField, pk, rkField, rk)
            && CarriesKeys(back, pkField, pk, rkField, rk)
  {
    var back := Injected(Stripped(data, pkField, rkField), pkField, pk, rkField, rk);
    assert back == Injected(data, pkField, pk, rkField, rk);
    if CarriesKeys(data, pkField, pk, rkField, rk) {
      assert back == data;
    }
  }

  // Storing a document that was read back changes nothing.
  lemma StripUndoesInject(data: Fields, pkField: string, pk: string, rkField: string, rk: string)
    requires NoKeyFields(data, pkField, rkField)
    ensures Stripped(Injected(data, pkField, pk, rkField, rk), pkField, rkField) == data
  {
    assert Stripped(Injected(data, pkField, pk, rkField, rk), pkField, rkField) == data;
  }

  // ---------- merge patch ----------

  // One application of the service's merge: a null member deletes; an object member
  // recurses only where the target holds an object; anything else replaces, nulls inside it and all.
  function Merge(target: Fields, patch: Fields): Fields
    decreases Obj(patch), 0
  {
    map k | k in target.Keys + patch.Keys && !(k in patch && patch[k].Null?) ::
      if k !in patch then target[k] else MergeMember(target, k, patch[k])
  }

  function MergeMember(target: Fields, k: string, value: Json): Json
    decreases value, 1
  {
    if value.Obj? && k in target && target[k].Obj?
    then Obj(Merge(target[k].fields, value.fields))
    else value
  }

  // Section 2 of RFC 7396: a patch object applies to an empty object where the target holds none.
  function RfcMerge(target: Json, patch: Json): Json
    decreases patch
  {
    if !patch.Obj? then patch
    else
      var base := if target.Obj? then target.fields else map[];
      Obj(map k | k in base.Keys + patch.fields.Keys && !(k in patch.fields && patch.fields[k].Null?) ::
        if k !in patch.fields then base[k]
        else RfcMerge(if k in base then base[k] else Null, patch.fields[k]))
  }

  // No null member can be reached in p through objects alone.
  predicate NullFree(p: Fields)
    decreases Obj(p)
  {
    forall k | k in p :: !p[k].Null? && (p[k].Obj? ==> NullFree(p[k].fields))
  }

  // Wherever the patch has an object and the target has none at that path, the patch's object is null free.
  predicate NoNullsGrafted(target: Fields, patch: Fields)
    decreases Obj(patch)
  {
    forall k | k in patch && patch[k].Obj? ::
      if k in target && target[k].Obj?
      then NoNullsGrafted(target[k].fields, patch[k].fields)
      else NullFree(patch[k].fields)
  }

  lemma {:induction false} NullFreeIffRfcKeepsIt(target: Json, p: Fields)
    requires !target.Obj?
    ensures NullFree(p) <==> RfcMerge(target, Obj(p)) == Obj(p)
    decreases Obj(p)
  {
    forall k | k in p
      ensures (p[k].Obj? ==> NullFree(p[k].fields)) <==> RfcMerge(Null, p[k]) == p[k]
    {
      if p[k].Obj? { NullFreeIffRfcKeepsIt(Null, p[k].fields); }
    }
    var merged := RfcMerge(target, Obj(p)).fields;
    if NullFree(p) {
      assert merged == p;
    } else {
      var k :| k in p && (p[k].Null? || (p[k].Obj? && !NullFree(p[k].fields)));
      assert k !in merged || merged[k] != p[k];
    }
  }

  // One application meets the RFC exactly when no nulls are grafted.
  lemma {:induction false} MergeMeetsRfcIff(target: Fields, patch: Fields)
    ensures Obj(Merge(target, patch)) == RfcMerge(Obj(target), Obj(patch)) <==> NoNullsGrafted(target, patch)
    decreases Obj(patch)
  {
    var rfc := RfcMerge(Obj(target), Obj(patch)).fields;
    var merged := Merge(target, patch);
    assert merged.Keys == rfc.Keys;
    forall k | k in merged
      ensures merged[k] == rfc[k] <==> (k in patch && patch[k].Obj? ==>
                if k in target && target[k].Obj?
                then NoNullsGrafted(target[k].fields, patch[k].fields)
                else NullFree(patch[k].fields))
    {
      assert k in patch ==> merged[k] == MergeMember(target, k, patch[k]);
      assert k in patch ==> rfc[k] == RfcMerge(if k in target then target[k] else Null, patch[k]);
      if k in patch && patch[k].Obj? {
        if k in target && target[k].Obj? {
          assert target[k] == Obj(target[k].fields);
          MergeMeetsRfcIff(target[k].fields, patch[k].fields);
        } else {
          NullFreeIffRfcKeepsIt(if k in target then target[k] else Null, patch[k].fields);
        }
      }
    }
    if NoNullsGrafted(target, patch) {
      assert merged == rfc;
    }
  }

  // A patch merged into itself loses exactly its reachable nulls.
  lemma {:induction false} MergeWithItself(p: Fields, target: Json)
    requires !target.Obj?
    ensures Obj(Merge(p, p)) == RfcMerge(target, Obj(p))
    decreases Obj(p)
  {
    forall k | k in p && p[k].Obj?
      ensures Obj(Merge(p[k].fields, p[k].fields)) == RfcMerge(Null, p[k])
    {
      MergeWithItself(p[k].fields, Null);
    }
    assert Merge(p, p) == RfcMerge(target, Obj(p)).fields;
  }

  // Two applications are the RFC's merge, whatever the documents.
  lemma {:induction false} MergeTwiceIsRfc(target: Fields, patch: Fields)
    ensures Obj(Merge(Merge(target, patch), patch)) == RfcMerge(Obj(target), Obj(patch))
    decreases Obj(patch)
  {
    var once := Merge(target, patch);
    forall k | k in patch && !patch[k].Null?
      ensures MergeMember(once, k, patch[k]) == RfcMerge(if k in target then target[k] else Null, patch[k])
    {
      assert once[k] == MergeMember(target, k, patch[k]);
      if !patch[k].Obj? {
      } else if k in target && target[k].Obj? {
        assert target[k] == Obj(target[k].fields);
        MergeTwiceIsRfc(target[k].fields, patch[k].fields);
      } else {
        MergeWithItself(patch[k].fields, if k in target then target[k] else Null);
      }
    }
    assert Merge(once, patch) == RfcMerge(Obj(target), Obj(patch)).fields;
  }

  // The RFC's result absorbs a further application.
  lemma {:induction false} RfcAbsorbsMerge(target: Json, p: Fields)
    ensures Obj(Merge(RfcMerge(target, Obj(p)).fields, p)) == RfcMerge(target, Obj(p))
    decreases Obj(p)
  {
    var base := if target.Obj? then target.fields else map[];
    var rfc := RfcMerge(target, Obj(p)).fields;
    forall k | k in p && !p[k].Null?
      ensures MergeMember(rfc, k, p[k]) == rfc[k]
    {
      assert rfc[k] == RfcMerge(if k in base then base[k] else Null, p[k]);
      if p[k].Obj? {
        RfcAbsorbsMerge(if k in base then base[k] else Null, p[k].fields);
      }
    }
    assert Merge(rfc, p) == rfc;
  }

  function MergeTimes(n: nat, target: Fields, patch: Fields): Fields {
    if n == 0 then target else Merge(MergeTimes(n - 1, target, patch), patch)
  }

  // From the second application on, the document is the RFC's result and stays so.
  lemma {:induction false} MergeSettles(n: nat, target: Fields, patch: Fields)
    requires n >= 2
    ensures Obj(MergeTimes(n, target, patch)) == RfcMerge(Obj(target), Obj(patch))
  {
    if n == 2 {
      assert MergeTimes(1, target, patch) == Merge(MergeTimes(0, target, patch), patch);
      MergeTwiceIsRfc(target, patch);
    } else {
      MergeSettles(n - 1, target, patch);
      RfcAbsorbsMerge(Obj(target), patch);
    }
  }

  // {"a": {"b": null}} applied to {}: the service stores the null, the RFC does not.
  const GRAFT: Fields := map["a" := Obj(map["b" := Null])]
  const NOTHING: Fields := map[]

  // One application can differ from the RFC.
  lemma MergeCanMissRfc()
    ensures Merge(NOTHING, GRAFT) == map["a" := Obj(map["b" := Null])]
    ensures RfcMerge(Obj(NOTHING), Obj(GRAFT)) == Obj(map["a" := Obj(NOTHING)])
    ensures Obj(Merge(NOTHING, GRAFT)) != RfcMerge(Obj(NOTHING), Obj(GRAFT))
  {
    var inner: Fields := map["b" := Null];
    assert Merge(NOTHING, GRAFT) == GRAFT;
    assert RfcMerge(Null, Obj(inner)) == Obj(NOTHING);
    assert RfcMerge(Obj(NOTHING), Obj(GRAFT)).fields == map["a" := Obj(NOTHING)];
    assert "b" in inner && "b" !in NOTHING;
    assert GRAFT["a"] != map["a" := Obj(NOTHING)]["a"];
  }

  // Merging never introduces a key that breaks the JSON key rule.
  lemma {:induction false} MergeKeepsKeysOk(target: Fields, patch: Fields)
    requires KeysOk(Obj(target)) && KeysOk(Obj(patch))
    ensures KeysOk(Obj(Merge(target, patch)))
    decreases Obj(patch)
  {
    forall k | k in patch && patch[k].Obj? && k in target && target[k].Obj?
      ensures KeysOk(Obj(Merge(target[k].fields, patch[k].fields)))
    {
      assert KeysOk(target[k]) && KeysOk(patch[k]);
      MergeKeepsKeysOk(target[k].fields, patch[k].fields);
    }
  }
}
