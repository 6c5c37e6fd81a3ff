/** The rows of one table: keyed by (pk, rk), with rk empty in a table that has no range key. */
module Rows {
  import opened Text
  import opened JsonValues
  import opened Sequences

  datatype Key = Key(pk: string, rk: string)

  // updatedAt is the now() stamp of the last write.
  datatype Row = Row(data: Fields, updatedAt: int)

  type Table = map<Key, Row>

  // A key that the item endpoints accept for a table with, or without, a range key.
  predicate ValidKey(k: Key, hasRK: bool) {
    KeyValueOk(k.pk) && if hasRK then KeyValueOk(k.rk) else k.rk == ""
  }

  ghost predicate ValidKeys(table: Table, hasRK: bool) {
    forall k | k in table :: ValidKey(k, hasRK)
  }

  // ORDER BY pk, rk under the collation lt.
  predicate KeyLt(lt: (string, string) -> bool, a: Key, b: Key) {
    lt(a.pk, b.pk) || (a.pk == b.pk && lt(a.rk, b.rk))
  }

  function KeyOrder(lt: (string, string) -> bool): (Key, Key) -> bool {
    (a: Key, b: Key) => KeyLt(lt, a, b)
  }

  lemma KeyOrderStrict(lt: (string, string) -> bool)
    requires StrictTotalOrder(lt)
    ensures StrictOrder(KeyOrder(lt))
  {
  }
}
