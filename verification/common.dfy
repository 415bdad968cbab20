/** Option and Result types shared by the whole model, and the
    last-insert-wins fold that builds a hash map from a list of inserts
    (used for the manual MAC mapping). */
module Common {

  /** Rust's `Option<T>`. */
  datatype Option<+T> = None | Some(value: T)

  /** Rust's `Result<T, E>`. */
  datatype Result<+T, +E> = Ok(value: T) | Err(error: E)

  /** The keys a list of inserts mentions. */
  function KeysOf<K, V>(pairs: seq<(K, V)>): set<K>
  {
    set i | 0 <= i < |pairs| :: pairs[i].0
  }

  /** Index `i` holds the last insert of its key. */
  predicate IsLastInsert<K(==), V>(pairs: seq<(K, V)>, i: int)
    requires 0 <= i < |pairs|
  {
    forall j :: i < j < |pairs| ==> pairs[j].0 != pairs[i].0
  }

  /** Inserting `pairs` one after another into an empty hash map, as a
      sequence of `HashMap::insert` calls does: a later insert of the same
      key replaces the earlier value. */
  function FromInserts<K(==), V>(pairs: seq<(K, V)>): (m: map<K, V>)
    ensures m.Keys == KeysOf(pairs)
    ensures forall i :: 0 <= i < |pairs| && IsLastInsert(pairs, i) ==> m[pairs[i].0] == pairs[i].1
  {
    if |pairs| == 0 then map[]
    else
      var init := pairs[..|pairs| - 1];
      var last := pairs[|pairs| - 1];
      var m := FromInserts(init)[last.0 := last.1];
      assert KeysOf(pairs) == KeysOf(init) + {last.0} by {
        forall k | k in KeysOf(pairs) ensures k in KeysOf(init) + {last.0} {
          var i :| 0 <= i < |pairs| && pairs[i].0 == k;
          if i < |pairs| - 1 {
            assert init[i] == pairs[i];
          }
        }
        forall k | k in KeysOf(init) ensures k in KeysOf(pairs) {
          var i :| 0 <= i < |init| && init[i].0 == k;
          assert pairs[i] == init[i];
        }
      }
      assert forall i :: 0 <= i < |pairs| - 1 && IsLastInsert(pairs, i) ==> IsLastInsert(init, i);
      m
  }
}
