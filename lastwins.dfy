/** The upsert fold behind every dictionary the script fills in a loop
    (`d[key] = value` for each usable item, in order): an entry sequence
    where `None` marks an item that is skipped. A later entry for a key
    overwrites an earlier one. */
module LastWins {
  import opened Wrappers

  /** The dictionary left after upserting `entries` in order into `{}`. */
  function Collect<K(==), V>(entries: seq<Option<(K, V)>>): map<K, V>
  {
    if entries == [] then map[]
    else
      var m := Collect(entries[..|entries| - 1]);
      match entries[|entries| - 1]
      case None => m
      case Some(kv) => m[kv.0 := kv.1]
  }

  /** Entry `e` writes key `k`. */
  predicate Writes<K(==), V>(e: Option<(K, V)>, k: K) {
    e.Some? && e.value.0 == k
  }

  /** A key is in the dictionary exactly when some entry writes it. */
  lemma {:induction false} CollectKeys<K, V>(entries: seq<Option<(K, V)>>, k: K)
    ensures k in Collect(entries) <==> exists i :: 0 <= i < |entries| && Writes(entries[i], k)
  {
    if entries != [] {
      var n := |entries| - 1;
      var init := entries[..n];
      CollectKeys(init, k);
      if k in Collect(init) {
        var i :| 0 <= i < |init| && Writes(init[i], k);
        assert Writes(entries[i], k);
      }
      if exists i :: 0 <= i < |entries| && Writes(entries[i], k) {
        var i :| 0 <= i < |entries| && Writes(entries[i], k);
        if i < n {
          assert Writes(init[i], k);
        }
      }
    }
  }

  /** The value stored under a key is the one written by the last entry
      that writes it. */
  lemma {:induction false} CollectLastWins<K, V>(entries: seq<Option<(K, V)>>, i: nat)
    requires i < |entries| && entries[i].Some?
    requires forall j :: i < j < |entries| ==> !Writes(entries[j], entries[i].value.0)
    ensures entries[i].value.0 in Collect(entries)
    ensures Collect(entries)[entries[i].value.0] == entries[i].value.1
  {
    var n := |entries| - 1;
    if i < n {
      var init := entries[..n];
      assert forall j :: i < j < |init| ==> init[j] == entries[j];
      CollectLastWins(init, i);
      assert !Writes(entries[n], entries[i].value.0);
    }
  }

  /** Appending an entry performs one more upsert. */
  lemma CollectSnoc<K, V>(entries: seq<Option<(K, V)>>, e: Option<(K, V)>)
    ensures Collect(entries + [e]) == match e case None => Collect(entries) case Some(kv) => Collect(entries)[kv.0 := kv.1]
  {
    assert (entries + [e])[..|entries|] == entries;
  }

  /** A skipped item in the middle of the sequence can be taken out without
      changing the dictionary. */
  lemma {:induction false} CollectDropSkipped<K, V>(front: seq<Option<(K, V)>>, back: seq<Option<(K, V)>>)
    ensures Collect(front + [None] + back) == Collect(front + back)
    decreases |back|
  {
    if back == [] {
      assert front + [None] + back == front + [None];
      assert front + back == front;
      CollectSnoc(front, None);
    } else {
      var n := |back| - 1;
      var init := back[..n];
      CollectDropSkipped(front, init);
      assert front + [None] + back == (front + [None] + init) + [back[n]];
      assert front + back == (front + init) + [back[n]];
      CollectSnoc(front + [None] + init, back[n]);
      CollectSnoc(front + init, back[n]);
    }
  }
}
