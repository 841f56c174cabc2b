// What each call on the hash table answers and what can be found in it afterwards, told
// by the entries its chains hold.
module HashLaws {
  import opened Common
  import opened ListSpec
  import opened HashSpec

  // Some entry of some chain has a key equal to k and holds v.
  ghost predicate Stores<K, V>(ks: Keys<K>, t: Table<K, V>, k: K, v: Option<V>)
  {
    exists b, i :: 0 <= b < |t.buckets| && 0 <= i < |t.buckets[b]|
                   && ks.keyEq(t.buckets[b][i].key, k) && t.buckets[b][i].value == v
  }

  ghost predicate StoresNone<K, V>(ks: Keys<K>, t: Table<K, V>, k: K)
  {
    forall b, i | 0 <= b < |t.buckets| && 0 <= i < |t.buckets[b]| :: !ks.keyEq(t.buckets[b][i].key, k)
  }

  // Searching finds a value exactly when an entry with an equal key, in whatever chain,
  // holds it, and finds nothing exactly when no entry of the table has an equal key.
  lemma SearchIff<K(!new), V>(ks: Keys<K>, t: Table<K, V>, k: K, v: Option<V>)
    requires Lawful(ks) && Placed(ks, t)
    ensures Search(ks, t, k) == Some(v) <==> Stores(ks, t, k, v)
    ensures Search(ks, t, k) == None <==> StoresNone(ks, t, k)
  {
    hide Lawful, Bucket;
    var b := Bucket(ks, k, |t.buckets|);
    var p := Find(ks, t.buckets[b], k, 0);
    forall c, i | 0 <= c < |t.buckets| && 0 <= i < |t.buckets[c]| && ks.keyEq(t.buckets[c][i].key, k)
      ensures c == b && i == p
    {
      EqualKeys(ks, t.buckets[c][i].key, k, |t.buckets|);
      EqualToBoth(ks, t.buckets[b][p].key, t.buckets[c][i].key, k);
      StoredOnce(ks, t, b, p, i);
    }
  }

  // ---------------------------------------------------------------- one chain

  function Look<K, V>(ks: Keys<K>, chain: seq<Entry<K, V>>, k: K): Option<Option<V>>
  {
    var p := Find(ks, chain, k, 0);
    if p < |chain| then Some(chain[p].value) else None
  }

  // The first entry with an equal key is the one the scan finds.
  lemma LooksAt<K, V>(ks: Keys<K>, chain: seq<Entry<K, V>>, k: K, p: nat)
    requires p <= |chain| && (p < |chain| ==> ks.keyEq(chain[p].key, k))
    requires forall j | 0 <= j < p :: !ks.keyEq(chain[j].key, k)
    ensures Look(ks, chain, k) == if p < |chain| then Some(chain[p].value) else None
  {
    var f := Find(ks, chain, k, 0);
    assert f <= p;
  }

  // Two keys that equal the same entry's are equal, and a key equal to another finds it.
  lemma SameEntry<K(!new), V>(ks: Keys<K>, chain: seq<Entry<K, V>>, k: K, q: K)
    requires Lawful(ks)
    ensures var p := Find(ks, chain, k, 0);
            && (p < |chain| ==> (ks.keyEq(k, q) <==> ks.keyEq(chain[p].key, q)))
            && (forall j | 0 <= j < p && ks.keyEq(chain[j].key, q) :: !ks.keyEq(k, q))
  {
    var p := Find(ks, chain, k, 0);
    if p < |chain| {
      assert ks.keyEq(chain[p].key, k) && ks.keyEq(k, chain[p].key);
    }
    forall j | 0 <= j < p && ks.keyEq(chain[j].key, q) ensures !ks.keyEq(k, q) {
      if ks.keyEq(k, q) { EqualToBoth(ks, chain[j].key, k, q); }
    }
  }

  lemma LookReplaced<K(!new), V>(ks: Keys<K>, chain: seq<Entry<K, V>>, k: K, v: Option<V>, q: K)
    requires Lawful(ks) && Find(ks, chain, k, 0) < |chain|
    ensures var p := Find(ks, chain, k, 0);
            Look(ks, chain[p := chain[p].(value := v)], q) == if ks.keyEq(k, q) then Some(v) else Look(ks, chain, q)
  {
    SameEntry(ks, chain, k, q);
    hide Lawful;
    var p, f := Find(ks, chain, k, 0), Find(ks, chain, q, 0);
    var next := chain[p := chain[p].(value := v)];
    forall j | 0 <= j < |chain| ensures next[j].key == chain[j].key {
    }
    LooksAt(ks, next, q, f);
  }

  lemma LookPrepended<K(!new), V>(ks: Keys<K>, chain: seq<Entry<K, V>>, k: K, v: Option<V>, q: K)
    ensures Look(ks, [Entry(k, v)] + chain, q) == if ks.keyEq(k, q) then Some(v) else Look(ks, chain, q)
  {
    var next := [Entry(k, v)] + chain;
    if ks.keyEq(k, q) {
      LooksAt(ks, next, q, 0);
    } else {
      var f := Find(ks, chain, q, 0);
      forall j | 0 <= j < f + 1 ensures !ks.keyEq(next[j].key, q) {
        if j > 0 { assert next[j] == chain[j - 1]; }
      }
      LooksAt(ks, next, q, f + 1);
    }
  }

  ghost predicate KeysDiffer<K, V>(ks: Keys<K>, chain: seq<Entry<K, V>>)
  {
    forall i, j | 0 <= i < j < |chain| :: !ks.keyEq(chain[i].key, chain[j].key)
  }

  lemma LookWithout<K(!new), V>(ks: Keys<K>, chain: seq<Entry<K, V>>, k: K, q: K)
    requires Lawful(ks) && Find(ks, chain, k, 0) < |chain| && KeysDiffer(ks, chain)
    ensures Look(ks, Without(chain, Find(ks, chain, k, 0)), q) == if ks.keyEq(k, q) then None else Look(ks, chain, q)
  {
    SameEntry(ks, chain, k, q);
    hide Lawful, Without;
    var p, f := Find(ks, chain, k, 0), Find(ks, chain, q, 0);
    WithoutItems(chain, p);
    var next := Without(chain, p);
    if ks.keyEq(k, q) {
      forall j | 0 <= j < |next| ensures !ks.keyEq(next[j].key, q) {
        var i := if j < p then j else j + 1;
      }
      LooksAt(ks, next, q, |next|);
    } else {
      LooksAt(ks, next, q, if f < p then f else f - 1);
    }
  }

  // ---------------------------------------------------------------- the table

  // Two keys in different buckets are not equal.
  lemma BucketsApart<K(!new)>(ks: Keys<K>, k: K, q: K, n: nat)
    requires Lawful(ks) && 0 < n && ks.hash(k) % n != ks.hash(q) % n
    ensures !ks.keyEq(k, q)
  {
  }

  // An insert succeeds exactly when the value can be allocated and, unless an equal key is
  // there, entry and key as well.  Afterwards an equal key finds the new value if it
  // succeeded; if not, a key that was there finds that its value is gone.  Every other key
  // finds what it found before.  A new entry comes first in the chain of its hash.
  lemma InsertLaws<K(!new), V>(ks: Keys<K>, t: Table<K, V>, k: K, v: V, memory: Memory, q: K)
    requires Lawful(ks) && 0 < |t.buckets|
    ensures var (t', s) := Insert(ks, t, k, v, memory);
            var there, b := Search(ks, t, k) != None, ks.hash(k) % |t.buckets|;
            && s == (if memory.valueOk && (there || (memory.entryOk && memory.keyOk)) then 0 else -1)
            && t'.size == t.size + (if s == 0 && !there then 1 else 0)
            && |t'.buckets| == |t.buckets|
            && Search(ks, t', q) == (if !ks.keyEq(k, q) then Search(ks, t, q)
                                     else if s == 0 then Some(Some(v)) else if there then Some(None) else None)
            && (!there && s == 0 ==> t'.buckets[b] == [Entry(k, Some(v))] + t.buckets[b])
            && (!there && s == -1 ==> t' == t)
  {
    var n := |t.buckets|;
    var b := Bucket(ks, k, n);
    var chain := t.buckets[b];
    if Bucket(ks, q, n) == b {
      SameEntry(ks, chain, k, q);
      LookPrepended(ks, chain, k, Some(v), q);
      if Find(ks, chain, k, 0) < |chain| {
        LookReplaced(ks, chain, k, if memory.valueOk then Some(v) else None, q);
      } else if ks.keyEq(k, q) {
        NotFoundAlike(ks, chain, k, q);
      }
    } else {
      BucketsApart(ks, k, q, n);
    }
  }

  lemma NotFoundAlike<K(!new), V>(ks: Keys<K>, chain: seq<Entry<K, V>>, k: K, q: K)
    requires Lawful(ks) && Find(ks, chain, k, 0) == |chain| && ks.keyEq(k, q)
    ensures Find(ks, chain, q, 0) == |chain|
  {
    SameEntry(ks, chain, k, q);
  }

  // A removal succeeds exactly when an equal key is there, and then no equal key is found
  // any more; every other key finds what it found before.
  lemma RemoveLaws<K(!new), V>(ks: Keys<K>, t: Table<K, V>, k: K, q: K)
    requires Lawful(ks) && Placed(ks, t)
    ensures var (t', s) := Remove(ks, t, k);
            var there := Search(ks, t, k) != None;
            && s == (if there then 0 else -1)
            && t'.size == t.size - (if there then 1 else 0)
            && |t'.buckets| == |t.buckets|
            && Search(ks, t', q) == (if ks.keyEq(k, q) then None else Search(ks, t, q))
            && (!there ==> t' == t)
  {
    hide Lawful;
    var n := |t.buckets|;
    var b := Bucket(ks, k, n);
    var chain := t.buckets[b];
    assert KeysDiffer(ks, chain);
    if Bucket(ks, q, n) == b {
      if Find(ks, chain, k, 0) < |chain| {
        LookWithout(ks, chain, k, q);
      } else if ks.keyEq(k, q) {
        NotFoundAlike(ks, chain, k, q);
      }
    } else {
      BucketsApart(ks, k, q, n);
    }
  }

  // In every state a run can reach these hold, and each entry is in the chain of its hash.
  lemma RunKeepsPlaced<K(!new), V>(ks: Keys<K>, n: nat, ops: seq<HashSpec.Op<K, V>>)
    requires Lawful(ks)
    ensures var t := HashSpec.Run(ks, Empty(n), ops).0;
            && |t.buckets| == (if n == 0 then 16 else n) && Placed(ks, t)
            && forall b, i | 0 <= b < |t.buckets| && 0 <= i < |t.buckets[b]| ::
                 ks.hash(t.buckets[b][i].key) % |t.buckets| == b
  {
    hide Lawful;
    EmptyRefines<K, V>(ks, n);
    var m: Model<K, V> := map[];
    RunRefines(ks, Empty(n), m, ops);
    hide Refines, HashSpec.Run;
    var t := HashSpec.Run(ks, Empty(n), ops).0;
    assert Placed(ks, t) by { StillPlaced(ks, t, MapRun(ks.keyEq, m, ops).0); }
    forall b, i | 0 <= b < |t.buckets| && 0 <= i < |t.buckets[b]|
      ensures ks.hash(t.buckets[b][i].key) % |t.buckets| == b
    {
      assert Bucket(ks, t.buckets[b][i].key, |t.buckets|) == b;
    }
  }

  lemma StillPlaced<K(!new), V>(ks: Keys<K>, t: Table<K, V>, m: Model<K, V>)
    requires Refines(ks, t, m)
    ensures Placed(ks, t)
  {
  }
}
