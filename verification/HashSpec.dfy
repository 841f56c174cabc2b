// The chained hash table as a value, and its refinement of a finite map.
module HashSpec {
  import opened Common
  import opened ListSpec

  // A stored pair; the value is None after a replacement whose malloc failed.
  datatype Entry<K, V> = Entry(key: K, value: Option<V>)

  // Which of the mallocs of an insert succeed.
  datatype Memory = Memory(entryOk: bool, keyOk: bool, valueOk: bool)

  // `hash` and `keyEq` are the caller's; keyEq(a, b) means the C function returns 0.
  datatype Keys<!K> = Keys(hash: K -> nat, keyEq: (K, K) -> bool)

  datatype Table<K, V> = Table(buckets: seq<seq<Entry<K, V>>>, size: int)

  // What the callers must supply: an equivalence that the hash respects.
  ghost predicate Lawful<K(!new)>(ks: Keys<K>)
  {
    && (forall a :: ks.keyEq(a, a))
    && (forall a, b :: ks.keyEq(a, b) ==> ks.keyEq(b, a) && ks.hash(a) == ks.hash(b))
    && (forall a, b, c :: ks.keyEq(a, b) && ks.keyEq(b, c) ==> ks.keyEq(a, c))
  }

  function Bucket<K>(ks: Keys<K>, k: K, n: nat): (b: nat)
    requires 0 < n
    ensures b < n
  {
    ks.hash(k) % n
  }

  // Position of the first entry from i on whose key equals k, or the chain's length.
  function Find<K, V>(ks: Keys<K>, chain: seq<Entry<K, V>>, k: K, i: nat): (p: nat)
    requires i <= |chain|
    ensures i <= p <= |chain|
    ensures p < |chain| ==> ks.keyEq(chain[p].key, k)
    ensures forall j | i <= j < p :: !ks.keyEq(chain[j].key, k)
    decreases |chain| - i
  {
    if i == |chain| || ks.keyEq(chain[i].key, k) then i else Find(ks, chain, k, i + 1)
  }

  function Insert<K, V>(ks: Keys<K>, t: Table<K, V>, k: K, v: V, memory: Memory): (Table<K, V>, int)
    requires 0 < |t.buckets|
  {
    var b := Bucket(ks, k, |t.buckets|);
    var chain := t.buckets[b];
    var p := Find(ks, chain, k, 0);
    if p < |chain| then
      // the old value is released before the new one is allocated
      var e := chain[p].(value := if memory.valueOk then Some(v) else None);
      (t.(buckets := t.buckets[b := chain[p := e]]), if memory.valueOk then 0 else -1)
    else if memory.entryOk && memory.keyOk && memory.valueOk then
      (Table(t.buckets[b := [Entry(k, Some(v))] + chain], t.size + 1), 0)
    else
      (t, -1)
  }

  function Search<K, V>(ks: Keys<K>, t: Table<K, V>, k: K): Option<Option<V>>
    requires 0 < |t.buckets|
  {
    var chain := t.buckets[Bucket(ks, k, |t.buckets|)];
    var p := Find(ks, chain, k, 0);
    if p < |chain| then Some(chain[p].value) else None
  }

  function Remove<K, V>(ks: Keys<K>, t: Table<K, V>, k: K): (Table<K, V>, int)
    requires 0 < |t.buckets|
  {
    var b := Bucket(ks, k, |t.buckets|);
    var chain := t.buckets[b];
    var p := Find(ks, chain, k, 0);
    if p < |chain| then
      (Table(t.buckets[b := Without(chain, p)], t.size - 1), 0)
    else
      (t, -1)
  }

  // ---------------------------------------------------------------- the finite map

  // The reference: a map from stored keys, of which at most one equals any given key.
  type Model<K, V> = map<K, Option<V>>

  ghost predicate Has<K, V>(keyEq: (K, K) -> bool, m: Model<K, V>, k: K)
  {
    exists r :: r in m && keyEq(r, k)
  }

  ghost function StoredKey<K, V>(keyEq: (K, K) -> bool, m: Model<K, V>, k: K): (r: K)
    requires Has(keyEq, m, k)
    ensures r in m && keyEq(r, k)
  {
    var r :| r in m && keyEq(r, k);
    r
  }

  ghost function MapInsert<K, V>(keyEq: (K, K) -> bool, m: Model<K, V>, k: K, v: V, memory: Memory): (Model<K, V>, int)
  {
    if Has(keyEq, m, k) then
      if memory.valueOk then (m[StoredKey(keyEq, m, k) := Some(v)], 0) else (m[StoredKey(keyEq, m, k) := None], -1)
    else if memory.entryOk && memory.keyOk && memory.valueOk then (m[k := Some(v)], 0)
    else (m, -1)
  }

  ghost function MapSearch<K, V>(keyEq: (K, K) -> bool, m: Model<K, V>, k: K): Option<Option<V>>
  {
    if Has(keyEq, m, k) then Some(m[StoredKey(keyEq, m, k)]) else None
  }

  ghost function MapRemove<K, V>(keyEq: (K, K) -> bool, m: Model<K, V>, k: K): (Model<K, V>, int)
  {
    if Has(keyEq, m, k) then (m - {StoredKey(keyEq, m, k)}, 0) else (m, -1)
  }

  // ---------------------------------------------------------------- refinement

  // Every entry sits in the bucket of its key and no two entries of a chain share a key.
  ghost predicate Placed<K, V>(ks: Keys<K>, t: Table<K, V>)
  {
    && 0 < |t.buckets|
    && (forall b, i | 0 <= b < |t.buckets| && 0 <= i < |t.buckets[b]| ::
          Bucket(ks, t.buckets[b][i].key, |t.buckets|) == b)
    && (forall b, i, j | 0 <= b < |t.buckets| && 0 <= i < j < |t.buckets[b]| ::
          !ks.keyEq(t.buckets[b][i].key, t.buckets[b][j].key))
  }

  ghost predicate At<K, V>(t: Table<K, V>, b: nat, i: nat, k: K)
  {
    b < |t.buckets| && i < |t.buckets[b]| && t.buckets[b][i].key == k
  }

  // The values stored are the map's.
  ghost predicate Agrees<K, V>(t: Table<K, V>, m: Model<K, V>)
  {
    forall b, i | 0 <= b < |t.buckets| && 0 <= i < |t.buckets[b]| ::
      t.buckets[b][i].key in m && m[t.buckets[b][i].key] == t.buckets[b][i].value
  }

  ghost predicate Refines<K, V>(ks: Keys<K>, t: Table<K, V>, m: Model<K, V>)
  {
    && Placed(ks, t)
    && Agrees(t, m)
    && AllStored(ks, t, m)
    && t.size == |m|
  }

  ghost predicate AllStored<K, V>(ks: Keys<K>, t: Table<K, V>, m: Model<K, V>)
    requires 0 < |t.buckets|
  {
    forall k | k in m :: exists i: nat :: At(t, Bucket(ks, k, |t.buckets|), i, k)
  }

  lemma EqualKeys<K(!new)>(ks: Keys<K>, a: K, b: K, n: nat)
    requires Lawful(ks) && ks.keyEq(a, b) && 0 < n
    ensures ks.keyEq(b, a) && Bucket(ks, a, n) == Bucket(ks, b, n)
  {
  }

  lemma Symmetric<K(!new)>(ks: Keys<K>, a: K, b: K)
    requires Lawful(ks)
    ensures ks.keyEq(a, b) ==> ks.keyEq(b, a)
  {
  }

  lemma EqualToBoth<K(!new)>(ks: Keys<K>, a: K, b: K, c: K)
    requires Lawful(ks) && ks.keyEq(a, c) && ks.keyEq(b, c)
    ensures ks.keyEq(a, b)
  {
    assert ks.keyEq(c, b);
  }

  // Two equal stored keys are the same entry.
  lemma StoredOnce<K(!new), V>(ks: Keys<K>, t: Table<K, V>, b: nat, i: nat, j: nat)
    requires Lawful(ks) && Placed(ks, t) && b < |t.buckets| && i < |t.buckets[b]| && j < |t.buckets[b]|
    requires ks.keyEq(t.buckets[b][i].key, t.buckets[b][j].key)
    ensures i == j
  {
    hide Bucket;
    EqualKeys(ks, t.buckets[b][i].key, t.buckets[b][j].key, 1);
  }

  // The chain scan finds k exactly when the map has it, and then at the stored key.
  lemma FindIsLookup<K(!new), V>(ks: Keys<K>, t: Table<K, V>, m: Model<K, V>, k: K)
    requires Lawful(ks) && Refines(ks, t, m)
    ensures var chain := t.buckets[Bucket(ks, k, |t.buckets|)];
            var p := Find(ks, chain, k, 0);
            && (p < |chain| <==> Has(ks.keyEq, m, k))
            && (p < |chain| ==> chain[p].key == StoredKey(ks.keyEq, m, k) && m[chain[p].key] == chain[p].value)
  {
    hide Bucket, Lawful;
    var b := Bucket(ks, k, |t.buckets|);
    var chain := t.buckets[b];
    var p := Find(ks, chain, k, 0);
    if p < |chain| {
      assert chain[p].key in m;
    }
    if Has(ks.keyEq, m, k) {
      var r := StoredKey(ks.keyEq, m, k);
      EqualKeys(ks, r, k, |t.buckets|);
      var i: nat :| At(t, b, i, r);
      assert ks.keyEq(chain[i].key, k) && p <= i;
      EqualToBoth(ks, chain[p].key, r, k);
      StoredOnce(ks, t, b, p, i);
    }
  }

  lemma SearchRefines<K(!new), V>(ks: Keys<K>, t: Table<K, V>, m: Model<K, V>, k: K)
    requires Lawful(ks) && Refines(ks, t, m)
    ensures Search(ks, t, k) == MapSearch(ks.keyEq, m, k)
  {
    FindIsLookup(ks, t, m, k);
  }

  // The table with another value stored at (b, p).
  function Replaced<K, V>(t: Table<K, V>, b: nat, p: nat, v: Option<V>): (t': Table<K, V>)
    requires b < |t.buckets| && p < |t.buckets[b]|
    ensures |t'.buckets| == |t.buckets| && t'.size == t.size
    ensures forall c | 0 <= c < |t.buckets| :: |t'.buckets[c]| == |t.buckets[c]|
    ensures forall c, i | 0 <= c < |t.buckets| && 0 <= i < |t.buckets[c]| ::
              t'.buckets[c][i] == Entry(t.buckets[c][i].key, if c == b && i == p then v else t.buckets[c][i].value)
  {
    var chain := t.buckets[b];
    t.(buckets := t.buckets[b := chain[p := chain[p].(value := v)]])
  }

  lemma ReplacePlaced<K(!new), V>(ks: Keys<K>, t: Table<K, V>, b: nat, p: nat, v: Option<V>)
    requires Placed(ks, t) && b < |t.buckets| && p < |t.buckets[b]|
    ensures Placed(ks, Replaced(t, b, p, v))
  {
    hide Bucket;
  }

  lemma ReplaceAgrees<K(!new), V>(ks: Keys<K>, t: Table<K, V>, m: Model<K, V>, b: nat, p: nat, v: Option<V>)
    requires Lawful(ks) && Placed(ks, t) && Agrees(t, m) && b < |t.buckets| && p < |t.buckets[b]|
    ensures Agrees(Replaced(t, b, p, v), m[t.buckets[b][p].key := v])
  {
    hide Bucket, Lawful, Placed;
    var t', m' := Replaced(t, b, p, v), m[t.buckets[b][p].key := v];
    forall c, i | 0 <= c < |t'.buckets| && 0 <= i < |t'.buckets[c]|
      ensures t'.buckets[c][i].key in m' && m'[t'.buckets[c][i].key] == t'.buckets[c][i].value
    {
      SameKeySamePlace(ks, t, c, i, b, p);
    }
  }

  lemma ReplaceStored<K(!new), V>(ks: Keys<K>, t: Table<K, V>, m: Model<K, V>, b: nat, p: nat, v: Option<V>)
    requires b < |t.buckets| && p < |t.buckets[b]| && AllStored(ks, t, m) && t.buckets[b][p].key in m
    ensures AllStored(ks, Replaced(t, b, p, v), m[t.buckets[b][p].key := v])
  {
    hide Bucket;
    var t' := Replaced(t, b, p, v);
    forall r | r in m ensures exists i: nat :: At(t', Bucket(ks, r, |t'.buckets|), i, r) {
      var i: nat :| At(t, Bucket(ks, r, |t.buckets|), i, r);
      assert At(t', Bucket(ks, r, |t.buckets|), i, r);
    }
  }

  // Replacing the value stored at (b, p).
  lemma ReplaceRefines<K(!new), V>(ks: Keys<K>, t: Table<K, V>, m: Model<K, V>, b: nat, p: nat, v: Option<V>)
    requires Lawful(ks) && Refines(ks, t, m) && b < |t.buckets| && p < |t.buckets[b]|
    ensures var chain := t.buckets[b];
            Refines(ks, t.(buckets := t.buckets[b := chain[p := chain[p].(value := v)]]), m[chain[p].key := v])
  {
    hide Lawful, Placed, AllStored;
    ReplacePlaced(ks, t, b, p, v);
    ReplaceAgrees(ks, t, m, b, p, v);
    ReplaceStored(ks, t, m, b, p, v);
  }

  lemma SameKeySamePlace<K(!new), V>(ks: Keys<K>, t: Table<K, V>, c: nat, i: nat, b: nat, p: nat)
    requires Lawful(ks) && Placed(ks, t)
    requires c < |t.buckets| && i < |t.buckets[c]| && b < |t.buckets| && p < |t.buckets[b]|
    ensures t.buckets[c][i].key == t.buckets[b][p].key ==> c == b && i == p
  {
    hide Bucket;
    if t.buckets[c][i].key == t.buckets[b][p].key {
      assert c == Bucket(ks, t.buckets[c][i].key, |t.buckets|) == b;
      assert ks.keyEq(t.buckets[b][p].key, t.buckets[b][p].key);
      StoredOnce(ks, t, b, i, p);
    }
  }

  lemma PrependPlaced<K(!new), V>(ks: Keys<K>, t: Table<K, V>, b: nat, e: Entry<K, V>)
    requires Placed(ks, t) && b < |t.buckets| && Bucket(ks, e.key, |t.buckets|) == b
    requires forall i | 0 <= i < |t.buckets[b]| :: !ks.keyEq(e.key, t.buckets[b][i].key)
    ensures Placed(ks, Table(t.buckets[b := [e] + t.buckets[b]], t.size + 1))
  {
    hide Bucket;
    var t' := Table(t.buckets[b := [e] + t.buckets[b]], t.size + 1);
    forall c, i | 0 <= c < |t'.buckets| && 0 <= i < |t'.buckets[c]|
      ensures Bucket(ks, t'.buckets[c][i].key, |t'.buckets|) == c
    {
      assert c == b && i > 0 ==> t'.buckets[c][i] == t.buckets[c][i - 1];
    }
    forall c, i, j | 0 <= c < |t'.buckets| && 0 <= i < j < |t'.buckets[c]|
      ensures !ks.keyEq(t'.buckets[c][i].key, t'.buckets[c][j].key)
    {
      assert c == b ==> t'.buckets[c][j] == t.buckets[c][j - 1];
      assert c == b && i > 0 ==> t'.buckets[c][i] == t.buckets[c][i - 1];
    }
  }

  lemma PrependStored<K(!new), V>(ks: Keys<K>, t: Table<K, V>, m: Model<K, V>, b: nat, e: Entry<K, V>)
    requires b < |t.buckets| && Bucket(ks, e.key, |t.buckets|) == b && AllStored(ks, t, m)
    ensures AllStored(ks, Table(t.buckets[b := [e] + t.buckets[b]], t.size + 1), m[e.key := e.value])
  {
    hide Bucket;
    var t', m' := Table(t.buckets[b := [e] + t.buckets[b]], t.size + 1), m[e.key := e.value];
    forall r | r in m' ensures exists i: nat :: At(t', Bucket(ks, r, |t'.buckets|), i, r) {
      var c := Bucket(ks, r, |t.buckets|);
      if r == e.key {
        assert At(t', c, 0, r);
      } else {
        var i: nat :| At(t, c, i, r);
        assert At(t', c, if c == b then i + 1 else i, r);
      }
    }
  }

  lemma PrependAgrees<K, V>(t: Table<K, V>, m: Model<K, V>, b: nat, e: Entry<K, V>)
    requires b < |t.buckets| && Agrees(t, m) && e.key !in m
    ensures Agrees(Table(t.buckets[b := [e] + t.buckets[b]], t.size + 1), m[e.key := e.value])
  {
    var t' := Table(t.buckets[b := [e] + t.buckets[b]], t.size + 1);
    forall c, i | 0 <= c < |t'.buckets| && 0 <= i < |t'.buckets[c]|
      ensures var x := t'.buckets[c][i];
              x == e || (x.key in m && m[x.key] == x.value)
    {
      assert c == b && i > 0 ==> t'.buckets[c][i] == t.buckets[c][i - 1];
    }
  }

  lemma NoEqualStored<K(!new), V>(ks: Keys<K>, t: Table<K, V>, m: Model<K, V>, k: K, b: nat)
    requires Lawful(ks) && Agrees(t, m) && !Has(ks.keyEq, m, k) && b < |t.buckets|
    ensures k !in m && forall i | 0 <= i < |t.buckets[b]| :: !ks.keyEq(k, t.buckets[b][i].key)
  {
    SelfEqual(ks, k);
    hide Lawful;
    forall i | 0 <= i < |t.buckets[b]| ensures !ks.keyEq(k, t.buckets[b][i].key) {
      assert t.buckets[b][i].key in m;
      Symmetric(ks, k, t.buckets[b][i].key);
    }
  }

  // Putting a new entry in front of its chain.
  lemma PrependRefines<K(!new), V>(ks: Keys<K>, t: Table<K, V>, m: Model<K, V>, k: K, v: V)
    requires Lawful(ks) && Refines(ks, t, m) && !Has(ks.keyEq, m, k)
    ensures var b := Bucket(ks, k, |t.buckets|);
            Refines(ks, Table(t.buckets[b := [Entry(k, Some(v))] + t.buckets[b]], t.size + 1), m[k := Some(v)])
  {
    hide Lawful, Placed, Agrees, AllStored, Has;
    HasBuckets(ks, t);
    var b := Bucket(ks, k, |t.buckets|);
    NoEqualStored(ks, t, m, k, b);
    PrependPlaced(ks, t, b, Entry(k, Some(v)));
    PrependAgrees(t, m, b, Entry(k, Some(v)));
    PrependStored(ks, t, m, b, Entry(k, Some(v)));
  }

  lemma HasBuckets<K, V>(ks: Keys<K>, t: Table<K, V>)
    requires Placed(ks, t)
    ensures 0 < |t.buckets|
  {
  }

  lemma SelfEqual<K(!new)>(ks: Keys<K>, k: K)
    requires Lawful(ks)
    ensures ks.keyEq(k, k)
  {
  }

  lemma InsertRefines<K(!new), V>(ks: Keys<K>, t: Table<K, V>, m: Model<K, V>, k: K, v: V, memory: Memory)
    requires Lawful(ks) && Refines(ks, t, m)
    ensures var (t', s) := Insert(ks, t, k, v, memory);
            var (m', s') := MapInsert(ks.keyEq, m, k, v, memory);
            s == s' && Refines(ks, t', m')
  {
    hide Bucket, Lawful, Refines;
    FindIsLookup(ks, t, m, k);
    var b := Bucket(ks, k, |t.buckets|);
    var p := Find(ks, t.buckets[b], k, 0);
    if p < |t.buckets[b]| {
      ReplaceRefines(ks, t, m, b, p, if memory.valueOk then Some(v) else None);
    } else {
      PrependRefines(ks, t, m, k, v);
    }
  }

  lemma UnlinkPlaced<K(!new), V>(ks: Keys<K>, t: Table<K, V>, b: nat, p: nat)
    requires Placed(ks, t) && b < |t.buckets| && p < |t.buckets[b]|
    ensures Placed(ks, Table(t.buckets[b := Without(t.buckets[b], p)], t.size - 1))
  {
    hide Bucket, Without;
    WithoutItems(t.buckets[b], p);
    var t' := Table(t.buckets[b := Without(t.buckets[b], p)], t.size - 1);
    forall c, i, j | 0 <= c < |t'.buckets| && 0 <= i < j < |t'.buckets[c]|
      ensures !ks.keyEq(t'.buckets[c][i].key, t'.buckets[c][j].key)
    {
      assert c == b ==> t'.buckets[c][j] == t.buckets[c][if j < p then j else j + 1];
      assert c == b ==> t'.buckets[c][i] == t.buckets[c][if i < p then i else i + 1];
    }
  }

  // Unlinking the entry at (b, p).
  lemma UnlinkRefines<K(!new), V>(ks: Keys<K>, t: Table<K, V>, m: Model<K, V>, b: nat, p: nat)
    requires Lawful(ks) && Refines(ks, t, m) && b < |t.buckets| && p < |t.buckets[b]|
    ensures Refines(ks, Table(t.buckets[b := Without(t.buckets[b], p)], t.size - 1), m - {t.buckets[b][p].key})
  {
    hide Bucket, Lawful, Without;
    var chain := t.buckets[b];
    var key := chain[p].key;
    var t' := Table(t.buckets[b := Without(chain, p)], t.size - 1);
    var m' := m - {key};
    WithoutItems(chain, p);
    assert key in m && m'.Keys == m.Keys - {key};
    UnlinkPlaced(ks, t, b, p);
    forall c, i | 0 <= c < |t'.buckets| && 0 <= i < |t'.buckets[c]|
      ensures t'.buckets[c][i].key in m' && m'[t'.buckets[c][i].key] == t'.buckets[c][i].value
    {
      SameKeySamePlace(ks, t, c, if c == b && p <= i then i + 1 else i, b, p);
    }
    UnlinkStored(ks, t, m, b, p);
  }

  lemma UnlinkStored<K, V>(ks: Keys<K>, t: Table<K, V>, m: Model<K, V>, b: nat, p: nat)
    requires b < |t.buckets| && p < |t.buckets[b]| && AllStored(ks, t, m)
    ensures AllStored(ks, Table(t.buckets[b := Without(t.buckets[b], p)], t.size - 1), m - {t.buckets[b][p].key})
  {
    hide Bucket, Without;
    WithoutItems(t.buckets[b], p);
    var t' := Table(t.buckets[b := Without(t.buckets[b], p)], t.size - 1);
    forall r | r in m - {t.buckets[b][p].key} ensures exists i: nat :: At(t', Bucket(ks, r, |t'.buckets|), i, r) {
      var c := Bucket(ks, r, |t.buckets|);
      var i: nat :| At(t, c, i, r);
      assert At(t', c, if c == b && i > p then i - 1 else i, r);
    }
  }

  lemma RemoveRefines<K(!new), V>(ks: Keys<K>, t: Table<K, V>, m: Model<K, V>, k: K)
    requires Lawful(ks) && Refines(ks, t, m)
    ensures var (t', s) := Remove(ks, t, k);
            var (m', s') := MapRemove(ks.keyEq, m, k);
            s == s' && Refines(ks, t', m')
  {
    hide Bucket, Lawful, Refines;
    FindIsLookup(ks, t, m, k);
    var b := Bucket(ks, k, |t.buckets|);
    var p := Find(ks, t.buckets[b], k, 0);
    if p < |t.buckets[b]| {
      UnlinkRefines(ks, t, m, b, p);
    }
  }

  // ---------------------------------------------------------------- whole runs

  datatype Op<K, V> = InsertOp(k: K, v: V, memory: Memory) | SearchOp(k: K) | RemoveOp(k: K) | SizeOp

  datatype Out<V> = Status(code: int) | Found(value: Option<Option<V>>) | Size(n: int)

  function Apply<K, V>(ks: Keys<K>, t: Table<K, V>, op: Op<K, V>): (r: (Table<K, V>, Out<V>))
    requires 0 < |t.buckets|
    ensures |r.0.buckets| == |t.buckets|
  {
    match op
    case InsertOp(k, v, memory) => var (t', s) := Insert(ks, t, k, v, memory); (t', Status(s))
    case SearchOp(k) => (t, Found(Search(ks, t, k)))
    case RemoveOp(k) => var (t', s) := Remove(ks, t, k); (t', Status(s))
    case SizeOp => (t, Size(t.size))
  }

  ghost function MapApply<K, V>(keyEq: (K, K) -> bool, m: Model<K, V>, op: Op<K, V>): (Model<K, V>, Out<V>)
  {
    match op
    case InsertOp(k, v, memory) => var (m', s) := MapInsert(keyEq, m, k, v, memory); (m', Status(s))
    case SearchOp(k) => (m, Found(MapSearch(keyEq, m, k)))
    case RemoveOp(k) => var (m', s) := MapRemove(keyEq, m, k); (m', Status(s))
    case SizeOp => (m, Size(|m|))
  }

  function Run<K, V>(ks: Keys<K>, t: Table<K, V>, ops: seq<Op<K, V>>): (r: (Table<K, V>, seq<Out<V>>))
    requires 0 < |t.buckets|
    ensures |r.0.buckets| == |t.buckets|
    decreases |ops|
  {
    if ops == [] then (t, [])
    else
      var (t', out) := Apply(ks, t, ops[0]);
      var (t'', outs) := Run(ks, t', ops[1..]);
      (t'', [out] + outs)
  }

  ghost function MapRun<K, V>(keyEq: (K, K) -> bool, m: Model<K, V>, ops: seq<Op<K, V>>): (Model<K, V>, seq<Out<V>>)
    decreases |ops|
  {
    if ops == [] then (m, [])
    else
      var (m', out) := MapApply(keyEq, m, ops[0]);
      var (m'', outs) := MapRun(keyEq, m', ops[1..]);
      (m'', [out] + outs)
  }

  // Any run of inserts, searches, removals and size queries answers like the map.
  lemma {:induction false} RunRefines<K(!new), V>(ks: Keys<K>, t: Table<K, V>, m: Model<K, V>, ops: seq<Op<K, V>>)
    requires Lawful(ks) && Refines(ks, t, m)
    ensures Run(ks, t, ops).1 == MapRun(ks.keyEq, m, ops).1
    ensures Refines(ks, Run(ks, t, ops).0, MapRun(ks.keyEq, m, ops).0)
    decreases |ops|
  {
    if ops != [] {
      match ops[0] {
        case InsertOp(k, v, memory) => InsertRefines(ks, t, m, k, v, memory);
        case SearchOp(k) => SearchRefines(ks, t, m, k);
        case RemoveOp(k) => RemoveRefines(ks, t, m, k);
        case SizeOp =>
      }
      RunRefines(ks, Apply(ks, t, ops[0]).0, MapApply(ks.keyEq, m, ops[0]).0, ops[1..]);
    }
  }

  function Empty<K, V>(n: nat): Table<K, V>
  {
    Table(seq(if n == 0 then 16 else n, i => []), 0)
  }

  // The number of buckets and the hash function cannot be observed.
  lemma HashIsInvisible<K(!new), V>(hash1: K -> nat, hash2: K -> nat, keyEq: (K, K) -> bool,
                                    n1: nat, n2: nat, ops: seq<Op<K, V>>)
    requires Lawful(Keys(hash1, keyEq)) && Lawful(Keys(hash2, keyEq))
    ensures Run(Keys(hash1, keyEq), Empty(n1), ops).1 == Run(Keys(hash2, keyEq), Empty(n2), ops).1
  {
    var m: Model<K, V> := map[];
    RunRefines(Keys(hash1, keyEq), Empty(n1), m, ops);
    RunRefines(Keys(hash2, keyEq), Empty(n2), m, ops);
  }

  // A failed insert leaves the table alone exactly when it failed on the new-entry path,
  // or the replaced value was already missing.
  lemma FailedInsertHarmlessIff<K(!new), V>(ks: Keys<K>, t: Table<K, V>, m: Model<K, V>, k: K, v: V, memory: Memory)
    requires Lawful(ks) && Refines(ks, t, m) && Insert(ks, t, k, v, memory).1 == -1
    ensures Insert(ks, t, k, v, memory).0 == t <==> !Has(ks.keyEq, m, k) || MapSearch(ks.keyEq, m, k) == Some(None)
  {
    FindIsLookup(ks, t, m, k);
    var b := Bucket(ks, k, |t.buckets|);
    var p := Find(ks, t.buckets[b], k, 0);
    var t' := Insert(ks, t, k, v, memory).0;
    if p < |t.buckets[b]| {
      assert t'.buckets[b][p].value == None;
      if t.buckets[b][p].value == None {
        assert t'.buckets[b] == t.buckets[b];
        assert t'.buckets == t.buckets;
      }
    }
  }

  // Two calls on a new table: an insert, and one with an equal key whose malloc fails.
  // The second reports failure, the first value is gone, and the key is still found.
  lemma ReplacementLosesValue<K(!new), V>(ks: Keys<K>, n: nat, k: K, k2: K, v: V, v2: V)
    requires Lawful(ks) && ks.keyEq(k, k2)
    ensures var (t1, s1) := Insert(ks, Empty(n), k, v, Memory(true, true, true));
            var (t2, s2) := Insert(ks, t1, k2, v2, Memory(true, true, false));
            && s1 == 0 && Search(ks, t1, k) == Some(Some(v))
            && s2 == -1 && Search(ks, t2, k) == Some(None) && t2.size == t1.size == 1
  {
    hide Insert, Search, Refines;
    SelfEqual(ks, k);
    var m0: Model<K, V> := map[];
    var m1: Model<K, V> := map[k := Some(v)];
    var m2: Model<K, V> := map[k := None];
    var first, second := Memory(true, true, true), Memory(true, true, false);
    EmptyRefines<K, V>(ks, n);
    InsertRefines(ks, Empty(n), m0, k, v, first);
    var t1 := Insert(ks, Empty(n), k, v, first).0;
    assert MapInsert(ks.keyEq, m0, k, v, first) == (m1, 0);
    OneStored(ks, t1, m1, k, k, Some(v));
    OneStored(ks, t1, m1, k, k2, Some(v));
    InsertRefines(ks, t1, m1, k2, v2, second);
    assert MapInsert(ks.keyEq, m1, k2, v2, second) == (m2, -1) by {
      assert Has(ks.keyEq, m1, k2);
      assert m1[k := None] == m2;
    }
    OneStored(ks, Insert(ks, t1, k2, v2, second).0, m2, k, k, None);
  }

  lemma EmptyRefines<K(!new), V>(ks: Keys<K>, n: nat)
    ensures var m: Model<K, V> := map[]; Refines(ks, Empty(n), m)
  {
  }

  // A table with one stored key, asked for an equal one.
  lemma OneStored<K(!new), V>(ks: Keys<K>, t: Table<K, V>, m: Model<K, V>, k: K, q: K, v: Option<V>)
    requires Lawful(ks) && Refines(ks, t, m) && m == map[k := v] && ks.keyEq(k, q)
    ensures 0 < |t.buckets|
    ensures Has(ks.keyEq, m, q) && StoredKey(ks.keyEq, m, q) == k && Search(ks, t, q) == Some(v) && t.size == 1
  {
    hide Search;
    SearchRefines(ks, t, m, q);
    assert k in m;
  }
}
