// The chained hash table on the heap: an array of chains of entries, relinked in place.
module HashTables {
  import opened Common
  import L = ListSpec
  import opened HashSpec

  class HashEntry<K, V> {
    var key: K
    var value: Option<V>
    var next: HashEntry?<K, V>
    ghost const bucket: nat  // the bucket this entry is allocated for

    constructor (key: K, value: V, ghost bucket: nat)
      ensures this.key == key && this.value == Some(value) && next == null && this.bucket == bucket
    {
      this.key, this.value, this.next, this.bucket := key, Some(value), null, bucket;
    }
  }

  // The i-th entry of a chain, null past its end.
  ghost function Nth<K, V>(chain: seq<HashEntry<K, V>>, i: nat): HashEntry?<K, V>
  {
    if i < |chain| then chain[i] else null
  }

  // `chain` is linked from `first` and stores `entries`.
  ghost predicate Chained<K, V>(first: HashEntry?<K, V>, chain: seq<HashEntry<K, V>>, entries: seq<Entry<K, V>>, b: nat)
    reads chain
  {
    && |chain| == |entries|
    && first == Nth(chain, 0)
    && (forall i {:trigger chain[i].next} | 0 <= i < |chain| :: chain[i].next == Nth(chain, i + 1))
    && (forall i {:trigger chain[i].key} | 0 <= i < |chain| :: chain[i].key == entries[i].key)
    && (forall i {:trigger chain[i].value} | 0 <= i < |chain| :: chain[i].value == entries[i].value)
    && (forall i {:trigger chain[i].bucket} | 0 <= i < |chain| :: chain[i].bucket == b)
    && L.Distinct(chain)
  }

  lemma ChainedPrepend<K, V>(entry: HashEntry<K, V>, chain: seq<HashEntry<K, V>>, entries: seq<Entry<K, V>>, b: nat)
    requires Chained(entry.next, chain, entries, b) && entry !in chain && entry.bucket == b
    ensures Chained(entry, [entry] + chain, [Entry(entry.key, entry.value)] + entries, b)
  {
    hide L.Distinct;
    L.DistinctPrepend(entry, chain);
    var longer := [entry] + chain;
    forall i | 0 <= i < |longer| ensures longer[i].next == Nth(longer, i + 1) {
      if i > 0 { assert longer[i] == chain[i - 1]; }
    }
  }

  // Once the entry at p has been bypassed, the chain without it is linked.
  lemma ChainedWithout<K, V>(first: HashEntry?<K, V>, chain: seq<HashEntry<K, V>>, entries: seq<Entry<K, V>>,
                             b: nat, p: nat)
    requires p < |chain| == |entries| && first == Nth(chain, if p == 0 then 1 else 0)
    requires forall i {:trigger chain[i].next} | 0 <= i < |chain| ::
               chain[i].next == Nth(chain, if i + 1 == p then i + 2 else i + 1)
    requires forall i {:trigger chain[i].key} | 0 <= i < |chain| :: chain[i].key == entries[i].key
    requires forall i {:trigger chain[i].value} | 0 <= i < |chain| :: chain[i].value == entries[i].value
    requires forall i {:trigger chain[i].bucket} | 0 <= i < |chain| :: chain[i].bucket == b
    requires L.Distinct(chain)
    ensures Chained(first, L.Without(chain, p), L.Without(entries, p), b)
  {
    hide L.Without;
    L.WithoutItems(chain, p);
    L.WithoutItems(entries, p);
    var shorter := L.Without(chain, p);
    forall i | 0 <= i < |shorter| ensures shorter[i].next == Nth(shorter, i + 1) {
      assert shorter[i] == chain[if i < p then i else i + 1];
    }
  }

  class HashTable<K, V> {
    const keys: Keys<K>
    const numBuckets: nat
    const buckets: array<HashEntry?<K, V>>
    var size: int
    ghost var chains: seq<seq<HashEntry<K, V>>>
    ghost var table: Table<K, V>

    ghost var repr: set<object>

    ghost predicate Valid()
      reads this, buckets, repr
    {
      && 0 < numBuckets == buckets.Length == |chains| == |table.buckets|
      && size == table.size
      && forall b | 0 <= b < numBuckets :: ChainOk(b)
    }

    ghost predicate ChainOk(b: nat)
      requires b < |chains| == |table.buckets| == buckets.Length
      reads this, buckets, repr
    {
      && (forall i | 0 <= i < |chains[b]| :: chains[b][i] in repr)
      && Chained(buckets[b], chains[b], table.buckets[b], b)
    }

    // Chains are disjoint: an entry of one bucket is in no other chain.
    lemma Elsewhere(b: nat, p: nat, c: nat)
      requires Valid() && b < numBuckets && c < numBuckets && b != c && p < |chains[b]|
      ensures forall i | 0 <= i < |chains[c]| :: chains[c][i] != chains[b][p]
    {
      assert ChainOk(b) && ChainOk(c);
      assert chains[b][p].bucket == b;
      forall i | 0 <= i < |chains[c]| ensures chains[c][i] != chains[b][p] {
        assert chains[c][i].bucket == c;
      }
    }

    constructor (n: nat, keys: Keys<K>)
      ensures Valid() && fresh(buckets) && repr == {} && this.keys == keys
      ensures table == Empty(n)
    {
      var m := if n == 0 then 16 else n;
      numBuckets := m;
      this.keys := keys;
      buckets := new HashEntry?<K, V>[m](i => null);
      size := 0;
      chains, repr := seq(m, i => []), {};
      table := Empty(n);
    }

    // Walk the chain of bucket b to the first entry whose key equals k.
    method Locate(b: nat, k: K) returns (prev: HashEntry?<K, V>, entry: HashEntry?<K, V>, ghost p: nat)
      requires Valid() && b < numBuckets
      ensures p == Find(keys, table.buckets[b], k, 0)
      ensures entry == Nth(chains[b], Find(keys, table.buckets[b], k, 0))
      ensures prev == if p == 0 then null else Nth(chains[b], Find(keys, table.buckets[b], k, 0) - 1)
    {
      assert ChainOk(b);
      prev, entry, p := null, buckets[b], 0;
      while entry != null
        invariant p <= |chains[b]| && entry == Nth(chains[b], p)
        invariant prev == if p == 0 then null else Nth(chains[b], p - 1)
        invariant Find(keys, table.buckets[b], k, 0) == Find(keys, table.buckets[b], k, p)
        decreases |chains[b]| - p
      {
        if keys.keyEq(entry.key, k) {
          return;
        }
        prev := entry;
        entry := entry.next;
        p := p + 1;
      }
    }

    method Search(k: K) returns (r: Option<Option<V>>)
      requires Valid()
      ensures r == HashSpec.Search(keys, table, k)
    {
      var b := keys.hash(k) % numBuckets;
      assert ChainOk(b);
      var prev, entry, p := Locate(b, k);
      r := if entry != null then Some(entry.value) else None;
    }

    method Insert(k: K, v: V, memory: Memory) returns (status: int)
      requires Valid()
      modifies this`size, this`chains, this`table, this`repr, buckets, repr
      ensures Valid() && fresh(repr - old(repr))
      ensures table == HashSpec.Insert(keys, old(table), k, v, memory).0
      ensures status == HashSpec.Insert(keys, old(table), k, v, memory).1
    {
      var b := keys.hash(k) % numBuckets;
      assert ChainOk(b);
      var prev, entry, p := Locate(b, k);
      if entry != null {
        SetValue(b, p, entry, if memory.valueOk then Some(v) else None);
        return if memory.valueOk then 0 else -1;
      }
      if !memory.entryOk { return -1; }
      if !memory.keyOk || !memory.valueOk { return -1; }
      Prepend(b, k, v);
      status := 0;
    }

    method SetValue(b: nat, ghost p: nat, entry: HashEntry<K, V>, v: Option<V>)
      requires Valid() && b < numBuckets && p < |chains[b]| == |table.buckets[b]| && entry == chains[b][p]
      modifies this`table, entry`value
      ensures Valid()
      ensures table == var t := old(table);
                       t.(buckets := t.buckets[b := t.buckets[b][p := t.buckets[b][p].(value := v)]])
    {
      assert ChainOk(b);
      L.DistinctAt(chains[b], p);
      forall c | 0 <= c < numBuckets && c != b ensures entry !in chains[c] {
        Elsewhere(b, p, c);
      }
      entry.value := v;
      table := table.(buckets := table.buckets[b := table.buckets[b][p := table.buckets[b][p].(value := v)]]);
      forall c | 0 <= c < numBuckets && c != b ensures ChainOk(c) {
        assert old(ChainOk(c)) && old(ChainOk(b));
      }
    }

    // A change to bucket b leaves the other chains linked.
    twostate lemma OthersKept(b: nat)
      requires old(Valid()) && |chains| == |table.buckets| == buckets.Length == numBuckets
      requires old(repr) <= repr
      requires forall c | 0 <= c < numBuckets && c != b ::
                 && chains[c] == old(chains[c]) && table.buckets[c] == old(table.buckets[c])
                 && buckets[c] == old(buckets[c])
                 && forall i | 0 <= i < |chains[c]| :: unchanged(chains[c][i])
      ensures forall c | 0 <= c < numBuckets && c != b :: ChainOk(c)
    {
      forall c | 0 <= c < numBuckets && c != b ensures ChainOk(c) {
        assert old(ChainOk(c));
      }
    }

    method Prepend(b: nat, k: K, v: V)
      requires Valid() && b < numBuckets
      modifies this`size, this`chains, this`table, this`repr, buckets
      ensures Valid() && fresh(repr - old(repr))
      ensures table == var t := old(table);
                       Table(t.buckets[b := [Entry(k, Some(v))] + t.buckets[b]], t.size + 1)
    {
      hide Chained;
      assert ChainOk(b);
      var entry := new HashEntry(k, v, b);
      entry.next := buckets[b];
      ChainedPrepend(entry, chains[b], table.buckets[b], b);
      buckets[b] := entry;
      chains, repr := chains[b := [entry] + chains[b]], repr + {entry};
      size := size + 1;
      table := Table(table.buckets[b := [Entry(k, Some(v))] + table.buckets[b]], table.size + 1);
      OthersKept(b);
      assert ChainOk(b);
    }

    method Remove(k: K) returns (status: int)
      requires Valid()
      modifies this`size, this`chains, this`table, this`repr, buckets, repr
      ensures Valid() && repr <= old(repr)
      ensures table == HashSpec.Remove(keys, old(table), k).0
      ensures status == HashSpec.Remove(keys, old(table), k).1
    {
      var b := keys.hash(k) % numBuckets;
      assert ChainOk(b);
      var prev, entry, p := Locate(b, k);
      if entry == null { return -1; }
      Unlink(b, prev, entry, p);
      status := 0;
    }

    method Unlink(b: nat, prev: HashEntry?<K, V>, entry: HashEntry<K, V>, ghost p: nat)
      requires Valid() && b < numBuckets && p < |chains[b]| == |table.buckets[b]| && entry == chains[b][p]
      requires prev == if p == 0 then null else chains[b][p - 1]
      modifies this`size, this`chains, this`table, buckets, if prev != null then {prev} else {}
      ensures Valid() && repr <= old(repr)
      ensures table == var t := old(table); Table(t.buckets[b := L.Without(t.buckets[b], p)], t.size - 1)
    {
      hide L.Without;
      assert ChainOk(b);
      ghost var chain, entries := chains[b], table.buckets[b];
      if prev != null {
        forall c | 0 <= c < numBuckets && c != b ensures prev !in chains[c] {
          Elsewhere(b, p - 1, c);
        }
        L.DistinctAt(chain, p - 1);
        prev.next := entry.next;
      } else {
        buckets[b] := entry.next;
      }
      ChainedWithout(buckets[b], chain, entries, b, p);
      L.WithoutItems(chain, p);
      chains := chains[b := L.Without(chain, p)];
      size := size - 1;
      table := Table(table.buckets[b := L.Without(entries, p)], table.size - 1);
      OthersKept(b);
    }
  }
}
