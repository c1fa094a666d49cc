/** The key-value store under the engine: byte strings to byte strings, no empty key
    (engine/state/kv.go). Iteration visits every key once, in any order. */
module KeyValue {
  import opened Bytes
  import opened Common

  type Key = seq<byte>
  type Value = seq<byte>
  type Table = map<Key, Value>

  /** Every key of the table once. */
  ghost predicate Enumerates(order: seq<Key>, table: Table)
  {
    Distinct(order) && forall k :: k in order <==> k in table
  }

  lemma SameLength(order: seq<Key>, table: Table)
    requires Enumerates(order, table)
    ensures |order| == |table|
  {
    DistinctSize(order, table.Keys);
  }

  method InsertKey(sorted: seq<Key>, k: Key) returns (r: seq<Key>)
    requires Sorted(sorted)
    ensures Sorted(r) && multiset(r) == multiset(sorted) + multiset{k}
  {
    hide Less;
    var i := 0;
    while i < |sorted|
      invariant 0 <= i <= |sorted| && forall j :: 0 <= j < i ==> !Less(k, sorted[j])
    {
      var before := Compare(k, sorted[i]);
      if before {
        break;
      }
      i := i + 1;
    }
    InsertSorted(sorted, i, k);
    r := sorted[..i] + [k] + sorted[i..];
  }

  lemma InsertSorted(s: seq<Key>, i: nat, k: Key)
    requires Sorted(s) && i <= |s| && (forall j :: 0 <= j < i ==> !Less(k, s[j]))
    requires i < |s| ==> Less(k, s[i])
    ensures Sorted(s[..i] + [k] + s[i..]) && multiset(s[..i] + [k] + s[i..]) == multiset(s) + multiset{k}
  {
    hide Less;
    assert s == s[..i] + s[i..];
    forall j | i <= j < |s|
      ensures !Less(s[j], k)
    {
      LessTrichotomy(s[i], k);
      if Less(s[j], k) {
        LessTransitive(s[j], k, s[i]);
      }
    }
    SpliceSorted(s, i, k);
  }

  lemma SpliceSorted(s: seq<Key>, i: nat, k: Key)
    requires Sorted(s) && i <= |s|
    requires forall j :: 0 <= j < i ==> !Less(k, s[j])
    requires forall j :: i <= j < |s| ==> !Less(s[j], k)
    ensures Sorted(s[..i] + [k] + s[i..])
  {
    hide Less;
    var r := s[..i] + [k] + s[i..];
    forall p, q | 0 <= p < q < |r|
      ensures !Less(r[q], r[p])
    {
      assert r[p] == if p < i then s[p] else if p == i then k else s[p - 1];
      assert r[q] == if q < i then s[q] else if q == i then k else s[q - 1];
    }
  }

  /** The library sort's contract, with insertion standing in for its algorithm. */
  method SortKeys(keys: seq<Key>) returns (sorted: seq<Key>)
    ensures Sorted(sorted) && multiset(sorted) == multiset(keys)
  {
    hide Sorted;
    sorted := [];
    NothingSorted();
    for i := 0 to |keys|
      invariant Sorted(sorted) && multiset(sorted) == multiset(keys[..i])
    {
      assert keys[..i + 1] == keys[..i] + [keys[i]];
      sorted := InsertKey(sorted, keys[i]);
    }
    assert keys[..|keys|] == keys;
  }

  lemma NothingSorted()
    ensures Sorted([])
  {
  }

  lemma SortedEnumerates(keys: seq<Key>, sorted: seq<Key>, table: Table)
    requires Enumerates(keys, table) && multiset(sorted) == multiset(keys)
    ensures Enumerates(sorted, table)
  {
    forall k
      ensures k in sorted <==> k in keys
    {
      assert k in sorted <==> k in multiset(sorted);
    }
    DistinctCounts(keys);
    forall i, j | 0 <= i < j < |sorted|
      ensures sorted[i] != sorted[j]
    {
      assert sorted == sorted[..i] + [sorted[i]] + sorted[i + 1..j] + [sorted[j]] + sorted[j + 1..];
      assert multiset(sorted)[sorted[i]] <= 1;
    }
  }

  class Store {
    var data: Table

    constructor ()
      ensures data == map[]
    {
      data := map[];
    }

    method Put(key: Key, value: Value) returns (ok: bool)
      modifies this
      ensures ok <==> key != []
      ensures data == if ok then old(data)[key := value] else old(data)
    {
      if key == [] {
        return false;
      }
      data := data[key := value];
      ok := true;
    }

    method Delete(key: Key) returns (ok: bool)
      modifies this
      ensures ok <==> key != []
      ensures data == if ok then old(data) - {key} else old(data)
    {
      if key == [] {
        return false;
      }
      data := data - {key};
      ok := true;
    }

    /** The keys in the order one iteration happens to visit them. */
    method Keys() returns (order: seq<Key>)
      ensures Enumerates(order, data)
    {
      order := [];
      var rest := data.Keys;
      while rest != {}
        invariant rest <= data.Keys && Distinct(order)
        invariant forall k :: k in order <==> k in data && k !in rest
        decreases |rest|
      {
        var k :| k in rest;
        order := order + [k];
        rest := rest - {k};
      }
    }

    /** Collect, then delete. */
    method Clear() returns (ok: bool)
      modifies this
      ensures [] !in old(data) ==> ok && data == map[]
    {
      var keys := Keys();
      for i := 0 to |keys|
        invariant data == old(data) - (set j | 0 <= j < i :: keys[j])
      {
        assert keys[i] in keys;
        ok := Delete(keys[i]);
        if !ok {
          return;
        }
      }
      forall k | k in old(data)
        ensures k in set j | 0 <= j < |keys| :: keys[j]
      {
        assert k in keys;
      }
      ok := true;
    }
  }
}
