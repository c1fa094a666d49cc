/** The compiled-module cache (engine/runtime/cache.go): a map over the nodes of a doubly linked
    list with head and tail sentinels, against a most-recently-used-first sequence. */
module ModuleCache {
  import opened Common

  /** A module's SHA-256 hash. */
  type Hash = seq<int>

  // ---------- The sequence the list stands for ----------

  function Remove(s: seq<Hash>, k: Hash): (r: seq<Hash>)
    ensures forall x :: x in r <==> x in s && x != k
    ensures k !in s ==> r == s
  {
    if s == [] then [] else if s[0] == k then Remove(s[1..], k) else [s[0]] + Remove(s[1..], k)
  }

  /** Most recently used first, with the module stored for each key. */
  datatype Lru<M> = Lru(order: seq<Hash>, modules: map<Hash, M>)

  ghost predicate Consistent<M>(c: Lru<M>)
  {
    Distinct(c.order) && forall k :: k in c.order <==> k in c.modules
  }

  function Touch(order: seq<Hash>, k: Hash): seq<Hash>
  {
    [k] + Remove(order, k)
  }

  function AfterGet<M>(c: Lru<M>, k: Hash): Lru<M>
  {
    if k in c.modules then c.(order := Touch(c.order, k)) else c
  }

  function AfterPut<M>(c: Lru<M>, k: Hash, m: M): Lru<M>
  {
    Lru(Touch(c.order, k), c.modules[k := m])
  }

  function AfterEviction<M>(c: Lru<M>): Lru<M>
    requires c.order != []
  {
    Lru(c.order[..|c.order| - 1], c.modules - {c.order[|c.order| - 1]})
  }

  /** A Put that evicts the last key when a new key finds the cache full. */
  function BoundedPut<M>(c: Lru<M>, k: Hash, m: M, maxSize: int): Lru<M>
  {
    if k !in c.modules && |c.order| >= maxSize && c.order != [] then AfterPut(AfterEviction(c), k, m)
    else AfterPut(c, k, m)
  }

  // ---------- The heap ----------

  class Entry<M> {
    var module_: M
    var lruNode: Node?<M>

    constructor (m: M)
      ensures module_ == m && lruNode == null
    {
      module_ := m;
      lruNode := null;
    }
  }

  class Node<M> {
    var prev: Node?<M>
    var next: Node?<M>
    const hash: Hash
    var entry: Entry?<M>

    constructor (hash: Hash)
      ensures this.hash == hash && prev == null && next == null && entry == null
    {
      this.hash := hash;
      prev := null;
      next := null;
      entry := null;
    }
  }

  function Hashes<M>(nodes: seq<Node<M>>): (r: seq<Hash>)
    ensures |r| == |nodes| && forall i :: 0 <= i < |r| ==> r[i] == nodes[i].hash
  {
    seq(|nodes|, i requires 0 <= i < |nodes| => nodes[i].hash)
  }

  ghost function Modules<M>(cache: map<Hash, Entry<M>>): (r: map<Hash, M>)
    reads cache.Values
    ensures r.Keys == cache.Keys
  {
    map h | h in cache :: cache[h].module_
  }

  lemma ModulesInsert<M>(cache: map<Hash, Entry<M>>, h: Hash, e: Entry<M>)
    ensures Modules(cache[h := e]) == Modules(cache)[h := e.module_]
  {
  }

  lemma ModulesRemove<M>(cache: map<Hash, Entry<M>>, h: Hash)
    ensures Modules(cache - {h}) == Modules(cache) - {h}
  {
  }

  /** Live nodes and map entries point at each other, one to one. */
  ghost predicate Bijective<M>(cache: map<Hash, Entry<M>>, live: set<Node<M>>)
    reads live`entry, cache.Values`lruNode
  {
    (forall n :: n in live ==> n.hash in cache && n.entry == cache[n.hash] && cache[n.hash].lruNode == n)
    && (forall h :: h in cache ==>
          cache[h].lruNode != null && cache[h].lruNode.hash == h && cache[h].lruNode in live)
  }

  lemma BijectiveInsert<M>(cache: map<Hash, Entry<M>>, live: set<Node<M>>, node: Node<M>, entry: Entry<M>)
    requires Bijective(cache, live) && node.hash !in cache
    requires node.entry == entry && entry.lruNode == node
    ensures Bijective(cache[node.hash := entry], live + {node})
  {
  }

  lemma BijectiveRemove<M>(cache: map<Hash, Entry<M>>, live: set<Node<M>>, node: Node<M>)
    requires Bijective(cache, live) && node in live
    ensures Bijective(cache - {node.hash}, live - {node})
  {
  }

  lemma VictimIsCached<M>(cache: map<Hash, Entry<M>>, live: set<Node<M>>, node: Node<M>)
    requires Bijective(cache, live) && node in live
    ensures node.hash in cache && |cache - {node.hash}| == |cache| - 1
  {
    assert (cache - {node.hash}).Keys == cache.Keys - {node.hash};
    assert |cache.Keys| == |cache|;
  }

  method NewSentinels<M>() returns (head: Node<M>, tail: Node<M>)
    ensures fresh(head) && fresh(tail) && head != tail
    ensures head.prev == null && head.next == tail && tail.prev == head && tail.next == null
  {
    head := new Node<M>([]);
    tail := new Node<M>([]);
    head.next := tail;
    tail.prev := head;
  }

  class Cache<M> {
    var cache: map<Hash, Entry<M>>
    var head: Node<M>
    /** The source drops its reference to this sentinel; only the repaired eviction uses it. */
    var tail: Node<M>
    const maxSize: int
    var hitCount: nat
    var missCount: nat
    /** head, the live nodes from most to least recently used, tail. */
    ghost var nodes: seq<Node<M>>

    ghost predicate Linked()
      reads `nodes, `head, `tail, nodes
      ensures Linked() ==> |nodes| >= 2 && nodes[0] == head && head.prev == null
    {
      |nodes| >= 2 && nodes[0] == head && nodes[|nodes| - 1] == tail
      && (forall i, j :: 0 <= i < j < |nodes| ==> nodes[i] != nodes[j])
      && head.prev == null && tail.next == null
      && (forall i {:trigger nodes[i].next} :: 0 <= i < |nodes| - 1 ==> nodes[i].next == nodes[i + 1])
      && (forall i {:trigger nodes[i].prev} :: 0 < i < |nodes| ==> nodes[i].prev == nodes[i - 1])
    }

    /** The live nodes, most recently used first. */
    ghost function Live(): seq<Node<M>>
      reads `nodes
      requires |nodes| >= 2
    {
      nodes[1..|nodes| - 1]
    }

    ghost predicate IsLive(n: Node<M>)
      reads `nodes, `head, `tail
    {
      n in nodes && n != head && n != tail
    }

    ghost function LiveSet(): set<Node<M>>
      reads `nodes, `head, `tail
    {
      set n | n in nodes && n != head && n != tail
    }

    ghost predicate Indexed()
      reads `nodes, `head, `tail, `cache, LiveSet()`entry, cache.Values`lruNode
    {
      Bijective(cache, LiveSet())
    }

    ghost predicate Valid()
      reads `nodes, `head, `tail, `cache, nodes, cache.Values`lruNode
    {
      Linked() && Indexed() && maxSize > 0 && |cache| <= maxSize
    }

    /** Nodes and entries are those of before, or new. */
    twostate predicate OnlyNew()
      reads `nodes, `head, `tail, `cache
    {
      (forall n :: n in LiveSet() ==> n in old(LiveSet()) || fresh(n))
      && (forall h :: h in cache ==> fresh(cache[h]) || (h in old(cache) && cache[h] == old(cache[h])))
    }

    /** The abstract value. */
    ghost function Value(): Lru<M>
      reads `nodes, `cache, cache.Values
      requires |nodes| >= 2
    {
      Lru(Hashes(Live()), Modules(cache))
    }

    constructor (requestedSize: int)
      ensures Valid() && maxSize == if requestedSize <= 0 then 16 else requestedSize
      ensures Value() == Lru([], map[]) && hitCount == missCount == 0
      ensures fresh(nodes) && fresh(head) && fresh(tail) && cache == map[] && LiveSet() == {}
    {
      maxSize := if requestedSize <= 0 then 16 else requestedSize;
      cache := map[];
      hitCount := 0;
      missCount := 0;
      var h, t := NewSentinels<M>();
      head := h;
      tail := t;
      nodes := [h, t];
    }

    lemma LiveAt(i: nat)
      requires Linked() && 0 < i < |nodes| - 1
      ensures IsLive(nodes[i]) && Live()[i - 1] == nodes[i]
    {
    }

    lemma PositionOf(node: Node<M>) returns (k: nat)
      requires Linked() && IsLive(node)
      ensures 0 < k < |nodes| - 1 && nodes[k] == node
    {
      k :| k < |nodes| && nodes[k] == node;
    }

    lemma HashesDistinct()
      requires Valid()
      ensures Distinct(Hashes(Live()))
    {
      var live := Live();
      forall i, j | 0 <= i < j < |live|
        ensures live[i].hash != live[j].hash
      {
        LiveAt(i + 1);
        LiveAt(j + 1);
      }
    }

    /** The value is consistent, and the list is as long as the map. */
    lemma ValueConsistent()
      requires Valid()
      ensures Consistent(Value()) && |Live()| == |cache|
    {
      HashesDistinct();
      var live, order := Live(), Hashes(Live());
      forall h | h in cache
        ensures h in order
      {
        var i := PositionOf(cache[h].lruNode);
        LiveAt(i);
        assert order[i - 1] == h;
      }
      forall h | h in order
        ensures h in cache
      {
        var i :| 0 <= i < |order| && order[i] == h;
        LiveAt(i + 1);
      }
      DistinctSize(order, cache.Keys);
    }

    lemma NodesDistinct(k: nat)
      requires Linked() && k < |nodes|
      ensures nodes[k] !in nodes[..k] + nodes[k + 1..]
    {
    }

    /** Unlinks a live node. */
    method Unlink(node: Node<M>, ghost k: nat)
      requires Linked() && 0 < k < |nodes| - 1 && nodes[k] == node
      modifies `nodes, nodes`prev, nodes`next
      ensures Linked() && nodes == old(nodes)[..k] + old(nodes)[k + 1..]
    {
      node.prev.next := node.next;
      node.next.prev := node.prev;
      nodes := nodes[..k] + nodes[k + 1..];
    }

    method AddToFront(node: Node<M>)
      requires Linked() && node !in nodes
      modifies `nodes, nodes`prev, nodes`next, node`prev, node`next
      ensures Linked() && nodes == [head, node] + old(nodes)[1..]
    {
      node.next := head.next;
      node.prev := head;
      head.next.prev := node;
      head.next := node;
      nodes := [head, node] + nodes[1..];
    }

    /** The pointer surgery alone. */
    method Relink(node: Node<M>, ghost k: nat)
      requires Linked() && 0 < k < |nodes| - 1 && nodes[k] == node
      modifies `nodes, nodes`prev, nodes`next
      ensures Linked() && Live() == MovedUp(old(Live()), k - 1) && LiveSet() == old(LiveSet())
    {
      hide Linked;
      NodesDistinct(k);
      MovedFront(nodes, k);
      Unlink(node, k);
      AddToFront(node);
    }

    method MoveToFront(node: Node<M>)
      requires Valid() && IsLive(node)
      modifies `nodes, nodes`prev, nodes`next
      ensures Valid() && Hashes(Live()) == Touch(old(Hashes(Live())), node.hash) && LiveSet() == old(LiveSet())
    {
      hide Linked, Hashes, Touch, Distinct, MovedUp, Bijective;
      ghost var k := PositionOf(node);
      HashesDistinct();
      MoveIsTouch(Live(), k - 1);
      Relink(node, k);
    }

    method Get(hash: Hash) returns (found: bool, m: Option<M>)
      requires Valid()
      modifies this, nodes
      ensures Valid() && Value() == AfterGet(old(Value()), hash) && cache == old(cache)
      ensures head == old(head) && tail == old(tail) && LiveSet() == old(LiveSet())
      ensures m == if hash in old(cache) then Some(old(cache[hash].module_)) else None
      ensures found == (hash in old(cache))
      ensures hitCount == old(hitCount) + (if found then 1 else 0)
      ensures missCount == old(missCount) + (if found then 0 else 1)
    {
      hide Linked, Indexed, Hashes, Touch, Modules;
      if hash !in cache {
        missCount := missCount + 1;
        return false, None;
      }
      var entry := cache[hash];
      EntryIsLive(hash);
      MoveToFront(entry.lruNode);
      hitCount := hitCount + 1;
      assert Value().modules == old(Value().modules);
      return true, Some(entry.module_);
    }

    /** A new node and its entry, linked to each other and placed in front. */
    method AttachNew(hash: Hash, m: M) returns (node: Node<M>, entry: Entry<M>)
      requires Linked()
      modifies `nodes, nodes`prev, nodes`next
      ensures fresh(node) && fresh(entry) && node.hash == hash && entry.module_ == m
      ensures node.entry == entry && entry.lruNode == node
      ensures Linked() && LiveSet() == old(LiveSet()) + {node} && Hashes(Live()) == [hash] + old(Hashes(Live()))
    {
      hide Linked, Hashes;
      node := new Node<M>(hash);
      entry := new Entry<M>(m);
      entry.lruNode := node;
      node.entry := entry;
      AttachedLive(nodes, node);
      AddToFront(node);
    }

    /** A new entry goes in front; there must be room for it. */
    method InsertNew(hash: Hash, m: M)
      requires Valid() && hash !in cache && |cache| < maxSize
      modifies `nodes, `cache, nodes`prev, nodes`next
      ensures Valid() && Value() == AfterPut(old(Value()), hash, m)
      ensures OnlyNew()
    {
      hide Linked, Touch, Hashes, Modules, Bijective;
      AbsentTouch(hash);
      var node, entry := AttachNew(hash, m);
      BijectiveInsert(cache, old(LiveSet()), node, entry);
      ModulesInsert(cache, hash, entry);
      cache := cache[hash := entry];
    }

    /** The nodes evictLRU writes to. */
    ghost function Neighbours(): set<Node?<M>>
      reads `head, head, head.prev
    {
      if head.prev == null then {} else {head.prev.prev, head.prev.next}
    }

    /** evictLRU as the source has it, whatever the head's links are: it takes the list for a
        circular one and looks for the last node before the head. A nil dereference panics. */
    method EvictLRU() returns (panicked: bool)
      modifies `cache, Neighbours()`prev, Neighbours()`next
      ensures old(head.prev) == null ==> panicked
      ensures panicked ==> cache == old(cache)
    {
      if head.prev == head {
        return false;
      }
      var lru := head.prev;
      if lru == null || lru.prev == null {
        return true;
      }
      lru.prev.next := lru.next;
      if lru.next == null {
        return true;
      }
      lru.next.prev := lru.prev;
      cache := cache - {lru.hash};
      return false;
    }

    method SetModule(hash: Hash, m: M)
      requires hash in cache && Bijective(cache, LiveSet())
      modifies cache.Values`module_
      ensures Modules(cache) == old(Modules(cache))[hash := m]
    {
      cache[hash].module_ := m;
    }

    method UpdateExisting(hash: Hash, m: M)
      requires Valid() && hash in cache
      modifies `nodes, nodes`prev, nodes`next, cache.Values`module_
      ensures Valid() && Value() == AfterPut(old(Value()), hash, m) && LiveSet() == old(LiveSet())
    {
      hide Linked, Touch, Hashes, Modules, Bijective;
      EntryIsLive(hash);
      SetModule(hash, m);
      MoveToFront(cache[hash].lruNode);
    }

    /** Put as the source has it. The head's prev is nil in every valid cache, so a new key at
        capacity panics before anything has changed; every other Put does what it should. */
    method Put(hash: Hash, m: M) returns (panicked: bool)
      requires Valid()
      modifies `nodes, `cache, nodes`prev, nodes`next, cache.Values`module_
      ensures panicked <==> hash !in old(cache) && |old(cache)| >= maxSize
      ensures Valid()
      ensures Value() == if panicked then old(Value()) else AfterPut(old(Value()), hash, m)
      ensures OnlyNew()
    {
      hide Indexed, Touch, Hashes, Modules;
      if hash in cache {
        UpdateExisting(hash, m);
        return false;
      }
      if |cache| >= maxSize {
        panicked := EvictLRU();
        if panicked {
          return;
        }
      }
      InsertNew(hash, m);
      return false;
    }

    method DetachLast() returns (lru: Node<M>)
      requires Linked() && |nodes| >= 3
      modifies `nodes, nodes`prev, nodes`next
      ensures lru in old(LiveSet()) && LiveSet() == old(LiveSet()) - {lru}
      ensures Linked() && old(Hashes(Live())) == Hashes(Live()) + [lru.hash]
      ensures forall i :: 0 <= i < |nodes| ==> nodes[i] in old(nodes)
    {
      hide Hashes;
      ghost var k := |nodes| - 2;
      lru := tail.prev;
      LiveAt(k);
      DroppedLast(nodes);
      Unlink(lru, k);
    }

    method Forget(lru: Node<M>, ghost live: set<Node<M>>)
      requires Bijective(cache, live) && lru in live
      modifies `cache
      ensures Bijective(cache, live - {lru}) && |cache| == |old(cache)| - 1
      ensures Modules(cache) == Modules(old(cache)) - {lru.hash} && cache == old(cache) - {lru.hash}
    {
      hide Bijective, Modules;
      BijectiveRemove(cache, live, lru);
      VictimIsCached(cache, live, lru);
      ModulesRemove(cache, lru.hash);
      cache := cache - {lru.hash};
    }

    /** Repair: eviction through the kept tail sentinel. */
    method EvictTail()
      requires Valid() && cache != map[]
      modifies `nodes, `cache, nodes`prev, nodes`next
      ensures Valid() && |cache| == |old(cache)| - 1
      ensures forall i :: 0 <= i < |nodes| ==> nodes[i] in old(nodes)
      ensures old(Value()).order != [] && Value() == AfterEviction(old(Value()))
      ensures OnlyNew()
    {
      hide Linked, Hashes, Modules, Bijective;
      SameSize();
      var lru := DetachLast();
      Forget(lru, old(LiveSet()));
    }

    lemma NodesAre()
      ensures forall i :: 0 <= i < |nodes| ==> nodes[i] == head || nodes[i] == tail || nodes[i] in LiveSet()
    {
    }

    lemma SameSize()
      requires Valid()
      ensures |nodes| - 2 == |cache|
    {
      ValueConsistent();
    }

    /** A new key with the repaired eviction. */
    method InsertRepaired(hash: Hash, m: M)
      requires Valid() && hash !in cache
      modifies `nodes, `cache, nodes`prev, nodes`next
      ensures Valid()
      ensures Value() == BoundedPut(old(Value()), hash, m, maxSize)
      ensures OnlyNew()
    {
      hide Linked, Indexed, Touch, Hashes, Modules;
      SameSize();
      if |cache| >= maxSize {
        EvictTail();
      }
      InsertNew(hash, m);
    }

    /** Put with the repaired eviction: it never fails, and at capacity drops the last key. */
    method PutRepaired(hash: Hash, m: M)
      requires Valid()
      modifies `nodes, `cache, nodes`prev, nodes`next, cache.Values`module_
      ensures Valid()
      ensures Value() == BoundedPut(old(Value()), hash, m, maxSize)
      ensures OnlyNew()
    {
      hide Linked, Indexed, Touch, Hashes, Modules;
      if hash in cache {
        UpdateExisting(hash, m);
        return;
      }
      InsertRepaired(hash, m);
    }

    method Clear()
      requires Valid()
      modifies this
      ensures Valid() && Value() == Lru([], map[]) && hitCount == missCount == 0
      ensures fresh(nodes) && fresh(head) && fresh(tail) && cache == map[] && LiveSet() == {}
    {
      hide Linked, Bijective, Hashes, Modules;
      cache := map[];
      var h, t := NewSentinels<M>();
      head := h;
      tail := t;
      nodes := [h, t];
      hitCount := 0;
      missCount := 0;
      EmptyIsValid();
    }

    /** The footprint holds what it held before, or new objects. */
    twostate predicate OnlyNewNodes()
      reads `nodes, `cache
    {
      (forall i :: 0 <= i < |nodes| ==> nodes[i] in old(nodes) || fresh(nodes[i]))
      && (forall h :: h in cache ==> fresh(cache[h]) || (h in old(cache) && cache[h] == old(cache[h])))
    }

    twostate lemma NodesOnlyNew()
      requires old(Linked()) && OnlyNew()
      requires (head == old(head) || fresh(head)) && (tail == old(tail) || fresh(tail))
      ensures OnlyNewNodes()
    {
      assert old(nodes[0] == head && nodes[|nodes| - 1] == tail);
      NodesAre();
    }

    /** One operation of a run, Put as the source has it. */
    method ApplySource(op: Op<M>) returns (panicked: bool)
      requires Valid()
      modifies this, nodes, cache.Values`module_
      ensures Valid() && OnlyNewNodes()
      ensures SourceOp(old(Value()), op, maxSize) == if panicked then None else Some(Value())
    {
      hide Linked, Indexed, LiveSet, Hashes, Modules, AfterGet, AfterPut;
      assert |Value().modules.Keys| == |cache.Keys|;
      panicked := false;
      match op {
        case GetOp(k) => var found, m := Get(k);
        case PutOp(k, m) => panicked := Put(k, m);
        case ClearOp => Clear();
      }
      NodesOnlyNew();
    }

    /** One operation of a run, with the repaired Put. */
    method ApplyRepaired(op: Op<M>)
      requires Valid()
      modifies this, nodes, cache.Values`module_
      ensures Valid() && OnlyNewNodes()
      ensures Value() == AfterOp(old(Value()), op, maxSize)
    {
      hide Linked, Indexed, LiveSet, Hashes, Modules, AfterGet, BoundedPut;
      match op {
        case GetOp(k) => var found, m := Get(k);
        case PutOp(k, m) => PutRepaired(k, m);
        case ClearOp => Clear();
      }
      NodesOnlyNew();
    }

    lemma EmptyIsValid()
      requires maxSize > 0 && cache == map[] && nodes == [head, tail] && head != tail
      requires head.prev == null && head.next == tail && tail.prev == head && tail.next == null
      ensures Valid() && Value() == Lru([], map[]) && LiveSet() == {}
    {
      assert LiveSet() == {};
      assert Live() == [];
    }

    lemma AbsentTouch(hash: Hash)
      requires Valid() && hash !in cache
      ensures Touch(Hashes(Live()), hash) == [hash] + Hashes(Live())
    {
      ValueConsistent();
    }

    lemma EntryIsLive(hash: Hash)
      requires Valid() && hash in cache
      ensures cache[hash].lruNode != null && IsLive(cache[hash].lruNode) && cache[hash].lruNode.hash == hash
    {
    }
  }

  lemma AttachedLive<M>(nodes: seq<Node<M>>, node: Node<M>)
    requires |nodes| >= 2
    ensures var nodes' := [nodes[0], node] + nodes[1..];
            Hashes(nodes'[1..|nodes'| - 1]) == [node.hash] + Hashes(nodes[1..|nodes| - 1])
  {
    var nodes' := [nodes[0], node] + nodes[1..];
    assert nodes'[1..|nodes'| - 1] == [node] + nodes[1..|nodes| - 1];
  }

  lemma DroppedLast<M>(nodes: seq<Node<M>>)
    requires |nodes| >= 3
    ensures var k := |nodes| - 2;
            var nodes' := nodes[..k] + nodes[k + 1..];
            var order := Hashes(nodes[1..|nodes| - 1]);
            Hashes(nodes'[1..|nodes'| - 1]) == order[..|order| - 1] && order[|order| - 1] == nodes[k].hash
  {
    var k := |nodes| - 2;
    var nodes' := nodes[..k] + nodes[k + 1..];
    assert nodes'[1..|nodes'| - 1] == nodes[1..k];
  }

  function MovedUp<T>(s: seq<T>, k: nat): seq<T>
    requires k < |s|
  {
    [s[k]] + s[..k] + s[k + 1..]
  }

  lemma MovedFront<T>(nodes: seq<T>, k: nat)
    requires 0 < k < |nodes| - 1
    ensures var moved := [nodes[0], nodes[k]] + (nodes[..k] + nodes[k + 1..])[1..];
            var live, live' := nodes[1..|nodes| - 1], moved[1..|moved| - 1];
            live' == MovedUp(live, k - 1) && moved[|moved| - 1] == nodes[|nodes| - 1]
            && (forall n :: n in moved <==> n in nodes)
  {
    var last := |nodes| - 1;
    var before, after := nodes[1..k], nodes[k + 1..last];
    MovedParts(nodes, k);
    SameMembers(nodes[0], nodes[k], nodes[last], before, after);
    var live := nodes[1..last];
    assert live == before + [nodes[k]] + after;
    assert live[..k - 1] == before && live[k - 1] == nodes[k] && live[k..] == after;
    var moved := [nodes[0], nodes[k]] + before + after + [nodes[last]];
    assert moved[1..|moved| - 1] == [nodes[k]] + before + after;
  }

  lemma MovedParts<T>(nodes: seq<T>, k: nat)
    requires 0 < k < |nodes| - 1
    ensures var last := |nodes| - 1;
            var before, after := nodes[1..k], nodes[k + 1..last];
            nodes == [nodes[0]] + before + [nodes[k]] + after + [nodes[last]] &&
            [nodes[0], nodes[k]] + (nodes[..k] + nodes[k + 1..])[1..] ==
            [nodes[0], nodes[k]] + before + after + [nodes[last]]
  {
    var last := |nodes| - 1;
    assert nodes[..k] == [nodes[0]] + nodes[1..k] && nodes[k + 1..] == nodes[k + 1..last] + [nodes[last]];
  }

  lemma SameMembers<T>(h: T, x: T, t: T, before: seq<T>, after: seq<T>)
    ensures forall n :: n in [h, x] + before + after + [t] <==> n in [h] + before + [x] + after + [t]
  {
  }

  lemma MoveIsTouch<M>(live: seq<Node<M>>, k: nat)
    requires k < |live| && Distinct(Hashes(live))
    ensures Hashes(MovedUp(live, k)) == Touch(Hashes(live), live[k].hash)
  {
    RemoveAt(Hashes(live), k);
  }

  lemma {:induction false} RemoveAt(s: seq<Hash>, k: nat)
    requires Distinct(s) && k < |s|
    ensures Remove(s, s[k]) == s[..k] + s[k + 1..]
  {
    if k > 0 {
      RemoveAt(s[1..], k - 1);
      assert s == [s[0]] + s[1..];
    } else {
      assert s[0] !in s[1..];
    }
  }

  // ---------- Runs ----------

  datatype Op<M> = GetOp(k: Hash) | PutOp(k: Hash, m: M) | ClearOp

  function AfterOp<M>(c: Lru<M>, op: Op<M>, maxSize: nat): Lru<M>
  {
    match op
    case GetOp(k) => AfterGet(c, k)
    case PutOp(k, m) => BoundedPut(c, k, m, maxSize)
    case ClearOp => Lru([], map[])
  }

  /** The repaired cache after a run from empty. */
  function Cached<M>(maxSize: nat, ops: seq<Op<M>>): Lru<M>
  {
    if ops == [] then Lru([], map[]) else AfterOp(Cached(maxSize, ops[..|ops| - 1]), ops[|ops| - 1], maxSize)
  }

  function Recent<M>(r: seq<Hash>, c: Lru<M>, op: Op<M>): seq<Hash>
  {
    match op
    case GetOp(k) => if k in c.modules then Touch(r, k) else r
    case PutOp(k, _) => Touch(r, k)
    case ClearOp => []
  }

  /** Every key stored since the last Clear, evicted or not, by its latest Put or hit. */
  function Recency<M>(maxSize: nat, ops: seq<Op<M>>): seq<Hash>
  {
    if ops == [] then [] else
      var before := ops[..|ops| - 1];
      Recent(Recency(maxSize, before), Cached(maxSize, before), ops[|ops| - 1])
  }

  function LastPut<M>(ops: seq<Op<M>>, k: Hash): Option<M>
  {
    if ops == [] then None else
      match ops[|ops| - 1]
      case PutOp(k', m) => if k' == k then Some(m) else LastPut(ops[..|ops| - 1], k)
      case _ => LastPut(ops[..|ops| - 1], k)
  }

  function Top(r: seq<Hash>, n: nat): (t: seq<Hash>)
    ensures |t| == if n < |r| then n else |r|
  {
    if n < |r| then r[..n] else r
  }

  lemma {:induction false} RemoveDistinct(s: seq<Hash>, k: Hash)
    requires Distinct(s)
    ensures Distinct(Remove(s, k))
    ensures |Remove(s, k)| == if k in s then |s| - 1 else |s|
  {
    if s != [] {
      var rest := s[1..];
      assert forall i :: 0 <= i < |rest| ==> rest[i] == s[i + 1];
      assert s[0] !in rest;
      RemoveDistinct(rest, k);
    }
  }

  lemma RemoveKeeps(s: seq<Hash>, k: Hash)
    requires Distinct(s)
    ensures Distinct(Touch(s, k))
    ensures |Touch(s, k)| == if k in s then |s| else |s| + 1
  {
    hide Remove;
    RemoveDistinct(s, k);
  }

  /** Touching a key and keeping the top n is the same as touching it among the top n, or, for a
      key that is not among them, putting it before the top n - 1. */
  lemma {:induction false} TopOfTouch(r: seq<Hash>, k: Hash, n: nat)
    requires Distinct(r) && n > 0
    ensures Top(Touch(r, k), n) == if k in Top(r, n) then Touch(Top(r, n), k) else [k] + Top(r, n - 1)
  {
    TopOfRemove(r, k, n);
  }

  lemma RemoveUnfold(r: seq<Hash>, k: Hash)
    requires r != []
    ensures Remove(r, k) == if r[0] == k then Remove(r[1..], k) else [r[0]] + Remove(r[1..], k)
  {
  }

  lemma TopUnfold(r: seq<Hash>, n: nat)
    requires r != [] && n > 0
    ensures Top(r, n) == [r[0]] + Top(r[1..], n - 1)
  {
  }

  lemma TopIsPart(r: seq<Hash>, n: nat)
    ensures forall x :: x in Top(r, n) ==> x in r
    ensures n == 0 || r == [] ==> Top(r, n) == []
  {
  }

  lemma {:induction false} TopOfRemove(r: seq<Hash>, k: Hash, n: nat)
    requires Distinct(r) && n > 0
    ensures Top(Remove(r, k), n - 1) == if k in Top(r, n) then Remove(Top(r, n), k) else Top(r, n - 1)
  {
    hide Remove, Top;
    TopIsPart(r, n);
    if r != [] {
      RemoveUnfold(r, k);
      TopUnfold(r, n);
      TopIsPart(r[1..], n - 1);
      if r[0] == k {
        RemoveUnfold(Top(r, n), k);
        assert k !in r[1..] && Top(r, n)[1..] == Top(r[1..], n - 1);
      } else if n == 1 {
        TopIsPart(Remove(r, k), 0);
        TopIsPart(r[1..], 0);
        TopIsPart(r, 0);
        assert Top(r, 1) == [r[0]];
      } else {
        var rest := Remove(r[1..], k);
        TopUnfold(r, n - 1);
        TopUnfold([r[0]] + rest, n - 1);
        assert ([r[0]] + rest)[1..] == rest;
        TopOfRemove(r[1..], k, n - 1);
        RemoveUnfold(Top(r, n), k);
        assert Top(r, n)[1..] == Top(r[1..], n - 1);
      }
    } else {
      TopIsPart(Remove(r, k), n - 1);
      TopIsPart(r, n - 1);
    }
  }

  ghost predicate MostRecent<M>(c: Lru<M>, r: seq<Hash>, maxSize: nat)
  {
    Consistent(c) && Distinct(r) && c.order == Top(r, maxSize)
  }

  lemma GetKeepsMostRecent<M>(c: Lru<M>, r: seq<Hash>, k: Hash, maxSize: nat)
    requires maxSize > 0 && MostRecent(c, r, maxSize)
    ensures MostRecent(AfterGet(c, k), if k in c.modules then Touch(r, k) else r, maxSize)
  {
    hide Top, Remove;
    RemoveKeeps(r, k);
    RemoveKeeps(c.order, k);
    TopOfTouch(r, k, maxSize);
  }

  lemma {:induction false} PutKeepsMostRecent<M>(c: Lru<M>, r: seq<Hash>, k: Hash, m: M, maxSize: nat)
    requires maxSize > 0 && MostRecent(c, r, maxSize)
    ensures MostRecent(BoundedPut(c, k, m, maxSize), Touch(r, k), maxSize)
  {
    hide Top, Remove, Touch, AfterEviction, Consistent, AfterPut;
    var kept := if k !in c.modules && |c.order| >= maxSize then AfterEviction(c) else c;
    ConsistentKeys(c, k);
    if k !in c.modules {
      RoomMade(c, r, k, maxSize);
    }
    RemoveKeeps(r, k);
    TopOfTouch(r, k, maxSize);
    PutOnTop(kept, k, m);
    assert BoundedPut(c, k, m, maxSize) == AfterPut(kept, k, m);
  }

  lemma ConsistentKeys<M>(c: Lru<M>, k: Hash)
    requires Consistent(c)
    ensures k in c.modules <==> k in c.order
  {
  }

  lemma PutOnTop<M>(c: Lru<M>, k: Hash, m: M)
    requires Consistent(c)
    ensures Consistent(AfterPut(c, k, m)) && AfterPut(c, k, m).order == Touch(c.order, k)
    ensures k !in c.order ==> Touch(c.order, k) == [k] + c.order
  {
    hide Remove;
    RemoveKeeps(c.order, k);
  }

  lemma RoomMade<M>(c: Lru<M>, r: seq<Hash>, k: Hash, maxSize: nat)
    requires maxSize > 0 && MostRecent(c, r, maxSize) && k !in c.modules
    ensures var kept := if |c.order| >= maxSize then AfterEviction(c) else c;
            Consistent(kept) && k !in kept.order && kept.order == Top(r, maxSize - 1)
  {
    if |c.order| >= maxSize {
      EvictionConsistent(c);
    }
  }

  /** Over every run the repaired cache holds exactly the maxSize most recently used keys, in
      order, each with the module last stored for it: the victim of an eviction is the least
      recently used key. */
  lemma {:induction false} HoldsMostRecent<M>(maxSize: nat, ops: seq<Op<M>>)
    requires maxSize > 0
    ensures MostRecent(Cached(maxSize, ops), Recency(maxSize, ops), maxSize)
    ensures Remembers(Cached(maxSize, ops), ops)
  {
    hide AfterOp, Recent, MostRecent, Remembers;
    if ops == [] {
      EmptyMostRecent<M>(maxSize);
    } else {
      var before := ops[..|ops| - 1];
      HoldsMostRecent(maxSize, before);
      OpKeepsMostRecent(Cached(maxSize, before), Recency(maxSize, before), ops[|ops| - 1], maxSize);
      OpKeepsModules(Cached(maxSize, before), ops, maxSize);
    }
  }

  /** Every key held has the module last stored for it. */
  ghost predicate Remembers<M>(c: Lru<M>, ops: seq<Op<M>>)
  {
    forall k :: k in c.modules ==> LastPut(ops, k) == Some(c.modules[k])
  }

  lemma {:induction false} OpKeepsMostRecent<M>(c: Lru<M>, r: seq<Hash>, op: Op<M>, maxSize: nat)
    requires maxSize > 0 && MostRecent(c, r, maxSize)
    ensures MostRecent(AfterOp(c, op, maxSize), Recent(r, c, op), maxSize)
  {
    hide MostRecent, Touch, BoundedPut, AfterGet;
    match op
    case GetOp(k) => GetKeepsMostRecent(c, r, k, maxSize);
    case PutOp(k, m) => PutKeepsMostRecent(c, r, k, m, maxSize);
    case ClearOp => EmptyMostRecent<M>(maxSize);
  }

  lemma OpKeepsModules<M>(c: Lru<M>, ops: seq<Op<M>>, maxSize: nat)
    requires ops != [] && Remembers(c, ops[..|ops| - 1])
    ensures Remembers(AfterOp(c, ops[|ops| - 1], maxSize), ops)
  {
    hide Touch;
  }

  lemma EmptyMostRecent<M>(maxSize: nat)
    ensures MostRecent<M>(Lru([], map[]), [], maxSize) && Remembers<M>(Lru([], map[]), [])
  {
  }

  lemma EvictionConsistent<M>(c: Lru<M>)
    requires Consistent(c) && c.order != []
    ensures Consistent(AfterEviction(c))
  {
    var n := |c.order| - 1;
    assert c.order == c.order[..n] + [c.order[n]];
    assert c.order[n] !in c.order[..n];
  }

  function SourceOp<M>(c: Lru<M>, op: Op<M>, maxSize: nat): Option<Lru<M>>
  {
    match op
    case GetOp(k) => Some(AfterGet(c, k))
    case PutOp(k, m) => if k !in c.modules && |c.modules| >= maxSize then None else Some(AfterPut(c, k, m))
    case ClearOp => Some(Lru([], map[]))
  }

  /** The cache as the source has it; None once a Put has panicked. */
  function SourceRun<M>(maxSize: nat, ops: seq<Op<M>>): Option<Lru<M>>
  {
    if ops == [] then Some(Lru([], map[])) else
      match SourceRun(maxSize, ops[..|ops| - 1])
      case None => None
      case Some(c) => SourceOp(c, ops[|ops| - 1], maxSize)
  }

  lemma SourceStep<M>(c: Lru<M>, op: Op<M>, maxSize: nat)
    requires Consistent(c) && |c.order| <= maxSize
    ensures SourceOp(c, op, maxSize).Some? <==> |Recent(c.order, c, op)| <= maxSize
    ensures SourceOp(c, op, maxSize).Some? ==>
              SourceOp(c, op, maxSize).value == AfterOp(c, op, maxSize)
                  && AfterOp(c, op, maxSize).order == Recent(c.order, c, op)
  {
    hide Touch;
    ConsistentSize(c);
    if op.PutOp? {
      RemoveKeeps(c.order, op.k);
    } else if op.GetOp? {
      RemoveKeeps(c.order, op.k);
    }
  }

  /** Without the repair a run goes through exactly when it never stores more than maxSize keys
      between two Clears; then it never evicts, and agrees with the repaired cache. */
  lemma {:induction false} SourceRunsWhileThereIsRoom<M>(maxSize: nat, ops: seq<Op<M>>)
    requires maxSize > 0
    ensures SourceRun(maxSize, ops).Some? <==>
              forall n :: 0 <= n <= |ops| ==> |Recency(maxSize, ops[..n])| <= maxSize
    ensures SourceRun(maxSize, ops).Some? ==>
              SourceRun(maxSize, ops).value == Cached(maxSize, ops)
              && Cached(maxSize, ops).order == Recency(maxSize, ops)
  {
    hide SourceOp, AfterOp, Recent;
    assert ops[..|ops|] == ops;
    if ops == [] {
      assert forall n :: 0 <= n <= |ops| ==> ops[..n] == [];
    } else {
      var before := ops[..|ops| - 1];
      SourceRunsWhileThereIsRoom(maxSize, before);
      HoldsMostRecent(maxSize, before);
      assert forall n :: 0 <= n < |ops| ==> ops[..n] == before[..n];
      assert before[..|before|] == before;
      if SourceRun(maxSize, before).Some? {
        SourceStep(Cached(maxSize, before), ops[|ops| - 1], maxSize);
      }
    }
  }

  /** A run on a new cache, by the repaired Put. */
  method RunRepaired<M>(requestedSize: int, ops: seq<Op<M>>) returns (c: Cache<M>)
    ensures c.Valid() && c.Value() == Cached(c.maxSize, ops)
    ensures c.maxSize == if requestedSize <= 0 then 16 else requestedSize
  {
    hide Cache.Linked, Cache.Indexed, Cache.Value, Hashes, Modules, AfterOp, Cached;
    c := new Cache<M>(requestedSize);
    assert ops[..0] == [];
    RunExtends(c.maxSize, ops, 0);
    for i := 0 to |ops|
      invariant fresh(c) && fresh(c.nodes) && forall h :: h in c.cache ==> fresh(c.cache[h])
      invariant c.Valid() && c.Value() == Cached(c.maxSize, ops[..i])
    {
      RunExtends(c.maxSize, ops, i);
      c.ApplyRepaired(ops[i]);
    }
    assert ops[..|ops|] == ops;
  }

  lemma RunExtends<M>(maxSize: nat, ops: seq<Op<M>>, i: nat)
    requires i <= |ops|
    ensures Cached<M>(maxSize, []) == Lru([], map[])
    ensures i < |ops| ==> Cached(maxSize, ops[..i + 1]) == AfterOp(Cached(maxSize, ops[..i]), ops[i], maxSize)
  {
    assert i < |ops| ==> ops[..i + 1][..i] == ops[..i];
  }

  /** The same run by Put as the source has it, up to the first panic. */
  method RunSource<M>(requestedSize: int, ops: seq<Op<M>>) returns (c: Cache<M>, panicked: bool)
    ensures c.Valid() && c.maxSize == if requestedSize <= 0 then 16 else requestedSize
    ensures SourceRun(c.maxSize, ops) == if panicked then None else Some(c.Value())
  {
    hide Cache.Linked, Cache.Indexed, Cache.Value, Hashes, Modules, SourceOp, SourceRun;
    c := new Cache<M>(requestedSize);
    assert ops[..0] == [];
    SourceStarts<M>(c.maxSize);
    for i := 0 to |ops|
      invariant fresh(c) && fresh(c.nodes) && forall h :: h in c.cache ==> fresh(c.cache[h])
      invariant c.Valid() && SourceRun(c.maxSize, ops[..i]) == Some(c.Value())
    {
      SourceExtends(c.maxSize, ops, i, c.Value());
      panicked := c.ApplySource(ops[i]);
      if panicked {
        PanicStays(c.maxSize, ops, i + 1);
        return;
      }
    }
    assert ops[..|ops|] == ops;
    panicked := false;
  }

  lemma SourceStarts<M>(maxSize: nat)
    ensures SourceRun<M>(maxSize, []) == Some(Lru([], map[]))
  {
  }

  lemma SourceExtends<M>(maxSize: nat, ops: seq<Op<M>>, i: nat, c: Lru<M>)
    requires i < |ops| && SourceRun(maxSize, ops[..i]) == Some(c)
    ensures SourceRun(maxSize, ops[..i + 1]) == SourceOp(c, ops[i], maxSize)
  {
    assert ops[..i + 1][..i] == ops[..i];
  }

  lemma PanicExtends<M>(maxSize: nat, ops: seq<Op<M>>)
    requires ops != [] && SourceRun(maxSize, ops[..|ops| - 1]) == None
    ensures SourceRun(maxSize, ops) == None
  {
  }

  lemma {:induction false} PanicStays<M>(maxSize: nat, ops: seq<Op<M>>, i: nat)
    requires i <= |ops| && SourceRun(maxSize, ops[..i]) == None
    ensures SourceRun(maxSize, ops) == None
    decreases |ops|
  {
    hide SourceRun;
    assert ops[..|ops|] == ops;
    if i < |ops| {
      var before := ops[..|ops| - 1];
      assert before[..i] == ops[..i];
      PanicStays(maxSize, before, i);
      PanicExtends(maxSize, ops);
    }
  }

  lemma ConsistentSize<M>(c: Lru<M>)
    requires Consistent(c)
    ensures |c.order| == |c.modules|
  {
    DistinctSize(c.order, c.modules.Keys);
  }
}
