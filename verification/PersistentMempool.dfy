/** The persistent transaction queue (sequencer/mempool_persist.go): pending transactions under
    big-endian sequence keys and a hash index in one ordered key space. The database's ordered
    iteration and its atomic transactions are taken as given; the record codec is unknown. */
module PersistentMempool {
  import opened BigEndian
  import opened Bytes
  import opened Common
  import opened KeyValue

  datatype Codec<!T> = Codec(valid: T -> bool, hash: T -> seq<byte>, marshal: T -> seq<byte>,
        unmarshal: seq<byte> -> Option<T>)

  /** Hashes are 32 bytes and records are read back. */
  ghost predicate Lawful<T(!new)>(codec: Codec<T>)
  {
    (forall t :: |codec.hash(t)| == 32) && (forall t :: codec.unmarshal(codec.marshal(t)) == Some(t))
  }

  /** "mp:pending:", "mp:index:" and "mp:seq". */
  const PENDING: Key := [0x6d, 0x70, 0x3a, 0x70, 0x65, 0x6e, 0x64, 0x69, 0x6e, 0x67, 0x3a]
  const INDEX: Key := [0x6d, 0x70, 0x3a, 0x69, 0x6e, 0x64, 0x65, 0x78, 0x3a]
  const SEQUENCE: Key := [0x6d, 0x70, 0x3a, 0x73, 0x65, 0x71]

  function PendingKey(sequence: nat): Key
  {
    PENDING + Encode(sequence, 8)
  }

  function IndexKey(hash: seq<byte>): Key
  {
    INDEX + hash
  }

  lemma KeysApart(m: nat, hash: seq<byte>)
    ensures PendingKey(m) != IndexKey(hash) && PendingKey(m) != SEQUENCE && IndexKey(hash) != SEQUENCE
    ensures PENDING <= PendingKey(m) && !(PENDING <= IndexKey(hash)) && !(PENDING <= SEQUENCE)
  {
    assert PendingKey(m)[3] == 0x70 && IndexKey(hash)[3] == 0x69 && SEQUENCE[3] == 0x73;
  }

  lemma KeysInjective(m: nat, n: nat, g: seq<byte>, h: seq<byte>)
    ensures m < U64 && n < U64 ==> (PendingKey(m) == PendingKey(n) <==> m == n)
    ensures m < U64 && n < U64 ==> (Less(PendingKey(m), PendingKey(n)) <==> m < n)
    ensures IndexKey(g) == IndexKey(h) <==> g == h
  {
    LimitOfEight();
    if m < U64 && n < U64 {
      EncodeOrder(m, n, 8);
      LessPrefix(PENDING, Encode(m, 8), Encode(n, 8));
      assert PendingKey(m)[|PENDING|..] == Encode(m, 8) && PendingKey(n)[|PENDING|..] == Encode(n, 8);
    }
    assert IndexKey(g)[|INDEX|..] == g && IndexKey(h)[|INDEX|..] == h;
  }

  // ---------- The queue the keys stand for ----------

  datatype Record<T> = Record(sequence: nat, tx: T)

  ghost predicate Ordered<T>(queue: seq<Record<T>>, counter: nat)
  {
    counter < U64
    && (forall i :: 0 <= i < |queue| ==> 1 <= queue[i].sequence <= counter)
    && (forall i, j :: 0 <= i < j < |queue| ==> queue[i].sequence < queue[j].sequence)
  }

  ghost predicate DistinctHashes<T>(codec: Codec<T>, queue: seq<Record<T>>)
  {
    forall i, j :: 0 <= i < j < |queue| ==> codec.hash(queue[i].tx) != codec.hash(queue[j].tx)
  }

  ghost predicate Owned<T>(codec: Codec<T>, queue: seq<Record<T>>, k: Key)
  {
    k == SEQUENCE || exists i :: 0 <= i < |queue| && OwnedBy(codec, queue[i], k)
  }

  ghost predicate OwnedBy<T>(codec: Codec<T>, r: Record<T>, k: Key)
  {
    k == PendingKey(r.sequence) || k == IndexKey(codec.hash(r.tx))
  }

  ghost predicate Present<T>(codec: Codec<T>, db: Table, r: Record<T>)
  {
    PendingKey(r.sequence) in db && db[PendingKey(r.sequence)] == codec.marshal(r.tx)
    && IndexKey(codec.hash(r.tx)) in db && db[IndexKey(codec.hash(r.tx))] == Encode(r.sequence, 8)
  }

  function CurrentSequence(db: Table): Option<nat>
  {
    if SEQUENCE !in db then Some(0) else if |db[SEQUENCE]| != 8 then None else Some(Decode(db[SEQUENCE]))
  }

  /** The database holds the queue's records under both keys, the counter, and nothing else. */
  ghost predicate Stores<T>(codec: Codec<T>, db: Table, queue: seq<Record<T>>, counter: nat)
  {
    Ordered(queue, counter) && DistinctHashes(codec, queue) && CurrentSequence(db) == Some(counter)
    && (forall i :: 0 <= i < |queue| ==> Present(codec, db, queue[i]))
    && (forall k :: k in db ==> Owned(codec, queue, k))
  }

  ghost predicate HasHash<T>(codec: Codec<T>, queue: seq<Record<T>>, hash: seq<byte>)
  {
    exists i :: 0 <= i < |queue| && codec.hash(queue[i].tx) == hash
  }

  lemma IndexTellsPresence<T>(codec: Codec<T>, db: Table, queue: seq<Record<T>>, counter: nat, hash: seq<byte>)
    requires Stores(codec, db, queue, counter)
    ensures IndexKey(hash) in db <==> HasHash(codec, queue, hash)
  {
    if IndexKey(hash) in db {
      KeysApart(0, hash);
      assert Owned(codec, queue, IndexKey(hash));
      var i :| 0 <= i < |queue| && OwnedBy(codec, queue[i], IndexKey(hash));
      KeysApart(queue[i].sequence, hash);
      KeysInjective(0, 0, hash, codec.hash(queue[i].tx));
    }
  }

  function Stored(db: Table, sequence: nat, data: Value, hash: seq<byte>): Table
  {
    db[SEQUENCE := Encode(sequence, 8)][PendingKey(sequence) := data][IndexKey(hash) := Encode(sequence, 8)]
  }

  lemma AddStores<T>(codec: Codec<T>, db: Table, queue: seq<Record<T>>, counter: nat, tx: T)
    requires Stores(codec, db, queue, counter) && counter + 1 < U64 && !HasHash(codec, queue, codec.hash(tx))
    ensures var n := counter + 1;
            Stores(codec, Stored(db, n, codec.marshal(tx), codec.hash(tx)), queue + [Record(n, tx)], n)
  {
    hide Encode, Decode, PendingKey, IndexKey, CurrentSequence;
    var hash, n := codec.hash(tx), counter + 1;
    var db', queue' := Stored(db, n, codec.marshal(tx), hash), queue + [Record(n, tx)];
    KeysApart(n, hash);
    forall i | 0 <= i < |queue|
      ensures Present(codec, db', queue'[i])
    {
      var r := queue[i];
      assert Present(codec, db, r);
      KeysApart(r.sequence, codec.hash(r.tx));
      KeysApart(n, codec.hash(r.tx));
      KeysApart(r.sequence, hash);
      KeysInjective(r.sequence, n, codec.hash(r.tx), hash);
    }
    StoredOwned(codec, db, queue, n, tx);
    StoredCounter(db, n, codec.marshal(tx), hash);
  }

  lemma StoredOwned<T>(codec: Codec<T>, db: Table, queue: seq<Record<T>>, n: nat, tx: T)
    requires forall k :: k in db ==> Owned(codec, queue, k)
    ensures forall k :: k in Stored(db, n, codec.marshal(tx), codec.hash(tx)) ==>
              Owned(codec, queue + [Record(n, tx)], k)
  {
    hide Encode, PendingKey, IndexKey;
    var queue' := queue + [Record(n, tx)];
    forall k | k in Stored(db, n, codec.marshal(tx), codec.hash(tx))
      ensures Owned(codec, queue', k)
    {
      if k in db {
        assert Owned(codec, queue, k);
        if k != SEQUENCE {
          var i :| 0 <= i < |queue| && OwnedBy(codec, queue[i], k);
          assert OwnedBy(codec, queue'[i], k);
        }
      } else {
        assert k != SEQUENCE ==> OwnedBy(codec, queue'[|queue|], k);
      }
    }
  }

  lemma StoredCounter(db: Table, n: nat, data: Value, hash: seq<byte>)
    requires n < U64
    ensures CurrentSequence(Stored(db, n, data, hash)) == Some(n)
  {
    hide Encode, Decode, PendingKey, IndexKey;
    KeysApart(n, hash);
    LimitOfEight();
    DecodeEncode(n, 8);
  }

  function Without<T>(queue: seq<Record<T>>, i: nat): seq<Record<T>>
    requires i < |queue|
  {
    queue[..i] + queue[i + 1..]
  }

  function Dropped(db: Table, sequence: nat, hash: seq<byte>): Table
  {
    db - {PendingKey(sequence)} - {IndexKey(hash)}
  }

  lemma PresentSurvives<T>(codec: Codec<T>, db: Table, r: Record<T>, sequence: nat, hash: seq<byte>)
    requires Present(codec, db, r) && r.sequence != sequence && codec.hash(r.tx) != hash
    requires r.sequence < U64 && sequence < U64
    ensures Present(codec, Dropped(db, sequence, hash), r)
  {
    hide Encode, PendingKey, IndexKey;
    KeysApart(r.sequence, hash);
    KeysApart(sequence, codec.hash(r.tx));
    KeysInjective(r.sequence, sequence, codec.hash(r.tx), hash);
  }

  lemma CounterSurvives(db: Table, sequence: nat, hash: seq<byte>)
    ensures CurrentSequence(Dropped(db, sequence, hash)) == CurrentSequence(db)
  {
    hide Encode, Decode, PendingKey, IndexKey;
    KeysApart(sequence, hash);
  }

  lemma OwnedSurvives<T>(codec: Codec<T>, queue: seq<Record<T>>, i: nat, k: Key)
    requires i < |queue| && Owned(codec, queue, k) && !OwnedBy(codec, queue[i], k)
    ensures Owned(codec, Without(queue, i), k)
  {
    hide OwnedBy;
    if k != SEQUENCE {
      var j :| 0 <= j < |queue| && OwnedBy(codec, queue[j], k);
      assert OwnedBy(codec, Without(queue, i)[if j < i then j else j - 1], k);
    }
  }

  lemma {:induction false} RemoveStores<T>(codec: Codec<T>, db: Table, queue: seq<Record<T>>, counter: nat, i: nat)
    requires Stores(codec, db, queue, counter) && i < |queue|
    ensures Stores(codec, Dropped(db, queue[i].sequence, codec.hash(queue[i].tx)), Without(queue, i), counter)
  {
    hide Present, Owned, CurrentSequence, PendingKey, IndexKey;
    var gone := queue[i];
    var g := codec.hash(gone.tx);
    var db', queue' := Dropped(db, gone.sequence, g), Without(queue, i);
    assert forall j :: 0 <= j < |queue'| ==> queue'[j] == queue[if j < i then j else j + 1];
    forall j | 0 <= j < |queue'|
      ensures Present(codec, db', queue'[j])
    {
      PresentSurvives(codec, db, queue'[j], gone.sequence, g);
    }
    forall k | k in db'
      ensures Owned(codec, queue', k)
    {
      OwnedSurvives(codec, queue, i, k);
    }
    CounterSurvives(db, gone.sequence, g);
  }

  // ---------- Iteration in key order ----------

  function PendingKeys<T>(queue: seq<Record<T>>): (keys: seq<Key>)
    ensures |keys| == |queue| && forall i :: 0 <= i < |queue| ==> keys[i] == PendingKey(queue[i].sequence)
  {
    seq(|queue|, i requires 0 <= i < |queue| => PendingKey(queue[i].sequence))
  }

  function WithPrefix(db: Table): Table
  {
    map k | k in db && PENDING <= k :: db[k]
  }

  /** Key order is queue order. */
  lemma IterationIsQueue<T>(codec: Codec<T>, db: Table, queue: seq<Record<T>>, counter: nat, keys: seq<Key>)
    requires Stores(codec, db, queue, counter)
    requires Enumerates(keys, WithPrefix(db)) && Sorted(keys)
    ensures keys == PendingKeys(queue)
  {
    hide Less, Encode;
    var pending := PendingKeys(queue);
    forall i, j | 0 <= i < j < |pending|
      ensures !Less(pending[j], pending[i]) && pending[i] != pending[j]
    {
      KeysInjective(queue[j].sequence, queue[i].sequence, [], []);
    }
    forall k
      ensures k in pending <==> k in WithPrefix(db)
    {
      PendingMembers(codec, db, queue, counter, k);
    }
    SameSetDistinct(keys, pending);
    SortedUnique(keys, pending);
  }

  lemma {:induction false} PendingMembers<T>(codec: Codec<T>, db: Table, queue: seq<Record<T>>, counter: nat, k: Key)
    requires Stores(codec, db, queue, counter)
    ensures k in PendingKeys(queue) <==> k in WithPrefix(db)
  {
    hide PendingKey, IndexKey, CurrentSequence, Ordered, DistinctHashes;
    var pending := PendingKeys(queue);
    KeysApart(0, []);
    if k in pending {
      var i :| 0 <= i < |pending| && pending[i] == k;
      assert Present(codec, db, queue[i]);
      KeysApart(queue[i].sequence, []);
    }
    if k in WithPrefix(db) {
      assert Owned(codec, queue, k);
      var i := OwnerOf(codec, queue, k);
      assert pending[i] == k;
    }
  }

  lemma OwnerOf<T>(codec: Codec<T>, queue: seq<Record<T>>, k: Key) returns (i: nat)
    requires Owned(codec, queue, k) && PENDING <= k
    ensures i < |queue| && k == PendingKey(queue[i].sequence)
  {
    hide PendingKey, IndexKey;
    KeysApart(0, []);
    i :| i < |queue| && OwnedBy(codec, queue[i], k);
    KeysApart(queue[i].sequence, codec.hash(queue[i].tx));
  }

  function Txs<T>(queue: seq<Record<T>>): (txs: seq<T>)
    ensures |txs| == |queue| && forall i :: 0 <= i < |queue| ==> txs[i] == queue[i].tx
  {
    seq(|queue|, i requires 0 <= i < |queue| => queue[i].tx)
  }

  datatype Outcome = Rejected | AlreadyExists | Added(hash: seq<byte>)

  class Mempool<T(!new)> {
    const codec: Codec<T>
    var db: Table
    /** Live transactions in insertion order, and how many numbers have been given out. */
    ghost var queue: seq<Record<T>>
    ghost var counter: nat

    ghost predicate Valid()
      reads this
    {
      Lawful(codec) && Stores(codec, db, queue, counter)
    }

    constructor (codec: Codec<T>)
      requires Lawful(codec)
      ensures Valid() && queue == [] && counter == 0 && this.codec == codec
    {
      this.codec := codec;
      db := map[];
      queue := [];
      counter := 0;
    }

    /** None is the error for a stored counter that is not eight bytes long. */
    method GetNextSequence() returns (next: Option<nat>)
      modifies `db
      ensures match CurrentSequence(old(db))
              case None => next == None && db == old(db)
              case Some(n) => next == Some((n + 1) % U64) && db == old(db)[SEQUENCE := Encode((n + 1) % U64, 8)]
      ensures next == None <==> SEQUENCE in old(db) && |old(db)[SEQUENCE]| != 8
      ensures SEQUENCE !in old(db) ==> next == Some(1)
    {
      var current := 0;
      if SEQUENCE in db {
        if |db[SEQUENCE]| != 8 {
          return None;
        }
        current := Decode(db[SEQUENCE]);
      }
      var n := (current + 1) % U64;
      db := db[SEQUENCE := Encode(n, 8)];
      next := Some(n);
    }

    /** The three writes for a transaction that is not there yet. */
    method Append(tx: T, hash: seq<byte>)
      requires Valid() && codec.valid(tx) && hash == codec.hash(tx) && !HasHash(codec, queue, hash)
      modifies this
      ensures old(counter) + 1 < U64 ==>
        Valid() && queue == old(queue) + [Record(counter, tx)] && counter == old(counter) + 1
      ensures old(counter) + 1 == U64 ==>
        db == Stored(old(db), 0, codec.marshal(tx), hash)
        && forall i :: 0 <= i < |old(queue)| ==> Less(PendingKey(0), PendingKey(old(queue)[i].sequence))
    {
      hide Stores, HasHash, Encode, Decode, Lawful, PendingKey, IndexKey, CurrentSequence, Less;
      ghost var before := db;
      WrapGoesFirst(codec, db, queue, counter);
      if counter + 1 < U64 {
        AddStores(codec, db, queue, counter, tx);
      }
      ghost var wraps := counter + 1 == U64;
      var next := GetNextSequence();
      var sequence := next.value;
      db := db[PendingKey(sequence) := codec.marshal(tx)];
      db := db[IndexKey(hash) := Encode(sequence, 8)];
      assert db == Stored(before, sequence, codec.marshal(tx), hash);
      if !wraps {
        queue := queue + [Record(counter + 1, tx)];
        counter := counter + 1;
      }
    }

    /** A new transaction goes to the end of the queue under a number never used before, until all
        64-bit numbers are used up: then the counter wraps to 0 and the transaction goes before
        all the others. */
    method Add(tx: T) returns (outcome: Outcome)
      requires Valid()
      modifies this
      ensures outcome ==
        if !codec.valid(tx) then Rejected
        else if HasHash(codec, old(queue), codec.hash(tx)) then AlreadyExists
        else Added(codec.hash(tx))
      ensures !outcome.Added? ==> Valid() && queue == old(queue) && counter == old(counter) && db == old(db)
      ensures outcome.Added? && old(counter) + 1 < U64 ==>
        Valid() && queue == old(queue) + [Record(counter, tx)] && counter == old(counter) + 1
      ensures outcome.Added? && old(counter) + 1 == U64 ==>
        db == Stored(old(db), 0, codec.marshal(tx), codec.hash(tx))
        && forall i :: 0 <= i < |old(queue)| ==> Less(PendingKey(0), PendingKey(old(queue)[i].sequence))
    {
      hide Stores, HasHash, Encode, Decode, Lawful, PendingKey, IndexKey, CurrentSequence, Less, Stored;
      if !codec.valid(tx) {
        return Rejected;
      }
      var hash := codec.hash(tx);
      IndexTellsPresence(codec, db, queue, counter, hash);
      if IndexKey(hash) in db {
        return AlreadyExists;
      }
      Append(tx, hash);
      outcome := Added(hash);
    }

    /** The transaction of that hash leaves the queue; the others keep their order and numbers. */
    method Remove(hash: seq<byte>) returns (ok: bool, ghost i: nat)
      requires Valid()
      modifies this
      ensures Valid() && counter == old(counter)
      ensures ok <==> HasHash(codec, old(queue), hash)
      ensures ok ==> i < |old(queue)| && codec.hash(old(queue)[i].tx) == hash
                     && queue == old(queue)[..i] + old(queue)[i + 1..]
      ensures !ok ==> queue == old(queue) && db == old(db)
    {
      hide Stores, HasHash, Encode, Decode, Lawful;
      IndexTellsPresence(codec, db, queue, counter, hash);
      i := 0;
      if IndexKey(hash) !in db {
        return false, 0;
      }
      var value := db[IndexKey(hash)];
      i := FindHash(codec, db, queue, counter, hash);
      ok := |value| == 8;
      if !ok {
        return;
      }
      var sequence := Decode(value);
      RemoveStores(codec, db, queue, counter, i);
      db := db - {PendingKey(sequence)};
      db := db - {IndexKey(hash)};
      queue := Without(queue, i);
      ok := true;
    }

    /** The database's prefix iterator: pending keys in byte order. */
    method Iterate() returns (keys: seq<Key>)
      ensures Enumerates(keys, WithPrefix(db)) && Sorted(keys)
    {
      hide Less;
      var some: seq<Key> := [];
      var rest := WithPrefix(db).Keys;
      while rest != {}
        invariant rest <= WithPrefix(db).Keys && Distinct(some)
        invariant forall k :: k in some <==> k in WithPrefix(db) && k !in rest
        decreases |rest|
      {
        var k :| k in rest;
        some := some + [k];
        rest := rest - {k};
      }
      keys := SortKeys(some);
      SortedEnumerates(some, keys, WithPrefix(db));
    }

    /** The first n live transactions in insertion order. */
    method Next(n: int) returns (txs: Option<seq<T>>)
      requires Valid()
      ensures txs == if n <= 0 then None else Some(Txs(queue)[..if n < |queue| then n else |queue|])
    {
      hide Less, Sorted, Encode;
      if n <= 0 {
        return None;
      }
      var keys := Iterate();
      IterationIsQueue(codec, db, queue, counter, keys);
      var found: seq<T> := [];
      var i := 0;
      while i < |keys| && |found| < n
        invariant 0 <= i <= |keys| && i <= n && found == Txs(queue)[..i]
      {
        assert Present(codec, db, queue[i]);
        var record := codec.unmarshal(db[keys[i]]);
        if record.Some? {
          found := found + [record.value];
        }
        i := i + 1;
      }
      txs := Some(found);
    }

    method Count() returns (count: nat)
      requires Valid()
      ensures count == |queue|
    {
      hide Less, Sorted, Encode;
      var keys := Iterate();
      IterationIsQueue(codec, db, queue, counter, keys);
      count := 0;
      for i := 0 to |keys|
        invariant count == i
      {
        count := count + 1;
      }
    }
  }

  lemma WrapGoesFirst<T>(codec: Codec<T>, db: Table, queue: seq<Record<T>>, counter: nat)
    requires Stores(codec, db, queue, counter)
    ensures counter < U64 && CurrentSequence(db) == Some(counter)
    ensures forall i :: 0 <= i < |queue| ==> Less(PendingKey(0), PendingKey(queue[i].sequence))
  {
    hide Less, PendingKey;
    forall i | 0 <= i < |queue|
      ensures Less(PendingKey(0), PendingKey(queue[i].sequence))
    {
      KeysInjective(0, queue[i].sequence, [], []);
    }
  }

  lemma {:induction false} FindHash<T>(codec: Codec<T>, db: Table, queue: seq<Record<T>>, counter: nat,
        hash: seq<byte>) returns (i: nat)
    requires Stores(codec, db, queue, counter) && IndexKey(hash) in db
    ensures i < |queue| && codec.hash(queue[i].tx) == hash
    ensures |db[IndexKey(hash)]| == 8 && Decode(db[IndexKey(hash)]) == queue[i].sequence
  {
    IndexTellsPresence(codec, db, queue, counter, hash);
    i :| i < |queue| && codec.hash(queue[i].tx) == hash;
    assert Present(codec, db, queue[i]);
    LimitOfEight();
    DecodeEncode(queue[i].sequence, 8);
  }
}
