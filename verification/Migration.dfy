/** Contract migration with rollback (sequencer/exec.go). The migration function runs against the
    live store, so its writes are an unknown change of the table; the engine's own lock is left
    out, because the source takes it twice. */
module Migration {
  import opened Bytes
  import opened Common
  import opened Contracts
  import opened KeyValue

  datatype OpType = PutOp | DeleteOp | EventOp | OtherOp

  datatype StagedOp = StagedOp(kind: OpType, key: Key, data: Value)

  /** What the runtime reports: an error, or the staged operations of a successful call. */
  datatype RunResult = RunFailed | RunSucceeded(ops: seq<StagedOp>)

  /** An execution: the writes it makes on its way and its result, both given the table. */
  datatype Execution = Execution(writes: Table -> Table, result: Table -> RunResult)

  /** The store accepts no empty key, whoever writes. */
  ghost predicate Writable(run: Execution)
  {
    forall table: Table :: [] !in table ==> [] !in run.writes(table)
  }

  /** The staged operations in order; None at the first one that fails. */
  function Applied(table: Table, ops: seq<StagedOp>): Option<Table>
    decreases |ops|
  {
    if ops == [] then Some(table)
    else match ops[0].kind
      case PutOp => if ops[0].key == [] then None else Applied(table[ops[0].key := ops[0].data], ops[1..])
      case DeleteOp => if ops[0].key == [] then None else Applied(table - {ops[0].key}, ops[1..])
      case EventOp => Applied(table, ops[1..])
      case OtherOp => None
  }

  /** An event, or a put or delete of some key. */
  predicate Supported(op: StagedOp)
  {
    op.kind == EventOp || ((op.kind == PutOp || op.kind == DeleteOp) && op.key != [])
  }

  predicate Writes(op: StagedOp, key: Key)
  {
    (op.kind == PutOp || op.kind == DeleteOp) && op.key == key
  }

  /** Operation i is the last put or delete of the key. */
  predicate LastWrite(ops: seq<StagedOp>, key: Key, i: nat)
  {
    i < |ops| && Writes(ops[i], key) && forall j :: i < j < |ops| ==> !Writes(ops[j], key)
  }

  /** What a list of operations makes of a key: the value of a last put, nothing after a last
      delete, and what was there if no operation writes it. */
  ghost predicate Ends(table: Table, ops: seq<StagedOp>, key: Key, after: Table)
  {
    (forall i: nat :: LastWrite(ops, key, i) ==>
       if ops[i].kind == PutOp then key in after && after[key] == ops[i].data else key !in after)
    && ((forall i :: 0 <= i < |ops| ==> !Writes(ops[i], key)) ==>
          (key in after <==> key in table) && (key in table ==> after[key] == table[key]))
  }

  /** Operations succeed exactly when all are supported. */
  lemma {:induction false} AppliedExactly(table: Table, ops: seq<StagedOp>)
    ensures Applied(table, ops).Some? <==> forall i :: 0 <= i < |ops| ==> Supported(ops[i])
    decreases |ops|
  {
    if ops != [] {
      match ops[0].kind
      case PutOp => AppliedExactly(table[ops[0].key := ops[0].data], ops[1..]);
      case DeleteOp => AppliedExactly(table - {ops[0].key}, ops[1..]);
      case EventOp => AppliedExactly(table, ops[1..]);
      case OtherOp => assert !Supported(ops[0]);
      assert forall i :: 1 <= i < |ops| ==> ops[i] == ops[1..][i - 1];
      assert forall i :: 0 <= i < |ops| - 1 ==> ops[1..][i] == ops[i + 1];
    }
  }

  lemma {:induction false} AppliedEnds(table: Table, ops: seq<StagedOp>, key: Key)
    requires Applied(table, ops).Some?
    ensures Ends(table, ops, key, Applied(table, ops).value)
    decreases |ops|
  {
    if ops != [] {
      var op, rest, after := ops[0], ops[1..], Applied(table, ops).value;
      var next := if op.kind == PutOp then table[op.key := op.data]
        else if op.kind == DeleteOp then table - {op.key} else table;
      assert Applied(table, ops) == Applied(next, rest);
      AppliedEnds(next, rest, key);
      assert forall i :: 0 <= i < |rest| ==> rest[i] == ops[i + 1];
      forall i: nat | LastWrite(ops, key, i)
        ensures if ops[i].kind == PutOp then key in after && after[key] == ops[i].data else key !in after
      {
        if i > 0 {
          assert LastWrite(rest, key, i - 1);
        }
      }
      assert forall i :: 1 <= i < |ops| ==> ops[i] == rest[i - 1];
    }
  }

  /** What running a module does, given its bytes. */
  type Runtime = Value -> Execution

  /** The table after a migration that goes through, activation included; None if any part fails. */
  function Migrated(codec: Codec, sha: Hash, table: Table, addr: seq<byte>, version: int,
        runtime: Runtime): Option<Table>
  {
    match Loaded(codec, sha, table, addr, version)
    case None => None
    case Some(wasm) =>
      match runtime(wasm).result(table)
      case RunFailed => None
      case RunSucceeded(ops) =>
        match Applied(runtime(wasm).writes(table), ops)
        case None => None
        case Some(after) =>
          if CanActivate(codec, after, addr, version) then Some(AfterActivation(codec, after, addr, version)) else None
  }

  class ExecutionEngine {
    const kvStore: Store
    const contractStore: ContractStore?

    constructor (kvStore: Store, contractStore: ContractStore?)
      ensures this.kvStore == kvStore && this.contractStore == contractStore
    {
      this.kvStore := kvStore;
      this.contractStore := contractStore;
    }

    /** A copy of every key and value. */
    method CreateStateSnapshot() returns (snapshot: Table)
      ensures snapshot == kvStore.data
    {
      snapshot := map[];
      var keys := kvStore.Keys();
      for i := 0 to |keys|
        invariant forall k :: k in snapshot <==> k in keys[..i]
        invariant forall k :: k in snapshot ==> k in kvStore.data && snapshot[k] == kvStore.data[k]
      {
        assert keys[i] in keys && keys[..i + 1] == keys[..i] + [keys[i]];
        snapshot := snapshot[keys[i] := kvStore.data[keys[i]]];
      }
      assert keys[..|keys|] == keys;
    }

    /** Delete every key, then put the snapshot back. */
    method RestoreStateSnapshot(snapshot: Table) returns (ok: bool)
      requires [] !in kvStore.data && [] !in snapshot
      modifies kvStore
      ensures ok && kvStore.data == snapshot
    {
      ok := kvStore.Clear();
      var rest := snapshot.Keys;
      while rest != {}
        invariant rest <= snapshot.Keys
        invariant kvStore.data == map k | k in snapshot && k !in rest :: snapshot[k]
        decreases |rest|
      {
        var k :| k in rest;
        ok := kvStore.Put(k, snapshot[k]);
        rest := rest - {k};
      }
      ok := true;
    }

    method ProcessStagedOperations(ops: seq<StagedOp>) returns (ok: bool)
      requires [] !in kvStore.data
      modifies kvStore
      ensures ok <==> Applied(old(kvStore.data), ops).Some?
      ensures ok ==> kvStore.data == Applied(old(kvStore.data), ops).value
      ensures ok <==> forall i :: 0 <= i < |ops| ==> Supported(ops[i])
      ensures ok ==> forall key :: Ends(old(kvStore.data), ops, key, kvStore.data)
      ensures [] !in kvStore.data
    {
      hide Ends, Supported;
      AppliedExactly(kvStore.data, ops);
      forall key | Applied(kvStore.data, ops).Some?
        ensures Ends(kvStore.data, ops, key, Applied(kvStore.data, ops).value)
      {
        AppliedEnds(kvStore.data, ops, key);
      }
      assert ops[0..] == ops;
      for i := 0 to |ops|
        invariant Applied(kvStore.data, ops[i..]) == Applied(old(kvStore.data), ops)
        invariant [] !in kvStore.data
      {
        assert ops[i..][1..] == ops[i + 1..];
        var op := ops[i];
        match op.kind
        case PutOp =>
          if op.key == [] {
            return false;
          }
          ok := kvStore.Put(op.key, op.data);
        case DeleteOp =>
          if op.key == [] {
            return false;
          }
          ok := kvStore.Delete(op.key);
        case EventOp =>
        case OtherOp =>
          return false;
      }
      ok := true;
    }

    method ExecuteMigrationTransaction(run: Execution) returns (ok: bool)
      requires [] !in kvStore.data && Writable(run)
      modifies kvStore
      ensures [] !in kvStore.data
      ensures
        match run.result(old(kvStore.data))
        case RunFailed => !ok
        case RunSucceeded(ops) =>
          match Applied(run.writes(old(kvStore.data)), ops)
          case None => !ok
          case Some(after) => ok && kvStore.data == after
    {
      var result := run.result(kvStore.data);
      kvStore.data := run.writes(kvStore.data);
      match result
      case RunFailed => ok := false;
      case RunSucceeded(ops) => ok := ProcessStagedOperations(ops);
    }

    /** All or nothing: the store ends up either exactly as it was, or migrated and activated. */
    method ExecuteMigration(addr: seq<byte>, version: int, runtime: Runtime) returns (ok: bool)
      requires [] !in kvStore.data && forall wasm :: Writable(runtime(wasm))
      requires contractStore != null ==> contractStore.kv == kvStore
      modifies kvStore
      ensures ok <==>
        (contractStore != null
         && Migrated(contractStore.codec, contractStore.sha, old(kvStore.data), addr, version, runtime).Some?)
      ensures kvStore.data ==
        if ok then Migrated(contractStore.codec, contractStore.sha, old(kvStore.data), addr, version, runtime).value
        else old(kvStore.data)
    {
      hide Applied, AfterActivation, CanActivate, Loaded;
      if contractStore == null {
        return false;
      }
      var wasm := contractStore.GetVersionModule(addr, version);
      if wasm.None? {
        return false;
      }
      var snapshot := CreateStateSnapshot();
      ok := ExecuteMigrationTransaction(runtime(wasm.value));
      if !ok {
        var restored := RestoreStateSnapshot(snapshot);
        return false;
      }
      ok := contractStore.ActivateVersion(addr, version);
      if !ok {
        var restored := RestoreStateSnapshot(snapshot);
        return false;
      }
    }
  }

  /** A migration that succeeds leaves exactly one active version, the requested one; one that
      also leaves the contract's record alone keeps its versions numbered 1 to the latest. */
  lemma MigrationActivates(codec: Codec, sha: Hash, table: Table, addr: seq<byte>, version: int, runtime: Runtime)
    requires Lawful(codec) && Migrated(codec, sha, table, addr, version, runtime).Some?
    ensures var run := runtime(Loaded(codec, sha, table, addr, version).value);
            var after := Record(codec, Migrated(codec, sha, table, addr, version, runtime).value, addr);
            after.Some? && OneActive(after.value) && after.value.activeVersion == version
            && (KeepsRecord(table, addr, run) ==>
                  WellFormed(Record(codec, table, addr).value) ==> WellFormed(after.value))
  {
    var run := runtime(Loaded(codec, sha, table, addr, version).value);
    var ops := run.result(table).ops;
    var after := Applied(run.writes(table), ops).value;
    ActivationIsSound(codec, after, addr, version, addr);
    if KeepsRecord(table, addr, run) {
      AppliedEnds(run.writes(table), ops, VersionsKey(addr));
    }
  }

  /** Neither the running code nor a staged operation writes the contract's version record. */
  ghost predicate KeepsRecord(table: Table, addr: seq<byte>, run: Execution)
  {
    VersionsKey(addr) in table && VersionsKey(addr) in run.writes(table)
    && run.writes(table)[VersionsKey(addr)] == table[VersionsKey(addr)]
    && run.result(table).RunSucceeded?
    && forall k :: 0 <= k < |run.result(table).ops| ==>
         run.result(table).ops[k].key != VersionsKey(addr)
  }

  /** A migration goes through exactly when the version loads, the run succeeds, its operations are
      all supported, and the contract then has that version. What it leaves under any key other than
      the contract's record is what the run wrote there, or what the operations made of it. */
  lemma MigratedExactly(codec: Codec, sha: Hash, table: Table, addr: seq<byte>, version: int, runtime: Runtime)
    requires Lawful(codec)
    ensures var wasm, after := Loaded(codec, sha, table, addr, version), Migrated(codec, sha, table, addr, version, runtime);
            (after.Some? ==> wasm.Some? && runtime(wasm.value).result(table).RunSucceeded?) &&
            (wasm.Some? && runtime(wasm.value).result(table).RunSucceeded? ==>
               var writes, ops := runtime(wasm.value).writes(table), runtime(wasm.value).result(table).ops;
               (after.Some? <==>
                  (forall i :: 0 <= i < |ops| ==> Supported(ops[i]))
                  && Applied(writes, ops).Some? && CanActivate(codec, Applied(writes, ops).value, addr, version)) &&
               (after.Some? ==> forall key :: key != VersionsKey(addr) ==> Ends(writes, ops, key, after.value)))
  {
    hide Ends, Supported, Loaded, CanActivate;
    var wasm := Loaded(codec, sha, table, addr, version);
    if wasm.Some? && runtime(wasm.value).result(table).RunSucceeded? {
      var writes, ops := runtime(wasm.value).writes(table), runtime(wasm.value).result(table).ops;
      AppliedExactly(writes, ops);
      if Migrated(codec, sha, table, addr, version, runtime).Some? {
        var applied, after := Applied(writes, ops).value, Migrated(codec, sha, table, addr, version, runtime).value;
        forall key | key != VersionsKey(addr)
          ensures Ends(writes, ops, key, after)
        {
          AppliedEnds(writes, ops, key);
          SameEnd(writes, ops, key, applied, after);
        }
      }
    }
  }

  lemma SameEnd(table: Table, ops: seq<StagedOp>, key: Key, after: Table, other: Table)
    requires Ends(table, ops, key, after)
    requires (key in after <==> key in other) && (key in after ==> after[key] == other[key])
    ensures Ends(table, ops, key, other)
  {
  }
}
