/** Versioned contract records (engine/state/contracts/store.go) on the in-memory backend. The
    JSON of a record is an unknown codec, SHA-256 an unknown function. */
module Contracts {
  import opened Bytes
  import opened Common
  import opened KeyValue

  datatype VersionMeta = VersionMeta(version: int, wasmHash: seq<byte>, createdAt: int, active: bool)

  datatype ContractVersions = ContractVersions(
    address: seq<byte>, activeVersion: int, versions: seq<VersionMeta>, latestVersion: int)

  /** The metadata of an unversioned module. */
  datatype ContractMeta = ContractMeta(address: seq<byte>, wasmHash: seq<byte>, version: int, createdAt: int)

  type Hash = seq<byte> -> seq<byte>

  datatype Codec = Codec(
    enc: ContractVersions -> Value, dec: Value -> Option<ContractVersions>,
    encMeta: ContractMeta -> Value, decMeta: Value -> Option<ContractMeta>)

  ghost predicate Lawful(codec: Codec)
  {
    (forall v :: codec.dec(codec.enc(v)) == Some(v)) && forall m :: codec.decMeta(codec.encMeta(m)) == Some(m)
  }

  /** "contract:versions:", "contract:wasm:", "contract:meta:", ":v" and "acc://". */
  const VERSIONS: Key := [0x63, 0x6f, 0x6e, 0x74, 0x72, 0x61, 0x63, 0x74, 0x3a, 0x76, 0x65, 0x72, 0x73, 0x69,
        0x6f, 0x6e, 0x73, 0x3a]
  const WASM: Key := [0x63, 0x6f, 0x6e, 0x74, 0x72, 0x61, 0x63, 0x74, 0x3a, 0x77, 0x61, 0x73, 0x6d, 0x3a]
  const META: Key := [0x63, 0x6f, 0x6e, 0x74, 0x72, 0x61, 0x63, 0x74, 0x3a, 0x6d, 0x65, 0x74, 0x61, 0x3a]
  const VERSION_MARK: Key := [0x3a, 0x76]
  const SCHEME: Key := [0x61, 0x63, 0x63, 0x3a, 0x2f, 0x2f]
  const MAX_WASM := 2 * 1024 * 1024

  function Digits(n: nat): seq<byte>
  {
    if n < 10 then [0x30 + n] else Digits(n / 10) + [0x30 + n % 10]
  }

  function Decimal(n: int): seq<byte>
  {
    if n < 0 then [0x2d] + Digits(-n) else Digits(n)
  }

  function VersionsKey(addr: seq<byte>): Key
  {
    VERSIONS + addr
  }

  /** The two keys of an unversioned module. */
  function MetaKey(addr: seq<byte>): Key
  {
    META + addr
  }

  function ModuleKey(addr: seq<byte>): Key
  {
    WASM + addr
  }

  function WasmKey(addr: seq<byte>, version: int): Key
  {
    WASM + addr + VERSION_MARK + Decimal(version)
  }

  lemma KeysApart(addr: seq<byte>, other: seq<byte>, version: int)
    ensures VersionsKey(addr) != [] && WasmKey(other, version) != []
    ensures VersionsKey(addr) != WasmKey(other, version)
    ensures VersionsKey(addr) == VersionsKey(other) <==> addr == other
  {
    assert VersionsKey(addr)[9] == 0x76 && WasmKey(other, version)[9] == 0x77;
    assert VersionsKey(addr)[|VERSIONS|..] == addr && VersionsKey(other)[|VERSIONS|..] == other;
  }

  lemma {:induction false} DigitsOnly(n: nat)
    ensures Digits(n) != [] && forall k :: 0 <= k < |Digits(n)| ==> 0x30 <= Digits(n)[k] <= 0x39
  {
    if n >= 10 {
      DigitsOnly(n / 10);
    }
  }

  lemma {:induction false} DigitsInjective(m: nat, n: nat)
    requires Digits(m) == Digits(n)
    ensures m == n
  {
    if m >= 10 && n >= 10 {
      var a, b := Digits(m / 10), Digits(n / 10);
      assert Digits(m)[..|Digits(m)| - 1] == a && Digits(n)[..|Digits(n)| - 1] == b;
      assert Digits(m)[|Digits(m)| - 1] == 0x30 + m % 10 && Digits(n)[|Digits(n)| - 1] == 0x30 + n % 10;
      DigitsInjective(m / 10, n / 10);
    } else {
      DigitsOnly(m / 10);
      DigitsOnly(n / 10);
    }
  }

  /** The number a string of decimal digits stands for. */
  function Digited(d: seq<byte>): int
  {
    if d == [] then 0 else 10 * Digited(d[..|d| - 1]) + d[|d| - 1] - 0x30
  }

  /** In base ten, without leading zeros. */
  lemma {:induction false} DigitsValue(n: nat)
    ensures Digited(Digits(n)) == n && (n >= 10 ==> Digits(n)[0] != 0x30)
  {
    if n >= 10 {
      DigitsValue(n / 10);
      DigitsOnly(n / 10);
      assert Digits(n)[..|Digits(n)| - 1] == Digits(n / 10);
    } else {
      assert Digits(n)[..0] == [];
    }
  }

  lemma DecimalShape(n: int)
    ensures forall k :: 0 <= k < |Decimal(n)| ==> Decimal(n)[k] != 0x76
    ensures forall m: int :: Decimal(m) == Decimal(n) ==> m == n
  {
    hide Digits;
    DigitsOnly(if n < 0 then -n else n);
    forall m: int | Decimal(m) == Decimal(n)
      ensures m == n
    {
      DigitsOnly(if m < 0 then -m else m);
      assert m < 0 <==> Decimal(m)[0] == 0x2d;
      assert n < 0 <==> Decimal(n)[0] == 0x2d;
      assert m < 0 ==> Decimal(m)[1..] == Digits(-m) && Decimal(n)[1..] == Digits(-n);
      DigitsInjective(if m < 0 then -m else m, if n < 0 then -n else n);
    }
  }

  /** No two versions share a module key, whatever the addresses contain. */
  lemma WasmKeyInjective(addr: seq<byte>, version: int, other: seq<byte>, number: int)
    ensures WasmKey(addr, version) == WasmKey(other, number) <==> addr == other && version == number
  {
    hide Decimal;
    var a, b := WasmKey(addr, version), WasmKey(other, number);
    var m, n := |Decimal(version)|, |Decimal(number)|;
    DecimalShape(version);
    DecimalShape(number);
    if a == b {
      assert a[|a| - m - 1] == 0x76 && b[|b| - n - 1] == 0x76;
      assert forall k :: |a| - m <= k < |a| ==> a[k] == Decimal(version)[k - (|a| - m)];
      assert forall k :: |b| - n <= k < |b| ==> b[k] == Decimal(number)[k - (|b| - n)];
      assert m == n;
      assert a[|a| - m..] == Decimal(version) && b[|b| - n..] == Decimal(number);
      assert a[|WASM|..|a| - m - 2] == addr && b[|WASM|..|b| - n - 2] == other;
    }
  }

  // ---------- The record ----------

  /** Numbered 1 to LatestVersion, the active one flagged and no other. */
  predicate WellFormed(v: ContractVersions)
  {
    v.latestVersion == |v.versions| && 0 <= v.activeVersion <= v.latestVersion
    && forall k :: 0 <= k < |v.versions| ==>
         v.versions[k].version == k + 1 && (v.versions[k].active <==> v.activeVersion == k + 1)
  }

  /** Exactly one entry is flagged, and it is the active version. */
  predicate OneActive(v: ContractVersions)
  {
    exists k :: 0 <= k < |v.versions| && v.versions[k].active && v.versions[k].version == v.activeVersion
                && forall j :: 0 <= j < |v.versions| && v.versions[j].active ==> j == k
  }

  function Record(codec: Codec, table: Table, addr: seq<byte>): Option<ContractVersions>
  {
    if VersionsKey(addr) in table then codec.dec(table[VersionsKey(addr)]) else None
  }

  /** The first entry with that number. */
  function Find(versions: seq<VersionMeta>, version: int): (r: Option<nat>)
    ensures r.Some? ==> r.value < |versions| && versions[r.value].version == version
    ensures r.None? <==> forall k :: 0 <= k < |versions| ==> versions[k].version != version
    ensures r.Some? ==> forall k :: 0 <= k < r.value ==> versions[k].version != version
  {
    if versions == [] then None
    else if versions[0].version == version then Some(0)
    else match Find(versions[1..], version) case None => None case Some(k) => Some(k + 1)
  }

  function Deactivated(versions: seq<VersionMeta>): (r: seq<VersionMeta>)
    ensures |r| == |versions| && forall k :: 0 <= k < |r| ==> r[k] == versions[k].(active := false)
  {
    seq(|versions|, k requires 0 <= k < |versions| => versions[k].(active := false))
  }

  function Activated(v: ContractVersions, k: nat): ContractVersions
    requires k < |v.versions|
  {
    var off := Deactivated(v.versions);
    v.(versions := off[k := off[k].(active := true)], activeVersion := v.versions[k].version)
  }

  lemma ActivatedIsSound(v: ContractVersions, k: nat)
    requires k < |v.versions|
    ensures OneActive(Activated(v, k))
    ensures WellFormed(v) ==> WellFormed(Activated(v, k))
  {
    assert Activated(v, k).versions[k].active;
  }

  function Appended(v: ContractVersions, hash: seq<byte>, now: int): ContractVersions
  {
    var n := v.latestVersion + 1;
    v.(versions := v.versions + [VersionMeta(n, hash, now, false)], latestVersion := n)
  }

  lemma AppendedIsSound(v: ContractVersions, hash: seq<byte>, now: int)
    requires WellFormed(v)
    ensures WellFormed(Appended(v, hash, now))
  {
  }

  /** The bytes stored for a version: under its own key, with the recorded hash. */
  function Loaded(codec: Codec, sha: Hash, table: Table, addr: seq<byte>, version: int): Option<Value>
  {
    match Record(codec, table, addr)
    case None => None
    case Some(v) =>
      match Find(v.versions, version)
      case None => None
      case Some(k) =>
        var key := WasmKey(addr, version);
        if key in table && sha(table[key]) == v.versions[k].wasmHash then Some(table[key]) else None
  }

  function Saved(codec: Codec, sha: Hash, table: Table, v: ContractVersions, addr: seq<byte>, wasm: Value,
        now: int): Table
  {
    table[WasmKey(addr, v.latestVersion + 1) := wasm][VersionsKey(addr) := codec.enc(Appended(v, sha(wasm), now))]
  }

  /** The record, or the empty one of a contract not yet stored. */
  function Existing(codec: Codec, table: Table, addr: seq<byte>): Option<ContractVersions>
  {
    if VersionsKey(addr) in table then codec.dec(table[VersionsKey(addr)]) else Some(ContractVersions(addr, 0, [], 0))
  }

  lemma {:induction false} FindAppended(versions: seq<VersionMeta>, meta: VersionMeta, version: int)
    ensures var all := versions + [meta];
            Find(all, version) ==
            if Find(versions, version).Some? then Find(versions, version)
            else if meta.version == version then Some(|versions|) else None
  {
    if versions != [] {
      assert (versions + [meta])[1..] == versions[1..] + [meta];
      FindAppended(versions[1..], meta, version);
    }
  }

  /** A saved version loads as the bytes that were saved; no other version of this or any other
      contract loads differently. */
  lemma SavedLoads(codec: Codec, sha: Hash, table: Table, v: ContractVersions, addr: seq<byte>, wasm: Value, now: int,
      other: seq<byte>, version: int)
    requires Lawful(codec) && Existing(codec, table, addr) == Some(v) && WellFormed(v)
    ensures Loaded(codec, sha, Saved(codec, sha, table, v, addr, wasm, now), other, version) ==
            if other == addr && version == v.latestVersion + 1 then Some(wasm)
            else Loaded(codec, sha, table, other, version)
  {
    hide WasmKey, VersionsKey, Find;
    var n := v.latestVersion + 1;
    KeysApart(addr, other, version);
    KeysApart(addr, other, n);
    KeysApart(addr, addr, n);
    KeysApart(other, addr, n);
    KeysApart(other, other, version);
    WasmKeyInjective(addr, n, other, version);
    FindAppended(v.versions, VersionMeta(n, sha(wasm), now, false), version);
  }

  datatype SaveOutcome = BadAddress | BadSize | Unreadable | Duplicate(version: int) | SavedAs(version: int)

  class ContractStore {
    const kv: Store
    const codec: Codec
    const sha: Hash

    constructor (kv: Store, codec: Codec, sha: Hash)
      ensures this.kv == kv && this.codec == codec && this.sha == sha
    {
      this.kv := kv;
      this.codec := codec;
      this.sha := sha;
    }

    /** An unversioned module under its address; refused for a bad address or size. */
    method SaveModule(addr: seq<byte>, wasm: seq<byte>, now: int) returns (hash: Option<seq<byte>>)
      modifies kv
      ensures hash == if Deployable(addr, wasm) then Some(sha(wasm)) else None
      ensures kv.data == After(codec, sha, old(kv.data), Deploy(addr, wasm, now))
      ensures hash.Some? <==> SCHEME <= addr && 0 < |wasm| <= 2 * 1024 * 1024
      ensures kv.data ==
        if hash == None then old(kv.data)
        else old(kv.data)[MetaKey(addr) := codec.encMeta(ContractMeta(addr, sha(wasm), 1, now))][ModuleKey(addr) := wasm]
    {
      if !(SCHEME <= addr) {
        return None;
      }
      if |wasm| == 0 || |wasm| > MAX_WASM {
        return None;
      }
      var _ := kv.Put(MetaKey(addr), codec.encMeta(ContractMeta(addr, sha(wasm), 1, now)));
      var _ := kv.Put(ModuleKey(addr), wasm);
      hash := Some(sha(wasm));
    }

    /** The bytes deployed at the address, if their hash is the one in the metadata. */
    method GetModule(addr: seq<byte>) returns (wasm: Option<Value>)
      ensures wasm == Deployed(codec, sha, kv.data, addr)
    {
      if MetaKey(addr) !in kv.data {
        return None;
      }
      var meta := codec.decMeta(kv.data[MetaKey(addr)]);
      if meta.None? || ModuleKey(addr) !in kv.data {
        return None;
      }
      var bytes := kv.data[ModuleKey(addr)];
      if sha(bytes) != meta.value.wasmHash {
        return None;
      }
      wasm := Some(bytes);
    }

    method DeleteModule(addr: seq<byte>)
      modifies kv
      ensures kv.data == After(codec, sha, old(kv.data), Undeploy(addr))
      ensures kv.data == old(kv.data) - {MetaKey(addr), ModuleKey(addr)}
    {
      var _ := kv.Delete(MetaKey(addr));
      var _ := kv.Delete(ModuleKey(addr));
    }

    /** A new hash gets the next number, inactive; anything else changes nothing. */
    method SaveVersion(addr: seq<byte>, wasm: seq<byte>, now: int) returns (outcome: SaveOutcome)
      modifies kv
      ensures outcome == SaveResult(codec, sha, old(kv.data), addr, wasm)
      ensures kv.data == After(codec, sha, old(kv.data), Save(addr, wasm, now))
      ensures outcome == BadAddress <==> !(SCHEME <= addr)
      ensures outcome == BadSize <==> SCHEME <= addr && (|wasm| == 0 || |wasm| > 2 * 1024 * 1024)
      ensures !outcome.BadAddress? && !outcome.BadSize? && VersionsKey(addr) in old(kv.data) ==>
        var record := codec.dec(old(kv.data)[VersionsKey(addr)]);
        (outcome == Unreadable <==> record == None) &&
        (record.Some? ==>
           (outcome.Duplicate? <==> exists m :: m in record.value.versions && m.wasmHash == sha(wasm))
           && (outcome.SavedAs? ==>
                 outcome.version == record.value.latestVersion + 1
                 && VersionsKey(addr) in kv.data
                 && kv.data[VersionsKey(addr)] ==
                    codec.enc(record.value.(
                      versions := record.value.versions + [VersionMeta(outcome.version, sha(wasm), now, false)],
                      latestVersion := outcome.version))))
      ensures !outcome.BadAddress? && !outcome.BadSize? && VersionsKey(addr) !in old(kv.data) ==>
        outcome == SavedAs(1) && VersionsKey(addr) in kv.data
        && kv.data[VersionsKey(addr)] ==
           codec.enc(ContractVersions(addr, 0, [VersionMeta(1, sha(wasm), now, false)], 1))
      ensures kv.data ==
        if outcome.SavedAs?
        then old(kv.data)[WasmKey(addr, outcome.version) := wasm][VersionsKey(addr) := kv.data[VersionsKey(addr)]]
        else old(kv.data)
    {
      if !(SCHEME <= addr) {
        return BadAddress;
      }
      if |wasm| == 0 || |wasm| > MAX_WASM {
        return BadSize;
      }
      var hash := sha(wasm);
      var existing := Existing(codec, kv.data, addr);
      if existing.None? {
        return Unreadable;
      }
      var v := existing.value;
      for k := 0 to |v.versions|
        invariant forall j :: 0 <= j < k ==> v.versions[j].wasmHash != hash
      {
        if v.versions[k].wasmHash == hash {
          HashIndexIs(v.versions, hash, k);
          return Duplicate(v.versions[k].version);
        }
      }
      var n := v.latestVersion + 1;
      KeysApart(addr, addr, n);
      var _ := kv.Put(WasmKey(addr, n), wasm);
      var updated := v.(versions := v.versions + [VersionMeta(n, hash, now, false)], latestVersion := n);
      assert VersionsKey(addr) !in old(kv.data) ==> updated.versions == [VersionMeta(1, hash, now, false)];
      var _ := kv.Put(VersionsKey(addr), codec.enc(updated));
      outcome := SavedAs(n);
    }

    method GetVersionModule(addr: seq<byte>, version: int) returns (wasm: Option<Value>)
      ensures wasm == Loaded(codec, sha, kv.data, addr, version)
    {
      if VersionsKey(addr) !in kv.data {
        return None;
      }
      var decoded := codec.dec(kv.data[VersionsKey(addr)]);
      if decoded.None? {
        return None;
      }
      var versions := decoded.value.versions;
      var target := -1;
      for i := 0 to |versions|
        invariant target == -1 && forall k :: 0 <= k < i ==> versions[k].version != version
      {
        if versions[i].version == version {
          target := i;
          break;
        }
      }
      if target == -1 {
        return None;
      }
      var key := WasmKey(addr, version);
      if key !in kv.data || sha(kv.data[key]) != versions[target].wasmHash {
        return None;
      }
      wasm := Some(kv.data[key]);
    }

    /** Fails, changing nothing, exactly when the record is missing, unreadable or without that
        version; otherwise the stored record has exactly one active version, that one. */
    method ActivateVersion(addr: seq<byte>, version: int) returns (ok: bool)
      modifies kv
      ensures ok <==> CanActivate(codec, old(kv.data), addr, version)
      ensures ok <==>
        VersionsKey(addr) in old(kv.data) && codec.dec(old(kv.data)[VersionsKey(addr)]).Some? &&
        var versions := codec.dec(old(kv.data)[VersionsKey(addr)]).value.versions;
        exists k :: 0 <= k < |versions| && versions[k].version == version
      ensures !ok ==> kv.data == old(kv.data)
      ensures kv.data == After(codec, sha, old(kv.data), Activate(addr, version))
    {
      if VersionsKey(addr) !in kv.data {
        return false;
      }
      var decoded := codec.dec(kv.data[VersionsKey(addr)]);
      if decoded.None? {
        return false;
      }
      var v := decoded.value;
      var target := -1;
      for i := 0 to |v.versions|
        invariant target == -1 && forall k :: 0 <= k < i ==> v.versions[k].version != version
      {
        if v.versions[i].version == version {
          target := i;
          break;
        }
      }
      if target == -1 {
        return false;
      }
      var versions := v.versions;
      for i := 0 to |versions|
        invariant |versions| == |v.versions|
        invariant forall k :: 0 <= k < |versions| ==>
          versions[k] == if k < i then v.versions[k].(active := false) else v.versions[k]
      {
        versions := versions[i := versions[i].(active := false)];
      }
      assert versions == Deactivated(v.versions);
      versions := versions[target := versions[target].(active := true)];
      KeysApart(addr, addr, 0);
      var _ := kv.Put(VersionsKey(addr), codec.enc(v.(versions := versions, activeVersion := version)));
      ok := true;
    }

    method ActiveVersionMeta(addr: seq<byte>) returns (meta: Option<VersionMeta>)
      ensures
        meta ==
        match Record(codec, kv.data, addr)
        case None => None
        case Some(v) => if v.activeVersion == 0 then None else ActiveEntry(v)
      ensures meta.Some? ==>
        VersionsKey(addr) in kv.data && codec.dec(kv.data[VersionsKey(addr)]).Some? &&
        var v := codec.dec(kv.data[VersionsKey(addr)]).value;
        meta.value in v.versions && meta.value.version == v.activeVersion != 0 && meta.value.active
      ensures meta == None && VersionsKey(addr) in kv.data && codec.dec(kv.data[VersionsKey(addr)]).Some? ==>
        var v := codec.dec(kv.data[VersionsKey(addr)]).value;
        v.activeVersion == 0 || forall m :: m in v.versions ==> m.version != v.activeVersion || !m.active
    {
      if VersionsKey(addr) !in kv.data {
        return None;
      }
      var decoded := codec.dec(kv.data[VersionsKey(addr)]);
      if decoded.None? || decoded.value.activeVersion == 0 {
        return None;
      }
      var v := decoded.value;
      assert v.versions[0..] == v.versions;
      for i := 0 to |v.versions|
        invariant ActiveEntry(v) == ActiveEntry(v.(versions := v.versions[i..]))
        invariant forall j :: 0 <= j < i ==> v.versions[j].version != v.activeVersion || !v.versions[j].active
      {
        assert v.versions[i..][1..] == v.versions[i + 1..];
        if v.versions[i].version == v.activeVersion && v.versions[i].active {
          return Some(v.versions[i]);
        }
      }
      return None;
    }
  }

  function HashIndex(versions: seq<VersionMeta>, hash: seq<byte>): (r: Option<nat>)
    ensures r.Some? ==> r.value < |versions| && versions[r.value].wasmHash == hash
    ensures r.Some? ==> forall k :: 0 <= k < r.value ==> versions[k].wasmHash != hash
    ensures r.None? <==> forall k :: 0 <= k < |versions| ==> versions[k].wasmHash != hash
  {
    if versions == [] then None
    else if versions[0].wasmHash == hash then Some(0)
    else match HashIndex(versions[1..], hash) case None => None case Some(k) => Some(k + 1)
  }

  lemma HashIndexIs(versions: seq<VersionMeta>, hash: seq<byte>, k: nat)
    requires k < |versions| && versions[k].wasmHash == hash
    requires forall j :: 0 <= j < k ==> versions[j].wasmHash != hash
    ensures HashIndex(versions, hash) == Some(k)
  {
  }

  function ActiveEntry(v: ContractVersions): Option<VersionMeta>
    decreases |v.versions|
  {
    if v.versions == [] then None
    else if v.versions[0].version == v.activeVersion && v.versions[0].active then Some(v.versions[0])
    else ActiveEntry(v.(versions := v.versions[1..]))
  }

  predicate CanActivate(codec: Codec, table: Table, addr: seq<byte>, version: int)
  {
    match Record(codec, table, addr) case None => false case Some(v) => Find(v.versions, version).Some?
  }

  function AfterActivation(codec: Codec, table: Table, addr: seq<byte>, version: int): Table
    requires CanActivate(codec, table, addr, version)
  {
    var v := Record(codec, table, addr).value;
    table[VersionsKey(addr) := codec.enc(Activated(v, Find(v.versions, version).value))]
  }

  /** After an activation the stored record has exactly one active version, the requested one,
      which ActiveVersionMeta finds; numbering is kept, and no other contract is touched. */
  lemma ActivationIsSound(codec: Codec, table: Table, addr: seq<byte>, version: int, other: seq<byte>)
    requires Lawful(codec) && CanActivate(codec, table, addr, version)
    ensures var before := Record(codec, table, addr).value;
            var after := Record(codec, AfterActivation(codec, table, addr, version), addr);
            after.Some? && OneActive(after.value) && after.value.activeVersion == version
            && (WellFormed(before) ==> WellFormed(after.value))
            && ActiveEntry(after.value).Some? && ActiveEntry(after.value).value.version == version
    ensures other != addr ==>
              Record(codec, AfterActivation(codec, table, addr, version), other) == Record(codec, table, other)
  {
    var before := Record(codec, table, addr).value;
    var k := Find(before.versions, version).value;
    ActivatedIsSound(before, k);
    FlaggedIsFound(Activated(before, k), k);
    KeysApart(addr, other, 0);
  }

  lemma {:induction false} FlaggedIsFound(v: ContractVersions, k: nat)
    requires k < |v.versions| && v.versions[k].active && v.versions[k].version == v.activeVersion
    ensures ActiveEntry(v).Some? && ActiveEntry(v).value.version == v.activeVersion
    decreases k
  {
    if k > 0 {
      FlaggedIsFound(v.(versions := v.versions[1..]), k - 1);
    }
  }

  // ---------- Runs of the store ----------

  function SaveResult(codec: Codec, sha: Hash, table: Table, addr: seq<byte>, wasm: Value): SaveOutcome
  {
    if !(SCHEME <= addr) then BadAddress
    else if |wasm| == 0 || |wasm| > MAX_WASM then BadSize
    else match Existing(codec, table, addr)
      case None => Unreadable
      case Some(v) =>
        match HashIndex(v.versions, sha(wasm))
        case Some(k) => Duplicate(v.versions[k].version)
        case None => SavedAs(v.latestVersion + 1)
  }

  predicate Deployable(addr: seq<byte>, wasm: Value)
  {
    SCHEME <= addr && 0 < |wasm| <= MAX_WASM
  }

  /** Versions saved and activated, unversioned modules deployed and deleted. */
  datatype StoreOp =
    | Save(addr: seq<byte>, wasm: Value, now: int)
    | Activate(addr: seq<byte>, version: int)
    | Deploy(addr: seq<byte>, wasm: Value, now: int)
    | Undeploy(addr: seq<byte>)

  /** The table after one operation; a refused one changes nothing. */
  function After(codec: Codec, sha: Hash, table: Table, op: StoreOp): Table
  {
    match op
    case Save(addr, wasm, now) =>
      if SaveResult(codec, sha, table, addr, wasm).SavedAs?
      then Saved(codec, sha, table, Existing(codec, table, addr).value, addr, wasm, now) else table
    case Activate(addr, version) =>
      if CanActivate(codec, table, addr, version) then AfterActivation(codec, table, addr, version) else table
    case Deploy(addr, wasm, now) =>
      if Deployable(addr, wasm)
      then table[MetaKey(addr) := codec.encMeta(ContractMeta(addr, sha(wasm), 1, now))][ModuleKey(addr) := wasm]
      else table
    case Undeploy(addr) => table - {MetaKey(addr), ModuleKey(addr)}
  }

  function AfterRun(codec: Codec, sha: Hash, table: Table, ops: seq<StoreOp>): Table
    decreases |ops|
  {
    if ops == [] then table else AfterRun(codec, sha, After(codec, sha, table, ops[0]), ops[1..])
  }

  /** Every contract's record is well formed and each version it lists loads. */
  ghost predicate Coherent(codec: Codec, sha: Hash, table: Table)
  {
    forall addr :: VersionsKey(addr) in table ==> CoherentAt(codec, sha, table, addr)
  }

  ghost predicate CoherentAt(codec: Codec, sha: Hash, table: Table, addr: seq<byte>)
  {
    var record := Record(codec, table, addr);
    record.Some? && WellFormed(record.value)
    && forall n :: 1 <= n <= record.value.latestVersion ==> Loaded(codec, sha, table, addr, n).Some?
  }

  lemma SaveKeepsCoherent(codec: Codec, sha: Hash, table: Table, addr: seq<byte>, wasm: Value, now: int,
        other: seq<byte>)
    requires Lawful(codec) && Coherent(codec, sha, table) && SaveResult(codec, sha, table, addr, wasm).SavedAs?
    ensures var after := After(codec, sha, table, Save(addr, wasm, now));
            VersionsKey(other) in after ==> CoherentAt(codec, sha, after, other)
  {
    hide WasmKey, VersionsKey, Loaded, HashIndex;
    var v := Existing(codec, table, addr).value;
    var after := Saved(codec, sha, table, v, addr, wasm, now);
    assert CoherentAt(codec, sha, table, addr) || VersionsKey(addr) !in table;
    AppendedIsSound(v, sha(wasm), now);
    KeysApart(addr, other, v.latestVersion + 1);
    KeysApart(other, addr, v.latestVersion + 1);
    forall n: int
      ensures Loaded(codec, sha, after, other, n) ==
              if other == addr && n == v.latestVersion + 1 then Some(wasm) else Loaded(codec, sha, table, other, n)
    {
      SavedLoads(codec, sha, table, v, addr, wasm, now, other, n);
    }
    if VersionsKey(other) in after && other != addr {
      assert CoherentAt(codec, sha, table, other);
    }
  }

  /** Activation changes no version's number or hash. */
  lemma {:induction false} FindActivated(versions: seq<VersionMeta>, other: seq<VersionMeta>, version: int)
    requires |versions| == |other| && forall k :: 0 <= k < |versions| ==> versions[k].version == other[k].version
    ensures Find(versions, version) == Find(other, version)
  {
    if versions != [] {
      FindActivated(versions[1..], other[1..], version);
    }
  }

  lemma ActivateKeepsCoherent(codec: Codec, sha: Hash, table: Table, addr: seq<byte>, version: int, other: seq<byte>)
    requires Lawful(codec) && Coherent(codec, sha, table) && CanActivate(codec, table, addr, version)
    ensures var after := After(codec, sha, table, Activate(addr, version));
            VersionsKey(other) in after ==> CoherentAt(codec, sha, after, other)
  {
    hide WasmKey, VersionsKey;
    var after := AfterActivation(codec, table, addr, version);
    assert CoherentAt(codec, sha, table, addr);
    ActivationIsSound(codec, table, addr, version, other);
    KeysApart(addr, other, 0);
    var before := Record(codec, table, addr).value;
    if VersionsKey(other) in after {
      assert CoherentAt(codec, sha, table, other);
      forall n: int
        ensures Loaded(codec, sha, after, other, n) == Loaded(codec, sha, table, other, n)
      {
        KeysApart(addr, other, n);
        FindActivated(before.versions, Activated(before, Find(before.versions, version).value).versions, n);
      }
    }
  }

  /** The operation puts other bytes, or none, where a listed version's bytes are: the address of
      an unversioned module reads as another contract's address and version number. */
  ghost predicate Ruins(codec: Codec, sha: Hash, table: Table, op: StoreOp, other: seq<byte>, n: int)
  {
    var record := Record(codec, table, other);
    record.Some? && 1 <= n <= |record.value.versions|
    && match op
       case Deploy(addr, wasm, _) =>
         Deployable(addr, wasm) && addr == other + VERSION_MARK + Decimal(n)
         && sha(wasm) != record.value.versions[n - 1].wasmHash
       case Undeploy(addr) => addr == other + VERSION_MARK + Decimal(n)
       case _ => false
  }

  ghost predicate Clobbers(codec: Codec, sha: Hash, table: Table, op: StoreOp)
  {
    exists other, n :: Ruins(codec, sha, table, op, other, n)
  }

  lemma ModuleKeys(addr: seq<byte>, other: seq<byte>, n: int)
    ensures ModuleKey(addr) == WasmKey(other, n) <==> addr == other + VERSION_MARK + Decimal(n)
    ensures MetaKey(addr) != WasmKey(other, n) && MetaKey(addr) != VersionsKey(other)
    ensures ModuleKey(addr) != VersionsKey(other)
  {
    hide Decimal;
    assert ModuleKey(addr)[|WASM|..] == addr;
    assert WasmKey(other, n)[|WASM|..] == other + VERSION_MARK + Decimal(n);
    assert MetaKey(addr)[9] == 0x6d && WasmKey(other, n)[9] == 0x77 && VersionsKey(other)[9] == 0x76;
    assert ModuleKey(addr)[9] == 0x77;
    if addr == other + VERSION_MARK + Decimal(n) {
      assert ModuleKey(addr) == WasmKey(other, n);
    }
  }

  /** In a well-formed record version n is entry n - 1. */
  lemma FindListed(v: ContractVersions, n: int)
    requires WellFormed(v)
    ensures v.latestVersion == |v.versions|
    ensures Find(v.versions, n) == if 1 <= n <= v.latestVersion then Some(n - 1) else None
  {
    hide Find;
    var found := Find(v.versions, n);
    if 1 <= n <= v.latestVersion {
      assert v.versions[n - 1].version == n;
    }
  }

  lemma ModuleLoads(codec: Codec, sha: Hash, table: Table, op: StoreOp, other: seq<byte>, n: int)
    requires (op.Deploy? || op.Undeploy?) && CoherentAt(codec, sha, table, other)
    requires 1 <= n <= Record(codec, table, other).value.latestVersion
    ensures Record(codec, After(codec, sha, table, op), other) == Record(codec, table, other)
    ensures Loaded(codec, sha, After(codec, sha, table, op), other, n).Some? <==>
            !Ruins(codec, sha, table, op, other, n)
  {
    hide VersionsKey, WasmKey, MetaKey, ModuleKey, Decimal, Find, WellFormed, Deployable;
    FindListed(Record(codec, table, other).value, n);
    ModuleKeys(op.addr, other, n);
    assert Loaded(codec, sha, table, other, n).Some?;
  }

  lemma ModuleCoherent(codec: Codec, sha: Hash, table: Table, op: StoreOp, other: seq<byte>)
    requires (op.Deploy? || op.Undeploy?) && Coherent(codec, sha, table) && VersionsKey(other) in table
    ensures VersionsKey(other) in After(codec, sha, table, op)
    ensures CoherentAt(codec, sha, After(codec, sha, table, op), other) <==>
            forall n :: !Ruins(codec, sha, table, op, other, n)
  {
    hide VersionsKey, Loaded, WellFormed, Ruins, Decimal, WasmKey, ModuleKey, MetaKey;
    assert CoherentAt(codec, sha, table, other);
    var v := Record(codec, table, other).value;
    FindListed(v, 0);
    ModuleKeys(op.addr, other, 1);
    var after := After(codec, sha, table, op);
    forall n: int
      ensures 1 <= n <= v.latestVersion ==>
                (Loaded(codec, sha, after, other, n).Some? <==> !Ruins(codec, sha, table, op, other, n))
      ensures Ruins(codec, sha, table, op, other, n) ==> 1 <= n <= v.latestVersion
    {
      RuinsListed(codec, sha, table, op, other, n);
      if 1 <= n <= v.latestVersion {
        ModuleLoads(codec, sha, table, op, other, n);
      }
    }
  }

  lemma RuinsListed(codec: Codec, sha: Hash, table: Table, op: StoreOp, other: seq<byte>, n: int)
    ensures Ruins(codec, sha, table, op, other, n) ==>
              VersionsKey(other) in table && (op.Deploy? || op.Undeploy?)
              && 1 <= n <= |Record(codec, table, other).value.versions|
  {
    hide VersionsKey, Decimal;
  }

  /** One operation keeps the store coherent exactly when it puts nothing else where a listed
      version's bytes are; saving and activating versions never do. */
  lemma OpCoherent(codec: Codec, sha: Hash, table: Table, op: StoreOp)
    requires Lawful(codec) && Coherent(codec, sha, table)
    ensures Coherent(codec, sha, After(codec, sha, table, op)) <==> !Clobbers(codec, sha, table, op)
    ensures op.Save? || op.Activate? ==> !Clobbers(codec, sha, table, op)
  {
    hide VersionsKey, CoherentAt, Ruins, Decimal, SaveResult, CanActivate, Saved, AfterActivation, Deployable;
    var after := After(codec, sha, table, op);
    forall other, n: int
      ensures Ruins(codec, sha, table, op, other, n) ==> VersionsKey(other) in table && (op.Deploy? || op.Undeploy?)
    {
      RuinsListed(codec, sha, table, op, other, n);
    }
    if op.Deploy? || op.Undeploy? {
      forall other
        ensures VersionsKey(other) in after <==> VersionsKey(other) in table
        ensures VersionsKey(other) in table ==>
                  (CoherentAt(codec, sha, after, other) <==> forall n :: !Ruins(codec, sha, table, op, other, n))
      {
        ModuleKeys(op.addr, other, 1);
        if VersionsKey(other) in table {
          ModuleCoherent(codec, sha, table, op, other);
        }
      }
    } else {
      forall other | VersionsKey(other) in after
        ensures CoherentAt(codec, sha, after, other)
      {
        match op
        case Save(addr, wasm, now) =>
          if SaveResult(codec, sha, table, addr, wasm).SavedAs? {
            SaveKeepsCoherent(codec, sha, table, addr, wasm, now, other);
          }
        case Activate(addr, version) =>
          if CanActivate(codec, table, addr, version) {
            ActivateKeepsCoherent(codec, sha, table, addr, version, other);
          }
      }
    }
  }

  ghost predicate StaysCoherent(codec: Codec, sha: Hash, table: Table, ops: seq<StoreOp>)
    decreases |ops|
  {
    Coherent(codec, sha, table) && (ops == [] || StaysCoherent(codec, sha, After(codec, sha, table, ops[0]), ops[1..]))
  }

  ghost predicate NoneClobbers(codec: Codec, sha: Hash, table: Table, ops: seq<StoreOp>)
    decreases |ops|
  {
    ops == []
    || (!Clobbers(codec, sha, table, ops[0]) && NoneClobbers(codec, sha, After(codec, sha, table, ops[0]), ops[1..]))
  }

  /** Whatever is saved, activated, deployed and deleted, in any order, from the empty store on:
      versions stay numbered 1 to the latest, at most one active and it the active version, and
      every one of them keeps loading, exactly when no unversioned module is written or deleted
      under a listed version's key with other bytes. */
  lemma {:induction false} RunsStayCoherent(codec: Codec, sha: Hash, table: Table, ops: seq<StoreOp>)
    requires Lawful(codec) && Coherent(codec, sha, table)
    ensures StaysCoherent(codec, sha, table, ops) <==> NoneClobbers(codec, sha, table, ops)
    ensures StaysCoherent(codec, sha, table, ops) ==> Coherent(codec, sha, AfterRun(codec, sha, table, ops))
    ensures (forall op :: op in ops ==> op.Save? || op.Activate?) ==> StaysCoherent(codec, sha, table, ops)
    decreases |ops|
  {
    hide After, Coherent, Clobbers;
    if ops != [] {
      OpCoherent(codec, sha, table, ops[0]);
      if Coherent(codec, sha, After(codec, sha, table, ops[0])) {
        RunsStayCoherent(codec, sha, After(codec, sha, table, ops[0]), ops[1..]);
      }
    }
  }

  /** A deployment at the address that reads as version 1 of another contract stops that version
      from loading, unless it deploys the same hash. */
  lemma DeploymentClobbers(codec: Codec, sha: Hash, table: Table, other: seq<byte>, wasm: Value, now: int)
    requires CoherentAt(codec, sha, table, other) && Record(codec, table, other).value.latestVersion >= 1
    requires SCHEME <= other && 0 < |wasm| <= MAX_WASM
    requires sha(wasm) != Record(codec, table, other).value.versions[0].wasmHash
    ensures var op := Deploy(other + VERSION_MARK + Decimal(1), wasm, now);
            Loaded(codec, sha, After(codec, sha, table, op), other, 1) == None
  {
    hide VersionsKey, WasmKey, MetaKey, ModuleKey, Decimal, Loaded;
    var op := Deploy(other + VERSION_MARK + Decimal(1), wasm, now);
    assert SCHEME <= op.addr;
    assert Ruins(codec, sha, table, op, other, 1);
    ModuleLoads(codec, sha, table, op, other, 1);
  }

  // ---------- Unversioned modules ----------

  /** What GetModule finds: bytes whose hash is the one in the address's metadata. */
  function Deployed(codec: Codec, sha: Hash, table: Table, addr: seq<byte>): Option<Value>
  {
    if MetaKey(addr) !in table || ModuleKey(addr) !in table then None
    else match codec.decMeta(table[MetaKey(addr)])
      case None => None
      case Some(m) => if sha(table[ModuleKey(addr)]) == m.wasmHash then Some(table[ModuleKey(addr)]) else None
  }

  /** The operation saves a version whose key is the key of the module at this address. */
  predicate SavesOver(codec: Codec, sha: Hash, table: Table, op: StoreOp, other: seq<byte>)
  {
    op.Save?
    && match SaveResult(codec, sha, table, op.addr, op.wasm)
       case SavedAs(n) => other == op.addr + VERSION_MARK + Decimal(n)
       case _ => false
  }

  lemma MetaKeys(addr: seq<byte>, other: seq<byte>)
    ensures MetaKey(addr) == MetaKey(other) <==> addr == other
    ensures ModuleKey(addr) == ModuleKey(other) <==> addr == other
    ensures MetaKey(addr) != ModuleKey(other)
  {
    assert MetaKey(addr)[|META|..] == addr && MetaKey(other)[|META|..] == other;
    assert ModuleKey(addr)[|WASM|..] == addr && ModuleKey(other)[|WASM|..] == other;
    assert MetaKey(addr)[9] == 0x6d && ModuleKey(other)[9] == 0x77;
  }

  /** What GetModule finds at any address after any operation: what was deployed there, nothing
      after a deletion there, what it found before after anything else, unless a saved version's
      bytes have gone under the same key; those it returns only if the metadata has their hash. */
  lemma DeployedAfter(codec: Codec, sha: Hash, table: Table, op: StoreOp, other: seq<byte>)
    requires Lawful(codec)
    ensures Deployed(codec, sha, After(codec, sha, table, op), other) ==
            if op.Deploy? && op.addr == other && Deployable(op.addr, op.wasm) then Some(op.wasm)
            else if op.Undeploy? && op.addr == other then None
            else if SavesOver(codec, sha, table, op, other) then
              if MetaKey(other) in table && HashIs(codec, table[MetaKey(other)], sha(op.wasm)) then Some(op.wasm)
              else None
            else Deployed(codec, sha, table, other)
    ensures MetaKey(other) in After(codec, sha, table, op) <==>
            if op.addr == other && op.Undeploy? then false
            else MetaKey(other) in table || (op.addr == other && op.Deploy? && Deployable(op.addr, op.wasm))
    ensures SavesOver(codec, sha, table, op, other) ==> op.Save?
  {
    hide VersionsKey, WasmKey, MetaKey, ModuleKey, Decimal, CanActivate, Appended, Activated, Existing;
    MetaKeys(op.addr, other);
    MetaKeys(other, op.addr);
    if op.Save? && SaveResult(codec, sha, table, op.addr, op.wasm).SavedAs? {
      ModuleKeys(other, op.addr, SaveResult(codec, sha, table, op.addr, op.wasm).version);
    }
    ModuleKeys(other, op.addr, 0);
  }

  predicate HashIs(codec: Codec, meta: Value, hash: seq<byte>)
  {
    match codec.decMeta(meta) case None => false case Some(m) => m.wasmHash == hash
  }

  /** Every deployed module loads. */
  ghost predicate ModulesLoad(codec: Codec, sha: Hash, table: Table)
  {
    forall addr :: MetaKey(addr) in table ==> Deployed(codec, sha, table, addr).Some?
  }

  /** A version is saved, with another hash, under the key of a deployed module. */
  ghost predicate Overwrites(codec: Codec, sha: Hash, table: Table, op: StoreOp)
  {
    exists other :: SavesOver(codec, sha, table, op, other)
                    && MetaKey(other) in table && !HashIs(codec, table[MetaKey(other)], sha(op.wasm))
  }

  lemma OpKeepsModules(codec: Codec, sha: Hash, table: Table, op: StoreOp)
    requires Lawful(codec) && ModulesLoad(codec, sha, table)
    ensures ModulesLoad(codec, sha, After(codec, sha, table, op)) <==> !Overwrites(codec, sha, table, op)
  {
    hide After, MetaKey, Deployed, Deployable, SavesOver, HashIs;
    forall other
      ensures MetaKey(other) in After(codec, sha, table, op) ==>
                (Deployed(codec, sha, After(codec, sha, table, op), other).None? <==>
                   op.Save? && SavesOver(codec, sha, table, op, other) && MetaKey(other) in table
                   && !HashIs(codec, table[MetaKey(other)], sha(op.wasm)))
      ensures SavesOver(codec, sha, table, op, other) ==>
                op.Save? && (MetaKey(other) in After(codec, sha, table, op) <==> MetaKey(other) in table)
    {
      DeployedAfter(codec, sha, table, op, other);
    }
  }

  ghost predicate ModulesKeepLoading(codec: Codec, sha: Hash, table: Table, ops: seq<StoreOp>)
    decreases |ops|
  {
    ModulesLoad(codec, sha, table)
    && (ops == [] || ModulesKeepLoading(codec, sha, After(codec, sha, table, ops[0]), ops[1..]))
  }

  ghost predicate NoneOverwrites(codec: Codec, sha: Hash, table: Table, ops: seq<StoreOp>)
    decreases |ops|
  {
    ops == []
    || (!Overwrites(codec, sha, table, ops[0])
        && NoneOverwrites(codec, sha, After(codec, sha, table, ops[0]), ops[1..]))
  }

  /** Over every run, every module deployed and not deleted keeps loading exactly when no version
      is saved, with another hash, under its key. */
  lemma {:induction false} RunsKeepModules(codec: Codec, sha: Hash, table: Table, ops: seq<StoreOp>)
    requires Lawful(codec) && ModulesLoad(codec, sha, table)
    ensures ModulesKeepLoading(codec, sha, table, ops) <==> NoneOverwrites(codec, sha, table, ops)
    decreases |ops|
  {
    hide After, ModulesLoad, Overwrites;
    if ops != [] {
      OpKeepsModules(codec, sha, table, ops[0]);
      if ModulesLoad(codec, sha, After(codec, sha, table, ops[0])) {
        RunsKeepModules(codec, sha, After(codec, sha, table, ops[0]), ops[1..]);
      }
    }
  }

  /** The first version of a contract stops a module from loading that is deployed at the contract's
      address followed by ":v1", unless they have the same hash. */
  lemma VersionOverwrites(codec: Codec, sha: Hash, addr: seq<byte>, wasm: Value, other: Value, now: int)
    requires Lawful(codec) && Deployable(addr, wasm) && Deployable(addr, other) && sha(wasm) != sha(other)
    ensures var at := addr + VERSION_MARK + Decimal(1);
            var deployed := After(codec, sha, map[], Deploy(at, other, now));
            Deployed(codec, sha, deployed, at) == Some(other)
            && Deployed(codec, sha, After(codec, sha, deployed, Save(addr, wasm, now)), at) == None
  {
    hide VersionsKey, WasmKey, MetaKey, ModuleKey, Decimal;
    var at := addr + VERSION_MARK + Decimal(1);
    assert SCHEME <= at;
    var deploy, save := Deploy(at, other, now), Save(addr, wasm, now);
    var deployed := After(codec, sha, map[], deploy);
    ModuleKeys(at, addr, 1);
    MetaKeys(at, at);
    DeployedAfter(codec, sha, map[], deploy, at);
    assert SaveResult(codec, sha, deployed, addr, wasm) == SavedAs(1);
    DeployedAfter(codec, sha, deployed, save, at);
  }
}
