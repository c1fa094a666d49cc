/** Snapshots of the store (engine/state/snapshot.go): a length-prefixed metadata header, then
    length-prefixed keys and values, little-endian; and the application hash (GenerateAppHash in
    sequencer/loop.go). The JSON of the header is an unknown codec. */
module Snapshot {
  import opened Bytes
  import opened Common
  import opened KeyValue

  datatype Meta = Meta(height: nat, time: int, appHash: seq<byte>, numKeys: nat)

  type Encoder = Meta -> seq<byte>
  type Decoder = seq<byte> -> Option<Meta>

  // ---------- The file format ----------

  /** The low 32 bits, least significant byte first. */
  function Le32(n: nat): (d: seq<byte>)
    ensures |d| == 4
  {
    var n1 := n / 256;
    var n2 := n1 / 256;
    var n3 := n2 / 256;
    [n % 256, n1 % 256, n2 % 256, n3 % 256]
  }

  function FromLe32(d: seq<byte>): nat
    requires |d| == 4
  {
    var b0: nat, b1: nat, b2: nat, b3: nat := d[0], d[1], d[2], d[3];
    b0 + 0x100 * b1 + 0x10000 * b2 + 0x1000000 * b3
  }

  function Block(s: seq<byte>): seq<byte>
  {
    Le32(|s|) + s
  }

  /** A length and that many bytes, or an error where the input ends too soon. */
  function ReadBlock(d: seq<byte>): Option<(seq<byte>, seq<byte>)>
  {
    if |d| < 4 then None else
      var n := FromLe32(d[..4]);
      if n > |d| - 4 then None else Some((d[4..4 + n], d[4 + n..]))
  }

  function Entries(table: Table, order: seq<Key>): seq<byte>
    requires forall k :: k in order ==> k in table
  {
    if order == [] then [] else Block(order[0]) + Block(table[order[0]]) + Entries(table, order[1..])
  }

  function File(table: Table, order: seq<Key>, meta: Meta, enc: Encoder): seq<byte>
    requires forall k :: k in order ==> k in table
  {
    Block(enc(meta.(numKeys := |table|))) + Entries(table, order)
  }

  /** The bytes stand at that place. */
  predicate Stands(file: seq<byte>, part: seq<byte>, at: nat)
  {
    at + |part| <= |file| && file[at..at + |part|] == part
  }

  /** Four bytes from there on, least significant first, are the number. */
  predicate LengthAt(file: seq<byte>, at: nat, n: nat)
  {
    at + 4 <= |file| &&
    var b0: nat, b1: nat, b2: nat, b3: nat := file[at], file[at + 1], file[at + 2], file[at + 3];
    n == b0 + 0x100 * b1 + 0x1_0000 * b2 + 0x100_0000 * b3
  }

  /** Where the entry after these begins: each takes its key, its value and two lengths. */
  function EntriesEnd(table: Table, order: seq<Key>, from: nat): nat
    requires forall k :: k in order ==> k in table
  {
    if order == [] then from else EntriesEnd(table, order[1..], from + 8 + |order[0]| + |table[order[0]]|)
  }

  predicate EntryAt(file: seq<byte>, key: Key, value: Value, at: nat)
  {
    LengthAt(file, at, |key|) && Stands(file, key, at + 4)
    && LengthAt(file, at + 4 + |key|, |value|) && Stands(file, value, at + 8 + |key|)
  }

  lemma BlockLayout(before: seq<byte>, s: seq<byte>, after: seq<byte>)
    requires |s| < U32
    ensures var file := before + Block(s) + after;
            LengthAt(file, |before|, |s|) && Stands(file, s, |before| + 4) && |Block(s)| == 4 + |s|
  {
    var file := before + Block(s) + after;
    var prefix := file[|before|..|before| + 4];
    assert prefix == Le32(|s|);
    assert file[|before| + 1] == prefix[1] && file[|before| + 2] == prefix[2] && file[|before| + 3] == prefix[3];
  }

  lemma EntryLayout(before: seq<byte>, key: Key, value: Value, rest: seq<byte>)
    requires |key| < U32 && |value| < U32
    ensures EntryAt(before + Block(key) + Block(value) + rest, key, value, |before|)
    ensures |before + Block(key) + Block(value)| == |before| + 8 + |key| + |value|
  {
    hide Block, LengthAt, Stands;
    BlockLayout(before, key, Block(value) + rest);
    BlockLayout(before + Block(key), value, rest);
    assert before + Block(key) + (Block(value) + rest) == before + Block(key) + Block(value) + rest;
  }

  lemma {:induction false} EntriesLayout(table: Table, order: seq<Key>, before: seq<byte>, i: nat)
    requires Storable(table) && i < |order| && forall k :: k in order ==> k in table
    ensures EntryAt(before + Entries(table, order), order[i], table[order[i]],
                    EntriesEnd(table, order[..i], |before|))
    decreases i
  {
    hide Block, EntryAt, Entries, EntriesEnd;
    EntriesUnfold(table, order);
    EndUnfold(table, order[..i], |before|);
    var key, value, rest := order[0], table[order[0]], Entries(table, order[1..]);
    var before' := before + Block(key) + Block(value);
    EntryLayout(before, key, value, rest);
    assert before + Entries(table, order) == before' + rest;
    if i > 0 {
      EntriesLayout(table, order[1..], before', i - 1);
      assert order[..i][1..] == order[1..][..i - 1];
    }
  }

  lemma EndUnfold(table: Table, order: seq<Key>, from: nat)
    requires forall k :: k in order ==> k in table
    ensures EntriesEnd(table, order, from) ==
            if order == [] then from else EntriesEnd(table, order[1..], from + 8 + |order[0]| + |table[order[0]]|)
  {
  }

  lemma {:induction false} EntriesLength(table: Table, order: seq<Key>, from: nat)
    requires Storable(table) && forall k :: k in order ==> k in table
    ensures EntriesEnd(table, order, from) == from + |Entries(table, order)|
  {
    hide Block, Le32, Entries, EntriesEnd;
    EntriesUnfold(table, order);
    EndUnfold(table, order, from);
    if order != [] {
      BlockLayout([], order[0], []);
      BlockLayout([], table[order[0]], []);
      EntriesLength(table, order[1..], from + 8 + |order[0]| + |table[order[0]]|);
    }
  }

  /** The file byte for byte: the header's length and the header, then every entry where the one
      before it ends, and nothing after the last. */
  lemma SnapshotLayout(table: Table, order: seq<Key>, meta: Meta, enc: Encoder)
    requires Storable(table) && forall k :: k in order ==> k in table
    requires |enc(meta.(numKeys := |table|))| < U32
    ensures var file, header := File(table, order, meta, enc), enc(meta.(numKeys := |table|));
            LengthAt(file, 0, |header|) && Stands(file, header, 4)
            && (forall i :: 0 <= i < |order| ==>
                  EntryAt(file, order[i], table[order[i]], EntriesEnd(table, order[..i], 4 + |header|)))
            && |file| == EntriesEnd(table, order, 4 + |header|)
  {
    hide Block, LengthAt, Stands, Entries, EntriesEnd, EntryAt;
    var header := enc(meta.(numKeys := |table|));
    BlockLayout([], header, Entries(table, order));
    assert [] + Block(header) + Entries(table, order) == File(table, order, meta, enc);
    forall i | 0 <= i < |order|
      ensures EntryAt(File(table, order, meta, enc), order[i], table[order[i]],
                      EntriesEnd(table, order[..i], 4 + |header|))
    {
      EntriesLayout(table, order, Block(header), i);
    }
    EntriesLength(table, order, 4 + |header|);
  }

  method WriteSnapshot(kv: Store, meta: Meta, enc: Encoder) returns (file: seq<byte>)
    ensures exists order :: Enumerates(order, kv.data) && file == File(kv.data, order, meta, enc)
  {
    var counted := kv.Keys();
    SameLength(counted, kv.data);
    var keyCount := 0;
    for i := 0 to |counted|
      invariant keyCount == i
    {
      keyCount := keyCount + 1;
    }
    var metaBytes := enc(meta.(numKeys := keyCount));
    file := Le32(|metaBytes|) + metaBytes;
    var keys := kv.Keys();
    var entries := WriteEntries(kv, keys);
    file := file + entries;
    assert file == File(kv.data, keys, meta, enc);
  }

  method WriteEntries(kv: Store, keys: seq<Key>) returns (written: seq<byte>)
    requires forall k :: k in keys ==> k in kv.data
    ensures written == Entries(kv.data, keys)
  {
    hide Entries, Le32;
    written := [];
    assert keys[0..] == keys;
    EntriesUnfold(kv.data, []);
    for i := 0 to |keys|
      invariant written + Entries(kv.data, keys[i..]) == Entries(kv.data, keys)
    {
      EntriesUnfold(kv.data, keys[i..]);
      var key, value := keys[i], kv.data[keys[i]];
      ghost var before := written;
      written := written + Le32(|key|);
      written := written + key;
      written := written + Le32(|value|);
      written := written + value;
      assert written == before + (Block(key) + Block(value));
      assert keys[i..][1..] == keys[i + 1..];
    }
  }

  datatype Step = End | Failed | Item(key: Key, value: Value)

  /** The next entry of a snapshot with keyNum already read. */
  function NextEntry(d: seq<byte>): Option<(Key, Value, seq<byte>)>
  {
    match ReadBlock(d)
    case None => None
    case Some((key, rest)) =>
      match ReadBlock(rest)
      case None => None
      case Some((value, rest')) => Some((key, value, rest'))
  }

  class SnapshotIterator {
    var reader: seq<byte>
    const meta: Meta
    var keyNum: nat
    var closed: bool

    constructor (reader: seq<byte>, meta: Meta)
      ensures this.reader == reader && this.meta == meta && keyNum == 0 && !closed
    {
      this.reader := reader;
      this.meta := meta;
      keyNum := 0;
      closed := false;
    }

    method Next() returns (step: Step)
      modifies this
      ensures step == End <==> old(closed || keyNum >= meta.numKeys)
      ensures step == Failed <==> !old(closed || keyNum >= meta.numKeys) && NextEntry(old(reader)) == None
      ensures step.Item? ==> NextEntry(old(reader)) == Some((step.key, step.value, reader)) && keyNum == old(keyNum) + 1
      ensures closed == old(closed) && (!step.Item? ==> keyNum == old(keyNum))
    {
      if closed || keyNum >= meta.numKeys {
        return End;
      }
      if |reader| < 4 {
        return Failed;
      }
      var keyLen := FromLe32(reader[..4]);
      if keyLen > |reader| - 4 {
        return Failed;
      }
      var key := reader[4..4 + keyLen];
      var rest := reader[4 + keyLen..];
      if |rest| < 4 {
        return Failed;
      }
      var valueLen := FromLe32(rest[..4]);
      if valueLen > |rest| - 4 {
        return Failed;
      }
      var value := rest[4..4 + valueLen];
      reader := rest[4 + valueLen..];
      keyNum := keyNum + 1;
      step := Item(key, value);
    }

    method Close()
      modifies this
      ensures closed
    {
      closed := true;
    }
  }

  function Header(file: seq<byte>, dec: Decoder): Option<(Meta, seq<byte>)>
  {
    match ReadBlock(file)
    case None => None
    case Some((metaBytes, rest)) =>
      match dec(metaBytes) case None => None case Some(meta) => Some((meta, rest))
  }

  method ReadSnapshot(file: seq<byte>, dec: Decoder) returns (it: SnapshotIterator?)
    ensures it == null <==> Header(file, dec) == None
    ensures it != null ==>
      fresh(it) && Header(file, dec) == Some((it.meta, it.reader)) && it.keyNum == 0 && !it.closed
  {
    if |file| < 4 {
      return null;
    }
    var metaLen := FromLe32(file[..4]);
    if metaLen > |file| - 4 {
      return null;
    }
    var meta := dec(file[4..4 + metaLen]);
    if meta.None? {
      return null;
    }
    it := new SnapshotIterator(file[4 + metaLen..], meta.value);
  }

  // ---------- Restoring ----------

  /** Putting n entries into a table; None on a truncated entry or an empty key. */
  function PutEntries(d: seq<byte>, n: nat, table: Table): Option<Table>
  {
    if n == 0 then Some(table)
    else match NextEntry(d)
      case None => None
      case Some((key, value, rest)) =>
        if key == [] then None else PutEntries(rest, n - 1, table[key := value])
  }

  /** What a restore leaves in the store when it succeeds. */
  function Restored(file: seq<byte>, dec: Decoder): Option<Table>
  {
    match Header(file, dec) case None => None case Some((meta, rest)) => PutEntries(rest, meta.numKeys, map[])
  }

  /** What n entries put into a table, up to the first truncated one or empty key. */
  function PutSome(d: seq<byte>, n: nat, table: Table): Table
  {
    if n == 0 then table
    else match NextEntry(d)
      case None => table
      case Some((key, value, rest)) => if key == [] then table else PutSome(rest, n - 1, table[key := value])
  }

  lemma PutSomeUnfold(d: seq<byte>, n: nat, table: Table)
    ensures PutSome(d, 0, table) == table
    ensures n > 0 ==>
              PutSome(d, n, table) ==
              match NextEntry(d)
              case None => table
              case Some((key, value, rest)) => if key == [] then table else PutSome(rest, n - 1, table[key := value])
  {
  }

  lemma PutUnfold(d: seq<byte>, n: nat, table: Table)
    ensures PutEntries(d, 0, table) == Some(table)
    ensures n > 0 ==>
              PutEntries(d, n, table) ==
              match NextEntry(d)
              case None => None
              case Some((key, value, rest)) =>
                if key == [] then None else PutEntries(rest, n - 1, table[key := value])
  {
  }

  method RestoreFromSnapshot(file: seq<byte>, kv: Store, dec: Decoder) returns (ok: bool)
    requires [] !in kv.data
    modifies kv
    ensures ok <==> Restored(file, dec).Some?
    ensures ok ==> kv.data == Restored(file, dec).value
    ensures kv.data ==
            match Header(file, dec)
            case None => old(kv.data)
            case Some((meta, rest)) => PutSome(rest, meta.numKeys, map[])
  {
    hide Header, NextEntry, PutEntries, PutSome;
    var it := ReadSnapshot(file, dec);
    if it == null {
      return false;
    }
    ok := kv.Clear();
    ghost var start := it.reader;
    var restoredCount := 0;
    while true
      invariant !it.closed && it.keyNum == restoredCount <= it.meta.numKeys
      invariant Restored(file, dec) == PutEntries(it.reader, it.meta.numKeys - it.keyNum, kv.data)
      invariant PutSome(it.reader, it.meta.numKeys - it.keyNum, kv.data) == PutSome(start, it.meta.numKeys, map[])
      decreases it.meta.numKeys - it.keyNum
    {
      PutUnfold(it.reader, it.meta.numKeys - it.keyNum, kv.data);
      PutSomeUnfold(it.reader, it.meta.numKeys - it.keyNum, kv.data);
      var step := it.Next();
      match step
      case End => break;
      case Failed => return false;
      case Item(key, value) =>
        ok := kv.Put(key, value);
        if !ok {
          return;
        }
        restoredCount := restoredCount + 1;
    }
    ok := restoredCount == it.meta.numKeys;
  }

  // ---------- Round trip ----------

  lemma Le32Back(n: nat)
    requires n < U32
    ensures FromLe32(Le32(n)) == n
  {
  }

  lemma BlockBack(s: seq<byte>, rest: seq<byte>)
    requires |s| < U32
    ensures ReadBlock(Block(s) + rest) == Some((s, rest))
  {
    hide Le32, FromLe32;
    var d := Block(s) + rest;
    Le32Back(|s|);
    assert d[..4] == Le32(|s|) && d[4..4 + |s|] == s && d[4 + |s|..] == rest;
  }

  ghost predicate Storable(table: Table)
  {
    forall k :: k in table ==> k != [] && |k| < U32 && |table[k]| < U32
  }

  function Fill(table: Table, order: seq<Key>, start: Table): Table
    requires forall k :: k in order ==> k in table
    decreases |order|
  {
    if order == [] then start else Fill(table, order[1..], start[order[0] := table[order[0]]])
  }

  lemma EntryBack(key: Key, value: Value, rest: seq<byte>)
    requires |key| < U32 && |value| < U32
    ensures NextEntry(Block(key) + Block(value) + rest) == Some((key, value, rest))
  {
    hide ReadBlock, Block;
    assert Block(key) + Block(value) + rest == Block(key) + (Block(value) + rest);
    BlockBack(key, Block(value) + rest);
    BlockBack(value, rest);
  }

  lemma {:induction false} EntriesBack(table: Table, order: seq<Key>, start: Table, tail: seq<byte>)
    requires Storable(table) && forall k :: k in order ==> k in table
    ensures PutEntries(Entries(table, order) + tail, |order|, start) == Some(Fill(table, order, start))
    decreases |order|
  {
    hide NextEntry, Block, Entries, PutEntries;
    EntriesUnfold(table, order);
    PutUnfold(Entries(table, order) + tail, |order|, start);
    if order != [] {
      var key, rest := order[0], Entries(table, order[1..]) + tail;
      assert Entries(table, order) + tail == Block(key) + Block(table[key]) + rest;
      EntryBack(key, table[key], rest);
      EntriesBack(table, order[1..], start[key := table[key]], tail);
    }
  }

  lemma {:induction false} FillAll(table: Table, order: seq<Key>, start: Table)
    requires forall k :: k in order ==> k in table
    ensures forall k :: k in Fill(table, order, start) <==> k in start || k in order
    ensures forall k :: k in order ==> Fill(table, order, start)[k] == table[k]
    ensures forall k :: k in start && k !in order ==> Fill(table, order, start)[k] == start[k]
    decreases |order|
  {
    if order != [] {
      var start' := start[order[0] := table[order[0]]];
      FillAll(table, order[1..], start');
      assert order == [order[0]] + order[1..];
    }
  }

  /** Whatever the order of iteration, the header, the content of the store restored into and what
      follows in the file: the snapshot of a table gives back that table. */
  lemma {:induction false} RoundTrip(table: Table, order: seq<Key>, meta: Meta, enc: Encoder, dec: Decoder,
        tail: seq<byte>)
    requires Storable(table) && Enumerates(order, table)
    requires var m := meta.(numKeys := |table|); |enc(m)| < U32 && dec(enc(m)) == Some(m)
    ensures Restored(File(table, order, meta, enc) + tail, dec) == Some(table)
  {
    hide ReadBlock, Block;
    var m := meta.(numKeys := |table|);
    assert File(table, order, meta, enc) + tail == Block(enc(m)) + (Entries(table, order) + tail);
    BlockBack(enc(m), Entries(table, order) + tail);
    SameLength(order, table);
    EntriesBack(table, order, map[], tail);
    FillAll(table, order, map[]);
    assert Fill(table, order, map[]) == table;
  }

  /** A file cut short after its header is refused: an entry is missing or incomplete. What the
      restore has put by then are the entries before that one. */
  lemma {:induction false} TruncatedRefused(table: Table, order: seq<Key>, start: Table, cut: nat) returns (whole: nat)
    requires Storable(table) && (forall k :: k in order ==> k in table)
    requires cut < |Entries(table, order)|
    ensures PutEntries(Entries(table, order)[..cut], |order|, start) == None
    ensures whole < |order| && |Entries(table, order[..whole])| <= cut < |Entries(table, order[..whole + 1])|
    ensures PutSome(Entries(table, order)[..cut], |order|, start) == Fill(table, order[..whole], start)
    decreases |order|
  {
    hide NextEntry, Block, Entries, PutEntries, PutSome, Fill;
    EntriesUnfold(table, order);
    PutUnfold(Entries(table, order)[..cut], |order|, start);
    PutSomeUnfold(Entries(table, order)[..cut], |order|, start);
    var key := order[0];
    var entry, rest := Block(key) + Block(table[key]), Entries(table, order[1..]);
    var all := entry + rest;
    if cut < |entry| {
      assert all[..cut] == entry[..cut];
      CutEntry(key, table[key], cut);
      whole := 0;
      FillUnfold(table, order[..0], start);
      EntriesUnfold(table, order[..0]);
      EntriesUnfold(table, order[..1]);
      EntriesUnfold(table, order[..1][1..]);
    } else {
      assert all[..cut] == entry + rest[..cut - |entry|];
      EntryBack(key, table[key], rest[..cut - |entry|]);
      whole := TruncatedRefused(table, order[1..], start[key := table[key]], cut - |entry|);
      assert order[..whole + 1][1..] == order[1..][..whole] && order[..whole + 2][1..] == order[1..][..whole + 1];
      EntriesUnfold(table, order[..whole + 1]);
      EntriesUnfold(table, order[..whole + 2]);
      FillUnfold(table, order[..whole + 1], start);
      whole := whole + 1;
    }
  }

  lemma FillUnfold(table: Table, order: seq<Key>, start: Table)
    requires forall k :: k in order ==> k in table
    ensures Fill(table, order, start) ==
            if order == [] then start else Fill(table, order[1..], start[order[0] := table[order[0]]])
  {
  }

  /** An entry with an empty key ends the restore with an error, and is not put. */
  lemma EmptyKeyRefused(value: Value, rest: seq<byte>, n: nat, start: Table)
    requires |value| < U32 && n > 0
    ensures PutEntries(Block([]) + Block(value) + rest, n, start) == None
    ensures PutSome(Block([]) + Block(value) + rest, n, start) == start
  {
    hide NextEntry, Block;
    EntryBack([], value, rest);
  }

  lemma EntriesUnfold(table: Table, order: seq<Key>)
    requires forall k :: k in order ==> k in table
    ensures order == [] ==> Entries(table, order) == []
    ensures order != [] ==>
              Entries(table, order) == Block(order[0]) + Block(table[order[0]]) + Entries(table, order[1..])
  {
  }

  lemma CutEntry(key: Key, value: Value, cut: nat)
    requires |key| < U32 && |value| < U32 && cut < |Block(key) + Block(value)|
    ensures NextEntry((Block(key) + Block(value))[..cut]) == None
  {
    hide ReadBlock, Block;
    if cut < |Block(key)| {
      assert (Block(key) + Block(value))[..cut] == Block(key)[..cut];
      CutBlock(key, cut);
    } else {
      var left := Block(value)[..cut - |Block(key)|];
      assert (Block(key) + Block(value))[..cut] == Block(key) + left;
      BlockBack(key, left);
      CutBlock(value, |left|);
    }
  }

  lemma CutBlock(s: seq<byte>, cut: nat)
    requires |s| < U32 && cut < |Block(s)|
    ensures ReadBlock(Block(s)[..cut]) == None
  {
    hide Le32, FromLe32;
    Le32Back(|s|);
    if cut >= 4 {
      assert Block(s)[..cut][..4] == Le32(|s|);
    }
  }

  // ---------- The application hash ----------

  function Concatenated(table: Table, order: seq<Key>): seq<byte>
    requires forall k :: k in order ==> k in table
  {
    if order == [] then [] else order[0] + table[order[0]] + Concatenated(table, order[1..])
  }

  ghost predicate IsAppHash(sha: seq<byte> -> seq<byte>, table: Table, h: seq<byte>)
  {
    exists order :: Enumerates(order, table) && Sorted(order) && h == sha(Concatenated(table, order))
  }

  /** The hasher's input: keys and values run together. */
  method FeedHasher(table: Table, order: seq<Key>) returns (fed: seq<byte>)
    requires forall k :: k in order ==> k in table
    ensures fed == Concatenated(table, order)
  {
    fed := [];
    assert order[0..] == order;
    for i := 0 to |order|
      invariant fed + Concatenated(table, order[i..]) == Concatenated(table, order)
    {
      ghost var before := fed;
      assert order[i..][1..] == order[i + 1..];
      fed := fed + order[i];
      fed := fed + table[order[i]];
      assert before + (order[i] + table[order[i]]) == fed;
    }
  }

  /** The bytes of all keys and values of a table. */
  ghost function Weight(table: Table): nat
  {
    if table == map[] then 0 else
      var k :| k in table;
      |k| + |table[k]| + Weight(table - {k})
  }

  /** The entries whose keys come before k. */
  function Below(table: Table, k: Key): Table
  {
    map j | j in table && Less(j, k) :: table[j]
  }

  /** Every key with its value, right after those of all smaller keys, and nothing else. */
  ghost predicate Feeds(table: Table, fed: seq<byte>)
  {
    |fed| == Weight(table) && forall k :: k in table ==> Stands(fed, k + table[k], Weight(Below(table, k)))
  }

  lemma {:induction false} WeightWithout(table: Table, k: Key)
    requires k in table
    ensures Weight(table) == |k| + |table[k]| + Weight(table - {k})
    decreases |table|
  {
    var j :| j in table && Weight(table) == |j| + |table[j]| + Weight(table - {j});
    if j != k {
      WeightWithout(table - {j}, k);
      WeightWithout(table - {k}, j);
      assert table - {j} - {k} == table - {k} - {j};
    }
  }

  /** What the keys of a list stand for in the table. */
  function Part(table: Table, order: seq<Key>): Table
  {
    map k | k in table && k in order :: table[k]
  }

  lemma {:induction false} ConcatenatedWeight(table: Table, order: seq<Key>)
    requires Distinct(order) && forall k :: k in order ==> k in table
    ensures |Concatenated(table, order)| == Weight(Part(table, order))
  {
    if order == [] {
      assert Part(table, order) == map[];
    } else {
      var part := Part(table, order);
      assert part - {order[0]} == Part(table, order[1..]);
      WeightWithout(part, order[0]);
      ConcatenatedWeight(table, order[1..]);
    }
  }

  lemma {:induction false} ConcatenatedStands(table: Table, order: seq<Key>, i: nat)
    requires i < |order| && forall k :: k in order ==> k in table
    ensures Stands(Concatenated(table, order), order[i] + table[order[i]], |Concatenated(table, order[..i])|)
  {
    if i > 0 {
      var entry, rest := order[0] + table[order[0]], Concatenated(table, order[1..]);
      ConcatenatedStands(table, order[1..], i - 1);
      assert order[..i][1..] == order[1..][..i - 1];
      var at, part := |Concatenated(table, order[1..][..i - 1])|, order[i] + table[order[i]];
      assert (entry + rest)[|entry| + at..|entry| + at + |part|] == rest[at..at + |part|];
    }
  }

  lemma SortedBelow(table: Table, order: seq<Key>, i: nat)
    requires Enumerates(order, table) && Sorted(order) && i < |order|
    ensures Part(table, order[..i]) == Below(table, order[i])
  {
    hide Less;
    forall k | k in table
      ensures k in order[..i] <==> Less(k, order[i])
    {
      var j :| 0 <= j < |order| && order[j] == k;
      LessTrichotomy(order[j], order[i]);
      if j < i {
        assert order[..i][j] == k;
      }
    }
  }

  lemma SortedFeeds(table: Table, order: seq<Key>)
    requires Enumerates(order, table) && Sorted(order)
    ensures Feeds(table, Concatenated(table, order))
  {
    hide Concatenated, Stands, Sorted, Less;
    var fed := Concatenated(table, order);
    ConcatenatedWeight(table, order);
    assert Part(table, order) == table;
    forall k | k in table
      ensures Stands(fed, k + table[k], Weight(Below(table, k)))
    {
      var i :| 0 <= i < |order| && order[i] == k;
      ConcatenatedStands(table, order, i);
      assert forall x :: x in order[..i] ==> x in order;
      ConcatenatedWeight(table, order[..i]);
      SortedBelow(table, order, i);
    }
  }

  method GenerateAppHash(kv: Store, sha: seq<byte> -> seq<byte>) returns (h: seq<byte>)
    ensures IsAppHash(sha, kv.data, h)
    ensures exists fed :: Feeds(kv.data, fed) && h == sha(fed)
  {
    var keys := kv.Keys();
    var sorted := SortKeys(keys);
    SortedEnumerates(keys, sorted, kv.data);
    var fed := FeedHasher(kv.data, sorted);
    SortedFeeds(kv.data, sorted);
    h := sha(fed);
  }

  /** Two stores with the same keys and equally long values agree under every hash function only
      if they are the same store. */
  lemma SameShapeTells(t: Table, u: Table, order: seq<Key>)
    requires Enumerates(order, t) && Sorted(order)
    requires t.Keys == u.Keys && forall k :: k in t ==> |t[k]| == |u[k]|
    ensures (forall sha: seq<byte> -> seq<byte>, h, h' ::
               IsAppHash(sha, t, h) && IsAppHash(sha, u, h') ==> h == h') <==> t == u
  {
    hide Concatenated, Sorted, IsAppHash;
    forall k
      ensures k in order <==> k in u
    {
    }
    AppHashTells(t, order, u, order);
    if Concatenated(t, order) == Concatenated(u, order) {
      forall k | k in t
        ensures t[k] == u[k]
      {
        var i :| 0 <= i < |order| && order[i] == k;
        SameOffsets(t, u, order[..i]);
        ConcatenatedStands(t, order, i);
        ConcatenatedStands(u, order, i);
        assert (k + t[k])[|k|..] == t[k] && (k + u[k])[|k|..] == u[k];
      }
      assert t == u;
    }
  }

  lemma {:induction false} SameOffsets(t: Table, u: Table, order: seq<Key>)
    requires forall k :: k in order ==> k in t && k in u && |t[k]| == |u[k]|
    ensures |Concatenated(t, order)| == |Concatenated(u, order)|
  {
    if order != [] {
      SameOffsets(t, u, order[1..]);
    }
  }

  /** The application hash is a function of the table alone, however the store iterates. */
  lemma AppHashUnique(sha: seq<byte> -> seq<byte>, table: Table, h: seq<byte>, h': seq<byte>)
    requires IsAppHash(sha, table, h) && IsAppHash(sha, table, h')
    ensures h == h'
  {
    var s :| Enumerates(s, table) && Sorted(s) && h == sha(Concatenated(table, s));
    var t :| Enumerates(t, table) && Sorted(t) && h' == sha(Concatenated(table, t));
    SameSetDistinct(s, t);
    SortedUnique(s, t);
  }

  /** The hash tells two tables apart only by what their keys and values, in key order, run
      together to: they agree under every hash function exactly when that agrees. */
  lemma AppHashTells(t: Table, order: seq<Key>, u: Table, order': seq<Key>)
    requires Enumerates(order, t) && Sorted(order) && Enumerates(order', u) && Sorted(order')
    ensures (forall sha: seq<byte> -> seq<byte>, h, h' ::
               IsAppHash(sha, t, h) && IsAppHash(sha, u, h') ==> h == h') <==>
            Concatenated(t, order) == Concatenated(u, order')
  {
    var a, b := Concatenated(t, order), Concatenated(u, order');
    if a == b {
      forall sha: seq<byte> -> seq<byte>, h, h' | IsAppHash(sha, t, h) && IsAppHash(sha, u, h')
        ensures h == h'
      {
        assert IsAppHash(sha, t, sha(a)) && IsAppHash(sha, u, sha(b));
        AppHashUnique(sha, t, h, sha(a));
        AppHashUnique(sha, u, h', sha(b));
      }
    } else {
      var same: seq<byte> -> seq<byte> := s => s;
      assert IsAppHash(same, t, same(a)) && IsAppHash(same, u, same(b));
    }
  }

  /** Different stores may agree: 1 -> 2 3 and 1 2 -> 3 have one application hash, whatever the
      hash function. */
  lemma AppHashCollides(sha: seq<byte> -> seq<byte>, h: seq<byte>)
    ensures var t: Table, u: Table := map[[1] := [2, 3]], map[[1, 2] := [3]];
            t != u && (IsAppHash(sha, t, h) <==> IsAppHash(sha, u, h))
  {
    var t: Table, u: Table := map[[1] := [2, 3]], map[[1, 2] := [3]];
    var one: Key, two: Key, fed: seq<byte> := [1], [1, 2], [1, 2, 3];
    assert one in t && one !in u;
    OneKey(t, one);
    OneKey(u, two);
    assert one + t[one] == fed && two + u[two] == fed;
    assert Concatenated(t, [one]) == fed && Concatenated(u, [two]) == fed;
    assert IsAppHash(sha, t, sha(fed)) && IsAppHash(sha, u, sha(fed));
    if IsAppHash(sha, t, h) {
      AppHashUnique(sha, t, h, sha(fed));
    }
    if IsAppHash(sha, u, h) {
      AppHashUnique(sha, u, h, sha(fed));
    }
  }

  lemma OneKey(table: Table, key: Key)
    requires table.Keys == {key}
    ensures Enumerates([key], table) && Sorted([key])
    ensures Concatenated(table, [key]) == key + table[key]
  {
    assert Concatenated(table, [key][1..]) == [];
  }

  /** Snapshot, restore into any other store, hash: the two stores hold the same table and agree
      on the application hash. */
  method SnapshotAndRestore(source: Store, target: Store, meta: Meta, enc: Encoder, dec: Decoder,
        sha: seq<byte> -> seq<byte>)
    returns (ok: bool, before: seq<byte>, after: seq<byte>)
    requires source != target && Storable(source.data) && [] !in target.data
    requires var m := meta.(numKeys := |source.data|); |enc(m)| < U32 && dec(enc(m)) == Some(m)
    modifies target
    ensures ok && target.data == source.data && before == after
  {
    before := GenerateAppHash(source, sha);
    var file := WriteSnapshot(source, meta, enc);
    ghost var order :| Enumerates(order, source.data) && file == File(source.data, order, meta, enc);
    RoundTrip(source.data, order, meta, enc, dec, []);
    assert file + [] == file;
    ok := RestoreFromSnapshot(file, target, dec);
    after := GenerateAppHash(target, sha);
    AppHashUnique(sha, source.data, before, after);
  }
}
