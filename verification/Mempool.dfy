/** The sequencer's transaction pool (sequencer/mempool.go): one map, per-account lists and a
    list in priority order over shared transaction objects. */
module Mempool {
  import opened Common

  /** Only the priority is ever written after a transaction has been made. */
  class Transaction {
    const id: string
    const from: string
    const gasLimit: u64
    const gasPrice: u64
    const signature: seq<int>
    const hash: seq<int>
    const size: u64
    const receivedAt: int
    var priority: u64

    constructor (id: string, from: string, gasLimit: u64, gasPrice: u64, signature: seq<int>, hash: seq<int>,
          size: u64, receivedAt: int)
      ensures this.id == id && this.from == from && this.gasLimit == gasLimit && this.gasPrice == gasPrice
      ensures this.signature == signature && this.hash == hash && this.size == size && this.receivedAt == receivedAt
    {
      this.id := id;
      this.from := from;
      this.gasLimit := gasLimit;
      this.gasPrice := gasPrice;
      this.signature := signature;
      this.hash := hash;
      this.size := size;
      this.receivedAt := receivedAt;
      this.priority := 0;
    }
  }

  /** Transactions by identifier, and each sender's list. */
  type Index = map<string, Transaction>
  type Accounts = map<string, seq<Transaction>>

  datatype Config = Config(
    maxTxSize: u64, priceLimit: u64, maxSize: int, accountLimit: int, globalLimit: int,
    enablePriority: bool, ttl: int)

  /** AddTransaction's results; DivideByZero is the panic of a zero size. */
  datatype Outcome = Added | NoTransaction | AlreadyExists | Invalid | LimitReached | DivideByZero

  // ---------- The three indexes ----------

  /** Members of a list are exactly what the map holds under their identifiers. */
  predicate Listed(txs: Index, s: seq<Transaction>)
  {
    Distinct(s) && forall k :: 0 <= k < |s| ==> s[k].id in txs && txs[s[k].id] == s[k]
  }

  ghost predicate Keyed(txs: Index)
  {
    forall id :: id in txs ==> txs[id].id == id
  }

  /** The priority list is a duplicate-free permutation of the map's values. */
  ghost predicate Permutes(txs: Index, order: seq<Transaction>)
  {
    Listed(txs, order) && forall id :: id in txs ==> txs[id] in order
  }

  /** The account lists split the map's values by sender. */
  ghost predicate Partitions(txs: Index, accounts: Accounts)
  {
    (forall a :: a in accounts ==>
       Listed(txs, accounts[a]) && forall k :: 0 <= k < |accounts[a]| ==> accounts[a][k].from == a)
    && (forall id :: id in txs ==> txs[id].from in accounts && txs[id] in accounts[txs[id].from])
  }

  function SumSizes(s: seq<Transaction>): nat
  {
    if s == [] then 0 else s[0].size + SumSizes(s[1..])
  }

  /** The list without the first transaction of that identifier. */
  function DropId(s: seq<Transaction>, id: string): seq<Transaction>
  {
    if s == [] then [] else if s[0].id == id then s[1..] else [s[0]] + DropId(s[1..], id)
  }

  function Inserted(s: seq<Transaction>, i: nat, t: Transaction): seq<Transaction>
    requires i <= |s|
  {
    s[..i] + [t] + s[i..]
  }

  predicate Descending(s: seq<Transaction>)
    reads s`priority
  {
    forall i, j :: 0 <= i < j < |s| ==> s[i].priority >= s[j].priority
  }

  predicate Positive(s: seq<Transaction>)
  {
    forall k :: 0 <= k < |s| ==> s[k].size > 0
  }

  lemma EmptyIndexes(config: Config)
    ensures Keyed(map[]) && Permutes(map[], []) && Partitions(map[], map[]) && WithinLimits(config, map[], map[])
    ensures SumSizes([]) == 0 && Positive([])
  {
  }

  lemma InsertPositive(s: seq<Transaction>, i: nat, t: Transaction)
    requires i <= |s| && Positive(s) && t.size > 0
    ensures Positive(Inserted(s, i, t))
  {
  }

  lemma AddWrapped(a: nat, b: nat)
    ensures (a % U64 + b) % U64 == (a + b) % U64
  {
  }

  function AccountList(accounts: Accounts, a: string): seq<Transaction>
  {
    if a in accounts then accounts[a] else []
  }

  // ---------- What adding and dropping do to them ----------

  lemma {:induction false} InsertSum(s: seq<Transaction>, i: nat, t: Transaction)
    requires i <= |s|
    ensures SumSizes(Inserted(s, i, t)) == SumSizes(s) + t.size
  {
    var r := Inserted(s, i, t);
    if i == 0 {
      assert r[1..] == s;
    } else {
      InsertSum(s[1..], i - 1, t);
      assert r[1..] == Inserted(s[1..], i - 1, t);
    }
  }

  /** What is cut out is the first of that identifier, if there is one. */
  lemma {:induction false} DropShape(s: seq<Transaction>, id: string) returns (i: nat)
    ensures i <= |s| && (forall k :: 0 <= k < i ==> s[k].id != id) && (i < |s| ==> s[i].id == id)
    ensures DropId(s, id) == if i < |s| then s[..i] + s[i + 1..] else s
  {
    hide DropId;
    DropUnfold(s, id);
    if s == [] || s[0].id == id {
      i := 0;
    } else {
      var rest := s[1..];
      var j := DropShape(rest, id);
      i := j + 1;
      assert forall k :: 0 <= k < |rest| ==> s[k + 1] == rest[k];
      if j < |rest| {
        assert [s[0]] + (rest[..j] + rest[j + 1..]) == s[..i] + s[i + 1..];
      } else {
        assert [s[0]] + rest == s;
      }
    }
  }

  lemma DropFrom(txs: Index, s: seq<Transaction>, id: string)
    requires Listed(txs, s)
    ensures Listed(txs, DropId(s, id))
    ensures forall k :: 0 <= k < |DropId(s, id)| ==> DropId(s, id)[k] in s && DropId(s, id)[k].id != id
    ensures forall t :: t in s && t.id != id ==> t in DropId(s, id)
    ensures (forall t :: t in s ==> t.id != id) ==> DropId(s, id) == s
  {
    hide DropId, Listed;
    var i := DropShape(s, id);
    ListedAt(txs, s);
    if i < |s| {
      CutListed(txs, s, i);
    }
  }

  lemma ListedAt(txs: Index, s: seq<Transaction>)
    requires Listed(txs, s)
    ensures forall t :: t in s ==> t.id in txs && txs[t.id] == t
  {
  }

  lemma CutListed(txs: Index, s: seq<Transaction>, i: nat)
    requires Listed(txs, s) && i < |s|
    ensures var d := s[..i] + s[i + 1..];
            Listed(txs, d) && (forall k :: 0 <= k < |d| ==> d[k] in s && d[k] != s[i])
            && (forall t :: t in s && t != s[i] ==> t in d)
  {
    var d := s[..i] + s[i + 1..];
    forall k | 0 <= k < |d|
      ensures d[k] == s[if k < i then k else k + 1]
    {
    }
    forall t | t in s && t != s[i]
      ensures t in d
    {
      var k :| 0 <= k < |s| && s[k] == t;
      assert d[if k < i then k else k - 1] == t;
    }
  }

  lemma DropSum(txs: Index, s: seq<Transaction>, id: string)
    requires Listed(txs, s) && id in txs && txs[id] in s && txs[id].id == id
    ensures SumSizes(s) == SumSizes(DropId(s, id)) + txs[id].size
  {
    hide DropId, SumSizes;
    var i := DropShape(s, id);
    var d := DropId(s, id);
    assert Inserted(d, i, s[i]) == s;
    InsertSum(d, i, s[i]);
  }

  lemma AddPermutes(txs: Index, order: seq<Transaction>, t: Transaction, i: nat)
    requires Permutes(txs, order) && t.id !in txs && i <= |order|
    ensures Permutes(txs[t.id := t], Inserted(order, i, t))
  {
    hide Distinct;
    var txs', order' := txs[t.id := t], Inserted(order, i, t);
    ListedAt(txs, order);
    InsertedMembers(order, i, t);
    forall k | 0 <= k < |order'|
      ensures order'[k].id in txs' && txs'[order'[k].id] == order'[k]
    {
      var u := order'[k];
      assert u in order' && (u == t || u in order);
      assert u in order ==> u.id in txs && txs[u.id] == u;
    }
  }

  lemma InsertedMembers(s: seq<Transaction>, i: nat, t: Transaction)
    requires Distinct(s) && t !in s && i <= |s|
    ensures Distinct(Inserted(s, i, t)) && forall u :: u in Inserted(s, i, t) <==> u == t || u in s
  {
    InsertDistinct(s, i, t);
  }

  function Ids(s: seq<Transaction>): (ids: seq<string>)
    ensures |ids| == |s| && forall k :: 0 <= k < |s| ==> ids[k] == s[k].id
  {
    seq(|s|, k requires 0 <= k < |s| => s[k].id)
  }

  /** The priority list has as many entries as the map. */
  lemma SameCount(txs: Index, order: seq<Transaction>)
    requires Keyed(txs) && Permutes(txs, order)
    ensures |order| == |txs|
  {
    var ids := Ids(order);
    forall i, j | 0 <= i < j < |ids|
      ensures ids[i] != ids[j]
    {
      assert order[i] != order[j];
    }
    forall id
      ensures id in txs.Keys <==> id in ids
    {
      if id in txs {
        var k :| 0 <= k < |order| && order[k] == txs[id];
        assert ids[k] == id;
      }
    }
    DistinctSize(ids, txs.Keys);
  }

  lemma KeyedStays(txs: Index, t: Transaction)
    requires Keyed(txs)
    ensures Keyed(txs[t.id := t]) && Keyed(txs - {t.id})
  {
  }

  lemma ListedGrows(txs: Index, s: seq<Transaction>, t: Transaction)
    requires Listed(txs, s) && t.id !in txs
    ensures Listed(txs[t.id := t], s) && Listed(txs[t.id := t], s + [t])
  {
  }

  lemma EmptyListed(txs: Index)
    ensures Listed(txs, [])
  {
  }

  lemma AddPartitions(txs: Index, accounts: Accounts, t: Transaction)
    requires Keyed(txs) && Partitions(txs, accounts) && t.id !in txs
    ensures Partitions(txs[t.id := t], accounts[t.from := AccountList(accounts, t.from) + [t]])
  {
    hide Listed;
    var bucket := AccountList(accounts, t.from);
    var txs', accounts' := txs[t.id := t], accounts[t.from := bucket + [t]];
    EmptyListed(txs);
    forall a | a in accounts'
      ensures Listed(txs', accounts'[a]) && forall k :: 0 <= k < |accounts'[a]| ==> accounts'[a][k].from == a
    {
      ListedGrows(txs, AccountList(accounts, a), t);
    }
    forall id | id in txs'
      ensures txs'[id].from in accounts' && txs'[id] in accounts'[txs'[id].from]
    {
      if id == t.id {
        assert (bucket + [t])[|bucket|] == t;
      } else {
        assert txs[id] in accounts[txs[id].from];
        assert forall u :: u in bucket ==> u in bucket + [t];
      }
    }
  }

  lemma {:induction false} DropPermutes(txs: Index, order: seq<Transaction>, id: string)
    requires Keyed(txs) && Permutes(txs, order) && id in txs
    ensures Permutes(txs - {id}, DropId(order, id))
    ensures SumSizes(order) == SumSizes(DropId(order, id)) + txs[id].size
  {
    hide DropId, SumSizes;
    DropFrom(txs, order, id);
    DropSum(txs, order, id);
    var order' := DropId(order, id);
    forall k | 0 <= k < |order'|
      ensures order'[k].id in txs - {id}
    {
    }
  }

  lemma DropPartitions(txs: Index, accounts: Accounts, id: string)
    requires Keyed(txs) && Partitions(txs, accounts) && id in txs
    ensures Partitions(txs - {id}, accounts[txs[id].from := DropId(accounts[txs[id].from], id)])
  {
    hide DropId;
    var from := txs[id].from;
    DropFrom(txs, accounts[from], id);
    forall a, k | a in accounts && a != from && 0 <= k < |accounts[a]|
      ensures accounts[a][k].id != id
    {
    }
    forall other | other in txs && other != id && txs[other].from == from
      ensures txs[other] in DropId(accounts[from], id)
    {
    }
  }

  /** An empty list can go. */
  lemma UnlistEmpty(txs: Index, accounts: Accounts, a: string)
    requires Partitions(txs, accounts) && AccountList(accounts, a) == []
    ensures Partitions(txs, accounts - {a})
  {
  }

  lemma DropWrapped(total: nat, size: nat)
    requires size < U64
    ensures ((total + size) % U64 + U64 - size) % U64 == total % U64
  {
  }

  lemma DropShorter(s: seq<Transaction>, id: string)
    ensures |DropId(s, id)| <= |s| && (Positive(s) ==> Positive(DropId(s, id)))
  {
    var i := DropShape(s, id);
  }

  lemma DropDescending(s: seq<Transaction>, id: string)
    requires Descending(s)
    ensures Descending(DropId(s, id))
  {
    hide DropId;
    var i := DropShape(s, id);
    var d := DropId(s, id);
    assert i < |s| ==> forall k :: 0 <= k < |d| ==> d[k] == s[if k < i then k else k + 1];
  }

  lemma SenderListed(txs: Index, accounts: Accounts, id: string)
    requires Keyed(txs) && Partitions(txs, accounts) && id in txs
    ensures txs[id].id == id && txs[id].from in accounts
  {
  }

  /** The list without the given identifiers. */
  function Keep(s: seq<Transaction>, gone: set<string>): seq<Transaction>
  {
    if s == [] then [] else (if s[0].id in gone then [] else [s[0]]) + Keep(s[1..], gone)
  }

  lemma {:induction false} KeepNone(s: seq<Transaction>)
    ensures Keep(s, {}) == s
  {
    if s != [] {
      KeepNone(s[1..]);
    }
  }

  lemma {:induction false} KeepMembers(s: seq<Transaction>, gone: set<string>)
    ensures forall t :: t in Keep(s, gone) <==> t in s && t.id !in gone
  {
    if s != [] {
      KeepMembers(s[1..], gone);
      assert s == [s[0]] + s[1..];
    }
  }

  lemma {:induction false} KeepOneLess(txs: Index, s: seq<Transaction>, gone: set<string>, id: string)
    requires Listed(txs, s) && id !in gone
    ensures DropId(Keep(s, gone), id) == Keep(s, gone + {id})
  {
    hide Keep, DropId;
    KeepUnfold(s, gone);
    KeepUnfold(s, gone + {id});
    if s == [] {
      DropUnfold([], id);
    } else {
      var rest := s[1..];
      ListedRest(txs, s, id);
      KeepOneLess(txs, rest, gone, id);
      if s[0].id !in gone {
        assert ([s[0]] + Keep(rest, gone))[1..] == Keep(rest, gone);
        DropUnfold([s[0]] + Keep(rest, gone), id);
        if s[0].id == id {
          KeepAbsent(rest, gone, id);
        }
      }
    }
  }

  lemma KeepUnfold(s: seq<Transaction>, gone: set<string>)
    ensures Keep([], gone) == []
    ensures s != [] ==> Keep(s, gone) == if s[0].id in gone then Keep(s[1..], gone) else [s[0]] + Keep(s[1..], gone)
  {
  }

  lemma DropUnfold(s: seq<Transaction>, id: string)
    ensures s == [] ==> DropId(s, id) == []
    ensures s != [] ==> DropId(s, id) == if s[0].id == id then s[1..] else [s[0]] + DropId(s[1..], id)
  {
  }

  lemma ListedRest(txs: Index, s: seq<Transaction>, id: string)
    requires Listed(txs, s) && s != []
    ensures Listed(txs, s[1..])
    ensures s[0].id == id ==> forall k :: 0 <= k < |s[1..]| ==> s[1..][k].id != id
  {
    assert forall k :: 0 <= k < |s| - 1 ==> s[1..][k] == s[k + 1];
  }

  lemma {:induction false} KeepAbsent(s: seq<Transaction>, gone: set<string>, id: string)
    requires forall k :: 0 <= k < |s| ==> s[k].id != id
    ensures Keep(s, gone + {id}) == Keep(s, gone)
  {
    if s != [] {
      KeepAbsent(s[1..], gone, id);
    }
  }

  lemma CountsDistinct<T>(s: seq<T>)
    requires forall x :: multiset(s)[x] <= 1
    ensures Distinct(s)
  {
    forall i, j | 0 <= i < j < |s|
      ensures s[i] != s[j]
    {
      assert s == s[..i] + [s[i]] + s[i + 1..j] + [s[j]] + s[j + 1..];
      assert multiset(s)[s[i]] <= 1;
    }
  }

  lemma PermutesAny(txs: Index, s: seq<Transaction>, r: seq<Transaction>)
    requires Permutes(txs, s) && multiset(r) == multiset(s)
    ensures Permutes(txs, r)
  {
    DistinctCounts(s);
    CountsDistinct(r);
    forall k | 0 <= k < |r|
      ensures r[k].id in txs && txs[r[k].id] == r[k]
    {
      assert r[k] in multiset(s);
    }
    forall id | id in txs
      ensures txs[id] in r
    {
      assert txs[id] in multiset(s);
    }
  }

  lemma AnyPositive(s: seq<Transaction>, r: seq<Transaction>)
    requires multiset(r) == multiset(s)
    ensures Positive(s) ==> Positive(r)
  {
    if Positive(s) {
      forall k | 0 <= k < |r|
        ensures r[k].size > 0
      {
        assert r[k] in multiset(s);
      }
    }
  }

  lemma {:induction false} SumAny(s: seq<Transaction>, r: seq<Transaction>)
    requires multiset(r) == multiset(s)
    ensures SumSizes(r) == SumSizes(s)
    decreases |s|
  {
    if s == [] {
      assert |multiset(r)| == 0;
    } else {
      assert s[0] in multiset(r);
      var i :| 0 <= i < |r| && r[i] == s[0];
      var rest := r[..i] + r[i + 1..];
      assert r == Inserted(rest, i, s[0]);
      InsertSum(rest, i, s[0]);
      assert s == [s[0]] + s[1..];
      assert r == r[..i] + [r[i]] + r[i + 1..];
      assert multiset(rest) == multiset(r) - multiset{s[0]};
      SumAny(s[1..], rest);
    }
  }

  /** The capacity checks of every AddTransaction since the pool was last empty; no account
      keeps an empty list. */
  ghost predicate WithinLimits(config: Config, txs: Index, accounts: Accounts)
  {
    (txs != map[] ==> |txs| <= config.maxSize && |txs| <= config.globalLimit)
    && (forall a :: a in accounts ==> accounts[a] != [] && |accounts[a]| <= config.accountLimit)
  }

  function Relisted(accounts: Accounts, a: string, left: seq<Transaction>): Accounts
  {
    if left == [] then accounts - {a} else accounts[a := left]
  }

  lemma {:induction false} DropWithinLimits(config: Config, txs: Index, accounts: Accounts, a: string, id: string)
    requires WithinLimits(config, txs, accounts) && a in accounts
    ensures WithinLimits(config, txs - {id}, Relisted(accounts, a, DropId(accounts[a], id)))
  {
    DropShorter(accounts[a], id);
    assert (txs - {id}).Keys == txs.Keys - {id};
    assert |txs.Keys| == |txs| && |(txs - {id}).Keys| == |txs - {id}|;
  }

  function Expired(txs: Index, ttl: int, now: int): set<string>
  {
    set id | id in txs && now - txs[id].receivedAt > ttl
  }

  /** Every account's list without the given identifiers; emptied accounts go. */
  function KeptLists(accounts: Accounts, gone: set<string>): Accounts
  {
    map a | a in accounts && Keep(accounts[a], gone) != [] :: Keep(accounts[a], gone)
  }

  // ---------- The pool ----------

  class Mempool {
    const config: Config
    var transactions: Index
    var byAccount: Accounts
    var byPriority: seq<Transaction>
    var totalAdded: nat
    var totalRemoved: nat
    var totalSize: nat

    ghost predicate Indexed()
      reads `transactions, `byAccount, `byPriority
    {
      Keyed(transactions) && Permutes(transactions, byPriority) && Partitions(transactions, byAccount)
    }

    ghost predicate Valid()
      reads this, byPriority`priority
    {
      Indexed() && WithinLimits(config, transactions, byAccount) && Descending(byPriority)
      && totalSize == SumSizes(byPriority) % U64
      && (config.enablePriority ==> Positive(byPriority))
    }

    constructor (config: Config)
      ensures Valid() && transactions == map[] && byPriority == [] && this.config == config
      ensures totalAdded == 0 && totalRemoved == 0
    {
      this.config := config;
      transactions := map[];
      byAccount := map[];
      byPriority := [];
      totalAdded := 0;
      totalRemoved := 0;
      totalSize := 0;
    }

    /** 64-bit wrap-around in the product and in the age boost; a zero size is excluded. */
    function Priority(tx: Transaction, boost: Transaction -> nat): u64
      requires config.enablePriority ==> tx.size > 0
    {
      if !config.enablePriority then tx.gasPrice
      else (tx.gasPrice * tx.gasLimit % U64 / tx.size + boost(tx)) % U64
    }

    /** The first position whose priority is below p, by binary search. */
    method SearchBelow(s: seq<Transaction>, p: u64) returns (i: nat)
      requires Descending(s)
      ensures i <= |s|
      ensures forall k :: 0 <= k < i ==> s[k].priority >= p
      ensures forall k :: i <= k < |s| ==> s[k].priority < p
    {
      i := 0;
      var j := |s|;
      while i < j
        invariant i <= j <= |s|
        invariant forall k :: 0 <= k < i ==> s[k].priority >= p
        invariant forall k :: j <= k < |s| ==> s[k].priority < p
      {
        var h := (i + j) / 2;
        if s[h].priority < p {
          j := h;
        } else {
          i := h + 1;
        }
      }
    }

    method InsertByPriority(tx: Transaction) returns (ghost i: nat)
      requires Descending(byPriority)
      modifies `byPriority
      ensures i <= |old(byPriority)| && byPriority == Inserted(old(byPriority), i, tx)
      ensures Descending(byPriority)
      ensures forall k :: 0 <= k < i ==> byPriority[k].priority >= tx.priority
      ensures forall k :: i < k < |byPriority| ==> byPriority[k].priority < tx.priority
    {
      var at := SearchBelow(byPriority, tx.priority);
      i := at;
      byPriority := byPriority[..at] + [tx] + byPriority[at..];
    }

    lemma NotStored(tx: Transaction)
      requires Indexed() && tx.id !in transactions
      ensures forall k :: 0 <= k < |byPriority| ==> byPriority[k] != tx
    {
    }

    /** Into the map, its sender's list and the priority list. */
    method Store(tx: Transaction) returns (ghost i: nat)
      requires Indexed() && Descending(byPriority) && tx.id !in transactions
      modifies `transactions, `byAccount, `byPriority, `totalSize, `totalAdded
      ensures Indexed() && Descending(byPriority)
      ensures transactions == old(transactions)[tx.id := tx]
      ensures byAccount == old(byAccount)[tx.from := AccountList(old(byAccount), tx.from) + [tx]]
      ensures i <= |old(byPriority)| && byPriority == Inserted(old(byPriority), i, tx)
      ensures forall k :: 0 <= k < i ==> byPriority[k].priority >= tx.priority
      ensures forall k :: i < k < |byPriority| ==> byPriority[k].priority < tx.priority
      ensures totalSize == (old(totalSize) + tx.size) % U64 && totalAdded == old(totalAdded) + 1
      ensures SumSizes(byPriority) == SumSizes(old(byPriority)) + tx.size
    {
      hide Keyed, Permutes, Partitions, SumSizes, Inserted, Descending;
      AddPartitions(transactions, byAccount, tx);
      ghost var txs, order := transactions, byPriority;
      transactions := transactions[tx.id := tx];
      byAccount := byAccount[tx.from := AccountList(byAccount, tx.from) + [tx]];
      totalSize := (totalSize + tx.size) % U64;
      totalAdded := totalAdded + 1;
      i := InsertByPriority(tx);
      AddPermutes(txs, order, tx, i);
      InsertSum(order, i, tx);
      KeyedStays(txs, tx);
    }

    /** The checks before a transaction is stored, in their order; Added when none refuses it. */
    method CheckRefused(tx: Transaction?) returns (outcome: Outcome)
      ensures outcome ==
        if tx == null then NoTransaction
        else if tx.id in transactions then AlreadyExists
        else if tx.size > config.maxTxSize || tx.gasPrice < config.priceLimit
                || tx.from == "" || tx.hash == [] || tx.signature == [] then Invalid
        else if |transactions| >= config.maxSize || |transactions| >= config.globalLimit
                || |AccountList(byAccount, tx.from)| >= config.accountLimit then LimitReached
        else if config.enablePriority && tx.size == 0 then DivideByZero
        else Added
    {
      if tx == null {
        return NoTransaction;
      }
      if tx.id in transactions {
        return AlreadyExists;
      }
      if tx.size > config.maxTxSize || tx.gasPrice < config.priceLimit
        || |tx.from| == 0 || |tx.hash| == 0 || |tx.signature| == 0 {
        return Invalid;
      }
      if |transactions| >= config.maxSize {
        return LimitReached;
      }
      if |AccountList(byAccount, tx.from)| >= config.accountLimit {
        return LimitReached;
      }
      if |transactions| >= config.globalLimit {
        return LimitReached;
      }
      if config.enablePriority && tx.size == 0 {
        return DivideByZero;
      }
      outcome := Added;
    }

    /** A transaction that passed them is priced and stored. */
    method Admit(tx: Transaction, boost: Transaction -> nat) returns (ghost i: nat)
      requires Valid() && tx.id !in transactions && (config.enablePriority ==> tx.size > 0)
      requires |transactions| < config.maxSize && |transactions| < config.globalLimit
      requires |AccountList(byAccount, tx.from)| < config.accountLimit
      modifies this, tx
      ensures Valid()
      ensures tx.priority == if !config.enablePriority then tx.gasPrice
                             else (tx.gasPrice * tx.gasLimit % U64 / tx.size + boost(tx)) % U64
      ensures transactions == old(transactions)[tx.id := tx]
      ensures byAccount == old(byAccount)[tx.from := AccountList(old(byAccount), tx.from) + [tx]]
      ensures i <= |old(byPriority)| && byPriority == Inserted(old(byPriority), i, tx)
      ensures forall k :: 0 <= k < i ==> byPriority[k].priority >= tx.priority
      ensures forall k :: i < k < |byPriority| ==> byPriority[k].priority < tx.priority
      ensures totalAdded == old(totalAdded) + 1 && totalRemoved == old(totalRemoved)
    {
      hide Keyed, Permutes, Partitions, SumSizes, Inserted, Descending;
      NotStored(tx);
      tx.priority := Priority(tx, boost);
      ghost var order := byPriority;
      i := Store(tx);
      AddWrapped(SumSizes(order), tx.size);
      if config.enablePriority {
        InsertPositive(order, i, tx);
      }
    }

    /** The age boost of each transaction is a parameter: it comes from the clock. */
    method AddTransaction(tx: Transaction?, boost: Transaction -> nat) returns (outcome: Outcome, ghost i: nat)
      requires Valid()
      modifies this, tx
      ensures Valid()
      ensures outcome ==
        if tx == null then NoTransaction
        else if tx.id in old(transactions) then AlreadyExists
        else if tx.size > config.maxTxSize || tx.gasPrice < config.priceLimit
                || tx.from == "" || tx.hash == [] || tx.signature == [] then Invalid
        else if |old(transactions)| >= config.maxSize || |old(transactions)| >= config.globalLimit
                || |AccountList(old(byAccount), tx.from)| >= config.accountLimit then LimitReached
        else if config.enablePriority && tx.size == 0 then DivideByZero
        else Added
      ensures outcome == Added ==>
        tx.priority == if !config.enablePriority then tx.gasPrice
                       else (tx.gasPrice * tx.gasLimit % U64 / tx.size + boost(tx)) % U64
      ensures outcome != Added ==>
        transactions == old(transactions) && byAccount == old(byAccount) && byPriority == old(byPriority)
        && totalSize == old(totalSize) && totalAdded == old(totalAdded)
        && (tx != null ==> tx.priority == old(tx.priority))
      ensures outcome == Added ==>
        transactions == old(transactions)[tx.id := tx]
        && byAccount == old(byAccount)[tx.from := AccountList(old(byAccount), tx.from) + [tx]]
        && i <= |old(byPriority)| && byPriority == Inserted(old(byPriority), i, tx)
        && (forall k :: 0 <= k < i ==> byPriority[k].priority >= tx.priority)
        && (forall k :: i < k < |byPriority| ==> byPriority[k].priority < tx.priority)
        && totalAdded == old(totalAdded) + 1
      ensures totalRemoved == old(totalRemoved)
    {
      hide Keyed, Permutes, Partitions, SumSizes, Inserted, Descending, AccountList;
      i := 0;
      outcome := CheckRefused(tx);
      if outcome != Added {
        return;
      }
      i := Admit(tx, boost);
    }

    /** The loop that cuts one identifier out of a list. */
    method Cut(s: seq<Transaction>, id: string) returns (r: seq<Transaction>)
      ensures r == DropId(s, id)
    {
      hide DropId;
      ghost var first := DropShape(s, id);
      for i := 0 to |s|
        invariant i <= first
      {
        if s[i].id == id {
          return s[..i] + s[i + 1..];
        }
      }
      r := s;
    }

    /** Out of all three indexes; the sender's list may be left empty. */
    method Forget(txID: string)
      requires Indexed() && Descending(byPriority) && txID in transactions
      requires totalSize == SumSizes(byPriority) % U64
      modifies `transactions, `byAccount, `byPriority, `totalSize, `totalRemoved
      ensures Indexed() && Descending(byPriority) && totalSize == SumSizes(byPriority) % U64
      ensures transactions == old(transactions) - {txID}
      ensures byPriority == DropId(old(byPriority), txID)
      ensures var from := old(transactions)[txID].from;
              from in old(byAccount) && byAccount == old(byAccount)[from := DropId(old(byAccount)[from], txID)]
      ensures totalRemoved == old(totalRemoved) + 1
    {
      hide DropId, SumSizes, Permutes, Partitions, Keyed, Descending;
      var tx := transactions[txID];
      SenderListed(transactions, byAccount, txID);
      KeyedStays(transactions, tx);
      DropPermutes(transactions, byPriority, txID);
      DropPartitions(transactions, byAccount, txID);
      DropDescending(byPriority, txID);
      DropWrapped(SumSizes(DropId(byPriority, txID)), tx.size);
      transactions := transactions - {txID};
      totalSize := (totalSize + U64 - tx.size) % U64;
      totalRemoved := totalRemoved + 1;
      var accountTxs := Cut(byAccount[tx.from], txID);
      byAccount := byAccount[tx.from := accountTxs];
      byPriority := Cut(byPriority, txID);
    }

    method RemoveTransaction(txID: string) returns (ok: bool)
      requires Valid()
      modifies `transactions, `byAccount, `byPriority, `totalSize, `totalRemoved
      ensures Valid() && (ok <==> txID in old(transactions))
      ensures transactions == old(transactions) - {txID}
      ensures byPriority == DropId(old(byPriority), txID)
      ensures ok ==>
        exists i :: 0 <= i < |old(byPriority)| && old(byPriority)[i].id == txID
                    && byPriority == old(byPriority)[..i] + old(byPriority)[i + 1..]
      ensures ok ==>
        var from := old(transactions)[txID].from;
        from in old(byAccount) &&
        var left := DropId(old(byAccount)[from], txID);
        byAccount == Relisted(old(byAccount), from, left)
      ensures !ok ==> byAccount == old(byAccount) && totalSize == old(totalSize)
      ensures totalRemoved == old(totalRemoved) + (if ok then 1 else 0)
    {
      hide DropId, SumSizes, Permutes, Partitions, Keyed, Descending, Positive, WithinLimits;
      if txID !in transactions {
        AbsentKept(txID);
        return false;
      }
      var from := transactions[txID].from;
      ghost var at := DropShape(byPriority, txID);
      StoredInOrder(txID);
      SenderListed(transactions, byAccount, txID);
      DropWithinLimits(config, transactions, byAccount, from, txID);
      if config.enablePriority {
        DropShorter(byPriority, txID);
      }
      Forget(txID);
      if |byAccount[from]| == 0 {
        UnlistEmpty(transactions, byAccount, from);
        byAccount := byAccount - {from};
      }
      assert byAccount == Relisted(old(byAccount), from, DropId(old(byAccount)[from], txID));
      ok := true;
    }

    lemma StoredInOrder(txID: string)
      requires Indexed() && txID in transactions
      ensures exists i :: 0 <= i < |byPriority| && byPriority[i].id == txID
    {
      assert transactions[txID] in byPriority;
    }

    lemma AbsentKept(txID: string)
      requires Indexed() && txID !in transactions
      ensures DropId(byPriority, txID) == byPriority
    {
      DropFrom(transactions, byPriority, txID);
    }

    /** The pool as it was on entry to cleanup, less the identifiers forgotten so far. */
    ghost predicate Swept(txs: Index, accounts: Accounts,
                          order: seq<Transaction>, gone: set<string>)
      reads `transactions, `byAccount, `byPriority, `totalSize, byPriority`priority
    {
      Indexed() && Descending(byPriority) && totalSize == SumSizes(byPriority) % U64
      && Keyed(txs) && Permutes(txs, order) && Partitions(txs, accounts)
      && transactions == txs - gone && byPriority == Keep(order, gone) && KeepsEach(byAccount, accounts, gone)
    }

    method ForgetNext(txID: string, ghost txs: Index, ghost accounts: Accounts,
                      ghost order: seq<Transaction>, ghost gone: set<string>)
      requires Swept(txs, accounts, order, gone)
      requires txID in txs && txID !in gone
      modifies `transactions, `byAccount, `byPriority, `totalSize, `totalRemoved
      ensures Swept(txs, accounts, order, gone + {txID})
      ensures totalRemoved == old(totalRemoved) + 1
    {
      hide Keep, DropId, SumSizes, Permutes, Keyed, Descending, Partitions, KeepsEach;
      KeepStep(txs, order, accounts, byAccount, gone, txID);
      Forget(txID);
    }

    lemma StartSweep()
      requires Valid()
      ensures Swept(transactions, byAccount, byPriority, {})
    {
      hide Keep, SumSizes, Permutes, Keyed, Descending, Partitions, KeepsEach, Positive, WithinLimits;
      StartKeeping(byPriority, byAccount);
    }

    method CollectExpired(now: int) returns (expired: seq<string>)
      ensures Distinct(expired) && forall id :: id in expired <==> id in Expired(transactions, config.ttl, now)
    {
      expired := [];
      var rest := transactions.Keys;
      while rest != {}
        invariant rest <= transactions.Keys && Distinct(expired)
        invariant forall id :: id in expired <==> id in Expired(transactions, config.ttl, now) && id !in rest
        decreases |rest|
      {
        var txID :| txID in rest;
        if now - transactions[txID].receivedAt > config.ttl {
          expired := expired + [txID];
        }
        rest := rest - {txID};
      }
    }

    method ForgetAll(expired: seq<string>, ghost txs: Index, ghost accounts: Accounts,
                     ghost order: seq<Transaction>) returns (ghost gone: set<string>)
      requires Swept(txs, accounts, order, {})
      requires Distinct(expired) && forall k :: 0 <= k < |expired| ==> expired[k] in txs
      modifies `transactions, `byAccount, `byPriority, `totalSize, `totalRemoved
      ensures (forall id :: id in gone <==> id in expired) && |gone| == |expired|
      ensures Swept(txs, accounts, order, gone)
      ensures totalRemoved == old(totalRemoved) + |expired|
    {
      hide Swept;
      gone := {};
      for i := 0 to |expired|
        invariant (forall id :: id in gone <==> id in expired[..i]) && |gone| == i
        invariant Swept(txs, accounts, order, gone)
        invariant totalRemoved == old(totalRemoved) + i
      {
        assert expired[..i + 1] == expired[..i] + [expired[i]];
        ForgetNext(expired[i], txs, accounts, order, gone);
        gone := gone + {expired[i]};
      }
      assert expired[..|expired|] == expired;
    }

    method Prune()
      modifies `byAccount
      ensures byAccount == Unemptied(old(byAccount))
    {
      var rest := byAccount.Keys;
      ghost var before := byAccount;
      while rest != {}
        invariant rest <= before.Keys && rest <= byAccount.Keys
        invariant byAccount == map a | a in before && (a in rest || before[a] != []) :: before[a]
        decreases |rest|
      {
        var a :| a in rest;
        if |byAccount[a]| == 0 {
          byAccount := byAccount - {a};
        }
        rest := rest - {a};
      }
    }

    method Cleanup(now: int)
      requires Valid()
      modifies `transactions, `byAccount, `byPriority, `totalSize, `totalRemoved
      ensures Valid()
      ensures var gone := Expired(old(transactions), config.ttl, now);
              transactions == old(transactions) - gone
              && byPriority == Keep(old(byPriority), gone)
              && byAccount == KeptLists(old(byAccount), gone)
              && totalRemoved == old(totalRemoved) + |gone|
      ensures forall id :: id in transactions <==>
                           id in old(transactions) && now - old(transactions)[id].receivedAt <= config.ttl
    {
      hide Swept, Keep, SumSizes, Permutes, Keyed, Descending, Partitions, Positive, WithinLimits;
      ghost var txs, accounts, order := transactions, byAccount, byPriority;
      StartSweep();
      var expired := CollectExpired(now);
      assert forall k :: 0 <= k < |expired| ==> expired[k] in expired;
      ghost var gone := ForgetAll(expired, txs, accounts, order);
      assert gone == Expired(txs, config.ttl, now);
      KeptWithinLimits(config, txs, accounts, order, gone);
      SweptLists(txs, accounts, order, gone);
      Prune();
    }

    lemma SweptLists(txs: Index, accounts: Accounts,
                     order: seq<Transaction>, gone: set<string>)
      requires Swept(txs, accounts, order, gone)
      ensures Keyed(transactions) && Permutes(transactions, byPriority)
      ensures Partitions(transactions, Unemptied(byAccount))
      ensures Descending(byPriority) && totalSize == SumSizes(byPriority) % U64
      ensures transactions == txs - gone && byPriority == Keep(order, gone)
      ensures Unemptied(byAccount) == KeptLists(accounts, gone)
    {
      hide Keep, SumSizes, Permutes, Keyed, Descending;
      KeptPartitions(transactions, byAccount, accounts, gone);
    }

    method Flush()
      requires Valid()
      modifies `transactions, `byAccount, `byPriority, `totalSize
      ensures Valid() && transactions == map[] && byAccount == map[] && byPriority == [] && totalSize == 0
    {
      hide Keyed, Permutes, Partitions, SumSizes, Positive, WithinLimits;
      EmptyIndexes(config);
      transactions := map[];
      byAccount := map[];
      byPriority := [];
      totalSize := 0;
    }

    /** The library sort's contract, with insertion standing in for its algorithm. */
    method SortByPriority(s: seq<Transaction>) returns (r: seq<Transaction>)
      ensures multiset(r) == multiset(s) && Descending(r)
    {
      r := [];
      for k := 0 to |s|
        invariant multiset(r) == multiset(s[..k]) && Descending(r)
      {
        var i := SearchBelow(r, s[k].priority);
        assert s[..k + 1] == s[..k] + [s[k]];
        InsertSorts(r, i, s[k]);
        r := Inserted(r, i, s[k]);
      }
      assert s[..|s|] == s;
    }

    lemma InsertSorts(r: seq<Transaction>, i: nat, t: Transaction)
      requires Descending(r) && i <= |r|
      requires forall k :: 0 <= k < i ==> r[k].priority >= t.priority
      requires forall k :: i <= k < |r| ==> r[k].priority < t.priority
      ensures Descending(Inserted(r, i, t)) && multiset(Inserted(r, i, t)) == multiset(r) + multiset{t}
    {
      assert r == r[..i] + r[i..];
    }

    method Reprice(boost: Transaction -> nat)
      requires Indexed() && (config.enablePriority ==> Positive(byPriority))
      modifies byPriority`priority
      ensures forall k :: 0 <= k < |byPriority| ==> PricedBy(byPriority[k], boost)
    {
      hide Positive, Priority;
      var rest := transactions.Keys;
      while rest != {}
        invariant rest <= transactions.Keys
        invariant forall id :: id in transactions && id !in rest ==> PricedBy(transactions[id], boost)
        decreases |rest|
      {
        var id :| id in rest;
        var tx := transactions[id];
        StoredPositive(id);
        tx.priority := Priority(tx, boost);
        rest := rest - {id};
      }
    }

    /** No division by zero can happen: with priorities enabled every stored size is positive. */
    method UpdatePriorities(boost: Transaction -> nat)
      requires Valid()
      modifies `byPriority, byPriority`priority
      ensures Valid() && multiset(byPriority) == multiset(old(byPriority))
      ensures forall k :: 0 <= k < |byPriority| ==> PricedBy(byPriority[k], boost)
    {
      hide Descending, SumSizes, Partitions, WithinLimits, Permutes, Positive, Priority;
      Reprice(boost);
      ghost var order := byPriority;
      byPriority := SortByPriority(byPriority);
      PermutesAny(transactions, order, byPriority);
      SumAny(order, byPriority);
      AnyPositive(order, byPriority);
      forall k | 0 <= k < |byPriority|
        ensures PricedBy(byPriority[k], boost)
      {
        assert byPriority[k] in multiset(order);
      }
    }

    ghost predicate PricedBy(tx: Transaction, boost: Transaction -> nat)
      reads tx`priority
    {
      (config.enablePriority ==> tx.size > 0) && tx.priority == Priority(tx, boost)
    }

    lemma StoredPositive(id: string)
      requires Permutes(transactions, byPriority) && id in transactions
      requires config.enablePriority ==> Positive(byPriority)
      ensures transactions[id] in byPriority
      ensures config.enablePriority ==> transactions[id].size > 0
    {
    }

    method GetTopTransactions(count: int) returns (top: seq<Transaction>)
      requires Valid()
      ensures |top| == if count <= 0 then 0 else if count < |transactions| then count else |transactions|
      ensures |top| <= |byPriority| && top == byPriority[..|top|]
      ensures forall t :: t in top ==> t.id in transactions && transactions[t.id] == t
      ensures forall t, id :: t in top && id in transactions && transactions[id] !in top ==>
                t.priority >= transactions[id].priority
    {
      hide Permutes, Keyed, Partitions, SumSizes, Positive, WithinLimits, Descending;
      if count <= 0 {
        return [];
      }
      var n := count;
      if n > |byPriority| {
        n := |byPriority|;
      }
      top := byPriority[..n];
      SameCount(transactions, byPriority);
      OmittedRanksLower(n);
    }

    lemma OmittedRanksLower(n: nat)
      requires Permutes(transactions, byPriority) && Descending(byPriority) && n <= |byPriority|
      ensures forall t :: t in byPriority[..n] ==> t.id in transactions && transactions[t.id] == t
      ensures forall t, id :: t in byPriority[..n] && id in transactions && transactions[id] !in byPriority[..n] ==>
                t.priority >= transactions[id].priority
    {
      var top := byPriority[..n];
      assert forall k :: 0 <= k < n ==> top[k] == byPriority[k] && byPriority[k] in top;
      forall t, id | t in top && id in transactions && transactions[id] !in top
        ensures t.priority >= transactions[id].priority
      {
        var i :| 0 <= i < n && top[i] == t;
        var j :| 0 <= j < |byPriority| && byPriority[j] == transactions[id];
      }
    }
  }

  function Unemptied(accounts: Accounts): Accounts
  {
    map a | a in accounts && accounts[a] != [] :: accounts[a]
  }

  /** The account lists without the given identifiers, empty lists and all. */
  ghost predicate KeepsEach(accounts: Accounts, before: Accounts, gone: set<string>)
  {
    accounts.Keys == before.Keys && forall a :: a in before ==> accounts[a] == Keep(before[a], gone)
  }

  lemma StartKeeping(order: seq<Transaction>, accounts: Accounts)
    ensures order == Keep(order, {}) && KeepsEach(accounts, accounts, {})
  {
    KeepNone(order);
    forall a | a in accounts
      ensures accounts[a] == Keep(accounts[a], {})
    {
      KeepNone(accounts[a]);
    }
  }

  lemma {:induction false} KeepStep(txs: Index, order: seq<Transaction>, before: Accounts,
                 accounts: Accounts, gone: set<string>, id: string)
    requires Keyed(txs) && Permutes(txs, order) && Partitions(txs, before) && KeepsEach(accounts, before, gone)
    requires id in txs && id !in gone
    ensures DropId(Keep(order, gone), id) == Keep(order, gone + {id})
    ensures var from := txs[id].from;
            from in accounts && KeepsEach(accounts[from := DropId(accounts[from], id)], before, gone + {id})
  {
    hide Keep, DropId;
    var from := txs[id].from;
    KeepOneLess(txs, order, gone, id);
    KeepOneLess(txs, before[from], gone, id);
    forall a | a in before && a != from
      ensures Keep(before[a], gone + {id}) == Keep(before[a], gone)
    {
      KeepAbsent(before[a], gone, id);
    }
  }

  lemma {:induction false} KeepShorter(s: seq<Transaction>, gone: set<string>)
    ensures |Keep(s, gone)| <= |s| && (Positive(s) ==> Positive(Keep(s, gone)))
  {
    if s != [] {
      KeepShorter(s[1..], gone);
    }
  }

  lemma KeptWithinLimits(config: Config, txs: Index, accounts: Accounts,
                         order: seq<Transaction>, gone: set<string>)
    requires WithinLimits(config, txs, accounts)
    ensures WithinLimits(config, txs - gone, KeptLists(accounts, gone))
    ensures Positive(order) ==> Positive(Keep(order, gone))
  {
    hide Keep;
    KeepShorter(order, gone);
    forall a | a in accounts
      ensures |Keep(accounts[a], gone)| <= |accounts[a]|
    {
      KeepShorter(accounts[a], gone);
    }
    assert (txs - gone).Keys == txs.Keys - gone;
    FewerKeys(txs, gone);
  }

  lemma FewerKeys(txs: Index, gone: set<string>)
    ensures |txs - gone| <= |txs|
  {
    assert (txs - gone).Keys == txs.Keys - gone;
    assert |txs.Keys| == |txs| && |(txs - gone).Keys| == |txs - gone|;
    assert txs.Keys == (txs.Keys - gone) + (txs.Keys * gone);
  }

  lemma KeptPartitions(txs: Index, accounts: Accounts,
                       before: Accounts, gone: set<string>)
    requires Partitions(txs, accounts) && KeepsEach(accounts, before, gone)
    ensures Partitions(txs, Unemptied(accounts)) && Unemptied(accounts) == KeptLists(before, gone)
  {
  }
}
