/** Transaction results, their canonical order and the Merkle commitments of a block
    (engine/state/receipt.go), with SHA-256 and the wire encoding as unknown functions. */
module Receipts {
  import opened Bytes
  import opened Common
  import opened Merkle

  type Digest = seq<byte>
  type Sha = seq<byte> -> Digest

  function Filled(b: byte, n: nat): (z: Digest)
    ensures |z| == n && forall k :: 0 <= k < n ==> z[k] == b
  {
    if n == 0 then [] else [b] + Filled(b, n - 1)
  }

  /** The root of the empty list. */
  const ZERO_HASH: Digest := Filled(0, 32)

  /** The hash of two concatenated digests. */
  function Pair(sha: Sha): PairHash<Digest>
  {
    (left, right) => sha(left + right)
  }

  function ListRoot(sha: Sha, hashes: seq<Digest>): Digest
  {
    if hashes == [] then ZERO_HASH else TreeRoot(Pair(sha), hashes)
  }

  // ---------- Root, proof, check ----------

  method MerkleRoot(sha: Sha, hashes: seq<Digest>) returns (root: Digest, ghost passes: nat)
    ensures root == ListRoot(sha, hashes) && passes == Depth(|hashes|)
  {
    passes := 0;
    if |hashes| == 0 {
      return ZERO_HASH, 0;
    }
    RootIsTreeRoot(Pair(sha), hashes);
    if |hashes| == 1 {
      return hashes[0], 0;
    }
    var nodes := hashes;
    while |nodes| > 1
      invariant passes + Depth(|nodes|) == Depth(|hashes|)
      invariant nodes != [] && Root(Pair(sha), nodes) == Root(Pair(sha), hashes)
      decreases |nodes|
    {
      var nextLevel := [];
      var i := 0;
      while i < |nodes|
        invariant 0 <= i <= |nodes| + 1 && i % 2 == 0
        invariant |nextLevel| == if i <= |nodes| then i / 2 else (|nodes| + 1) / 2
        invariant forall k :: 0 <= k < |nextLevel| ==> nextLevel[k] == Parent(Pair(sha), nodes, k)
      {
        if i + 1 < |nodes| {
          var left, right := nodes[i], nodes[i + 1];
          nextLevel := nextLevel + [sha(left + right)];
        } else {
          nextLevel := nextLevel + [nodes[i]];
        }
        i := i + 2;
      }
      assert nextLevel == NextLevel(Pair(sha), nodes);
      nodes := nextLevel;
      passes := passes + 1;
    }
    root := nodes[0];
  }

  method GenerateMerkleProof(sha: Sha, hashes: seq<Digest>, index: nat) returns (proof: seq<Digest>)
    requires index < |hashes|
    ensures proof == Proof(Pair(sha), hashes, index)
  {
    hide Proof;
    if |hashes| <= 1 {
      LeafProof(Pair(sha), hashes, index);
      return [];
    }
    proof := [];
    var nodes := hashes;
    var currentIndex: nat := index;
    while |nodes| > 1
      invariant currentIndex < |nodes|
      invariant proof + Proof(Pair(sha), nodes, currentIndex) == Proof(Pair(sha), hashes, index)
      decreases |nodes|
    {
      ghost var before := proof;
      UnfoldLevel(Pair(sha), nodes, currentIndex);
      var nextLevel := [];
      var nextIndex := currentIndex / 2;
      var i := 0;
      while i < |nodes|
        invariant 0 <= i <= |nodes| + 1 && i % 2 == 0
        invariant |nextLevel| == if i <= |nodes| then i / 2 else (|nodes| + 1) / 2
        invariant forall k :: 0 <= k < |nextLevel| ==> nextLevel[k] == Parent(Pair(sha), nodes, k)
        invariant proof == if currentIndex < i then before + Sibling(nodes, currentIndex) else before
      {
        if i + 1 < |nodes| {
          var left, right := nodes[i], nodes[i + 1];
          if i == currentIndex || i + 1 == currentIndex {
            if i == currentIndex {
              proof := proof + [right];
            } else {
              proof := proof + [left];
            }
          }
          nextLevel := nextLevel + [sha(left + right)];
        } else {
          nextLevel := nextLevel + [nodes[i]];
        }
        i := i + 2;
      }
      assert nextLevel == NextLevel(Pair(sha), nodes);
      nodes := nextLevel;
      currentIndex := nextIndex;
    }
    LeafProof(Pair(sha), nodes, currentIndex);
  }

  lemma LeafProof<D>(h: PairHash<D>, nodes: seq<D>, i: nat)
    requires i < |nodes| == 1
    ensures Proof(h, nodes, i) == []
  {
  }

  method VerifyMerkleProof(sha: Sha, leafHash: Digest, proof: seq<Digest>, index: nat) returns (root: Digest)
    ensures root == Check(Pair(sha), leafHash, proof, index)
  {
    var currentHash, currentIndex: nat := leafHash, index;
    assert proof[0..] == proof;
    for n := 0 to |proof|
      invariant Check(Pair(sha), currentHash, proof[n..], currentIndex) == Check(Pair(sha), leafHash, proof, index)
    {
      var sibling := proof[n];
      assert proof[n..][1..] == proof[n + 1..];
      if currentIndex % 2 == 0 {
        currentHash := sha(currentHash + sibling);
      } else {
        currentHash := sha(sibling + currentHash);
      }
      currentIndex := currentIndex / 2;
    }
    root := currentHash;
  }

  function FirstIndex(x: Digest, s: seq<Digest>): (i: nat)
    requires x in s
    ensures i < |s| && s[i] == x && forall k :: 0 <= k < i ==> s[k] != x
  {
    if s[0] == x then 0 else 1 + FirstIndex(x, s[1..])
  }

  /** What lookup, generator and checker answer together. */
  predicate Accepts(sha: Sha, txHash: Digest, txsRoot: Digest, all: seq<Digest>)
  {
    txHash in all &&
    Check(Pair(sha), txHash, Proof(Pair(sha), all, FirstIndex(txHash, all)), FirstIndex(txHash, all)) == txsRoot
  }

  method VerifyTxInclusion(sha: Sha, txHash: Digest, txsRoot: Digest, allTxHashes: seq<Digest>)
    returns (proof: seq<Digest>, ok: bool)
    ensures ok <==> Accepts(sha, txHash, txsRoot, allTxHashes)
    ensures txHash !in allTxHashes ==> proof == []
    ensures txHash in allTxHashes ==> proof == Proof(Pair(sha), allTxHashes, FirstIndex(txHash, allTxHashes))
  {
    var txIndex := -1;
    for i := 0 to |allTxHashes|
      invariant txIndex == -1 && forall k :: 0 <= k < i ==> allTxHashes[k] != txHash
    {
      if allTxHashes[i] == txHash {
        txIndex := i;
        break;
      }
    }
    if txIndex == -1 {
      return [], false;
    }
    assert txIndex == FirstIndex(txHash, allTxHashes);
    proof := GenerateMerkleProof(sha, allTxHashes, txIndex);
    var computedRoot := VerifyMerkleProof(sha, txHash, proof, txIndex);
    ok := computedRoot == txsRoot;
  }

  lemma AcceptsUnfold(sha: Sha, txHash: Digest, all: seq<Digest>)
    requires txHash in all
    ensures var i := FirstIndex(txHash, all);
            Accepts(sha, txHash, ListRoot(sha, all), all) <==>
            Check(Pair(sha), all[i], Proof(Pair(sha), all, i), i) == Root(Pair(sha), all)
  {
    hide Check, Proof, Root, Tree;
    RootIsTreeRoot(Pair(sha), all);
  }

  /** An included hash whose path meets no promotion is accepted, whatever the hash function. */
  lemma PromotionFreeAccepts(sha: Sha, txHash: Digest, all: seq<Digest>)
    requires txHash in all && Promotions(|all|, FirstIndex(txHash, all)) == 0
    ensures Accepts(sha, txHash, ListRoot(sha, all), all)
  {
    hide *;
    AcceptsUnfold(sha, txHash, all);
    PromotionFreeChecks(Pair(sha), all, FirstIndex(txHash, all));
  }

  /** Against the true root, an included hash is accepted exactly when its path meets no promotion. */
  lemma {:induction false} InclusionBoundary(sha: Sha, txHash: Digest, all: seq<Digest>)
    requires txHash in all && Ideal(Pair(sha), all, FirstIndex(txHash, all))
    ensures Accepts(sha, txHash, ListRoot(sha, all), all) <==> Promotions(|all|, FirstIndex(txHash, all)) == 0
  {
    hide *;
    AcceptsUnfold(sha, txHash, all);
    CheckBoundary(Pair(sha), all, FirstIndex(txHash, all));
  }

  /** A power-of-two block: every included hash is accepted, whatever the hash function does. */
  lemma PowerOfTwoBlocksAccept(sha: Sha, txHash: Digest, all: seq<Digest>, d: nat)
    requires txHash in all && |all| == Pow2(d)
    ensures Accepts(sha, txHash, ListRoot(sha, all), all)
  {
    hide *;
    PowerOfTwoPromotesNone(d, FirstIndex(txHash, all));
    PromotionFreeAccepts(sha, txHash, all);
  }

  // ---------- The boundary's premises can be met, and the 3-leaf counterexample ----------

  /** The free pair hash: an inner digest records the two digests it was made from. */
  datatype Term = Leaf(id: nat) | Inner(left: Term, right: Term)

  function FreeHash(): PairHash<Term>
  {
    (left, right) => Inner(left, right)
  }

  lemma FreeHashIsIdeal(leaves: seq<Term>, i: nat)
    requires i < |leaves| && forall k :: 0 <= k < |leaves| ==> leaves[k].Leaf?
    ensures Ideal(FreeHash(), leaves, i)
  {
    hide RunQueries;
  }

  /** Three leaves, the last of them checked: it is accepted only if the hash cannot tell the two
      orders of the last pair apart. */
  lemma ThreeLeavesRejectTheLast(sha: Sha, a: Digest, b: Digest, c: Digest)
    requires c != a && c != b
    ensures Accepts(sha, c, ListRoot(sha, [a, b, c]), [a, b, c]) <==> sha(c + sha(a + b)) == sha(sha(a + b) + c)
  {
    hide Check, Proof, Root, Accepts, ListRoot;
    ThreeLeaves(Pair(sha), a, b, c);
    assert [a, b, c][2] == c;
    assert FirstIndex(c, [a, b, c]) == 2;
    AcceptsUnfold(sha, c, [a, b, c]);
  }

  /** The boundary's premises at the bytes: three 32-byte leaves and a hash with 32-byte values
      that is ideal on the run, and so rejects the last leaf. */
  function SampleLeaves(): seq<Digest>
  {
    [Filled(0, 32), Filled(1, 32), Filled(2, 32)]
  }

  function SampleHash(): Sha
  {
    var a, b, c, ab := Filled(0, 32), Filled(1, 32), Filled(2, 32), Filled(3, 32);
    s => if s == a + b then ab else if s == ab + c then Filled(4, 32) else if s == c + ab then Filled(5, 32)
         else Filled(6, 32)
  }

  lemma SampleValues()
    ensures forall s :: |SampleHash()(s)| == 32
    ensures var sha, a, b, c := SampleHash(), Filled(0, 32), Filled(1, 32), Filled(2, 32);
            sha(a + b) == Filled(3, 32) && sha(Filled(3, 32) + c) == Filled(4, 32) && sha(c + Filled(3, 32)) == Filled(5, 32)
    ensures forall x: byte, y: byte :: Filled(x, 32) == Filled(y, 32) <==> x == y
  {
    hide Filled;
    var a, b, c, ab := Filled(0, 32), Filled(1, 32), Filled(2, 32), Filled(3, 32);
    assert (a + b)[0] == 0 && (ab + c)[0] == 3 && (c + ab)[0] == 2;
    forall x: byte, y: byte
      ensures Filled(x, 32) == Filled(y, 32) <==> x == y
    {
      assert Filled(x, 32)[0] == x && Filled(y, 32)[0] == y;
    }
  }

  lemma SampleIsIdeal()
    ensures forall s :: |SampleHash()(s)| == 32
    ensures Ideal(Pair(SampleHash()), SampleLeaves(), 2)
    ensures var leaves := SampleLeaves();
            leaves[2] in leaves && !Accepts(SampleHash(), leaves[2], ListRoot(SampleHash(), leaves), leaves)
  {
    hide Check, Proof, Root, Accepts, ListRoot, RunQueries, Filled, SampleHash;
    var sha, a, b, c := SampleHash(), Filled(0, 32), Filled(1, 32), Filled(2, 32);
    SampleValues();
    ThreeLeaves(Pair(sha), a, b, c);
    ThreeLeavesRejectTheLast(sha, a, b, c);
  }

  // ---------- What acceptance proves ----------

  /** Against the root of any non-empty list, only a hash in that list is accepted, whatever list
      the proof is generated from. */
  lemma AcceptedIsIncluded(sha: Sha, txHash: Digest, xs: seq<Digest>, all: seq<Digest>, queries: Pairs<Digest>)
    requires xs != [] && Accepts(sha, txHash, ListRoot(sha, xs), all)
    requires var i := FirstIndex(txHash, all);
             IdealFor(Pair(sha), txHash, Proof(Pair(sha), all, i), i, xs, 0, |xs|, queries)
    ensures txHash in xs
  {
    hide Check, Proof, Tree, IdealFor, FirstIndex;
    var i := FirstIndex(txHash, all);
    CheckSound(Pair(sha), txHash, Proof(Pair(sha), all, i), i, xs, 0, |xs|, queries);
    assert xs[0..|xs|] == xs;
  }

  /** The empty list's root is no exception to the digest format, 32 zero bytes, and so accepts the
      zero hash. */
  lemma EmptyRootAcceptsZero(sha: Sha)
    ensures Accepts(sha, ZERO_HASH, ListRoot(sha, []), [ZERO_HASH])
    ensures |ListRoot(sha, [])| == 32 && forall k :: 0 <= k < 32 ==> ListRoot(sha, [])[k] == 0
  {
    LeafProof(Pair(sha), [ZERO_HASH], 0);
  }

  // ---------- Depth ----------

  method CalculateMerkleDepth(leaves: int) returns (depth: nat)
    ensures leaves < 1 ==> depth == 0
    ensures leaves >= 1 ==> depth == Depth(leaves) && forall d: nat :: leaves <= Pow2(d) <==> depth <= d
  {
    if leaves >= 1 {
      forall d: nat
        ensures leaves <= Pow2(d) <==> Depth(leaves) <= d
      {
        DepthIsLeast(leaves, d);
      }
    }
    if leaves <= 1 {
      return 0;
    }
    depth := 0;
    var n := leaves;
    while n > 1
      invariant n >= 1 && depth + Depth(n) == Depth(leaves)
    {
      n := (n + 1) / 2;
      depth := depth + 1;
    }
  }

  // ---------- Canonical order ----------

  datatype TxResult = TxResult(txHash: Digest, gasUsed: nat, result: seq<byte>, error: seq<byte>)

  type Marshal = TxResult -> seq<byte>

  function Hashes(results: seq<TxResult>): (hashes: seq<Digest>)
    ensures |hashes| == |results| && forall k :: 0 <= k < |results| ==> hashes[k] == results[k].txHash
  {
    if results == [] then [] else [results[0].txHash] + Hashes(results[1..])
  }

  function ResultHashes(sha: Sha, marshal: Marshal, results: seq<TxResult>): (hashes: seq<Digest>)
    ensures |hashes| == |results| && forall k :: 0 <= k < |results| ==> hashes[k] == sha(marshal(results[k]))
  {
    if results == [] then [] else [sha(marshal(results[0]))] + ResultHashes(sha, marshal, results[1..])
  }

  /** In order of transaction hash, equal hashes in any order. */
  predicate SortedByHash(results: seq<TxResult>)
  {
    forall i, j :: 0 <= i < j < |results| ==> !Less(results[j].txHash, results[i].txHash)
  }

  lemma NotLessTransitive(a: Digest, b: Digest, c: Digest)
    requires !Less(b, a) && !Less(c, b)
    ensures !Less(c, a)
  {
    LessTrichotomy(b, a);
    LessTrichotomy(c, b);
    if Less(c, a) {
      if a == b || b == c {
      } else {
        LessTransitive(a, b, c);
        LessTrichotomy(a, c);
      }
    }
  }

  /** Moves element i down to its place among the sorted elements before it. */
  method Insert(results: array<TxResult>, i: nat)
    requires i < results.Length && SortedByHash(results[..i])
    modifies results
    ensures SortedByHash(results[..i + 1])
    ensures multiset(results[..]) == multiset(old(results[..]))
    ensures results[i + 1..] == old(results[i + 1..])
  {
    hide SortedByHash, SortedBut;
    var j := i;
    assert results[..i + 1][..i] == results[..i];
    StartSorted(results[..i + 1], i);
    while j > 0
      invariant 0 <= j <= i && SortedBut(results[..i + 1], j)
      invariant multiset(results[..]) == multiset(old(results[..]))
      invariant results[i + 1..] == old(results[i + 1..])
    {
      ghost var before := results[..i + 1];
      var swap := Compare(results[j].txHash, results[j - 1].txHash);
      if !swap {
        break;
      }
      MoveDown(before, j);
      results[j], results[j - 1] := results[j - 1], results[j];
      assert results[..i + 1] == before[j := before[j - 1]][j - 1 := before[j]];
      j := j - 1;
    }
    InPlace(results[..i + 1], j);
  }

  /** Sorted, but for element j, which may still belong further down. */
  ghost predicate SortedBut(s: seq<TxResult>, j: nat)
  {
    forall p, q :: 0 <= p < q < |s| && q != j ==> !Less(s[q].txHash, s[p].txHash)
  }

  lemma StartSorted(s: seq<TxResult>, i: nat)
    requires |s| == i + 1 && SortedByHash(s[..i])
    ensures SortedBut(s, i)
  {
    hide Less;
    forall p, q | 0 <= p < q < i
      ensures !Less(s[q].txHash, s[p].txHash)
    {
      assert s[..i][p] == s[p] && s[..i][q] == s[q];
    }
  }

  lemma MoveDown(s: seq<TxResult>, j: nat)
    requires 0 < j < |s| && SortedBut(s, j) && Less(s[j].txHash, s[j - 1].txHash)
    ensures SortedBut(s[j := s[j - 1]][j - 1 := s[j]], j - 1)
  {
    hide Less;
    LessTrichotomy(s[j].txHash, s[j - 1].txHash);
    var t := s[j := s[j - 1]][j - 1 := s[j]];
    forall p, q | 0 <= p < q < |t| && q != j - 1
      ensures !Less(t[q].txHash, t[p].txHash)
    {
      var a := if p == j - 1 then j else if p == j then j - 1 else p;
      var b := if q == j then j - 1 else q;
      assert t[p] == s[a] && t[q] == s[b];
    }
  }

  lemma InPlace(s: seq<TxResult>, j: nat)
    requires j < |s| && SortedBut(s, j) && (j == 0 || !Less(s[j].txHash, s[j - 1].txHash))
    ensures SortedByHash(s)
  {
    hide Less;
    forall p, q | 0 <= p < q < |s|
      ensures !Less(s[q].txHash, s[p].txHash)
    {
      if q == j && p < j - 1 {
        NotLessTransitive(s[p].txHash, s[j - 1].txHash, s[j].txHash);
      }
    }
  }

  /** The library sort's contract, with insertion standing in for its algorithm. */
  method SortTxResults(results: array<TxResult>)
    modifies results
    ensures SortedByHash(results[..])
    ensures multiset(results[..]) == multiset(old(results[..]))
  {
    hide SortedByHash;
    EmptySorted();
    assert results[..0] == [];
    for i := 0 to results.Length
      invariant SortedByHash(results[..i])
      invariant multiset(results[..]) == multiset(old(results[..]))
    {
      Insert(results, i);
    }
    assert results[..results.Length] == results[..];
  }

  lemma EmptySorted()
    ensures SortedByHash([])
  {
  }

  method ComputeTxsRoot(sha: Sha, results: seq<TxResult>) returns (root: Digest)
    ensures root == ListRoot(sha, Hashes(results))
  {
    if |results| == 0 {
      return ZERO_HASH;
    }
    var hashes := [];
    for k := 0 to |results|
      invariant |hashes| == k && forall j :: 0 <= j < k ==> hashes[j] == results[j].txHash
    {
      hashes := hashes + [results[k].txHash];
    }
    assert hashes == Hashes(results);
    ghost var passes;
    root, passes := MerkleRoot(sha, hashes);
  }

  method ComputeResultsRoot(sha: Sha, marshal: Marshal, results: seq<TxResult>) returns (root: Digest)
    ensures root == ListRoot(sha, ResultHashes(sha, marshal, results))
  {
    if |results| == 0 {
      return ZERO_HASH;
    }
    var hashes := [];
    for k := 0 to |results|
      invariant |hashes| == k && forall j :: 0 <= j < k ==> hashes[j] == sha(marshal(results[j]))
    {
      hashes := hashes + [sha(marshal(results[k]))];
    }
    assert hashes == ResultHashes(sha, marshal, results);
    ghost var passes;
    root, passes := MerkleRoot(sha, hashes);
  }

  /** Sort in place, then commit: the roots a formal block carries. */
  method BlockRoots(sha: Sha, marshal: Marshal, results: array<TxResult>) returns (txsRoot: Digest, resultsRoot: Digest)
    modifies results
    ensures SortedByHash(results[..]) && multiset(results[..]) == multiset(old(results[..]))
    ensures txsRoot == ListRoot(sha, Hashes(results[..]))
    ensures resultsRoot == ListRoot(sha, ResultHashes(sha, marshal, results[..]))
  {
    SortTxResults(results);
    txsRoot := ComputeTxsRoot(sha, results[..]);
    resultsRoot := ComputeResultsRoot(sha, marshal, results[..]);
  }

  function Without<T>(t: seq<T>, i: nat): seq<T>
    requires i < |t|
  {
    t[..i] + t[i + 1..]
  }

  lemma WithoutCounts<T>(t: seq<T>, i: nat)
    requires i < |t|
    ensures multiset(t) == multiset(Without(t, i)) + multiset{t[i]}
    ensures multiset(Without(t, i)) == multiset(t) - multiset{t[i]}
  {
    assert t == t[..i] + [t[i]] + t[i + 1..];
  }

  lemma {:induction false} HashesWithout(t: seq<TxResult>, i: nat)
    requires i < |t|
    ensures Hashes(Without(t, i)) == Without(Hashes(t), i)
    decreases i
  {
    hide Hashes;
    HashesUnfold(t);
    if i == 0 {
      assert Without(t, 0) == t[1..] && Without(Hashes(t), 0) == Hashes(t[1..]);
    } else {
      var u := Without(t, i);
      assert u[0] == t[0] && u[1..] == Without(t[1..], i - 1);
      HashesUnfold(u);
      HashesWithout(t[1..], i - 1);
      var rest := Hashes(t[1..]);
      assert Without([t[0].txHash] + rest, i) == [t[0].txHash] + Without(rest, i - 1);
    }
  }

  lemma HashesUnfold(t: seq<TxResult>)
    requires t != []
    ensures Hashes(t) == [t[0].txHash] + Hashes(t[1..])
  {
  }

  lemma {:induction false} HashesPermute(s: seq<TxResult>, t: seq<TxResult>)
    requires multiset(s) == multiset(t)
    ensures multiset(Hashes(s)) == multiset(Hashes(t))
    decreases |s|
  {
    hide *;
    if s == [] {
      assert |multiset(t)| == 0;
    } else {
      assert s[0] in multiset(t);
      var i :| 0 <= i < |t| && t[i] == s[0];
      WithoutCounts(s, 0);
      WithoutCounts(t, i);
      WithoutLength(s, 0);
      HashesPermute(Without(s, 0), Without(t, i));
      HashesWithout(s, 0);
      HashesWithout(t, i);
      WithoutCounts(Hashes(s), 0);
      WithoutCounts(Hashes(t), i);
    }
  }

  lemma WithoutLength<T>(t: seq<T>, i: nat)
    requires i < |t|
    ensures |Without(t, i)| < |t|
  {
  }

  /** The transactions root is the same for every order in which a block's results arrive, and
      so is the results root when no two results share a transaction hash. */
  lemma {:induction false} RootsIgnoreArrivalOrder(sha: Sha, marshal: Marshal, s: seq<TxResult>, t: seq<TxResult>)
    requires multiset(s) == multiset(t)
    requires SortedByHash(s) && SortedByHash(t)
    ensures ListRoot(sha, Hashes(s)) == ListRoot(sha, Hashes(t))
    ensures Distinct(Hashes(s)) ==> s == t
    ensures Distinct(Hashes(s)) ==>
              ListRoot(sha, ResultHashes(sha, marshal, s)) == ListRoot(sha, ResultHashes(sha, marshal, t))
  {
    HashesPermute(s, t);
    SortedUnique(Hashes(s), Hashes(t));
    if Distinct(Hashes(s)) {
      forall k | 0 <= k < |s|
        ensures s[k] == t[k]
      {
        assert s[k] in multiset(t);
        var j :| 0 <= j < |t| && t[j] == s[k];
        assert Hashes(t)[j] == Hashes(t)[k];
      }
    }
  }

  /** Distinct hashes are needed for the results root: two results for one transaction hash,
      both orders sorted, commit to different lists. */
  lemma SharedHashKeepsOrder(a: TxResult, b: TxResult)
    requires a.txHash == b.txHash
    ensures SortedByHash([a, b]) && SortedByHash([b, a]) && multiset([a, b]) == multiset([b, a])
    ensures forall sha: Sha, marshal: Marshal ::
              ResultHashes(sha, marshal, [a, b]) == ResultHashes(sha, marshal, [b, a]) <==>
              sha(marshal(a)) == sha(marshal(b))
  {
    LessTrichotomy(a.txHash, b.txHash);
    forall sha: Sha, marshal: Marshal
      ensures ResultHashes(sha, marshal, [a, b]) == ResultHashes(sha, marshal, [b, a]) <==>
              sha(marshal(a)) == sha(marshal(b))
    {
      assert ResultHashes(sha, marshal, [a, b])[0] == sha(marshal(a));
      assert ResultHashes(sha, marshal, [b, a])[0] == sha(marshal(b));
      assert ResultHashes(sha, marshal, [a, b])[1] == sha(marshal(b));
      assert ResultHashes(sha, marshal, [b, a])[1] == sha(marshal(a));
    }
  }
}
