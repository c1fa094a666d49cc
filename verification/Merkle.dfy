/** The Merkle commitment to a block's transactions and results: the level-by-level root
    builder, the proof generator and the proof checker, against a recursive tree. Digests
    are of any type D and `h` hashes a pair of them; module Receipts supplies SHA-256. */
module Merkle {

  type PairHash<!D> = (D, D) -> D
  type Pairs<D(==)> = set<(D, D)>

  // ---------- The recursive tree ----------

  /** The largest power of two strictly below n. */
  function Split(n: nat): (k: nat)
    requires n >= 2
    ensures 1 <= k < n <= 2 * k
  {
    if n == 2 then 1 else 2 * Split((n + 1) / 2)
  }

  function Pow2(d: nat): (p: nat)
    ensures p >= 1
  {
    if d == 0 then 1 else 2 * Pow2(d - 1)
  }

  function Depth(n: nat): nat
  {
    if n <= 1 then 0 else 1 + Depth((n + 1) / 2)
  }

  /** The root of leaves lo..lo+n, the shape of section 2.1 of RFC 6962 without its prefixes. */
  function Tree<D>(h: PairHash<D>, leaves: seq<D>, lo: nat, n: nat): D
    requires n > 0 && lo + n <= |leaves|
    decreases n
  {
    if n == 1 then leaves[lo]
    else h(Tree(h, leaves, lo, Split(n)), Tree(h, leaves, lo + Split(n), n - Split(n)))
  }

  function TreeRoot<D>(h: PairHash<D>, leaves: seq<D>): D
    requires leaves != []
  {
    Tree(h, leaves, 0, |leaves|)
  }

  /** The audit path of leaf lo+i among lo..lo+n, nearest sibling first. */
  function TreeProof<D>(h: PairHash<D>, leaves: seq<D>, lo: nat, n: nat, i: nat): seq<D>
    requires i < n && lo + n <= |leaves|
    decreases n
  {
    if n == 1 then []
    else if i < Split(n) then
      TreeProof(h, leaves, lo, Split(n), i) + [Tree(h, leaves, lo + Split(n), n - Split(n))]
    else
      TreeProof(h, leaves, lo + Split(n), n - Split(n), i - Split(n)) + [Tree(h, leaves, lo, Split(n))]
  }

  // ---------- The source's functions, level by level ----------

  function Parent<D>(h: PairHash<D>, nodes: seq<D>, k: nat): D
    requires 2 * k < |nodes|
  {
    if 2 * k + 1 < |nodes| then h(nodes[2 * k], nodes[2 * k + 1]) else nodes[2 * k]
  }

  /** Pairs hashed, an odd last node promoted unchanged. */
  function NextLevel<D>(h: PairHash<D>, nodes: seq<D>): (next: seq<D>)
    ensures |next| == (|nodes| + 1) / 2
    ensures forall k :: 0 <= k < |next| ==> next[k] == Parent(h, nodes, k)
  {
    seq((|nodes| + 1) / 2, k requires 0 <= 2 * k < |nodes| => Parent(h, nodes, k))
  }

  function Root<D>(h: PairHash<D>, nodes: seq<D>): D
    requires nodes != []
    decreases |nodes|
  {
    if |nodes| == 1 then nodes[0] else Root(h, NextLevel(h, nodes))
  }

  /** What one level contributes to the proof: the sibling, or nothing on promotion. */
  function Sibling<D>(nodes: seq<D>, i: nat): seq<D>
    requires i < |nodes|
  {
    if i % 2 == 1 then [nodes[i - 1]]
    else if i + 1 < |nodes| then [nodes[i + 1]]
    else []
  }

  function Proof<D>(h: PairHash<D>, nodes: seq<D>, i: nat): seq<D>
    requires i < |nodes|
    decreases |nodes|
  {
    if |nodes| == 1 then [] else Sibling(nodes, i) + Proof(h, NextLevel(h, nodes), i / 2)
  }

  /** One checker step: the parity of the remaining index says which side the proof entry is on. */
  function Ascend<D>(h: PairHash<D>, current: D, sibling: D, i: nat): D
  {
    if i % 2 == 0 then h(current, sibling) else h(sibling, current)
  }

  function Check<D>(h: PairHash<D>, leaf: D, proof: seq<D>, i: nat): D
    decreases |proof|
  {
    if proof == [] then leaf else Check(h, Ascend(h, leaf, proof[0], i), proof[1..], i / 2)
  }

  /** The number of levels at which the node on leaf i's path is an odd last one. */
  function Promotions(n: nat, i: nat): nat
    requires i < n
  {
    if n == 1 then 0
    else (if i == n - 1 && n % 2 == 1 then 1 else 0) + Promotions((n + 1) / 2, i / 2)
  }

  // ---------- The level passes build the recursive tree ----------

  lemma UnfoldTree<D>(h: PairHash<D>, leaves: seq<D>, lo: nat, n: nat)
    requires n > 1 && lo + n <= |leaves|
    ensures Tree(h, leaves, lo, n) == h(Tree(h, leaves, lo, Split(n)), Tree(h, leaves, lo + Split(n), n - Split(n)))
  {
  }

  lemma SplitHalves(n: nat, m: nat)
    requires m >= 2 && (n == 2 * m || n == 2 * m - 1)
    ensures Split(n) == 2 * Split(m)
  {
    assert (n + 1) / 2 == m;
  }

  lemma LevelLeaf<D>(h: PairHash<D>, nodes: seq<D>, lo: nat, n: nat)
    requires 2 * lo + n <= |nodes|
    requires n == 2 || (n == 1 && 2 * lo + n == |nodes|)
    ensures Tree(h, NextLevel(h, nodes), lo, 1) == Tree(h, nodes, 2 * lo, n)
  {
    assert NextLevel(h, nodes)[lo] == Parent(h, nodes, lo);
  }

  lemma {:induction false} LevelTree<D>(h: PairHash<D>, nodes: seq<D>, next: seq<D>, lo: nat, n: nat, m: nat)
    requires next == NextLevel(h, nodes)
    requires m > 0 && 2 * lo + n <= |nodes|
    requires n == 2 * m || (n == 2 * m - 1 && 2 * lo + n == |nodes|)
    ensures Tree(h, next, lo, m) == Tree(h, nodes, 2 * lo, n)
    decreases m
  {
    hide *;
    if m == 1 {
      LevelLeaf(h, nodes, lo, n);
    } else {
      SplitHalves(n, m);
      var k := Split(m);
      UnfoldTree(h, nodes, 2 * lo, n);
      UnfoldTree(h, next, lo, m);
      LevelTree(h, nodes, next, lo, 2 * k, k);
      LevelTree(h, nodes, next, lo + k, n - 2 * k, m - k);
      assert 2 * (lo + k) == 2 * lo + 2 * k;
    }
  }

  /** Every non-empty list: the pass-by-pass root is the root of the recursive tree. */
  lemma {:induction false} RootIsTreeRoot<D>(h: PairHash<D>, nodes: seq<D>)
    requires nodes != []
    ensures Root(h, nodes) == TreeRoot(h, nodes)
    decreases |nodes|
  {
    if |nodes| > 1 {
      var next := NextLevel(h, nodes);
      LevelTree(h, nodes, next, 0, |nodes|, |next|);
      RootIsTreeRoot(h, next);
    }
  }

  lemma UnfoldProof<D>(h: PairHash<D>, leaves: seq<D>, lo: nat, n: nat, i: nat)
    requires i < n && n > 1 && lo + n <= |leaves|
    ensures var k := Split(n);
            TreeProof(h, leaves, lo, n, i) ==
              if i < k then TreeProof(h, leaves, lo, k, i) + [Tree(h, leaves, lo + k, n - k)]
              else TreeProof(h, leaves, lo + k, n - k, i - k) + [Tree(h, leaves, lo, k)]
  {
  }

  lemma LevelLeafProof<D>(h: PairHash<D>, nodes: seq<D>, lo: nat, n: nat, i: nat)
    requires 2 * lo + n <= |nodes| && i < n
    requires n == 2 || (n == 1 && 2 * lo + n == |nodes|)
    ensures TreeProof(h, nodes, 2 * lo, n, i) ==
            Sibling(nodes, 2 * lo + i) + TreeProof(h, NextLevel(h, nodes), lo, 1, 0)
  {
  }

  lemma {:induction false} LevelProof<D>(h: PairHash<D>, nodes: seq<D>, next: seq<D>, lo: nat, n: nat, m: nat, i: nat)
    requires next == NextLevel(h, nodes)
    requires m > 0 && 2 * lo + n <= |nodes| && i < n
    requires n == 2 * m || (n == 2 * m - 1 && 2 * lo + n == |nodes|)
    ensures TreeProof(h, nodes, 2 * lo, n, i) ==
            Sibling(nodes, 2 * lo + i) + TreeProof(h, next, lo, m, i / 2)
    decreases m
  {
    hide *;
    if m == 1 {
      LevelLeafProof(h, nodes, lo, n, i);
    } else {
      SplitHalves(n, m);
      var k := Split(m);
      UnfoldProof(h, nodes, 2 * lo, n, i);
      UnfoldProof(h, next, lo, m, i / 2);
      assert 2 * (lo + k) == 2 * lo + 2 * k;
      if i < 2 * k {
        LevelTree(h, nodes, next, lo + k, n - 2 * k, m - k);
        LevelProof(h, nodes, next, lo, 2 * k, k, i);
      } else {
        LevelTree(h, nodes, next, lo, 2 * k, k);
        LevelProof(h, nodes, next, lo + k, n - 2 * k, m - k, i - 2 * k);
        assert (i - 2 * k) / 2 == i / 2 - k;
      }
    }
  }

  /** The generated proof is the audit path of the recursive tree. */
  lemma {:induction false} ProofIsTreeProof<D>(h: PairHash<D>, nodes: seq<D>, i: nat)
    requires i < |nodes|
    ensures Proof(h, nodes, i) == TreeProof(h, nodes, 0, |nodes|, i)
    decreases |nodes|
  {
    hide Proof, TreeProof, Tree, NextLevel, Sibling;
    UnfoldLevelProof(h, nodes, i);
    if |nodes| == 1 {
      ProofOfLeaf(h, nodes, 0);
    } else {
      var next := NextLevel(h, nodes);
      LevelProof(h, nodes, next, 0, |nodes|, |next|, i);
      ProofIsTreeProof(h, next, i / 2);
    }
  }

  // ---------- Depth and proof length ----------

  /** Depth(n) is the least d with n <= 2^d. */
  lemma {:induction false} DepthIsLeast(n: nat, d: nat)
    ensures n <= Pow2(d) <==> Depth(n) <= d
  {
    if n > 1 && d > 0 {
      DepthIsLeast((n + 1) / 2, d - 1);
    }
  }

  lemma {:induction false} DepthOfSplit(n: nat)
    requires n >= 2
    ensures Depth(n) >= 1 && Split(n) == Pow2(Depth(n) - 1)
    ensures Depth(Split(n)) == Depth(n) - 1
    ensures Depth(n - Split(n)) <= Depth(n) - 1
  {
    hide *;
    OneLeaf();
    UnfoldDepth(n);
    UnfoldDepth(Split(n));
    if n > 2 {
      DepthOfSplit((n + 1) / 2);
      Pow2Double(Depth(n) - 1);
    }
    DepthIsLeast(n, Depth(n));
    Pow2Double(Depth(n));
    DepthIsLeast(n - Split(n), Depth(n) - 1);
  }

  lemma UnfoldDepth(n: nat)
    ensures n == 1 ==> Depth(n) == 0
    ensures n >= 2 ==> Depth(n) == 1 + Depth((n + 1) / 2)
    ensures n == 2 ==> Split(n) == 1
    ensures n > 2 ==> Split(n) == 2 * Split((n + 1) / 2) && (Split(n) + 1) / 2 == Split((n + 1) / 2)
  {
  }

  lemma UnfoldLevel<D>(h: PairHash<D>, nodes: seq<D>, i: nat)
    requires i < |nodes| && |nodes| > 1
    ensures Proof(h, nodes, i) == Sibling(nodes, i) + Proof(h, NextLevel(h, nodes), i / 2)
  {
  }

  /** One proof entry per level pass, less one for each promotion on the path. */
  lemma {:induction false} ProofLength<D>(h: PairHash<D>, nodes: seq<D>, i: nat)
    requires i < |nodes|
    ensures |Proof(h, nodes, i)| + Promotions(|nodes|, i) == Depth(|nodes|)
    decreases |nodes|
  {
    hide Depth, Promotions, Proof, NextLevel;
    LevelLength(h, nodes, i);
    if |nodes| > 1 {
      ProofLength(h, NextLevel(h, nodes), i / 2);
    }
  }

  lemma {:induction false} LevelLength<D>(h: PairHash<D>, nodes: seq<D>, i: nat)
    requires i < |nodes|
    ensures |nodes| == 1 ==> Proof(h, nodes, i) == [] && Promotions(1, i) == 0 && Depth(1) == 0
    ensures |nodes| > 1 ==>
              var next := NextLevel(h, nodes);
              |next| == (|nodes| + 1) / 2 && i / 2 < |next| && Depth(|nodes|) == Depth(|next|) + 1
              && |Proof(h, nodes, i)| == |Sibling(nodes, i)| + |Proof(h, next, i / 2)|
              && Promotions(|nodes|, i) == 1 - |Sibling(nodes, i)| + Promotions(|next|, i / 2)
  {
    hide *;
    if |nodes| > 1 {
      UnfoldLevelProof(h, nodes, i);
      UnfoldDepth(|nodes|);
      PromotionsUnfold(|nodes|, i);
      SiblingOrPromotion(nodes, i);
    } else {
      UnfoldLevelProof(h, nodes, 0);
      OneLeaf();
    }
  }

  lemma UnfoldLevelProof<D>(h: PairHash<D>, nodes: seq<D>, i: nat)
    requires i < |nodes|
    ensures |nodes| == 1 ==> Proof(h, nodes, i) == []
    ensures |nodes| > 1 ==> i / 2 < |NextLevel(h, nodes)|
    ensures |nodes| > 1 ==> Proof(h, nodes, i) == Sibling(nodes, i) + Proof(h, NextLevel(h, nodes), i / 2)
  {
  }

  lemma SiblingOrPromotion<D>(nodes: seq<D>, i: nat)
    requires i < |nodes|
    ensures |Sibling(nodes, i)| == if i == |nodes| - 1 && |nodes| % 2 == 1 then 0 else 1
  {
  }

  lemma OneLeaf()
    ensures Promotions(1, 0) == 0 && Depth(1) == 0 && Pow2(0) == 1
  {
  }

  lemma PromotionsUnfold(n: nat, i: nat)
    requires i < n && n > 1
    ensures Promotions(n, i) ==
            (if i == n - 1 && n % 2 == 1 then 1 else 0) + Promotions((n + 1) / 2, i / 2)
  {
  }

  predicate PromotionFree(n: nat)
  {
    forall i :: 0 <= i < n ==> Promotions(n, i) == 0
  }

  lemma PromotionFreeDoubles(m: nat)
    requires m > 0
    ensures PromotionFree(2 * m) <==> PromotionFree(m)
  {
    if PromotionFree(m) {
      forall i | 0 <= i < 2 * m
        ensures Promotions(2 * m, i) == 0
      {
        PromotionsUnfold(2 * m, i);
      }
    }
    if PromotionFree(2 * m) {
      forall j | 0 <= j < m
        ensures Promotions(m, j) == 0
      {
        PromotionsUnfold(2 * m, 2 * j);
        assert Promotions(2 * m, 2 * j) == 0;
      }
    }
  }

  /** No leaf's path meets a promotion exactly when the leaf count is a power of two. */
  lemma {:induction false} PromotionFreeSizes(n: nat)
    requires n >= 1
    ensures PromotionFree(n) <==> n == Pow2(Depth(n))
  {
    hide Promotions, Depth, Pow2, PromotionFree;
    OneLeaf();
    if n > 1 {
      var m := (n + 1) / 2;
      PromotionFreeSizes(m);
      UnfoldDepth(n);
      Pow2Double(Depth(n));
      if n % 2 == 0 {
        PromotionFreeDoubles(m);
      } else {
        OddPromotes(n);
      }
    } else {
      OddPromotes(1);
    }
  }

  /** An odd count promotes its last leaf at once, unless it is the only one. */
  lemma OddPromotes(n: nat)
    requires n % 2 == 1
    ensures PromotionFree(n) <==> n == 1
  {
    hide Promotions;
    OneLeaf();
    if n > 1 {
      PromotionsUnfold(n, n - 1);
      assert Promotions(n, n - 1) > 0;
    }
  }

  lemma PowerOfTwoPromotesNone(d: nat, i: nat)
    requires i < Pow2(d)
    ensures Promotions(Pow2(d), i) == 0
  {
    hide Depth, Promotions, Pow2;
    var n := Pow2(d);
    DepthIsLeast(n, d);
    if d > 0 {
      Pow2Double(d);
      DepthIsLeast(n, d - 1);
    }
    PromotionFreeSizes(n);
  }

  // ---------- The checker's index arithmetic ----------

  /** The checker's index after p proof entries. */
  function Shift(i: nat, p: nat): nat
  {
    if p == 0 then i else Shift(i / 2, p - 1)
  }

  /** c and i have the same low d bits. */
  predicate Agree(c: nat, i: nat, d: nat)
  {
    d == 0 || (c % 2 == i % 2 && Agree(c / 2, i / 2, d - 1))
  }

  lemma {:induction false} AgreeReflexive(i: nat, d: nat)
    ensures Agree(i, i, d)
  {
    if d > 0 {
      AgreeReflexive(i / 2, d - 1);
    }
  }

  lemma {:induction false} AgreeShift(c: nat, i: nat, d: nat, p: nat)
    requires Agree(c, i, d) && p < d
    ensures Shift(c, p) % 2 == Shift(i, p) % 2
  {
    if p > 0 {
      AgreeShift(c / 2, i / 2, d - 1, p - 1);
    }
  }

  lemma {:induction false} AgreeDropsTop(c: nat, j: nat, e: nat, d: nat)
    requires Agree(c, Pow2(e) + j, e) && d <= e
    ensures Agree(c, j, d)
  {
    if d > 0 {
      assert (Pow2(e) + j) / 2 == Pow2(e - 1) + j / 2;
      AgreeDropsTop(c / 2, j / 2, e - 1, d - 1);
    }
  }

  lemma {:induction false} AgreePrefix(c: nat, i: nat, d: nat, e: nat)
    requires Agree(c, i, d) && e <= d
    ensures Agree(c, i, e)
  {
    if e > 0 {
      AgreePrefix(c / 2, i / 2, d - 1, e - 1);
    }
  }

  lemma {:induction false} ShiftSmall(i: nat, p: nat)
    requires i < Pow2(p)
    ensures Shift(i, p) == 0
  {
    if p > 0 {
      ShiftSmall(i / 2, p - 1);
    }
  }

  /** Bit p of 2^e + j, for j below 2^p, is set exactly when p is e. */
  lemma {:induction false} ShiftTop(j: nat, p: nat, e: nat)
    requires j < Pow2(p) && p <= e
    ensures Shift(Pow2(e) + j, p) % 2 == if p == e then 1 else 0
  {
    if p > 0 {
      assert (Pow2(e) + j) / 2 == Pow2(e - 1) + j / 2;
      ShiftTop(j / 2, p - 1, e - 1);
    }
  }

  // ---------- Which leaves the checker accepts ----------

  /** The pairs hashed while the root of lo..lo+n is built. */
  ghost function TreeQueries<D>(h: PairHash<D>, leaves: seq<D>, lo: nat, n: nat): Pairs<D>
    requires n > 0 && lo + n <= |leaves|
    decreases n
  {
    if n == 1 then {} else
      TreeQueries(h, leaves, lo, Split(n)) + TreeQueries(h, leaves, lo + Split(n), n - Split(n))
      + {(Tree(h, leaves, lo, Split(n)), Tree(h, leaves, lo + Split(n), n - Split(n)))}
  }

  ghost function Query<D>(current: D, sibling: D, i: nat): (D, D)
  {
    if i % 2 == 0 then (current, sibling) else (sibling, current)
  }

  /** The pairs hashed by the checker. */
  ghost function CheckQueries<D>(h: PairHash<D>, leaf: D, proof: seq<D>, i: nat): Pairs<D>
    decreases |proof|
  {
    if proof == [] then {}
    else {Query(leaf, proof[0], i)} + CheckQueries(h, Ascend(h, leaf, proof[0], i), proof[1..], i / 2)
  }

  /** No two different pairs among those given have the same hash. */
  ghost predicate CollisionFree<D>(h: PairHash<D>, queries: Pairs<D>)
  {
    forall p, q :: p in queries && q in queries && h(p.0, p.1) == h(q.0, q.1) ==> p == q
  }

  /** No leaf is also the hash of a pair met on the way. */
  ghost predicate NoLeafIsInner<D>(h: PairHash<D>, leaves: seq<D>, queries: Pairs<D>)
  {
    forall p :: p in queries ==> h(p.0, p.1) !in leaves
  }

  lemma UnfoldQueries<D>(h: PairHash<D>, leaves: seq<D>, lo: nat, n: nat)
    requires n > 1 && lo + n <= |leaves|
    ensures TreeQueries(h, leaves, lo, n) ==
            TreeQueries(h, leaves, lo, Split(n)) + TreeQueries(h, leaves, lo + Split(n), n - Split(n))
            + {(Tree(h, leaves, lo, Split(n)), Tree(h, leaves, lo + Split(n), n - Split(n)))}
  {
    hide Tree, Split;
  }

  lemma TreeIsHash<D>(h: PairHash<D>, leaves: seq<D>, lo: nat, n: nat) returns (p: (D, D))
    requires n > 1 && lo + n <= |leaves|
    ensures p in TreeQueries(h, leaves, lo, n)
    ensures Tree(h, leaves, lo, n) == h(p.0, p.1)
    ensures p == (Tree(h, leaves, lo, Split(n)), Tree(h, leaves, lo + Split(n), n - Split(n)))
  {
    hide Tree, TreeQueries, Split;
    p := (Tree(h, leaves, lo, Split(n)), Tree(h, leaves, lo + Split(n), n - Split(n)));
    UnfoldQueries(h, leaves, lo, n);
    UnfoldTree(h, leaves, lo, n);
  }

  lemma TreeLeaf<D>(h: PairHash<D>, leaves: seq<D>, lo: nat)
    requires lo < |leaves|
    ensures Tree(h, leaves, lo, 1) == leaves[lo] && leaves[lo] in leaves
  {
  }

  lemma InnerIsNoLeaf<D>(h: PairHash<D>, leaves: seq<D>, lo: nat, n: nat, others: seq<D>, queries: Pairs<D>)
    requires n > 1 && lo + n <= |leaves|
    requires TreeQueries(h, leaves, lo, n) <= queries && NoLeafIsInner(h, others, queries)
    ensures Tree(h, leaves, lo, n) !in others
  {
    var p := TreeIsHash(h, leaves, lo, n);
    assert p in queries;
  }

  lemma SameHashSamePair<D>(h: PairHash<D>, queries: Pairs<D>, p: (D, D), q: (D, D))
    requires CollisionFree(h, queries) && p in queries && q in queries
    requires h(p.0, p.1) == h(q.0, q.1)
    ensures p == q
  {
  }

  /** The hash is ideal on what the two ranges hash; ranges of different lengths also need that
      no leaf is an inner digest. */
  ghost predicate Comparable<D>(h: PairHash<D>, xs: seq<D>, a: nat, n: nat, ys: seq<D>, b: nat, m: nat,
        queries: Pairs<D>)
    requires n > 0 && m > 0 && a + n <= |xs| && b + m <= |ys|
  {
    TreeQueries(h, xs, a, n) <= queries && TreeQueries(h, ys, b, m) <= queries && CollisionFree(h, queries)
    && (n == m || (NoLeafIsInner(h, xs, queries) && NoLeafIsInner(h, ys, queries)))
  }

  /** Comparable ranges have the same root only if they hold the same leaves. */
  lemma {:induction false} TreeBinds<D>(h: PairHash<D>, xs: seq<D>, a: nat, n: nat, ys: seq<D>, b: nat, m: nat,
        queries: Pairs<D>)
    requires n > 0 && m > 0 && a + n <= |xs| && b + m <= |ys|
    ensures Comparable(h, xs, a, n, ys, b, m, queries) && Tree(h, xs, a, n) == Tree(h, ys, b, m) ==>
              n == m && xs[a..a + n] == ys[b..b + m]
    decreases n + m
  {
    hide Tree, TreeQueries, Split, CollisionFree, NoLeafIsInner;
    if Comparable(h, xs, a, n, ys, b, m, queries) && Tree(h, xs, a, n) == Tree(h, ys, b, m) {
      if n == 1 && m == 1 {
        TreeLeaf(h, xs, a);
        TreeLeaf(h, ys, b);
      } else if n == 1 {
        TreeLeaf(h, xs, a);
        InnerIsNoLeaf(h, ys, b, m, xs, queries);
      } else if m == 1 {
        TreeLeaf(h, ys, b);
        InnerIsNoLeaf(h, xs, a, n, ys, queries);
      } else {
        var k, l := Split(n), Split(m);
        var p := TreeIsHash(h, xs, a, n);
        var q := TreeIsHash(h, ys, b, m);
        SameHashSamePair(h, queries, p, q);
        UnfoldQueries(h, xs, a, n);
        UnfoldQueries(h, ys, b, m);
        TreeBinds(h, xs, a, k, ys, b, l, queries);
        TreeBinds(h, xs, a + k, n - k, ys, b + l, m - l, queries);
        assert xs[a..a + n] == xs[a..a + k] + xs[a + k..a + k + (n - k)];
        assert ys[b..b + m] == ys[b..b + l] + ys[b + l..b + l + (m - l)];
      }
    }
  }

  lemma SubtreesDiffer<D>(h: PairHash<D>, leaves: seq<D>, lo: nat, k: nat, m: nat, queries: Pairs<D>)
    requires k > 0 && m > 0 && k != m && lo + k + m <= |leaves|
    requires TreeQueries(h, leaves, lo, k) <= queries && TreeQueries(h, leaves, lo + k, m) <= queries
    requires CollisionFree(h, queries) && NoLeafIsInner(h, leaves, queries)
    ensures Tree(h, leaves, lo, k) != Tree(h, leaves, lo + k, m)
  {
    hide Tree, TreeQueries, CollisionFree, NoLeafIsInner;
    TreeBinds(h, leaves, lo, k, leaves, lo + k, m, queries);
  }

  /** The root commits to the whole list, its length included, unless two of the pairs hashed
      collide or a leaf of a list of another length is an inner digest. */
  lemma RootBinds<D>(h: PairHash<D>, xs: seq<D>, ys: seq<D>, queries: Pairs<D>)
    requires xs != [] && ys != []
    requires TreeQueries(h, xs, 0, |xs|) + TreeQueries(h, ys, 0, |ys|) <= queries
    requires CollisionFree(h, queries)
    requires |xs| == |ys| || (NoLeafIsInner(h, xs, queries) && NoLeafIsInner(h, ys, queries))
    ensures TreeRoot(h, xs) == TreeRoot(h, ys) <==> xs == ys
  {
    if TreeRoot(h, xs) == TreeRoot(h, ys) {
      TreeBinds(h, xs, 0, |xs|, ys, 0, |ys|, queries);
      assert xs[0..|xs|] == xs && ys[0..|ys|] == ys;
    }
  }

  lemma {:induction false} CheckAppend<D>(h: PairHash<D>, leaf: D, proof: seq<D>, last: D, i: nat)
    ensures Check(h, leaf, proof + [last], i) == Ascend(h, Check(h, leaf, proof, i), last, Shift(i, |proof|))
    ensures CheckQueries(h, leaf, proof + [last], i) ==
            CheckQueries(h, leaf, proof, i) + {Query(Check(h, leaf, proof, i), last, Shift(i, |proof|))}
    decreases |proof|
  {
    if proof == [] {
      assert [last][1..] == [] && proof + [last] == [last];
    } else {
      CheckAppend(h, Ascend(h, leaf, proof[0], i), proof[1..], last, i / 2);
      assert (proof + [last])[1..] == proof[1..] + [last];
    }
  }

  lemma ProofOfLeaf<D>(h: PairHash<D>, leaves: seq<D>, lo: nat)
    requires lo < |leaves|
    ensures TreeProof(h, leaves, lo, 1, 0) == [] && Tree(h, leaves, lo, 1) == leaves[lo]
    ensures forall c :: Check(h, leaves[lo], [], c) == leaves[lo]
    ensures Depth(1) == 0
  {
  }

  lemma {:induction false} TreeProofAtMostDepth<D>(h: PairHash<D>, leaves: seq<D>, lo: nat, n: nat, i: nat)
    requires i < n && lo + n <= |leaves|
    ensures |TreeProof(h, leaves, lo, n, i)| <= Depth(n)
    decreases n
  {
    hide *;
    ProofOfLeaf(h, leaves, lo);
    if n > 1 {
      var k := Split(n);
      UnfoldProof(h, leaves, lo, n, i);
      DepthOfSplit(n);
      if i < k {
        TreeProofAtMostDepth(h, leaves, lo, k, i);
      } else {
        TreeProofAtMostDepth(h, leaves, lo + k, n - k, i - k);
      }
    }
  }

  /** The bit the checker reads after p entries, for a leaf of a subtree of depth d. */
  lemma TopBit(c: nat, i: nat, n: nat)
    requires 1 < n && i < n && Agree(c, i, Depth(n))
    ensures var d, k := Depth(n), Split(n);
            if i < k then Shift(c, d - 1) % 2 == 0 && Agree(c, i, Depth(k))
            else Shift(c, d - 1) % 2 == 1 && Agree(c, i - k, Depth(n - k))
  {
    hide *;
    var d, k := Depth(n), Split(n);
    DepthOfSplit(n);
    DepthIsLeast(n, d);
    AgreeShift(c, i, d, d - 1);
    AgreePrefix(c, i, d, d - 1);
    Pow2Double(d);
    if i < k {
      ShiftSmall(i, d - 1);
    } else {
      ShiftTop(i - k, d - 1, d - 1);
      AgreeDropsTop(c, i - k, d - 1, Depth(n - k));
    }
  }

  lemma Pow2Double(d: nat)
    requires d > 0
    ensures Pow2(d) == 2 * Pow2(d - 1)
  {
  }

  /** On a shorter right subtree the checker reads a 0 where the path goes right. */
  lemma SkippedBit(c: nat, i: nat, n: nat)
    requires 1 < n && Split(n) <= i < n && Agree(c, i, Depth(n))
    requires Depth(n - Split(n)) < Depth(n) - 1
    ensures Shift(c, Depth(n - Split(n))) % 2 == 0
  {
    var k := Split(n);
    var p := Depth(n - k);
    hide *;
    DepthOfSplit(n);
    DepthIsLeast(n - k, p);
    AgreeShift(c, i, Depth(n), p);
    ShiftTop(i - k, p, Depth(n) - 1);
  }

  lemma {:induction false} FullProofChecks<D>(h: PairHash<D>, leaves: seq<D>, lo: nat, n: nat, i: nat, c: nat)
    requires i < n && lo + n <= |leaves| && Agree(c, i, Depth(n))
    requires |TreeProof(h, leaves, lo, n, i)| == Depth(n)
    ensures Check(h, leaves[lo + i], TreeProof(h, leaves, lo, n, i), c) == Tree(h, leaves, lo, n)
    decreases n
  {
    hide *;
    ProofOfLeaf(h, leaves, lo + i);
    if n > 1 {
      var k, leaf := Split(n), leaves[lo + i];
      UnfoldProof(h, leaves, lo, n, i);
      UnfoldTree(h, leaves, lo, n);
      DepthOfSplit(n);
      TopBit(c, i, n);
      if i < k {
        FullProofChecks(h, leaves, lo, k, i, c);
        AscendSides(h, Tree(h, leaves, lo, k), Tree(h, leaves, lo + k, n - k), Shift(c, Depth(n) - 1));
        CheckAppend(h, leaf, TreeProof(h, leaves, lo, k, i), Tree(h, leaves, lo + k, n - k), c);
      } else {
        TreeProofAtMostDepth(h, leaves, lo + k, n - k, i - k);
        FullProofChecks(h, leaves, lo + k, n - k, i - k, c);
        AscendSides(h, Tree(h, leaves, lo + k, n - k), Tree(h, leaves, lo, k), Shift(c, Depth(n) - 1));
        CheckAppend(h, leaf, TreeProof(h, leaves, lo + k, n - k, i - k), Tree(h, leaves, lo, k), c);
      }
    }
  }

  lemma AscendSides<D>(h: PairHash<D>, current: D, sibling: D, i: nat)
    ensures i % 2 == 0 ==> Ascend(h, current, sibling, i) == h(current, sibling)
    ensures i % 2 == 1 ==> Ascend(h, current, sibling, i) == h(sibling, current)
  {
  }

  /** A wrong value below leads to a wrong value above, whichever side the checker takes. */
  lemma WrongStaysWrong<D>(h: PairHash<D>, wrong: D, right: D, sibling: D, i: nat, queries: Pairs<D>)
    requires CollisionFree(h, queries) && wrong != right
    requires Query(wrong, sibling, i) in queries
    ensures (right, sibling) in queries ==> Ascend(h, wrong, sibling, i) != h(right, sibling)
    ensures (sibling, right) in queries ==> Ascend(h, wrong, sibling, i) != h(sibling, right)
  {
    var q := Query(wrong, sibling, i);
    assert Ascend(h, wrong, sibling, i) == h(q.0, q.1);
    if (right, sibling) in queries && h(q.0, q.1) == h(right, sibling) {
      SameHashSamePair(h, queries, q, (right, sibling));
    }
    if (sibling, right) in queries && h(q.0, q.1) == h(sibling, right) {
      SameHashSamePair(h, queries, q, (sibling, right));
    }
  }

  /** The hash is ideal on what is hashed for the range and by the checker on its way up. */
  ghost predicate IdealBelow<D>(h: PairHash<D>, leaves: seq<D>, lo: nat, n: nat, i: nat, c: nat, queries: Pairs<D>)
    requires i < n && lo + n <= |leaves|
  {
    TreeQueries(h, leaves, lo, n) <= queries
    && CheckQueries(h, leaves[lo + i], TreeProof(h, leaves, lo, n, i), c) <= queries
    && CollisionFree(h, queries) && NoLeafIsInner(h, leaves, queries)
  }

  lemma {:induction false} ShortProofFails<D>(h: PairHash<D>, leaves: seq<D>, lo: nat, n: nat, i: nat, c: nat,
        queries: Pairs<D>)
    requires i < n && lo + n <= |leaves| && Agree(c, i, Depth(n))
    ensures IdealBelow(h, leaves, lo, n, i, c, queries) && |TreeProof(h, leaves, lo, n, i)| < Depth(n) ==>
              Check(h, leaves[lo + i], TreeProof(h, leaves, lo, n, i), c) != Tree(h, leaves, lo, n)
    decreases n
  {
    hide Tree, TreeProof, TreeQueries, CheckQueries, CollisionFree, NoLeafIsInner, Check, Depth, Split, Agree, Shift,
         Ascend, Query, Pow2;
    ProofOfLeaf(h, leaves, lo + i);
    if n > 1 && IdealBelow(h, leaves, lo, n, i, c, queries) && |TreeProof(h, leaves, lo, n, i)| < Depth(n) {
      var k, leaf := Split(n), leaves[lo + i];
      UnfoldProof(h, leaves, lo, n, i);
      UnfoldTree(h, leaves, lo, n);
      UnfoldQueries(h, leaves, lo, n);
      DepthOfSplit(n);
      TopBit(c, i, n);
      var left, right := Tree(h, leaves, lo, k), Tree(h, leaves, lo + k, n - k);
      assert (left, right) in queries;
      if i < k {
        var below := TreeProof(h, leaves, lo, k, i);
        CheckAppend(h, leaf, below, right, c);
        ShortProofFails(h, leaves, lo, k, i, c, queries);
        WrongStaysWrong(h, Check(h, leaf, below, c), left, right, Shift(c, |below|), queries);
      } else {
        var below := TreeProof(h, leaves, lo + k, n - k, i - k);
        var index := Shift(c, |below|);
        CheckAppend(h, leaf, below, left, c);
        TreeProofAtMostDepth(h, leaves, lo + k, n - k, i - k);
        if |below| < Depth(n - k) {
          ShortProofFails(h, leaves, lo + k, n - k, i - k, c, queries);
          WrongStaysWrong(h, Check(h, leaf, below, c), right, left, index, queries);
        } else {
          FullProofChecks(h, leaves, lo + k, n - k, i - k, c);
          SkippedBit(c, i, n);
          SwappedPair(h, right, left, index, queries);
          SubtreesDiffer(h, leaves, lo, k, n - k, queries);
        }
      }
    }
  }

  lemma SwappedPair<D>(h: PairHash<D>, right: D, left: D, i: nat, queries: Pairs<D>)
    requires CollisionFree(h, queries) && i % 2 == 0
    requires Query(right, left, i) in queries && (left, right) in queries
    ensures Ascend(h, right, left, i) == h(left, right) ==> right == left
  {
    if Ascend(h, right, left, i) == h(left, right) {
      SameHashSamePair(h, queries, (right, left), (left, right));
    }
  }

  /** A path without promotions: fed the generated proof the checker reproduces the root,
      whatever the hash function. */
  lemma PromotionFreeChecks<D>(h: PairHash<D>, leaves: seq<D>, i: nat)
    requires i < |leaves| && Promotions(|leaves|, i) == 0
    ensures Check(h, leaves[i], Proof(h, leaves, i), i) == Root(h, leaves)
  {
    hide *;
    WholeTree(h, leaves, i);
    FullProofChecks(h, leaves, 0, |leaves|, i, i);
  }

  /** The exact boundary of the checker, when the pairs hashed in this run do not collide and no
      leaf is one of their hashes: it reproduces the root precisely for the leaves whose path
      meets no promotion. */
  lemma {:induction false} CheckBoundary<D>(h: PairHash<D>, leaves: seq<D>, i: nat)
    requires i < |leaves| && Ideal(h, leaves, i)
    ensures Check(h, leaves[i], Proof(h, leaves, i), i) == Root(h, leaves) <==> Promotions(|leaves|, i) == 0
  {
    hide *;
    WholeTree(h, leaves, i);
    if Promotions(|leaves|, i) == 0 {
      PromotionFreeChecks(h, leaves, i);
    } else {
      var queries := RunQueries(h, leaves, i);
      IdealUnfold(h, leaves, i);
      ShortProofFails(h, leaves, 0, |leaves|, i, i, queries);
    }
  }

  /** The pairs hashed while the root is built and the generated proof is checked. */
  ghost function RunQueries<D>(h: PairHash<D>, leaves: seq<D>, i: nat): Pairs<D>
    requires i < |leaves|
  {
    TreeQueries(h, leaves, 0, |leaves|) + CheckQueries(h, leaves[i], Proof(h, leaves, i), i)
  }

  ghost predicate Ideal<D>(h: PairHash<D>, leaves: seq<D>, i: nat)
    requires i < |leaves|
  {
    CollisionFree(h, RunQueries(h, leaves, i)) && NoLeafIsInner(h, leaves, RunQueries(h, leaves, i))
  }

  lemma IdealUnfold<D>(h: PairHash<D>, leaves: seq<D>, i: nat)
    requires i < |leaves| && Ideal(h, leaves, i) && Proof(h, leaves, i) == TreeProof(h, leaves, 0, |leaves|, i)
    ensures IdealBelow(h, leaves, 0, |leaves|, i, i, RunQueries(h, leaves, i))
  {
    hide CollisionFree, NoLeafIsInner, TreeQueries, CheckQueries, Proof, TreeProof;
  }

  lemma WholeTree<D>(h: PairHash<D>, leaves: seq<D>, i: nat)
    requires i < |leaves|
    ensures Proof(h, leaves, i) == TreeProof(h, leaves, 0, |leaves|, i)
    ensures Root(h, leaves) == Tree(h, leaves, 0, |leaves|)
    ensures |TreeProof(h, leaves, 0, |leaves|, i)| == Depth(|leaves|) - Promotions(|leaves|, i)
    ensures Agree(i, i, Depth(|leaves|))
  {
    hide Root, Proof, Tree, TreeProof, Promotions, Depth;
    ProofIsTreeProof(h, leaves, i);
    RootIsTreeRoot(h, leaves);
    ProofLength(h, leaves, i);
    AgreeReflexive(i, Depth(|leaves|));
  }

  // ---------- What an accepted proof proves ----------

  /** The hash is ideal on what the tree and this check hash, for the leaf checked as well. */
  ghost predicate IdealFor<D>(h: PairHash<D>, x: D, proof: seq<D>, c: nat, leaves: seq<D>, lo: nat, n: nat,
        queries: Pairs<D>)
    requires n > 0 && lo + n <= |leaves|
  {
    TreeQueries(h, leaves, lo, n) <= queries && CheckQueries(h, x, proof, c) <= queries
    && CollisionFree(h, queries) && NoLeafIsInner(h, leaves + [x], queries)
  }

  /** Soundness: whatever the proof and the index, a value from which the checker reaches the root
      of a range is one of its leaves. */
  lemma {:induction false} CheckSound<D>(h: PairHash<D>, x: D, proof: seq<D>, c: nat, leaves: seq<D>, lo: nat, n: nat,
        queries: Pairs<D>)
    requires n > 0 && lo + n <= |leaves|
    ensures IdealFor(h, x, proof, c, leaves, lo, n, queries) && Check(h, x, proof, c) == Tree(h, leaves, lo, n) ==>
              x in leaves[lo..lo + n]
    decreases |proof|
  {
    hide Tree, TreeQueries, CheckQueries, CollisionFree, NoLeafIsInner, Check, Split, Shift, Ascend;
    if IdealFor(h, x, proof, c, leaves, lo, n, queries) && Check(h, x, proof, c) == Tree(h, leaves, lo, n) {
      NoProof(h, x, c);
      TreeLeaf(h, leaves, lo);
      assert x in leaves + [x] && leaves[lo] in leaves + [x];
      if n == 1 {
        if proof == [] {
          assert leaves[lo..lo + 1][0] == x;
        } else {
          CheckIsInner(h, x, proof, c, leaves + [x], queries);
        }
      } else if proof == [] {
        InnerIsNoLeaf(h, leaves, lo, n, leaves + [x], queries);
      } else {
        CheckSoundStep(h, x, proof, c, leaves, lo, n, queries);
        var init, k := proof[..|proof| - 1], Split(n);
        CheckSound(h, x, init, c, leaves, lo, k, queries);
        CheckSound(h, x, init, c, leaves, lo + k, n - k, queries);
        assert leaves[lo..lo + n] == leaves[lo..lo + k] + leaves[lo + k..lo + k + (n - k)];
      }
    }
  }

  lemma NoProof<D>(h: PairHash<D>, x: D, c: nat)
    ensures Check(h, x, [], c) == x
  {
  }

  /** The checker's last step hashes a pair. */
  lemma CheckLast<D>(h: PairHash<D>, x: D, proof: seq<D>, c: nat) returns (q: (D, D))
    requires proof != []
    ensures var init := proof[..|proof| - 1];
            q in CheckQueries(h, x, proof, c) && Check(h, x, proof, c) == h(q.0, q.1)
            && (q.0 == Check(h, x, init, c) || q.1 == Check(h, x, init, c))
            && CheckQueries(h, x, init, c) <= CheckQueries(h, x, proof, c)
  {
    hide Check, CheckQueries, Shift;
    var init, last := proof[..|proof| - 1], proof[|proof| - 1];
    assert init + [last] == proof;
    CheckAppend(h, x, init, last, c);
    q := Query(Check(h, x, init, c), last, Shift(c, |init|));
  }

  lemma CheckIsInner<D>(h: PairHash<D>, x: D, proof: seq<D>, c: nat, others: seq<D>, queries: Pairs<D>)
    requires proof != [] && CheckQueries(h, x, proof, c) <= queries && NoLeafIsInner(h, others, queries)
    ensures Check(h, x, proof, c) !in others
  {
    hide Check, CheckQueries;
    var q := CheckLast(h, x, proof, c);
    assert q in queries;
  }

  /** Under the same root the value below the last step is the root of one of the halves. */
  lemma CheckSoundStep<D>(h: PairHash<D>, x: D, proof: seq<D>, c: nat, leaves: seq<D>, lo: nat, n: nat,
        queries: Pairs<D>)
    requires n > 1 && lo + n <= |leaves| && proof != []
    requires IdealFor(h, x, proof, c, leaves, lo, n, queries) && Check(h, x, proof, c) == Tree(h, leaves, lo, n)
    ensures var init, k := proof[..|proof| - 1], Split(n);
            IdealFor(h, x, init, c, leaves, lo, k, queries) && IdealFor(h, x, init, c, leaves, lo + k, n - k, queries)
            && (Check(h, x, init, c) == Tree(h, leaves, lo, k)
                || Check(h, x, init, c) == Tree(h, leaves, lo + k, n - k))
  {
    hide Tree, TreeQueries, CheckQueries, CollisionFree, NoLeafIsInner, Check, Split;
    var q := CheckLast(h, x, proof, c);
    var p := TreeIsHash(h, leaves, lo, n);
    UnfoldQueries(h, leaves, lo, n);
    SameHashSamePair(h, queries, p, q);
  }

  // ---------- Three leaves ----------

  lemma ThreeLeaves<D>(h: PairHash<D>, a: D, b: D, c: D)
    ensures var leaves, ab := [a, b, c], h(a, b);
            Root(h, leaves) == h(ab, c) && Proof(h, leaves, 2) == [ab] && Check(h, c, [ab], 2) == h(c, ab)
            && RunQueries(h, leaves, 2) == {(a, b), (ab, c), (c, ab)}
  {
    var leaves, ab := [a, b, c], h(a, b);
    var next := [ab, c];
    assert NextLevel(h, leaves) == next && NextLevel(h, next) == [h(ab, c)];
    assert Root(h, next) == h(ab, c);
    assert Proof(h, next, 1) == [ab] + Proof(h, [h(ab, c)], 0);
    assert Check(h, h(c, ab), [], 1) == h(c, ab) && [ab][1..] == [];
    UnfoldQueries(h, leaves, 0, 3);
    UnfoldQueries(h, leaves, 0, 2);
    UnfoldTree(h, leaves, 0, 2);
    assert CheckQueries(h, c, [ab], 2) == {(c, ab)} + CheckQueries(h, h(c, ab), [], 1);
  }
}
