/** The dependency checks of the output verifier (bridge/outputs/verify.go): edges are recorded
    first, then searched depth first with no visited set. */
module Dependencies {
  import opened Common

  type Id = string
  type Graph = map<Id, seq<Id>>

  // ---------- Paths ----------

  predicate Edge(g: Graph, a: Id, b: Id)
  {
    a in g && b in g[a]
  }

  /** A non-empty walk along recorded edges. */
  predicate IsPath(g: Graph, p: seq<Id>)
  {
    p != [] && forall k :: 0 <= k < |p| - 1 ==> Edge(g, p[k], p[k + 1])
  }

  ghost predicate PathBetween(g: Graph, p: seq<Id>, a: Id, b: Id)
  {
    IsPath(g, p) && p[0] == a && p[|p| - 1] == b
  }

  /** b is a (transitive) dependency of a, by at least one edge. */
  ghost predicate DependsOn(g: Graph, a: Id, b: Id)
  {
    exists p :: |p| >= 2 && PathBetween(g, p, a, b)
  }

  ghost predicate Acyclic(g: Graph)
  {
    forall a :: !DependsOn(g, a, a)
  }

  lemma IsDependency(g: Graph, p: seq<Id>, a: Id, b: Id)
    requires |p| >= 2 && PathBetween(g, p, a, b)
    ensures DependsOn(g, a, b)
  {
  }

  lemma SubPath(g: Graph, p: seq<Id>, i: nat, j: nat)
    requires IsPath(g, p) && i < j <= |p|
    ensures IsPath(g, p[i..j])
  {
    var q := p[i..j];
    forall k | 0 <= k < |q| - 1
      ensures Edge(g, q[k], q[k + 1])
    {
      assert q[k] == p[i + k] && q[k + 1] == p[i + k + 1];
    }
  }

  /** Two walks joined at a shared node. */
  lemma JoinPaths(g: Graph, p: seq<Id>, q: seq<Id>)
    requires IsPath(g, p) && IsPath(g, q) && p[|p| - 1] == q[0]
    ensures IsPath(g, p + q[1..])
  {
    var r := p + q[1..];
    forall k | 0 <= k < |r| - 1
      ensures Edge(g, r[k], r[k + 1])
    {
      if k < |p| - 1 {
        assert r[k] == p[k] && r[k + 1] == p[k + 1];
      } else {
        assert r[k] == q[k + 1 - |p|] && r[k + 1] == q[k + 2 - |p|];
      }
    }
  }

  // ---------- The search ----------

  /** hasCircularDependency with a bound on nested calls; None is a run that exceeds it. */
  function Search(g: Graph, output: Id, target: Id, stack: nat): Option<bool>
    decreases stack, 0
  {
    if target !in g then Some(false)
    else if stack == 0 then None
    else SearchAny(g, output, g[target], stack - 1)
  }

  function SearchAny(g: Graph, output: Id, deps: seq<Id>, stack: nat): Option<bool>
    decreases stack, 1 + |deps|
  {
    if deps == [] then Some(false)
    else if deps[0] == output then Some(true)
    else
      var first := Search(g, output, deps[0], stack);
      if first == Some(false) then SearchAny(g, output, deps[1..], stack) else first
  }

  ghost predicate AvoidsFrom(p: seq<Id>, output: Id, k: nat)
  {
    forall j :: k <= j < |p| ==> p[j] != output
  }

  /** A run that exceeds the bound has walked that many edges without meeting the output. */
  lemma {:induction false} DeepRunIsPath(g: Graph, output: Id, target: Id, stack: nat) returns (p: seq<Id>)
    requires Search(g, output, target, stack) == None && target != output
    ensures IsPath(g, p) && p[0] == target && |p| == stack + 1 && AvoidsFrom(p, output, 0)
    ensures p[stack] in g
    decreases stack, 0
  {
    if stack == 0 {
      p := [target];
    } else {
      var d, q := DeepRunAny(g, output, g[target], stack - 1);
      p := [target] + q;
      assert forall k :: 0 < k < |p| ==> p[k] == q[k - 1];
      assert Edge(g, p[0], p[1]);
    }
  }

  lemma {:induction false} DeepRunAny(g: Graph, output: Id, deps: seq<Id>, stack: nat) returns (d: Id, p: seq<Id>)
    requires SearchAny(g, output, deps, stack) == None
    ensures d in deps && IsPath(g, p) && p[0] == d && |p| == stack + 1 && AvoidsFrom(p, output, 0)
    ensures p[stack] in g
    decreases stack, 1 + |deps|
  {
    if Search(g, output, deps[0], stack) == None {
      d := deps[0];
      p := DeepRunIsPath(g, output, d, stack);
    } else {
      d, p := DeepRunAny(g, output, deps[1..], stack);
    }
  }

  /** A positive answer is witnessed by a dependency path. */
  lemma {:induction false} FoundIsPath(g: Graph, output: Id, target: Id, stack: nat) returns (p: seq<Id>)
    requires Search(g, output, target, stack) == Some(true)
    ensures |p| >= 2 && PathBetween(g, p, target, output)
    decreases stack, 0
  {
    var d, q := FoundAny(g, output, g[target], stack - 1);
    p := [target] + q;
    assert forall k :: 0 < k < |p| ==> p[k] == q[k - 1];
    assert Edge(g, p[0], p[1]);
  }

  lemma {:induction false} FoundAny(g: Graph, output: Id, deps: seq<Id>, stack: nat) returns (d: Id, p: seq<Id>)
    requires SearchAny(g, output, deps, stack) == Some(true)
    ensures d in deps && PathBetween(g, p, d, output)
    decreases stack, 1 + |deps|
  {
    if deps[0] == output {
      d, p := output, [output];
    } else if Search(g, output, deps[0], stack) == Some(true) {
      d := deps[0];
      p := FoundIsPath(g, output, d, stack);
    } else {
      d, p := FoundAny(g, output, deps[1..], stack);
    }
  }

  /** A negative answer: no walk from the target meets the output after its start, and every
      such walk is shorter than the bound. */
  lemma {:induction false} NotFoundNoPath(g: Graph, output: Id, target: Id, stack: nat, p: seq<Id>)
    requires Search(g, output, target, stack) == Some(false)
    requires IsPath(g, p) && p[0] == target
    ensures AvoidsFrom(p, output, 1) && |p| <= stack + 1
    decreases |p|
  {
    if |p| > 1 {
      assert Edge(g, p[0], p[1]);
      NotFoundAny(g, output, g[target], stack - 1, p[1]);
      SubPath(g, p, 1, |p|);
      NotFoundNoPath(g, output, p[1], stack - 1, p[1..]);
      forall j | 1 <= j < |p|
        ensures p[j] != output
      {
        assert j > 1 ==> p[j] == p[1..][j - 1];
      }
    }
  }

  lemma {:induction false} NotFoundAny(g: Graph, output: Id, deps: seq<Id>, stack: nat, d: Id)
    requires SearchAny(g, output, deps, stack) == Some(false) && d in deps
    ensures d != output && Search(g, output, d, stack) == Some(false)
    decreases |deps|
  {
    if d != deps[0] {
      NotFoundAny(g, output, deps[1..], stack, d);
    }
  }

  lemma {:induction false} Pigeonhole(p: seq<Id>, s: set<Id>) returns (i: nat, j: nat)
    requires |p| > |s| && forall k :: 0 <= k < |p| ==> p[k] in s
    ensures i < j < |p| && p[i] == p[j]
    decreases |p|
  {
    if p[0] in p[1..] {
      i := 0;
      j :| 0 < j < |p| && p[j] == p[0];
    } else {
      var rest := p[1..];
      assert forall k :: 0 <= k < |rest| ==> rest[k] == p[k + 1] && rest[k] != p[0];
      i, j := Pigeonhole(rest, s - {p[0]});
      i, j := i + 1, j + 1;
    }
  }

  /** A walk longer than the number of recorded outputs repeats one of them. */
  lemma LongWalkCycles(g: Graph, output: Id, p: seq<Id>)
    requires IsPath(g, p) && |p| > |g| + 1 && AvoidsFrom(p, output, 0)
    ensures !Acyclic(g - {output})
  {
    var keys := p[..|g| + 1];
    forall k | 0 <= k < |keys|
      ensures keys[k] in g.Keys
    {
      assert Edge(g, p[k], p[k + 1]);
    }
    assert |g.Keys| == |g|;
    var i, j := Pigeonhole(keys, g.Keys);
    var cycle := p[i..j + 1];
    SubPath(g, p, i, j + 1);
    AvoidingPath(g, output, cycle);
    IsDependency(g - {output}, cycle, p[i], p[i]);
  }

  /** A walk that never leaves the output's node is a walk without the output's own edges. */
  lemma AvoidingPath(g: Graph, output: Id, p: seq<Id>)
    requires IsPath(g, p) && forall k :: 0 <= k < |p| - 1 ==> p[k] != output
    ensures IsPath(g - {output}, p)
  {
    forall k | 0 <= k < |p| - 1
      ensures Edge(g - {output}, p[k], p[k + 1])
    {
      assert Edge(g, p[k], p[k + 1]);
    }
  }

  /** With the output's own edges set aside the graph is acyclic: then the search ends within
      |g| + 1 nested calls and answers exactly whether the target depends on the output. */
  lemma SearchDecides(g: Graph, output: Id, target: Id, stack: nat)
    requires Acyclic(g - {output}) && target != output && stack > |g|
    ensures Search(g, output, target, stack) == Some(DependsOn(g, target, output))
  {
    match Search(g, output, target, stack)
    case None =>
      var p := DeepRunIsPath(g, output, target, stack);
      LongWalkCycles(g, output, p);
    case Some(found) =>
      if found {
        var p := FoundIsPath(g, output, target, stack);
        IsDependency(g, p, target, output);
      } else if DependsOn(g, target, output) {
        var p :| |p| >= 2 && PathBetween(g, p, target, output);
        NotFoundNoPath(g, output, target, stack, p);
      }
  }

  /** A cycle among the target's dependencies. */
  ghost predicate ReachesCycle(g: Graph, target: Id)
  {
    exists p, c :: PathBetween(g, p, target, c) && DependsOn(g, c, c)
  }

  lemma {:induction false} CycleGivesLongWalk(g: Graph, p: seq<Id>, cycle: seq<Id>, n: nat) returns (q: seq<Id>)
    requires IsPath(g, p) && |cycle| >= 2 && PathBetween(g, cycle, p[|p| - 1], p[|p| - 1])
    ensures IsPath(g, q) && q[0] == p[0] && |q| >= n
    decreases n - |p|
  {
    if |p| >= n {
      q := p;
    } else {
      JoinPaths(g, p, cycle);
      q := CycleGivesLongWalk(g, p + cycle[1..], cycle, n);
    }
  }

  lemma SearchNeverEnds(g: Graph, output: Id, target: Id, stack: nat)
    requires !DependsOn(g, target, output) && ReachesCycle(g, target)
    ensures Search(g, output, target, stack) == None
  {
    match Search(g, output, target, stack)
    case None =>
    case Some(found) =>
      if found {
        var q := FoundIsPath(g, output, target, stack);
        IsDependency(g, q, target, output);
      } else {
        var p, c :| PathBetween(g, p, target, c) && DependsOn(g, c, c);
        var cycle :| |cycle| >= 2 && PathBetween(g, cycle, c, c);
        var q := CycleGivesLongWalk(g, p, cycle, stack + 2);
        NotFoundNoPath(g, output, target, stack, q);
      }
  }

  lemma LongWalkReachesCycle(g: Graph, p: seq<Id>)
    requires IsPath(g, p) && |p| > |g| + 1
    ensures ReachesCycle(g, p[0])
  {
    var keys := p[..|g| + 1];
    forall k | 0 <= k < |keys|
      ensures keys[k] in g.Keys
    {
      assert Edge(g, p[k], p[k + 1]);
    }
    assert |g.Keys| == |g|;
    var i, j := Pigeonhole(keys, g.Keys);
    SubPath(g, p, i, j + 1);
    SubPath(g, p, 0, i + 1);
    IsDependency(g, p[i..j + 1], p[i], p[i]);
    assert PathBetween(g, p[0..i + 1], p[0], p[i]);
  }

  /** A dependency the search walks through and leaves: not the output, nor on the way to it, and
      no cycle behind it. */
  ghost predicate Clear(g: Graph, output: Id, d: Id)
  {
    d != output && !DependsOn(g, d, output) && !ReachesCycle(g, d)
  }

  /** The next node of a walk is a dependency before which only clear ones are listed. */
  ghost predicate FirstTaken(g: Graph, output: Id, a: Id, b: Id)
  {
    a in g && exists i :: 0 <= i < |g[a]| && g[a][i] == b && forall j :: 0 <= j < i ==> Clear(g, output, g[a][j])
  }

  /** The walk to the output that a search takes when it skips clear dependencies only. */
  ghost predicate FirstHit(g: Graph, output: Id, p: seq<Id>)
  {
    p != [] && p[|p| - 1] == output && forall k :: 0 <= k < |p| - 1 ==> FirstTaken(g, output, p[k], p[k + 1])
  }

  ghost predicate Hits(g: Graph, output: Id, target: Id)
  {
    exists p :: |p| >= 2 && p[0] == target && FirstHit(g, output, p)
  }

  /** More stack changes no answer. */
  lemma {:induction false} MoreStack(g: Graph, output: Id, target: Id, stack: nat, more: nat)
    requires Search(g, output, target, stack) != None && stack <= more
    ensures Search(g, output, target, more) == Search(g, output, target, stack)
    decreases stack, 0
  {
    if target in g {
      MoreStackAny(g, output, g[target], stack - 1, more - 1);
    }
  }

  lemma {:induction false} MoreStackAny(g: Graph, output: Id, deps: seq<Id>, stack: nat, more: nat)
    requires SearchAny(g, output, deps, stack) != None && stack <= more
    ensures SearchAny(g, output, deps, more) == SearchAny(g, output, deps, stack)
    decreases stack, 1 + |deps|
  {
    if deps != [] && deps[0] != output {
      MoreStack(g, output, deps[0], stack, more);
      if Search(g, output, deps[0], stack) == Some(false) {
        MoreStackAny(g, output, deps[1..], stack, more);
      }
    }
  }

  lemma ClearIsFalse(g: Graph, output: Id, target: Id)
    requires Clear(g, output, target)
    ensures Search(g, output, target, |g| + 1) == Some(false)
  {
    var stack := |g| + 1;
    match Search(g, output, target, stack)
    case None =>
      var p := DeepRunIsPath(g, output, target, stack);
      LongWalkReachesCycle(g, p);
    case Some(found) =>
      if found {
        var p := FoundIsPath(g, output, target, stack);
        IsDependency(g, p, target, output);
      }
  }

  lemma FalseIsClear(g: Graph, output: Id, target: Id, stack: nat)
    requires Search(g, output, target, stack) == Some(false) && target != output
    ensures Clear(g, output, target)
  {
    if DependsOn(g, target, output) {
      var p :| |p| >= 2 && PathBetween(g, p, target, output);
      NotFoundNoPath(g, output, target, stack, p);
    } else if ReachesCycle(g, target) {
      SearchNeverEnds(g, output, target, stack);
    }
  }

  /** A positive answer: the dependency found, or the one that leads on, comes after clear ones. */
  lemma {:induction false} TrueTakes(g: Graph, output: Id, deps: seq<Id>, stack: nat) returns (i: nat)
    requires SearchAny(g, output, deps, stack) == Some(true)
    ensures i < |deps| && (forall j :: 0 <= j < i ==> Clear(g, output, deps[j]))
    ensures deps[i] == output || Search(g, output, deps[i], stack) == Some(true)
    decreases |deps|
  {
    if deps[0] == output || Search(g, output, deps[0], stack) == Some(true) {
      i := 0;
    } else {
      FalseIsClear(g, output, deps[0], stack);
      i := TrueTakes(g, output, deps[1..], stack);
      i := i + 1;
    }
  }

  lemma {:induction false} TrueHits(g: Graph, output: Id, target: Id, stack: nat) returns (p: seq<Id>)
    requires Search(g, output, target, stack) == Some(true)
    ensures |p| >= 2 && p[0] == target && FirstHit(g, output, p)
    decreases stack
  {
    var deps := g[target];
    var i := TrueTakes(g, output, deps, stack - 1);
    var rest := [output];
    if deps[i] != output {
      rest := TrueHits(g, output, deps[i], stack - 1);
    }
    p := [target] + rest;
    assert FirstTaken(g, output, p[0], p[1]);
    assert forall k :: 0 < k < |p| ==> p[k] == rest[k - 1];
  }

  /** The search passes i clear dependencies and answers at the next. */
  lemma {:induction false} PassesClear(g: Graph, output: Id, deps: seq<Id>, i: nat, stack: nat)
    requires i < |deps| && forall j :: 0 <= j < i ==> Clear(g, output, deps[j])
    requires stack > |g| && (deps[i] == output || Search(g, output, deps[i], stack) == Some(true))
    ensures SearchAny(g, output, deps, stack) == Some(true)
    decreases i
  {
    if i > 0 {
      ClearIsFalse(g, output, deps[0]);
      MoreStack(g, output, deps[0], |g| + 1, stack);
      PassesClear(g, output, deps[1..], i - 1, stack);
    }
  }

  lemma {:induction false} HitIsTrue(g: Graph, output: Id, p: seq<Id>) returns (stack: nat)
    requires |p| >= 2 && FirstHit(g, output, p)
    ensures stack > |g| && Search(g, output, p[0], stack) == Some(true)
    decreases |p|
  {
    assert FirstTaken(g, output, p[0], p[1]);
    var deps := g[p[0]];
    var i: nat :| i < |deps| && deps[i] == p[1] && forall j :: 0 <= j < i ==> Clear(g, output, deps[j]);
    if p[1] == output {
      stack := |g| + 1;
    } else {
      var rest := p[1..];
      assert forall k :: 0 <= k < |rest| ==> rest[k] == p[k + 1];
      stack := HitIsTrue(g, output, rest);
    }
    PassesClear(g, output, deps, i, stack);
    stack := stack + 1;
  }

  /** The search ends exactly when everything the target leads to is clear, or when a walk that
      leaves only clear dependencies behind it meets the output; otherwise no stack is enough. The
      answer tells which of the two. */
  lemma SearchEndsExactly(g: Graph, output: Id, target: Id)
    requires target != output
    ensures (exists stack: nat :: Search(g, output, target, stack) != None) <==>
            Clear(g, output, target) || Hits(g, output, target)
    ensures (exists stack: nat :: Search(g, output, target, stack) == Some(false)) <==> Clear(g, output, target)
    ensures (exists stack: nat :: Search(g, output, target, stack) == Some(true)) <==> Hits(g, output, target)
  {
    forall stack: nat | Search(g, output, target, stack) != None
      ensures if Search(g, output, target, stack).value then Hits(g, output, target) else Clear(g, output, target)
    {
      if Search(g, output, target, stack).value {
        var p := TrueHits(g, output, target, stack);
      } else {
        FalseIsClear(g, output, target, stack);
      }
    }
    if Clear(g, output, target) {
      ClearIsFalse(g, output, target);
    }
    if Hits(g, output, target) {
      var p :| |p| >= 2 && p[0] == target && FirstHit(g, output, p);
      var stack := HitIsTrue(g, output, p);
    }
  }

  // ---------- Recording edges ----------

  /** Recording an output's edges on an otherwise acyclic graph closes a cycle exactly when one
      of them is, or depends on, the output. */
  lemma RecordedAcyclic(g: Graph, output: Id, deps: seq<Id>)
    requires Acyclic(g - {output})
    ensures var g' := g[output := deps];
            Acyclic(g') <==> forall d :: d in deps ==> d != output && !DependsOn(g', d, output)
  {
    var g' := g[output := deps];
    assert g' - {output} == g - {output};
    if Acyclic(g') {
      forall d | d in deps
        ensures d != output && !DependsOn(g', d, output)
      {
        if d == output {
          IsDependency(g', [output, output], output, output);
        } else if DependsOn(g', d, output) {
          var p :| |p| >= 2 && PathBetween(g', p, d, output);
          assert IsPath(g', [output, d]);
          JoinPaths(g', [output, d], p);
          IsDependency(g', [output, d] + p[1..], output, output);
        }
      }
    }
    if forall d :: d in deps ==> d != output && !DependsOn(g', d, output) {
      forall a
        ensures !DependsOn(g', a, a)
      {
        if DependsOn(g', a, a) {
          var p :| |p| >= 2 && PathBetween(g', p, a, a);
          CycleAvoids(g', output, deps, p);
          AvoidingPath(g', output, p);
          IsDependency(g' - {output}, p, a, a);
        }
      }
    }
  }

  lemma CycleAvoids(g: Graph, output: Id, deps: seq<Id>, p: seq<Id>)
    requires output in g && g[output] == deps
    requires forall d :: d in deps ==> d != output && !DependsOn(g, d, output)
    requires |p| >= 2 && PathBetween(g, p, p[0], p[0])
    ensures forall k :: 0 <= k < |p| - 1 ==> p[k] != output
  {
    forall k | 0 <= k < |p| - 1
      ensures p[k] != output
    {
      if p[k] == output {
        assert Edge(g, p[k], p[k + 1]);
        SubPath(g, p, k + 1, |p|);
        SubPath(g, p, 0, k + 1);
        var tail, head := p[k + 1..|p|], p[0..k + 1];
        JoinPaths(g, tail, head);
        var around := tail + head[1..];
        assert around[0] == p[k + 1] && around[|around| - 1] == output;
        if |around| >= 2 {
          IsDependency(g, around, p[k + 1], output);
        }
      }
    }
  }

  // ---------- Depth ----------

  /** checkDependencyDepth with `budget` more levels allowed. */
  function DepthOk(g: Graph, id: Id, budget: int): bool
    decreases budget + 1, 0
  {
    if budget < 0 then false
    else if id !in g then true
    else AllDepthOk(g, g[id], budget - 1)
  }

  function AllDepthOk(g: Graph, deps: seq<Id>, budget: int): bool
    requires budget >= -1
    decreases budget + 1, 1 + |deps|
  {
    deps == [] || (DepthOk(g, deps[0], budget) && AllDepthOk(g, deps[1..], budget))
  }

  lemma {:induction false} AllDepthOkEach(g: Graph, deps: seq<Id>, budget: int)
    requires budget >= -1
    ensures AllDepthOk(g, deps, budget) <==> forall d :: d in deps ==> DepthOk(g, d, budget)
  {
    if deps != [] {
      AllDepthOkEach(g, deps[1..], budget);
      assert deps[0] in deps && forall d :: d in deps[1..] ==> d in deps;
      assert forall d :: d in deps ==> d == deps[0] || d in deps[1..];
    }
  }

  /** Within the budget exactly when no dependency chain has more edges than it. */
  lemma {:induction false} DepthOkExactly(g: Graph, id: Id, budget: int)
    requires budget >= -1
    ensures DepthOk(g, id, budget) <==> !exists p :: IsPath(g, p) && p[0] == id && |p| == budget + 2
    decreases budget + 1
  {
    if budget < 0 {
      assert IsPath(g, [id]);
    } else if id !in g {
      forall p | IsPath(g, p) && p[0] == id
        ensures |p| != budget + 2
      {
        assert |p| > 1 ==> Edge(g, p[0], p[1]);
      }
    } else {
      AllDepthOkEach(g, g[id], budget - 1);
      forall d | d in g[id]
        ensures DepthOk(g, d, budget - 1) <==> !exists q :: IsPath(g, q) && q[0] == d && |q| == budget + 1
      {
        DepthOkExactly(g, d, budget - 1);
      }
      if !DepthOk(g, id, budget) {
        var d :| d in g[id] && !DepthOk(g, d, budget - 1);
        var q :| IsPath(g, q) && q[0] == d && |q| == budget + 1;
        assert IsPath(g, [id, d]);
        JoinPaths(g, [id, d], q);
        assert IsPath(g, [id, d] + q[1..]);
      } else {
        forall p | IsPath(g, p) && p[0] == id
          ensures |p| != budget + 2
        {
          if |p| == budget + 2 {
            assert Edge(g, p[0], p[1]);
            assert DepthOk(g, p[1], budget - 1);
            SubPath(g, p, 1, |p|);
          }
        }
      }
    }
  }

  // ---------- The verifier object ----------

  function Budget(maxDepth: int, currentDepth: nat): (b: int)
    ensures b >= -1
  {
    if currentDepth > maxDepth then -1 else maxDepth - currentDepth
  }

  /** verifyDependencies' outcomes; Overflow is a search that exhausts the call stack. */
  datatype Verdict = Valid | DepthExceeded | EmptyDependency | SelfDependency | Circular | Overflow

  /** The per-dependency loop over the recorded graph. */
  function CheckEach(g: Graph, output: Id, deps: seq<Id>, stack: nat): (verdict: Verdict)
    ensures verdict != DepthExceeded
  {
    if deps == [] then Valid
    else if deps[0] == "" then EmptyDependency
    else if deps[0] == output then SelfDependency
    else match Search(g, output, deps[0], stack)
      case None => Overflow
      case Some(found) => if found then Circular else CheckEach(g, output, deps[1..], stack)
  }

  /** The verdict and the graph left behind by one call. */
  function Verify(g: Graph, maxDepth: int, output: Id, deps: seq<Id>, stack: nat): (Verdict, Graph)
  {
    if deps == [] then (Valid, g)
    else if !DepthOk(g, output, Budget(maxDepth, 0)) then (DepthExceeded, g)
    else (CheckEach(g[output := deps], output, deps, stack), g[output := deps])
  }

  class Verifier {
    var dependencies: Graph
    const maxDependencyDepth: int

    constructor (maxDepth: int)
      ensures dependencies == map[] && maxDependencyDepth == maxDepth
    {
      dependencies := map[];
      maxDependencyDepth := maxDepth;
    }

    method HasCircularDependency(outputID: Id, targetID: Id, stack: nat) returns (r: Option<bool>)
      ensures r == Search(dependencies, outputID, targetID, stack)
      decreases stack
    {
      if targetID !in dependencies {
        return Some(false);
      }
      if stack == 0 {
        return None;
      }
      var deps := dependencies[targetID];
      assert deps[0..] == deps;
      for i := 0 to |deps|
        invariant SearchAny(dependencies, outputID, deps[i..], stack - 1) ==
                  Search(dependencies, outputID, targetID, stack)
      {
        assert deps[i..][1..] == deps[i + 1..];
        if deps[i] == outputID {
          return Some(true);
        }
        r := HasCircularDependency(outputID, deps[i], stack - 1);
        if r != Some(false) {
          return;
        }
      }
      r := Some(false);
    }

    method CheckDependencyDepth(outputID: Id, currentDepth: nat) returns (ok: bool)
      ensures ok == DepthOk(dependencies, outputID, Budget(maxDependencyDepth, currentDepth))
      ensures currentDepth > maxDependencyDepth ==> !ok
      decreases Budget(maxDependencyDepth, currentDepth) + 1
    {
      if currentDepth > maxDependencyDepth {
        return false;
      }
      if outputID !in dependencies {
        return true;
      }
      var deps := dependencies[outputID];
      assert deps[0..] == deps;
      for i := 0 to |deps|
        invariant AllDepthOk(dependencies, deps[i..], maxDependencyDepth - currentDepth - 1) ==
                  AllDepthOk(dependencies, deps, maxDependencyDepth - currentDepth - 1)
      {
        assert deps[i..][1..] == deps[i + 1..];
        ok := CheckDependencyDepth(deps[i], currentDepth + 1);
        if !ok {
          return;
        }
      }
      ok := true;
    }

    method VerifyDependencies(outputID: Id, deps: seq<Id>, stack: nat) returns (verdict: Verdict)
      modifies this
      ensures (verdict, dependencies) == Verify(old(dependencies), maxDependencyDepth, outputID, deps, stack)
      ensures deps == [] ==> verdict == Valid && dependencies == old(dependencies)
      ensures verdict == DepthExceeded ==> dependencies == old(dependencies)
      ensures deps != [] && verdict != DepthExceeded ==> dependencies == old(dependencies)[outputID := deps]
    {
      if |deps| == 0 {
        return Valid;
      }
      var ok := CheckDependencyDepth(outputID, 0);
      if !ok {
        return DepthExceeded;
      }
      dependencies := dependencies[outputID := deps];
      assert deps[0..] == deps;
      for i := 0 to |deps|
        invariant dependencies == old(dependencies)[outputID := deps]
        invariant CheckEach(dependencies, outputID, deps[i..], stack) == CheckEach(dependencies, outputID, deps, stack)
      {
        assert deps[i..][1..] == deps[i + 1..];
        if deps[i] == "" {
          return EmptyDependency;
        }
        if deps[i] == outputID {
          return SelfDependency;
        }
        var circular := HasCircularDependency(outputID, deps[i], stack);
        match circular
        case None => return Overflow;
        case Some(found) =>
          if found {
            return Circular;
          }
      }
      verdict := Valid;
    }
  }

  // ---------- One call, and runs of calls ----------

  lemma {:induction false} CheckEachDecides(g: Graph, output: Id, deps: seq<Id>, stack: nat)
    requires Acyclic(g - {output}) && stack > |g|
    ensures CheckEach(g, output, deps, stack) != Overflow
    ensures CheckEach(g, output, deps, stack) == Valid <==>
            "" !in deps && forall d :: d in deps ==> d != output && !DependsOn(g, d, output)
  {
    if deps != [] {
      if deps[0] != output {
        SearchDecides(g, output, deps[0], stack);
      }
      CheckEachDecides(g, output, deps[1..], stack);
      assert deps[0] in deps && forall d :: d in deps[1..] ==> d in deps;
      assert forall d :: d in deps ==> d == deps[0] || d in deps[1..];
    }
  }

  /** On a graph that is acyclic once the output's own edges are set aside, a call returns, and
      accepts a non-empty dependency list exactly when no chain of more than maxDepth edges is
      already recorded from the output, no dependency is empty, and recording closes no cycle. */
  lemma VerifyDecides(g: Graph, maxDepth: nat, output: Id, deps: seq<Id>, stack: nat)
    requires Acyclic(g - {output}) && deps != [] && stack > |g| + 1
    ensures var (verdict, _) := Verify(g, maxDepth, output, deps, stack);
            verdict != Overflow &&
            (verdict == Valid <==>
              (!exists p :: IsPath(g, p) && p[0] == output && |p| == maxDepth + 2)
              && "" !in deps && Acyclic(g[output := deps]))
  {
    var g' := g[output := deps];
    assert g' - {output} == g - {output};
    assert g'.Keys == g.Keys + {output};
    DepthOkExactly(g, output, maxDepth);
    CheckEachDecides(g', output, deps, stack);
    RecordedAcyclic(g, output, deps);
  }

  /** Which dependency decides, and how: all before it are named, are not the output and do not
      depend on it. */
  lemma {:induction false} VerdictTells(g: Graph, output: Id, deps: seq<Id>, stack: nat) returns (i: nat)
    requires Acyclic(g - {output}) && stack > |g|
    ensures i <= |deps|
    ensures forall j :: 0 <= j < i ==> deps[j] != "" && deps[j] != output && !DependsOn(g, deps[j], output)
    ensures CheckEach(g, output, deps, stack) ==
            if i == |deps| then Valid
            else if deps[i] == "" then EmptyDependency
            else if deps[i] == output then SelfDependency
            else Circular
    ensures i < |deps| ==> deps[i] == "" || deps[i] == output || DependsOn(g, deps[i], output)
  {
    i := 0;
    if deps != [] && deps[0] != "" && deps[0] != output {
      SearchDecides(g, output, deps[0], stack);
      if !DependsOn(g, deps[0], output) {
        i := VerdictTells(g, output, deps[1..], stack);
        i := i + 1;
      }
    }
  }

  lemma {:induction false} CyclicVerdict(g: Graph, output: Id, deps: seq<Id>, stack: nat)
    requires CheckEach(g, output, deps, stack) in {SelfDependency, Circular}
    ensures exists d :: d in deps && (d == output || DependsOn(g, d, output))
  {
    if deps[0] == output {
      assert deps[0] in deps;
    } else if Search(g, output, deps[0], stack) == Some(true) {
      var p := FoundIsPath(g, output, deps[0], stack);
      IsDependency(g, p, deps[0], output);
      assert deps[0] in deps;
    } else {
      CyclicVerdict(g, output, deps[1..], stack);
      var d :| d in deps[1..] && (d == output || DependsOn(g, d, output));
      assert d in deps;
    }
  }

  lemma FewerEdgesDepend(g: Graph, output: Id, a: Id)
    requires DependsOn(g - {output}, a, a)
    ensures DependsOn(g, a, a)
  {
    var p :| |p| >= 2 && PathBetween(g - {output}, p, a, a);
    forall k | 0 <= k < |p| - 1
      ensures Edge(g, p[k], p[k + 1])
    {
      assert Edge(g - {output}, p[k], p[k + 1]);
    }
    IsDependency(g, p, a, a);
  }

  lemma FewerEdges(g: Graph, output: Id)
    requires Acyclic(g)
    ensures Acyclic(g - {output})
  {
    forall a
      ensures !DependsOn(g - {output}, a, a)
    {
      if DependsOn(g - {output}, a, a) {
        FewerEdgesDepend(g, output, a);
      }
    }
  }

  /** From an acyclic graph a call that accepts, or that stops at the depth check, leaves an
      acyclic graph; a call rejected for a cycle leaves that cycle recorded. */
  lemma VerdictTellsAcyclic(g: Graph, maxDepth: int, output: Id, deps: seq<Id>, stack: nat)
    requires Acyclic(g) && stack > |g| + 1
    ensures var (verdict, g') := Verify(g, maxDepth, output, deps, stack);
            verdict != Overflow &&
            (verdict in {Valid, DepthExceeded} ==> Acyclic(g')) &&
            (verdict in {SelfDependency, Circular} ==> !Acyclic(g'))
  {
    var (verdict, g') := Verify(g, maxDepth, output, deps, stack);
    FewerEdges(g, output);
    if deps != [] && verdict != DepthExceeded {
      assert g' - {output} == g - {output};
      assert g'.Keys == g.Keys + {output};
      CheckEachDecides(g', output, deps, stack);
      RecordedAcyclic(g, output, deps);
      if verdict in {SelfDependency, Circular} {
        CyclicVerdict(g', output, deps, stack);
      }
    }
  }

  /** The per-dependency loop comes to a verdict: every dependency before the deciding one is clear. */
  ghost predicate Settles(g: Graph, output: Id, deps: seq<Id>)
  {
    deps == [] || deps[0] == "" || deps[0] == output || Hits(g, output, deps[0])
    || (Clear(g, output, deps[0]) && Settles(g, output, deps[1..]))
  }

  lemma {:induction false} MoreStackEach(g: Graph, output: Id, deps: seq<Id>, stack: nat, more: nat)
    requires CheckEach(g, output, deps, stack) != Overflow && stack <= more
    ensures CheckEach(g, output, deps, more) == CheckEach(g, output, deps, stack)
  {
    if deps != [] && deps[0] != "" && deps[0] != output {
      MoreStack(g, output, deps[0], stack, more);
      if Search(g, output, deps[0], stack) == Some(false) {
        MoreStackEach(g, output, deps[1..], stack, more);
      }
    }
  }

  lemma {:induction false} VerdictSettles(g: Graph, output: Id, deps: seq<Id>, stack: nat)
    requires CheckEach(g, output, deps, stack) != Overflow
    ensures Settles(g, output, deps)
  {
    if deps != [] && deps[0] != "" && deps[0] != output {
      if Search(g, output, deps[0], stack) == Some(false) {
        FalseIsClear(g, output, deps[0], stack);
        VerdictSettles(g, output, deps[1..], stack);
      } else {
        var p := TrueHits(g, output, deps[0], stack);
      }
    }
  }

  lemma {:induction false} SettlesEnds(g: Graph, output: Id, deps: seq<Id>) returns (stack: nat)
    requires Settles(g, output, deps)
    ensures CheckEach(g, output, deps, stack) != Overflow
  {
    stack := 0;
    if deps != [] && deps[0] != "" && deps[0] != output {
      SearchEndsExactly(g, output, deps[0]);
      if Hits(g, output, deps[0]) {
        stack :| Search(g, output, deps[0], stack) == Some(true);
      } else {
        var here: nat :| Search(g, output, deps[0], here) == Some(false);
        var rest := SettlesEnds(g, output, deps[1..]);
        stack := if here < rest then rest else here;
        MoreStack(g, output, deps[0], here, stack);
        MoreStackEach(g, output, deps[1..], rest, stack);
      }
    }
  }

  /** On any recorded graph a call returns exactly when it has nothing to search, or when its
      dependencies are clear up to one that decides. */
  lemma VerifyEndsExactly(g: Graph, maxDepth: int, output: Id, deps: seq<Id>)
    ensures (exists stack: nat :: Verify(g, maxDepth, output, deps, stack).0 != Overflow) <==>
            deps == [] || !DepthOk(g, output, Budget(maxDepth, 0)) || Settles(g[output := deps], output, deps)
  {
    var g' := g[output := deps];
    if deps == [] || !DepthOk(g, output, Budget(maxDepth, 0)) {
      assert Verify(g, maxDepth, output, deps, 0).0 != Overflow;
    } else if Settles(g', output, deps) {
      var stack := SettlesEnds(g', output, deps);
      assert Verify(g, maxDepth, output, deps, stack).0 != Overflow;
    } else {
      forall stack: nat
        ensures Verify(g, maxDepth, output, deps, stack).0 == Overflow
      {
        if CheckEach(g', output, deps, stack) != Overflow {
          VerdictSettles(g', output, deps, stack);
        }
      }
    }
  }

  datatype Call = Call(output: Id, deps: seq<Id>)

  function Run(g: Graph, maxDepth: int, calls: seq<Call>, stack: nat): (seq<Verdict>, Graph)
    decreases |calls|
  {
    if calls == [] then ([], g) else
      var (verdict, g') := Verify(g, maxDepth, calls[0].output, calls[0].deps, stack);
      var (verdicts, g'') := Run(g', maxDepth, calls[1..], stack);
      ([verdict] + verdicts, g'')
  }

  /** The graph one call leaves: its edges are recorded once it passes the depth check. */
  function Recorded(g: Graph, maxDepth: int, call: Call): Graph
  {
    if call.deps != [] && DepthOk(g, call.output, Budget(maxDepth, 0)) then g[call.output := call.deps] else g
  }

  /** A call that reaches recording names its output, or something that depends on it already. */
  ghost predicate ClosesCycle(g: Graph, maxDepth: int, call: Call)
  {
    DepthOk(g, call.output, Budget(maxDepth, 0))
    && exists d :: d in call.deps && (d == call.output || DependsOn(g, d, call.output))
  }

  ghost predicate NoneCloses(g: Graph, maxDepth: int, calls: seq<Call>)
    decreases |calls|
  {
    calls == []
    || (!ClosesCycle(g, maxDepth, calls[0]) && NoneCloses(Recorded(g, maxDepth, calls[0]), maxDepth, calls[1..]))
  }

  lemma VerifyRecords(g: Graph, maxDepth: int, call: Call, stack: nat)
    ensures Verify(g, maxDepth, call.output, call.deps, stack).1 == Recorded(g, maxDepth, call)
  {
  }

  /** What depends on the output does so whatever the output's own edges are. */
  lemma DependsBefore(g: Graph, output: Id, deps: seq<Id>, d: Id)
    requires d != output && DependsOn(g, d, output)
    ensures DependsOn(g[output := deps], d, output)
  {
    var p :| |p| >= 2 && PathBetween(g, p, d, output);
    var q := FirstArrival(g, p, output);
    forall k | 0 <= k < |q| - 1
      ensures Edge(g[output := deps], q[k], q[k + 1])
    {
      assert Edge(g, q[k], q[k + 1]);
    }
    IsDependency(g[output := deps], q, d, output);
  }

  lemma {:induction false} FirstArrival(g: Graph, p: seq<Id>, output: Id) returns (q: seq<Id>)
    requires |p| >= 2 && PathBetween(g, p, p[0], output) && p[0] != output
    ensures |q| >= 2 && PathBetween(g, q, p[0], output) && forall k :: 0 <= k < |q| - 1 ==> q[k] != output
    decreases |p|
  {
    if p[1] == output {
      SubPath(g, p, 0, 2);
      q := p[0..2];
    } else {
      SubPath(g, p, 1, |p|);
      var rest := FirstArrival(g, p[1..], output);
      q := [p[0]] + rest;
      assert Edge(g, p[0], p[1]);
      assert forall k :: 0 < k < |q| ==> q[k] == rest[k - 1];
    }
  }

  /** One call keeps an acyclic graph acyclic exactly when it closes no cycle. */
  lemma StepAcyclic(g: Graph, maxDepth: int, call: Call)
    requires Acyclic(g)
    ensures Acyclic(Recorded(g, maxDepth, call)) <==> !ClosesCycle(g, maxDepth, call)
  {
    var output, deps := call.output, call.deps;
    if deps != [] && DepthOk(g, output, Budget(maxDepth, 0)) {
      var g' := g[output := deps];
      FewerEdges(g, output);
      RecordedAcyclic(g, output, deps);
      forall d | d in deps && d != output
        ensures DependsOn(g', d, output) <==> DependsOn(g, d, output)
      {
        if DependsOn(g, d, output) {
          DependsBefore(g, output, deps, d);
        }
        if DependsOn(g', d, output) {
          if output in g {
            assert g'[output := g[output]] == g;
            DependsBefore(g', output, g[output], d);
          } else {
            NothingRecorded(g, output, deps, d);
          }
        }
      }
    }
  }

  lemma NothingRecorded(g: Graph, output: Id, deps: seq<Id>, d: Id)
    requires d != output && output !in g && DependsOn(g[output := deps], d, output)
    ensures DependsOn(g, d, output)
  {
    var g' := g[output := deps];
    var p :| |p| >= 2 && PathBetween(g', p, d, output);
    var q := FirstArrival(g', p, output);
    forall k | 0 <= k < |q| - 1
      ensures Edge(g, q[k], q[k + 1])
    {
      assert Edge(g', q[k], q[k + 1]);
    }
    IsDependency(g, q, d, output);
  }

  /** A recorded cycle is there for good: no output on it passes the depth check again. */
  lemma CyclesArePermanent(g: Graph, maxDepth: int, call: Call, c: Id)
    requires DependsOn(g, c, c)
    ensures DependsOn(Recorded(g, maxDepth, call), c, c)
  {
    var g' := Recorded(g, maxDepth, call);
    var cycle :| |cycle| >= 2 && PathBetween(g, cycle, c, c);
    if call.output in cycle {
      OnCycleTooDeep(g, cycle, call.output, Budget(maxDepth, 0));
    } else {
      forall k | 0 <= k < |cycle| - 1
        ensures Edge(g', cycle[k], cycle[k + 1])
      {
        assert Edge(g, cycle[k], cycle[k + 1]);
      }
      IsDependency(g', cycle, c, c);
    }
  }

  lemma OnCycleTooDeep(g: Graph, cycle: seq<Id>, output: Id, budget: int)
    requires |cycle| >= 2 && PathBetween(g, cycle, cycle[0], cycle[0]) && output in cycle && budget >= -1
    ensures !DepthOk(g, output, budget)
  {
    var i :| 0 <= i < |cycle| && cycle[i] == output;
    SubPath(g, cycle, i, |cycle|);
    var q := CycleGivesLongWalk(g, cycle[i..|cycle|], cycle, budget + 2);
    SubPath(g, q, 0, budget + 2);
    DepthOkExactly(g, output, budget);
    assert budget + 2 > 0 && IsPath(g, q[0..budget + 2]) && q[0..budget + 2][0] == output;
  }

  lemma {:induction false} RunKeepsCycle(g: Graph, maxDepth: int, calls: seq<Call>, stack: nat, c: Id)
    requires DependsOn(g, c, c)
    ensures DependsOn(Run(g, maxDepth, calls, stack).1, c, c)
    decreases |calls|
  {
    if calls != [] {
      VerifyRecords(g, maxDepth, calls[0], stack);
      CyclesArePermanent(g, maxDepth, calls[0], c);
      RunKeepsCycle(Recorded(g, maxDepth, calls[0]), maxDepth, calls[1..], stack, c);
    }
  }

  /** Over every run from an acyclic graph, the final graph is acyclic exactly when no call that
      reaches recording names its output or something that depends on it by then. */
  lemma {:induction false} RunsStayAcyclic(g: Graph, maxDepth: int, calls: seq<Call>, stack: nat)
    requires Acyclic(g)
    ensures Acyclic(Run(g, maxDepth, calls, stack).1) <==> NoneCloses(g, maxDepth, calls)
    decreases |calls|
  {
    if calls != [] {
      var g' := Recorded(g, maxDepth, calls[0]);
      VerifyRecords(g, maxDepth, calls[0], stack);
      StepAcyclic(g, maxDepth, calls[0]);
      if ClosesCycle(g, maxDepth, calls[0]) {
        var c :| DependsOn(g', c, c);
        RunKeepsCycle(g', maxDepth, calls[1..], stack, c);
      } else {
        RunsStayAcyclic(g', maxDepth, calls[1..], stack);
      }
    }
  }

  /** Over such a run every search ends, with one frame per recorded output and call, and no call
      is rejected for a cycle. */
  lemma {:induction false} RunsEnd(g: Graph, maxDepth: int, calls: seq<Call>, stack: nat)
    requires Acyclic(g) && NoneCloses(g, maxDepth, calls) && stack > |g| + |calls| + 1
    ensures forall v :: v in Run(g, maxDepth, calls, stack).0 ==> v in {Valid, DepthExceeded, EmptyDependency}
    decreases |calls|
  {
    if calls != [] {
      var (verdict, g') := Verify(g, maxDepth, calls[0].output, calls[0].deps, stack);
      var (verdicts, _) := Run(g', maxDepth, calls[1..], stack);
      VerifyRecords(g, maxDepth, calls[0], stack);
      StepAcyclic(g, maxDepth, calls[0]);
      VerdictTellsAcyclic(g, maxDepth, calls[0].output, calls[0].deps, stack);
      assert g'.Keys <= g.Keys + {calls[0].output};
      RunsEnd(g', maxDepth, calls[1..], stack);
      assert forall v :: v in [verdict] + verdicts ==> v == verdict || v in verdicts;
    }
  }

  /** The condition is needed: a rejected self-dependency stays recorded, and the next output that
      names it is searched without end, whatever the stack. */
  lemma RejectedEdgesPoison(maxDepth: nat, stack: nat)
    ensures Run(map[], maxDepth, [Call("a", ["a"]), Call("b", ["a"])], stack).0 == [SelfDependency, Overflow]
  {
    var g := map["a" := ["a"]];
    var g' := g["b" := ["a"]];
    var calls := [Call("a", ["a"]), Call("b", ["a"])];
    var rest := calls[1..];
    assert rest == [Call("b", ["a"])] && rest[1..] == [];
    LoopForever(g', stack);
    assert Search(g', "b", "a", stack) == None;
    assert Verify(map[], maxDepth, "a", ["a"], stack) == (SelfDependency, g);
    assert Verify(g, maxDepth, "b", ["a"], stack) == (Overflow, g');
    assert Run(g', maxDepth, rest[1..], stack) == ([], g');
    assert [Overflow] + [] == [Overflow];
    assert rest[0] == Call("b", ["a"]);
    assert Run(g, maxDepth, rest, stack) == ([Overflow], g');
  }

  lemma {:induction false} LoopForever(g: Graph, stack: nat)
    requires "a" in g && g["a"] == ["a"]
    ensures Search(g, "b", "a", stack) == None
  {
    if stack > 0 {
      LoopForever(g, stack - 1);
    }
  }
}
