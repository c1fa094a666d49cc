/** Exactly which staged outputs the workers of the submission protocol can still submit
    (bridge/outputs/submit.go over bridge/outputs/stage.go). */
module Submittability {
  import opened Common
  import opened Staging
  import opened Submission

  /** Everything staged, and every dependency named, has been issued. */
  ghost predicate Issued(s: State)
  {
    forall id :: id in s.staged ==>
      id.sequence <= s.sequence
      && forall k :: 0 <= k < |s.staged[id].dependencies| ==> s.staged[id].dependencies[k].sequence <= s.sequence
  }

  lemma StepKeepsIssued(config: Config, s: State, step: Step)
    requires Issued(s) && Enabled(config, s, step)
    ensures Issued(Apply(config, s, step))
  {
  }

  lemma {:induction false} RunsStayIssued(config: Config, s: State, steps: seq<Step>)
    requires Issued(s) && ValidRun(config, s, steps)
    ensures Issued(Execute(config, s, steps))
    decreases |steps|
  {
    if steps != [] {
      StepKeepsIssued(config, s, steps[0]);
      RunsStayIssued(config, Apply(config, s, steps[0]), steps[1..]);
    }
  }

  /** An order in which one worker could submit: each output may be taken and depends only on
      what has been submitted or comes earlier. */
  ghost predicate Runnable(area: Area, order: seq<Id>)
  {
    forall k :: 0 <= k < |order| ==>
      order[k] in area && Takeable(area[order[k]]) && Supported(area, order[k], order[..k])
  }

  ghost predicate Supported(area: Area, id: Id, earlier: seq<Id>)
    requires id in area
  {
    forall j :: 0 <= j < |area[id].dependencies| ==>
      HasSubmitted(area, area[id].dependencies[j]) || area[id].dependencies[j] in earlier
  }

  ghost predicate CanRun(area: Area, id: Id)
  {
    exists order :: Runnable(area, order) && id in order
  }

  ghost predicate NewlyLogged(s: State, s': State, id: Id)
  {
    exists k :: |s.log| <= k < |s'.log| && s'.log[k].id == id
  }

  ghost predicate MaySubmit(config: Config, s: State, id: Id)
  {
    exists steps :: ValidRun(config, s, steps) && NewlyLogged(s, Execute(config, s, steps), id)
  }

  ghost predicate AllIdle(s: State)
  {
    forall w :: w in s.workers ==> s.workers[w].batch == []
  }

  lemma RunnableJoined(area: Area, first: seq<Id>, second: seq<Id>)
    requires Runnable(area, first) && Runnable(area, second)
    ensures Runnable(area, first + second)
  {
    var order := first + second;
    forall k | 0 <= k < |order|
      ensures order[k] in area && Takeable(area[order[k]]) && Supported(area, order[k], order[..k])
    {
      if k < |first| {
        assert order[..k] == first[..k];
      } else {
        assert order[..k] == first + second[..k - |first|];
      }
    }
  }

  /** One order for all the dependencies that can still run. */
  lemma {:induction false} SupportExists(area: Area, dependencies: seq<Id>) returns (order: seq<Id>)
    requires forall j :: 0 <= j < |dependencies| ==>
               HasSubmitted(area, dependencies[j]) || CanRun(area, dependencies[j])
    ensures Runnable(area, order)
    ensures forall j :: 0 <= j < |dependencies| ==> HasSubmitted(area, dependencies[j]) || dependencies[j] in order
  {
    order := [];
    if dependencies != [] {
      order := SupportExists(area, dependencies[1..]);
      assert forall j :: 1 <= j < |dependencies| ==> dependencies[j] == dependencies[1..][j - 1];
      if !HasSubmitted(area, dependencies[0]) {
        var first :| Runnable(area, first) && dependencies[0] in first;
        RunnableJoined(area, first, order);
        order := first + order;
      }
    }
  }

  lemma StuckOrRuns(area: Area, id: Id)
    requires id in area && Takeable(area[id])
    requires forall j :: 0 <= j < |area[id].dependencies| ==>
               HasSubmitted(area, area[id].dependencies[j]) || CanRun(area, area[id].dependencies[j])
    ensures CanRun(area, id)
  {
    var support := SupportExists(area, area[id].dependencies);
    var order := support + [id];
    forall k | 0 <= k < |order|
      ensures order[k] in area && Takeable(area[order[k]]) && Supported(area, order[k], order[..k])
    {
      assert order[..k] == support[..k];
      assert k == |support| ==> order[..k] == support;
    }
    assert order[|support|] == id;
    assert Runnable(area, order) && id in order;
  }

  ghost function Unrunnable(s: State): iset<Id>
  {
    iset id: Id | id.sequence <= s.sequence && !CanRun(s.staged, id)
  }

  /** With every worker idle, all that cannot run is blocked. */
  lemma CannotRunIsBlocked(s: State)
    requires Issued(s) && AllIdle(s)
    ensures Blocked(s, Unrunnable(s))
  {
    var ids := Unrunnable(s);
    forall id | id in ids && id in s.staged
      ensures Stuck(s.staged, id, ids)
    {
      if Takeable(s.staged[id]) {
        var dependencies := s.staged[id].dependencies;
        if forall j :: 0 <= j < |dependencies| ==>
             HasSubmitted(s.staged, dependencies[j]) || CanRun(s.staged, dependencies[j]) {
          StuckOrRuns(s.staged, id);
        } else {
          var j :| 0 <= j < |dependencies|
                   && !HasSubmitted(s.staged, dependencies[j]) && !CanRun(s.staged, dependencies[j]);
          assert dependencies[j] in ids;
        }
      }
    }
  }

  /** What is left of an order part of which has been submitted. */
  ghost predicate StillRunnable(area: Area, order: seq<Id>)
  {
    forall k :: 0 <= k < |order| ==>
      order[k] in area
      && (HasSubmitted(area, order[k])
          || (Takeable(area[order[k]]) && Supported(area, order[k], order[..k])))
  }

  lemma RestRunnable(area: Area, order: seq<Id>, now: int)
    requires order != [] && StillRunnable(area, order)
    ensures HasSubmitted(area, order[0]) ==> StillRunnable(area, order[1..])
    ensures StillRunnable(ProcessOne(area, order[0], true, now), order[1..])
    ensures forall id :: id != order[0] && id in area ==> ProcessOne(area, order[0], true, now)[id] == area[id]
  {
    var rest, done := order[1..], ProcessOne(area, order[0], true, now);
    assert done == area[order[0] := done[order[0]]];
    if HasSubmitted(area, order[0]) {
      SupportLeft(area, area, order);
    }
    SupportLeft(area, done, order);
  }

  lemma SupportLeft(area: Area, after: Area, order: seq<Id>)
    requires order != [] && StillRunnable(area, order) && HasSubmitted(after, order[0])
    requires after.Keys == area.Keys && forall id :: id in area && id != order[0] ==> after[id] == area[id]
    ensures StillRunnable(after, order[1..])
  {
    var rest := order[1..];
    forall k | 0 <= k < |rest| && !HasSubmitted(after, rest[k])
      ensures rest[k] in after && Takeable(after[rest[k]]) && Supported(after, rest[k], rest[..k])
    {
      assert rest[k] == order[k + 1] != order[0];
      assert !HasSubmitted(area, order[k + 1]) && Supported(area, order[k + 1], order[..k + 1]);
      assert order[..k + 1] == [order[0]] + rest[..k];
    }
  }

  lemma TakeOne(config: Config, s: State, w: nat, id: Id) returns (next: State)
    requires w in s.workers && s.workers[w].batch == [] && IsReady(s.staged, id)
    ensures ValidRun(config, s, [Take(w, [id])]) && next == Execute(config, s, [Take(w, [id])])
    ensures next == s.(workers := s.workers[w := Worker([Item(id, s.staged[id].dependencies)], Marking)])
  {
    next := Apply(config, s, Take(w, [id]));
    assert next.workers[w].batch == [Item(id, s.staged[id].dependencies)];
    ChainRuns(config, [s, next], [Take(w, [id])]);
  }

  /** One worker takes, marks, submits and finishes one ready output. */
  lemma SubmitOne(config: Config, s: State, w: nat, id: Id) returns (steps: seq<Step>)
    requires w in s.workers && s.workers[w].batch == [] && IsReady(s.staged, id)
    ensures ValidRun(config, s, steps)
    ensures var s' := Execute(config, s, steps);
            LogIds(s'.log) == LogIds(s.log) + [id] && s'.staged == ProcessOne(s.staged, id, true, 0)
            && s'.workers == s.workers[w := Worker([], Marking)] && s'.sequence == s.sequence
    ensures steps == [Take(w, [id]), Mark(w, 0), CallL0(w, true), Finish(w, 0)]
  {
    hide Apply, Enabled, ProcessOne, Execute, ValidRun, IsReady, Chained;
    var taken := TakeOne(config, s, w, id);
    var rest, next := ItemRun(config, taken, w, true, 0);
    assert taken.workers[w].batch[1..] == [];
    assert next.workers == s.workers[w := Worker([], Marking)];
    RunsJoined(config, s, [Take(w, [id])], rest);
    steps := [Take(w, [id])] + rest;
  }

  /** One idle worker submits along the order until it has submitted the output. */
  lemma {:induction false} RunOrder(config: Config, s: State, w: nat, order: seq<Id>, id: Id) returns (steps: seq<Step>)
    requires w in s.workers && s.workers[w].batch == []
    requires StillRunnable(s.staged, order) && id in order && !HasSubmitted(s.staged, id)
    ensures ValidRun(config, s, steps) && NewlyLogged(s, Execute(config, s, steps), id)
    decreases |order|
  {
    hide ValidRun, Execute, StillRunnable, ProcessOne;
    RestRunnable(s.staged, order, 0);
    if HasSubmitted(s.staged, order[0]) {
      steps := RunOrder(config, s, w, order[1..], id);
    } else {
      FirstIsReady(s.staged, order);
      var first := SubmitOne(config, s, w, order[0]);
      var next := Execute(config, s, first);
      assert LogIds(next.log)[|s.log|] == order[0];
      if id == order[0] {
        steps := first;
      } else {
        var rest := RunOrder(config, next, w, order[1..], id);
        RunsJoined(config, s, first, rest);
        steps := first + rest;
      }
    }
  }

  lemma FirstIsReady(area: Area, order: seq<Id>)
    requires order != [] && StillRunnable(area, order) && !HasSubmitted(area, order[0])
    ensures IsReady(area, order[0])
  {
    assert order[..0] == [];
  }

  /** From every state whose workers are idle, an output can still be submitted by a worker
      exactly when there is an order for it: outputs that may be taken, each depending only on
      submitted ones and on earlier ones. */
  lemma SubmittableExactly(config: Config, s: State, id: Id)
    requires s.workers != map[] && AllIdle(s) && Issued(s) && id.sequence <= s.sequence
    ensures MaySubmit(config, s, id) <==> CanRun(s.staged, id)
  {
    hide ValidRun, Execute, Blocked;
    if CanRun(s.staged, id) {
      var w :| w in s.workers;
      var order :| Runnable(s.staged, order) && id in order;
      var steps := RunOrder(config, s, w, order, id);
    } else {
      CannotRunIsBlocked(s);
      forall steps | ValidRun(config, s, steps)
        ensures !NewlyLogged(s, Execute(config, s, steps), id)
      {
        BlockedForever(config, s, steps, Unrunnable(s));
      }
    }
  }

  /** After a failed call, with no other worker at work, the output can still be submitted exactly
      when it has a retry left, provided its dependencies have been submitted. */
  lemma FailedMaySubmitExactly(config: Config, s: State, w: nat, now: int)
    requires Working(s, w, Rejected) && |s.workers[w].batch| == 1 && s.workers[w].batch[0].id in s.staged
    requires Issued(s) && AllIdle(s.(workers := s.workers - {w}))
    requires var id, s' := s.workers[w].batch[0].id, Apply(config, s, Finish(w, now));
             Satisfied(s'.staged, s.staged[id].dependencies)
    ensures var id := s.workers[w].batch[0].id;
            MaySubmit(config, Apply(config, s, Finish(w, now)), id) <==>
            s.staged[id].retryCount + 1 < s.staged[id].maxRetries
  {
    hide MaySubmit, Issued;
    var id, s' := s.workers[w].batch[0].id, Apply(config, s, Finish(w, now));
    StepKeepsIssued(config, s, Finish(w, now));
    IssuedAt(s', id);
    forall v | v in s'.workers
      ensures s'.workers[v].batch == []
    {
      if v != w {
        assert (s.workers - {w})[v].batch == [];
      }
    }
    assert w in s'.workers;
    SubmittableExactly(config, s', id);
    if Takeable(s'.staged[id]) {
      assert Runnable(s'.staged, [id]) && id in [id];
    }
  }

  lemma IssuedAt(s: State, id: Id)
    requires Issued(s) && id in s.staged
    ensures id.sequence <= s.sequence
  {
  }

  /** Stage two outputs, let the second depend on the first, submit the first, clean up an hour
      later: the second is still staged and pending, and no worker ever submits it. */
  lemma CleanupStrandsDependent(config: Config, s: State, w: nat) returns (steps: seq<Step>)
    requires config.maxStaged >= 2 && Initial(s) && w in s.workers
    ensures var first, second, lasting := Id(0, s.sequence + 1), Id(0, s.sequence + 2), Metadata(Some(2 * HOUR), 0, 0);
            steps == [Stage(0, lasting), Stage(0, lasting), AddDependency(second, first), Take(w, [first]),
                      Mark(w, 0), CallL0(w, true), Finish(w, 0), Step.Cleanup(HOUR + 1)]
    ensures ValidRun(config, s, steps)
    ensures var s', first, second := Execute(config, s, steps), Id(0, s.sequence + 1), Id(0, s.sequence + 2);
            Succeeded(s'.log, first) && first !in s'.staged && second in s'.staged
            && s'.staged[second].status == Pending && !MaySubmit(config, s', second)
  {
    hide ValidRun, Execute, Apply, Enabled, ProcessOne, CanRun, MaySubmit, Cleaned;
    var first, second := Id(0, s.sequence + 1), Id(0, s.sequence + 2);
    var staging, s1 := TwoStaged(config, s, first, second);
    DependencySwept(config, s1.staged, first, second);
    var submitting := SubmitOne(config, s1, w, first);
    var s2 := Execute(config, s1, submitting);
    assert LogIds(s2.log)[|s1.log|] == first;
    var cleaning, s3 := CleanedUp(config, s2, HOUR + 1);
    assert w in s3.workers && first in s3.staged[second].dependencies;
    MissingDependency(s3.staged, first, second);
    SubmittableExactly(config, s3, second);
    RunsJoined(config, s1, submitting, cleaning);
    RunsJoined(config, s, staging, submitting + cleaning);
    steps := staging + (submitting + cleaning);
  }

  lemma TwoStaged(config: Config, s: State, first: Id, second: Id) returns (steps: seq<Step>, next: State)
    requires config.maxStaged >= 2 && Initial(s) && first == Id(0, s.sequence + 1) && second == Id(0, s.sequence + 2)
    ensures ValidRun(config, s, steps) && next == Execute(config, s, steps)
    ensures next.workers == s.workers && next.sequence == s.sequence + 2 && Pair(config, next.staged, first, second)
    ensures var lasting := Metadata(Some(2 * HOUR), 0, 0);
            steps == [Stage(0, lasting), Stage(0, lasting), AddDependency(second, first)]
  {
    var lasting := Metadata(Some(2 * HOUR), 0, 0);
    var s1 := Apply(config, s, Stage(0, lasting));
    var s2 := Apply(config, s1, Stage(0, lasting));
    next := Apply(config, s2, AddDependency(second, first));
    assert |s1.staged| == 1;
    assert Enabled(config, s1, Stage(0, lasting)) && Enabled(config, s2, AddDependency(second, first));
    assert NewOutput(config, 0, lasting).dependencies + [first] == [first];
    hide Apply, Enabled, Execute, ValidRun;
    steps := [Stage(0, lasting), Stage(0, lasting), AddDependency(second, first)];
    ChainRuns(config, [s, s1, s2, next], steps);
  }

  /** Two outputs that last two hours, the second depending on the first. */
  ghost predicate Pair(config: Config, area: Area, first: Id, second: Id)
  {
    var output := NewOutput(config, 0, Metadata(Some(2 * HOUR), 0, 0));
    first != second && area == map[first := output, second := output.(dependencies := [first])]
  }

  lemma CleanedUp(config: Config, s: State, now: int) returns (steps: seq<Step>, next: State)
    ensures ValidRun(config, s, steps) && next == Execute(config, s, steps)
    ensures next == s.(staged := Cleaned(s.staged, now)) && steps == [Step.Cleanup(now)]
  {
    next := Apply(config, s, Step.Cleanup(now));
    steps := [Step.Cleanup(now)];
    ChainRuns(config, [s, next], steps);
  }

  lemma DependencySwept(config: Config, area: Area, first: Id, second: Id)
    requires Pair(config, area, first, second)
    ensures IsReady(area, first)
    ensures var left := Cleaned(ProcessOne(area, first, true, 0), HOUR + 1);
            left.Keys == {second} && left[second].dependencies == [first] && left[second].status == Pending
  {
  }

  lemma RunnableNeeds(area: Area, order: seq<Id>, id: Id)
    requires Runnable(area, order) && id in order
    ensures id in area && forall d :: d in area[id].dependencies ==> d in area
  {
    var k :| 0 <= k < |order| && order[k] == id;
    forall d | d in area[id].dependencies
      ensures d in area
    {
      var j :| 0 <= j < |area[id].dependencies| && area[id].dependencies[j] == d;
      if d in order[..k] {
        var i :| 0 <= i < k && order[..k][i] == d;
        assert order[i] in area;
      }
    }
  }

  lemma MissingDependency(area: Area, first: Id, second: Id)
    requires first !in area && second in area && first in area[second].dependencies
    ensures !CanRun(area, second)
  {
    forall order | Runnable(area, order)
      ensures second !in order
    {
      if second in order {
        RunnableNeeds(area, order, second);
        assert false;
      }
    }
  }
}
