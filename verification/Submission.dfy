/** The submission workers (bridge/outputs/submit.go) as interleaved steps over the staging
    area. A worker takes a snapshot of ready outputs and then, item by item, marks the output,
    calls L0 and records the result; the lock is released between those steps, so any other
    worker, caller or cleanup may move in between. L0 may also accept an envelope whose reply
    never arrives: the client then sends it again, or gives up and the call fails. */
module Submission {
  import opened Common
  import opened Staging

  /** An output in a worker's batch, with the dependencies it had when it was taken. */
  datatype Item = Item(id: Id, needed: seq<Id>)

  datatype Phase = Marking | Calling | Accepted | Rejected

  /** An idle worker has an empty batch; the phase is that of the first item. */
  datatype Worker = Worker(batch: seq<Item>, phase: Phase)

  /** A submission by a worker that L0 accepted, and whether the worker heard of it. */
  datatype Event = Event(worker: nat, id: Id, needed: seq<Id>, heard: bool)

  datatype State = State(staged: Area, sequence: nat, workers: map<nat, Worker>, log: seq<Event>)

  datatype Step =
    | Stage(now: int, metadata: Metadata)
    | AddDependency(id: Id, on: Id)
    | Remove(id: Id)
    | Cleanup(now: int)
    | Close
    | Manual(id: Id)
    | Take(worker: nat, ids: seq<Id>)
    | Mark(worker: nat, now: int)
    | CallL0(worker: nat, ok: bool)
    | LoseReply(worker: nat)
    | Finish(worker: nat, now: int)

  // ---------- The transition system ----------

  predicate Working(s: State, w: nat, phase: Phase)
  {
    w in s.workers && s.workers[w].batch != [] && s.workers[w].phase == phase
  }

  predicate Enabled(config: Config, s: State, step: Step)
  {
    match step
    case Stage(_, _) => |s.staged| < config.maxStaged
    case AddDependency(id, on) => id in s.staged && on in s.staged
    case Remove(id) => id in s.staged
    case Cleanup(_) => true
    case Close => true
    case Manual(id) => id in s.staged
    case Take(w, ids) =>
      w in s.workers && s.workers[w].batch == []
      && (forall k :: 0 <= k < |ids| ==> IsReady(s.staged, ids[k]))
      && (forall j, k :: 0 <= j < k < |ids| ==> ids[j] != ids[k])
    case Mark(w, _) => Working(s, w, Marking)
    case CallL0(w, _) => Working(s, w, Calling)
    case LoseReply(w) => Working(s, w, Calling)
    case Finish(w, _) => Working(s, w, Accepted) || Working(s, w, Rejected)
  }

  function Items(area: Area, ids: seq<Id>): (items: seq<Item>)
    requires forall k :: 0 <= k < |ids| ==> ids[k] in area
    ensures |items| == |ids|
    ensures forall k :: 0 <= k < |ids| ==> items[k] == Item(ids[k], area[ids[k]].dependencies)
  {
    if ids == [] then [] else [Item(ids[0], area[ids[0]].dependencies)] + Items(area, ids[1..])
  }

  function Dropped(worker: Worker): Worker
    requires worker.batch != []
  {
    Worker(worker.batch[1..], Marking)
  }

  function Apply(config: Config, s: State, step: Step): State
    requires Enabled(config, s, step)
  {
    match step
    case Stage(now, metadata) =>
      s.(sequence := s.sequence + 1,
         staged := s.staged[Id(now, s.sequence + 1) := NewOutput(config, now, metadata)])
    case AddDependency(id, on) => s.(staged := WithDependency(s.staged, id, on))
    case Remove(id) => s.(staged := s.staged - {id})
    case Cleanup(now) => s.(staged := Cleaned(s.staged, now))
    case Close => s.(staged := map[])
    // A manual submission reads the area and calls L0; it updates no status.
    case Manual(_) => s
    case Take(w, ids) => s.(workers := s.workers[w := Worker(Items(s.staged, ids), Marking)])
    case Mark(w, now) =>
      var worker := s.workers[w];
      var id := worker.batch[0].id;
      if id in s.staged then
        s.(staged := WithStatus(s.staged, id, Submitting, now),
           workers := s.workers[w := worker.(phase := Calling)])
      else s.(workers := s.workers[w := Dropped(worker)])
    case CallL0(w, ok) =>
      var worker := s.workers[w];
      if ok then
        s.(workers := s.workers[w := worker.(phase := Accepted)],
           log := s.log + [Event(w, worker.batch[0].id, worker.batch[0].needed, true)])
      else s.(workers := s.workers[w := worker.(phase := Rejected)])
    // One attempt of the call: the client may make more, or return the error.
    case LoseReply(w) =>
      var item := s.workers[w].batch[0];
      s.(log := s.log + [Event(w, item.id, item.needed, false)])
    case Finish(w, now) =>
      var worker := s.workers[w];
      var id := worker.batch[0].id;
      s.(staged := if id !in s.staged then s.staged
                   else if worker.phase == Accepted then WithStatus(s.staged, id, Submitted, now)
                   else WithFailure(s.staged, id),
         workers := s.workers[w := Dropped(worker)])
  }

  ghost predicate Initial(s: State)
  {
    s.staged == map[] && s.log == [] && forall w :: w in s.workers ==> s.workers[w] == Worker([], Marking)
  }

  /** Every step is enabled where it is taken. */
  predicate ValidRun(config: Config, s: State, steps: seq<Step>)
    decreases |steps|
  {
    steps == [] || (Enabled(config, s, steps[0]) && ValidRun(config, Apply(config, s, steps[0]), steps[1..]))
  }

  function Execute(config: Config, s: State, steps: seq<Step>): State
    requires ValidRun(config, s, steps)
    decreases |steps|
  {
    if steps == [] then s else Execute(config, Apply(config, s, steps[0]), steps[1..])
  }

  /** The area never holds more outputs than the configuration allows. */
  lemma {:induction false} RunsStayWithinCapacity(config: Config, s: State, steps: seq<Step>)
    requires ValidRun(config, s, steps) && |s.staged| <= config.maxStaged
    ensures |Execute(config, s, steps).staged| <= config.maxStaged
    decreases |steps|
  {
    if steps != [] {
      StepGrows(config, s, steps[0]);
      RunsStayWithinCapacity(config, Apply(config, s, steps[0]), steps[1..]);
    }
  }

  lemma StepKeys(config: Config, s: State, step: Step)
    requires Enabled(config, s, step)
    ensures Apply(config, s, step).staged.Keys <=
            s.staged.Keys + if step.Stage? then {Id(step.now, s.sequence + 1)} else {}
    ensures step.Stage? ==> |s.staged| < config.maxStaged
  {
  }

  lemma StepGrows(config: Config, s: State, step: Step)
    requires Enabled(config, s, step)
    ensures |Apply(config, s, step).staged| <= |s.staged| + if step.Stage? then 1 else 0
    ensures step.Stage? ==> |s.staged| < config.maxStaged
  {
    hide Apply, Enabled;
    StepKeys(config, s, step);
    var before, after := s.staged, Apply(config, s, step).staged;
    var added := if step.Stage? then {Id(step.now, s.sequence + 1)} else {};
    SubsetSize(after.Keys, before.Keys + added);
    assert |after.Keys| == |after| && |before.Keys| == |before|;
  }

  lemma SubsetSize<T>(small: set<T>, large: set<T>)
    requires small <= large
    ensures |small| <= |large|
  {
    assert large == small + (large - small);
  }

  // ---------- Dependencies come first ----------

  ghost predicate Succeeded(log: seq<Event>, id: Id)
  {
    exists k :: 0 <= k < |log| && log[k].id == id
  }

  ghost predicate AllSucceeded(log: seq<Event>, ids: seq<Id>)
  {
    forall k :: 0 <= k < |ids| ==> Succeeded(log, ids[k])
  }

  /** Each accepted submission comes after one of every dependency its output had when taken. */
  ghost predicate DependenciesFirst(log: seq<Event>)
  {
    forall k :: 0 <= k < |log| ==> AllSucceeded(log[..k], log[k].needed)
  }

  ghost predicate WorkerSound(log: seq<Event>, worker: Worker)
  {
    (forall k :: 0 <= k < |worker.batch| ==> AllSucceeded(log, worker.batch[k].needed))
    && (worker.phase == Accepted ==> worker.batch != [] && Succeeded(log, worker.batch[0].id))
  }

  ghost predicate Inv(s: State)
  {
    DependenciesFirst(s.log)
    && (forall id :: id in s.staged && s.staged[id].status == Submitted ==> Succeeded(s.log, id))
    && (forall w :: w in s.workers ==> WorkerSound(s.log, s.workers[w]))
  }

  lemma LogGrows(log: seq<Event>, e: Event)
    ensures forall id :: Succeeded(log, id) ==> Succeeded(log + [e], id)
    ensures Succeeded(log + [e], e.id)
    ensures forall ids :: AllSucceeded(log, ids) ==> AllSucceeded(log + [e], ids)
    ensures forall worker :: WorkerSound(log, worker) ==> WorkerSound(log + [e], worker)
    ensures DependenciesFirst(log) && AllSucceeded(log, e.needed) ==> DependenciesFirst(log + [e])
  {
    var longer := log + [e];
    forall id | Succeeded(log, id)
      ensures Succeeded(longer, id)
    {
      var k :| 0 <= k < |log| && log[k].id == id;
      assert longer[k].id == id;
    }
    assert longer[|log|].id == e.id;
    assert forall k :: 0 <= k < |longer| ==> longer[..k] == if k < |log| then log[..k] else log;
  }

  lemma StepKeepsInv(config: Config, s: State, step: Step)
    requires Inv(s) && Enabled(config, s, step)
    ensures Inv(Apply(config, s, step))
  {
    var s' := Apply(config, s, step);
    match step
    case CallL0(w, ok) =>
      if ok {
        var worker := s.workers[w];
        LogGrows(s.log, Event(w, worker.batch[0].id, worker.batch[0].needed, true));
      }
    case LoseReply(w) =>
      var item := s.workers[w].batch[0];
      LogGrows(s.log, Event(w, item.id, item.needed, false));
    case Take(w, ids) =>
      forall k | 0 <= k < |ids|
        ensures AllSucceeded(s.log, s'.workers[w].batch[k].needed)
      {
        assert IsReady(s.staged, ids[k]);
      }
    case _ =>
  }

  lemma {:induction false} RunKeepsInv(config: Config, s: State, steps: seq<Step>)
    requires Inv(s) && ValidRun(config, s, steps)
    ensures Inv(Execute(config, s, steps))
    decreases |steps|
  {
    if steps != [] {
      StepKeepsInv(config, s, steps[0]);
      RunKeepsInv(config, Apply(config, s, steps[0]), steps[1..]);
    }
  }

  /** In every interleaving of any number of workers. */
  lemma SubmittedAfterDependencies(config: Config, s: State, steps: seq<Step>)
    requires Initial(s) && ValidRun(config, s, steps)
    ensures DependenciesFirst(Execute(config, s, steps).log)
  {
    RunKeepsInv(config, s, steps);
  }

  // ---------- Blocked outputs ----------

  /** Issued outputs, none in a batch, each of those still staged either past the statuses a
      worker takes or waiting for another member: a dependency cycle, an output whose dependency
      has left the area, one that has failed for good. */
  ghost predicate Blocked(s: State, ids: iset<Id>)
  {
    (forall id :: id in ids ==> id.sequence <= s.sequence)
    && (forall id :: id in ids && id in s.staged ==> Stuck(s.staged, id, ids))
    && (forall w, k :: w in s.workers && 0 <= k < |s.workers[w].batch| ==> s.workers[w].batch[k].id !in ids)
  }

  predicate Takeable(output: Output)
  {
    output.status == Ready || output.status == Pending
  }

  ghost predicate Stuck(area: Area, id: Id, ids: iset<Id>)
    requires id in area
  {
    !Takeable(area[id]) || WaitsFor(area, area[id].dependencies, ids)
  }

  ghost predicate WaitsFor(area: Area, dependencies: seq<Id>, ids: iset<Id>)
  {
    exists k :: 0 <= k < |dependencies| && dependencies[k] in ids && !HasSubmitted(area, dependencies[k])
  }

  predicate HasSubmitted(area: Area, id: Id)
  {
    id in area && area[id].status == Submitted
  }

  lemma StepKeepsBlocked(config: Config, s: State, step: Step, ids: iset<Id>)
    requires Blocked(s, ids) && Enabled(config, s, step)
    ensures var s' := Apply(config, s, step);
            Blocked(s', ids) && (s'.log == s.log || exists e: Event :: e.id !in ids && s'.log == s.log + [e])
  {
    var s' := Apply(config, s, step);
    match step
    case AddDependency(id, on) =>
      if id in ids && s'.staged != s.staged {
        var dependencies := s.staged[id].dependencies;
        if WaitsFor(s.staged, dependencies, ids) {
          var k :| 0 <= k < |dependencies| && dependencies[k] in ids && !HasSubmitted(s.staged, dependencies[k]);
          assert s'.staged[id].dependencies[k] in ids;
        }
      }
    case Take(w, taken) =>
      forall k | 0 <= k < |taken|
        ensures taken[k] !in ids
      {
        assert IsReady(s.staged, taken[k]);
      }
    case CallL0(w, ok) =>
      var worker := s.workers[w];
      assert worker.batch[0].id !in ids;
      if ok {
        assert s'.log == s.log + [Event(w, worker.batch[0].id, worker.batch[0].needed, true)];
      }
    case LoseReply(w) =>
      var item := s.workers[w].batch[0];
      assert item.id !in ids;
      assert s'.log == s.log + [Event(w, item.id, item.needed, false)];
    case _ =>
  }

  /** Whatever happens next, no worker submits a blocked output. */
  lemma {:induction false} BlockedForever(config: Config, s: State, steps: seq<Step>, ids: iset<Id>)
    requires Blocked(s, ids) && ValidRun(config, s, steps)
    ensures var s' := Execute(config, s, steps);
            |s.log| <= |s'.log| && s'.log[..|s.log|] == s.log &&
            forall k :: |s.log| <= k < |s'.log| ==> s'.log[k].id !in ids
    decreases |steps|
  {
    if steps != [] {
      var next := Apply(config, s, steps[0]);
      StepKeepsBlocked(config, s, steps[0], ids);
      BlockedForever(config, next, steps[1..], ids);
      var log := Execute(config, s, steps).log;
      assert log[..|s.log|] == log[..|next.log|][..|s.log|];
    }
  }

  /** Each output depends on the next, and the last on the first. */
  ghost predicate DependencyCycle(area: Area, cycle: seq<Id>)
  {
    cycle != [] && forall k :: 0 <= k < |cycle| ==>
      cycle[k] in area && cycle[if k + 1 < |cycle| then k + 1 else 0] in area[cycle[k]].dependencies
  }

  ghost predicate Untouched(s: State, id: Id)
  {
    id in s.staged && id.sequence <= s.sequence && s.staged[id].status != Submitted && !Succeeded(s.log, id)
    && forall w, j :: w in s.workers && 0 <= j < |s.workers[w].batch| ==> s.workers[w].batch[j].id != id
  }

  lemma CycleIsBlocked(s: State, cycle: seq<Id>)
    requires DependencyCycle(s.staged, cycle)
    requires forall k :: 0 <= k < |cycle| ==> Untouched(s, cycle[k])
    ensures Blocked(s, iset k | 0 <= k < |cycle| :: cycle[k])
  {
    var ids := iset k | 0 <= k < |cycle| :: cycle[k];
    forall id | id in ids
      ensures Untouched(s, id) && WaitsFor(s.staged, s.staged[id].dependencies, ids)
    {
      var k :| 0 <= k < |cycle| && cycle[k] == id;
      var next := cycle[if k + 1 < |cycle| then k + 1 else 0];
      assert next in ids && next in s.staged[id].dependencies;
    }
  }

  /** A cycle no member of which has been taken or submitted is never submitted. */
  lemma CyclesNeverSubmitted(config: Config, s: State, steps: seq<Step>, cycle: seq<Id>)
    requires ValidRun(config, s, steps) && DependencyCycle(s.staged, cycle)
    requires forall k :: 0 <= k < |cycle| ==> Untouched(s, cycle[k])
    ensures forall k :: 0 <= k < |cycle| ==> !Succeeded(Execute(config, s, steps).log, cycle[k])
  {
    hide Execute, ValidRun, Blocked, DependencyCycle;
    var ids := iset k | 0 <= k < |cycle| :: cycle[k];
    CycleIsBlocked(s, cycle);
    BlockedForever(config, s, steps, ids);
    var log := Execute(config, s, steps).log;
    assert forall j :: 0 <= j < |s.log| ==> log[j] == log[..|s.log|][j];
    forall k, j | 0 <= k < |cycle| && 0 <= j < |log|
      ensures log[j].id != cycle[k]
    {
      assert cycle[k] in ids;
    }
  }

  /** An output one of whose dependencies has been cleaned up or removed is never submitted. */
  lemma LostDependencyBlocks(config: Config, s: State, steps: seq<Step>, id: Id, lost: Id)
    requires ValidRun(config, s, steps) && id in s.staged && lost in s.staged[id].dependencies && lost !in s.staged
    requires id.sequence <= s.sequence && lost.sequence <= s.sequence
    requires forall w, j :: w in s.workers && 0 <= j < |s.workers[w].batch| ==> s.workers[w].batch[j].id !in {id, lost}
    ensures var log := Execute(config, s, steps).log;
            forall k :: |s.log| <= k < |log| ==> log[k].id != id
  {
    assert WaitsFor(s.staged, s.staged[id].dependencies, iset{id, lost});
    BlockedForever(config, s, steps, iset{id, lost});
  }

  /** No worker has the output in its batch, and its identifier has been issued. */
  ghost predicate Unheld(s: State, id: Id)
  {
    id.sequence <= s.sequence
    && forall w, k :: w in s.workers && 0 <= k < |s.workers[w].batch| ==> s.workers[w].batch[k].id != id
  }

  ghost predicate NotLoggedAgain(s: State, s': State, id: Id)
  {
    forall k :: |s.log| <= k < |s'.log| ==> s'.log[k].id != id
  }

  /** An output that no worker holds and that is removed, cleaned up because it has expired, or
      dropped when the area is closed is never submitted. */
  lemma LeftNeverSubmitted(config: Config, s: State, step: Step, steps: seq<Step>, id: Id)
    requires Unheld(s, id) && Enabled(config, s, step)
    requires step == Remove(id) || step == Close
             || (step.Cleanup? && id in s.staged && step.now > s.staged[id].expiresAt)
    requires ValidRun(config, Apply(config, s, step), steps)
    ensures NotLoggedAgain(s, Execute(config, Apply(config, s, step), steps), id)
  {
    BlockedForever(config, Apply(config, s, step), steps, iset{id});
  }

  /** A failure at the last retry is final: once a worker has recorded it, no continuation submits
      the output, if no other worker holds it. */
  lemma LastFailureIsFinal(config: Config, s: State, w: nat, now: int, steps: seq<Step>)
    requires Working(s, w, Rejected)
    requires var id := s.workers[w].batch[0].id;
             id in s.staged && s.staged[id].retryCount + 1 >= s.staged[id].maxRetries
             && Unheld(s.(workers := s.workers[w := Dropped(s.workers[w])]), id)
    requires ValidRun(config, Apply(config, s, Finish(w, now)), steps)
    ensures var id, s' := s.workers[w].batch[0].id, Apply(config, s, Finish(w, now));
            s'.staged[id].status == Failed && NotLoggedAgain(s, Execute(config, s', steps), id)
  {
    BlockedForever(config, Apply(config, s, Finish(w, now)), steps, iset{s.workers[w].batch[0].id});
  }

  /** Worker w has marked the output and not yet recorded a result; no other worker holds it. */
  ghost predicate Exclusive(s: State, w: nat, id: Id)
  {
    w in s.workers && s.workers[w].batch != [] && s.workers[w].batch[0].id == id && s.workers[w].phase != Marking
    && (id in s.staged ==> s.staged[id].status == Submitting) && id.sequence <= s.sequence
    && forall v, k :: v in s.workers && v != w && 0 <= k < |s.workers[v].batch| ==> s.workers[v].batch[k].id != id
  }

  lemma StepKeepsExclusive(config: Config, s: State, step: Step, w: nat, id: Id)
    requires Exclusive(s, w, id) && Enabled(config, s, step) && !(step.Finish? && step.worker == w)
    ensures var s' := Apply(config, s, step);
            Exclusive(s', w, id) && (s'.log == s.log || exists e: Event :: (e.id == id ==> e.worker == w) && s'.log == s.log + [e])
  {
    match step
    case Take(v, taken) =>
      forall k | 0 <= k < |taken|
        ensures taken[k] != id
      {
        assert IsReady(s.staged, taken[k]);
      }
    case CallL0(v, ok) =>
      var item := s.workers[v].batch[0];
      if ok {
        var e := Event(v, item.id, item.needed, true);
        assert Apply(config, s, step).log == s.log + [e] && (e.id == id ==> e.worker == w);
      }
    case LoseReply(v) =>
      var item := s.workers[v].batch[0];
      var e := Event(v, item.id, item.needed, false);
      assert Apply(config, s, step).log == s.log + [e] && (e.id == id ==> e.worker == w);
    case _ =>
  }

  lemma {:induction false} RunKeepsExclusive(config: Config, s: State, steps: seq<Step>, w: nat, id: Id)
    requires Exclusive(s, w, id) && ValidRun(config, s, steps)
    requires forall step :: step in steps ==> !(step.Finish? && step.worker == w)
    ensures var s' := Execute(config, s, steps);
            Exclusive(s', w, id) && |s.log| <= |s'.log| && s'.log[..|s.log|] == s.log
            && forall k :: |s.log| <= k < |s'.log| && s'.log[k].id == id ==> s'.log[k].worker == w
    decreases |steps|
  {
    hide Exclusive;
    if steps != [] {
      var next := Apply(config, s, steps[0]);
      StepKeepsExclusive(config, s, steps[0], w, id);
      RunKeepsExclusive(config, next, steps[1..], w, id);
      var log := Execute(config, s, steps).log;
      assert log[..|s.log|] == log[..|next.log|][..|s.log|];
    }
  }

  /** The mark keeps others out: an output that one worker alone holds when it marks it is neither
      taken nor submitted by any other worker until the first has recorded a result. */
  lemma MarkExcludesOthers(config: Config, s: State, w: nat, now: int, steps: seq<Step>)
    requires Working(s, w, Marking) && s.workers[w].batch[0].id in s.staged
    requires Unheld(s.(workers := s.workers[w := Dropped(s.workers[w])]), s.workers[w].batch[0].id)
    requires ValidRun(config, Apply(config, s, Mark(w, now)), steps)
    requires forall step :: step in steps ==> !(step.Finish? && step.worker == w)
    ensures var id, s' := s.workers[w].batch[0].id, Execute(config, Apply(config, s, Mark(w, now)), steps);
            (forall v, k :: v in s'.workers && v != w && 0 <= k < |s'.workers[v].batch| ==>
               s'.workers[v].batch[k].id != id)
            && forall k :: |s.log| <= k < |s'.log| && s'.log[k].id == id ==> s'.log[k].worker == w
  {
    hide Execute, ValidRun;
    var marked, id := Apply(config, s, Mark(w, now)), s.workers[w].batch[0].id;
    forall v, k | v in s.workers && v != w && 0 <= k < |s.workers[v].batch|
      ensures s.workers[v].batch[k].id != id
    {
      var left := s.(workers := s.workers[w := Dropped(s.workers[w])]);
      assert left.workers[v].batch[k].id != id;
    }
    RunKeepsExclusive(config, marked, steps, w, id);
  }

  // ---------- At most once: one worker, and no reply lost ----------

  ghost predicate SubmittedOnce(log: seq<Event>)
  {
    forall j, k :: 0 <= j < k < |log| ==> log[j].id != log[k].id
  }

  /** An output is submitted again only after submissions of it whose replies were lost. */
  ghost predicate OnlyUnheardRepeated(log: seq<Event>)
  {
    forall j, k :: 0 <= j < k < |log| && log[j].heard ==> log[j].id != log[k].id
  }

  predicate NoLoss(steps: seq<Step>)
  {
    forall k :: 0 <= k < |steps| ==> !steps[k].LoseReply?
  }

  /** With a single worker every repeated submission of an output follows lost replies only,
      whatever is retried; with no reply lost, each output is submitted at most once. */
  lemma OneWorkerSubmitsOnce(config: Config, s: State, steps: seq<Step>, w: nat)
    requires Initial(s) && s.workers.Keys == {w} && ValidRun(config, s, steps)
    ensures OnlyUnheardRepeated(Execute(config, s, steps).log)
    ensures NoLoss(steps) ==> SubmittedOnce(Execute(config, s, steps).log)
  {
    SoleRun(config, s, steps, w);
  }

  /** Nothing is lost and nothing fails, but each worker submits the output it took. */
  lemma TwoWorkersMaySubmitTwice(config: Config, s: State, a: nat, b: nat) returns (steps: seq<Step>)
    requires config.maxStaged > 0 && Initial(s) && a != b && {a, b} <= s.workers.Keys
    ensures ValidRun(config, s, steps) && NoLoss(steps)
    ensures !SubmittedOnce(Execute(config, s, steps).log) && !OnlyUnheardRepeated(Execute(config, s, steps).log)
  {
    hide Apply, Enabled, Execute, ValidRun, SubmittedOnce, OnlyUnheardRepeated, WithStatus, Fresh, Initial, Working;
    var id := Id(0, s.sequence + 1);
    var s1, s2, s3 := SharedSnapshot(config, s, a, b, id);
    var s4, s5 := MarkAndCall(config, s3, a, true);
    var s6, s7 := MarkAndCall(config, s5, b, true);
    assert s7.log[0] == s7.log[..1][0];
    Repeats(s7.log);
    steps := [Stage(0, Metadata(None, 0, 0)), Take(a, [id]), Take(b, [id]), Mark(a, 0), CallL0(a, true), Mark(b, 0),
      CallL0(b, true)];
    ChainRuns(config, [s, s1, s2, s3, s4, s5, s6, s7], steps);
  }

  /** One lost reply is enough for a single worker to submit an output twice: L0 accepts it, the
      call times out, the output is set back to pending, and the worker sends it again. */
  lemma OneLostReplySubmitsTwice(config: Config, s: State, w: nat) returns (steps: seq<Step>)
    requires config.maxStaged > 0 && Initial(s) && w in s.workers
    ensures var id := Id(0, s.sequence + 1);
            steps == [Stage(0, Metadata(None, 0, 2)), Take(w, [id]), Mark(w, 0), LoseReply(w), CallL0(w, false),
                      Finish(w, 0), Take(w, [id]), Mark(w, 0), CallL0(w, true)]
    ensures ValidRun(config, s, steps) && !SubmittedOnce(Execute(config, s, steps).log)
  {
    hide Apply, Enabled, Execute, ValidRun, SubmittedOnce, OnlyUnheardRepeated, Fresh, Initial, Working;
    var id := Id(0, s.sequence + 1);
    var s1, s2 := SoleSnapshot(config, s, w, id);
    var s3, s4 := MarkAndCall(config, s2, w, false);
    var s5, s6, s7 := FailAndRetake(config, s4, w, id);
    var s8, s9 := MarkAndCall(config, s7, w, true);
    assert s9.log[0] == s9.log[..1][0];
    Repeats(s9.log);
    steps := [Stage(0, Metadata(None, 0, 2)), Take(w, [id]), Mark(w, 0), LoseReply(w), CallL0(w, false), Finish(w, 0),
      Take(w, [id]), Mark(w, 0), CallL0(w, true)];
    ChainRuns(config, [s, s1, s2, s3, s4, s5, s6, s7, s8, s9], steps);
  }

  ghost predicate RunOf(config: Config, workers: set<nat>, s: State, steps: seq<Step>)
  {
    Initial(s) && s.workers.Keys == workers && ValidRun(config, s, steps)
  }

  /** No run submits an output twice; with `lossy`, not even a run in which replies are lost. */
  ghost predicate NeverTwice(config: Config, workers: set<nat>, lossy: bool)
  {
    forall s, steps :: RunOf(config, workers, s, steps) && (lossy || NoLoss(steps)) ==>
      SubmittedOnce(Execute(config, s, steps).log)
  }

  /** No run, whatever replies are lost, submits an output again that the workers know of. */
  ghost predicate NeverTwiceKnowingly(config: Config, workers: set<nat>)
  {
    forall s, steps :: RunOf(config, workers, s, steps) ==> OnlyUnheardRepeated(Execute(config, s, steps).log)
  }

  function Start(workers: set<nat>): State
  {
    State(map[], 0, map w | w in workers :: Worker([], Marking), [])
  }

  /** Workers submit each output at most once in every run exactly when there is one worker and
      no reply is lost; that an output is repeated only after lost replies takes one worker. */
  lemma AtMostOnceMeansOneWorker(config: Config, workers: set<nat>, lossy: bool)
    requires config.maxStaged > 0 && workers != {}
    ensures NeverTwice(config, workers, lossy) <==> |workers| == 1 && !lossy
    ensures NeverTwiceKnowingly(config, workers) <==> |workers| == 1
  {
    hide ValidRun, Execute, NoLoss, SubmittedOnce, OnlyUnheardRepeated;
    var a :| a in workers;
    var s := Start(workers);
    if workers == {a} {
      forall s, steps | RunOf(config, workers, s, steps)
        ensures OnlyUnheardRepeated(Execute(config, s, steps).log)
        ensures NoLoss(steps) ==> SubmittedOnce(Execute(config, s, steps).log)
      {
        OneWorkerSubmitsOnce(config, s, steps, a);
      }
      var steps := OneLostReplySubmitsTwice(config, s, a);
      assert RunOf(config, workers, s, steps);
    } else {
      assert workers == (workers - {a}) + {a};
      var b :| b in workers - {a};
      assert |workers| == |workers - {a, b}| + 2 by {
        assert workers == (workers - {a, b}) + {a, b};
      }
      var steps := TwoWorkersMaySubmitTwice(config, s, a, b);
      assert RunOf(config, workers, s, steps);
    }
  }

  // ---------- One pass of a worker that nothing interrupts ----------

  /** An output that is gone is skipped. */
  function ProcessOne(area: Area, id: Id, ok: bool, now: int): (result: Area)
    ensures result.Keys == area.Keys
  {
    if id !in area then area else
      var marked := WithStatus(area, id, Submitting, now);
      if ok then WithStatus(marked, id, Submitted, now) else WithFailure(marked, id)
  }

  function ProcessAll(area: Area, ids: seq<Id>, accepts: Id -> bool, now: int): Area
    decreases |ids|
  {
    if ids == [] then area
    else ProcessAll(ProcessOne(area, ids[0], accepts(ids[0]), now), ids[1..], accepts, now)
  }

  /** Those of the outputs there that L0 accepts. */
  function AcceptedOnly(staged: set<Id>, ids: seq<Id>, accepts: Id -> bool): seq<Id>
  {
    if ids == [] then []
    else (if ids[0] in staged && accepts(ids[0]) then [ids[0]] else []) + AcceptedOnly(staged, ids[1..], accepts)
  }

  class OutputSubmitter {
    const stager: OutputStager
    const maxBatchSize: nat
    var submitted: seq<Id>

    constructor (stager: OutputStager, maxBatchSize: nat)
      ensures this.stager == stager && this.maxBatchSize == maxBatchSize && submitted == []
    {
      this.stager := stager;
      this.maxBatchSize := maxBatchSize;
      submitted := [];
    }

    /** One output is marked, and L0's answer recorded; one that is gone is skipped. */
    method ProcessItem(id: Id, success: bool, now: int)
      modifies `submitted, stager
      ensures submitted == old(submitted) + if id in old(stager.staged) && success then [id] else []
      ensures stager.staged == ProcessOne(old(stager.staged), id, success, now)
    {
      hide OnlyChanged;
      var present := stager.UpdateOutputStatus(id, Submitting, now);
      if !present {
        return;
      }
      if success {
        submitted := submitted + [id];
        var _ := stager.UpdateOutputStatus(id, Submitted, now);
      } else {
        var _ := stager.MarkOutputFailed(id);
      }
    }

    /** Ready outputs, all of them if there are no more than a batch holds. */
    method TakeBatch() returns (batch: seq<Id>)
      ensures forall k :: 0 <= k < |batch| ==> IsReady(stager.staged, batch[k])
      ensures forall j, k :: 0 <= j < k < |batch| ==> batch[j] != batch[k]
      ensures |batch| < maxBatchSize ==> forall id :: IsReady(stager.staged, id) ==> id in batch
      ensures |batch| <= maxBatchSize
    {
      hide IsReady;
      batch := stager.GetReadyOutputs();
      assert forall k :: 0 <= k < |batch| ==> batch[k] in batch;
      if |batch| > maxBatchSize {
        batch := batch[..maxBatchSize];
      }
    }

    /** `accepts` stands for validation and L0's answer to each envelope. */
    method ProcessReadyOutputs(accepts: Id -> bool, now: int) returns (batch: seq<Id>)
      modifies this, stager
      ensures forall k :: 0 <= k < |batch| ==> batch[k] in old(stager.staged) && IsReady(old(stager.staged), batch[k])
      ensures forall j, k :: 0 <= j < k < |batch| ==> batch[j] != batch[k]
      ensures |batch| < maxBatchSize ==> forall id :: IsReady(old(stager.staged), id) ==> id in batch
      ensures |batch| <= maxBatchSize
      ensures stager.staged == ProcessAll(old(stager.staged), batch, accepts, now)
      ensures submitted == old(submitted) + AcceptedOnly(old(stager.staged.Keys), batch, accepts)
    {
      hide ProcessOne, ProcessAll, AcceptedOnly, IsReady;
      batch := TakeBatch();
      assert batch[0..] == batch;
      for k := 0 to |batch|
        invariant stager.staged.Keys == old(stager.staged.Keys)
        invariant ProcessAll(stager.staged, batch[k..], accepts, now) ==
                  ProcessAll(old(stager.staged), batch, accepts, now)
        invariant submitted + AcceptedOnly(old(stager.staged.Keys), batch[k..], accepts) ==
                  old(submitted) + AcceptedOnly(old(stager.staged.Keys), batch, accepts)
      {
        var id := batch[k];
        assert batch[k..][1..] == batch[k + 1..];
        ProcessUnfold(stager.staged, batch[k..], accepts, now);
        ProcessItem(id, accepts(id), now);
      }
      ProcessNone(stager.staged, accepts, now);
    }
  }

  function BatchIds(batch: seq<Item>): (ids: seq<Id>)
    ensures |ids| == |batch| && forall k :: 0 <= k < |batch| ==> ids[k] == batch[k].id
  {
    if batch == [] then [] else [batch[0].id] + BatchIds(batch[1..])
  }

  function LogIds(log: seq<Event>): seq<Id>
  {
    seq(|log|, k requires 0 <= k < |log| => log[k].id)
  }

  /** A step of that worker between taking one batch and the next, its replies all heard. */
  predicate Processes(step: Step, w: nat)
  {
    (step.Mark? || step.CallL0? || step.Finish?) && step.worker == w
  }

  /** The pass of ProcessReadyOutputs is the run in which one worker's steps meet no others: it
      leaves the same area and submits the same outputs in the same order. */
  lemma {:induction false} PassIsRun(config: Config, s: State, w: nat, accepts: Id -> bool,
        now: int) returns (steps: seq<Step>)
    requires w in s.workers && s.workers[w].phase == Marking
    ensures ValidRun(config, s, steps)
    ensures Execute(config, s, steps).staged == ProcessAll(s.staged, BatchIds(s.workers[w].batch), accepts, now)
    ensures LogIds(Execute(config, s, steps).log) ==
            LogIds(s.log) + AcceptedOnly(s.staged.Keys, BatchIds(s.workers[w].batch), accepts)
    ensures forall k :: 0 <= k < |steps| ==> Processes(steps[k], w)
    decreases |s.workers[w].batch|
  {
    hide Apply, Enabled, Execute, ValidRun, ProcessAll, ProcessOne, AcceptedOnly, LogIds;
    var batch := s.workers[w].batch;
    if batch == [] {
      steps := [];
      ChainRuns(config, [s], steps);
      ProcessNone(s.staged, accepts, now);
    } else {
      var first, next := [Mark(w, now)], s;
      if batch[0].id in s.staged {
        first, next := ItemRun(config, s, w, accepts(batch[0].id), now);
      } else {
        next := SkipRun(config, s, w, now);
        GoneIsSkipped(s.staged, batch[0].id, accepts(batch[0].id), now);
      }
      assert BatchIds(batch)[1..] == BatchIds(batch[1..]);
      ProcessUnfold(s.staged, BatchIds(batch), accepts, now);
      var rest := PassIsRun(config, next, w, accepts, now);
      RunsJoined(config, s, first, rest);
      steps := first + rest;
    }
  }

  // ---------- Runs from their steps ----------

  /** The steps lead from each state to the next. */
  ghost predicate Chained(config: Config, states: seq<State>, steps: seq<Step>)
  {
    |states| == |steps| + 1 && forall k :: 0 <= k < |steps| ==>
      Enabled(config, states[k], steps[k]) && states[k + 1] == Apply(config, states[k], steps[k])
  }

  lemma {:induction false} ChainRuns(config: Config, states: seq<State>, steps: seq<Step>)
    requires Chained(config, states, steps)
    ensures ValidRun(config, states[0], steps) && Execute(config, states[0], steps) == states[|steps|]
    decreases |steps|
  {
    hide Apply, Enabled;
    if steps != [] {
      ChainRuns(config, states[1..], steps[1..]);
    }
  }

  lemma {:induction false} RunsJoined(config: Config, s: State, first: seq<Step>, second: seq<Step>)
    requires ValidRun(config, s, first) && ValidRun(config, Execute(config, s, first), second)
    ensures ValidRun(config, s, first + second)
    ensures Execute(config, s, first + second) == Execute(config, Execute(config, s, first), second)
    decreases |first|
  {
    hide Apply, Enabled;
    if first == [] {
      assert first + second == second;
    } else {
      assert (first + second)[1..] == first[1..] + second;
      RunsJoined(config, Apply(config, s, first[0]), first[1..], second);
    }
  }

  lemma ProcessUnfold(area: Area, ids: seq<Id>, accepts: Id -> bool, now: int)
    requires ids != []
    ensures ProcessAll(area, ids, accepts, now) ==
            ProcessAll(ProcessOne(area, ids[0], accepts(ids[0]), now), ids[1..], accepts, now)
    ensures AcceptedOnly(area.Keys, ids, accepts) ==
            (if ids[0] in area && accepts(ids[0]) then [ids[0]] else []) + AcceptedOnly(area.Keys, ids[1..], accepts)
  {
  }

  lemma ProcessNone(area: Area, accepts: Id -> bool, now: int)
    ensures ProcessAll(area, [], accepts, now) == area && AcceptedOnly(area.Keys, [], accepts) == []
  {
  }

  lemma GoneIsSkipped(area: Area, id: Id, ok: bool, now: int)
    requires id !in area
    ensures ProcessOne(area, id, ok, now) == area
  {
  }

  /** A worker skips the first item of its batch, which is gone. */
  lemma SkipRun(config: Config, s: State, w: nat, now: int) returns (next: State)
    requires Working(s, w, Marking) && s.workers[w].batch[0].id !in s.staged
    ensures ValidRun(config, s, [Mark(w, now)]) && Execute(config, s, [Mark(w, now)]) == next
    ensures next == s.(workers := s.workers[w := Dropped(s.workers[w])])
  {
    next := Apply(config, s, Mark(w, now));
    ChainRuns(config, [s, next], [Mark(w, now)]);
  }

  /** A worker marks, submits and finishes the first item of its batch. */
  lemma ItemRun(config: Config, s: State, w: nat, ok: bool, now: int) returns (steps: seq<Step>, next: State)
    requires Working(s, w, Marking) && s.workers[w].batch[0].id in s.staged
    ensures steps == [Mark(w, now), CallL0(w, ok), Finish(w, now)]
    ensures ValidRun(config, s, steps) && Execute(config, s, steps) == next
    ensures next.staged == ProcessOne(s.staged, s.workers[w].batch[0].id, ok, now)
    ensures LogIds(next.log) == LogIds(s.log) + if ok then [s.workers[w].batch[0].id] else []
    ensures next.workers == s.workers[w := Dropped(s.workers[w])] && next.sequence == s.sequence
  {
    var s1 := Apply(config, s, Mark(w, now));
    var s2 := Apply(config, s1, CallL0(w, ok));
    next := Apply(config, s2, Finish(w, now));
    steps := [Mark(w, now), CallL0(w, ok), Finish(w, now)];
    ChainRuns(config, [s, s1, s2, next], steps);
  }

  // ---------- What a single worker keeps ----------

  ghost predicate Acknowledged(log: seq<Event>, id: Id)
  {
    exists k :: 0 <= k < |log| && log[k].id == id && log[k].heard
  }

  /** The item is still to be submitted: any but the one whose call has just been accepted. */
  predicate Outstanding(worker: Worker, k: int)
  {
    0 <= k < |worker.batch| && (k > 0 || worker.phase != Accepted)
  }

  ghost predicate AllHeard(log: seq<Event>)
  {
    forall k :: 0 <= k < |log| ==> log[k].heard
  }

  ghost predicate SoleInv(s: State, w: nat)
  {
    s.workers.Keys == {w} && OnlyUnheardRepeated(s.log) && SoleWorkerInv(s, s.workers[w])
    && (forall id :: Acknowledged(s.log, id) || id in s.staged ==> id.sequence <= s.sequence)
  }

  ghost predicate SoleWorkerInv(s: State, worker: Worker)
  {
    (worker.batch == [] ==> worker.phase == Marking)
    && (forall j, k :: 0 <= j < k < |worker.batch| ==> worker.batch[j].id != worker.batch[k].id)
    && (forall k :: Outstanding(worker, k) ==> !Acknowledged(s.log, worker.batch[k].id))
    && (forall k :: 0 <= k < |worker.batch| ==> worker.batch[k].id.sequence <= s.sequence)
    && (forall id :: id in s.staged && Acknowledged(s.log, id) ==>
          s.staged[id].status == Submitted || (worker.phase == Accepted && worker.batch[0].id == id))
  }

  /** One more attempt reaches L0, and its reply is heard or lost. */
  lemma SoleCall(config: Config, s: State, step: Step, w: nat)
    requires SoleInv(s, w) && Working(s, w, Calling) && step in {CallL0(w, true), LoseReply(w)}
    ensures SoleInv(Apply(config, s, step), w)
  {
    var s' := Apply(config, s, step);
    var worker, worker' := s.workers[w], s'.workers[w];
    var e := Event(w, worker.batch[0].id, worker.batch[0].needed, step.CallL0?);
    assert Outstanding(worker, 0);
    forall id
      ensures Acknowledged(s'.log, id) <==> Acknowledged(s.log, id) || (e.heard && id == e.id)
    {
      LogAdds(s.log, e, id);
    }
    forall k | 0 <= k < |s.log| && s.log[k].heard
      ensures s.log[k].id != e.id
    {
      assert Acknowledged(s.log, s.log[k].id);
    }
    forall k | Outstanding(worker', k)
      ensures !Acknowledged(s'.log, worker'.batch[k].id)
    {
      assert Outstanding(worker, k);
    }
  }

  lemma LogAdds(log: seq<Event>, e: Event, id: Id)
    ensures Acknowledged(log + [e], id) <==> Acknowledged(log, id) || (e.heard && id == e.id)
  {
    var longer := log + [e];
    assert longer[|log|] == e;
    assert forall k :: 0 <= k < |log| ==> longer[k] == log[k];
  }

  lemma SoleMark(config: Config, s: State, w: nat, now: int)
    requires SoleInv(s, w) && Working(s, w, Marking)
    ensures SoleInv(Apply(config, s, Mark(w, now)), w)
  {
    var s' := Apply(config, s, Mark(w, now));
    var worker, worker' := s.workers[w], s'.workers[w];
    assert Outstanding(worker, 0);
    forall k | Outstanding(worker', k)
      ensures !Acknowledged(s'.log, worker'.batch[k].id)
    {
      assert Outstanding(worker, if worker'.phase == Calling then k else k + 1);
    }
  }

  lemma SoleFinish(config: Config, s: State, w: nat, now: int)
    requires SoleInv(s, w) && Enabled(config, s, Finish(w, now))
    ensures SoleInv(Apply(config, s, Finish(w, now)), w)
  {
    var s' := Apply(config, s, Finish(w, now));
    var worker, worker' := s.workers[w], s'.workers[w];
    assert worker.phase == Rejected ==> Outstanding(worker, 0);
    forall k | Outstanding(worker', k)
      ensures !Acknowledged(s'.log, worker'.batch[k].id)
    {
      assert Outstanding(worker, k + 1);
    }
  }

  lemma {:induction false} SoleStep(config: Config, s: State, step: Step, w: nat)
    requires SoleInv(s, w) && Enabled(config, s, step)
    ensures SoleInv(Apply(config, s, step), w)
  {
    match step
    case CallL0(_, ok) =>
      if ok {
        SoleCall(config, s, step, w);
      } else {
        assert forall k :: Outstanding(Apply(config, s, step).workers[w], k) ==> Outstanding(s.workers[w], k);
      }
    case LoseReply(_) => SoleCall(config, s, step, w);
    case Mark(_, now) => SoleMark(config, s, w, now);
    case Finish(_, now) => SoleFinish(config, s, w, now);
    case _ =>
  }

  lemma {:induction false} SoleRun(config: Config, s: State, steps: seq<Step>, w: nat)
    requires SoleInv(s, w) && ValidRun(config, s, steps)
    ensures SoleInv(Execute(config, s, steps), w)
    ensures NoLoss(steps) && AllHeard(s.log) ==> AllHeard(Execute(config, s, steps).log)
    decreases |steps|
  {
    hide SoleInv;
    if steps != [] {
      SoleStep(config, s, steps[0], w);
      SoleRun(config, Apply(config, s, steps[0]), steps[1..], w);
    }
  }

  // ---------- Submitting twice, step by step ----------

  /** It depends on nothing, and one failure leaves it a retry. */
  predicate Fresh(output: Output)
  {
    output.dependencies == [] && output.retryCount + 1 < output.maxRetries
  }

  /** A worker marks the first output of its batch and L0 accepts it, whatever the output's
      status was: the mark is not a compare-and-set. The reply may be lost. */
  lemma MarkAndCall(config: Config, s: State, w: nat, heard: bool) returns (marked: State, called: State)
    requires Working(s, w, Marking) && s.workers[w].batch[0].id in s.staged
    ensures Enabled(config, s, Mark(w, 0)) && marked == Apply(config, s, Mark(w, 0))
    ensures var call := if heard then CallL0(w, true) else LoseReply(w);
            Enabled(config, marked, call) && called == Apply(config, marked, call)
    ensures |called.log| == |s.log| + 1 && called.log[..|s.log|] == s.log
    ensures called.log[|s.log|].id == s.workers[w].batch[0].id && called.log[|s.log|].heard == heard
    ensures called.workers == s.workers[w := s.workers[w].(phase := if heard then Accepted else Calling)]
    ensures !heard ==> Working(called, w, Calling)
    ensures s.workers[w].batch[0].id in called.staged
            && Fresh(called.staged[s.workers[w].batch[0].id]) == Fresh(s.staged[s.workers[w].batch[0].id])
  {
    marked := Apply(config, s, Mark(w, 0));
    called := Apply(config, marked, if heard then CallL0(w, true) else LoseReply(w));
  }

  /** A fresh output is in two workers' snapshots at once. */
  lemma SharedSnapshot(config: Config, s: State, a: nat, b: nat, id: Id)
    returns (s1: State, s2: State, s3: State)
    requires config.maxStaged > 0 && Initial(s) && a != b && {a, b} <= s.workers.Keys
    requires id == Id(0, s.sequence + 1)
    ensures Enabled(config, s, Stage(0, Metadata(None, 0, 0))) && s1 == Apply(config, s, Stage(0, Metadata(None, 0, 0)))
    ensures Enabled(config, s1, Take(a, [id])) && s2 == Apply(config, s1, Take(a, [id]))
    ensures Enabled(config, s2, Take(b, [id])) && s3 == Apply(config, s2, Take(b, [id]))
    ensures Working(s3, a, Marking) && Working(s3, b, Marking) && id in s3.staged && s3.log == []
    ensures s3.workers[a].batch[0].id == id == s3.workers[b].batch[0].id
  {
    s1 := Apply(config, s, Stage(0, Metadata(None, 0, 0)));
    assert IsReady(s1.staged, id);
    s2 := Apply(config, s1, Take(a, [id]));
    s3 := Apply(config, s2, Take(b, [id]));
  }

  /** The first two entries of the log are for one output. */
  lemma Repeats(log: seq<Event>)
    requires |log| >= 2 && log[0].id == log[1].id
    ensures !SubmittedOnce(log) && (log[0].heard ==> !OnlyUnheardRepeated(log))
  {
  }

  /** A fresh output that may be retried, in the only worker's batch. */
  lemma SoleSnapshot(config: Config, s: State, w: nat, id: Id) returns (s1: State, s2: State)
    requires config.maxStaged > 0 && Initial(s) && w in s.workers && id == Id(0, s.sequence + 1)
    ensures var stage := Stage(0, Metadata(None, 0, 2));
            Enabled(config, s, stage) && s1 == Apply(config, s, stage)
    ensures Enabled(config, s1, Take(w, [id])) && s2 == Apply(config, s1, Take(w, [id]))
    ensures Working(s2, w, Marking) && s2.workers[w].batch == [Item(id, [])] && s2.log == []
    ensures id in s2.staged && Fresh(s2.staged[id])
  {
    s1 := Apply(config, s, Stage(0, Metadata(None, 0, 2)));
    assert IsReady(s1.staged, id);
    s2 := Apply(config, s1, Take(w, [id]));
  }

  /** The worker gives up on the call, so the output is pending again, and takes it once more. */
  lemma FailAndRetake(config: Config, s: State, w: nat, id: Id) returns (s1: State, s2: State, s3: State)
    requires Working(s, w, Calling) && s.workers[w].batch == [Item(id, [])] && id in s.staged && Fresh(s.staged[id])
    ensures Enabled(config, s, CallL0(w, false)) && s1 == Apply(config, s, CallL0(w, false))
    ensures Enabled(config, s1, Finish(w, 0)) && s2 == Apply(config, s1, Finish(w, 0))
    ensures Enabled(config, s2, Take(w, [id])) && s3 == Apply(config, s2, Take(w, [id]))
    ensures Working(s3, w, Marking) && s3.workers[w].batch[0].id == id && id in s3.staged && s3.log == s.log
  {
    s1 := Apply(config, s, CallL0(w, false));
    s2 := Apply(config, s1, Finish(w, 0));
    assert IsReady(s2.staged, id);
    s3 := Apply(config, s2, Take(w, [id]));
  }
}
