/** The staging area for outputs bound for L0 (bridge/outputs/stage.go). Each method holds the
    stager's lock from start to end, so it is one atomic step of the protocol in Submission. */
module Staging {
  import opened Common

  /** An identifier is made of the staging time and a counter that never repeats. */
  datatype Id = Id(time: int, sequence: nat)

  datatype Status = Pending | Ready | Submitting | Submitted | Failed | Expired

  datatype Output = Output(
    status: Status,
    dependencies: seq<Id>,
    expiresAt: int,
    submittedAt: Option<int>,
    retryCount: int,
    maxRetries: int)

  /** What a caller may supply; zero values ask for the configured defaults. */
  datatype Metadata = Metadata(expiresAt: Option<int>, retryCount: int, maxRetries: int)

  datatype Config = Config(maxStaged: int, defaultTTL: int, maxRetries: int)

  type Area = map<Id, Output>

  const HOUR := 3600

  // ---------- What each step does to the area ----------

  function NewOutput(config: Config, now: int, metadata: Metadata): Output
  {
    Output(Pending, [],
           match metadata.expiresAt case None => now + config.defaultTTL case Some(t) => t,
           None, metadata.retryCount,
           if metadata.maxRetries == 0 then config.maxRetries else metadata.maxRetries)
  }

  function WithStatus(area: Area, id: Id, status: Status, now: int): (result: Area)
    requires id in area
    ensures result.Keys == area.Keys
  {
    area[id := area[id].(status := status,
                         submittedAt := if status == Submitted then Some(now) else area[id].submittedAt)]
  }

  function WithFailure(area: Area, id: Id): (result: Area)
    requires id in area
    ensures result.Keys == area.Keys
  {
    var retries := area[id].retryCount + 1;
    area[id := area[id].(status := if retries < area[id].maxRetries then Pending else Failed, retryCount := retries)]
  }

  function WithDependency(area: Area, id: Id, on: Id): Area
    requires id in area
  {
    if on in area[id].dependencies then area
    else area[id := area[id].(dependencies := area[id].dependencies + [on])]
  }

  predicate Satisfied(area: Area, dependencies: seq<Id>)
  {
    forall k :: 0 <= k < |dependencies| ==> dependencies[k] in area && area[dependencies[k]].status == Submitted
  }

  predicate IsReady(area: Area, id: Id)
    ensures IsReady(area, id) ==> id in area
  {
    id in area && area[id].status in {Ready, Pending} && Satisfied(area, area[id].dependencies)
  }

  /** Expired, submitted over an hour ago, or failed for good. */
  predicate Stale(output: Output, now: int)
  {
    now > output.expiresAt
    || (output.status == Submitted && output.submittedAt.Some? && now - output.submittedAt.value > HOUR)
    || (output.status == Failed && output.retryCount >= output.maxRetries)
  }

  function Cleaned(area: Area, now: int): Area
  {
    map id | id in area && !Stale(area[id], now) :: area[id]
  }

  /** The same outputs, and of those other than this one nothing changes; nor do its limits. */
  predicate OnlyChanged(before: Area, after: Area, id: Id)
  {
    before.Keys == after.Keys && (forall other :: other in before && other != id ==> after[other] == before[other])
    && (id in before ==> after[id].expiresAt == before[id].expiresAt && after[id].maxRetries == before[id].maxRetries)
  }

  // ---------- The stager ----------

  class OutputStager {
    var staged: Area
    var sequence: nat
    const config: Config

    constructor (config: Config)
      ensures staged == map[] && sequence == 0 && this.config == config
    {
      staged := map[];
      sequence := 0;
      this.config := config;
    }

    method StageOutput(hasEnvelope: bool, now: int, metadata: Metadata) returns (id: Option<Id>)
      modifies this
      ensures id.Some? <==> hasEnvelope && |old(staged)| < config.maxStaged
      ensures id.Some? ==> id.value == Id(now, sequence) && sequence == old(sequence) + 1
                           && staged == old(staged)[id.value := NewOutput(config, now, metadata)]
      ensures id.Some? ==>
        var output := staged[id.value];
        output.status == Pending && output.dependencies == [] && output.submittedAt == None
        && output.expiresAt == (if metadata.expiresAt.Some? then metadata.expiresAt.value else now + config.defaultTTL)
        && output.retryCount == metadata.retryCount
        && output.maxRetries == if metadata.maxRetries == 0 then config.maxRetries else metadata.maxRetries
      ensures id.None? ==> staged == old(staged) && sequence == old(sequence)
    {
      if !hasEnvelope {
        return None;
      }
      if |staged| >= config.maxStaged {
        return None;
      }
      sequence := sequence + 1;
      var newId := Id(now, sequence);
      var maxRetries := metadata.maxRetries;
      if maxRetries == 0 {
        maxRetries := config.maxRetries;
      }
      var expiresAt := now + config.defaultTTL;
      if metadata.expiresAt.Some? {
        expiresAt := metadata.expiresAt.value;
      }
      staged := staged[newId := Output(Pending, [], expiresAt, None, metadata.retryCount, maxRetries)];
      id := Some(newId);
    }

    method UpdateOutputStatus(id: Id, status: Status, now: int) returns (ok: bool)
      modifies this
      ensures ok <==> id in old(staged)
      ensures staged == if ok then WithStatus(old(staged), id, status, now) else old(staged)
      ensures ok ==> OnlyChanged(old(staged), staged, id) && staged[id].status == status
                     && staged[id].submittedAt == (if status == Submitted then Some(now) else old(staged)[id].submittedAt)
                     && staged[id].retryCount == old(staged)[id].retryCount
                     && staged[id].dependencies == old(staged)[id].dependencies
      ensures sequence == old(sequence)
    {
      if id !in staged {
        return false;
      }
      var output := staged[id].(status := status);
      if status == Submitted {
        output := output.(submittedAt := Some(now));
      }
      staged := staged[id := output];
      ok := true;
    }

    method AreDependenciesSatisfied(output: Output) returns (ok: bool)
      ensures ok <==> Satisfied(staged, output.dependencies)
      ensures ok <==> forall d :: d in output.dependencies ==> d in staged && staged[d].status == Submitted
    {
      for k := 0 to |output.dependencies|
        invariant Satisfied(staged, output.dependencies[..k])
      {
        var depId := output.dependencies[k];
        if depId !in staged || staged[depId].status != Submitted {
          return false;
        }
        assert output.dependencies[..k + 1] == output.dependencies[..k] + [depId];
      }
      assert output.dependencies[..|output.dependencies|] == output.dependencies;
      ok := true;
    }

    /** Every ready output once, in whatever order the map yields them. */
    method GetReadyOutputs() returns (ready: seq<Id>)
      ensures forall id :: id in ready <==> IsReady(staged, id)
      ensures forall id ::
        id in ready <==>
        id in staged && (staged[id].status == Ready || staged[id].status == Pending)
        && forall d :: d in staged[id].dependencies ==> d in staged && staged[d].status == Submitted
      ensures forall i, j :: 0 <= i < j < |ready| ==> ready[i] != ready[j]
    {
      ready := [];
      var rest := staged.Keys;
      while rest != {}
        invariant rest <= staged.Keys
        invariant forall id :: id in ready <==> id !in rest && IsReady(staged, id)
        invariant forall i, j :: 0 <= i < j < |ready| ==> ready[i] != ready[j]
        decreases |rest|
      {
        var id :| id in rest;
        if staged[id].status == Ready || staged[id].status == Pending {
          var satisfied := AreDependenciesSatisfied(staged[id]);
          if satisfied {
            ready := ready + [id];
          }
        }
        rest := rest - {id};
      }
    }

    method MarkOutputFailed(id: Id) returns (ok: bool)
      modifies this
      ensures ok <==> id in old(staged)
      ensures staged == if ok then WithFailure(old(staged), id) else old(staged)
      ensures ok ==> OnlyChanged(old(staged), staged, id) && staged[id].retryCount == old(staged)[id].retryCount + 1
                     && (staged[id].status == Failed <==> staged[id].retryCount >= staged[id].maxRetries)
                     && (staged[id].status == Pending <==> staged[id].retryCount < staged[id].maxRetries)
                     && staged[id].submittedAt == old(staged)[id].submittedAt
                     && staged[id].dependencies == old(staged)[id].dependencies
      ensures sequence == old(sequence)
    {
      if id !in staged {
        return false;
      }
      var output := staged[id].(status := Failed, retryCount := staged[id].retryCount + 1);
      if output.retryCount < output.maxRetries {
        output := output.(status := Pending);
      }
      staged := staged[id := output];
      ok := true;
    }

    method RemoveStagedOutput(id: Id) returns (ok: bool)
      modifies this
      ensures ok <==> id in old(staged)
      ensures staged == old(staged) - {id} && sequence == old(sequence)
    {
      ok := id in staged;
      staged := staged - {id};
    }

    method SetDependency(outputId: Id, dependsOnId: Id) returns (ok: bool)
      modifies this
      ensures ok <==> outputId in old(staged) && dependsOnId in old(staged)
      ensures staged == if ok then WithDependency(old(staged), outputId, dependsOnId) else old(staged)
      ensures ok ==> OnlyChanged(old(staged), staged, outputId)
                     && staged[outputId].status == old(staged)[outputId].status
                     && staged[outputId].dependencies ==
                        old(staged)[outputId].dependencies
                        + if dependsOnId in old(staged)[outputId].dependencies then [] else [dependsOnId]
      ensures sequence == old(sequence)
    {
      if outputId !in staged || dependsOnId !in staged {
        return false;
      }
      var dependencies := staged[outputId].dependencies;
      for k := 0 to |dependencies|
        invariant dependsOnId !in dependencies[..k] && staged == old(staged)
      {
        if dependencies[k] == dependsOnId {
          return true;
        }
      }
      assert dependencies[..|dependencies|] == dependencies;
      staged := staged[outputId := staged[outputId].(dependencies := dependencies + [dependsOnId])];
      ok := true;
    }

    method Cleanup(now: int)
      modifies this
      ensures staged == Cleaned(old(staged), now) && sequence == old(sequence)
      ensures forall id :: id in staged ==> id in old(staged) && staged[id] == old(staged)[id]
      ensures forall id :: id in old(staged) ==>
        var output := old(staged)[id];
        (id !in staged <==>
           output.expiresAt < now
           || (output.status == Submitted && output.submittedAt.Some? && output.submittedAt.value + 3600 < now)
           || (output.status == Failed && output.maxRetries <= output.retryCount))
    {
      var toRemove: set<Id> := {};
      var rest := staged.Keys;
      while rest != {}
        invariant rest <= staged.Keys && staged == old(staged) && sequence == old(sequence)
        invariant forall id :: id in toRemove <==> id in staged && id !in rest && Stale(staged[id], now)
        decreases |rest|
      {
        var id :| id in rest;
        if now > staged[id].expiresAt {
          toRemove := toRemove + {id};
        } else if staged[id].status == Submitted && staged[id].submittedAt.Some?
                  && now - staged[id].submittedAt.value > HOUR {
          toRemove := toRemove + {id};
        } else if staged[id].status == Failed && staged[id].retryCount >= staged[id].maxRetries {
          toRemove := toRemove + {id};
        }
        rest := rest - {id};
      }
      staged := staged - toRemove;
    }

    method Close()
      modifies this
      ensures staged == map[] && sequence == old(sequence)
    {
      staged := map[];
    }
  }
}
