/** Round-robin selection of healthy endpoints (internal/l0/endpoints.go). The clock is a
    parameter of each call. */
module RoundRobin {
  import opened Common

  // ---------- Selection over fixed health ----------

  function Succ(n: nat, c: nat): (c': nat)
    requires c < n
    ensures c' < n && c' == (c + 1) % n
  {
    if c + 1 < n then c + 1 else 0
  }

  /** The first healthy position among `steps` from c on, cyclically, and the pointer after it. */
  function NextFrom(h: seq<bool>, c: nat, steps: nat): (r: Option<(nat, nat)>)
    requires c < |h|
    ensures r.Some? ==> r.value.0 < |h| && r.value.1 < |h| && h[r.value.0]
    decreases steps
  {
    if steps == 0 then None
    else if h[c] then Some((c, Succ(|h|, c)))
    else NextFrom(h, Succ(|h|, c), steps - 1)
  }

  /** The healthy positions met on one walk of `steps` positions from c. */
  function Scan(h: seq<bool>, c: nat, steps: nat): seq<nat>
    requires c < |h|
    decreases steps
  {
    if steps == 0 then [] else (if h[c] then [c] else []) + Scan(h, Succ(|h|, c), steps - 1)
  }

  /** What m calls return, and where they leave the pointer, while the health stays as it is. */
  function Calls(h: seq<bool>, c: nat, m: nat): (seq<nat>, nat)
    requires c < |h| && (exists k :: 0 <= k < |h| && h[k])
    decreases m
  {
    if m == 0 then ([], c) else
      SomeHealthyFound(h, c);
      var (i, c') := NextFrom(h, c, |h|).value;
      var (rest, last) := Calls(h, c', m - 1);
      ([i] + rest, last)
  }

  /** Position p is within the first `steps` positions from c. */
  predicate Ahead(n: nat, c: nat, steps: nat, p: nat)
    requires c < n
  {
    (c <= p < c + steps && p < n) || p < c + steps - n
  }

  lemma {:induction false} NoneFound(h: seq<bool>, c: nat, steps: nat)
    requires c < |h| && steps <= |h|
    ensures NextFrom(h, c, steps) == None <==> forall p :: 0 <= p < |h| && Ahead(|h|, c, steps, p) ==> !h[p]
    decreases steps
  {
    if steps > 0 {
      var c' := Succ(|h|, c);
      NoneFound(h, c', steps - 1);
      assert forall p: nat :: p < |h| ==> (Ahead(|h|, c, steps, p) <==> p == c || Ahead(|h|, c', steps - 1, p));
    }
  }

  lemma SomeHealthyFound(h: seq<bool>, c: nat)
    requires c < |h|
    ensures NextFrom(h, c, |h|).Some? <==> exists k :: 0 <= k < |h| && h[k]
  {
    NoneFound(h, c, |h|);
    assert forall p :: 0 <= p < |h| ==> Ahead(|h|, c, |h|, p);
  }

  /** More steps than it takes change nothing. */
  lemma {:induction false} FoundStays(h: seq<bool>, c: nat, steps: nat)
    requires c < |h| && NextFrom(h, c, steps).Some?
    ensures NextFrom(h, c, steps + 1) == NextFrom(h, c, steps)
    decreases steps
  {
    if steps > 0 && !h[c] {
      FoundStays(h, Succ(|h|, c), steps - 1);
    }
  }

  lemma SkipsUnhealthy(h: seq<bool>, c: nat)
    requires c < |h| && !h[c] && exists k :: 0 <= k < |h| && h[k]
    ensures NextFrom(h, c, |h|) == NextFrom(h, Succ(|h|, c), |h|)
  {
    SomeHealthyFound(h, c);
    FoundStays(h, Succ(|h|, c), |h| - 1);
  }

  /** Successive calls return the healthy positions in the order a walk meets them. */
  lemma {:induction false} CallsFollowScan(h: seq<bool>, c: nat, steps: nat)
    requires c < |h| && exists k :: 0 <= k < |h| && h[k]
    ensures Calls(h, c, |Scan(h, c, steps)|).0 == Scan(h, c, steps)
    decreases steps
  {
    if steps > 0 {
      var c' := Succ(|h|, c);
      CallsFollowScan(h, c', steps - 1);
      if !h[c] {
        SkipsUnhealthy(h, c);
      }
    }
  }

  /** A full walk meets every healthy position once. */
  lemma {:induction false} ScanMeets(h: seq<bool>, c: nat, steps: nat)
    requires c < |h| && steps <= |h|
    ensures Distinct(Scan(h, c, steps))
    ensures forall p: nat :: p in Scan(h, c, steps) <==> p < |h| && Ahead(|h|, c, steps, p) && h[p]
    decreases steps
  {
    hide Scan, Ahead;
    ScanUnfold(h, c, steps);
    AheadSteps(|h|, c, steps);
    if steps > 0 {
      var c' := Succ(|h|, c);
      ScanMeets(h, c', steps - 1);
      if h[c] {
        FrontDistinct(c, Scan(h, c', steps - 1));
      }
    }
  }

  lemma ScanUnfold(h: seq<bool>, c: nat, steps: nat)
    requires c < |h|
    ensures Scan(h, c, 0) == []
    ensures steps > 0 ==>
              Scan(h, c, steps) == (if h[c] then [c] else []) + Scan(h, Succ(|h|, c), steps - 1)
  {
  }

  lemma AheadSteps(n: nat, c: nat, steps: nat)
    requires c < n && steps <= n
    ensures steps == 0 ==> forall p: nat :: p < n ==> !Ahead(n, c, steps, p)
    ensures steps > 0 ==> !Ahead(n, Succ(n, c), steps - 1, c)
    ensures steps > 0 ==>
              forall p: nat :: p < n ==> (Ahead(n, c, steps, p) <==> p == c || Ahead(n, Succ(n, c), steps - 1, p))
  {
  }

  lemma FrontDistinct(c: nat, rest: seq<nat>)
    requires c !in rest && Distinct(rest)
    ensures Distinct([c] + rest)
  {
  }

  /** Position p is passed over on the way round from c to the position chosen. */
  predicate Passed(c: nat, chosen: nat, p: nat)
  {
    if c <= chosen then c <= p < chosen else p >= c || p < chosen
  }

  lemma {:induction false} NextPasses(h: seq<bool>, c: nat, steps: nat)
    requires c < |h| && steps <= |h|
    ensures NextFrom(h, c, steps).Some? ==>
              var (i, c') := NextFrom(h, c, steps).value;
              c' == Succ(|h|, i) && Ahead(|h|, c, steps, i) && forall p :: 0 <= p < |h| && Passed(c, i, p) ==> !h[p]
    decreases steps
  {
    if steps > 0 && !h[c] {
      NextPasses(h, Succ(|h|, c), steps - 1);
    }
  }

  function Healthy(h: seq<bool>): set<nat>
  {
    set p | 0 <= p < |h| && h[p]
  }

  /** While k > 0 of n endpoints are healthy and stay so, k consecutive calls from any pointer
      return each healthy endpoint exactly once, in cyclic order from the pointer. */
  lemma RoundIsFair(h: seq<bool>, c: nat)
    requires c < |h| && Healthy(h) != {}
    ensures exists k :: 0 <= k < |h| && h[k]
    ensures var round := Calls(h, c, |Healthy(h)|).0;
            round == Scan(h, c, |h|) && Distinct(round) && forall p: nat :: p in round <==> p < |h| && h[p]
  {
    hide Scan, Calls;
    var p :| p in Healthy(h);
    assert h[p];
    var scan := Scan(h, c, |h|);
    ScanMeets(h, c, |h|);
    DistinctSize(scan, Healthy(h));
    CallsFollowScan(h, c, |h|);
  }

  // ---------- The endpoint manager ----------

  class EndpointHealth {
    const url: string
    var healthy: bool
    var failureCount: nat
    var nextRetry: int

    constructor (url: string)
      ensures this.url == url && healthy && failureCount == 0
    {
      this.url := url;
      healthy := true;
      failureCount := 0;
      nextRetry := 0;
    }

    /** Healthy, or due for another try. */
    predicate Usable(now: int)
      reads this
    {
      healthy || now > nextRetry
    }
  }

  function Health(endpoints: seq<EndpointHealth>, now: int): (h: seq<bool>)
    reads endpoints
    ensures |h| == |endpoints| && forall k :: 0 <= k < |h| ==> h[k] == endpoints[k].Usable(now)
  {
    seq(|endpoints|, k requires 0 <= k < |endpoints| reads endpoints => endpoints[k].Usable(now))
  }

  lemma NoneUsable(endpoints: seq<EndpointHealth>, now: int, start: nat)
    requires start < |endpoints| && NextFrom(Health(endpoints, now), start, |endpoints|) == None
    ensures forall k :: 0 <= k < |endpoints| ==> !endpoints[k].Usable(now)
  {
    var h := Health(endpoints, now);
    SomeHealthyFound(h, start);
    forall k | 0 <= k < |endpoints|
      ensures !endpoints[k].Usable(now)
    {
      assert !h[k];
    }
  }

  lemma NextUnfold(h: seq<bool>, c: nat, steps: nat)
    requires c < |h|
    ensures NextFrom(h, c, 0) == None
    ensures steps > 0 ==>
              NextFrom(h, c, steps) == if h[c] then Some((c, Succ(|h|, c))) else NextFrom(h, Succ(|h|, c), steps - 1)
  {
  }

  /** The first of the endpoints with the fewest failures. */
  method LeastFailed(endpoints: seq<EndpointHealth>) returns (best: nat)
    requires endpoints != []
    ensures best < |endpoints|
    ensures forall k :: 0 <= k < |endpoints| ==> endpoints[best].failureCount <= endpoints[k].failureCount
    ensures forall k :: 0 <= k < best ==> endpoints[best].failureCount < endpoints[k].failureCount
  {
    best := 0;
    for k := 1 to |endpoints|
      invariant 0 <= best < k
      invariant forall j :: 0 <= j < k ==> endpoints[best].failureCount <= endpoints[j].failureCount
      invariant forall j :: 0 <= j < best ==> endpoints[best].failureCount < endpoints[j].failureCount
    {
      if endpoints[k].failureCount < endpoints[best].failureCount {
        best := k;
      }
    }
  }

  /** Next's results; OutOfRange is the panic of a pointer beyond the list. */
  datatype Choice = NoEndpoints | OutOfRange | Chosen(endpoint: EndpointHealth)

  class Endpoints {
    var endpoints: seq<EndpointHealth>
    var current: nat

    constructor ()
      ensures endpoints == [] && current == 0
    {
      endpoints := [];
      current := 0;
    }

    /** The next usable endpoint from the pointer on, which moves past it. With none usable, the
        first of those with the fewest failures, and the pointer comes round to where it was. */
    method Next(now: int) returns (choice: Choice, ghost at: nat)
      modifies `current
      ensures endpoints == [] <==> choice == NoEndpoints
      ensures choice == OutOfRange <==> endpoints != [] && old(current) >= |endpoints|
      ensures !choice.Chosen? ==> current == old(current)
      ensures choice.Chosen? ==> at < |endpoints| && choice.endpoint == endpoints[at]
      ensures choice.Chosen? && (exists k :: 0 <= k < |endpoints| && (endpoints[k].healthy || now > endpoints[k].nextRetry)) ==>
        (endpoints[at].healthy || now > endpoints[at].nextRetry) && current == (at + 1) % |endpoints|
        && forall p :: 0 <= p < |endpoints| && Passed(old(current), at, p) ==>
             !endpoints[p].healthy && now <= endpoints[p].nextRetry
      ensures choice.Chosen? ==>
        at < |endpoints| && choice.endpoint == endpoints[at] &&
        match NextFrom(Health(endpoints, now), old(current), |endpoints|)
        case Some((i, c)) => at == i && current == c
        case None =>
          current == old(current)
          && (forall k :: 0 <= k < |endpoints| ==> !endpoints[k].Usable(now))
          && (forall k :: 0 <= k < |endpoints| ==> endpoints[at].failureCount <= endpoints[k].failureCount)
          && (forall k :: 0 <= k < at ==> endpoints[at].failureCount < endpoints[k].failureCount)
    {
      hide NextFrom;
      if |endpoints| == 0 {
        return NoEndpoints, 0;
      }
      if current >= |endpoints| {
        return OutOfRange, 0;
      }
      ghost var h, start := Health(endpoints, now), current;
      NextPasses(h, start, |endpoints|);
      SomeHealthyFound(h, start);
      var attempts := 0;
      while attempts < |endpoints|
        invariant 0 <= attempts <= |endpoints| && current < |endpoints|
        invariant current == if start + attempts < |endpoints| then start + attempts else start + attempts - |endpoints|
        invariant NextFrom(h, start, |endpoints|) == NextFrom(h, current, |endpoints| - attempts)
      {
        var endpoint := endpoints[current];
        NextUnfold(h, current, |endpoints| - attempts);
        at := current;
        current := (current + 1) % |endpoints|;
        assert current == Succ(|endpoints|, at);
        if endpoint.Usable(now) {
          return Chosen(endpoint), at;
        }
        attempts := attempts + 1;
      }
      NextUnfold(h, current, 0);
      NoneUsable(endpoints, now, start);
      var best := LeastFailed(endpoints);
      return Chosen(endpoints[best]), best;
    }

    /** Only the first endpoint of that URL is marked. */
    method ReportFailure(url: string, now: int, backoff: int) returns (ghost at: nat)
      modifies endpoints
      ensures at <= |endpoints| && (forall k :: 0 <= k < at ==> endpoints[k].url != url)
      ensures at < |endpoints| ==>
        endpoints[at].url == url && !endpoints[at].healthy && endpoints[at].nextRetry == now + backoff
        && endpoints[at].failureCount == old(endpoints[at].failureCount) + 1
      ensures forall e :: e in endpoints && (at < |endpoints| ==> e != endpoints[at]) ==>
        e.healthy == old(e.healthy) && e.failureCount == old(e.failureCount) && e.nextRetry == old(e.nextRetry)
    {
      var i := 0;
      while i < |endpoints|
        invariant 0 <= i <= |endpoints| && forall k :: 0 <= k < i ==> endpoints[k].url != url
        invariant forall e :: e in endpoints ==>
          e.healthy == old(e.healthy) && e.failureCount == old(e.failureCount) && e.nextRetry == old(e.nextRetry)
      {
        if endpoints[i].url == url {
          var endpoint := endpoints[i];
          endpoint.failureCount := endpoint.failureCount + 1;
          endpoint.healthy := false;
          endpoint.nextRetry := now + backoff;
          break;
        }
        i := i + 1;
      }
      at := i;
    }

    /** The list is replaced; known endpoints keep their records and the pointer stays put. */
    method Discover(urls: seq<string>)
      modifies `endpoints
      ensures |endpoints| == |urls| && current == old(current)
      ensures forall k :: 0 <= k < |urls| ==>
        endpoints[k].url == urls[k] &&
        if Known(old(endpoints), urls[k]) then endpoints[k] in old(endpoints)
        else fresh(endpoints[k]) && endpoints[k].healthy && endpoints[k].failureCount == 0
    {
      var found: seq<EndpointHealth> := [];
      for i := 0 to |urls|
        invariant |found| == i && endpoints == old(endpoints)
        invariant forall k :: 0 <= k < i ==>
          found[k].url == urls[k] &&
          if Known(endpoints, urls[k]) then found[k] in endpoints
          else fresh(found[k]) && found[k].healthy && found[k].failureCount == 0
      {
        var existing: EndpointHealth? := null;
        for j := 0 to |endpoints|
          invariant existing == null && forall k :: 0 <= k < j ==> endpoints[k].url != urls[i]
        {
          if endpoints[j].url == urls[i] {
            existing := endpoints[j];
            break;
          }
        }
        if existing == null {
          existing := new EndpointHealth(urls[i]);
        }
        found := found + [existing];
      }
      endpoints := found;
    }

    /** Discovery does not re-establish the pointer's bound: the next call panics exactly when the
        new list is not empty and no longer reaches the pointer. */
    method DiscoverThenNext(urls: seq<string>, now: int) returns (choice: Choice)
      modifies `endpoints, `current
      ensures choice == OutOfRange <==> urls != [] && old(current) >= |urls|
    {
      ghost var at;
      Discover(urls);
      choice, at := Next(now);
    }
  }

  /** Two endpoints, one call, then a discovery that finds one of them: a new object whose pointer
      is past the end of its list, so that the call after the first panics. */
  method ShrinkAfterCall(now: int) returns (rr: Endpoints, first: Choice, second: Choice)
    ensures fresh(rr) && |rr.endpoints| == 1 && rr.endpoints[0].url == "a" && rr.current == 1
    ensures first == Chosen(rr.endpoints[0]) && second == OutOfRange
  {
    rr := new Endpoints();
    rr.Discover(["a", "b"]);
    assert rr.endpoints[0].Usable(now);
    ghost var h := Health(rr.endpoints, now);
    NextUnfold(h, 0, 2);
    ghost var at;
    first, at := rr.Next(now);
    assert Known(rr.endpoints, "a");
    rr.Discover(["a"]);
    second, at := rr.Next(now);
  }

  /** The endpoint under the pointer if it is healthy or due; while one is healthy, some such one. */
  method CallOnce(rr: Endpoints, now: int) returns (chosen: EndpointHealth)
    requires rr.current < |rr.endpoints|
    modifies rr`current
    ensures rr.current < |rr.endpoints| && chosen in rr.endpoints
    ensures (exists k :: 0 <= k < |rr.endpoints| && rr.endpoints[k].healthy) ==>
              chosen.healthy || now > chosen.nextRetry
    ensures var e := rr.endpoints[old(rr.current)];
            e.healthy || now > e.nextRetry ==> chosen == e
  {
    hide NextFrom;
    ghost var at, before := 0, rr.current;
    var choice;
    choice, at := rr.Next(now);
    chosen := choice.endpoint;
    var h := Health(rr.endpoints, now);
    NextUnfold(h, before, |h|);
  }

  /** A failure is reported, then calls are made at some times. While another endpoint is healthy
      none of them up to the end of the backoff chooses the endpoint reported; a first call after it,
      with the pointer there, does. */
  method FailThenCall(rr: Endpoints, url: string, now: int, backoff: int, times: seq<int>)
    returns (ghost at: nat, chosen: seq<EndpointHealth>)
    requires rr.current < |rr.endpoints|
    modifies rr`current, rr.endpoints
    ensures |chosen| == |times| && at <= |rr.endpoints|
    ensures at == |rr.endpoints| <==> forall k :: 0 <= k < |rr.endpoints| ==> rr.endpoints[k].url != url
    ensures at < |rr.endpoints| ==> rr.endpoints[at].url == url && forall k :: 0 <= k < at ==> rr.endpoints[k].url != url
    ensures at < |rr.endpoints| && (exists k :: 0 <= k < |rr.endpoints| && rr.endpoints[k].healthy) ==>
              forall i :: 0 <= i < |times| && times[i] <= now + backoff ==> chosen[i] != rr.endpoints[at]
    ensures at < |rr.endpoints| && times != [] && times[0] > now + backoff && old(rr.current) == at ==>
              chosen[0] == rr.endpoints[at]
  {
    at := rr.ReportFailure(url, now, backoff);
    chosen := [];
    for j := 0 to |times|
      invariant |chosen| == j && rr.current < |rr.endpoints|
      invariant j == 0 ==> rr.current == old(rr.current)
      invariant at < |rr.endpoints| && (exists k :: 0 <= k < |rr.endpoints| && rr.endpoints[k].healthy) ==>
                  forall i :: 0 <= i < j && times[i] <= now + backoff ==> chosen[i] != rr.endpoints[at]
      invariant at < |rr.endpoints| && j > 0 && times[0] > now + backoff && old(rr.current) == at ==>
                  chosen[0] == rr.endpoints[at]
      modifies rr`current
    {
      var endpoint := CallOnce(rr, times[j]);
      chosen := chosen + [endpoint];
    }
  }

  /** m calls in a row while no health changes; a panic or an empty list stops them. */
  method CallRepeatedly(rr: Endpoints, now: int, m: nat) returns (chosen: seq<EndpointHealth>, ghost ats: seq<nat>)
    requires rr.current < |rr.endpoints|
    requires exists k :: 0 <= k < |rr.endpoints| && rr.endpoints[k].Usable(now)
    modifies rr`current
    ensures var h := Health(rr.endpoints, now);
            (exists k :: 0 <= k < |h| && h[k]) && (ats, rr.current) == Calls(h, old(rr.current), m)
    ensures |chosen| == |ats| == m
            && forall j :: 0 <= j < m ==> ats[j] < |rr.endpoints| && chosen[j] == rr.endpoints[ats[j]]
  {
    hide NextFrom, Calls;
    ghost var h, start := Health(rr.endpoints, now), rr.current;
    ghost var k :| 0 <= k < |rr.endpoints| && rr.endpoints[k].Usable(now);
    assert h[k];
    chosen, ats := [], [];
    CallsNone(h, start);
    for i := 0 to m
      invariant rr.current < |h| && (ats, rr.current) == Calls(h, start, i)
      invariant |chosen| == |ats| == i
      invariant forall j :: 0 <= j < i ==> ats[j] < |rr.endpoints| && chosen[j] == rr.endpoints[ats[j]]
    {
      SomeHealthyFound(h, rr.current);
      CallsAppend(h, start, i);
      var choice;
      ghost var at;
      choice, at := rr.Next(now);
      chosen, ats := chosen + [choice.endpoint], ats + [at];
    }
    assert Health(rr.endpoints, now) == h && h[k];
  }

  lemma CallsNone(h: seq<bool>, c: nat)
    requires c < |h| && exists k :: 0 <= k < |h| && h[k]
    ensures Calls(h, c, 0) == ([], c)
  {
  }

  /** One more call at the end. */
  lemma {:induction false} CallsAppend(h: seq<bool>, c: nat, m: nat)
    requires c < |h| && exists k :: 0 <= k < |h| && h[k]
    ensures var (ats, last) := Calls(h, c, m);
            last < |h| && NextFrom(h, last, |h|).Some? &&
            var (at, next) := NextFrom(h, last, |h|).value;
            Calls(h, c, m + 1) == (ats + [at], next)
    decreases m
  {
    hide NextFrom;
    SomeHealthyFound(h, c);
    var (i, c') := NextFrom(h, c, |h|).value;
    assert Calls(h, c, m + 1) == ([i] + Calls(h, c', m).0, Calls(h, c', m).1);
    if m == 0 {
      assert [i] + [] == [] + [i];
    } else {
      CallsAppend(h, c', m - 1);
      var (rest, last) := Calls(h, c', m - 1);
      SomeHealthyFound(h, last);
      var (at, next) := NextFrom(h, last, |h|).value;
      assert [i] + (rest + [at]) == ([i] + rest) + [at];
    }
  }

  predicate Known(endpoints: seq<EndpointHealth>, url: string)
  {
    exists k :: 0 <= k < |endpoints| && endpoints[k].url == url
  }
}
