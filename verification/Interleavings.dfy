/** The service under concurrency: requests and reloads interleaved step by step.

    Published snapshots live in `heap`; the shared cell holds the position of the current one, and
    a request that has loaded the cell keeps that position.  Loading the cell, each lookup and each
    counter increment is a step of its own; local work is part of the following step. */
module Interleavings {
  import opened Wrappers
  import opened Records
  import opened Servers

  datatype Pc =
    | Called
    | Serving(version: nat, served: seq<GetResponse>)
    | Resolved(version: nat, served: seq<GetResponse>, response: GetResponse)
    | Timed(version: nat, served: seq<GetResponse>)
    | Returned(version: nat, served: seq<GetResponse>)
    | Rejected(loaded: Option<nat>, served: seq<GetResponse>)
    | Reporting(version: nat)
    | Reported(version: nat)
  {
    predicate Finished() {
      Returned? || Rejected? || Reported?
    }

    /** The snapshot the request works on, once it has loaded one. */
    function Pinned(): Option<nat> {
      match this
      case Called => None
      case Rejected(loaded, _) => loaded
      case _ => Some(version)
    }
  }

  datatype Request = Request(call: Call, pc: Pc)

  datatype State = State(heap: seq<Version>, current: nat, requests: seq<Request>, metrics: Metrics)

  datatype Action = Arrive(call: Call) | Reload(version: Version) | Step(id: nat)

  predicate Init(s: State) {
    |s.heap| == 1 && s.current == 0 && s.requests == [] && s.metrics == NO_METRICS
  }

  /** A request can step unless it has finished; what it reads must exist. */
  predicate CanStep(heap: seq<Version>, r: Request) {
    match r.pc
    case Serving(v, served) => v < |heap| && |served| <= |r.call.Wanted()|
    case _ => !r.pc.Finished()
  }

  predicate Enabled(s: State, a: Action) {
    a.Step? ==> a.id < |s.requests| && CanStep(s.heap, s.requests[a.id])
  }

  /** The next step of one request, given the cell and the published snapshots: where it goes and
      what it adds to the counters. */
  function Advance(heap: seq<Version>, current: nat, r: Request): (Pc, Tick)
    requires CanStep(heap, r)
  {
    match r.pc
    case Called =>
      if r.call.HealthCall? then (Reporting(current), Nothing)
      else if r.call.GetCall? && |r.call.key| != KEY_SIZE then (Rejected(None, []), Error)
      else (Serving(current, []), Nothing)
    case Serving(v, served) =>
      var keys := r.call.Wanted();
      if |served| == |keys| then (Timed(v, served), Latency)
      else if |keys[|served|]| != KEY_SIZE then (Rejected(Some(v), served), Error)
      else (Resolved(v, served, Respond(heap[v].lookup(keys[|served|]))), Nothing)
    case Resolved(v, served, response) =>
      (Serving(v, served + [response]), Counted(response))
    case Timed(v, served) => (Returned(v, served), Served)
    case Reporting(v) => (Reported(v), Nothing)
  }

  function Apply(s: State, a: Action): State
    requires Enabled(s, a)
  {
    match a
    case Arrive(call) => s.(requests := s.requests + [Request(call, Called)])
    case Reload(v) => s.(heap := s.heap + [v], current := |s.heap|)
    case Step(i) =>
      var (pc, tick) := Advance(s.heap, s.current, s.requests[i]);
      s.(requests := s.requests[i := s.requests[i].(pc := pc)], metrics := s.metrics.Add(tick))
  }

  // ---------- the invariant ----------

  /** A get is served only after its key has passed the length check. */
  predicate Checked(call: Call) {
    !call.HealthCall? && (call.GetCall? ==> |call.key| == KEY_SIZE)
  }

  /** The responses so far are the pointwise lookups, in request order, in the pinned snapshot. */
  predicate Consistent(heap: seq<Version>, r: Request) {
    var keys := r.call.Wanted();
    match r.pc
    case Called => true
    case Serving(v, served) => Checked(r.call) && v < |heap| && Answered(heap[v], keys, served)
    case Resolved(v, served, response) =>
      && Checked(r.call) && v < |heap| && Answered(heap[v], keys, served) && |served| < GoodPrefix(keys)
      && response == Respond(heap[v].lookup(keys[|served|]))
    case Timed(v, served) =>
      Checked(r.call) && v < |heap| && Answered(heap[v], keys, served) && |served| == |keys|
    case Returned(v, served) =>
      Checked(r.call) && v < |heap| && Answered(heap[v], keys, served) && |served| == |keys|
    case Rejected(None, served) => r.call.GetCall? && |r.call.key| != KEY_SIZE && served == []
    case Rejected(Some(v), served) =>
      r.call.BatchCall? && v < |heap| && Answered(heap[v], keys, served) && |served| == GoodPrefix(keys) < |keys|
    case Reporting(v) => r.call.HealthCall? && v < |heap|
    case Reported(v) => r.call.HealthCall? && v < |heap|
  }

  /** What a request has added to the counters so far. */
  function Tally(pc: Pc): Metrics {
    match pc
    case Called => NO_METRICS
    case Serving(_, served) => LookupCounts(served)
    case Resolved(_, served, _) => LookupCounts(served)
    case Timed(_, served) => LookupCounts(served).Add(Latency)
    case Returned(_, served) => LookupCounts(served).Add(Latency).Add(Served)
    case Rejected(_, served) => LookupCounts(served).Add(Error)
    case Reporting(_) => NO_METRICS
    case Reported(_) => NO_METRICS
  }

  function Tallies(requests: seq<Request>): (ms: seq<Metrics>)
    ensures |ms| == |requests| && forall i :: 0 <= i < |requests| ==> ms[i] == Tally(requests[i].pc)
  {
    seq(|requests|, i requires 0 <= i < |requests| => Tally(requests[i].pc))
  }

  /** The cell holds the newest snapshot, every request is consistent with the snapshot it loaded,
      and the counters are exactly what the requests have added. */
  ghost predicate Valid(s: State) {
    && |s.heap| == s.current + 1
    && (forall i :: 0 <= i < |s.requests| ==> Consistent(s.heap, s.requests[i]))
    && s.metrics == SumOf(Tallies(s.requests), |s.requests|)
  }

  /** No unfinished request is ever stuck. */
  lemma UnfinishedCanStep(s: State, i: nat)
    requires Valid(s) && i < |s.requests|
    ensures CanStep(s.heap, s.requests[i]) <==> !s.requests[i].pc.Finished()
  {
    assert Consistent(s.heap, s.requests[i]);
  }

  /** A step keeps its request consistent. */
  lemma AdvanceKeepsConsistent(heap: seq<Version>, current: nat, r: Request)
    requires Consistent(heap, r) && current < |heap| && CanStep(heap, r)
    ensures Consistent(heap, r.(pc := Advance(heap, current, r).0))
  {
  }

  /** A step counts exactly what it adds. */
  lemma AdvanceCounts(heap: seq<Version>, current: nat, r: Request)
    requires CanStep(heap, r)
    ensures var (pc, tick) := Advance(heap, current, r); Tally(pc) == Tally(r.pc).Add(tick)
  {
    if r.pc.Resolved? {
      LookupCountsStep(r.pc.served, r.pc.response);
    }
  }

  lemma HeapGrows(heap: seq<Version>, v: Version, r: Request)
    requires Consistent(heap, r)
    ensures Consistent(heap + [v], r)
  {
  }

  lemma ArriveKeepsValid(s: State, call: Call)
    requires Valid(s)
    ensures Valid(Apply(s, Arrive(call)))
  {
    var r := Request(call, Called);
    SumPrefix(Tallies(s.requests), Tally(Called), |s.requests|);
    assert Tallies(s.requests + [r]) == Tallies(s.requests) + [Tally(Called)];
  }

  lemma ReloadKeepsValid(s: State, v: Version)
    requires Valid(s)
    ensures Valid(Apply(s, Reload(v)))
  {
    forall i | 0 <= i < |s.requests|
      ensures Consistent(s.heap + [v], s.requests[i])
    {
      HeapGrows(s.heap, v, s.requests[i]);
    }
  }

  lemma StepKeepsValid(s: State, i: nat)
    requires Valid(s) && Enabled(s, Step(i))
    ensures Valid(Apply(s, Step(i)))
  {
    var r := s.requests[i];
    var (pc, tick) := Advance(s.heap, s.current, r);
    var requests := s.requests[i := r.(pc := pc)];
    AdvanceKeepsConsistent(s.heap, s.current, r);
    AdvanceCounts(s.heap, s.current, r);
    SumUpdate(Tallies(s.requests), |s.requests|, i, tick);
    assert Tallies(requests) == Tallies(s.requests)[i := Tally(r.pc).Add(tick)];
  }

  lemma ApplyKeepsValid(s: State, a: Action)
    requires Valid(s) && Enabled(s, a)
    ensures Valid(Apply(s, a))
  {
    match a {
      case Arrive(call) => ArriveKeepsValid(s, call);
      case Reload(v) => ReloadKeepsValid(s, v);
      case Step(i) => StepKeepsValid(s, i);
    }
  }

  // ---------- runs ----------

  /** State `t + 1` follows from state `t` by action `t`. */
  ghost predicate Follows(trace: seq<State>, acts: seq<Action>, t: nat)
    requires t < |acts| && |trace| == |acts| + 1
  {
    Enabled(trace[t], acts[t]) && trace[t + 1] == Apply(trace[t], acts[t])
  }

  /** One interleaving: any number of arrivals, reloads and steps in any order. */
  ghost predicate IsRun(trace: seq<State>, acts: seq<Action>) {
    && |trace| == |acts| + 1
    && Init(trace[0])
    && forall t :: 0 <= t < |acts| ==> Follows(trace, acts, t)
  }

  lemma {:induction false} RunIsValid(trace: seq<State>, acts: seq<Action>, t: nat)
    requires IsRun(trace, acts) && t < |trace|
    ensures Valid(trace[t])
  {
    if t > 0 {
      RunIsValid(trace, acts, t - 1);
      assert Follows(trace, acts, t - 1);
      ApplyKeepsValid(trace[t - 1], acts[t - 1]);
    }
  }

  /** Nothing enabled is excluded: every run goes on with any arrival, any reload, and any step of
      an unfinished request. */
  lemma RunExtends(trace: seq<State>, acts: seq<Action>, a: Action)
    requires IsRun(trace, acts)
    requires a.Step? ==> a.id < |trace[|acts|].requests| && !trace[|acts|].requests[a.id].pc.Finished()
    ensures Enabled(trace[|acts|], a) && IsRun(trace + [Apply(trace[|acts|], a)], acts + [a])
  {
    RunIsValid(trace, acts, |acts|);
    if a.Step? {
      UnfinishedCanStep(trace[|acts|], a.id);
    }
    var trace', acts' := trace + [Apply(trace[|acts|], a)], acts + [a];
    forall t | 0 <= t < |acts'|
      ensures Follows(trace', acts', t)
    {
      if t < |acts| {
        assert Follows(trace, acts, t);
      }
    }
  }
}
