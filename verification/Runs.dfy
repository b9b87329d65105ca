/** Theorems over every interleaving: linearizability, real-time order, conservation, wait-freedom. */
module Runs {
  import opened Wrappers
  import opened Words
  import opened Records
  import opened Servers
  import opened Interleavings

  // ---------- what later states keep ----------

  /** A request keeps its call and the snapshot it loaded, and stays as it is once finished. */
  predicate LaterRequest(r: Request, r': Request) {
    && r'.call == r.call
    && (r.pc.Pinned().Some? ==> r'.pc.Pinned() == r.pc.Pinned())
    && (r.pc.Finished() ==> r'.pc == r.pc)
  }

  /** Published snapshots stay as they are, the cell only moves on, requests only advance. */
  ghost predicate Later(s: State, s': State) {
    && |s.heap| <= |s'.heap| && s.current <= s'.current && |s.requests| <= |s'.requests|
    && (forall v :: 0 <= v < |s.heap| ==> s'.heap[v] == s.heap[v])
    && (forall i :: 0 <= i < |s.requests| ==> LaterRequest(s.requests[i], s'.requests[i]))
  }

  lemma ApplyIsLater(s: State, a: Action)
    requires Valid(s) && Enabled(s, a)
    ensures Later(s, Apply(s, a))
  {
    if a.Step? {
      UnfinishedCanStep(s, a.id);
    }
  }

  lemma LaterIsTransitive(a: State, b: State, c: State)
    requires Later(a, b) && Later(b, c)
    ensures Later(a, c)
  {
    forall i | 0 <= i < |a.requests|
      ensures LaterRequest(a.requests[i], c.requests[i])
    {
      assert LaterRequest(a.requests[i], b.requests[i]) && LaterRequest(b.requests[i], c.requests[i]);
    }
  }

  lemma {:induction false} RunIsLater(trace: seq<State>, acts: seq<Action>, t: nat, u: nat)
    requires IsRun(trace, acts) && t <= u < |trace|
    ensures Later(trace[t], trace[u])
    decreases u
  {
    if t < u {
      RunIsLater(trace, acts, t, u - 1);
      RunIsValid(trace, acts, u - 1);
      assert Follows(trace, acts, u - 1);
      ApplyIsLater(trace[u - 1], acts[u - 1]);
      LaterIsTransitive(trace[t], trace[u - 1], trace[u]);
    }
  }

  function Current(s: State): Version
    requires s.current < |s.heap|
  {
    s.heap[s.current]
  }

  /** At every moment the current snapshot is the one of the last reload, or the initial one as long
      as there was none. */
  lemma {:induction false} CurrentIsLastReload(trace: seq<State>, acts: seq<Action>, t: nat, last: int)
    requires IsRun(trace, acts) && -1 <= last < t < |trace|
    requires last >= 0 ==> acts[last].Reload?
    requires forall u :: last < u < t ==> !acts[u].Reload?
    ensures Valid(trace[t])
    ensures Current(trace[t]) == if last >= 0 then acts[last].version else trace[0].heap[0]
    decreases t
  {
    RunIsValid(trace, acts, t);
    if t > 0 {
      RunIsValid(trace, acts, t - 1);
      assert Follows(trace, acts, t - 1);
      if last < t - 1 {
        CurrentIsLastReload(trace, acts, t - 1, last);
      }
    }
  }

  /** A request is about the call that arrived for it. */
  lemma RequestIsOfItsArrival(trace: seq<State>, acts: seq<Action>, t: nat, e: nat)
    requires IsRun(trace, acts) && t < e < |trace| && acts[t].Arrive?
    ensures |trace[t].requests| < |trace[e].requests|
    ensures trace[e].requests[|trace[t].requests|].call == acts[t].call
  {
    var i := |trace[t].requests|;
    assert Follows(trace, acts, t);
    assert trace[t + 1].requests[i] == Request(acts[t].call, Called);
    RunIsLater(trace, acts, t + 1, e);
    assert LaterRequest(trace[t + 1].requests[i], trace[e].requests[i]);
  }

  // ---------- linearizability ----------

  /** A request that leaves its first program point has loaded the cell in that very step, unless
      it was a get rejected for the length of its key. */
  lemma FirstStep(s: State, a: Action, i: nat)
    requires Valid(s) && Enabled(s, a) && i < |s.requests| && s.requests[i].pc.Called?
    ensures i < |Apply(s, a).requests|
    ensures var pc := Apply(s, a).requests[i].pc;
            pc.Called? || pc == Rejected(None, []) || pc.Pinned() == Some(s.current)
  {
  }

  /** The moment at which a request loaded the cell. */
  lemma {:induction false} LoadInstant(trace: seq<State>, acts: seq<Action>, i: nat, b: nat, e: nat) returns (t: nat)
    requires IsRun(trace, acts) && b <= e < |trace|
    requires i < |trace[b].requests| && trace[b].requests[i].pc.Called?
    requires i < |trace[e].requests| && trace[e].requests[i].pc.Pinned().Some?
    ensures b <= t < e && trace[e].requests[i].pc.Pinned() == Some(trace[t].current)
    decreases e
  {
    RunIsLater(trace, acts, b, e - 1);
    RunIsLater(trace, acts, e - 1, e);
    assert LaterRequest(trace[e - 1].requests[i], trace[e].requests[i]);
    if trace[e - 1].requests[i].pc.Pinned().Some? {
      t := LoadInstant(trace, acts, i, b, e - 1);
    } else {
      t := e - 1;
      RunIsValid(trace, acts, t);
      assert Follows(trace, acts, t);
      if trace[t].requests[i].pc.Called? {
        FirstStep(trace[t], acts[t], i);
      }
    }
  }

  /** What a finished request has replied. */
  function ReplyOf(heap: seq<Version>, r: Request): Reply
    requires Consistent(heap, r) && r.pc.Finished()
  {
    match r.pc
    case Returned(v, served) => if r.call.GetCall? then One(served[0]) else Many(served)
    case Rejected(_, _) => InvalidArgument
    case Reported(v) => HealthIs(heap[v].info.recordCount, heap[v].info.buildTimestamp)
  }

  lemma GoodGet(key: seq<Byte>)
    ensures GoodPrefix([key]) == if |key| == KEY_SIZE then 1 else 0
  {
  }

  /** A finished request replied and counted as if its whole call had been executed in the
      snapshot it loaded; a get rejected before loading, as in any snapshot. */
  lemma FinishedMeaning(heap: seq<Version>, r: Request, v: Version)
    requires Consistent(heap, r) && r.pc.Finished()
    requires r.pc.Pinned().Some? ==> v == heap[r.pc.Pinned().value]
    ensures ReplyOf(heap, r) == Meaning(v, r.call)
    ensures Tally(r.pc) == Effect(v, r.call)
  {
    match r.pc {
      case Returned(_, served) =>
        if r.call.GetCall? {
          GoodGet(r.call.key);
        }
        assert served == Lookups(v, r.call.Wanted(), GoodPrefix(r.call.Wanted()));
      case Rejected(_, served) =>
        if r.call.GetCall? {
          GoodGet(r.call.key);
        }
        assert served == Lookups(v, r.call.Wanted(), GoodPrefix(r.call.Wanted()));
      case Reported(_) =>
    }
  }

  /** Linearizability.  In every interleaving of reloads and requests, a finished request has
      replied, and counted, as if its whole call had been executed at one instant `t` between any
      moment at which it had not loaded the cell yet and any moment at which it was finished. */
  lemma Linearizable(trace: seq<State>, acts: seq<Action>, i: nat, b: nat, e: nat) returns (t: nat)
    requires IsRun(trace, acts) && b <= e < |trace|
    requires i < |trace[b].requests| && trace[b].requests[i].pc.Called?
    requires i < |trace[e].requests| && trace[e].requests[i].pc.Finished()
    ensures b <= t < e && Valid(trace[t]) && Valid(trace[e])
    ensures trace[e].requests[i].call == trace[b].requests[i].call
    ensures var r := trace[e].requests[i];
            && Consistent(trace[e].heap, r)
            && ReplyOf(trace[e].heap, r) == Meaning(Current(trace[t]), r.call)
            && Tally(r.pc) == Effect(Current(trace[t]), r.call)
  {
    RunIsValid(trace, acts, e);
    RunIsLater(trace, acts, b, e);
    var r := trace[e].requests[i];
    assert LaterRequest(trace[b].requests[i], r) && Consistent(trace[e].heap, r);
    if r.pc.Pinned().Some? {
      t := LoadInstant(trace, acts, i, b, e);
    } else {
      t := b;
    }
    RunIsValid(trace, acts, t);
    RunIsLater(trace, acts, t, e);
    FinishedMeaning(trace[e].heap, r, Current(trace[t]));
  }

  /** Real-time order.  If one request had loaded its snapshot before another loaded one, the
      other did not get an older snapshot; in particular when the first had finished before the
      second arrived. */
  lemma VersionsNeverGoBack(trace: seq<State>, acts: seq<Action>, i: nat, j: nat, e: nat, f: nat, g: nat)
    requires IsRun(trace, acts) && e <= f <= g < |trace|
    requires i < |trace[e].requests| && trace[e].requests[i].pc.Pinned().Some?
    requires j < |trace[f].requests| && trace[f].requests[j].pc.Called?
    requires j < |trace[g].requests| && trace[g].requests[j].pc.Pinned().Some?
    ensures trace[e].requests[i].pc.Pinned().value <= trace[g].requests[j].pc.Pinned().value
  {
    RunIsValid(trace, acts, e);
    assert Consistent(trace[e].heap, trace[e].requests[i]);
    var t := LoadInstant(trace, acts, j, f, g);
    RunIsLater(trace, acts, e, t);
  }

  // ---------- conservation of the counters ----------

  /** How many of the first `n` requests are at a program point of some kind. */
  function CountWhere(requests: seq<Request>, n: nat, kind: Pc -> bool): nat
    requires n <= |requests|
  {
    if n == 0 then 0 else CountWhere(requests, n - 1, kind) + if kind(requests[n - 1].pc) then 1 else 0
  }

  /** How many lookups a request has performed. */
  function LookupsDone(pc: Pc): nat {
    match pc
    case Called => 0
    case Serving(_, served) => |served|
    case Resolved(_, served, _) => |served| + 1
    case Timed(_, served) => |served|
    case Returned(_, served) => |served|
    case Rejected(_, served) => |served|
    case Reporting(_) => 0
    case Reported(_) => 0
  }

  function AllLookups(requests: seq<Request>, n: nat): nat
    requires n <= |requests|
  {
    if n == 0 then 0 else AllLookups(requests, n - 1) + LookupsDone(requests[n - 1].pc)
  }

  /** How many lookups a request has counted: those it has performed but for one still to be counted. */
  function LookupsCounted(pc: Pc): nat {
    if pc.Resolved? then |pc.served| else LookupsDone(pc)
  }

  /** How many of them were for keys that the snapshot of the request has. */
  ghost function HitsOf(heap: seq<Version>, r: Request): nat
    requires Consistent(heap, r)
  {
    match r.pc.Pinned()
    case None => 0
    case Some(v) => |set k | 0 <= k < LookupsCounted(r.pc) && heap[v].lookup(r.call.Wanted()[k]).Some?|
  }

  /** How many of them were for keys that it has not. */
  ghost function MissesOf(heap: seq<Version>, r: Request): nat
    requires Consistent(heap, r)
  {
    match r.pc.Pinned()
    case None => 0
    case Some(v) => |set k | 0 <= k < LookupsCounted(r.pc) && heap[v].lookup(r.call.Wanted()[k]).None?|
  }

  ghost function AllHits(heap: seq<Version>, requests: seq<Request>, n: nat): nat
    requires n <= |requests| && forall i :: 0 <= i < n ==> Consistent(heap, requests[i])
  {
    if n == 0 then 0 else AllHits(heap, requests, n - 1) + HitsOf(heap, requests[n - 1])
  }

  ghost function AllMisses(heap: seq<Version>, requests: seq<Request>, n: nat): nat
    requires n <= |requests| && forall i :: 0 <= i < n ==> Consistent(heap, requests[i])
  {
    if n == 0 then 0 else AllMisses(heap, requests, n - 1) + MissesOf(heap, requests[n - 1])
  }

  lemma NoLookups(heap: seq<Version>, r: Request)
    requires Consistent(heap, r) && LookupsCounted(r.pc) == 0
    ensures HitsOf(heap, r) == 0 && MissesOf(heap, r) == 0
  {
  }

  /** A request has counted its lookups by what its snapshot has. */
  lemma TallyOfSnapshot(heap: seq<Version>, r: Request)
    requires Consistent(heap, r)
    ensures Tally(r.pc).hits == HitsOf(heap, r) && Tally(r.pc).misses == MissesOf(heap, r)
  {
    match r.pc {
      case Called =>
      case Serving(v, served) => AnsweredCounts(heap[v], r.call.Wanted(), served);
      case Resolved(v, served, _) => AnsweredCounts(heap[v], r.call.Wanted(), served);
      case Timed(v, served) => AnsweredCounts(heap[v], r.call.Wanted(), served);
      case Returned(v, served) => AnsweredCounts(heap[v], r.call.Wanted(), served);
      case Rejected(None, served) =>
      case Rejected(Some(v), served) => AnsweredCounts(heap[v], r.call.Wanted(), served);
      case Reporting(_) => NoLookups(heap, r);
      case Reported(_) => NoLookups(heap, r);
    }
  }

  lemma {:induction false} SumsOfSnapshots(heap: seq<Version>, requests: seq<Request>, n: nat)
    requires n <= |requests| && forall i :: 0 <= i < n ==> Consistent(heap, requests[i])
    ensures SumOf(Tallies(requests), n).hits == AllHits(heap, requests, n)
    ensures SumOf(Tallies(requests), n).misses == AllMisses(heap, requests, n)
  {
    if n > 0 {
      SumsOfSnapshots(heap, requests, n - 1);
      TallyOfSnapshot(heap, requests[n - 1]);
    }
  }

  lemma {:induction false} SumsByKind(requests: seq<Request>, n: nat)
    requires n <= |requests|
    ensures var m := SumOf(Tallies(requests), n);
            && m.errors == CountWhere(requests, n, (pc: Pc) => pc.Rejected?)
            && m.requests == CountWhere(requests, n, (pc: Pc) => pc.Returned?)
            && m.latency == m.requests + CountWhere(requests, n, (pc: Pc) => pc.Timed?)
            && m.hits + m.misses + CountWhere(requests, n, (pc: Pc) => pc.Resolved?) == AllLookups(requests, n)
  {
    if n > 0 {
      SumsByKind(requests, n - 1);
      TallyByKind(requests[n - 1].pc);
    }
  }

  lemma TallyByKind(pc: Pc)
    ensures var m := Tally(pc);
            && m.errors == (if pc.Rejected? then 1 else 0)
            && m.requests == (if pc.Returned? then 1 else 0)
            && m.latency == m.requests + (if pc.Timed? then 1 else 0)
            && m.hits + m.misses + (if pc.Resolved? then 1 else 0) == LookupsDone(pc)
  {
  }

  lemma {:induction false} CountZero(requests: seq<Request>, n: nat, kind: Pc -> bool)
    requires n <= |requests|
    ensures CountWhere(requests, n, kind) == 0 <==> forall i :: 0 <= i < n ==> !kind(requests[i].pc)
  {
    if n > 0 {
      CountZero(requests, n - 1, kind);
    }
  }

  /** Conservation, at every moment of every interleaving: errors are the rejected requests; hits are
      the counted lookups whose key the snapshot of their request has, and misses those whose key it
      has not; together with the lookups whose counter is due they are the lookups performed, those
      of rejected and unfinished batches included; requests are the ones answered; and the latency
      count is ahead of them by exactly the requests that are between the two increments. */
  lemma CountersAreConserved(trace: seq<State>, acts: seq<Action>, t: nat)
    requires IsRun(trace, acts) && t < |trace|
    ensures Valid(trace[t])
    ensures var s := trace[t];
            && s.metrics.hits == AllHits(s.heap, s.requests, |s.requests|)
            && s.metrics.misses == AllMisses(s.heap, s.requests, |s.requests|)
    ensures var s := trace[t];
            var n := |s.requests|;
            && s.metrics.errors == CountWhere(s.requests, n, (pc: Pc) => pc.Rejected?)
            && s.metrics.requests == CountWhere(s.requests, n, (pc: Pc) => pc.Returned?)
            && s.metrics.hits + s.metrics.misses + CountWhere(s.requests, n, (pc: Pc) => pc.Resolved?)
               == AllLookups(s.requests, n)
            && s.metrics.latency - s.metrics.requests == CountWhere(s.requests, n, (pc: Pc) => pc.Timed?)
            && (s.metrics.latency == s.metrics.requests <==> forall i :: 0 <= i < n ==> !s.requests[i].pc.Timed?)
  {
    RunIsValid(trace, acts, t);
    SumsOfSnapshots(trace[t].heap, trace[t].requests, |trace[t].requests|);
    SumsByKind(trace[t].requests, |trace[t].requests|);
    CountZero(trace[t].requests, |trace[t].requests|, (pc: Pc) => pc.Timed?);
  }

  // ---------- wait-freedom ----------

  /** Steps from the point where `n` responses are there: two for each further key, and then the
      two final counters, or the error counter for a bad key. */
  function StepsAfter(call: Call, n: nat): int {
    2 * (GoodPrefix(call.Wanted()) - n) + if GoodPrefix(call.Wanted()) == |call.Wanted()| then 2 else 1
  }

  /** The number of steps a request still needs. */
  function StepsLeft(r: Request): int {
    match r.pc
    case Called =>
      if r.call.HealthCall? then 2
      else if r.call.GetCall? && |r.call.key| != KEY_SIZE then 1
      else 1 + StepsAfter(r.call, 0)
    case Serving(_, served) => StepsAfter(r.call, |served|)
    case Resolved(_, served, _) => 1 + StepsAfter(r.call, |served| + 1)
    case Timed(_, _) => 1
    case Reporting(_) => 1
    case _ => 0
  }

  lemma StepsLeftMeaning(heap: seq<Version>, r: Request)
    requires Consistent(heap, r)
    ensures StepsLeft(r) >= 0 && (StepsLeft(r) == 0 <==> r.pc.Finished())
  {
  }

  lemma AdvanceTakesOneStep(heap: seq<Version>, current: nat, r: Request)
    requires Consistent(heap, r) && CanStep(heap, r)
    ensures StepsLeft(r.(pc := Advance(heap, current, r).0)) == StepsLeft(r) - 1
  {
  }

  lemma ApplyTakesOwnSteps(s: State, a: Action, i: nat)
    requires Valid(s) && Enabled(s, a) && i < |s.requests|
    ensures i < |Apply(s, a).requests|
    ensures StepsLeft(Apply(s, a).requests[i]) == StepsLeft(s.requests[i]) - if a.Step? && a.id == i then 1 else 0
  {
    assert Consistent(s.heap, s.requests[i]);
    if a.Step? && a.id == i {
      AdvanceTakesOneStep(s.heap, s.current, s.requests[i]);
    }
  }

  lemma NextTakesOwnSteps(trace: seq<State>, acts: seq<Action>, i: nat, t: nat)
    requires IsRun(trace, acts) && t < |acts| && i < |trace[t].requests|
    ensures i < |trace[t + 1].requests|
    ensures StepsLeft(trace[t + 1].requests[i])
            == StepsLeft(trace[t].requests[i]) - if acts[t].Step? && acts[t].id == i then 1 else 0
  {
    RunIsValid(trace, acts, t);
    assert Follows(trace, acts, t);
    ApplyTakesOwnSteps(trace[t], acts[t], i);
  }

  /** The steps a request takes itself between two moments. */
  function OwnSteps(acts: seq<Action>, i: nat, b: nat, e: nat): nat
    requires b <= e <= |acts|
    decreases e
  {
    if b == e then 0
    else OwnSteps(acts, i, b, e - 1) + if acts[e - 1].Step? && acts[e - 1].id == i then 1 else 0
  }

  /** Nothing but its own steps changes how many steps a request still needs. */
  lemma {:induction false} OnlyOwnStepsCount(trace: seq<State>, acts: seq<Action>, i: nat, b: nat, e: nat)
    requires IsRun(trace, acts) && b <= e < |trace| && i < |trace[b].requests|
    ensures i < |trace[e].requests|
    ensures StepsLeft(trace[e].requests[i]) == StepsLeft(trace[b].requests[i]) - OwnSteps(acts, i, b, e)
    decreases e
  {
    if b < e {
      OnlyOwnStepsCount(trace, acts, i, b, e - 1);
      NextTakesOwnSteps(trace, acts, i, e - 1);
    }
  }

  /** No interleaving delays a request: nothing but its own steps changes how many it still needs,
      it is finished when it has taken them, and until then it can always take the next one. */
  lemma WaitFree(trace: seq<State>, acts: seq<Action>, i: nat, b: nat, e: nat)
    requires IsRun(trace, acts) && b <= e < |trace| && i < |trace[b].requests|
    ensures i < |trace[e].requests|
    ensures StepsLeft(trace[e].requests[i]) == StepsLeft(trace[b].requests[i]) - OwnSteps(acts, i, b, e)
    ensures trace[e].requests[i].pc.Finished() <==> OwnSteps(acts, i, b, e) == StepsLeft(trace[b].requests[i])
    ensures !trace[e].requests[i].pc.Finished() <==> Enabled(trace[e], Step(i))
  {
    RunIsValid(trace, acts, e);
    OnlyOwnStepsCount(trace, acts, i, b, e);
    UnfinishedCanStep(trace[e], i);
    StepsLeftMeaning(trace[e].heap, trace[e].requests[i]);
  }
}
