/** The lookup service: what each call answers and counts, and the service object. */
module Servers {
  import opened Wrappers
  import opened Words
  import opened Records
  import opened Stores

  /** An immutable published snapshot, as a request sees it. */
  datatype Version = Version(lookup: Key -> Option<Value>, info: VersionInfo)

  function VersionOf(st: KvStore): (v: Version)
    requires st.InBounds()
    ensures forall key: Key :: v.lookup(key) == st.Get(key)
    ensures v.info == st.info
  {
    Version((key: Key) => st.Get(key), st.info)
  }

  datatype Tick = Nothing | Served | Hit | Miss | Error | Latency

  datatype Metrics = Metrics(requests: nat, hits: nat, misses: nat, errors: nat, latency: nat) {
    /** One increment of one counter. */
    function Add(tick: Tick): Metrics {
      match tick
      case Nothing => this
      case Served => this.(requests := requests + 1)
      case Hit => this.(hits := hits + 1)
      case Miss => this.(misses := misses + 1)
      case Error => this.(errors := errors + 1)
      case Latency => this.(latency := latency + 1)
    }

    function Plus(m: Metrics): Metrics {
      Metrics(requests + m.requests, hits + m.hits, misses + m.misses, errors + m.errors, latency + m.latency)
    }
  }

  const NO_METRICS := Metrics(0, 0, 0, 0, 0)

  /** The sum of the first `n` contributions. */
  function SumOf(ms: seq<Metrics>, n: nat): Metrics
    requires n <= |ms|
  {
    if n == 0 then NO_METRICS else SumOf(ms, n - 1).Plus(ms[n - 1])
  }

  lemma {:induction false} SumUpdate(ms: seq<Metrics>, n: nat, i: nat, tick: Tick)
    requires i < |ms| && n <= |ms|
    ensures SumOf(ms[i := ms[i].Add(tick)], n) == if i < n then SumOf(ms, n).Add(tick) else SumOf(ms, n)
  {
    if n > 0 {
      SumUpdate(ms, n - 1, i, tick);
    }
  }

  lemma {:induction false} SumPrefix(ms: seq<Metrics>, m: Metrics, n: nat)
    requires n <= |ms|
    ensures SumOf(ms + [m], n) == SumOf(ms, n)
  {
    if n > 0 {
      SumPrefix(ms, m, n - 1);
    }
  }

  datatype GetResponse = GetResponse(found: bool, value: seq<Byte>)

  datatype Call = GetCall(key: seq<Byte>) | BatchCall(keys: seq<seq<Byte>>) | HealthCall {
    /** The keys to look up, in order. */
    function Wanted(): seq<seq<Byte>> {
      match this
      case GetCall(key) => [key]
      case BatchCall(keys) => keys
      case HealthCall => []
    }
  }

  datatype Reply =
    | One(result: GetResponse)
    | Many(results: seq<GetResponse>)
    | InvalidArgument
    | HealthIs(recordCount: nat, buildTimestamp: nat)

  // ---------- what a call means in one version ----------

  function Respond(value: Option<Value>): GetResponse {
    match value
    case Some(v) => GetResponse(true, v)
    case None => GetResponse(false, [])
  }

  /** The number of keys before the first one of a wrong length. */
  function GoodPrefix(keys: seq<seq<Byte>>): (n: nat)
    ensures n <= |keys|
    ensures forall i :: 0 <= i < n ==> |keys[i]| == KEY_SIZE
    ensures n < |keys| ==> |keys[n]| != KEY_SIZE
  {
    if keys == [] || |keys[0]| != KEY_SIZE then 0 else 1 + GoodPrefix(keys[1..])
  }

  /** `rs` are the responses for the leading keys, in request order. */
  predicate Answered(v: Version, keys: seq<seq<Byte>>, rs: seq<GetResponse>) {
    && |rs| <= GoodPrefix(keys)
    && forall i :: 0 <= i < |rs| ==> rs[i] == Respond(v.lookup(keys[i]))
  }

  /** The pointwise lookups of the first `n` keys, in request order. */
  function Lookups(v: Version, keys: seq<seq<Byte>>, n: nat): (rs: seq<GetResponse>)
    requires n <= GoodPrefix(keys)
    ensures |rs| == n && forall i :: 0 <= i < n ==> rs[i] == Respond(v.lookup(keys[i]))
  {
    seq(n, i requires 0 <= i < n => Respond(v.lookup(keys[i])))
  }

  /** How many of the first `n` responses found their key. */
  function FoundIn(rs: seq<GetResponse>, n: nat): (count: nat)
    requires n <= |rs|
    ensures count <= n
  {
    if n == 0 then 0 else FoundIn(rs, n - 1) + if rs[n - 1].found then 1 else 0
  }

  /** What a number of lookups has added to the counters. */
  function LookupCounts(rs: seq<GetResponse>): (m: Metrics)
    ensures m.hits + m.misses == |rs| && m.requests == m.errors == m.latency == 0
  {
    Metrics(0, FoundIn(rs, |rs|), |rs| - FoundIn(rs, |rs|), 0, 0)
  }

  lemma {:induction false} FoundInPrefix(rs: seq<GetResponse>, r: GetResponse, n: nat)
    requires n <= |rs|
    ensures FoundIn(rs + [r], n) == FoundIn(rs, n)
  {
    if n > 0 {
      FoundInPrefix(rs, r, n - 1);
    }
  }

  /** The counter one response adds to. */
  function Counted(r: GetResponse): Tick {
    if r.found then Hit else Miss
  }

  lemma LookupCountsStep(rs: seq<GetResponse>, r: GetResponse)
    ensures LookupCounts(rs + [r]) == LookupCounts(rs).Add(Counted(r))
  {
    FoundInPrefix(rs, r, |rs|);
  }

  /** The answer of a whole call executed in one version. */
  function Meaning(v: Version, call: Call): Reply {
    match call
    case HealthCall => HealthIs(v.info.recordCount, v.info.buildTimestamp)
    case GetCall(key) => if |key| != KEY_SIZE then InvalidArgument else One(Respond(v.lookup(key)))
    case BatchCall(keys) =>
      if GoodPrefix(keys) < |keys| then InvalidArgument else Many(Lookups(v, keys, |keys|))
  }

  /** What a whole call executed in one version adds to the counters: a rejected batch has counted
      the lookups of the keys before its first bad one, and is not counted as a request. */
  function Effect(v: Version, call: Call): Metrics {
    if call.HealthCall? then NO_METRICS
    else
      var keys := call.Wanted();
      var counts := LookupCounts(Lookups(v, keys, GoodPrefix(keys)));
      if GoodPrefix(keys) == |keys| then counts.Add(Latency).Add(Served) else counts.Add(Error)
  }

  // ---------- replies and counts in terms of the version ----------

  /** The response says what a lookup found. */
  ghost predicate Tells(r: GetResponse, found: Option<Value>) {
    && (r.found <==> found.Some?)
    && (found.Some? ==> r.value == found.value)
    && (found.None? ==> r.value == [])
  }

  /** What each call is answered: a key or a batch with a wrong length is rejected, a get tells
      what is stored under its key, a batch tells it for each of its keys in order, and health
      reports the count and the timestamp of the version. */
  lemma ReplyMeaning(v: Version, call: Call)
    ensures call.HealthCall? ==>
              var reply := Meaning(v, call);
              && reply.HealthIs?
              && reply.recordCount == v.info.recordCount && reply.buildTimestamp == v.info.buildTimestamp
    ensures call.GetCall? ==>
              if |call.key| != 64 then Meaning(v, call) == InvalidArgument
              else Meaning(v, call).One? && Tells(Meaning(v, call).result, v.lookup(call.key))
    ensures call.BatchCall? ==>
              if exists k :: 0 <= k < |call.keys| && |call.keys[k]| != 64 then Meaning(v, call) == InvalidArgument
              else Meaning(v, call).Many? && |Meaning(v, call).results| == |call.keys|
                   && forall k :: 0 <= k < |call.keys| ==>
                        Tells(Meaning(v, call).results[k], v.lookup(call.keys[k]))
  {
  }

  lemma {:induction false} FoundInIsSize(rs: seq<GetResponse>, n: nat)
    requires n <= |rs|
    ensures FoundIn(rs, n) == |set k | 0 <= k < n && rs[k].found|
  {
    if n > 0 {
      var i := n - 1;
      FoundInIsSize(rs, i);
      assert (set k | 0 <= k < n && rs[k].found)
          == (set k | 0 <= k < i && rs[k].found) + if rs[i].found then {i} else {};
    }
  }

  lemma {:induction false} NotFoundInIsSize(rs: seq<GetResponse>, n: nat)
    requires n <= |rs|
    ensures n - FoundIn(rs, n) == |set k | 0 <= k < n && !rs[k].found|
  {
    if n > 0 {
      var i := n - 1;
      NotFoundInIsSize(rs, i);
      assert (set k | 0 <= k < n && !rs[k].found)
          == (set k | 0 <= k < i && !rs[k].found) + if rs[i].found then {} else {i};
    }
  }

  /** The lookups answered so far count as hits where the version has the key, as misses elsewhere. */
  lemma AnsweredCounts(v: Version, keys: seq<seq<Byte>>, rs: seq<GetResponse>)
    requires Answered(v, keys, rs)
    ensures LookupCounts(rs).hits == |set k | 0 <= k < |rs| && v.lookup(keys[k]).Some?|
    ensures LookupCounts(rs).misses == |set k | 0 <= k < |rs| && v.lookup(keys[k]).None?|
  {
    FoundInIsSize(rs, |rs|);
    NotFoundInIsSize(rs, |rs|);
    assert (set k | 0 <= k < |rs| && rs[k].found) == (set k | 0 <= k < |rs| && v.lookup(keys[k]).Some?);
    assert (set k | 0 <= k < |rs| && !rs[k].found) == (set k | 0 <= k < |rs| && v.lookup(keys[k]).None?);
  }

  /** What each call counts: its keys up to the first bad one as hits where they are stored and as
      misses where they are not, and itself as an error or else as a request with its latency. */
  lemma EffectMeaning(v: Version, call: Call)
    ensures call.HealthCall? ==> Effect(v, call) == Metrics(0, 0, 0, 0, 0)
    ensures call.GetCall? ==>
              var good, m := |call.key| == 64, Effect(v, call);
              && m.hits == (if good && v.lookup(call.key).Some? then 1 else 0)
              && m.misses == (if good && v.lookup(call.key).None? then 1 else 0)
              && m.errors == (if good then 0 else 1)
              && m.requests == m.latency == (if good then 1 else 0)
    ensures call.BatchCall? ==>
              var keys, m := call.keys, Effect(v, call);
              && m.hits == |set k | 0 <= k < GoodPrefix(keys) && v.lookup(keys[k]).Some?|
              && m.misses == |set k | 0 <= k < GoodPrefix(keys) && v.lookup(keys[k]).None?|
              && m.errors == (if GoodPrefix(keys) < |keys| then 1 else 0)
              && m.requests == m.latency == (if GoodPrefix(keys) < |keys| then 0 else 1)
  {
    match call {
      case HealthCall =>
      case GetCall(key) => GetEffect(v, key);
      case BatchCall(keys) => AnsweredCounts(v, keys, Lookups(v, keys, GoodPrefix(keys)));
    }
  }

  lemma GetEffect(v: Version, key: seq<Byte>)
    ensures var m := Effect(v, GetCall(key));
            if |key| != KEY_SIZE then m == Metrics(0, 0, 0, 1, 0)
            else m == if v.lookup(key).Some? then Metrics(1, 1, 0, 0, 1) else Metrics(1, 0, 1, 0, 1)
  {
    var n := GoodPrefix([key]);
    assert n == if |key| == KEY_SIZE then 1 else 0;
    var rs := Lookups(v, [key], n);
    assert FoundIn(rs, 0) == 0;
  }

  /** From one reading of the counters to the next, a batch has added this. */
  ghost predicate BatchCounted(before: Metrics, after: Metrics, v: Version, keys: seq<seq<Byte>>) {
    && after.hits == before.hits + |set k | 0 <= k < GoodPrefix(keys) && v.lookup(keys[k]).Some?|
    && after.misses == before.misses + |set k | 0 <= k < GoodPrefix(keys) && v.lookup(keys[k]).None?|
    && after.errors == before.errors + (if GoodPrefix(keys) < |keys| then 1 else 0)
    && after.requests == before.requests + (if GoodPrefix(keys) < |keys| then 0 else 1)
    && after.latency == before.latency + (if GoodPrefix(keys) < |keys| then 0 else 1)
  }

  lemma BatchCounters(before: Metrics, after: Metrics, v: Version, keys: seq<seq<Byte>>)
    requires after == before.Plus(Effect(v, BatchCall(keys)))
    ensures BatchCounted(before, after, v, keys)
  {
    EffectMeaning(v, BatchCall(keys));
  }

  lemma PlusAdd(a: Metrics, b: Metrics, tick: Tick)
    ensures a.Plus(b).Add(tick) == a.Plus(b.Add(tick))
  {
  }

  /** Responses up to the first bad key are all a finished batch has to show. */
  lemma BatchOutcome(v: Version, keys: seq<seq<Byte>>, results: seq<GetResponse>)
    requires Answered(v, keys, results) && |results| == GoodPrefix(keys)
    ensures |results| == |keys| ==>
              && Meaning(v, BatchCall(keys)) == Many(results)
              && Effect(v, BatchCall(keys)) == LookupCounts(results).Add(Latency).Add(Served)
    ensures |results| < |keys| ==>
              && Meaning(v, BatchCall(keys)) == InvalidArgument
              && Effect(v, BatchCall(keys)) == LookupCounts(results).Add(Error)
  {
    assert results == Lookups(v, keys, GoodPrefix(keys));
  }

  // ---------- the service object ----------

  class KvServiceImpl {
    var store: KvStore
    var metrics: Metrics

    ghost predicate Valid()
      reads this
    {
      store.InBounds()
    }

    constructor (initial: KvStore)
      requires initial.InBounds()
      ensures Valid() && store == initial && metrics == NO_METRICS
    {
      store := initial;
      metrics := NO_METRICS;
    }

    method Reload(newStore: KvStore)
      requires newStore.InBounds()
      modifies this`store
      ensures Valid() && store == newStore
    {
      store := newStore;
    }

    method Increment(tick: Tick)
      modifies this`metrics
      ensures metrics == old(metrics).Add(tick)
    {
      metrics := metrics.Add(tick);
    }

    method Get(key: seq<Byte>) returns (reply: Reply)
      requires Valid()
      modifies this`metrics
      ensures reply == Meaning(VersionOf(store), GetCall(key))
      ensures metrics == old(metrics).Plus(Effect(VersionOf(store), GetCall(key)))
      ensures |key| != 64 ==> reply == InvalidArgument
      ensures |key| == 64 ==> reply.One? && Tells(reply.result, store.Get(key))
      ensures metrics.hits == old(metrics.hits) + if |key| == 64 && store.Get(key).Some? then 1 else 0
      ensures metrics.misses == old(metrics.misses) + if |key| == 64 && store.Get(key).None? then 1 else 0
      ensures metrics.errors == old(metrics.errors) + if |key| == 64 then 0 else 1
      ensures metrics.requests == old(metrics.requests) + if |key| == 64 then 1 else 0
      ensures metrics.latency == old(metrics.latency) + if |key| == 64 then 1 else 0
    {
      ghost var v := VersionOf(store);
      assert GoodPrefix([key]) == if |key| == KEY_SIZE then 1 else 0;
      if |key| != KEY_SIZE {
        Increment(Error);
        return InvalidArgument;
      }
      var response := Respond(store.Get(key));
      Increment(Counted(response));
      Increment(Latency);
      Increment(Served);
      assert Lookups(v, [key], 1) == [response];
      reply := One(response);
    }

    method BatchGet(keys: seq<seq<Byte>>) returns (reply: Reply)
      requires Valid()
      modifies this`metrics
      ensures reply == Meaning(VersionOf(store), BatchCall(keys))
      ensures metrics == old(metrics).Plus(Effect(VersionOf(store), BatchCall(keys)))
      ensures BatchCounted(old(metrics), metrics, VersionOf(store), keys)
      ensures GoodPrefix(keys) < |keys| ==> reply == InvalidArgument
      ensures GoodPrefix(keys) == |keys| ==>
                && reply.Many? && |reply.results| == |keys|
                && forall k :: 0 <= k < |keys| ==> Tells(reply.results[k], store.Get(keys[k]))
    {
      ghost var v, before := VersionOf(store), metrics;
      var results: seq<GetResponse> := [];
      var i := 0;
      while i < |keys|
        invariant 0 <= i == |results| && Answered(v, keys, results)
        invariant metrics == before.Plus(LookupCounts(results))
      {
        if |keys[i]| != KEY_SIZE {
          PlusAdd(before, LookupCounts(results), Error);
          Increment(Error);
          BatchOutcome(v, keys, results);
          BatchCounters(before, metrics, v, keys);
          return InvalidArgument;
        }
        var result := Respond(store.Get(keys[i]));
        PlusAdd(before, LookupCounts(results), Counted(result));
        LookupCountsStep(results, result);
        Increment(Counted(result));
        results := results + [result];
        i := i + 1;
      }
      PlusAdd(before, LookupCounts(results), Latency);
      Increment(Latency);
      PlusAdd(before, LookupCounts(results).Add(Latency), Served);
      Increment(Served);
      BatchOutcome(v, keys, results);
      BatchCounters(before, metrics, v, keys);
      reply := Many(results);
    }

    method Health() returns (reply: Reply)
      requires Valid()
      ensures reply == Meaning(VersionOf(store), HealthCall)
      ensures reply.HealthIs?
      ensures reply.recordCount == store.info.recordCount && reply.buildTimestamp == store.info.buildTimestamp
    {
      reply := HealthIs(store.info.recordCount, store.info.buildTimestamp);
    }
  }
}
