/** The whole life of a snapshot: built from pairs, opened, published, served under reloads. */
module Lifecycle {
  import opened Wrappers
  import opened Words
  import opened Seqs
  import opened Records
  import opened Mphfs
  import opened Headers
  import opened Stores
  import opened Snapshots
  import opened Servers
  import opened Interleavings
  import opened Runs

  /** The version answers exactly the pairs. */
  ghost predicate Publishes(v: Version, pairs: seq<Record>) {
    forall key: Key, value: Value :: v.lookup(key) == Some(value) <==> Record(key, value) in pairs
  }

  /** A built and opened snapshot, once published, answers exactly the pairs it was built from. */
  lemma PublishBuilt(ph: Ph, file: File, pairs: seq<Record>, timestamp: U64, sha: Sha256) returns (v: Version)
    requires ServesKeys(ph, Keys(pairs)) && |pairs| <= MAX_RECORDS
    requires IsBuilt(file, ph, pairs, timestamp, sha)
    ensures Open(ph, file).Done? && Open(ph, file).value.InBounds()
    ensures v == VersionOf(Open(ph, file).value) && Publishes(v, pairs)
    ensures v.info.recordCount == |pairs| && v.info.buildTimestamp == timestamp
  {
    BuildThenOpen(ph, file, pairs, timestamp, sha);
    OpenSnapshot(ph, file, Mphf(ph.fromSlice(Keys(pairs)), |pairs|), pairs, timestamp, sha);
    v := VersionOf(Open(ph, file).value);
  }

  /** A response is right for a key in a list of pairs. */
  ghost predicate AnswersFrom(r: GetResponse, pairs: seq<Record>, key: Key) {
    && (r.found ==> |r.value| == VALUE_SIZE && Record(key, r.value) in pairs)
    && (!r.found ==> r.value == [] && key !in Keys(pairs))
  }

  lemma RespondFromPairs(v: Version, pairs: seq<Record>, key: Key)
    requires Publishes(v, pairs)
    ensures AnswersFrom(Respond(v.lookup(key)), pairs, key)
  {
    if key in Keys(pairs) {
      var j := IndexOf(Keys(pairs), key);
      assert v.lookup(key) == Some(pairs[j].value);
    }
  }

  /** In every interleaving over published lists of pairs, every batch that was answered got all
      its responses, in request order, from one single list: the one that was published at an
      instant between its start and its end. */
  lemma BatchIsServedFromOneSnapshot(trace: seq<State>, acts: seq<Action>, books: seq<seq<Record>>,
                                     i: nat, b: nat, e: nat)
    returns (t: nat)
    requires IsRun(trace, acts) && b <= e < |trace|
    requires |books| == |trace[e].heap| && forall v :: 0 <= v < |books| ==> Publishes(trace[e].heap[v], books[v])
    requires i < |trace[b].requests| && trace[b].requests[i].pc.Called?
    requires i < |trace[e].requests| && trace[e].requests[i].pc.Returned? && trace[e].requests[i].call.BatchCall?
    ensures b <= t < e && trace[t].current < |books|
    ensures var r := trace[e].requests[i];
            && Consistent(trace[e].heap, r) && ReplyOf(trace[e].heap, r) == Many(r.pc.served)
            && |r.pc.served| == |r.call.keys|
            && forall j :: 0 <= j < |r.call.keys| ==>
                 && |r.call.keys[j]| == KEY_SIZE
                 && AnswersFrom(r.pc.served[j], books[trace[t].current], r.call.keys[j])
  {
    t := LoadInstant(trace, acts, i, b, e);
    RunIsValid(trace, acts, e);
    var r := trace[e].requests[i];
    assert Consistent(trace[e].heap, r);
    forall j | 0 <= j < |r.call.keys|
      ensures |r.call.keys[j]| == KEY_SIZE && AnswersFrom(r.pc.served[j], books[trace[t].current], r.call.keys[j])
    {
      RespondFromPairs(trace[e].heap[r.pc.version], books[r.pc.version], r.call.keys[j]);
    }
  }

  /** A response that tells what a version has is right for the pairs it publishes. */
  lemma TellsFromPairs(r: GetResponse, v: Version, pairs: seq<Record>, key: Key)
    requires Publishes(v, pairs) && Tells(r, v.lookup(key))
    ensures AnswersFrom(r, pairs, key)
  {
    RespondFromPairs(v, pairs, key);
  }

  /** Every finished get was rejected for the length of its key, or told what is stored under its key
      in the list that was published at an instant between its start and its end. */
  lemma GetIsServedFromOneSnapshot(trace: seq<State>, acts: seq<Action>, books: seq<seq<Record>>,
                                   i: nat, b: nat, e: nat)
    returns (t: nat)
    requires IsRun(trace, acts) && b <= e < |trace|
    requires |books| == |trace[e].heap| && forall v :: 0 <= v < |books| ==> Publishes(trace[e].heap[v], books[v])
    requires i < |trace[b].requests| && trace[b].requests[i].pc.Called?
    requires i < |trace[e].requests| && trace[e].requests[i].pc.Finished() && trace[e].requests[i].call.GetCall?
    ensures b <= t < e && trace[t].current < |books|
    ensures var r := trace[e].requests[i];
            && Consistent(trace[e].heap, r)
            && var reply := ReplyOf(trace[e].heap, r);
               if |r.call.key| != 64 then reply == InvalidArgument
               else reply.One? && AnswersFrom(reply.result, books[trace[t].current], r.call.key)
  {
    t := Linearizable(trace, acts, i, b, e);
    RunIsLater(trace, acts, t, e);
    var r := trace[e].requests[i];
    var v := Current(trace[t]);
    assert v == trace[e].heap[trace[t].current];
    ReplyMeaning(v, r.call);
    if |r.call.key| == 64 {
      TellsFromPairs(ReplyOf(trace[e].heap, r).result, v, books[trace[t].current], r.call.key);
    }
  }

  /** Every finished health call reported the number of pairs and the timestamp of the snapshot that
      was published at an instant between its start and its end. */
  lemma HealthIsOfOneSnapshot(trace: seq<State>, acts: seq<Action>, books: seq<seq<Record>>, times: seq<nat>,
                              i: nat, b: nat, e: nat)
    returns (t: nat)
    requires IsRun(trace, acts) && b <= e < |trace| && |times| == |books| == |trace[e].heap|
    requires forall v :: 0 <= v < |books| ==>
               var info := trace[e].heap[v].info; info.recordCount == |books[v]| && info.buildTimestamp == times[v]
    requires i < |trace[b].requests| && trace[b].requests[i].pc.Called?
    requires i < |trace[e].requests| && trace[e].requests[i].pc.Finished() && trace[e].requests[i].call.HealthCall?
    ensures b <= t < e && trace[t].current < |books|
    ensures var r := trace[e].requests[i];
            && Consistent(trace[e].heap, r)
            && var reply := ReplyOf(trace[e].heap, r);
               && reply.HealthIs?
               && reply.recordCount == |books[trace[t].current]| && reply.buildTimestamp == times[trace[t].current]
  {
    t := Linearizable(trace, acts, i, b, e);
    RunIsLater(trace, acts, t, e);
    assert Current(trace[t]) == trace[e].heap[trace[t].current];
    ReplyMeaning(Current(trace[t]), trace[e].requests[i].call);
  }
}
