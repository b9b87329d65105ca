/** The validator: sampled lookups, expected pairs, and the difference of two snapshots. */
module Validators {
  import opened Wrappers
  import opened Words
  import opened Seqs
  import opened Records
  import opened Mphfs
  import opened Headers
  import opened Stores
  import Hex

  // ---------- check ----------

  datatype ValidationResult = ValidationResult(recordCount: nat, sampleSize: nat, passed: nat, failed: nat, pass: bool)

  /** What sampling may choose: that many different positions, or all there are. */
  ghost predicate IsSample(count: nat, sampleSize: nat, picks: seq<int>) {
    && Distinct(picks)
    && (forall j :: 0 <= j < |picks| ==> 0 <= picks[j] < count)
    && |picks| == if sampleSize < count then sampleSize else count
  }

  /** The keys at the chosen positions. */
  function Sampled(keys: seq<Key>, picks: seq<int>): (sample: seq<Key>)
    requires forall j :: 0 <= j < |picks| ==> 0 <= picks[j] < |keys|
    ensures |sample| == |picks| && forall j :: 0 <= j < |picks| ==> sample[j] == keys[picks[j]]
  {
    seq(|picks|, j requires 0 <= j < |picks| => keys[picks[j]])
  }

  /** Which of the keys are found. */
  ghost function Found(st: KvStore, keys: seq<Key>): (flags: seq<bool>)
    requires st.InBounds()
    ensures |flags| == |keys| && forall i :: 0 <= i < |keys| ==> flags[i] == st.Contains(keys[i])
  {
    seq(|keys|, i requires 0 <= i < |keys| => st.Contains(keys[i]))
  }

  /** The number of sampled keys that are found. */
  ghost function Hits(st: KvStore, picks: seq<int>): nat
    requires st.InBounds() && forall j :: 0 <= j < |picks| ==> 0 <= picks[j] < st.recordCount
  {
    CountTrue(Found(st, Sampled(Keys(st.Iter()), picks)), |picks|)
  }

  /** The hits are the sampled positions whose stored key is looked up successfully. */
  lemma HitsMeaning(st: KvStore, picks: seq<int>)
    requires st.InBounds() && forall j :: 0 <= j < |picks| ==> 0 <= picks[j] < st.recordCount
    ensures Hits(st, picks) == |set j | 0 <= j < |picks| && st.Get(st.Iter()[picks[j]].key).Some?|
  {
    var found := Found(st, Sampled(Keys(st.Iter()), picks));
    CountTrueIsSize(found, |picks|);
    assert (set j | 0 <= j < |picks| && found[j])
        == (set j | 0 <= j < |picks| && st.Get(st.Iter()[picks[j]].key).Some?);
  }

  method CheckSnapshot(st: KvStore, sampleSize: nat, picks: seq<int>)
    returns (result: ValidationResult, r: Outcome<()>)
    requires st.InBounds() && IsSample(st.recordCount, sampleSize, picks)
    ensures var hits := Hits(st, picks);
            && result == ValidationResult(st.recordCount, |picks|, hits, |picks| - hits, hits == |picks|)
            && r == if hits == |picks| then Done(()) else Failed(LookupsFailed(|picks| - hits))
  {
    var sample := Sampled(Keys(st.Iter()), picks);
    var passed, failed := LookUpAll(st, sample, Found(st, sample));
    result := ValidationResult(st.recordCount, |sample|, passed, failed, failed == 0);
    r := if failed > 0 then Failed(LookupsFailed(failed)) else Done(());
  }

  /** The counting loop. */
  method LookUpAll(st: KvStore, sample: seq<Key>, ghost found: seq<bool>) returns (passed: nat, failed: nat)
    requires st.InBounds() && |found| == |sample|
    requires forall i :: 0 <= i < |sample| ==> found[i] == st.Contains(sample[i])
    ensures passed == CountTrue(found, |found|) && failed == |found| - passed
  {
    passed, failed := 0, 0;
    var i := 0;
    while i < |sample|
      invariant 0 <= i <= |sample| && passed == CountTrue(found, i) && failed == i - passed
    {
      if st.Get(sample[i]).Some? {
        passed := passed + 1;
      } else {
        failed := failed + 1;
      }
      i := i + 1;
    }
  }

  /** The key stored in a slot is found. */
  predicate Hit(st: KvStore, slot: nat)
    requires st.InBounds() && slot < st.recordCount
  {
    st.Contains(st.GetRecord(slot).key)
  }

  /** A sample at least as large as the store leaves no slot out, so passing means that every
      stored key is found; together with different stored keys it means that the index is right. */
  lemma FullSampleCertifies(st: KvStore, sampleSize: nat, picks: seq<int>)
    requires st.InBounds() && IsSample(st.recordCount, sampleSize, picks) && sampleSize >= st.recordCount
    ensures Hits(st, picks) == |picks| <==> forall slot :: 0 <= slot < st.recordCount ==> Hit(st, slot)
    ensures st.WellIndexed() <==> Hits(st, picks) == |picks| && Distinct(Keys(st.Iter()))
  {
    var sample := Sampled(Keys(st.Iter()), picks);
    CountTrueIsSize(Found(st, sample), |picks|);
    Pigeonhole(picks, st.recordCount);
    SampleCovers(st, picks, sample);
    HitsAreIndexed(st);
  }

  lemma SampleCovers(st: KvStore, picks: seq<int>, sample: seq<Key>)
    requires st.InBounds() && |sample| == |picks|
    requires forall j :: 0 <= j < |picks| ==> 0 <= picks[j] < st.recordCount && sample[j] == st.GetRecord(picks[j]).key
    requires forall slot :: 0 <= slot < st.recordCount ==> slot in picks
    ensures (forall j :: 0 <= j < |picks| ==> st.Contains(sample[j]))
            <==> forall slot :: 0 <= slot < st.recordCount ==> Hit(st, slot)
  {
    if forall j :: 0 <= j < |picks| ==> st.Contains(sample[j]) {
      forall slot | 0 <= slot < st.recordCount
        ensures Hit(st, slot)
      {
        var j := IndexOf(picks, slot);
        assert st.Contains(sample[j]);
      }
    }
    if forall slot :: 0 <= slot < st.recordCount ==> Hit(st, slot) {
      forall j | 0 <= j < |picks|
        ensures st.Contains(sample[j])
      {
        assert Hit(st, picks[j]);
      }
    }
  }

  /** Every stored key is found and stored keys differ, exactly when the index is right. */
  lemma HitsAreIndexed(st: KvStore)
    requires st.InBounds()
    ensures st.WellIndexed() <==>
              (forall slot :: 0 <= slot < st.recordCount ==> Hit(st, slot)) && Distinct(Keys(st.Iter()))
  {
    if st.WellIndexed() {
      WellIndexedKeysDistinct(st);
      forall slot | 0 <= slot < st.recordCount
        ensures Hit(st, slot)
      {
        assert st.mphf.Get(st.GetRecord(slot).key) == Some(slot);
      }
    }
    if Distinct(Keys(st.Iter())) && forall slot :: 0 <= slot < st.recordCount ==> Hit(st, slot) {
      forall slot | 0 <= slot < st.recordCount
        ensures st.mphf.Get(st.GetRecord(slot).key) == Some(slot)
      {
        assert Hit(st, slot);
        HitIsOwnSlot(st, slot);
      }
    }
  }

  /** An accepted file with an index for two keys and one record stored twice, under the first. */
  lemma OpenTwins(ph: Ph, keys: seq<Key>, value: Value) returns (file: File, st: KvStore)
    requires |keys| == 2 && ServesKeys(ph, keys) && ph.fromSlice(keys).image.Some?
    requires HEADER_SIZE + 8 + |ph.fromSlice(keys).image.value| + 2 * RECORD_SIZE <= ISIZE_MAX
    ensures Open(ph, file) == Done(st) && st.InBounds() && st.recordCount == 2
    ensures st.GetRecord(0) == st.GetRecord(1) == Record(keys[0], value)
    ensures st.mphf.keyCount == 2 && st.mphf.Get(keys[0]).Some?
  {
    var body := ph.fromSlice(keys).image.value;
    var d := HEADER_SIZE + 8 + |body|;
    var record := Record(keys[0], value);
    var data := record.AsBytes() + record.AsBytes();
    WrapMulExact(2, RECORD_SIZE);
    OpenCrafted(ph, 2, d, body, data);
    file := CraftedFile(2, d, body, data);
    st := Open(ph, file).value;
    assert file[d..] == data;
    BlockOfSuffix(file, d, 0);
    BlockOfSuffix(file, d, 1);
    assert Block(data, 0, 0) == record.AsBytes() == Block(data, 0, 1);
    RecordRoundTrip(record, record.AsBytes());
    assert ph.read(body).value.slotOf(keys[0]) == ph.fromSlice(keys).slotOf(keys[0]);
  }

  /** Distinctness is needed.  Whichever two keys a crate serves, there is an accepted file, with
      one record stored twice, that passes every sample in full although its index is not right. */
  lemma PassAloneDoesNotCertify(ph: Ph, keys: seq<Key>, value: Value) returns (file: File, st: KvStore)
    requires |keys| == 2 && ServesKeys(ph, keys) && ph.fromSlice(keys).image.Some?
    requires HEADER_SIZE + 8 + |ph.fromSlice(keys).image.value| + 2 * RECORD_SIZE <= ISIZE_MAX
    ensures Open(ph, file) == Done(st) && st.InBounds() && !st.WellIndexed()
    ensures forall sampleSize, picks :: IsSample(st.recordCount, sampleSize, picks) ==> Hits(st, picks) == |picks|
  {
    file, st := OpenTwins(ph, keys, value);
    TwinsNotIndexed(st);
    forall sampleSize, picks | IsSample(st.recordCount, sampleSize, picks)
      ensures Hits(st, picks) == |picks|
    {
      AllHitsPass(st, picks);
    }
  }

  lemma AllHitsPass(st: KvStore, picks: seq<int>)
    requires st.InBounds() && forall slot :: 0 <= slot < st.recordCount ==> Hit(st, slot)
    requires forall j :: 0 <= j < |picks| ==> 0 <= picks[j] < st.recordCount
    ensures Hits(st, picks) == |picks|
  {
    var sample := Sampled(Keys(st.Iter()), picks);
    CountTrueIsSize(Found(st, sample), |picks|);
    forall j | 0 <= j < |picks|
      ensures st.Contains(sample[j])
    {
      assert Hit(st, picks[j]);
    }
  }

  lemma TwinsNotIndexed(st: KvStore)
    requires st.InBounds() && st.recordCount == 2 && st.GetRecord(0) == st.GetRecord(1)
    requires st.mphf.Get(st.GetRecord(0).key).Some? && st.mphf.keyCount == 2
    ensures !st.WellIndexed()
    ensures forall slot :: 0 <= slot < st.recordCount ==> Hit(st, slot)
  {
    var slot := st.mphf.Get(st.GetRecord(0).key).value;
    assert st.GetRecord(slot) == st.GetRecord(1 - slot);
    assert st.mphf.Get(st.GetRecord(1 - slot).key) != Some(1 - slot);
  }

  // ---------- verify ----------

  datatype ExpectedPair = ExpectedPair(key: string, value: string)

  datatype Verdict = Matches | Differs | Skipped

  /** One expected pair: bad hex is an error, a key of another length is skipped, and an expected
      value longer than a stored one is a slice past its end. */
  function Judge(st: KvStore, pair: ExpectedPair): Outcome<Verdict>
    requires st.InBounds()
  {
    var key :- Hex.Decode(pair.key);
    var expected :- Hex.Decode(pair.value);
    if |key| != KEY_SIZE then Done(Skipped)
    else
      match st.Get(key)
      case None => Done(Differs)
      case Some(value) =>
        if |expected| > VALUE_SIZE then Panicked
        else if value[..|expected|] == expected then Done(Matches)
        else Done(Differs)
  }

  /** The outcome of every pair. */
  ghost function Verdicts(st: KvStore, pairs: seq<ExpectedPair>): (vs: seq<Outcome<Verdict>>)
    requires st.InBounds()
    ensures |vs| == |pairs| && forall i :: 0 <= i < |pairs| ==> vs[i] == Judge(st, pairs[i])
  {
    seq(|pairs|, i requires 0 <= i < |pairs| => Judge(st, pairs[i]))
  }

  /** Which pairs have a given verdict. */
  ghost function With(vs: seq<Outcome<Verdict>>, verdict: Verdict): (flags: seq<bool>)
    ensures |flags| == |vs| && forall i :: 0 <= i < |vs| ==> (flags[i] <==> vs[i] == Done(verdict))
  {
    seq(|vs|, i requires 0 <= i < |vs| => vs[i] == Done(verdict))
  }

  /** How many of the first `n` pairs have a given verdict. */
  ghost function JudgedCount(vs: seq<Outcome<Verdict>>, n: nat, verdict: Verdict): nat
    requires n <= |vs|
  {
    CountTrue(With(vs, verdict), n)
  }

  /** Every judged pair has exactly one verdict. */
  lemma {:induction false} VerdictsPartition(vs: seq<Outcome<Verdict>>, n: nat)
    requires n <= |vs| && forall j :: 0 <= j < n ==> vs[j].Done?
    ensures JudgedCount(vs, n, Matches) + JudgedCount(vs, n, Differs) + JudgedCount(vs, n, Skipped) == n
  {
    if n > 0 {
      VerdictsPartition(vs, n - 1);
      match vs[n - 1].value {
        case Matches =>
        case Differs =>
        case Skipped =>
      }
    }
  }

  /** The position of the first pair that cannot be judged, or the number of pairs. */
  function FirstBad(vs: seq<Outcome<Verdict>>): (n: nat)
    ensures n <= |vs| && forall j :: 0 <= j < n ==> vs[j].Done?
    ensures n < |vs| ==> vs[n].IsFailure()
  {
    if vs == [] || vs[0].IsFailure() then 0 else 1 + FirstBad(vs[1..])
  }

  /** Stops at the first pair that cannot be judged, with that pair's error; otherwise counts. */
  method VerifyExpected(st: KvStore, pairs: seq<ExpectedPair>) returns (r: Outcome<()>, passed: nat, failed: nat)
    requires st.InBounds()
    ensures var vs := Verdicts(st, pairs);
            && passed == JudgedCount(vs, FirstBad(vs), Matches)
            && failed == JudgedCount(vs, FirstBad(vs), Differs)
            && r == if FirstBad(vs) < |vs| then vs[FirstBad(vs)].PropagateFailure()
                    else if failed > 0 then Failed(LookupsFailed(failed)) else Done(())
  {
    ghost var vs := Verdicts(st, pairs);
    r, passed, failed := CountVerdicts(st, pairs, vs, With(vs, Matches), With(vs, Differs));
  }

  /** The counting loop. */
  method CountVerdicts(st: KvStore, pairs: seq<ExpectedPair>, ghost vs: seq<Outcome<Verdict>>,
                       ghost matches: seq<bool>, ghost differs: seq<bool>)
    returns (r: Outcome<()>, passed: nat, failed: nat)
    requires st.InBounds() && |vs| == |matches| == |differs| == |pairs|
    requires forall i :: 0 <= i < |pairs| ==> vs[i] == Judge(st, pairs[i])
    requires forall i :: 0 <= i < |pairs| ==> (matches[i] <==> vs[i] == Done(Matches))
    requires forall i :: 0 <= i < |pairs| ==> (differs[i] <==> vs[i] == Done(Differs))
    ensures passed == CountTrue(matches, FirstBad(vs)) && failed == CountTrue(differs, FirstBad(vs))
    ensures r == if FirstBad(vs) < |vs| then vs[FirstBad(vs)].PropagateFailure()
                 else if failed > 0 then Failed(LookupsFailed(failed)) else Done(())
  {
    passed, failed := 0, 0;
    var i := 0;
    while i < |pairs|
      invariant 0 <= i <= FirstBad(vs)
      invariant passed == CountTrue(matches, i) && failed == CountTrue(differs, i)
    {
      var verdict := Judge(st, pairs[i]);
      assert verdict == vs[i];
      if verdict.IsFailure() {
        r := verdict.PropagateFailure();
        return;
      }
      if verdict.value.Matches? {
        passed := passed + 1;
      } else if verdict.value.Differs? {
        failed := failed + 1;
      }
      i := i + 1;
    }
    r := if failed > 0 then Failed(LookupsFailed(failed)) else Done(());
  }

  // ---------- what verifying means ----------

  /** Both texts of the pair are accepted hex. */
  predicate Decodes(pair: ExpectedPair) {
    Hex.Decode(pair.key).Done? && Hex.Decode(pair.value).Done?
  }

  /** The pair is about a key of the right length. */
  predicate HasKey(pair: ExpectedPair)
    requires Decodes(pair)
  {
    |Hex.Decode(pair.key).value| == KEY_SIZE
  }

  /** The pair's key is in the map. */
  ghost predicate IsStored(st: KvStore, pair: ExpectedPair)
    requires st.InBounds() && Decodes(pair)
  {
    HasKey(pair) && Hex.Decode(pair.key).value in st.Content()
  }

  /** The map has the pair's key with a value that starts with the expected bytes. */
  ghost predicate Agrees(st: KvStore, pair: ExpectedPair)
    requires st.InBounds() && Decodes(pair)
  {
    IsStored(st, pair) && Hex.Decode(pair.value).value <= st.Content()[Hex.Decode(pair.key).value]
  }

  /** The pair gets a verdict: its texts are hex, and it does not expect more bytes of a stored
      value than there are. */
  ghost predicate Judgeable(st: KvStore, pair: ExpectedPair)
    requires st.InBounds()
  {
    Decodes(pair) && (IsStored(st, pair) ==> |Hex.Decode(pair.value).value| <= VALUE_SIZE)
  }

  /** The verdict is about the map: a pair matches exactly when its key is stored with a value that
      starts with the expected bytes, and keys of another length are skipped. */
  lemma JudgeMeaning(st: KvStore, pair: ExpectedPair)
    requires st.WellIndexed()
    ensures Judge(st, pair).Done? <==> Judgeable(st, pair)
    ensures Decodes(pair) && !Judgeable(st, pair) ==> Judge(st, pair).Panicked?
    ensures Hex.Decode(pair.key).Failed? ==> Judge(st, pair) == Failed(InvalidHex)
    ensures Hex.Decode(pair.key).Panicked? ==> Judge(st, pair).Panicked?
    ensures Hex.Decode(pair.key).Done? && Hex.Decode(pair.value).Failed? ==> Judge(st, pair) == Failed(InvalidHex)
    ensures Hex.Decode(pair.key).Done? && Hex.Decode(pair.value).Panicked? ==> Judge(st, pair).Panicked?
    ensures Judgeable(st, pair) ==>
              Judge(st, pair) ==
              Done(if !HasKey(pair) then Skipped else if Agrees(st, pair) then Matches else Differs)
  {
    Hex.DecodeOutcome(pair.key);
    Hex.DecodeOutcome(pair.value);
    if Decodes(pair) && HasKey(pair) {
      WellIndexedGet(st, Hex.Decode(pair.key).value);
    }
  }

  /** Encoded bytes are hex, so every pair of them is judged unless it expects too many bytes. */
  lemma EncodedDecodes(key: seq<Byte>, expected: seq<Byte>)
    ensures var pair := ExpectedPair(Hex.Encode(key), Hex.Encode(expected));
            Decodes(pair) && Hex.Decode(pair.key) == Done(key) && Hex.Decode(pair.value) == Done(expected)
  {
    Hex.DecodeEncode(key);
    Hex.DecodeEncode(expected);
  }

  lemma {:induction false} FirstBadReaches(vs: seq<Outcome<Verdict>>)
    ensures FirstBad(vs) == |vs| <==> forall i :: 0 <= i < |vs| ==> vs[i].Done?
  {
    if FirstBad(vs) < |vs| {
      assert !vs[FirstBad(vs)].Done?;
    }
  }

  lemma CountOf(vs: seq<Outcome<Verdict>>, verdict: Verdict, chosen: set<int>)
    requires forall i :: i in chosen <==> 0 <= i < |vs| && vs[i] == Done(verdict)
    ensures JudgedCount(vs, |vs|, verdict) == |chosen|
  {
    CountTrueIsSize(With(vs, verdict), |vs|);
    assert (set i | 0 <= i < |vs| && With(vs, verdict)[i]) == chosen;
  }

  lemma VerdictsMeaning(st: KvStore, pairs: seq<ExpectedPair>, vs: seq<Outcome<Verdict>>)
    requires st.WellIndexed() && |vs| == |pairs|
    requires forall i :: 0 <= i < |pairs| ==> vs[i] == Judge(st, pairs[i])
    ensures forall i :: 0 <= i < |pairs| ==> (vs[i].Done? <==> Judgeable(st, pairs[i]))
    ensures forall i :: 0 <= i < |pairs| && Judgeable(st, pairs[i]) ==>
              && (vs[i] == Done(Skipped) <==> !HasKey(pairs[i]))
              && (vs[i] == Done(Matches) <==> Agrees(st, pairs[i]))
              && (vs[i] == Done(Differs) <==> HasKey(pairs[i]) && !Agrees(st, pairs[i]))
  {
    forall i | 0 <= i < |pairs|
      ensures vs[i].Done? <==> Judgeable(st, pairs[i])
      ensures Judgeable(st, pairs[i]) ==>
                && (vs[i] == Done(Skipped) <==> !HasKey(pairs[i]))
                && (vs[i] == Done(Matches) <==> Agrees(st, pairs[i]))
                && (vs[i] == Done(Differs) <==> HasKey(pairs[i]) && !Agrees(st, pairs[i]))
    {
      JudgeMeaning(st, pairs[i]);
    }
  }

  /** Verifying gets through the list exactly when every pair can be judged, and then it counts as
      passed exactly the pairs whose key maps to a value with the expected prefix, as failed the
      other pairs with a 64-byte key; the rest are skipped. */
  lemma VerifyMeaning(st: KvStore, pairs: seq<ExpectedPair>)
    requires st.WellIndexed()
    ensures var vs := Verdicts(st, pairs);
            && (FirstBad(vs) == |pairs| <==> forall i :: 0 <= i < |pairs| ==> Judgeable(st, pairs[i]))
            && (FirstBad(vs) == |pairs| ==>
                && JudgedCount(vs, |pairs|, Matches) == |set i | 0 <= i < |pairs| && Agrees(st, pairs[i])|
                && JudgedCount(vs, |pairs|, Differs)
                   == |set i | 0 <= i < |pairs| && HasKey(pairs[i]) && !Agrees(st, pairs[i])|
                && JudgedCount(vs, |pairs|, Skipped) == |set i | 0 <= i < |pairs| && !HasKey(pairs[i])|
                && JudgedCount(vs, |pairs|, Matches) + JudgedCount(vs, |pairs|, Differs)
                   + JudgedCount(vs, |pairs|, Skipped) == |pairs|)
  {
    var vs := Verdicts(st, pairs);
    VerdictsMeaning(st, pairs, vs);
    FirstBadReaches(vs);
    if FirstBad(vs) == |pairs| {
      VerdictsPartition(vs, |pairs|);
      CountOf(vs, Matches, set i | 0 <= i < |pairs| && Agrees(st, pairs[i]));
      CountOf(vs, Differs, set i | 0 <= i < |pairs| && HasKey(pairs[i]) && !Agrees(st, pairs[i]));
      CountOf(vs, Skipped, set i | 0 <= i < |pairs| && !HasKey(pairs[i]));
    }
  }
}
