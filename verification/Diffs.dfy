/** The difference of two snapshots. */
module Diffs {
  import opened Wrappers
  import opened Words
  import opened Seqs
  import opened Records
  import opened Stores

  /** A printed line names a key by its first 16 bytes. */
  datatype DiffLine = ValueDiff(prefix: seq<Byte>) | InAOnly(prefix: seq<Byte>) | InBOnly(prefix: seq<Byte>)

  /** What a store answers for the keys of some records. */
  ghost function Answers(records: seq<Record>, st: KvStore): (found: seq<Option<Value>>)
    requires st.InBounds()
    ensures |found| == |records| && forall i :: 0 <= i < |records| ==> found[i] == st.Get(records[i].key)
  {
    seq(|records|, i requires 0 <= i < |records| => st.Get(records[i].key))
  }

  /** How many of the first `n` keys are not found. */
  function MissingCount(found: seq<Option<Value>>, n: nat): nat
    requires n <= |found|
  {
    if n == 0 then 0 else MissingCount(found, n - 1) + if found[n - 1].None? then 1 else 0
  }

  /** How many of the first `n` keys are found with another value. */
  function DifferingCount(records: seq<Record>, found: seq<Option<Value>>, n: nat): nat
    requires n <= |found| == |records|
  {
    if n == 0 then 0
    else DifferingCount(records, found, n - 1)
         + if found[n - 1].Some? && found[n - 1].value != records[n - 1].value then 1 else 0
  }

  /** The line for one record of the first snapshot, if there is one. */
  function LineA(record: Record, found: Option<Value>): seq<DiffLine> {
    match found
    case None => [InAOnly(record.key[..16])]
    case Some(value) => if record.value != value then [ValueDiff(record.key[..16])] else []
  }

  function LineB(record: Record, found: Option<Value>): seq<DiffLine> {
    if found.None? then [InBOnly(record.key[..16])] else []
  }

  /** The lines for the first `n` slots, in slot order. */
  ghost function LinesA(records: seq<Record>, found: seq<Option<Value>>, n: nat): seq<DiffLine>
    requires n <= |found| == |records|
  {
    if n == 0 then [] else LinesA(records, found, n - 1) + LineA(records[n - 1], found[n - 1])
  }

  ghost function LinesB(records: seq<Record>, found: seq<Option<Value>>, n: nat): seq<DiffLine>
    requires n <= |found| == |records|
  {
    if n == 0 then [] else LinesB(records, found, n - 1) + LineB(records[n - 1], found[n - 1])
  }

  function Take<T>(s: seq<T>, n: nat): seq<T> {
    if |s| <= n then s else s[..n]
  }

  /** Prints lines while the limit has not been reached. */
  function Print(shown: seq<DiffLine>, lines: seq<DiffLine>, maxDiffs: nat): seq<DiffLine> {
    if |shown| < maxDiffs then shown + lines else shown
  }

  lemma PrintTakes(s: seq<DiffLine>, t: seq<DiffLine>, n: nat)
    requires |t| <= 1
    ensures Print(Take(s, n), t, n) == Take(s + t, n)
  {
    if |t| == 0 {
      assert s + t == s;
    }
  }

  lemma PrintB(linesA: seq<DiffLine>, records: seq<Record>, found: seq<Option<Value>>, i: nat, n: nat)
    requires i < |found| == |records|
    ensures Take(linesA + LinesB(records, found, i + 1), n)
            == Print(Take(linesA + LinesB(records, found, i), n), LineB(records[i], found[i]), n)
  {
    PrintTakes(linesA + LinesB(records, found, i), LineB(records[i], found[i]), n);
    assert linesA + LinesB(records, found, i) + LineB(records[i], found[i])
        == linesA + LinesB(records, found, i + 1);
  }

  datatype DiffReport = DiffReport(inAOnly: nat, inBOnly: nat, valueDiffers: nat, shown: seq<DiffLine>) {
    function Total(): nat {
      inAOnly + inBOnly + valueDiffers
    }
  }

  /** What the comparison of records with the answers for their keys reports. */
  ghost function ReportOn(ra: seq<Record>, ab: seq<Option<Value>>, rb: seq<Record>, ba: seq<Option<Value>>,
                          maxDiffs: nat): DiffReport
    requires |ab| == |ra| && |ba| == |rb|
  {
    DiffReport(MissingCount(ab, |ab|), MissingCount(ba, |ba|), DifferingCount(ra, ab, |ab|),
               Take(LinesA(ra, ab, |ab|) + LinesB(rb, ba, |ba|), maxDiffs))
  }

  /** What the comparison reports, whatever the two indexes answer. */
  ghost function ReportOf(a: KvStore, b: KvStore, maxDiffs: nat): DiffReport
    requires a.InBounds() && b.InBounds()
  {
    ReportOn(a.Iter(), Answers(a.Iter(), b), b.Iter(), Answers(b.Iter(), a), maxDiffs)
  }

  method DiffSnapshots(a: KvStore, b: KvStore, maxDiffs: nat) returns (report: DiffReport)
    requires a.InBounds() && b.InBounds()
    ensures report == ReportOf(a, b, maxDiffs)
  {
    ghost var ab := Answers(a.Iter(), b);
    var inAOnly, valueDiffers, shown := CompareA(a.Iter(), b, maxDiffs);
    var inBOnly;
    inBOnly, shown := CompareB(b.Iter(), a, maxDiffs, shown, LinesA(a.Iter(), ab, |ab|));
    report := DiffReport(inAOnly, inBOnly, valueDiffers, shown);
  }

  /** The first loop: every record of the first snapshot, looked up in the second. */
  method CompareA(records: seq<Record>, b: KvStore, maxDiffs: nat)
    returns (inAOnly: nat, valueDiffers: nat, shown: seq<DiffLine>)
    requires b.InBounds()
    ensures inAOnly == MissingCount(Answers(records, b), |records|)
    ensures valueDiffers == DifferingCount(records, Answers(records, b), |records|)
    ensures shown == Take(LinesA(records, Answers(records, b), |records|), maxDiffs)
  {
    ghost var found := Answers(records, b);
    inAOnly, valueDiffers, shown := 0, 0, [];
    var i := 0;
    while i < |records|
      invariant 0 <= i <= |records|
      invariant inAOnly == MissingCount(found, i) && valueDiffers == DifferingCount(records, found, i)
      invariant shown == Take(LinesA(records, found, i), maxDiffs)
    {
      PrintTakes(LinesA(records, found, i), LineA(records[i], found[i]), maxDiffs);
      var record := records[i];
      var other := b.Get(record.key);
      if other.Some? && record.value != other.value {
        valueDiffers := valueDiffers + 1;
        shown := Print(shown, [ValueDiff(record.key[..16])], maxDiffs);
      } else if other.None? {
        inAOnly := inAOnly + 1;
        shown := Print(shown, [InAOnly(record.key[..16])], maxDiffs);
      }
      i := i + 1;
    }
  }

  /** The second loop: every record of the second snapshot, looked up in the first. */
  method CompareB(records: seq<Record>, a: KvStore, maxDiffs: nat, before: seq<DiffLine>, ghost linesA: seq<DiffLine>)
    returns (inBOnly: nat, shown: seq<DiffLine>)
    requires a.InBounds() && before == Take(linesA, maxDiffs)
    ensures inBOnly == MissingCount(Answers(records, a), |records|)
    ensures shown == Take(linesA + LinesB(records, Answers(records, a), |records|), maxDiffs)
  {
    ghost var found := Answers(records, a);
    inBOnly, shown := 0, before;
    assert linesA + [] == linesA;
    var i := 0;
    while i < |records|
      invariant 0 <= i <= |records|
      invariant inBOnly == MissingCount(found, i)
      invariant shown == Take(linesA + LinesB(records, found, i), maxDiffs)
    {
      PrintB(linesA, records, found, i, maxDiffs);
      var key := records[i].key;
      if a.Get(key).None? {
        inBOnly := inBOnly + 1;
        shown := Print(shown, [InBOnly(key[..16])], maxDiffs);
      }
      i := i + 1;
    }
  }

  // ---------- what the report means ----------

  lemma {:induction false} LineCountA(records: seq<Record>, found: seq<Option<Value>>, n: nat)
    requires n <= |found| == |records|
    ensures |LinesA(records, found, n)| == MissingCount(found, n) + DifferingCount(records, found, n)
  {
    if n > 0 {
      LineCountA(records, found, n - 1);
    }
  }

  lemma {:induction false} LineCountB(records: seq<Record>, found: seq<Option<Value>>, n: nat)
    requires n <= |found| == |records|
    ensures |LinesB(records, found, n)| == MissingCount(found, n)
  {
    if n > 0 {
      LineCountB(records, found, n - 1);
    }
  }

  /** Exactly as many lines are printed as there are differences, up to the limit. */
  lemma ShownCount(a: KvStore, b: KvStore, maxDiffs: nat)
    requires a.InBounds() && b.InBounds()
    ensures var report := ReportOf(a, b, maxDiffs);
            |report.shown| == if report.Total() < maxDiffs then report.Total() else maxDiffs
  {
    LineCountA(a.Iter(), Answers(a.Iter(), b), a.recordCount);
    LineCountB(b.Iter(), Answers(b.Iter(), a), b.recordCount);
  }

  lemma {:induction false} LineAtA(records: seq<Record>, found: seq<Option<Value>>, n: nat, i: nat, line: DiffLine)
    requires i < n <= |found| == |records| && LineA(records[i], found[i]) == [line]
    ensures var at := MissingCount(found, i) + DifferingCount(records, found, i);
            at < |LinesA(records, found, n)| && LinesA(records, found, n)[at] == line
  {
    var front := LinesA(records, found, n - 1);
    LineCountA(records, found, n - 1);
    if i < n - 1 {
      LineAtA(records, found, n - 1, i, line);
      assert front <= LinesA(records, found, n);
    }
  }

  lemma {:induction false} LineAtB(records: seq<Record>, found: seq<Option<Value>>, n: nat, i: nat)
    requires i < n <= |found| == |records| && found[i].None?
    ensures var at := MissingCount(found, i);
            at < |LinesB(records, found, n)| && LinesB(records, found, n)[at] == InBOnly(records[i].key[..16])
  {
    LineCountB(records, found, n - 1);
    if i < n - 1 {
      LineAtB(records, found, n - 1, i);
    }
  }

  /** Which line is printed where.  `ra` and `rb` are the records of the two snapshots, `ab` and `ba`
      what the other snapshot answers for their keys.  The line of a record of the first snapshot
      stands behind one line for each difference in an earlier slot, as far as the limit allows: it
      says that the key is missing in the other one, or that its value differs. */
  lemma ShownFromA(ra: seq<Record>, ab: seq<Option<Value>>, rb: seq<Record>, ba: seq<Option<Value>>,
                   maxDiffs: nat, i: nat, line: DiffLine)
    requires i < |ab| == |ra| && |ba| == |rb|
    requires
      || (ab[i].None? && line == InAOnly(ra[i].key[..16]))
      || (ab[i].Some? && ab[i].value != ra[i].value && line == ValueDiff(ra[i].key[..16]))
    ensures var shown, at := ReportOn(ra, ab, rb, ba, maxDiffs).shown, |Missing(ab, i)| + |Differing(ra, ab, i)|;
            at < maxDiffs ==> at < |shown| && shown[at] == line
  {
    MissingCountIsSize(ab, i);
    DifferingCountIsSize(ra, ab, i);
    LineAtA(ra, ab, |ab|, i, line);
  }

  /** The line of a key that only the second snapshot has stands behind all lines of the first one
      and one line for each such key in an earlier slot. */
  lemma ShownFromB(ra: seq<Record>, ab: seq<Option<Value>>, rb: seq<Record>, ba: seq<Option<Value>>,
                   maxDiffs: nat, i: nat)
    requires |ab| == |ra| && i < |ba| == |rb| && ba[i].None?
    ensures var report := ReportOn(ra, ab, rb, ba, maxDiffs);
            var at := report.inAOnly + report.valueDiffers + |Missing(ba, i)|;
            at < maxDiffs ==> at < |report.shown| && report.shown[at] == InBOnly(rb[i].key[..16])
  {
    MissingCountIsSize(ba, i);
    LineCountA(ra, ab, |ab|);
    LineAtB(rb, ba, |ba|, i);
  }

  ghost function Missing(found: seq<Option<Value>>, n: nat): set<int>
    requires n <= |found|
  {
    set i | 0 <= i < n && found[i].None?
  }

  ghost function Differing(records: seq<Record>, found: seq<Option<Value>>, n: nat): set<int>
    requires n <= |found| == |records|
  {
    set i | 0 <= i < n && found[i].Some? && found[i].value != records[i].value
  }

  /** The loop counters are set sizes. */
  lemma {:induction false} MissingCountIsSize(found: seq<Option<Value>>, n: nat)
    requires n <= |found|
    ensures MissingCount(found, n) == |Missing(found, n)|
  {
    if n > 0 {
      var i := n - 1;
      MissingCountIsSize(found, i);
      assert Missing(found, n) == Missing(found, i) + if found[i].None? then {i} else {};
    }
  }

  lemma {:induction false} DifferingCountIsSize(records: seq<Record>, found: seq<Option<Value>>, n: nat)
    requires n <= |found| == |records|
    ensures DifferingCount(records, found, n) == |Differing(records, found, n)|
  {
    if n > 0 {
      var i := n - 1;
      DifferingCountIsSize(records, found, i);
      assert Differing(records, found, n) == Differing(records, found, i)
             + if found[i].Some? && found[i].value != records[i].value then {i} else {};
    }
  }

  ghost function KeysAt(records: seq<Record>, slots: set<int>): set<Key>
    requires forall i :: i in slots ==> 0 <= i < |records|
  {
    set i | i in slots :: records[i].key
  }

  /** Where keys are pairwise different, different slots hold different keys. */
  lemma {:induction false} KeysAtSize(records: seq<Record>, slots: set<int>)
    requires Distinct(Keys(records)) && forall i :: i in slots ==> 0 <= i < |records|
    ensures |KeysAt(records, slots)| == |slots|
    decreases |slots|
  {
    if |slots| == 0 {
      assert slots == {};
    } else {
      var i := SomeElement(slots);
      var rest := slots - {i};
      KeysAtSize(records, rest);
      assert KeysAt(records, slots) == KeysAt(records, rest) + {records[i].key};
      forall j | j in rest
        ensures records[j].key != records[i].key
      {
        assert Keys(records)[j] != Keys(records)[i];
      }
    }
  }

  /** The map of a well-indexed store, slot by slot. */
  lemma ContentAt(st: KvStore, i: nat)
    requires st.WellIndexed() && i < st.recordCount
    ensures var r := st.Iter()[i]; r.key in st.Content() && st.Content()[r.key] == r.value
  {
    WellIndexedKeysDistinct(st);
    ScanFinds(st.Iter(), i);
    assert Keys(st.Iter())[i] == st.Iter()[i].key;
  }

  ghost function ChangedKeys(a: map<Key, Value>, b: map<Key, Value>): set<Key> {
    set key | key in a && key in b && a[key] != b[key]
  }

  /** `m` is the map of the records, whose keys are pairwise different. */
  ghost predicate MapOf(records: seq<Record>, m: map<Key, Value>) {
    && Distinct(Keys(records))
    && m.Keys == Elements(Keys(records))
    && forall i :: 0 <= i < |records| ==> records[i].key in m && m[records[i].key] == records[i].value
  }

  /** `found` are the answers of the map `m` for the keys of the records. */
  ghost predicate AnswersOf(records: seq<Record>, m: map<Key, Value>, found: seq<Option<Value>>) {
    && |found| == |records|
    && forall i :: 0 <= i < |records| ==>
         found[i] == if records[i].key in m then Some(m[records[i].key]) else None
  }

  lemma StoreMap(a: KvStore)
    requires a.WellIndexed()
    ensures MapOf(a.Iter(), a.Content())
  {
    WellIndexedKeysDistinct(a);
    forall i | 0 <= i < a.recordCount
      ensures a.Iter()[i].key in a.Content() && a.Content()[a.Iter()[i].key] == a.Iter()[i].value
    {
      ContentAt(a, i);
    }
  }

  lemma StoreAnswers(records: seq<Record>, b: KvStore)
    requires b.WellIndexed()
    ensures AnswersOf(records, b.Content(), Answers(records, b))
  {
    forall i | 0 <= i < |records|
      ensures b.Get(records[i].key)
              == if records[i].key in b.Content() then Some(b.Content()[records[i].key]) else None
    {
      WellIndexedGet(b, records[i].key);
    }
  }

  lemma MapSize(records: seq<Record>, m: map<Key, Value>)
    requires MapOf(records, m)
    ensures |m| == |m.Keys| == |records|
  {
    DistinctCardinality(Keys(records));
  }

  /** The keys at a set of slots are the keys with a property, when the slots are. */
  lemma SlotsToKeys(records: seq<Record>, slots: set<int>, keys: set<Key>)
    requires Distinct(Keys(records)) && keys <= Elements(Keys(records))
    requires forall i :: i in slots ==> 0 <= i < |records|
    requires forall i :: 0 <= i < |records| ==> (i in slots <==> records[i].key in keys)
    ensures |slots| == |keys|
  {
    forall key | key in keys
      ensures key in KeysAt(records, slots)
    {
      var i := IndexOf(Keys(records), key);
      assert i in slots;
    }
    assert KeysAt(records, slots) == keys;
    KeysAtSize(records, slots);
  }

  lemma MissingAreKeys(records: seq<Record>, a: map<Key, Value>, b: map<Key, Value>, found: seq<Option<Value>>)
    requires MapOf(records, a) && AnswersOf(records, b, found)
    ensures MissingCount(found, |found|) == |a.Keys - b.Keys|
  {
    MissingCountIsSize(found, |found|);
    SlotsToKeys(records, Missing(found, |found|), a.Keys - b.Keys);
  }

  lemma DifferingAreKeys(records: seq<Record>, a: map<Key, Value>, b: map<Key, Value>, found: seq<Option<Value>>)
    requires MapOf(records, a) && AnswersOf(records, b, found)
    ensures DifferingCount(records, found, |found|) == |ChangedKeys(a, b)|
  {
    DifferingCountIsSize(records, found, |found|);
    SlotsToKeys(records, Differing(records, found, |found|), ChangedKeys(a, b));
  }

  /** Two finite maps with nothing missing on either side and nothing changed are equal. */
  lemma NoDifferences(a: map<Key, Value>, b: map<Key, Value>)
    ensures |a.Keys - b.Keys| + |b.Keys - a.Keys| + |ChangedKeys(a, b)| == 0 <==> a == b
  {
    if |a.Keys - b.Keys| + |b.Keys - a.Keys| + |ChangedKeys(a, b)| == 0 {
      assert a.Keys - b.Keys == {} && b.Keys - a.Keys == {} && ChangedKeys(a, b) == {};
      forall key | key in a.Keys
        ensures key in b && a[key] == b[key]
      {
        assert key !in a.Keys - b.Keys && key !in ChangedKeys(a, b);
      }
      forall key | key in b.Keys
        ensures key in a
      {
        assert key !in b.Keys - a.Keys;
      }
    }
  }

  lemma SplitKeys(a: set<Key>, b: set<Key>)
    ensures |a| - |a - b| == |a * b|
  {
    assert a == (a - b) + a * b;
  }

  /** For well-indexed stores the report counts the differences of two finite maps. */
  lemma DiffIsMapDifference(a: KvStore, b: KvStore, maxDiffs: nat)
    requires a.WellIndexed() && b.WellIndexed()
    ensures var report, ma, mb := ReportOf(a, b, maxDiffs), a.Content(), b.Content();
            && report.inAOnly == |ma.Keys - mb.Keys|
            && report.inBOnly == |mb.Keys - ma.Keys|
            && report.valueDiffers == |ChangedKeys(ma, mb)|
            && (report.Total() == 0 <==> ma == mb)
            && a.recordCount - report.inAOnly == b.recordCount - report.inBOnly == |ma.Keys * mb.Keys|
  {
    var ma, mb := a.Content(), b.Content();
    StoreMap(a);
    StoreMap(b);
    StoreAnswers(a.Iter(), b);
    StoreAnswers(b.Iter(), a);
    MissingAreKeys(a.Iter(), ma, mb, Answers(a.Iter(), b));
    MissingAreKeys(b.Iter(), mb, ma, Answers(b.Iter(), a));
    DifferingAreKeys(a.Iter(), ma, mb, Answers(a.Iter(), b));
    NoDifferences(ma, mb);
    MapSize(a.Iter(), ma);
    MapSize(b.Iter(), mb);
    SplitKeys(ma.Keys, mb.Keys);
    SplitKeys(mb.Keys, ma.Keys);
    assert ma.Keys * mb.Keys == mb.Keys * ma.Keys;
  }

  /** Swapping the arguments mirrors the counts. */
  lemma DiffMirrors(a: KvStore, b: KvStore, maxDiffs: nat)
    requires a.WellIndexed() && b.WellIndexed()
    ensures var ab, ba := ReportOf(a, b, maxDiffs), ReportOf(b, a, maxDiffs);
            && ab.inAOnly == ba.inBOnly && ab.inBOnly == ba.inAOnly && ab.valueDiffers == ba.valueDiffers
            && |ab.shown| == |ba.shown|
  {
    DiffIsMapDifference(a, b, maxDiffs);
    DiffIsMapDifference(b, a, maxDiffs);
    assert ChangedKeys(a.Content(), b.Content()) == ChangedKeys(b.Content(), a.Content());
    ShownCount(a, b, maxDiffs);
    ShownCount(b, a, maxDiffs);
  }
}
