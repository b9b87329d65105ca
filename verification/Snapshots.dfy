/** From pairs to bytes to lookups: what a built snapshot file is worth once opened. */
module Snapshots {
  import opened Wrappers
  import opened Words
  import opened Seqs
  import opened Records
  import opened Mphfs
  import opened Headers
  import opened Stores
  import opened Builders

  /** `file` is what building `pairs` with the crate `ph` writes. */
  ghost predicate IsBuilt(file: seq<Byte>, ph: Ph, pairs: seq<Record>, timestamp: U64, sha: Sha256) {
    && 0 < |pairs| < TWO64
    && IsSnapshot(file, Mphf(ph.fromSlice(Keys(pairs)), |pairs|), pairs, timestamp, sha)
  }

  // ---------- the slots of a built file ----------

  /** Pairs sent to different slots do not overwrite each other. */
  lemma {:induction false} SlotKeepsItsPair(m: Mphf, pairs: seq<Record>, n: nat, j: nat)
    requires m.keyCount == |pairs| && PerfectOn(m.hash, Keys(pairs))
    requires j < n <= |pairs|
    ensures m.Get(pairs[j].key).Some?
    ensures SlotContents(m, pairs, n, m.Get(pairs[j].key).value) == pairs[j].AsBytes()
  {
    var keys := Keys(pairs);
    assert m.hash.slotOf(keys[j]).Some? && m.hash.slotOf(keys[n - 1]).Some?;
    if j < n - 1 {
      assert m.hash.slotOf(keys[j]) != m.hash.slotOf(keys[n - 1]);
      SlotKeepsItsPair(m, pairs, n - 1, j);
    }
  }

  /** The pairs sit in the slots of their keys, and no slot is left over. */
  lemma BuiltPlacement(m: Mphf, pairs: seq<Record>) returns (place: seq<int>)
    requires m.keyCount == |pairs| && PerfectOn(m.hash, Keys(pairs))
    ensures |place| == |pairs| && Distinct(place)
    ensures forall s :: 0 <= s < |pairs| ==> s in place
    ensures forall j :: 0 <= j < |pairs| ==>
              && 0 <= place[j] < |pairs| && m.Get(pairs[j].key) == Some(place[j])
              && SlotContents(m, pairs, |pairs|, place[j]) == pairs[j].AsBytes()
  {
    place := PerfectSlots(m, Keys(pairs));
    forall j | 0 <= j < |pairs|
      ensures m.Get(pairs[j].key) == Some(place[j])
      ensures SlotContents(m, pairs, |pairs|, place[j]) == pairs[j].AsBytes()
    {
      assert m.Get(Keys(pairs)[j]) == Some(place[j]);
      SlotKeepsItsPair(m, pairs, |pairs|, j);
    }
  }

  /** No key the crate serves is without a slot, so the builder's `expect` is never reached. */
  lemma BuildNeverPanics(ph: Ph, pairs: seq<Record>)
    requires 0 < |pairs| < TWO64 && ServesKeys(ph, Keys(pairs))
    ensures AllHaveSlots(Mphf(ph.fromSlice(Keys(pairs)), |pairs|), pairs)
  {
    var place := BuiltPlacement(Mphf(ph.fromSlice(Keys(pairs)), |pairs|), pairs);
  }

  /** No panic; an error exactly when there is nothing to build, the index cannot be written, or the
      file does not fit; and a file otherwise. */
  ghost predicate BuildsWhenWritable(r: Outcome<array<Byte>>, ph: Ph, pairs: seq<Record>)
    requires |pairs| < TWO64
  {
    var image := ph.fromSlice(Keys(pairs)).image;
    && (r == Failed(InvalidMphf) <==> pairs == [])
    && (r == Failed(Serialization) <==> pairs != [] && image.None?)
    && (r == Failed(Io) <==> pairs != [] && image.Some? && !Fits(|pairs|, 8 + |image.value|))
    && (r.Done? <==> pairs != [] && image.Some? && Fits(|pairs|, 8 + |image.value|))
    && !r.Panicked?
  }

  /** This is how building different keys with a crate that meets its contract ends. */
  lemma BuildUnderContract(r: Outcome<array<Byte>>, ph: Ph, pairs: seq<Record>)
    requires |pairs| < TWO64 && BuildEnds(r, ph, pairs)
    ensures Contract(ph) && Distinct(Keys(pairs)) ==> BuildsWhenWritable(r, ph, pairs)
  {
    if Contract(ph) && Distinct(Keys(pairs)) && pairs != [] {
      ContractServes(ph, pairs);
      BuildNeverPanics(ph, pairs);
    }
  }

  // ---------- opening ----------

  /** The parts of a snapshot file that opening reads. */
  lemma SnapshotParts(file: seq<Byte>, m: Mphf, pairs: seq<Record>, timestamp: U64, sha: Sha256)
    requires |pairs| < TWO64 && IsSnapshot(file, m, pairs, timestamp, sha)
    ensures var framed := m.Framed().value;
            var d := New(|pairs|, |framed|, timestamp).dataOffset;
            && HEADER_SIZE + |framed| <= d <= |file| <= ISIZE_MAX
            && file == FinalHeader(pairs, framed, timestamp, sha(file[d..])).Encode() + file[HEADER_SIZE..]
            && file[HEADER_SIZE..HEADER_SIZE + |framed|] == framed
  {
    var framed := m.Framed().value;
    var d := New(|pairs|, |framed|, timestamp).dataOffset;
    DataOffsetBounds(|pairs|, |framed|, timestamp);
    assert file == file[..HEADER_SIZE] + file[HEADER_SIZE..];
    assert file[HEADER_SIZE..HEADER_SIZE + |framed|] == file[HEADER_SIZE..d][..|framed|];
  }

  /** Opening accepts a snapshot exactly when it has no more records than the format allows;
      then the store answers slots as the index that built it did. */
  lemma OpenSnapshot(ph: Ph, file: seq<Byte>, m: Mphf, pairs: seq<Record>, timestamp: U64, sha: Sha256)
    requires |pairs| < TWO64 && m.keyCount == |pairs| && ReadsBack(ph, m.hash)
    requires IsSnapshot(file, m, pairs, timestamp, sha)
    ensures |file| <= ISIZE_MAX
    ensures |pairs| > MAX_RECORDS ==> Open(ph, file) == Failed(TooManyRecords(|pairs|, MAX_RECORDS))
    ensures |pairs| <= MAX_RECORDS ==>
              && Open(ph, file).Done?
              && var st := Open(ph, file).value;
                 && st.file == file && st.recordCount == |pairs|
                 && st.dataOffset == New(|pairs|, |m.Framed().value|, timestamp).dataOffset
                 && st.info == VersionInfo(timestamp, |pairs|, |file|)
                 && st.InBounds()
                 && forall k: Key :: st.mphf.Get(k) == m.Get(k)
  {
    var framed := m.Framed().value;
    var d := New(|pairs|, |framed|, timestamp).dataOffset;
    SnapshotParts(file, m, pairs, timestamp, sha);
    var header := FinalHeader(pairs, framed, timestamp, sha(file[d..]));
    DecodeEncode(header, file[HEADER_SIZE..]);
    if |pairs| <= MAX_RECORDS {
      assert Decode(file) == Done(header);
      DeserializeFramed(ph, m);
      SizeIsExact(|pairs|, d);
    }
  }

  /** A finished file in bytes, up to its records: every field at its offset, the reserved bytes zero,
      the framed index, and zeros up to the data section. */
  lemma SnapshotBytes(file: seq<Byte>, m: Mphf, pairs: seq<Record>, timestamp: U64, sha: Sha256)
    requires |pairs| < TWO64 && m.keyCount == |pairs| && IsSnapshot(file, m, pairs, timestamp, sha)
    ensures m.hash.image.Some?
    ensures var body := m.hash.image.value;
            var d := |file| - |pairs| * RECORD_SIZE;
            && d % 4096 == 0 && 4096 + 8 + |body| <= d < 4096 + 8 + |body| + 4096
            && file[0..8] == LeBytes(MAGIC_NUMBER) && file[8..16] == LeBytes(1)
            && file[16..24] == LeBytes(|pairs|) && file[24..32] == LeBytes(8 + |body|)
            && file[32..40] == LeBytes(d) && file[40..48] == LeBytes(timestamp)
            && file[48..64] == Zeros(16) && file[64..96] == sha(file[d..]) && file[96..4096] == Zeros(4000)
            && file[4096..4104] == LeBytes(|pairs|) && file[4104..4104 + |body|] == body
            && file[4104 + |body|..d] == Zeros(d - 4104 - |body|)
  {
    var body := m.hash.image.value;
    var framed := m.Framed().value;
    var d := New(|pairs|, |framed|, timestamp).dataOffset;
    DataOffsetBounds(|pairs|, |framed|, timestamp);
    HeaderBytes(file, FinalHeader(pairs, framed, timestamp, sha(file[d..])));
    IndexBytes(file, LeBytes(|pairs|), body, d);
  }

  /** The data section in bytes: at the slot of a pair's key are the key and then the value. */
  lemma PairBytes(file: seq<Byte>, m: Mphf, pairs: seq<Record>, timestamp: U64, sha: Sha256, j: nat)
    requires |pairs| < TWO64 && m.keyCount == |pairs| && IsSnapshot(file, m, pairs, timestamp, sha)
    requires PerfectOn(m.hash, Keys(pairs)) && j < |pairs|
    ensures m.hash.slotOf(pairs[j].key).Some? && m.hash.slotOf(pairs[j].key).value < |pairs|
    ensures var at := |file| - |pairs| * RECORD_SIZE + m.hash.slotOf(pairs[j].key).value * RECORD_SIZE;
            0 <= at && at + RECORD_SIZE <= |file|
            && file[at..at + KEY_SIZE] == pairs[j].key && file[at + KEY_SIZE..at + RECORD_SIZE] == pairs[j].value
  {
    SlotKeepsItsPair(m, pairs, |pairs|, j);
    var slot := m.Get(pairs[j].key).value;
    BlockBytes(file, |file| - |pairs| * RECORD_SIZE, slot);
    RecordRoundTrip(pairs[j], pairs[j].AsBytes());
  }

  lemma SliceOfSlice(b: seq<Byte>, i: nat, j: nat, p: nat, q: nat)
    requires i <= j <= |b| && p <= q <= j - i
    ensures b[i..j][p..q] == b[i + p..i + q]
  {
    forall k | 0 <= k < q - p
      ensures b[i..j][p..q][k] == b[i + p..i + q][k]
    {
      assert b[i..j][p + k] == b[i + p + k];
    }
  }

  lemma HeaderBytes(file: seq<Byte>, header: Header)
    requires |file| >= HEADER_SIZE && file[..HEADER_SIZE] == header.Encode()
    ensures file[0..8] == LeBytes(header.magic) && file[8..16] == LeBytes(header.version)
    ensures file[16..24] == LeBytes(header.recordCount) && file[24..32] == LeBytes(header.mphfSize)
    ensures file[32..40] == LeBytes(header.dataOffset) && file[40..48] == LeBytes(header.buildTimestamp)
    ensures file[48..64] == Zeros(16) && file[64..96] == header.checksum && file[96..4096] == Zeros(4000)
  {
    var b := header.Encode();
    EncodeSegments(header);
    assert file[0..8] == b[0..8] && file[8..16] == b[8..16] && file[16..24] == b[16..24];
    assert file[24..32] == b[24..32] && file[32..40] == b[32..40] && file[40..48] == b[40..48];
    assert file[48..64] == b[48..64] == Zeros(16);
    assert file[64..96] == b[64..96];
    assert file[96..4096] == b[96..4096] == Zeros(4000);
  }

  lemma IndexBytes(file: seq<Byte>, count: seq<Byte>, body: seq<Byte>, d: nat)
    requires |count| == 8 && 4104 + |body| <= d <= |file|
    requires file[4096..d] == count + body + Zeros(d - 4104 - |body|)
    ensures file[4096..4104] == count && file[4104..4104 + |body|] == body
    ensures file[4104 + |body|..d] == Zeros(d - 4104 - |body|)
  {
    var section := file[4096..d];
    assert section[..8] == count && section[8..8 + |body|] == body;
    assert section[8 + |body|..] == Zeros(d - 4104 - |body|);
    SliceOfSlice(file, 4096, d, 0, 8);
    SliceOfSlice(file, 4096, d, 8, 8 + |body|);
    SliceOfSlice(file, 4096, d, 8 + |body|, d - 4096);
  }

  /** A finished file that was cut short never opens: within the header and the padding or the
      records it is reported as too small, and within the index opening panics. */
  lemma CutFilesDoNotOpen(ph: Ph, file: File, m: Mphf, pairs: seq<Record>, timestamp: U64, sha: Sha256, n: nat)
    requires |pairs| <= MAX_RECORDS && m.keyCount == |pairs| && ReadsBack(ph, m.hash)
    requires IsSnapshot(file, m, pairs, timestamp, sha) && n < |file|
    ensures var end := HEADER_SIZE + |m.Framed().value|;
            Open(ph, file[..n]) == if n < HEADER_SIZE then Failed(FileTooSmall(n, HEADER_SIZE))
                                   else if n < end then Panicked
                                   else Failed(FileTooSmall(n, |file|))
  {
    var framed := m.Framed().value;
    var d := New(|pairs|, |framed|, timestamp).dataOffset;
    DecodeOutcome(file[..n]);
    if n >= HEADER_SIZE {
      SnapshotParts(file, m, pairs, timestamp, sha);
      var header := FinalHeader(pairs, framed, timestamp, sha(file[d..]));
      DecodeEncode(header, file[HEADER_SIZE..n]);
      assert file[..n] == header.Encode() + file[HEADER_SIZE..n];
      if n >= HEADER_SIZE + |framed| {
        SliceOfSlice(file, 0, n, HEADER_SIZE, HEADER_SIZE + |framed|);
        assert file[..n] == file[0..n];
      }
      OpenCut(ph, file[..n], header, m, |file|);
    }
  }

  /** Opening when the header promises more records than there are bytes. */
  lemma OpenCut(ph: Ph, g: File, header: Header, m: Mphf, size: nat)
    requires Decode(g) == Done(header) && m.Framed().Done? && ReadsBack(ph, m.hash)
    requires header.mphfSize == |m.Framed().value| && header.recordCount == m.keyCount
    requires header.dataOffset + header.recordCount * RECORD_SIZE == size <= ISIZE_MAX && |g| < size
    requires var end := HEADER_SIZE + header.mphfSize; |g| >= end ==> g[HEADER_SIZE..end] == m.Framed().value
    ensures Open(ph, g) == if |g| < HEADER_SIZE + header.mphfSize then Panicked else Failed(FileTooSmall(|g|, size))
  {
    OpenOutcome(ph, g);
    if |g| >= HEADER_SIZE + header.mphfSize {
      CutIndex(g, m, m.Framed().value);
    }
  }

  lemma CutIndex(g: seq<Byte>, m: Mphf, framed: seq<Byte>)
    requires m.Framed() == Done(framed) && HEADER_SIZE + |framed| <= |g|
    requires g[HEADER_SIZE..HEADER_SIZE + |framed|] == framed
    ensures |framed| >= 8 && LeValue(g[HEADER_SIZE..HEADER_SIZE + 8]) == m.keyCount
    ensures g[HEADER_SIZE + 8..HEADER_SIZE + |framed|] == m.hash.image.value
  {
    assert g[HEADER_SIZE..HEADER_SIZE + 8] == framed[..8] == LeBytes(m.keyCount);
    assert g[HEADER_SIZE + 8..HEADER_SIZE + |framed|] == framed[8..] == m.hash.image.value;
    LeRoundTrip(m.keyCount);
  }

  /** The stored checksum is the checksum of the finished file's data section. */
  lemma ChecksumHolds(file: seq<Byte>, m: Mphf, pairs: seq<Record>, timestamp: U64, sha: Sha256)
    requires |pairs| < TWO64 && IsSnapshot(file, m, pairs, timestamp, sha)
    ensures Decode(file).Done? <==> |pairs| <= MAX_RECORDS
    ensures Decode(file).Done? ==>
              var header := Decode(file).value;
              header.dataOffset <= |file| && header.VerifyChecksum(sha, file[header.dataOffset..]) == Done(())
  {
    var framed := m.Framed().value;
    var d := New(|pairs|, |framed|, timestamp).dataOffset;
    SnapshotParts(file, m, pairs, timestamp, sha);
    DecodeEncode(FinalHeader(pairs, framed, timestamp, sha(file[d..])), file[HEADER_SIZE..]);
  }

  // ---------- end to end ----------

  /** Records of an opened snapshot are the pairs, each in the slot of its key. */
  lemma OpenedPlacement(ph: Ph, file: seq<Byte>, m: Mphf, pairs: seq<Record>, timestamp: U64, sha: Sha256)
    returns (place: seq<int>)
    requires |pairs| <= MAX_RECORDS && m.keyCount == |pairs|
    requires ReadsBack(ph, m.hash) && PerfectOn(m.hash, Keys(pairs))
    requires IsSnapshot(file, m, pairs, timestamp, sha)
    ensures |file| <= ISIZE_MAX && Open(ph, file).Done?
    ensures var st := Open(ph, file).value;
            && st.InBounds() && st.recordCount == |pairs| == |place| && Distinct(place)
            && (forall s :: 0 <= s < |pairs| ==> s in place)
            && forall j :: 0 <= j < |pairs| ==>
                 && 0 <= place[j] < |pairs|
                 && st.mphf.Get(pairs[j].key) == Some(place[j]) && st.GetRecord(place[j]) == pairs[j]
  {
    OpenSnapshot(ph, file, m, pairs, timestamp, sha);
    place := BuiltPlacement(m, pairs);
    var st := Open(ph, file).value;
    forall j | 0 <= j < |pairs|
      ensures st.GetRecord(place[j]) == pairs[j]
    {
      RecordRoundTrip(pairs[j], pairs[j].AsBytes());
    }
  }

  /** A store that keeps every pair in the slot its index gives is the finite map of the pairs. */
  lemma PlacedPairs(st: KvStore, pairs: seq<Record>, place: seq<int>)
    requires st.InBounds() && st.recordCount == |pairs| == |place| && Distinct(place)
    requires forall s :: 0 <= s < |pairs| ==> s in place
    requires forall j :: 0 <= j < |pairs| ==>
               && 0 <= place[j] < |pairs|
               && st.mphf.Get(pairs[j].key) == Some(place[j]) && st.GetRecord(place[j]) == pairs[j]
    ensures HoldsExactly(st, pairs)
  {
    forall i | 0 <= i < st.recordCount
      ensures st.mphf.Get(st.GetRecord(i).key) == Some(i)
    {
      var j := IndexOf(place, i);
      assert st.GetRecord(place[j]) == pairs[j];
    }
    PlacementIsPermutation(pairs, st.Iter(), place);
    SameElements(st.Iter(), pairs);
    forall k: Key, v: Value
      ensures st.Get(k) == Some(v) <==> Record(k, v) in pairs
    {
      GetIffStored(st, k, v);
    }
    forall k: Key
      ensures st.Get(k).None? <==> k !in Keys(pairs)
    {
      WellIndexedGet(st, k);
      SameKeys(st.Iter(), pairs, k);
    }
  }

  /** The store is well indexed, enumerates exactly the pairs, each once, and looks up exactly them. */
  ghost predicate HoldsExactly(st: KvStore, pairs: seq<Record>) {
    && st.WellIndexed() && st.recordCount == |pairs|
    && multiset(st.Iter()) == multiset(pairs)
    && (forall k: Key, v: Value :: st.Get(k) == Some(v) <==> Record(k, v) in pairs)
    && (forall k: Key :: st.Get(k).None? <==> k !in Keys(pairs))
  }

  lemma OpenedContent(ph: Ph, file: seq<Byte>, m: Mphf, pairs: seq<Record>, timestamp: U64, sha: Sha256)
    requires |pairs| <= MAX_RECORDS && m.keyCount == |pairs|
    requires ReadsBack(ph, m.hash) && PerfectOn(m.hash, Keys(pairs))
    requires IsSnapshot(file, m, pairs, timestamp, sha)
    ensures |file| <= ISIZE_MAX && Open(ph, file).Done? && HoldsExactly(Open(ph, file).value, pairs)
  {
    var place := OpenedPlacement(ph, file, m, pairs, timestamp, sha);
    PlacedPairs(Open(ph, file).value, pairs, place);
  }

  lemma GetIffStored(st: KvStore, k: Key, v: Value)
    requires st.WellIndexed()
    ensures st.Get(k) == Some(v) <==> Record(k, v) in st.Iter()
  {
    if Record(k, v) in st.Iter() {
      var i :| 0 <= i < st.recordCount && st.Iter()[i] == Record(k, v);
      assert st.mphf.Get(st.GetRecord(i).key) == Some(i);
    }
    if st.Get(k) == Some(v) {
      GetIsSound(st, k);
    }
  }

  lemma SameElements<T>(a: seq<T>, b: seq<T>)
    requires multiset(a) == multiset(b)
    ensures forall x :: x in a <==> x in b
  {
    forall x
      ensures x in a <==> x in b
    {
      assert x in a <==> x in multiset(a);
      assert x in b <==> x in multiset(b);
    }
  }

  lemma SameKeys(a: seq<Record>, b: seq<Record>, k: Key)
    requires forall r :: r in a <==> r in b
    ensures k in Keys(a) <==> k in Keys(b)
  {
    KeyOf(a, k);
    KeyOf(b, k);
  }

  lemma KeyOf(a: seq<Record>, k: Key)
    ensures k in Keys(a) <==> exists r :: r in a && r.key == k
  {
    if k in Keys(a) {
      var i :| 0 <= i < |a| && Keys(a)[i] == k;
      assert a[i] in a && a[i].key == k;
    }
    if r :| r in a && r.key == k {
      var i :| 0 <= i < |a| && a[i] == r;
      assert Keys(a)[i] == k;
    }
  }

  /** End to end: for every non-empty list of pairs whose keys the crate serves, which under the
      crate's contract is every list with different keys, the built file opens exactly when the
      format allows its record count, and then lookup is the finite map of the pairs, and
      enumeration yields each pair once. */
  lemma BuildThenOpen(ph: Ph, file: seq<Byte>, pairs: seq<Record>, timestamp: U64, sha: Sha256)
    requires ServesKeys(ph, Keys(pairs)) && IsBuilt(file, ph, pairs, timestamp, sha)
    ensures |file| <= ISIZE_MAX
    ensures Open(ph, file).Done? <==> |pairs| <= MAX_RECORDS
    ensures Open(ph, file).Done? ==> HoldsExactly(Open(ph, file).value, pairs)
  {
    var m := Mphf(ph.fromSlice(Keys(pairs)), |pairs|);
    OpenSnapshot(ph, file, m, pairs, timestamp, sha);
    if |pairs| <= MAX_RECORDS {
      OpenedContent(ph, file, m, pairs, timestamp, sha);
    }
  }

  // ---------- order independence ----------

  /** Reordering the pairs keeps a perfect function perfect. */
  lemma PerfectOnPermutation(f: GOFunction, a: seq<Record>, b: seq<Record>)
    requires PerfectOn(f, Keys(a)) && multiset(a) == multiset(b)
    ensures |a| == |b| && PerfectOn(f, Keys(b))
  {
    assert |multiset(a)| == |a| && |multiset(b)| == |b|;
    SameElements(a, b);
    forall i | 0 <= i < |b|
      ensures f.slotOf(Keys(b)[i]).Some? && f.slotOf(Keys(b)[i]).value < |b|
    {
      assert b[i] in a;
      var j :| 0 <= j < |a| && a[j] == b[i];
      assert Keys(a)[j] == Keys(b)[i];
    }
    forall i, j | 0 <= i < j < |b|
      ensures f.slotOf(Keys(b)[i]) != f.slotOf(Keys(b)[j])
    {
      assert b[i] in a && b[j] in a;
      var p :| 0 <= p < |a| && a[p] == b[i];
      var q :| 0 <= q < |a| && a[q] == b[j];
      if p == q {
        TwoOccurrences(b, i, j);
        assert Distinct(a) by {
          forall x, y | 0 <= x < y < |a|
            ensures a[x] != a[y]
          {
            assert f.slotOf(Keys(a)[x]) != f.slotOf(Keys(a)[y]);
          }
        }
        DistinctMultiplicity(a, a[p]);
        assert false;
      }
      assert f.slotOf(Keys(a)[p]) != f.slotOf(Keys(a)[q]);
    }
  }

  /** A slot ends up with the same record in whatever order the pairs are written. */
  lemma SlotOrderDoesNotMatter(m: Mphf, a: seq<Record>, b: seq<Record>, slot: nat)
    requires m.keyCount == |a| && PerfectOn(m.hash, Keys(a)) && multiset(a) == multiset(b)
    requires slot < |a|
    ensures |a| == |b| && SlotContents(m, a, |a|, slot) == SlotContents(m, b, |b|, slot)
  {
    PerfectOnPermutation(m.hash, a, b);
    var place := BuiltPlacement(m, a);
    var i := IndexOf(place, slot);
    assert SlotContents(m, a, |a|, slot) == a[i].AsBytes();
    assert a[i] in b by {
      SameElements(a, b);
    }
    var j := IndexOf(b, a[i]);
    SlotKeepsItsPair(m, b, |b|, j);
  }

  /** With the same index and timestamp, every order of the same pairs gives the same bytes. */
  lemma OrderDoesNotMatter(fileA: seq<Byte>, fileB: seq<Byte>, m: Mphf, a: seq<Record>, b: seq<Record>,
                           timestamp: U64, sha: Sha256)
    requires |a| < TWO64 && m.keyCount == |a| && PerfectOn(m.hash, Keys(a))
    requires |b| < TWO64 && multiset(a) == multiset(b)
    requires IsSnapshot(fileA, m, a, timestamp, sha) && IsSnapshot(fileB, m, b, timestamp, sha)
    ensures fileA == fileB
  {
    PerfectOnPermutation(m.hash, a, b);
    var d := New(|a|, |m.Framed().value|, timestamp).dataOffset;
    SnapshotParts(fileA, m, a, timestamp, sha);
    forall s | 0 <= s < |a|
      ensures Block(fileA[d..], 0, s) == Block(fileB[d..], 0, s)
    {
      SlotOrderDoesNotMatter(m, a, b, s);
      BlockOfSuffix(fileA, d, s);
      BlockOfSuffix(fileB, d, s);
    }
    EqualBlocks(fileA[d..], fileB[d..], |a|);
    ThreeParts(fileA, d);
    ThreeParts(fileB, d);
  }

  lemma ThreeParts(file: seq<Byte>, d: nat)
    requires HEADER_SIZE <= d <= |file|
    ensures file == file[..HEADER_SIZE] + file[HEADER_SIZE..d] + file[d..]
  {
  }
}
