/** The builder program's inputs: raw records, generated records, rows of text. */
module Imports {
  import opened Wrappers
  import opened Words
  import opened Seqs
  import opened Records
  import opened Mphfs
  import opened KeyTables
  import opened Headers
  import opened Stores
  import opened Builders
  import opened Snapshots

  // ---------- binary input ----------

  /** Cuts the input into records and adds them in order. */
  method ReadBinary(input: File) returns (r: Outcome<SnapshotBuilder>)
    ensures |input| % RECORD_SIZE != 0 ==> r == Failed(BadInputSize(|input|))
    ensures |input| % RECORD_SIZE == 0 ==>
              r.Done? && fresh(r.value) && r.value.Valid() && r.value.Pairs() == BlocksOf(input)
              && forall i :: 0 <= i < |r.value.Pairs()| ==>
                   && r.value.Pairs()[i].key == input[i * RECORD_SIZE..i * RECORD_SIZE + KEY_SIZE]
                   && r.value.Pairs()[i].value == input[i * RECORD_SIZE + KEY_SIZE..i * RECORD_SIZE + RECORD_SIZE]
  {
    if |input| % RECORD_SIZE != 0 {
      return Failed(BadInputSize(|input|));
    }
    var n := |input| / RECORD_SIZE;
    var builder := new SnapshotBuilder();
    var i := 0;
    while i < n
      invariant 0 <= i <= n && fresh(builder) && builder.Valid()
      invariant builder.Pairs() == BlocksOf(input)[..i]
    {
      var offset := i * RECORD_SIZE;
      var key: Key := input[offset..offset + KEY_SIZE];
      var value: Value := input[offset + KEY_SIZE..offset + RECORD_SIZE];
      assert Record(key, value) == FromBytes(Block(input, 0, i));
      builder.AddRecord(key, value);
      i := i + 1;
    }
    forall j | 0 <= j < n
      ensures BlocksOf(input)[j].key == input[j * RECORD_SIZE..j * RECORD_SIZE + KEY_SIZE]
      ensures BlocksOf(input)[j].value == input[j * RECORD_SIZE + KEY_SIZE..j * RECORD_SIZE + RECORD_SIZE]
    {
      BlocksOfBytes(input, j);
    }
    r := Done(builder);
  }

  method BuildFromBinary(input: File, ph: Ph, timestamp: U64, sha: Sha256) returns (r: Outcome<array<Byte>>)
    ensures |input| % RECORD_SIZE != 0 ==> r == Failed(BadInputSize(|input|))
    ensures input == [] ==> r == Failed(InvalidMphf)
    ensures |input| % RECORD_SIZE == 0 ==> BuildEnds(r, ph, BlocksOf(input))
    ensures |input| % RECORD_SIZE == 0 && Contract(ph) && Distinct(Keys(BlocksOf(input))) ==>
              BuildsWhenWritable(r, ph, BlocksOf(input))
    ensures r.Done? ==> fresh(r.value) && IsBuilt(r.value[..], ph, BlocksOf(input), timestamp, sha)
  {
    var read := ReadBinary(input);
    if read.Failed? {
      return Failed(read.error);
    }
    r := read.value.Build(ph, timestamp, sha);
    BuildUnderContract(r, ph, BlocksOf(input));
  }

  /** The data section of an opened file without trailing bytes consists of the stored records. */
  lemma DataSection(st: KvStore)
    requires st.InBounds() && |st.file| == st.dataOffset + st.recordCount * RECORD_SIZE
    ensures BlocksOf(st.file[st.dataOffset..]) == st.Iter()
  {
    var data := st.file[st.dataOffset..];
    forall i | 0 <= i < st.recordCount
      ensures BlocksOf(data)[i] == st.Iter()[i]
    {
      BlockOfSuffix(st.file, st.dataOffset, i);
    }
  }

  /** The data section of a built file is a block permutation of the pairs it was built from. */
  lemma BuiltDataSection(ph: Ph, file: File, pairs: seq<Record>, timestamp: U64, sha: Sha256) returns (st: KvStore)
    requires ServesKeys(ph, Keys(pairs)) && |pairs| <= MAX_RECORDS
    requires IsBuilt(file, ph, pairs, timestamp, sha)
    ensures Open(ph, file) == Done(st) && HoldsExactly(st, pairs)
    ensures |file| == st.dataOffset + st.recordCount * RECORD_SIZE
    ensures BlocksOf(file[st.dataOffset..]) == st.Iter()
  {
    var m := Mphf(ph.fromSlice(Keys(pairs)), |pairs|);
    BuildThenOpen(ph, file, pairs, timestamp, sha);
    OpenSnapshot(ph, file, m, pairs, timestamp, sha);
    st := Open(ph, file).value;
    DataSection(st);
  }

  /** `section` is the data section of the file, as its header places it. */
  ghost predicate IsDataSection(section: seq<Byte>, file: File) {
    Decode(file).Done? && Decode(file).value.dataOffset <= |file| && section == file[Decode(file).value.dataOffset..]
  }

  lemma OpenedDataSection(ph: Ph, file: File, st: KvStore, section: seq<Byte>)
    requires Open(ph, file) == Done(st) && IsDataSection(section, file)
    ensures st.dataOffset <= |file| && section == file[st.dataOffset..]
  {
  }

  lemma SecondImport(ph: Ph, a: KvStore, file: File, timestamp: U64, sha: Sha256) returns (b: KvStore)
    requires a.WellIndexed() && a.recordCount <= MAX_RECORDS && Contract(ph)
    requires IsBuilt(file, ph, a.Iter(), timestamp, sha)
    ensures Open(ph, file) == Done(b) && b.InBounds()
    ensures forall k: Key :: a.Get(k) == b.Get(k)
  {
    WellIndexedKeysDistinct(a);
    ContractServes(ph, a.Iter());
    b := BuiltDataSection(ph, file, a.Iter(), timestamp, sha);
    SameLookups(a, b, a.Iter());
  }

  /** Importing raw records with different keys, and then importing the data section that was built
      from them, is never refused for its size and gives two stores with the same lookups. */
  lemma ReimportKeepsLookups(ph: Ph, input: File, first: File, section: seq<Byte>, second: File,
                             t1: U64, t2: U64, sha: Sha256)
    returns (a: KvStore, b: KvStore)
    requires Contract(ph) && Distinct(Keys(BlocksOf(input))) && |BlocksOf(input)| <= MAX_RECORDS
    requires IsBuilt(first, ph, BlocksOf(input), t1, sha) && IsDataSection(section, first)
    requires IsBuilt(second, ph, BlocksOf(section), t2, sha)
    ensures |section| % RECORD_SIZE == 0
    ensures multiset(BlocksOf(section)) == multiset(BlocksOf(input))
    ensures Open(ph, first) == Done(a) && Open(ph, second) == Done(b) && a.InBounds() && b.InBounds()
    ensures forall k: Key :: a.Get(k) == b.Get(k)
  {
    ContractServes(ph, BlocksOf(input));
    a := BuiltDataSection(ph, first, BlocksOf(input), t1, sha);
    OpenedDataSection(ph, first, a, section);
    b := SecondImport(ph, a, second, t2, sha);
  }

  lemma SameLookups(a: KvStore, b: KvStore, pairs: seq<Record>)
    requires a.WellIndexed() && a.Iter() == pairs && HoldsExactly(b, pairs)
    ensures forall k: Key :: a.Get(k) == b.Get(k)
  {
    forall k: Key
      ensures a.Get(k) == b.Get(k)
    {
      if a.Get(k).Some? {
        GetIffStored(a, k, a.Get(k).value);
      } else {
        WellIndexedGet(a, k);
      }
    }
  }

  // ---------- generated input ----------

  const TAIL_SIZE := 56

  /** The i-th generated key: its index, then random bytes. */
  function GeneratedKey(i: U64, tail: seq<Byte>): Key
    requires |tail| == TAIL_SIZE
  {
    LeBytes(i) + tail
  }

  /** Whatever the random bytes are, generated keys are pairwise different. */
  lemma GeneratedKeysDistinct(keys: seq<Key>, tails: seq<seq<Byte>>)
    requires |keys| == |tails| <= TWO64
    requires forall i :: 0 <= i < |keys| ==> |tails[i]| == TAIL_SIZE && keys[i] == GeneratedKey(i, tails[i])
    ensures Distinct(keys)
  {
    forall i, j | 0 <= i < j < |keys|
      ensures keys[i] != keys[j]
    {
      assert keys[i][..8] == LeBytes(i) && keys[j][..8] == LeBytes(j);
      LeRoundTrip(i);
      LeRoundTrip(j);
    }
  }

  /** Writes the index and the random bytes into a zeroed key. */
  method GenerateKey(i: U64, tail: seq<Byte>) returns (key: Key)
    requires |tail| == TAIL_SIZE
    ensures key == GeneratedKey(i, tail)
    ensures key[..8] == LeBytes(i) && key[8..] == tail
  {
    var buffer := new Byte[KEY_SIZE](_ => 0);
    CopyInto(buffer, 0, LeBytes(i));
    CopyInto(buffer, 8, tail);
    assert buffer[..] == GeneratedKey(i, tail);
    key := buffer[..];
  }

  /** Generates `count` records; `tails` and `values` are what the generator drew. */
  method BuildRandom(count: nat, tails: seq<seq<Byte>>, values: seq<Value>, ph: Ph, timestamp: U64, sha: Sha256)
    returns (r: Outcome<array<Byte>>, ghost pairs: seq<Record>)
    requires |tails| == |values| == count && count * RECORD_SIZE <= ISIZE_MAX
    requires forall i :: 0 <= i < count ==> |tails[i]| == TAIL_SIZE
    ensures |pairs| == count && Distinct(Keys(pairs))
    ensures forall i :: 0 <= i < count ==> pairs[i] == Record(GeneratedKey(i, tails[i]), values[i])
    ensures BuildEnds(r, ph, pairs) && (Contract(ph) ==> BuildsWhenWritable(r, ph, pairs))
    ensures r.Done? ==> fresh(r.value) && IsBuilt(r.value[..], ph, pairs, timestamp, sha)
  {
    var builder := new SnapshotBuilder();
    var i := 0;
    while i < count
      invariant 0 <= i <= count && fresh(builder) && builder.Valid() && |builder.Pairs()| == i
      invariant forall j :: 0 <= j < i ==> builder.Pairs()[j] == Record(GeneratedKey(j, tails[j]), values[j])
    {
      var key := GenerateKey(i, tails[i]);
      builder.AddRecord(key, values[i]);
      i := i + 1;
    }
    pairs := builder.Pairs();
    GeneratedKeysDistinct(Keys(pairs), tails);
    r := builder.Build(ph, timestamp, sha);
    BuildUnderContract(r, ph, pairs);
  }

  // ---------- more records than the format allows ----------

  /** `n` generated records, should every draw be zero. */
  function ZeroDraws(n: nat): (pairs: seq<Record>)
    requires n < TWO64
    ensures |pairs| == n
  {
    seq(n, i requires 0 <= i < n => Record(GeneratedKey(i, Zeros(TAIL_SIZE)), Zeros(VALUE_SIZE)))
  }

  lemma ZeroDrawsDistinct(n: nat)
    requires n < TWO64
    ensures Distinct(Keys(ZeroDraws(n)))
  {
    GeneratedKeysDistinct(Keys(ZeroDraws(n)), seq(n, _ => Zeros(TAIL_SIZE)));
  }

  /** The builder has no record limit of its own.  More records than the format allows, built with
      a crate that serves their keys, end in a file whenever it fits, and no such file opens. */
  lemma TooManyNeverOpens(ph: Ph, pairs: seq<Record>)
    requires MAX_RECORDS < |pairs| < TWO64 && ServesKeys(ph, Keys(pairs))
    ensures forall r :: BuildEnds(r, ph, pairs) ==>
              (r.Done? <==> Writable(Mphf(ph.fromSlice(Keys(pairs)), |pairs|), |pairs|))
    ensures forall file, timestamp, sha :: IsBuilt(file, ph, pairs, timestamp, sha) ==>
              |file| <= ISIZE_MAX && Open(ph, file) == Failed(TooManyRecords(|pairs|, MAX_RECORDS))
  {
    BuildNeverPanics(ph, pairs);
    forall file, timestamp, sha | IsBuilt(file, ph, pairs, timestamp, sha)
      ensures |file| <= ISIZE_MAX && Open(ph, file) == Failed(TooManyRecords(|pairs|, MAX_RECORDS))
    {
      OpenSnapshot(ph, file, Mphf(ph.fromSlice(Keys(pairs)), |pairs|), pairs, timestamp, sha);
    }
  }

  /** There are such inputs: generated records beyond the limit, indexed by the explicit key table. */
  lemma TooManyAreBuilt(n: U64)
    requires MAX_RECORDS < n <= 0x20_0000_0000_0000
    ensures forall r :: BuildEnds(r, TablePh(), ZeroDraws(n)) ==> r.Done?
    ensures forall file, timestamp, sha :: IsBuilt(file, TablePh(), ZeroDraws(n), timestamp, sha) ==>
              |file| <= ISIZE_MAX && Open(TablePh(), file) == Failed(TooManyRecords(n, MAX_RECORDS))
  {
    var pairs := ZeroDraws(n);
    ZeroDrawsDistinct(n);
    TableMeetsContract();
    ContractServes(TablePh(), pairs);
    assert Mphf(TablePh().fromSlice(Keys(pairs)), n).Framed() == Done(LeBytes(n) + WriteKeys(Keys(pairs)));
    TooManyNeverOpens(TablePh(), pairs);
  }

  // ---------- text input ----------

  function Truncated(s: seq<Byte>, n: nat): (t: seq<Byte>)
    ensures |t| <= n
  {
    if |s| <= n then s else s[..n]
  }

  /** The text cut to `n` bytes, or filled up with zeros. */
  function Padded(s: seq<Byte>, n: nat): (p: seq<Byte>)
    ensures |p| == n
  {
    Truncated(s, n) + Zeros(n - |Truncated(s, n)|)
  }

  /** The leading bytes are kept in place, and zeros follow. */
  lemma PaddedBytes(s: seq<Byte>, n: nat, i: nat)
    requires i < n
    ensures Padded(s, n)[i] == if i < |s| then s[i] else 0
  {
  }

  function StripZeros(s: seq<Byte>): (t: seq<Byte>)
    ensures |t| <= |s| && s == t + Zeros(|s| - |t|)
    ensures t != [] ==> t[|t| - 1] != 0
  {
    if s != [] && s[|s| - 1] == 0 then
      var t := StripZeros(s[..|s| - 1]);
      assert s == s[..|s| - 1] + [0];
      t
    else s
  }

  method Pad(s: seq<Byte>, n: nat) returns (p: seq<Byte>)
    ensures p == Padded(s, n)
    ensures forall i :: 0 <= i < n ==> p[i] == if i < |s| then s[i] else 0
  {
    var buffer := new Byte[n](_ => 0);
    var len := if |s| <= n then |s| else n;
    CopyInto(buffer, 0, s[..len]);
    p := buffer[..];
  }

  lemma {:induction false} StripIgnoresZeros(s: seq<Byte>, n: nat)
    ensures StripZeros(s + Zeros(n)) == StripZeros(s)
  {
    if n == 0 {
      assert s + Zeros(0) == s;
    } else {
      var t := s + Zeros(n);
      assert t[..|t| - 1] == s + Zeros(n - 1);
      StripIgnoresZeros(s, n - 1);
    }
  }

  /** Stripping the padding again leaves the stripped text, and padding that gives the key back. */
  lemma PaddedIsStripped(s: seq<Byte>, n: nat)
    ensures var t := StripZeros(Truncated(s, n));
            StripZeros(Padded(s, n)) == t && Padded(s, n) == t + Zeros(n - |t|)
  {
    StripIgnoresZeros(Truncated(s, n), n - |Truncated(s, n)|);
  }

  /** Two texts become the same key exactly when their first 64 bytes agree after trailing zeros
      are dropped.  The statement holds for every width, so for values too. */
  lemma SamePaddedIff(s: seq<Byte>, t: seq<Byte>, n: nat)
    ensures Padded(s, n) == Padded(t, n) <==> StripZeros(Truncated(s, n)) == StripZeros(Truncated(t, n))
  {
    PaddedIsStripped(s, n);
    PaddedIsStripped(t, n);
  }

  /** Builds from the two chosen columns of every row. */
  method BuildFromRows(rows: seq<(seq<Byte>, seq<Byte>)>, ph: Ph, timestamp: U64, sha: Sha256)
    returns (r: Outcome<array<Byte>>, ghost pairs: seq<Record>)
    requires |rows| * RECORD_SIZE <= ISIZE_MAX
    ensures |pairs| == |rows|
    ensures forall i :: 0 <= i < |rows| ==>
              pairs[i] == Record(Padded(rows[i].0, KEY_SIZE), Padded(rows[i].1, VALUE_SIZE))
    ensures BuildEnds(r, ph, pairs)
    ensures Contract(ph) && Distinct(Keys(pairs)) ==> BuildsWhenWritable(r, ph, pairs)
    ensures r.Done? ==> fresh(r.value) && IsBuilt(r.value[..], ph, pairs, timestamp, sha)
  {
    var builder := new SnapshotBuilder();
    var i := 0;
    while i < |rows|
      invariant 0 <= i <= |rows| && fresh(builder) && builder.Valid() && |builder.Pairs()| == i
      invariant forall j :: 0 <= j < i ==>
        builder.Pairs()[j] == Record(Padded(rows[j].0, KEY_SIZE), Padded(rows[j].1, VALUE_SIZE))
    {
      var key := Pad(rows[i].0, KEY_SIZE);
      var value := Pad(rows[i].1, VALUE_SIZE);
      builder.AddRecord(key, value);
      i := i + 1;
    }
    pairs := builder.Pairs();
    r := builder.Build(ph, timestamp, sha);
    BuildUnderContract(r, ph, pairs);
  }
}
