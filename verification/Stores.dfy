/** The read-only store over an opened snapshot file. */
module Stores {
  import opened Wrappers
  import opened Words
  import opened Seqs
  import opened Records
  import opened Mphfs
  import opened Headers
  import Hex

  /** The bytes of a mapped file. */
  type File = f: seq<Byte> | |f| <= ISIZE_MAX witness []

  datatype VersionInfo = VersionInfo(buildTimestamp: U64, recordCount: U64, fileSize: U64)

  datatype KvStore = KvStore(file: File, mphf: Mphf, recordCount: U64, dataOffset: U64, info: VersionInfo) {
    /** Every record lies inside the file. */
    predicate InBounds() {
      dataOffset + recordCount * RECORD_SIZE <= |file|
    }

    /** Where the record of a slot starts and ends, in wrapping arithmetic. */
    function RecordStart(slot: U64): U64 {
      WrapAdd(dataOffset, WrapMul(slot, RECORD_SIZE))
    }

    /** The slice taken for a slot is a valid one, so that taking it does not panic. */
    predicate SliceInside(slot: U64) {
      var end := WrapAdd(RecordStart(slot), RECORD_SIZE);
      RecordStart(slot) <= end <= |file|
    }

    function GetRecord(slot: nat): Record
      requires InBounds() && slot < recordCount
    {
      FromBytes(Block(file, dataOffset, slot))
    }

    /** Hash the key, check the range, read the record, compare its key. */
    function Get(key: Key): (v: Option<Value>)
      requires InBounds()
    {
      match mphf.Get(key)
      case None => None
      case Some(slot) =>
        if slot >= recordCount then None
        else
          var record := GetRecord(slot);
          if record.KeyEquals(key) then Some(record.value) else None
    }

    predicate Contains(key: Key)
      requires InBounds()
    {
      Get(key).Some?
    }

    /** The records in slot order. */
    function Iter(): (rs: seq<Record>)
      requires InBounds()
      ensures |rs| == recordCount
      ensures forall i :: 0 <= i < recordCount ==> rs[i] == GetRecord(i)
    {
      seq(recordCount, i requires 0 <= i < recordCount => GetRecord(i))
    }

    // ---------- what the index speeds up ----------

    /** The first record with the key, found by reading the records one after the other. */
    function Scan(key: Key): Option<Value>
      requires InBounds()
    {
      ScanRecords(Iter(), key)
    }

    /** The finite map the store stands for. */
    ghost function Content(): (m: map<Key, Value>)
      requires InBounds()
      ensures m.Keys == Elements(Keys(Iter()))
    {
      map key | key in Elements(Keys(Iter())) :: Scan(key).value
    }

    /** The index sends the key of every slot to that slot. */
    ghost predicate WellIndexed() {
      && InBounds()
      && forall i :: 0 <= i < recordCount ==> mphf.Get(GetRecord(i).key) == Some(i)
    }
  }

  function ScanRecords(rs: seq<Record>, key: Key): (v: Option<Value>)
    ensures v.Some? ==> Record(key, v.value) in rs
    ensures v.None? <==> key !in Keys(rs)
  {
    if rs == [] then None
    else if rs[0].key == key then (assert Keys(rs)[0] == key; Some(rs[0].value))
    else
      assert Keys(rs) == [rs[0].key] + Keys(rs[1..]);
      ScanRecords(rs[1..], key)
  }

  function Open(ph: Ph, file: File): Outcome<KvStore> {
    var header :- Decode(file);
    var mphfEnd := WrapAdd(HEADER_SIZE, header.mphfSize);
    if !(HEADER_SIZE <= mphfEnd <= |file|) then Panicked
    else
      var mphf :- Deserialize(ph, file[HEADER_SIZE..mphfEnd]);
      if mphf.keyCount != header.recordCount then Failed(InvalidMphf)
      else
        var expected := WrapAdd(header.dataOffset, WrapMul(header.recordCount, RECORD_SIZE));
        if |file| < expected then Failed(FileTooSmall(|file|, expected))
        else
          Done(KvStore(file, mphf, header.recordCount, header.dataOffset,
                       VersionInfo(header.buildTimestamp, header.recordCount, |file|)))
  }

  // ---------- lookups ----------

  /** Whatever the file holds and the hash function answers, a found value is stored under the key. */
  lemma GetIsSound(st: KvStore, key: Key)
    requires st.InBounds() && st.Get(key).Some?
    ensures Record(key, st.Get(key).value) in st.Iter()
  {
    var slot := st.mphf.Get(key).value;
    assert st.Iter()[slot] == st.GetRecord(slot);
  }

  /** What enumeration reads: record `i` is 64 bytes of key and then 256 bytes of value. */
  lemma IterBytes(st: KvStore, i: nat)
    requires st.InBounds() && i < st.recordCount
    ensures var record, at := st.Iter()[i], st.dataOffset + i * RECORD_SIZE;
            record.key == st.file[at..at + KEY_SIZE] && record.value == st.file[at + KEY_SIZE..at + RECORD_SIZE]
  {
    BlockBytes(st.file, st.dataOffset, i);
  }

  /** What a lookup reads, for any index: a value is found exactly when the index sends the key to a
      record of the file that starts with the key, and it is the rest of that record. */
  lemma GetReads(st: KvStore, key: Key, value: Value)
    requires st.InBounds()
    ensures st.Get(key) == Some(value) <==>
              && st.mphf.Get(key).Some? && st.mphf.Get(key).value < st.recordCount
              && var at := st.dataOffset + st.mphf.Get(key).value * RECORD_SIZE;
                 st.file[at..at + KEY_SIZE] == key && st.file[at + KEY_SIZE..at + RECORD_SIZE] == value
  {
    if st.mphf.Get(key).Some? && st.mphf.Get(key).value < st.recordCount {
      BlockBytes(st.file, st.dataOffset, st.mphf.Get(key).value);
    }
  }

  lemma {:induction false} ScanFinds(rs: seq<Record>, i: nat)
    requires i < |rs| && Distinct(Keys(rs))
    ensures ScanRecords(rs, rs[i].key) == Some(rs[i].value)
  {
    if i == 0 {
    } else {
      assert Keys(rs)[0] != Keys(rs)[i];
      assert Keys(rs[1..]) == Keys(rs)[1..];
      ScanFinds(rs[1..], i - 1);
    }
  }

  lemma WellIndexedKeysDistinct(st: KvStore)
    requires st.WellIndexed()
    ensures Distinct(Keys(st.Iter()))
  {
    forall i, j | 0 <= i < j < st.recordCount
      ensures Keys(st.Iter())[i] != Keys(st.Iter())[j]
    {
      assert st.mphf.Get(st.GetRecord(i).key) == Some(i) && st.mphf.Get(st.GetRecord(j).key) == Some(j);
    }
  }

  lemma WellIndexedGet(st: KvStore, key: Key)
    requires st.WellIndexed()
    ensures st.Get(key) == st.Scan(key)
  {
    WellIndexedKeysDistinct(st);
    if key in Keys(st.Iter()) {
      var i :| 0 <= i < st.recordCount && Keys(st.Iter())[i] == key;
      assert st.mphf.Get(st.GetRecord(i).key) == Some(i);
      ScanFinds(st.Iter(), i);
    } else if st.Get(key).Some? {
      GetIsSound(st, key);
    }
  }

  /** The index is right exactly when stored keys are pairwise different and lookup agrees with
      the linear scan on every key, stored or not. */
  lemma WellIndexedIffScan(st: KvStore)
    requires st.InBounds()
    ensures st.WellIndexed() <==>
              Distinct(Keys(st.Iter())) && forall key: Key :: st.Get(key) == st.Scan(key)
  {
    if st.WellIndexed() {
      WellIndexedKeysDistinct(st);
      forall key: Key
        ensures st.Get(key) == st.Scan(key)
      {
        WellIndexedGet(st, key);
      }
    }
    if Distinct(Keys(st.Iter())) && forall key: Key :: st.Get(key) == st.Scan(key) {
      forall i | 0 <= i < st.recordCount
        ensures st.mphf.Get(st.GetRecord(i).key) == Some(i)
      {
        var key := st.GetRecord(i).key;
        ScanFinds(st.Iter(), i);
        assert st.Get(key).Some?;
        HitIsOwnSlot(st, i);
      }
    }
  }

  /** With different keys, a key that is found was found in its own slot. */
  lemma HitIsOwnSlot(st: KvStore, i: nat)
    requires st.InBounds() && Distinct(Keys(st.Iter())) && i < st.recordCount
    requires st.Contains(st.GetRecord(i).key)
    ensures st.mphf.Get(st.GetRecord(i).key) == Some(i)
  {
    var slot := st.mphf.Get(st.GetRecord(i).key).value;
    var keys := Keys(st.Iter());
    assert keys[slot] == keys[i];
    assert slot == i;
  }

  // ---------- bounds ----------

  /** What is known of every accepted file, whoever wrote it: a valid header, an index with as many
      keys as there are records, and a size that is large enough unless the sum wraps. */
  lemma OpenedFields(ph: Ph, file: File, st: KvStore)
    requires Open(ph, file) == Done(st)
    ensures Decode(file).Done?
    ensures var header := Decode(file).value;
            && header.magic == MAGIC_NUMBER && header.version == FORMAT_VERSION
            && st.file == file && st.dataOffset == header.dataOffset
            && st.recordCount == header.recordCount == st.mphf.keyCount <= MAX_RECORDS
            && st.info == VersionInfo(header.buildTimestamp, header.recordCount, |file|)
            && HEADER_SIZE + header.mphfSize <= |file|
            && WrapAdd(st.dataOffset, st.recordCount * RECORD_SIZE) <= |file|
  {
    WrapMulExact(st.recordCount, RECORD_SIZE);
  }

  /** How opening a file with a valid header ends: it panics exactly when the index section runs past
      the end of the file, and otherwise each error has its own cause, in this order. */
  lemma OpenOutcome(ph: Ph, file: File)
    requires Decode(file).Done?
    ensures var header := Decode(file).value;
            var end := HEADER_SIZE + header.mphfSize;
            var size := (header.dataOffset + header.recordCount * RECORD_SIZE) % TWO64;
            && (Open(ph, file).Panicked? <==> |file| < end)
            && (|file| >= end && header.mphfSize < 8 ==> Open(ph, file) == Failed(InvalidMphf))
            && (|file| >= end && header.mphfSize >= 8 ==>
                var count, index := LeValue(file[HEADER_SIZE..HEADER_SIZE + 8]), ph.read(file[HEADER_SIZE + 8..end]);
                && (index.None? ==> Open(ph, file) == Failed(Serialization))
                && (index.Some? && count != header.recordCount ==> Open(ph, file) == Failed(InvalidMphf))
                && (index.Some? && count == header.recordCount && |file| < size ==>
                    Open(ph, file) == Failed(FileTooSmall(|file|, size)))
                && (index.Some? && count == header.recordCount && |file| >= size ==> Open(ph, file).Done?))
  {
    var header := Decode(file).value;
    var end := HEADER_SIZE + header.mphfSize;
    WrapMulExact(header.recordCount, RECORD_SIZE);
    WrapIsModular(header.dataOffset, header.recordCount * RECORD_SIZE);
    if |file| >= end {
      var bytes := file[HEADER_SIZE..end];
      if |bytes| >= 8 {
        assert bytes[..8] == file[HEADER_SIZE..HEADER_SIZE + 8] && bytes[8..] == file[HEADER_SIZE + 8..end];
      }
    }
  }

  /** Opening reads the header and the index section and nothing else: files of one size that agree
      there are accepted, or rejected with the same error, whatever their records are.  The
      checksum is checked by `VerifyChecksum` only. */
  lemma OpenIgnoresRecords(ph: Ph, f: File, g: File)
    requires |f| == |g| && Decode(f).Done?
    requires HEADER_SIZE + Decode(f).value.mphfSize <= |f|
    requires f[..HEADER_SIZE + Decode(f).value.mphfSize] == g[..HEADER_SIZE + Decode(f).value.mphfSize]
    ensures Open(ph, f).Done? <==> Open(ph, g).Done?
    ensures Open(ph, f).Done? ==> Open(ph, g) == Done(Open(ph, f).value.(file := g))
    ensures Open(ph, f).Failed? ==> Open(ph, g) == Open(ph, f)
  {
    var end := HEADER_SIZE + Decode(f).value.mphfSize;
    assert f[..HEADER_SIZE] == f[..end][..HEADER_SIZE];
    assert g[..HEADER_SIZE] == g[..end][..HEADER_SIZE];
    SamePrefixDecodes(f, g);
    assert f[HEADER_SIZE..end] == f[..end][HEADER_SIZE..];
    assert g[HEADER_SIZE..end] == g[..end][HEADER_SIZE..];
  }

  /** Other records of the same total size under the old header and index: the file still opens
      with the same fields, and only verifying the checksum tells it from the old one. */
  lemma OtherRecordsStillOpen(ph: Ph, f: File, data: seq<Byte>, sha: Sha256) returns (g: File)
    requires Decode(f).Done? && Open(ph, f).Done?
    requires var header := Decode(f).value;
             && HEADER_SIZE + header.mphfSize <= header.dataOffset
             && header.dataOffset + |data| == |f| && sha(data) != header.checksum
    ensures var header := Decode(f).value;
            && |g| == |f| && g[..header.dataOffset] == f[..header.dataOffset] && g[header.dataOffset..] == data
            && Decode(g) == Done(header) && Open(ph, g) == Done(Open(ph, f).value.(file := g))
            && header.VerifyChecksum(sha, g[header.dataOffset..])
               == Failed(ChecksumMismatch(Hex.Encode(header.checksum), Hex.Encode(sha(data))))
  {
    var header := Decode(f).value;
    var d := header.dataOffset;
    var end := HEADER_SIZE + header.mphfSize;
    g := f[..d] + data;
    assert g[..d] == f[..d] && g[d..] == data;
    assert f[..end] == f[..d][..end] && g[..end] == g[..d][..end];
    assert f[..HEADER_SIZE] == f[..end][..HEADER_SIZE] && g[..HEADER_SIZE] == g[..end][..HEADER_SIZE];
    SamePrefixDecodes(f, g);
    OpenIgnoresRecords(ph, f, g);
  }

  lemma SamePrefixDecodes(f: seq<Byte>, g: seq<Byte>)
    requires |f| >= HEADER_SIZE && |g| >= HEADER_SIZE && f[..HEADER_SIZE] == g[..HEADER_SIZE]
    ensures Decode(f) == Decode(g)
  {
    SliceOfPrefix(f, g, 0, 8);
    SliceOfPrefix(f, g, 8, 16);
    SliceOfPrefix(f, g, 16, 24);
    SliceOfPrefix(f, g, 24, 32);
    SliceOfPrefix(f, g, 32, 40);
    SliceOfPrefix(f, g, 40, 48);
    SliceOfPrefix(f, g, 64, 96);
  }

  lemma SliceOfPrefix(f: seq<Byte>, g: seq<Byte>, i: nat, j: nat)
    requires |f| >= HEADER_SIZE && |g| >= HEADER_SIZE && f[..HEADER_SIZE] == g[..HEADER_SIZE]
    requires i <= j <= HEADER_SIZE
    ensures f[i..j] == g[i..j]
  {
    forall k | i <= k < j
      ensures f[k] == g[k]
    {
      assert f[k] == f[..HEADER_SIZE][k] && g[k] == g[..HEADER_SIZE][k];
    }
  }

  /** A snapshot that opens has all its record slices inside the file exactly when the data
      section does not run past the end of the 64-bit address range.  When it does, the size
      check wraps and even the first record is outside. */
  lemma OpenedSlices(ph: Ph, file: File, st: KvStore)
    requires Open(ph, file) == Done(st)
    ensures st.InBounds() <==> st.dataOffset + st.recordCount * RECORD_SIZE < TWO64
    ensures st.InBounds() <==> forall slot: U64 :: slot < st.recordCount ==> st.SliceInside(slot)
    ensures st.InBounds() ==> forall slot: U64 :: slot < st.recordCount ==>
              st.RecordStart(slot) == st.dataOffset + slot * RECORD_SIZE
  {
    OpenedFields(ph, file, st);
    SlicesInside(st);
  }

  lemma SlicesInside(st: KvStore)
    requires st.recordCount <= MAX_RECORDS
    requires WrapAdd(st.dataOffset, st.recordCount * RECORD_SIZE) <= |st.file|
    ensures st.InBounds() <==> st.dataOffset + st.recordCount * RECORD_SIZE < TWO64
    ensures st.InBounds() <==> forall slot: U64 :: slot < st.recordCount ==> st.SliceInside(slot)
    ensures st.InBounds() ==> forall slot: U64 :: slot < st.recordCount ==>
              st.RecordStart(slot) == st.dataOffset + slot * RECORD_SIZE
  {
    if st.dataOffset + st.recordCount * RECORD_SIZE < TWO64 {
      forall slot: U64 | slot < st.recordCount
        ensures st.SliceInside(slot) && st.RecordStart(slot) == st.dataOffset + slot * RECORD_SIZE
      {
        WrapMulExact(slot, RECORD_SIZE);
      }
    } else {
      WrapMulExact(0, RECORD_SIZE);
      assert !st.SliceInside(0);
    }
  }

  // ---------- files put together by hand ----------

  function CraftedHeader(count: U64, offset: U64, indexSize: U64): Header {
    Header(MAGIC_NUMBER, FORMAT_VERSION, count, indexSize, offset, 0, Zeros(CHECKSUM_SIZE))
  }

  /** A header that claims `count` records at `offset`, an index section with the given body, and
      a data section right behind it. */
  function CraftedFile(count: U64, offset: U64, body: seq<Byte>, data: seq<Byte>): (file: File)
    requires HEADER_SIZE + 8 + |body| + |data| <= ISIZE_MAX
    ensures |file| == HEADER_SIZE + 8 + |body| + |data|
    ensures file[HEADER_SIZE..HEADER_SIZE + 8 + |body|] == LeBytes(count) + body
    ensures file[HEADER_SIZE + 8 + |body|..] == data
  {
    var header := CraftedHeader(count, offset, 8 + |body|).Encode();
    var index := LeBytes(count) + body;
    SectionsOf(header, index, data);
    header + (index + data)
  }

  lemma SectionsOf(header: seq<Byte>, index: seq<Byte>, data: seq<Byte>)
    ensures var file := header + (index + data);
            file[|header|..|header| + |index|] == index && file[|header| + |index|..] == data
  {
  }

  lemma CraftedDecodes(count: U64, offset: U64, body: seq<Byte>, data: seq<Byte>)
    requires HEADER_SIZE + 8 + |body| + |data| <= ISIZE_MAX && count <= MAX_RECORDS
    ensures Decode(CraftedFile(count, offset, body, data)) == Done(CraftedHeader(count, offset, 8 + |body|))
  {
    DecodeEncode(CraftedHeader(count, offset, 8 + |body|), LeBytes(count) + body + data);
  }

  lemma CraftedIndex(ph: Ph, count: U64, body: seq<Byte>)
    requires ph.read(body).Some?
    ensures Deserialize(ph, LeBytes(count) + body) == Done(Mphf(ph.read(body).value, count))
  {
    var bytes := LeBytes(count) + body;
    assert bytes[8..] == body && bytes[..8] == LeBytes(count);
    LeRoundTrip(count);
  }

  /** Such a file is accepted when the crate reads the body and the size check, wrapping, passes. */
  lemma OpenCrafted(ph: Ph, count: U64, offset: U64, body: seq<Byte>, data: seq<Byte>)
    requires HEADER_SIZE + 8 + |body| + |data| <= ISIZE_MAX && count <= MAX_RECORDS
    requires ph.read(body).Some?
    requires WrapAdd(offset, WrapMul(count, RECORD_SIZE)) <= HEADER_SIZE + 8 + |body| + |data|
    ensures var file := CraftedFile(count, offset, body, data);
            Open(ph, file) == Done(KvStore(file, Mphf(ph.read(body).value, count), count, offset,
                                           VersionInfo(0, count, |file|)))
  {
    CraftedDecodes(count, offset, body, data);
    CraftedIndex(ph, count, body);
  }

  lemma TopSliceOutside(st: KvStore)
    requires st.recordCount == 1 && st.dataOffset == TWO64 - RECORD_SIZE
    ensures !st.SliceInside(0) && !st.InBounds()
  {
    WrapMulExact(0, RECORD_SIZE);
  }

  /** The wrapped size check does let files through: around every index body that the crate reads,
      in particular around every one it wrote for keys it serves, there is an accepted file without
      a data section that claims one record at the top of the address range. */
  lemma WrappedSizeIsAccepted(ph: Ph, body: seq<Byte>) returns (file: File, st: KvStore)
    requires ph.read(body).Some? && HEADER_SIZE + 8 + |body| <= ISIZE_MAX
    ensures |file| == HEADER_SIZE + 8 + |body|
    ensures Open(ph, file) == Done(st) && st.recordCount == 1
    ensures !st.SliceInside(0) && !st.InBounds()
  {
    WrapMulExact(1, RECORD_SIZE);
    OpenCrafted(ph, 1, TWO64 - RECORD_SIZE, body, []);
    file := CraftedFile(1, TWO64 - RECORD_SIZE, body, []);
    st := Open(ph, file).value;
    TopSliceOutside(st);
  }
}
