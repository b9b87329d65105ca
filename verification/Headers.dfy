/** The 4096-byte snapshot header. */
module Headers {
  import opened Wrappers
  import opened Words
  import opened Seqs
  import Hex

  const HEADER_SIZE := 4096
  const CHECKSUM_OFFSET := 64
  const CHECKSUM_SIZE := 32
  const FORMAT_VERSION: U64 := 1
  const MAGIC_NUMBER: U64 := 0x4B56_5353_3130_3030
  const MAX_RECORDS: U64 := 10_000_000_000

  type Checksum = c: seq<Byte> | |c| == CHECKSUM_SIZE witness seq(CHECKSUM_SIZE, _ => 0)

  /** SHA-256 (section 6.2 of FIPS 180-4), as some function from bytes to 32 bytes. */
  type Sha256 = seq<Byte> -> Checksum

  datatype Header = Header(
    magic: U64,
    version: U64,
    recordCount: U64,
    mphfSize: U64,
    dataOffset: U64,
    buildTimestamp: U64,
    checksum: Checksum
  ) {
    function Validate(): Outcome<()> {
      if magic != MAGIC_NUMBER then Failed(InvalidMagic(MAGIC_NUMBER, magic))
      else if version != FORMAT_VERSION then Failed(UnsupportedVersion(version))
      else if recordCount > MAX_RECORDS then Failed(TooManyRecords(recordCount, MAX_RECORDS))
      else Done(())
    }

    /** The six leading integers. */
    function Fields(): (b: seq<Byte>)
      ensures |b| == 48
    {
      LeBytes(magic) + LeBytes(version) + LeBytes(recordCount) + LeBytes(mphfSize)
      + LeBytes(dataOffset) + LeBytes(buildTimestamp)
    }

    /** The bytes of the header, as laid out in the format. */
    function Encode(): (b: seq<Byte>)
      ensures |b| == HEADER_SIZE
    {
      Fields() + Zeros(16) + checksum + Zeros(4000)
    }

    /** Fills a zeroed array field by field. */
    method ToBytes() returns (bytes: array<Byte>)
      ensures fresh(bytes) && bytes[..] == Encode()
    {
      bytes := new Byte[HEADER_SIZE](_ => 0);
      ghost var written: seq<Byte> := [];
      assert bytes[..] == written + Zeros(4096);
      written := PutField(bytes, 0, written, LeBytes(magic));
      written := PutField(bytes, 8, written, LeBytes(version));
      written := PutField(bytes, 16, written, LeBytes(recordCount));
      written := PutField(bytes, 24, written, LeBytes(mphfSize));
      written := PutField(bytes, 32, written, LeBytes(dataOffset));
      written := PutField(bytes, 40, written, LeBytes(buildTimestamp));
      written := written + Zeros(16);
      assert bytes[..] == written + Zeros(4032);
      written := PutField(bytes, CHECKSUM_OFFSET, written, checksum);
    }

    function VerifyChecksum(sha: Sha256, data: seq<Byte>): Outcome<()> {
      if sha(data) != checksum then Failed(ChecksumMismatch(Hex.Encode(checksum), Hex.Encode(sha(data))))
      else Done(())
    }
  }

  /** Writes the next field behind the ones already written into a zeroed array. */
  method PutField(bytes: array<Byte>, at: nat, ghost written: seq<Byte>, field: seq<Byte>)
    returns (ghost now: seq<Byte>)
    requires at == |written|
    requires |written| + |field| <= bytes.Length
    requires bytes[..] == written + Zeros(bytes.Length - |written|)
    modifies bytes
    ensures now == written + field
    ensures bytes[..] == now + Zeros(bytes.Length - |now|)
  {
    SpliceIntoZeros(written, bytes.Length - |written|, field);
    CopyInto(bytes, at, field);
    now := written + field;
  }

  lemma RoundedUp(value: U64)
    ensures var r := 4096 * (WrapAdd(value, 4095) / 4096);
            && r % 4096 == 0
            && (value + 4095 < TWO64 ==> value <= r < value + 4096)
            && (value + 4095 >= TWO64 ==> r == 0)
  {
  }

  /** `(value + 4095) & !4095` on 64-bit words: the least multiple of 4096 that is at least
      `value`, or 0 for exactly the values whose sum with 4095 wraps. */
  function AlignTo4k(value: U64): (r: U64)
    ensures r % 4096 == 0
    ensures value + 4095 < TWO64 ==> value <= r < value + 4096
    ensures value + 4095 >= TWO64 ==> r == 0
  {
    var sum := WrapAdd(value, 4095);
    MaskLow12(sum);
    RoundedUp(value);
    AndNot(64, sum, 4095)
  }

  function New(recordCount: U64, mphfSize: U64, buildTimestamp: U64): Header {
    var mphfEnd := WrapAdd(HEADER_SIZE, mphfSize);
    Header(MAGIC_NUMBER, FORMAT_VERSION, recordCount, mphfSize, AlignTo4k(mphfEnd), buildTimestamp,
           Zeros(CHECKSUM_SIZE))
  }

  // ---------- parsing ----------

  function Decode(bytes: seq<Byte>): Outcome<Header> {
    if |bytes| < HEADER_SIZE then Failed(FileTooSmall(|bytes|, HEADER_SIZE))
    else
      var header := Header(
        LeValue(bytes[0..8]), LeValue(bytes[8..16]), LeValue(bytes[16..24]), LeValue(bytes[24..32]),
        LeValue(bytes[32..40]), LeValue(bytes[40..48]),
        bytes[CHECKSUM_OFFSET..CHECKSUM_OFFSET + CHECKSUM_SIZE]);
      var _ :- header.Validate();
      Done(header)
  }

  /** Which bytes are rejected, with which error: too short, then the magic number, then the version,
      then the record count; and the fields that parsing gives otherwise. */
  lemma DecodeOutcome(b: seq<Byte>)
    ensures |b| < 4096 ==> Decode(b) == Failed(FileTooSmall(|b|, 4096))
    ensures |b| >= 4096 ==>
              var magic, version, count := LeValue(b[0..8]), LeValue(b[8..16]), LeValue(b[16..24]);
              && (magic != 0x4B56_5353_3130_3030 ==>
                  Decode(b).Failed? && Decode(b).error.InvalidMagic?
                  && Decode(b).error.expected == 0x4B56_5353_3130_3030 && Decode(b).error.actual == magic)
              && (magic == MAGIC_NUMBER && version != 1 ==> Decode(b) == Failed(UnsupportedVersion(version)))
              && (magic == MAGIC_NUMBER && version == 1 && count > 10_000_000_000 ==>
                  Decode(b).Failed? && Decode(b).error.TooManyRecords?
                  && Decode(b).error.count == count && Decode(b).error.max == 10_000_000_000)
              && (magic == MAGIC_NUMBER && version == 1 && count <= 10_000_000_000 ==>
                  Decode(b).Done?
                  && var h := Decode(b).value;
                     && h.recordCount == count && h.mphfSize == LeValue(b[24..32])
                     && h.dataOffset == LeValue(b[32..40]) && h.buildTimestamp == LeValue(b[40..48])
                     && h.checksum == b[64..96])
  {
  }

  lemma EncodeSegments(h: Header)
    ensures var b := h.Encode();
            && b[0..8] == LeBytes(h.magic) && b[8..16] == LeBytes(h.version)
            && b[16..24] == LeBytes(h.recordCount) && b[24..32] == LeBytes(h.mphfSize)
            && b[32..40] == LeBytes(h.dataOffset) && b[40..48] == LeBytes(h.buildTimestamp)
            && b[64..96] == h.checksum
  {
    var b, f := h.Encode(), h.Fields();
    assert b[..48] == f;
    assert b[0..8] == f[0..8] && b[8..16] == f[8..16] && b[16..24] == f[16..24];
    assert b[24..32] == f[24..32] && b[32..40] == f[32..40] && b[40..48] == f[40..48];
  }

  /** Parsing what was written, with anything appended, gives back the header, or exactly the
      error of validation. */
  lemma DecodeEncode(h: Header, rest: seq<Byte>)
    ensures Decode(h.Encode() + rest) ==
            match h.Validate() { case Done(_) => Done(h) case Failed(e) => Failed(e) case Panicked => Panicked }
  {
    var b := h.Encode();
    var file := b + rest;
    EncodeSegments(h);
    assert file[0..8] == b[0..8] && file[8..16] == b[8..16] && file[16..24] == b[16..24];
    assert file[24..32] == b[24..32] && file[32..40] == b[32..40] && file[40..48] == b[40..48];
    assert file[64..96] == b[64..96];
    LeRoundTrip(h.magic);
    LeRoundTrip(h.version);
    LeRoundTrip(h.recordCount);
    LeRoundTrip(h.mphfSize);
    LeRoundTrip(h.dataOffset);
    LeRoundTrip(h.buildTimestamp);
  }

  lemma SixSlices(b: seq<Byte>)
    requires |b| >= 48
    ensures b[0..8] + b[8..16] + b[16..24] + b[24..32] + b[32..40] + b[40..48] == b[..48]
  {
    assert b[0..8] + b[8..16] == b[0..16];
    assert b[0..16] + b[16..24] == b[0..24];
    assert b[0..24] + b[24..32] == b[0..32];
    assert b[0..32] + b[32..40] == b[0..40];
  }

  /** Writing what was parsed keeps the fields' bytes and zeroes the reserved ones. */
  lemma EncodeDecode(bytes: seq<Byte>)
    requires Decode(bytes).Done?
    ensures Decode(bytes).value.Encode() == bytes[..48] + Zeros(16) + bytes[64..96] + Zeros(4000)
  {
    var h := Decode(bytes).value;
    assert h.Fields() == bytes[..48] by {
      LeInverse(bytes[0..8]);
      LeInverse(bytes[8..16]);
      LeInverse(bytes[16..24]);
      LeInverse(bytes[24..32]);
      LeInverse(bytes[32..40]);
      LeInverse(bytes[40..48]);
      SixSlices(bytes);
    }
  }
}
