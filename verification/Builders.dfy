/** The snapshot builder: collects pairs, then lays the file out in one mapped buffer. */
module Builders {
  import opened Wrappers
  import opened Words
  import opened Seqs
  import opened Records
  import opened Mphfs
  import opened Headers

  /** What the slot of a data section holds after the first `n` pairs have been written in order:
      the last pair sent there, or zeros. */
  function SlotContents(m: Mphf, pairs: seq<Record>, n: nat, slot: nat): (b: seq<Byte>)
    requires n <= |pairs|
    ensures |b| == RECORD_SIZE
  {
    if n == 0 then Zeros(RECORD_SIZE)
    else if m.Get(pairs[n - 1].key) == Some(slot) then pairs[n - 1].AsBytes()
    else SlotContents(m, pairs, n - 1, slot)
  }

  /** A slot holds the last pair sent there: the one with no later pair for the same slot. */
  lemma {:induction false} LastPairStays(m: Mphf, pairs: seq<Record>, n: nat, slot: nat, j: nat)
    requires j < n <= |pairs| && m.Get(pairs[j].key) == Some(slot)
    requires forall k :: j < k < n ==> m.Get(pairs[k].key) != Some(slot)
    ensures SlotContents(m, pairs, n, slot) == pairs[j].AsBytes()
  {
    if j < n - 1 {
      LastPairStays(m, pairs, n - 1, slot, j);
    }
  }

  /** A slot no pair is sent to stays zero. */
  lemma {:induction false} UnusedSlotIsZero(m: Mphf, pairs: seq<Record>, n: nat, slot: nat)
    requires n <= |pairs| && forall k :: 0 <= k < n ==> m.Get(pairs[k].key) != Some(slot)
    ensures SlotContents(m, pairs, n, slot) == Zeros(RECORD_SIZE)
  {
    if n > 0 {
      UnusedSlotIsZero(m, pairs, n - 1, slot);
    }
  }

  /** The index knows every key it was built from; the builder stops the program otherwise. */
  ghost predicate AllHaveSlots(m: Mphf, pairs: seq<Record>) {
    forall i :: 0 <= i < |pairs| ==> m.Get(pairs[i].key).Some?
  }

  /** The header of the finished file. */
  function FinalHeader(pairs: seq<Record>, framed: seq<Byte>, timestamp: U64, checksum: Checksum): Header
    requires |pairs| < TWO64 && |framed| < TWO64
  {
    New(|pairs|, |framed|, timestamp).(checksum := checksum)
  }

  /** The file can be mapped: header, index, padding and records together fit `isize`. */
  predicate Fits(count: nat, framedSize: nat) {
    HEADER_SIZE + framedSize + 4095 + count * RECORD_SIZE <= ISIZE_MAX
  }

  /** Under the format's own record limit, an index of up to 2^62 bytes always fits, and the
      sections tile the file: header, index, less than a page of padding, records. */
  lemma LayoutTiles(count: nat, framedSize: nat, timestamp: U64)
    requires count <= MAX_RECORDS && framedSize <= 0x4000_0000_0000_0000
    ensures Fits(count, framedSize)
    ensures var d := New(count, framedSize, timestamp).dataOffset;
            && d % 4096 == 0
            && HEADER_SIZE + framedSize <= d < HEADER_SIZE + framedSize + 4096
            && WrapAdd(d, WrapMul(count, RECORD_SIZE)) == d + count * RECORD_SIZE
  {
    DataOffsetBounds(count, framedSize, timestamp);
    SizeIsExact(count, New(count, framedSize, timestamp).dataOffset);
  }

  lemma DataOffsetBounds(count: U64, framedSize: nat, timestamp: U64)
    requires HEADER_SIZE + framedSize + 4095 < TWO64
    ensures var d := New(count, framedSize, timestamp).dataOffset;
            d % 4096 == 0 && HEADER_SIZE + framedSize <= d < HEADER_SIZE + framedSize + 4096
  {
  }

  lemma SizeIsExact(count: U64, d: U64)
    requires d + count * RECORD_SIZE < TWO64
    ensures WrapAdd(d, WrapMul(count, RECORD_SIZE)) == d + count * RECORD_SIZE
  {
  }

  /** `file` is the snapshot of `pairs` under the index `m`: every byte is determined. */
  ghost predicate IsSnapshot(file: seq<Byte>, m: Mphf, pairs: seq<Record>, timestamp: U64, sha: Sha256) {
    && m.Framed().Done? && Fits(|pairs|, |m.Framed().value|)
    && var framed := m.Framed().value;
       var d := New(|pairs|, |framed|, timestamp).dataOffset;
       && |file| == d + |pairs| * RECORD_SIZE
       && file[..HEADER_SIZE] == FinalHeader(pairs, framed, timestamp, sha(file[d..])).Encode()
       && file[HEADER_SIZE..d] == framed + Zeros(d - HEADER_SIZE - |framed|)
       && forall s :: 0 <= s < |pairs| ==> Block(file, d, s) == SlotContents(m, pairs, |pairs|, s)
  }

  /** Building non-empty pairs gets as far as writing records: the index can be written and the
      file can be mapped. */
  predicate Writable(m: Mphf, count: nat) {
    m.Framed().Done? && Fits(count, |m.Framed().value|)
  }

  /** How building the pairs ends: which failure, a panic, or a finished file, and nothing else. */
  ghost predicate BuildEnds(r: Outcome<array<Byte>>, ph: Ph, pairs: seq<Record>)
    requires |pairs| < TWO64
  {
    if pairs == [] then r == Failed(InvalidMphf)
    else
      var m := Mphf(ph.fromSlice(Keys(pairs)), |pairs|);
      && (r == Failed(Serialization) <==> m.Framed().Failed?)
      && (r == Failed(Io) <==> m.Framed().Done? && !Fits(|pairs|, |m.Framed().value|))
      && (r.Panicked? <==> Writable(m, |pairs|) && !AllHaveSlots(m, pairs))
      && (r.Done? <==> Writable(m, |pairs|) && AllHaveSlots(m, pairs))
  }

  class SnapshotBuilder {
    var keys: seq<Key>
    var values: seq<Value>

    ghost predicate Valid()
      reads this
    {
      |keys| == |values|
    }

    /** The pairs added, in order. */
    ghost function Pairs(): (ps: seq<Record>)
      requires Valid()
      reads this
      ensures |ps| == |keys| && Keys(ps) == keys
    {
      seq(|keys|, i requires 0 <= i < |keys| && |keys| == |values| reads this => Record(keys[i], values[i]))
    }

    constructor ()
      ensures Valid() && Pairs() == []
    {
      keys, values := [], [];
    }

    method AddRecord(key: Key, value: Value)
      requires Valid()
      modifies this
      ensures Valid() && Pairs() == old(Pairs()) + [Record(key, value)]
    {
      keys := keys + [key];
      values := values + [value];
    }

    method Len() returns (n: nat)
      requires Valid()
      ensures n == |Pairs()|
    {
      n := |keys|;
    }

    method IsEmpty() returns (empty: bool)
      requires Valid()
      ensures empty <==> Pairs() == []
    {
      empty := |keys| == 0;
    }

    /** Builds the snapshot file.  The buffer returned is the mapped output file. */
    method Build(ph: Ph, timestamp: U64, sha: Sha256) returns (r: Outcome<array<Byte>>)
      requires Valid() && |keys| * RECORD_SIZE <= ISIZE_MAX
      ensures BuildEnds(r, ph, Pairs())
      ensures r.Done? ==>
                && fresh(r.value) && Pairs() != []
                && IsSnapshot(r.value[..], Mphf(ph.fromSlice(Keys(Pairs())), |Pairs()|), Pairs(), timestamp, sha)
    {
      var built := Mphfs.Build(ph, keys);
      if built.Failed? {
        return Failed(built.error);
      }
      var serialized := built.value.Serialize();
      if serialized.Failed? {
        return Failed(serialized.error);
      }
      if !Fits(|keys|, |serialized.value|) {
        return Failed(Io);
      }
      r := LayOut(built.value, serialized.value, timestamp, sha);
    }

    /** Fills a zeroed file: index, padding, records, and the header last. */
    method LayOut(m: Mphf, framed: seq<Byte>, timestamp: U64, sha: Sha256) returns (r: Outcome<array<Byte>>)
      requires Valid() && m.keyCount == |keys| && m.Framed() == Done(framed) && Fits(|keys|, |framed|)
      ensures !r.Failed? && (r.Panicked? <==> !AllHaveSlots(m, Pairs()))
      ensures r.Done? ==> fresh(r.value) && IsSnapshot(r.value[..], m, Pairs(), timestamp, sha)
    {
      var header := New(|keys|, |framed|, timestamp);
      var d := header.dataOffset;
      DataOffsetBounds(|keys|, |framed|, timestamp);
      var mmap := PlaceIndex(framed, d, d + |keys| * RECORD_SIZE);
      ghost var front := mmap[..d];
      var complete := WriteRecords(mmap, m, d);
      if !complete {
        return Panicked;
      }
      ghost var unsealed := mmap[..];
      assert unsealed[HEADER_SIZE..d] == front[HEADER_SIZE..];
      Seal(mmap, header, d, sha);
      SealedIsSnapshot(unsealed, m, Pairs(), timestamp, sha);
      r := Done(mmap);
    }

    /** Creates the zeroed file and writes the index and the padding behind it. */
    method PlaceIndex(framed: seq<Byte>, d: nat, size: nat) returns (mmap: array<Byte>)
      requires HEADER_SIZE + |framed| <= d <= size
      ensures fresh(mmap) && mmap.Length == size
      ensures mmap[..d][HEADER_SIZE..] == framed + Zeros(d - HEADER_SIZE - |framed|)
      ensures forall i :: d <= i < size ==> mmap[i] == 0
    {
      mmap := new Byte[size](_ => 0);
      CopyInto(mmap, HEADER_SIZE, framed);
      if HEADER_SIZE + |framed| < d {
        forall i | HEADER_SIZE + |framed| <= i < d {
          mmap[i] := 0;
        }
      }
    }

    /** Computes the checksum of the data section and writes the completed header. */
    method Seal(mmap: array<Byte>, header: Header, d: nat, sha: Sha256)
      requires HEADER_SIZE <= d <= mmap.Length
      modifies mmap
      ensures mmap[..] == Splice(old(mmap[..]), 0, header.(checksum := sha(old(mmap[d..]))).Encode())
    {
      var headerBytes := header.(checksum := sha(mmap[d..])).ToBytes();
      CopyInto(mmap, 0, headerBytes[..]);
    }

    /** Writes the pairs one after the other, each to the slot of its key, and stops at a key
        without a slot. */
    method WriteRecords(mmap: array<Byte>, m: Mphf, d: nat) returns (complete: bool)
      requires Valid() && m.keyCount == |keys| && mmap.Length == d + |keys| * RECORD_SIZE
      requires forall i :: d <= i < mmap.Length ==> mmap[i] == 0
      modifies mmap
      ensures complete <==> AllHaveSlots(m, Pairs())
      ensures mmap[..d] == old(mmap[..d])
      ensures complete ==> forall s :: 0 <= s < |keys| ==>
                Block(mmap[..], d, s) == SlotContents(m, Pairs(), |keys|, s)
    {
      ghost var pairs := Pairs();
      var i := 0;
      while i < |keys|
        invariant 0 <= i <= |keys| && mmap[..d] == old(mmap[..d])
        invariant forall p :: 0 <= p < i ==> m.Get(pairs[p].key).Some?
        invariant forall s :: 0 <= s < |keys| ==> Block(mmap[..], d, s) == SlotContents(m, pairs, i, s)
      {
        var slot := m.Get(keys[i]);
        if slot.None? {
          assert m.Get(pairs[i].key).None?;
          return false;
        }
        WriteRecord(mmap, d, slot.value, i);
        i := i + 1;
      }
      complete := true;
    }

    /** Copies the i-th key and value into a slot. */
    method WriteRecord(mmap: array<Byte>, d: nat, slot: nat, i: nat)
      requires Valid() && i < |keys| && slot < |keys| && mmap.Length == d + |keys| * RECORD_SIZE
      modifies mmap
      ensures mmap[..d] == old(mmap[..d])
      ensures forall s :: 0 <= s < |keys| ==>
                Block(mmap[..], d, s) == if s == slot then Pairs()[i].AsBytes() else old(Block(mmap[..], d, s))
    {
      ghost var before := mmap[..];
      var offset := d + slot * RECORD_SIZE;
      CopyInto(mmap, offset, keys[i]);
      CopyInto(mmap, offset + KEY_SIZE, values[i]);
      SpliceTwice(before, offset, keys[i], values[i]);
      assert mmap[..] == Splice(before, offset, Pairs()[i].AsBytes());
      forall s | 0 <= s < |keys|
        ensures Block(mmap[..], d, s) == if s == slot then Pairs()[i].AsBytes() else Block(before, d, s)
      {
        SpliceBlock(before, d, |keys|, slot, Pairs()[i].AsBytes(), s);
      }
    }
  }

  /** Writing the header last leaves the index, the padding and every record as they were. */
  lemma HeaderLeavesRest(before: seq<Byte>, header: seq<Byte>, d: nat, n: nat)
    requires |header| == HEADER_SIZE <= d && |before| == d + n * RECORD_SIZE
    ensures var after := Splice(before, 0, header);
            && after[..HEADER_SIZE] == header
            && after[HEADER_SIZE..d] == before[HEADER_SIZE..d]
            && after[d..] == before[d..]
            && forall s :: 0 <= s < n ==> Block(after, d, s) == Block(before, d, s)
  {
    var after := Splice(before, 0, header);
    forall s | 0 <= s < n
      ensures Block(after, d, s) == Block(before, d, s)
    {
      BlockOfSuffix(after, d, s);
      BlockOfSuffix(before, d, s);
    }
  }

  /** Sealing a file whose index, padding and records are in place completes the snapshot. */
  lemma SealedIsSnapshot(unsealed: seq<Byte>, m: Mphf, pairs: seq<Record>, timestamp: U64, sha: Sha256)
    requires m.Framed().Done? && Fits(|pairs|, |m.Framed().value|)
    requires var framed := m.Framed().value;
             var d := New(|pairs|, |framed|, timestamp).dataOffset;
             && |unsealed| == d + |pairs| * RECORD_SIZE
             && unsealed[HEADER_SIZE..d] == framed + Zeros(d - HEADER_SIZE - |framed|)
             && forall s :: 0 <= s < |pairs| ==> Block(unsealed, d, s) == SlotContents(m, pairs, |pairs|, s)
    ensures var framed := m.Framed().value;
            var d := New(|pairs|, |framed|, timestamp).dataOffset;
            IsSnapshot(Splice(unsealed, 0, FinalHeader(pairs, framed, timestamp, sha(unsealed[d..])).Encode()),
                       m, pairs, timestamp, sha)
  {
    var framed := m.Framed().value;
    var d := New(|pairs|, |framed|, timestamp).dataOffset;
    DataOffsetBounds(|pairs|, |framed|, timestamp);
    HeaderLeavesRest(unsealed, FinalHeader(pairs, framed, timestamp, sha(unsealed[d..])).Encode(), d, |pairs|);
  }
}
