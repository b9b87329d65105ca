/** Fixed-size records: a 64-byte key followed by a 256-byte value. */
module Records {
  import opened Words
  import opened Seqs

  const KEY_SIZE := 64
  const VALUE_SIZE := 256
  const RECORD_SIZE := 320

  type Key = k: seq<Byte> | |k| == KEY_SIZE witness seq(KEY_SIZE, _ => 0)
  type Value = v: seq<Byte> | |v| == VALUE_SIZE witness seq(VALUE_SIZE, _ => 0)

  datatype Record = Record(key: Key, value: Value) {
    function AsBytes(): (b: seq<Byte>)
      ensures |b| == RECORD_SIZE
    {
      key + value
    }

    predicate KeyEquals(other: Key) {
      key == other
    }
  }

  function FromBytes(b: seq<Byte>): Record
    requires |b| == RECORD_SIZE
  {
    Record(b[..KEY_SIZE], b[KEY_SIZE..])
  }

  /** Reading and writing a record are inverse to each other. */
  lemma RecordRoundTrip(r: Record, b: seq<Byte>)
    requires |b| == RECORD_SIZE
    ensures r.AsBytes()[..KEY_SIZE] == r.key && r.AsBytes()[KEY_SIZE..] == r.value
    ensures FromBytes(r.AsBytes()) == r
    ensures FromBytes(b).AsBytes() == b
  {
    assert r.AsBytes()[..KEY_SIZE] == r.key && r.AsBytes()[KEY_SIZE..] == r.value;
  }

  function Keys(pairs: seq<Record>): (ks: seq<Key>)
    ensures |ks| == |pairs| && forall i :: 0 <= i < |pairs| ==> ks[i] == pairs[i].key
  {
    seq(|pairs|, i requires 0 <= i < |pairs| => pairs[i].key)
  }

  // ---------- 320-byte blocks ----------

  /** The `slot`-th 320-byte block of `b`, counted from `offset`. */
  function Block(b: seq<Byte>, offset: nat, slot: nat): (r: seq<Byte>)
    requires offset + slot * RECORD_SIZE + RECORD_SIZE <= |b|
    ensures |r| == RECORD_SIZE
  {
    b[offset + slot * RECORD_SIZE..offset + slot * RECORD_SIZE + RECORD_SIZE]
  }

  /** Writing one block changes that block only: distinct slots are disjoint ranges. */
  lemma SpliceBlock(b: seq<Byte>, offset: nat, count: nat, slot: nat, src: seq<Byte>, other: nat)
    requires offset + count * RECORD_SIZE <= |b| && slot < count && other < count
    requires |src| == RECORD_SIZE
    ensures Block(Splice(b, offset + slot * RECORD_SIZE, src), offset, other)
            == if other == slot then src else Block(b, offset, other)
  {
    var at := offset + slot * RECORD_SIZE;
    var from := offset + other * RECORD_SIZE;
    var r := Splice(b, at, src);
    if other == slot {
      assert r[at..at + RECORD_SIZE] == src;
    } else {
      assert from + RECORD_SIZE <= at || at + RECORD_SIZE <= from;
      assert r[from..from + RECORD_SIZE] == b[from..from + RECORD_SIZE];
    }
  }

  /** Two sections that agree block by block are equal. */
  lemma EqualBlocks(a: seq<Byte>, b: seq<Byte>, count: nat)
    requires |a| == |b| == count * RECORD_SIZE
    requires forall s :: 0 <= s < count ==> Block(a, 0, s) == Block(b, 0, s)
    ensures a == b
  {
    forall i | 0 <= i < |a|
      ensures a[i] == b[i]
    {
      var s := i / RECORD_SIZE;
      assert Block(a, 0, s)[i - s * RECORD_SIZE] == Block(b, 0, s)[i - s * RECORD_SIZE];
    }
  }

  lemma BlockOfSuffix(b: seq<Byte>, offset: nat, slot: nat)
    requires offset + slot * RECORD_SIZE + RECORD_SIZE <= |b|
    ensures Block(b[offset..], 0, slot) == Block(b, offset, slot)
  {
  }

  /** The records a byte string consists of, any incomplete tail dropped. */
  function BlocksOf(b: seq<Byte>): (rs: seq<Record>)
    ensures |rs| == |b| / RECORD_SIZE
    ensures forall i :: 0 <= i < |rs| ==> rs[i] == FromBytes(Block(b, 0, i))
  {
    seq(|b| / RECORD_SIZE, i requires 0 <= i < |b| / RECORD_SIZE => FromBytes(Block(b, 0, i)))
  }

  /** In the bytes, a record is its key followed by its value. */
  lemma BlockBytes(b: seq<Byte>, offset: nat, slot: nat)
    requires offset + slot * RECORD_SIZE + RECORD_SIZE <= |b|
    ensures var record, at := FromBytes(Block(b, offset, slot)), offset + slot * RECORD_SIZE;
            record.key == b[at..at + KEY_SIZE] && record.value == b[at + KEY_SIZE..at + RECORD_SIZE]
  {
  }

  lemma BlocksOfBytes(b: seq<Byte>, i: nat)
    requires i < |b| / RECORD_SIZE
    ensures BlocksOf(b)[i].key == b[i * RECORD_SIZE..i * RECORD_SIZE + KEY_SIZE]
    ensures BlocksOf(b)[i].value == b[i * RECORD_SIZE + KEY_SIZE..i * RECORD_SIZE + RECORD_SIZE]
  {
    BlockBytes(b, 0, i);
  }
}
