/** The minimal perfect hash index and its framing.

    The `ph` crate is not part of this model.  A hash function is whatever can be observed of
    it: the slot it answers for a key, and the bytes it writes (or none, when writing fails).
    The crate is a pair of arbitrary functions; what the system relies on is `Contract`. */
module Mphfs {
  import opened Wrappers
  import opened Words
  import opened Seqs
  import opened Records

  datatype GOFunction = GOFunction(slotOf: Key -> Option<U64>, image: Option<seq<Byte>>)

  datatype Ph = Ph(fromSlice: seq<Key> -> GOFunction, read: seq<Byte> -> Option<GOFunction>)

  /** Same answer for every key, whether or not the function was built for it. */
  ghost predicate SameSlots(f: GOFunction, g: GOFunction) {
    forall k: Key :: f.slotOf(k) == g.slotOf(k)
  }

  /** On its build keys the function is defined, below their number, and injective. */
  ghost predicate PerfectOn(f: GOFunction, keys: seq<Key>) {
    && (forall i :: 0 <= i < |keys| ==> f.slotOf(keys[i]).Some? && f.slotOf(keys[i]).value < |keys|)
    && (forall i, j :: 0 <= i < j < |keys| ==> f.slotOf(keys[i]) != f.slotOf(keys[j]))
  }

  /** What it writes can be read back. */
  ghost predicate ReadsBack(ph: Ph, f: GOFunction) {
    f.image.Some? ==> ph.read(f.image.value).Some? && SameSlots(ph.read(f.image.value).value, f)
  }

  /** The crate builds a perfect function for these keys, and reads back what it writes. */
  ghost predicate ServesKeys(ph: Ph, keys: seq<Key>) {
    PerfectOn(ph.fromSlice(keys), keys) && ReadsBack(ph, ph.fromSlice(keys))
  }

  /** The assumption about the crate: it serves every non-empty list of different keys.  Nothing is
      said of duplicate keys or of unknown keys. */
  ghost predicate Contract(ph: Ph) {
    forall keys: seq<Key> :: 0 < |keys| < TWO64 && Distinct(keys) ==> ServesKeys(ph, keys)
  }

  datatype Mphf = Mphf(hash: GOFunction, keyCount: U64) {
    /** The range filter: a slot outside [0, keyCount) is reported as absent. */
    function Get(key: Key): (slot: Option<U64>)
      ensures slot.Some? ==> slot.value < keyCount && slot == hash.slotOf(key)
      ensures slot.None? ==> hash.slotOf(key).None? || hash.slotOf(key).value >= keyCount
    {
      match hash.slotOf(key)
      case None => None
      case Some(s) => if s < keyCount then Some(s) else None
    }

    /** The framed bytes: the key count, then the function's own bytes. */
    function Framed(): Outcome<seq<Byte>> {
      match hash.image
      case None => Failed(Serialization)
      case Some(body) => Done(LeBytes(keyCount) + body)
    }

    method Serialize() returns (r: Outcome<seq<Byte>>)
      ensures r == Framed()
    {
      var buf: seq<Byte> := [];
      buf := buf + LeBytes(keyCount);
      if hash.image.None? {
        return Failed(Serialization);
      }
      buf := buf + hash.image.value;
      assert buf == LeBytes(keyCount) + hash.image.value;
      return Done(buf);
    }
  }

  function Build(ph: Ph, keys: seq<Key>): Outcome<Mphf>
    requires |keys| < TWO64
  {
    if |keys| == 0 then Failed(InvalidMphf)
    else Done(Mphf(ph.fromSlice(keys), |keys|))
  }

  function Deserialize(ph: Ph, bytes: seq<Byte>): Outcome<Mphf> {
    if |bytes| < 8 then Failed(InvalidMphf)
    else
      match ph.read(bytes[8..])
      case None => Failed(Serialization)
      case Some(f) => Done(Mphf(f, LeValue(bytes[..8])))
  }

  /** Reading back a framed index keeps the count and the answer for every key, known or not. */
  lemma DeserializeFramed(ph: Ph, m: Mphf)
    requires ReadsBack(ph, m.hash) && m.Framed().Done?
    ensures var r := Deserialize(ph, m.Framed().value);
            && r.Done? && r.value.keyCount == m.keyCount
            && forall k: Key :: r.value.Get(k) == m.Get(k)
  {
    var bytes := m.Framed().value;
    assert bytes[8..] == m.hash.image.value;
    assert bytes[..8] == LeBytes(m.keyCount);
    LeRoundTrip(m.keyCount);
    var f := ph.read(bytes[8..]).value;
    assert SameSlots(f, m.hash);
  }

  /** Under the contract, every list of pairs with different keys that fits a word is served; and
      keys that are served are different. */
  lemma ContractServes(ph: Ph, pairs: seq<Record>)
    requires Contract(ph) && 0 < |pairs| < TWO64
    ensures ServesKeys(ph, Keys(pairs)) <==> Distinct(Keys(pairs))
  {
    if ServesKeys(ph, Keys(pairs)) {
      var place := PerfectSlots(Mphf(ph.fromSlice(Keys(pairs)), |pairs|), Keys(pairs));
    }
  }

  /** A perfect function has pairwise different keys, and its slots are all of [0, n). */
  lemma PerfectSlots(m: Mphf, keys: seq<Key>) returns (place: seq<int>)
    requires m.keyCount == |keys| && PerfectOn(m.hash, keys)
    ensures Distinct(keys)
    ensures |place| == |keys| && Distinct(place)
    ensures forall j :: 0 <= j < |keys| ==> 0 <= place[j] < |keys| && m.Get(keys[j]) == Some(place[j])
    ensures forall s :: 0 <= s < |keys| ==> s in place
  {
    place := seq(|keys|, j requires 0 <= j < |keys| => m.hash.slotOf(keys[j]).value);
    forall i, j | 0 <= i < j < |keys|
      ensures place[i] != place[j] && keys[i] != keys[j]
    {
      assert m.hash.slotOf(keys[i]) != m.hash.slotOf(keys[j]);
    }
    Pigeonhole(place, |keys|);
  }
}

/** An explicit key table is a crate that meets the contract, so the contract is satisfiable. */
module KeyTables {
  import opened Wrappers
  import opened Words
  import opened Seqs
  import opened Records
  import opened Mphfs

  /** The position of a key; an unknown key is sent to an arbitrary number. */
  function SlotIn(keys: seq<Key>, key: Key): Option<U64> {
    var i := Find(keys, key);
    if i < |keys| && i < TWO64 then Some(i) else Some(key[0] as int * 256)
  }

  function Find(keys: seq<Key>, key: Key): (i: nat)
    ensures i <= |keys|
    ensures i < |keys| ==> keys[i] == key
    ensures forall j :: 0 <= j < i ==> keys[j] != key
  {
    if keys == [] then 0 else if keys[0] == key then 0 else 1 + Find(keys[1..], key)
  }

  function WriteKeys(keys: seq<Key>): (b: seq<Byte>)
    ensures |b| == KEY_SIZE * |keys|
  {
    if keys == [] then [] else keys[0] + WriteKeys(keys[1..])
  }

  function ReadKeys(b: seq<Byte>): seq<Key> {
    if |b| < KEY_SIZE then [] else [b[..KEY_SIZE]] + ReadKeys(b[KEY_SIZE..])
  }

  lemma {:induction false} ReadWrite(keys: seq<Key>)
    ensures ReadKeys(WriteKeys(keys)) == keys
  {
    if keys != [] {
      var b := WriteKeys(keys);
      assert b[..KEY_SIZE] == keys[0] && b[KEY_SIZE..] == WriteKeys(keys[1..]);
      ReadWrite(keys[1..]);
    }
  }

  function TableFunction(keys: seq<Key>): GOFunction {
    GOFunction((k: Key) => SlotIn(keys, k), Some(WriteKeys(keys)))
  }

  function TablePh(): Ph {
    Ph((keys: seq<Key>) => TableFunction(keys),
       (b: seq<Byte>) => if |b| % KEY_SIZE == 0 then Some(TableFunction(ReadKeys(b))) else None)
  }

  lemma TableIsPerfect(keys: seq<Key>)
    requires 0 < |keys| < TWO64 && Distinct(keys)
    ensures PerfectOn(TableFunction(keys), keys)
  {
    forall i | 0 <= i < |keys|
      ensures SlotIn(keys, keys[i]) == Some(i)
    {
      var j := Find(keys, keys[i]);
      assert j <= i;
      assert keys[j] == keys[i];
    }
  }

  lemma TableReadsBack(keys: seq<Key>)
    ensures ReadsBack(TablePh(), TableFunction(keys))
  {
    ReadWrite(keys);
    assert TablePh().read(WriteKeys(keys)) == Some(TableFunction(keys));
  }

  lemma TableMeetsContract()
    ensures Contract(TablePh())
  {
    forall keys: seq<Key> | 0 < |keys| < TWO64 && Distinct(keys)
      ensures ServesKeys(TablePh(), keys)
    {
      TableIsPerfect(keys);
      TableReadsBack(keys);
    }
  }
}
