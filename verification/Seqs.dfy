/** Facts about sequences: distinctness, counting, permutations and byte blocks. */
module Seqs {
  import opened Words

  function Zeros(n: nat): (z: seq<Byte>)
    ensures |z| == n && forall i :: 0 <= i < n ==> z[i] == 0
  {
    seq(n, _ => 0)
  }

  ghost predicate Distinct<T(!new)>(s: seq<T>) {
    forall i, j :: 0 <= i < j < |s| ==> s[i] != s[j]
  }

  ghost function Elements<T(!new)>(s: seq<T>): (e: set<T>)
    ensures forall x :: x in e <==> x in s
  {
    set x | x in s
  }

  lemma {:induction false} DistinctCardinality<T(!new)>(s: seq<T>)
    requires Distinct(s)
    ensures |Elements(s)| == |s|
  {
    if s != [] {
      var rest := s[..|s| - 1];
      DistinctCardinality(rest);
      assert s == rest + [s[|s| - 1]];
      assert s[|s| - 1] !in rest;
      assert Elements(s) == Elements(rest) + {s[|s| - 1]};
    }
  }

  function UpTo(n: nat): (s: set<int>)
    ensures forall i :: i in s <==> 0 <= i < n
    ensures |s| == n
  {
    if n == 0 then {} else UpTo(n - 1) + {n - 1}
  }

  /** Pigeonhole: n distinct numbers below n hit every number below n. */
  lemma Pigeonhole(p: seq<int>, n: nat)
    requires Distinct(p) && |p| == n
    requires forall i :: 0 <= i < n ==> 0 <= p[i] < n
    ensures forall x :: 0 <= x < n ==> x in p
  {
    DistinctCardinality(p);
    assert Elements(p) <= UpTo(n);
    SubsetOfSameSize(Elements(p), UpTo(n));
  }

  lemma SubsetOfSameSize<T>(a: set<T>, b: set<T>)
    requires a <= b && |a| == |b|
    ensures a == b
  {
    assert |b - a| == 0;
  }

  /** Moving the elements of `a` through an injection onto the positions of `b` preserves multiplicities. */
  lemma {:induction false} PlacementIsPermutation<T>(a: seq<T>, b: seq<T>, place: seq<int>)
    requires |a| == |b| == |place| && Distinct(place)
    requires forall j :: 0 <= j < |a| ==> 0 <= place[j] < |b| && b[place[j]] == a[j]
    ensures multiset(a) == multiset(b)
  {
    if a != [] {
      var n := |a| - 1;
      var hole := place[n];
      var a', b' := a[..n], b[..hole] + b[hole + 1..];
      var place' := seq(n, j requires 0 <= j < n => if place[j] > hole then place[j] - 1 else place[j]);
      forall i, j | 0 <= i < j < n
        ensures place'[i] != place'[j]
      {
        assert place[i] != place[j] && place[i] != place[n] && place[j] != place[n];
      }
      PlacementIsPermutation(a', b', place');
      assert a == a' + [a[n]];
      assert b == b[..hole] + [b[hole]] + b[hole + 1..];
      assert multiset(b) == multiset(b') + multiset{b[hole]};
    }
  }

  lemma SomeElement<T>(s: set<T>) returns (x: T)
    requires |s| > 0
    ensures x in s
  {
    x :| x in s;
  }

  lemma IndexOf<T>(s: seq<T>, x: T) returns (i: nat)
    requires x in s
    ensures i < |s| && s[i] == x
  {
    i :| 0 <= i < |s| && s[i] == x;
  }

  /** In a duplicate-free sequence every element occurs once. */
  lemma {:induction false} DistinctMultiplicity<T(!new)>(s: seq<T>, x: T)
    requires Distinct(s) && x in s
    ensures multiset(s)[x] == 1
  {
    var last := s[|s| - 1];
    var rest := s[..|s| - 1];
    assert s == rest + [last];
    if x in rest {
      DistinctMultiplicity(rest, x);
    }
  }

  /** Two occurrences count twice. */
  lemma TwoOccurrences<T>(s: seq<T>, i: nat, j: nat)
    requires i < j < |s| && s[i] == s[j]
    ensures multiset(s)[s[i]] >= 2
  {
    assert s == s[..j] + [s[j]] + s[j + 1..];
    assert s[i] in s[..j];
  }

  /** How many of the first `n` flags are set. */
  function CountTrue(flags: seq<bool>, n: nat): (count: nat)
    requires n <= |flags|
    ensures count <= n
  {
    if n == 0 then 0 else CountTrue(flags, n - 1) + if flags[n - 1] then 1 else 0
  }

  lemma {:induction false} CountTrueIsSize(flags: seq<bool>, n: nat)
    requires n <= |flags|
    ensures CountTrue(flags, n) == |set i | 0 <= i < n && flags[i]|
    ensures CountTrue(flags, n) == n <==> forall i :: 0 <= i < n ==> flags[i]
  {
    if n > 0 {
      var k := n - 1;
      CountTrueIsSize(flags, k);
      assert (set i | 0 <= i < n && flags[i]) == (set i | 0 <= i < k && flags[i]) + if flags[k] then {k} else {};
    }
  }

  // ---------- writing into buffers ----------

  /** `copy_from_slice`: `b` with `src` written at `at`. */
  function Splice(b: seq<Byte>, at: nat, src: seq<Byte>): (r: seq<Byte>)
    requires at + |src| <= |b|
    ensures |r| == |b|
  {
    b[..at] + src + b[at + |src|..]
  }

  /** Writing a key and then a value next to it writes the record. */
  lemma SpliceTwice(b: seq<Byte>, at: nat, first: seq<Byte>, second: seq<Byte>)
    requires at + |first| + |second| <= |b|
    ensures Splice(Splice(b, at, first), at + |first|, second) == Splice(b, at, first + second)
  {
  }

  /** Writing a field into the zeros behind a prefix extends the prefix. */
  lemma SpliceIntoZeros(prefix: seq<Byte>, zeros: nat, field: seq<Byte>)
    requires |field| <= zeros
    ensures Splice(prefix + Zeros(zeros), |prefix|, field) == prefix + field + Zeros(zeros - |field|)
  {
  }

  /** `dst[at..at + src.len()].copy_from_slice(src)`. */
  method CopyInto(dst: array<Byte>, at: nat, src: seq<Byte>)
    requires at + |src| <= dst.Length
    modifies dst
    ensures dst[..] == Splice(old(dst[..]), at, src)
  {
    forall i | 0 <= i < |src| {
      dst[at + i] := src[i];
    }
    assert forall i :: 0 <= i < dst.Length ==>
      dst[..][i] == Splice(old(dst[..]), at, src)[i];
  }
}
