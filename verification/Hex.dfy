/** Lower-case hex text, as the validator reads and prints it. */
module Hex {
  import opened Wrappers
  import opened Words

  function Digit(n: nat): (c: char)
    requires n < 16
    ensures DigitValue(c) == Some(n)
    ensures LowerChar(c) == c && c != '+'
  {
    if n < 10 then ('0' as int + n) as char else ('a' as int + n - 10) as char
  }

  function DigitValue(c: char): (n: Option<nat>)
    ensures n.Some? ==> n.value < 16
  {
    if '0' <= c <= '9' then Some(c as int - '0' as int)
    else if 'a' <= c <= 'f' then Some(c as int - 'a' as int + 10)
    else if 'A' <= c <= 'F' then Some(c as int - 'A' as int + 10)
    else None
  }

  /** The sixteen digits, in either case. */
  lemma DigitTable(c: char, n: nat)
    requires n < 16
    ensures DigitValue(c) == Some(n) <==> c == "0123456789abcdef"[n] || c == "0123456789ABCDEF"[n]
    ensures Digit(n) == "0123456789abcdef"[n]
  {
  }

  function LowerChar(c: char): char {
    if 'A' <= c <= 'Z' then (c as int + 32) as char else c
  }

  function Lower(s: string): (t: string)
    ensures |t| == |s|
  {
    if s == "" then "" else [LowerChar(s[0])] + Lower(s[1..])
  }

  function Encode(b: seq<Byte>): (s: string)
    ensures |s| == 2 * |b|
  {
    if b == [] then "" else [Digit(b[0] / 16), Digit(b[0] % 16)] + Encode(b[1..])
  }

  /** `u8::from_str_radix(pair, 16)`: two digits, or one digit after an optional plus sign. */
  function ParsePair(hi: char, lo: char): (b: Option<Byte>) {
    match (DigitValue(hi), DigitValue(lo))
    case (Some(h), Some(l)) => Some(16 * h + l)
    case (None, Some(l)) => if hi == '+' then Some(l) else None
    case (_, None) => None
  }

  /** The characters a digit can be. */
  predicate IsHexDigit(c: char) {
    '0' <= c <= '9' || 'a' <= c <= 'f' || 'A' <= c <= 'F'
  }

  /** Reads the text pair by pair from the left.  The first bad pair is an error; a lone last
      character is a slice past the end, reached only when every pair before it was good. */
  function Decode(s: string): Outcome<seq<Byte>> {
    if s == "" then Done([])
    else if |s| == 1 then Panicked
    else
      match ParsePair(s[0], s[1])
      case None => Failed(InvalidHex)
      case Some(b) => var rest :- Decode(s[2..]); Done([b] + rest)
  }

  lemma {:induction false} DecodeEncode(b: seq<Byte>)
    ensures Decode(Encode(b)) == Done(b)
  {
    if b != [] {
      var s := Encode(b);
      assert s[2..] == Encode(b[1..]);
      DecodeEncode(b[1..]);
      assert b == [b[0]] + b[1..];
    }
  }

  /** Byte `i` is written as its two lower-case digits, the high one first. */
  lemma {:induction false} EncodeDigits(b: seq<Byte>, i: nat)
    requires i < |b|
    ensures Encode(b)[2 * i] == "0123456789abcdef"[b[i] / 16]
    ensures Encode(b)[2 * i + 1] == "0123456789abcdef"[b[i] % 16]
  {
    if i == 0 {
      DigitTable('0', b[0] / 16);
      DigitTable('0', b[0] % 16);
    } else {
      EncodeDigits(b[1..], i - 1);
      assert Encode(b)[2 * i] == Encode(b[1..])[2 * (i - 1)];
      assert Encode(b)[2 * i + 1] == Encode(b[1..])[2 * (i - 1) + 1];
    }
  }

  /** In every pair of characters the second is a digit and the first is a digit or a plus sign. */
  predicate PairsParse(s: string) {
    forall i :: 0 <= i < |s| / 2 ==> (IsHexDigit(s[2 * i]) || s[2 * i] == '+') && IsHexDigit(s[2 * i + 1])
  }

  lemma PairParses(hi: char, lo: char)
    ensures ParsePair(hi, lo).Some? <==> (IsHexDigit(hi) || hi == '+') && IsHexDigit(lo)
  {
  }

  lemma {:induction false} PairsParseStep(s: string)
    requires |s| >= 2
    ensures PairsParse(s) <==> ParsePair(s[0], s[1]).Some? && PairsParse(s[2..])
  {
    var t := s[2..];
    PairParses(s[0], s[1]);
    if PairsParse(s) {
      assert (IsHexDigit(s[2 * 0]) || s[2 * 0] == '+') && IsHexDigit(s[2 * 0 + 1]);
      forall i | 0 <= i < |t| / 2
        ensures (IsHexDigit(t[2 * i]) || t[2 * i] == '+') && IsHexDigit(t[2 * i + 1])
      {
        assert t[2 * i] == s[2 * (i + 1)] && t[2 * i + 1] == s[2 * (i + 1) + 1];
      }
    }
    if ParsePair(s[0], s[1]).Some? && PairsParse(t) {
      forall i | 0 <= i < |s| / 2
        ensures (IsHexDigit(s[2 * i]) || s[2 * i] == '+') && IsHexDigit(s[2 * i + 1])
      {
        if i > 0 {
          var j := i - 1;
          assert s[2 * i] == t[2 * j] && s[2 * i + 1] == t[2 * j + 1];
        }
      }
    }
  }

  /** Exactly which texts are accepted, which are errors, and which stop the program. */
  lemma {:induction false} DecodeOutcome(s: string)
    ensures Decode(s).Done? <==> |s| % 2 == 0 && PairsParse(s)
    ensures Decode(s).Panicked? <==> |s| % 2 == 1 && PairsParse(s)
    ensures Decode(s).Failed? ==> Decode(s) == Failed(InvalidHex)
  {
    if |s| >= 2 {
      PairsParseStep(s);
      DecodeOutcome(s[2..]);
    }
  }

  /** Re-encoding accepted text gives its lower-case form exactly when it contains no plus sign:
      "+5" is accepted and reads as 05. */
  lemma {:induction false} EncodeDecode(s: string)
    requires Decode(s).Done?
    ensures Encode(Decode(s).value) == Lower(s) <==> '+' !in s
  {
    if s != "" {
      var t := s[2..];
      EncodeDecode(t);
      var b := ParsePair(s[0], s[1]).value;
      var rest := Decode(t).value;
      assert ([b] + rest)[1..] == rest;
      PairText(s[0], s[1]);
      LowerPair(s);
      SplitEqual([Digit(b / 16), Digit(b % 16)], Encode(rest), [LowerChar(s[0]), LowerChar(s[1])], Lower(t));
      assert s == [s[0], s[1]] + t;
    }
  }

  /** The text "+5" shows that re-encoding is not always lower-casing. */
  lemma PlusIsAccepted()
    ensures Decode("+5") == Done([5]) && Encode([5]) != Lower("+5")
  {
    var s := "+5";
    assert s[2..] == "" && ParsePair(s[0], s[1]) == Some(5);
    var b: seq<Byte> := [5];
    assert b + [] == b;
    assert Decode(s) == Done(b);
    assert s[0] in s;
    EncodeDecode(s);
  }

  /** Which byte two characters read as: its two digits, or its only digit after a plus sign. */
  lemma PairMeaning(hi: char, lo: char, b: Byte)
    ensures ParsePair(hi, lo) == Some(b) <==>
            && DigitValue(lo) == Some(b % 16)
            && (DigitValue(hi) == Some(b / 16) || (hi == '+' && b < 16))
  {
  }

  /** Byte `i` of accepted text is read from its i-th pair of characters. */
  lemma {:induction false} DecodeBytes(s: string, i: nat)
    requires Decode(s).Done? && i < |s| / 2
    ensures |Decode(s).value| == |s| / 2 && ParsePair(s[2 * i], s[2 * i + 1]) == Some(Decode(s).value[i])
  {
    var b, rest := ParsePair(s[0], s[1]).value, Decode(s[2..]).value;
    assert Decode(s).value == [b] + rest;
    if i > 0 {
      DecodeBytes(s[2..], i - 1);
      assert s[2..][2 * (i - 1)] == s[2 * i] && s[2..][2 * (i - 1) + 1] == s[2 * i + 1];
    } else if |s| >= 4 {
      DecodeBytes(s[2..], 0);
    }
  }

  /** Even-length text of hex digits in either case is always accepted, and re-encoding
      lower-cases it. */
  lemma DigitsRoundTrip(s: string)
    requires |s| % 2 == 0
    requires forall i :: 0 <= i < |s| ==> '0' <= s[i] <= '9' || 'a' <= s[i] <= 'f' || 'A' <= s[i] <= 'F'
    ensures Decode(s).Done? && Encode(Decode(s).value) == Lower(s)
  {
    DecodeOutcome(s);
    EncodeDecode(s);
  }

  lemma LowerPair(s: string)
    requires |s| >= 2
    ensures Lower(s) == [LowerChar(s[0]), LowerChar(s[1])] + Lower(s[2..])
  {
    assert s[1..][1..] == s[2..];
  }

  lemma PairText(hi: char, lo: char)
    requires ParsePair(hi, lo).Some?
    ensures lo != '+'
    ensures var b := ParsePair(hi, lo).value;
            (Digit(b / 16) == LowerChar(hi) && Digit(b % 16) == LowerChar(lo)) <==> hi != '+'
  {
    var b := ParsePair(hi, lo).value;
    if hi != '+' {
      assert b / 16 == DigitValue(hi).value && b % 16 == DigitValue(lo).value;
    }
  }

  lemma SplitEqual(a: string, b: string, c: string, d: string)
    requires |a| == |c|
    ensures a + b == c + d <==> a == c && b == d
  {
    if a + b == c + d {
      assert a == (a + b)[..|a|] && c == (c + d)[..|a|];
      assert b == (a + b)[|a|..] && d == (c + d)[|a|..];
    }
  }
}
