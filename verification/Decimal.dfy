/** Decimal text of integers, as printed and as parsed. */
module Decimal {
  import opened Machine

  const ZERO: byte := 48
  const PLUS: byte := 43
  const MINUS: byte := 45

  predicate IsDigit(b: byte) { 48 <= b <= 57 }

  predicate AllDigits(s: bytes) {
    forall i :: 0 <= i < |s| ==> IsDigit(s[i])
  }

  /** The number a digit string denotes. */
  function Magnitude(s: bytes): (n: nat)
    requires AllDigits(s)
  {
    if s == [] then 0 else 10 * Magnitude(s[..|s| - 1]) + (s[|s| - 1] - 48)
  }

  function PrintNat(n: nat): (s: bytes)
    ensures s != [] && AllDigits(s)
  {
    if n < 10 then [48 + n] else PrintNat(n / 10) + [48 + n % 10]
  }

  /** `to_string` of an integer. */
  function Print(n: int): (s: bytes)
    ensures s != []
  {
    if n < 0 then [MINUS] + PrintNat(-n) else PrintNat(n)
  }

  function Signed(negative: bool, magnitude: nat): Option<int> {
    var n: int := if negative then 0 - magnitude else magnitude;
    if I64_MIN <= n <= I64_MAX then Some(n) else None
  }

  /** `str::parse::<i64>`: an optional sign, then at least one digit, in range. */
  function ParseI64(s: bytes): Option<int> {
    var negative := s != [] && s[0] == MINUS;
    var digits := if negative || (s != [] && s[0] == PLUS) then s[1..] else s;
    if digits == [] || !AllDigits(digits) then None else Signed(negative, Magnitude(digits))
  }

  /** `str::parse::<u64>`: as above, but a minus sign is never accepted. */
  function ParseU64(s: bytes): (r: Option<nat>)
    ensures r.Some? ==> r.value < U64_LIMIT
  {
    var digits := if s != [] && s[0] == PLUS then s[1..] else s;
    if digits == [] || !AllDigits(digits) || Magnitude(digits) >= U64_LIMIT then None
    else Some(Magnitude(digits))
  }

  lemma {:induction false} PrintMagnitude(n: nat)
    ensures Magnitude(PrintNat(n)) == n
    ensures n > 0 ==> PrintNat(n)[0] != ZERO
    ensures n == 0 ==> PrintNat(n) == [ZERO]
  {
    var s := PrintNat(n);
    if n >= 10 {
      PrintMagnitude(n / 10);
      assert s[..|s| - 1] == PrintNat(n / 10);
      assert s[0] == PrintNat(n / 10)[0];
    } else {
      assert s[..0] == [];
    }
  }

  /** Digit strings without a leading zero are canonical. */
  lemma {:induction false} MagnitudePrint(s: bytes)
    requires s != [] && AllDigits(s) && s[0] != ZERO
    ensures Magnitude(s) > 0 && PrintNat(Magnitude(s)) == s
  {
    var front, last := s[..|s| - 1], s[|s| - 1];
    if front == [] {
      assert Magnitude(front) == 0 && s == [last];
    } else {
      MagnitudePrint(front);
      assert s == front + [last];
      assert (10 * Magnitude(front) + (last - 48)) / 10 == Magnitude(front);
    }
  }

  lemma ParsePrint(n: i64)
    ensures ParseI64(Print(n)) == Some(n)
  {
    if n < 0 {
      PrintMagnitude(0 - n);
      assert Print(n)[1..] == PrintNat(0 - n);
    } else {
      PrintMagnitude(n);
      assert IsDigit(Print(n)[0]);
    }
  }

  // ---- Exactly which texts are numbers -----------------------------------------

  function Zeros(k: nat): (s: bytes)
    ensures |s| == k && AllDigits(s)
  {
    seq(k, _ => ZERO)
  }

  lemma {:induction false} MagnitudeOfZeros(k: nat, s: bytes)
    requires AllDigits(s)
    ensures AllDigits(Zeros(k) + s) && Magnitude(Zeros(k) + s) == Magnitude(s)
    decreases |s| + k
  {
    var z := Zeros(k);
    if s == [] {
      assert z + s == z;
      if k > 0 {
        assert z[..k - 1] == Zeros(k - 1) + [];
        MagnitudeOfZeros(k - 1, []);
      }
    } else {
      var front := s[..|s| - 1];
      assert (z + s)[..|z + s| - 1] == z + front;
      MagnitudeOfZeros(k, front);
    }
  }

  /** Every digit string is a canonical number behind some zeros. */
  lemma {:induction false} DigitsAreNumber(s: bytes) returns (k: nat)
    requires s != [] && AllDigits(s)
    ensures s == Zeros(k) + PrintNat(Magnitude(s))
  {
    if s[0] != ZERO {
      MagnitudePrint(s);
      k := 0;
      assert Zeros(0) + s == s;
    } else if |s| == 1 {
      PrintMagnitude(0);
      assert s == [ZERO] && s[..0] == [];
      k := 0;
      assert Zeros(0) + s == s;
    } else {
      var rest := s[1..];
      var l := DigitsAreNumber(rest);
      MagnitudeOfZeros(1, rest);
      assert Zeros(1) + rest == s;
      k := l + 1;
      assert Zeros(k) == [ZERO] + Zeros(l);
    }
  }

  /** The text is a sign, some zeros and the canonical digits of `m`. */
  ghost predicate Spells(s: bytes, sign: bytes, m: nat) {
    exists k: nat :: s == sign + (Zeros(k) + PrintNat(m))
  }

  lemma SpelledDigits(digits: bytes, sign: bytes, m: nat)
    ensures Spells(sign + digits, sign, m) <==> digits != [] && AllDigits(digits) && Magnitude(digits) == m
  {
    forall k: nat | sign + digits == sign + (Zeros(k) + PrintNat(m))
      ensures digits != [] && AllDigits(digits) && Magnitude(digits) == m
    {
      assert digits == (sign + digits)[|sign|..] == Zeros(k) + PrintNat(m);
      MagnitudeOfZeros(k, PrintNat(m));
      PrintMagnitude(m);
    }
    if digits != [] && AllDigits(digits) && Magnitude(digits) == m {
      var k := DigitsAreNumber(digits);
      assert sign + digits == sign + (Zeros(k) + PrintNat(m));
    }
  }

  lemma SpelledStart(s: bytes, m: nat)
    requires Spells(s, [], m)
    ensures s != [] && IsDigit(s[0])
  {
    assert [] + s == s;
    SpelledDigits(s, [], m);
  }

  /** 64-bit parsing accepts an optional sign, any number of zeros and a number
      that fits, and nothing else. */
  lemma ParseI64Exact(s: bytes, n: int)
    ensures ParseI64(s) == Some(n) <==>
            && I64_MIN <= n <= I64_MAX
            && ((n >= 0 && (Spells(s, [], n) || Spells(s, [PLUS], n))) || (n <= 0 && Spells(s, [MINUS], -n)))
  {
    SignedText(s, if n < 0 then -n else n);
    hide Spells, AllDigits, Magnitude;
  }

  /** A leading sign belongs to the sign, anything else to the digits. */
  lemma SignedText(s: bytes, m: nat)
    ensures var digits := if s != [] && (s[0] == PLUS || s[0] == MINUS) then s[1..] else s;
            var good := digits != [] && AllDigits(digits) && Magnitude(digits) == m;
            && (Spells(s, [PLUS], m) <==> s != [] && s[0] == PLUS && good)
            && (Spells(s, [MINUS], m) <==> s != [] && s[0] == MINUS && good)
            && (Spells(s, [], m) <==> digits == s && good)
  {
    assert [] + s == s;
    SpelledDigits(s, [], m);
    if s != [] && (s[0] == PLUS || s[0] == MINUS) {
      assert s == [s[0]] + s[1..];
      SpelledDigits(s[1..], [s[0]], m);
    }
  }

  lemma ParseU64Exact(s: bytes, n: int)
    ensures ParseU64(s) == Some(n) <==> 0 <= n < U64_LIMIT && (Spells(s, [], n) || Spells(s, [PLUS], n))
  {
    if n >= 0 { SignedText(s, n); }
  }
}
