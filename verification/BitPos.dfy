/** BITPOS: the first set or clear bit in a range. */
module BitPos {
  import opened Machine
  import opened Decimal
  import opened BitString

  datatype Unit = Byte | Bit

  /** `At(-1)` is "not found"; the error stands for sizes beyond 64 bits. */
  datatype Reply = At(pos: int) | TooLarge

  /** GETRANGE-style normalisation to a closed, non-empty range. */
  function NormalizeRange(len: nat, start: Option<i64>, end: Option<i64>): (r: Option<(nat, nat)>)
    ensures r.Some? ==> r.value.0 <= r.value.1 < len
  {
    if len == 0 then None
    else
      var s: int := if start.None? then 0 else start.value;
      var e: int := if end.None? then len - 1 else end.value;
      var s1 := if s < 0 then s + len else s;
      var e1 := if e < 0 then e + len else e;
      var s2 := if s1 < 0 then 0 else s1;
      if e1 < 0 || s2 >= len || s2 > e1 then None
      else Some((s2, if e1 >= len then len - 1 else e1))
  }

  /** The least position in `[from, last]` whose bit is `one`. */
  function FirstBit(b: bytes, one: bool, from: nat, last: int): (r: Option<nat>)
    ensures r.Some? ==> from <= r.value <= last && BitAt(b, r.value) == one
    ensures forall i: nat :: from <= i < (if r.Some? then r.value else last + 1) ==> BitAt(b, i) != one
    decreases last - from
  {
    if from > last then None
    else if BitAt(b, from) == one then Some(from)
    else FirstBit(b, one, from + 1, last)
  }

  // ---- Whole bytes at a time ----------------------------------------------------

  /** `leading_zeros` of a byte. */
  function LeadingZeros(c: byte, k: nat := 0): (n: nat)
    requires k <= 8
    ensures k <= n <= 8
    ensures n < 8 ==> Digit(c, 7 - n) == 1
    ensures forall q: nat :: 7 - n < q <= 7 - k ==> Digit(c, q) == 0
    decreases 8 - k
  {
    if k == 8 then 8 else if Digit(c, 7 - k) == 1 then k else LeadingZeros(c, k + 1)
  }

  lemma {:induction false} AllZeroDigits(x: nat, n: nat)
    requires x < Pow2(n) && forall q :: 0 <= q < n ==> Digit(x, q) == 0
    ensures x == 0
  {
    if n > 0 {
      assert Digit(x, 0) == x % 2;
      forall q | 0 <= q < n - 1 ensures Digit(x / 2, q) == 0 { assert Digit(x, q + 1) == 0; }
      AllZeroDigits(x / 2, n - 1);
    }
  }

  /** Complementing a number flips each of its digits. */
  lemma {:induction false} ComplementDigits(x: nat, n: nat, q: nat)
    requires x < Pow2(n) && q < n
    ensures Digit(Pow2(n) - 1 - x, q) == 1 - Digit(x, q)
  {
    var y := Pow2(n) - 1 - x;
    if q > 0 {
      assert y / 2 == Pow2(n - 1) - 1 - x / 2;
      ComplementDigits(x / 2, n - 1, q - 1);
    }
  }

  /** `candidate`: ones where the byte holds the wanted bit. */
  function Candidate(c: byte, one: bool): byte {
    if one then c else 255 - c
  }

  lemma CandidateDigits(c: byte, one: bool, q: nat)
    requires q < 8
    ensures Digit(Candidate(c, one), q) == 1 <==> (Digit(c, q) == 1) == one
  {
    assert Pow2(8) == 256;
    ComplementDigits(c, 8, q);
  }

  /** A byte whose candidate is zero holds no wanted bit; otherwise the first
      one sits behind the leading zeros. */
  lemma ByteScan(b: bytes, one: bool, k: nat)
    requires k < |b|
    ensures var c := Candidate(b[k], one);
            var n := LeadingZeros(c);
            && (c == 0 ==> forall i: nat :: (8 * k <= i < 8 * k + 8 ==> BitAt(b, i) != one))
            && (c != 0 ==> n < 8 && BitAt(b, 8 * k + n) == one
                           && forall i: nat :: (8 * k <= i < 8 * k + n ==> BitAt(b, i) != one))
  {
    var c := Candidate(b[k], one);
    forall i: nat | 8 * k <= i < 8 * k + 8
      ensures BitAt(b, i) == one <==> Digit(c, 7 - (i - 8 * k)) == 1
    {
      CandidateDigits(b[k], one, 7 - (i - 8 * k));
      assert i / 8 == k && i % 8 == i - 8 * k;
    }
    if c == 0 {
      forall q: nat ensures Digit(c, q) == 0 { ZeroDigits(q); }
    } else if LeadingZeros(c) == 8 {
      assert Pow2(8) == 256;
      AllZeroDigits(c, 8);
    }
  }

  /** `find_first_bit`: skips whole bytes, yet finds the least position. */
  method FindFirstBit(b: bytes, one: bool, startBit: nat, endBit: nat) returns (r: Option<nat>)
    requires startBit <= endBit < 8 * |b|
    ensures r.Some? ==> startBit <= r.value <= endBit && BitAt(b, r.value) == one
    ensures forall i: nat :: startBit <= i < (if r.Some? then r.value else endBit + 1) ==> BitAt(b, i) != one
    ensures r == FirstBit(b, one, startBit, endBit)
  {
    hide Digit, FirstBit, LeadingZeros, Candidate;
    var position := startBit;
    while position <= endBit
      invariant startBit <= position <= endBit + 1
      invariant forall i: nat :: startBit <= i < position ==> BitAt(b, i) != one
      decreases endBit + 1 - position
    {
      var index, offset := position / 8, position % 8;
      if offset == 0 && endBit - position >= 7 {
        var candidate := Candidate(b[index], one);
        ByteScan(b, one, index);
        if candidate != 0 {
          r := Some(position + LeadingZeros(candidate));
          FirstBitUnique(b, one, startBit, endBit, r);
          return;
        }
        position := position + 8;
      } else {
        if (Digit(b[index], 7 - offset) == 1) == one {
          r := Some(position);
          FirstBitUnique(b, one, startBit, endBit, r);
          return;
        }
        position := position + 1;
      }
    }
    r := None;
  }

  lemma FirstBitUnique(b: bytes, one: bool, from: nat, last: nat, r: Option<nat>)
    requires r.Some? ==> from <= r.value <= last && BitAt(b, r.value) == one
    requires forall i: nat :: from <= i < (if r.Some? then r.value else last + 1) ==> BitAt(b, i) != one
    ensures r == FirstBit(b, one, from, last)
  {
  }

  // ---- The command ---------------------------------------------------------------

  function Position(p: nat): Reply {
    if p <= I64_MAX then At(p) else TooLarge
  }

  function ExecuteBytes(b: bytes, one: bool, start: Option<i64>, end: Option<i64>, unit: Unit): Reply {
    if b == [] then At(if one then -1 else 0)
    else if unit.Bit? && 8 * |b| >= U64_LIMIT then TooLarge
    else
      match NormalizeRange(if unit.Byte? then |b| else 8 * |b|, start, end)
      case None => At(-1)
      case Some((s, e)) =>
        if unit.Byte? && (8 * s >= U64_LIMIT || 8 * e + 7 >= U64_LIMIT) then TooLarge
        else
          var (first, last) := if unit.Byte? then (8 * s, 8 * e + 7) else (s, e);
          match FirstBit(b, one, first, last)
          case Some(p) => Position(p)
          case None =>
            if !one && end.None? then (if 8 * |b| >= U64_LIMIT then TooLarge else Position(8 * |b|))
            else At(-1)
  }

  /** A byte range is the bit range that covers it, for positive and negative
      indices alike. */
  lemma ByteRangeIsBitRange(b: bytes, one: bool, s: int, e: int)
    requires I64_MIN <= 8 * s && 8 * s <= I64_MAX && I64_MIN <= 8 * e + 7 <= I64_MAX && 8 * |b| < U64_LIMIT
    ensures ExecuteBytes(b, one, Some(s), Some(e), Byte) == ExecuteBytes(b, one, Some(8 * s), Some(8 * e + 7), Bit)
  {
    hide FirstBit;
    if b != [] {
      var x, y := NormalizeRange(|b|, Some(s), Some(e)), NormalizeRange(8 * |b|, Some(8 * s), Some(8 * e + 7));
      assert x.None? <==> y.None?;
      assert x.Some? ==> y.value == (8 * x.value.0, 8 * x.value.1 + 7);
    }
  }

  /** A bit whose byte or whose own index lies between two possibly negative
      indices; an index left out stands for the end of the string. */
  predicate Covered(b: bytes, start: Option<i64>, end: Option<i64>, unit: Unit, i: int) {
    var (len, u) := if unit.Byte? then (|b|, i / 8) else (8 * |b|, i);
    && 0 <= i < 8 * |b|
    && (start.Some? ==> start.value <= (if start.value < 0 then u - len else u))
    && (end.Some? ==> (if end.value < 0 then u - len else u) <= end.value)
  }

  /** With the end left out and the start not beyond the string, the zeros that
      follow the string count as well. */
  predicate Wanted(b: bytes, one: bool, start: Option<i64>, end: Option<i64>, unit: Unit, i: nat) {
    && BitAt(b, i) == one
    && (Covered(b, start, end, unit, i) || (i >= 8 * |b| && end.None? && (start.None? || Covered(b, start, end, unit, 8 * |b| - 1))))
  }

  /** The closed range of bits that `execute_bytes` searches. */
  function BitRange(b: bytes, start: Option<i64>, end: Option<i64>, unit: Unit): (r: Option<(nat, nat)>)
    ensures r.Some? ==> r.value.0 <= r.value.1 < 8 * |b|
  {
    match NormalizeRange(if unit.Byte? then |b| else 8 * |b|, start, end)
    case None => None
    case Some((s, e)) => Some(if unit.Byte? then (8 * s, 8 * e + 7) else (s, e))
  }

  lemma RangeCovers(b: bytes, start: Option<i64>, end: Option<i64>, unit: Unit, i: nat)
    ensures var r := BitRange(b, start, end, unit);
            Covered(b, start, end, unit, i) <==> r.Some? && r.value.0 <= i <= r.value.1
  {
  }

  lemma SearchesRange(b: bytes, one: bool, start: Option<i64>, end: Option<i64>, unit: Unit)
    requires b != [] && 8 * |b| <= I64_MAX
    ensures var r := BitRange(b, start, end, unit);
            && (end.None? && r.Some? ==> r.value.1 == 8 * |b| - 1)
            && ExecuteBytes(b, one, start, end, unit) ==
               At(if r.None? then -1
                  else match FirstBit(b, one, r.value.0, r.value.1)
                       case Some(p) => p
                       case None => if !one && end.None? then 8 * |b| else -1)
  {
    hide FirstBit;
  }

  /** The reply is the least wanted position, or -1 if there is none. */
  ghost predicate LeastWanted(b: bytes, one: bool, start: Option<i64>, end: Option<i64>, unit: Unit, r: Reply) {
    match r
    case TooLarge => false
    case At(p) =>
      if p == -1 then forall i: nat :: !Wanted(b, one, start, end, unit, i)
      else p >= 0 && Wanted(b, one, start, end, unit, p)
           && forall i: nat :: i < p ==> !Wanted(b, one, start, end, unit, i)
  }

  lemma SearchMeans(b: bytes, one: bool, start: Option<i64>, end: Option<i64>, unit: Unit)
    requires b != [] && 8 * |b| <= I64_MAX
    ensures LeastWanted(b, one, start, end, unit, ExecuteBytes(b, one, start, end, unit))
  {
    hide BitRange, ExecuteBytes, FirstBit;
    assert start.None? && end.None? ==> Covered(b, start, end, unit, 8 * |b| - 1);
    hide Covered;
    forall i: nat { RangeCovers(b, start, end, unit, i); }
    SearchesRange(b, one, start, end, unit);
  }

  /** For every string that a 64-bit reply can describe and all arguments, the
      command answers with the least wanted position, except on an empty string
      asked for a clear bit in an explicit range: it answers 0, where no
      position is wanted. */
  lemma BitPosMeans(b: bytes, one: bool, start: Option<i64>, end: Option<i64>, unit: Unit)
    requires 8 * |b| <= I64_MAX
    ensures LeastWanted(b, one, start, end, unit, ExecuteBytes(b, one, start, end, unit)) <==>
            b != [] || one || (start.None? && end.None?)
    ensures b == [] && !one && (start.Some? || end.Some?) ==>
              && ExecuteBytes(b, one, start, end, unit) == At(0)
              && forall i: nat :: !Wanted(b, one, start, end, unit, i)
  {
    if b != [] {
      SearchMeans(b, one, start, end, unit);
    } else {
      assert forall i: nat :: !BitAt(b, i);
      assert start.None? && end.None? && !one ==> Wanted(b, one, start, end, unit, 0);
    }
  }

  // ---- Strict integers ------------------------------------------------------------

  /** The checked multiply-and-add loop over the digits. */
  method ParseMagnitude(digits: bytes) returns (r: Option<u64>)
    ensures r.Some? ==> AllDigits(digits) && r.value == Magnitude(digits)
    ensures r.None? ==> !AllDigits(digits) || Magnitude(digits) >= U64_LIMIT
  {
    var magnitude: u64 := 0;
    for i := 0 to |digits|
      invariant AllDigits(digits[..i]) && magnitude == Magnitude(digits[..i])
    {
      var d := digits[i];
      if !IsDigit(d) {
        return None;
      }
      assert digits[..i + 1][..i] == digits[..i];
      if magnitude * 10 >= U64_LIMIT || magnitude * 10 + (d - 48) >= U64_LIMIT {
        if AllDigits(digits) { PrefixSmaller(digits, i + 1); }
        return None;
      }
      magnitude := magnitude * 10 + (d - 48);
    }
    assert digits[..|digits|] == digits;
    return Some(magnitude);
  }

  /** `parse_redis_i64_bytes` inverts canonical printing exactly: it accepts
      the canonical decimal of an i64 and nothing else. */
  method ParseRedisI64(s: bytes) returns (r: Option<int>)
    ensures r.Some? ==> I64_MIN <= r.value <= I64_MAX && s == Print(r.value)
    ensures r.None? ==> forall n :: I64_MIN <= n <= I64_MAX ==> s != Print(n)
  {
    if s == [ZERO] {
      PrintMagnitude(0);
      return Some(0);
    }
    if s == [] {
      return None;
    }
    var negative := s[0] == MINUS;
    var digits := if negative then s[1..] else s;
    if digits == [] || !(49 <= digits[0] <= 57) {
      NotCanonical(s);
      return None;
    }
    var magnitude := ParseMagnitude(digits);
    if AllDigits(digits) { CanonicalValue(s, digits); } else { NotCanonical(s); }
    if magnitude.None? {
      return None;
    }
    MagnitudePrint(digits);
    hide Print, Magnitude, PrintNat;
    r := FinishI64(s, negative, digits, magnitude.value);
  }

  /** The final range check, with the one asymmetric case. */
  method FinishI64(s: bytes, negative: bool, digits: bytes, magnitude: u64) returns (r: Option<int>)
    requires s == (if negative then [MINUS] + digits else digits)
    requires magnitude > 0 && PrintNat(magnitude) == digits
    requires forall n :: s == Print(n) ==> n == if negative then 0 - magnitude else magnitude
    ensures r.Some? ==> I64_MIN <= r.value <= I64_MAX && s == Print(r.value)
    ensures r.None? ==> forall n :: I64_MIN <= n <= I64_MAX ==> s != Print(n)
  {
    hide PrintNat;
    if negative {
      if magnitude > I64_MAX + 1 {
        return None;
      }
      return Some(if magnitude == I64_MAX + 1 then I64_MIN else 0 - magnitude);
    }
    if magnitude > I64_MAX {
      return None;
    }
    return Some(magnitude);
  }

  /** Every canonical text is `0`, or an optional minus and digits that do not
      start with zero. */
  lemma CanonicalShape(n: int)
    ensures var s := Print(n);
            var d := if s[0] == MINUS then s[1..] else s;
            s == [ZERO] || (d != [] && 49 <= d[0] <= 57 && AllDigits(d))
  {
    if n < 0 {
      PrintMagnitude(0 - n);
      assert Print(n)[1..] == PrintNat(0 - n);
      assert IsDigit(PrintNat(0 - n)[0]);
    } else {
      PrintMagnitude(n);
      assert IsDigit(PrintNat(n)[0]);
    }
  }

  lemma NotCanonical(s: bytes)
    requires s != [] && s != [ZERO]
    requires var d := if s[0] == MINUS then s[1..] else s; d == [] || !(49 <= d[0] <= 57) || !AllDigits(d)
    ensures forall n: int :: s != Print(n)
  {
    forall n: int ensures s != Print(n) { CanonicalShape(n); }
  }

  /** Digits after an optional minus determine the only number printed so. */
  lemma CanonicalValue(s: bytes, digits: bytes)
    requires s != [] && digits == (if s[0] == MINUS then s[1..] else s)
    requires digits != [] && AllDigits(digits)
    ensures forall n: int :: s == Print(n) ==>
              n == if s[0] == MINUS then 0 - Magnitude(digits) else Magnitude(digits)
  {
    forall n: int | s == Print(n) ensures n == if s[0] == MINUS then 0 - Magnitude(digits) else Magnitude(digits) {
      if n < 0 {
        assert s[1..] == PrintNat(0 - n);
        PrintMagnitude(0 - n);
      } else {
        PrintMagnitude(n);
        assert IsDigit(PrintNat(n)[0]);
      }
    }
  }

  lemma {:induction false} PrefixSmaller(s: bytes, i: nat)
    requires AllDigits(s) && i <= |s|
    ensures Magnitude(s[..i]) <= Magnitude(s)
    decreases |s|
  {
    if i == |s| {
      assert s[..i] == s;
    } else {
      var front := s[..|s| - 1];
      assert s[..i] == front[..i];
      PrefixSmaller(front, i);
    }
  }
}
