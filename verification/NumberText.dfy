/** The texts that RESP3 doubles and big numbers may have, written as a printer
    and compared with the scanners. */
module NumberText {
  import opened Machine
  import opened Decimal
  import opened RespParser
  import opened RespFrames

  /** An optional exponent. */
  datatype Exponent = NoExponent | Exponent(mark: byte, sign: bytes, digits: bytes)

  datatype Number =
    | Word(sign: bytes, letters: bytes)
    | Figures(sign: bytes, whole: bytes, point: bool, fraction: bytes, exponent: Exponent)

  predicate IsSign(s: bytes) { s == [] || s == [43] || s == [45] }

  predicate Digits(s: bytes) { forall i :: 0 <= i < |s| ==> 48 <= s[i] <= 57 }

  /** Each letter in either case; `word` is in lower case. */
  predicate Spelt(s: bytes, word: string) {
    |s| == |word| && forall i :: 0 <= i < |s| ==> s[i] == word[i] as int || s[i] == word[i] as int - 32
  }

  predicate GoodExponent(e: Exponent) {
    match e
    case NoExponent => true
    case Exponent(mark, sign, digits) => (mark == 101 || mark == 69) && IsSign(sign) && digits != [] && Digits(digits)
  }

  predicate GoodNumber(t: Number) {
    IsSign(t.sign) &&
    match t
    case Word(_, w) => Spelt(w, "inf") || Spelt(w, "infinity") || Spelt(w, "nan")
    case Figures(_, whole, point, fraction, exponent) =>
      && Digits(whole) && Digits(fraction) && whole + fraction != []
      && (!point ==> fraction == []) && GoodExponent(exponent)
  }

  function ExponentText(e: Exponent): bytes {
    match e
    case NoExponent => []
    case Exponent(mark, sign, digits) => [mark] + (sign + digits)
  }

  function BodyText(t: Number): bytes {
    match t
    case Word(_, w) => w
    case Figures(_, whole, point, fraction, exponent) =>
      whole + ((if point then [46] + fraction else []) + ExponentText(exponent))
  }

  function TextOf(t: Number): bytes { t.sign + BodyText(t) }

  // ---- Pieces --------------------------------------------------------------------

  lemma SignSplits(s: bytes) returns (sign: bytes)
    ensures IsSign(sign) && s == sign + Unsigned(s)
  {
    if s != [] && (s[0] == 43 || s[0] == 45) {
      sign := [s[0]];
      assert s == [s[0]] + s[1..];
    } else {
      sign := [];
    }
  }

  lemma SignSkipped(sign: bytes, body: bytes)
    requires IsSign(sign) && (body != [] ==> body[0] != 43 && body[0] != 45)
    ensures Unsigned(sign + body) == body
  {
    if sign != [] { assert (sign + body)[1..] == body; } else { assert sign + body == body; }
  }

  lemma {:induction false} RunIsDigits(s: bytes)
    ensures Digits(s[..DigitRun(s)])
    ensures DigitRun(s) < |s| ==> !(48 <= s[DigitRun(s)] <= 57)
  {
    if s != [] && IsDigit(s[0]) {
      RunIsDigits(s[1..]);
      var n := DigitRun(s[1..]);
      assert s[..n + 1] == [s[0]] + s[1..][..n];
    }
  }

  lemma {:induction false} RunStops(digits: bytes, rest: bytes)
    requires Digits(digits) && (rest != [] ==> !(48 <= rest[0] <= 57))
    ensures DigitRun(digits + rest) == |digits|
  {
    if digits == [] {
      assert digits + rest == rest;
    } else {
      RunStops(digits[1..], rest);
      assert (digits + rest)[1..] == digits[1..] + rest;
    }
  }

  lemma WordsSpelt(t: bytes)
    ensures SameIgnoringCase(t, [105, 110, 102]) <==> Spelt(t, "inf")
    ensures SameIgnoringCase(t, [105, 110, 102, 105, 110, 105, 116, 121]) <==> Spelt(t, "infinity")
    ensures SameIgnoringCase(t, [110, 97, 110]) <==> Spelt(t, "nan")
  {
    LettersSpelt(t, [105, 110, 102], "inf");
    LettersSpelt(t, [105, 110, 102, 105, 110, 105, 116, 121], "infinity");
    LettersSpelt(t, [110, 97, 110], "nan");
  }

  lemma LettersSpelt(t: bytes, w: bytes, word: string)
    requires |w| == |word| && forall i :: 0 <= i < |w| ==> w[i] == word[i] as int && 97 <= w[i] <= 122
    ensures SameIgnoringCase(t, w) <==> Spelt(t, word)
  {
    if |t| == |w| {
      forall i | 0 <= i < |t|
        ensures Lower(t[i]) == Lower(w[i]) <==> t[i] == word[i] as int || t[i] == word[i] as int - 32
      {
      }
    }
  }

  // ---- The scanner's view of an unsigned text ----------------------------------------

  predicate IsWord(t: bytes) {
    || SameIgnoringCase(t, [105, 110, 102])
    || SameIgnoringCase(t, [105, 110, 102, 105, 110, 105, 116, 121])
    || SameIgnoringCase(t, [110, 97, 110])
  }

  predicate IsExponent(tail: bytes) {
    tail == [] || (Lower(tail[0]) == 101 && Unsigned(tail[1..]) != [] && AllDigits(Unsigned(tail[1..])))
  }

  lemma ExponentParts(tail: bytes) returns (e: Exponent)
    requires IsExponent(tail)
    ensures GoodExponent(e) && ExponentText(e) == tail
  {
    if tail == [] {
      e := NoExponent;
    } else {
      var sign := SignSplits(tail[1..]);
      e := Exponent(tail[0], sign, Unsigned(tail[1..]));
      assert tail == [tail[0]] + tail[1..];
    }
  }

  lemma ExponentScans(e: Exponent)
    requires GoodExponent(e)
    ensures IsExponent(ExponentText(e))
    ensures ExponentText(e) != [] ==> ExponentText(e)[0] != 46 && !(48 <= ExponentText(e)[0] <= 57)
  {
    if e.Exponent? {
      SignSkipped(e.sign, e.digits);
      assert ExponentText(e)[1..] == e.sign + e.digits;
    }
  }

  /** Whole digits, then a point and fraction digits or neither, then the rest. */
  predicate IsDecimal(t: bytes) {
    var whole := DigitRun(t);
    var rest := t[whole..];
    if rest != [] && rest[0] == 46
    then whole + DigitRun(rest[1..]) > 0 && IsExponent(rest[1..][DigitRun(rest[1..])..])
    else whole > 0 && IsExponent(rest)
  }

  lemma DoubleUnfolds(s: bytes)
    ensures IsDouble(s) <==> IsWord(Unsigned(s)) || IsDecimal(Unsigned(s))
  {
    var t := Unsigned(s);
    var rest := t[DigitRun(t)..];
    if rest != [] && rest[0] == 46 {
      var frac := DigitRun(rest[1..]);
      assert rest[1 + frac..] == rest[1..][frac..];
    }
  }

  /** A text cut in two at `k`. */
  lemma TwoPieces(t: bytes, k: nat)
    requires k <= |t|
    ensures t == t[..k] + t[k..]
  {
  }

  lemma DecimalParts(sign: bytes, t: bytes) returns (n: Number)
    requires IsSign(sign) && IsDecimal(t)
    ensures GoodNumber(n) && n.sign == sign && BodyText(n) == t
  {
    hide IsExponent, DigitRun, Digits, GoodExponent, ExponentText;
    RunIsDigits(t);
    TwoPieces(t, DigitRun(t));
    var whole, rest := t[..DigitRun(t)], t[DigitRun(t)..];
    if rest != [] && rest[0] == 46 {
      n := PointedParts(sign, whole, rest);
    } else {
      var e := ExponentParts(rest);
      n := Figures(sign, whole, false, [], e);
      NoDigits();
      assert [] + rest == rest;
    }
  }

  lemma NoDigits()
    ensures Digits([])
  {
  }

  lemma PointedParts(sign: bytes, whole: bytes, rest: bytes) returns (n: Number)
    requires IsSign(sign) && Digits(whole) && rest != [] && rest[0] == 46
    requires |whole| + DigitRun(rest[1..]) > 0 && IsExponent(rest[1..][DigitRun(rest[1..])..])
    ensures GoodNumber(n) && n.sign == sign && BodyText(n) == whole + rest
  {
    hide IsExponent, DigitRun, Digits, GoodExponent, ExponentText;
    var after := rest[1..];
    RunIsDigits(after);
    TwoPieces(after, DigitRun(after));
    var fraction, tail := after[..DigitRun(after)], after[DigitRun(after)..];
    var e := ExponentParts(tail);
    n := Figures(sign, whole, true, fraction, e);
    assert rest == [46] + fraction + tail;
  }

  lemma DecimalScans(n: Number)
    requires GoodNumber(n) && n.Figures?
    ensures IsDecimal(BodyText(n))
    ensures BodyText(n) != [] && BodyText(n)[0] != 43 && BodyText(n)[0] != 45
  {
    hide IsExponent, DigitRun;
    var tail := ExponentText(n.exponent);
    ExponentScans(n.exponent);
    hide ExponentText;
    var rest := (if n.point then [46] + n.fraction else []) + tail;
    RunStops(n.whole, rest);
    assert BodyText(n)[|n.whole|..] == rest;
    if n.point {
      RunStops(n.fraction, tail);
      assert rest[1..] == n.fraction + tail && rest[1..][|n.fraction|..] == tail;
    } else {
      assert rest == tail;
    }
  }

  /** A text is a double exactly if it is printed from a good number: sign, whole
      digits, point and fraction, exponent, or one of the three words. */
  lemma DoubleExact(s: bytes)
    ensures IsDouble(s) <==> exists t :: GoodNumber(t) && TextOf(t) == s
  {
    DoubleUnfolds(s);
    hide IsDouble, IsDecimal, SameIgnoringCase, Spelt;
    WordsSpelt(Unsigned(s));
    if IsDouble(s) {
      var sign := SignSplits(s);
      var t: Number;
      if IsWord(Unsigned(s)) { t := Word(sign, Unsigned(s)); } else { t := DecimalParts(sign, Unsigned(s)); }
      assert GoodNumber(t) && TextOf(t) == s;
    }
    forall t | GoodNumber(t) && TextOf(t) == s ensures IsDouble(s) {
      if t.Figures? { DecimalScans(t); } else { WordStarts(t.letters); }
      SignSkipped(t.sign, BodyText(t));
    }
  }

  lemma WordStarts(w: bytes)
    requires Spelt(w, "inf") || Spelt(w, "infinity") || Spelt(w, "nan")
    ensures w != [] && w[0] != 43 && w[0] != 45
  {
  }

  /** A big number is an optional sign and at least one digit. */
  lemma BigNumberExact(s: bytes)
    ensures IsBigNumber(s) <==> exists sign, digits :: IsSign(sign) && digits != [] && Digits(digits) && s == sign + digits
  {
    if IsBigNumber(s) {
      var sign := SignSplits(s);
      assert Digits(Unsigned(s));
    }
    forall sign, digits | IsSign(sign) && digits != [] && Digits(digits) && s == sign + digits ensures IsBigNumber(s) {
      SignSkipped(sign, digits);
    }
  }

  /** Every integer prints as a big number and as a double. */
  lemma IntegersAreNumbers(n: int)
    ensures IsBigNumber(Print(n)) && IsDouble(Print(n))
  {
    var m: nat := if n < 0 then -n else n;
    var sign: bytes := if n < 0 then [45] else [];
    var digits := PrintNat(m);
    assert Digits(digits) && Print(n) == sign + digits;
    hide IsDouble, IsBigNumber;
    BigNumberExact(Print(n));
    var t := Figures(sign, digits, false, [], NoExponent);
    assert BodyText(t) == digits;
    assert GoodNumber(t) && TextOf(t) == Print(n);
    DoubleExact(Print(n));
  }

  // ---- On the wire ---------------------------------------------------------------------

  predicate NoReturn(s: bytes) { forall i :: 0 <= i < |s| ==> s[i] != 13 }

  lemma NumbersHaveNoReturn(t: Number)
    requires GoodNumber(t)
    ensures NoReturn(TextOf(t))
  {
    assert NoReturn(t.sign);
    if t.Figures? {
      assert NoReturn(t.whole) && NoReturn(t.fraction) && NoReturn(ExponentText(t.exponent)) by {
        if t.exponent.Exponent? { assert NoReturn(t.exponent.sign) && NoReturn(t.exponent.digits); }
      }
    }
  }

  /** Every number text decodes to that double, whatever follows. */
  lemma DoublesDecode(t: Number, rest: bytes)
    requires GoodNumber(t)
    ensures Decode(Header(44, TextOf(t)) + rest) == Some((Double(TextOf(t)), |TextOf(t)| + 3))
  {
    hide GoodNumber, TextOf, Decode, IsDouble;
    NumbersHaveNoReturn(t);
    DoubleExact(TextOf(t));
    assert Good(Line(44, TextOf(t)));
    FrameDecodes(Line(44, TextOf(t)), rest);
  }
}
