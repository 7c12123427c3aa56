/** Strings as bit strings: most significant bit of byte 0 first, zeros for
    ever after the last byte. */
module BitString {
  import opened Machine

  type Bits = iset<nat>

  function Pow2(n: nat): (r: nat)
    ensures r > 0
  {
    if n == 0 then 1 else 2 * Pow2(n - 1)
  }

  /** `(x >> k) & 1`: halve `k` times, then take the parity. */
  function Digit(x: nat, k: nat): (d: nat)
    ensures d < 2
  {
    if k == 0 then x % 2 else Digit(x / 2, k - 1)
  }

  predicate BitAt(b: bytes, i: nat) {
    i / 8 < |b| && Digit(b[i / 8], 7 - i % 8) == 1
  }

  /** The positions of the one bits: the abstract content of a string. */
  ghost function Ones(b: bytes): Bits {
    iset i: nat | BitAt(b, i)
  }

  /** `b | (1 << p)`. */
  function SetMask(b: byte, p: nat): (r: byte)
    requires p < 8
    ensures forall q: nat :: Digit(r, q) == if q == p then 1 else Digit(b, q)
  {
    assert Pow2(8) == 256;
    if Digit(b, p) == 1 then b else AddDigit(b, p, 8); b + Pow2(p)
  }

  /** `b & !(1 << p)`. */
  function ClearMask(b: byte, p: nat): (r: byte)
    requires p < 8
    ensures forall q: nat :: Digit(r, q) == if q == p then 0 else Digit(b, q)
  {
    if Digit(b, p) == 1 then DropDigit(b, p); b - Pow2(p) else b
  }

  /** Setting a zero digit changes that digit only. */
  lemma {:induction false} AddDigit(x: nat, p: nat, n: nat)
    requires Digit(x, p) == 0 && p < n && x < Pow2(n)
    ensures x + Pow2(p) < Pow2(n)
    ensures forall q: nat :: Digit(x + Pow2(p), q) == if q == p then 1 else Digit(x, q)
  {
    if p > 0 {
      assert (x + Pow2(p)) / 2 == x / 2 + Pow2(p - 1) && (x + Pow2(p)) % 2 == x % 2;
      AddDigit(x / 2, p - 1, n - 1);
    } else {
      assert (x + 1) / 2 == x / 2;
    }
  }

  /** Clearing a one digit changes that digit only. */
  lemma {:induction false} DropDigit(x: nat, p: nat)
    requires Digit(x, p) == 1
    ensures x >= Pow2(p)
    ensures forall q: nat :: Digit(x - Pow2(p), q) == if q == p then 0 else Digit(x, q)
  {
    if p > 0 {
      DropDigit(x / 2, p - 1);
      assert (x - Pow2(p)) / 2 == x / 2 - Pow2(p - 1) && (x - Pow2(p)) % 2 == x % 2;
    } else {
      assert (x - 1) / 2 == x / 2;
    }
  }

  /** The leading digit tells which half of the range a number is in. */
  lemma {:induction false} TopDigit(x: nat, n: nat)
    requires n > 0 && x < Pow2(n)
    ensures Digit(x, n - 1) == 1 <==> x >= Pow2(n - 1)
  {
    if n > 1 { TopDigit(x / 2, n - 1); }
  }

  lemma {:induction false} ZeroDigits(k: nat)
    ensures Digit(0, k) == 0
  {
    if k > 0 { ZeroDigits(k - 1); }
  }

  // ---- Fields ---------------------------------------------------------------

  /** The unsigned number in `w` bits from `off`, first bit most significant. */
  ghost function Field(bits: Bits, off: nat, w: nat): (raw: nat)
    ensures raw < Pow2(w)
  {
    if w == 0 then 0 else 2 * Field(bits, off, w - 1) + (if off + w - 1 in bits then 1 else 0)
  }

  /** The bit string with `w` bits from `off` replaced by the digits of `raw`. */
  ghost function WriteBits(bits: Bits, off: nat, w: nat, raw: nat): Bits {
    iset i: nat | if off <= i < off + w then Digit(raw, off + w - 1 - i) == 1 else i in bits
  }

  lemma {:induction false} FieldDepends(a: Bits, b: Bits, off: nat, w: nat)
    requires forall i: nat :: off <= i < off + w ==> (i in a <==> i in b)
    ensures Field(a, off, w) == Field(b, off, w)
  {
    if w > 0 { FieldDepends(a, b, off, w - 1); }
  }

  /** What is written is what is read. */
  lemma {:induction false} FieldOfWrite(bits: Bits, off: nat, w: nat, raw: nat)
    requires raw < Pow2(w)
    ensures Field(WriteBits(bits, off, w, raw), off, w) == raw
  {
    if w > 0 {
      var written, front := WriteBits(bits, off, w, raw), WriteBits(bits, off, w - 1, raw / 2);
      forall i: nat | off <= i < off + w - 1 ensures i in written <==> i in front {
        assert Digit(raw, off + w - 1 - i) == Digit(raw / 2, off + w - 2 - i);
      }
      FieldDepends(written, front, off, w - 1);
      FieldOfWrite(bits, off, w - 1, raw / 2);
      assert Digit(raw, 0) == raw % 2;
    }
  }

  lemma {:induction false} FieldDigit(bits: Bits, off: nat, w: nat, i: nat)
    requires off <= i < off + w
    ensures Digit(Field(bits, off, w), off + w - 1 - i) == if i in bits then 1 else 0
  {
    var raw := Field(bits, off, w);
    if i == off + w - 1 {
      assert Digit(raw, 0) == raw % 2;
    } else {
      assert raw / 2 == Field(bits, off, w - 1);
      FieldDigit(bits, off, w - 1, i);
    }
  }

  /** Writing back what was read changes nothing. */
  lemma WriteOfField(bits: Bits, off: nat, w: nat)
    ensures WriteBits(bits, off, w, Field(bits, off, w)) == bits
  {
    forall i: nat | off <= i < off + w
      ensures Digit(Field(bits, off, w), off + w - 1 - i) == (if i in bits then 1 else 0)
    {
      FieldDigit(bits, off, w, i);
    }
  }

  /** The second of two writes to one field wins. */
  lemma WriteTwice(bits: Bits, off: nat, w: nat, r1: nat, r2: nat)
    ensures WriteBits(WriteBits(bits, off, w, r1), off, w, r2) == WriteBits(bits, off, w, r2)
  {
  }

  /** Writes to disjoint fields commute, and neither disturbs the other. */
  lemma DisjointWrites(bits: Bits, o1: nat, w1: nat, r1: nat, o2: nat, w2: nat, r2: nat)
    requires o1 + w1 <= o2 || o2 + w2 <= o1
    ensures WriteBits(WriteBits(bits, o1, w1, r1), o2, w2, r2) == WriteBits(WriteBits(bits, o2, w2, r2), o1, w1, r1)
    ensures Field(WriteBits(bits, o1, w1, r1), o2, w2) == Field(bits, o2, w2)
  {
    FieldDepends(WriteBits(bits, o1, w1, r1), bits, o2, w2);
  }

  /** Each byte of a string is the number in its eight bits. */
  lemma ByteIsField(b: bytes, k: nat)
    requires k < |b|
    ensures Field(Ones(b), 8 * k, 8) == b[k]
  {
    hide Digit, Field;
    var bits, written := Ones(b), WriteBits(Ones(b), 8 * k, 8, b[k]);
    forall i: nat ensures i in written <==> i in bits {
      if 8 * k <= i < 8 * k + 8 { assert i / 8 == k && 7 - i % 8 == 8 * k + 8 - 1 - i; }
    }
    assert written == bits;
    assert Pow2(8) == 256;
    FieldOfWrite(bits, 8 * k, 8, b[k]);
  }
}
