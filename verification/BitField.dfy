/** Integer encodings of BITFIELD and their overflow arithmetic. */
module BitEncoding {
  import opened Machine
  import opened Arith
  import opened BitString

  datatype Encoding = Encoding(signed: bool, bits: nat)
  datatype Overflow = Wrap | Sat | Fail

  /** i1 to i64 and u1 to u63. */
  predicate ValidEncoding(e: Encoding) {
    1 <= e.bits <= if e.signed then 64 else 63
  }

  lemma DoubleProduct(x: nat, y: nat)
    ensures 2 * (x * y) == (2 * x) * y
  {
  }

  lemma {:induction false} Pow2Add(a: nat, b: nat)
    ensures Pow2(a + b) == Pow2(a) * Pow2(b)
  {
    if a > 0 {
      Pow2Add(a - 1, b);
      DoubleProduct(Pow2(a - 1), Pow2(b));
    }
  }

  lemma Pow2Words()
    ensures Pow2(64) == 0x1_0000_0000_0000_0000 && Pow2(63) == 0x8000_0000_0000_0000
  {
    assert Pow2(8) == 256;
    Pow2Add(8, 8);
    Pow2Add(16, 16);
    Pow2Add(32, 32);
  }

  lemma {:induction false} Pow2Monotone(a: nat, b: nat)
    requires a <= b
    ensures Pow2(a) <= Pow2(b)
  {
    if a < b { Pow2Monotone(a, b - 1); }
  }

  /** The widths are those whose values all fit a 64-bit integer. */
  lemma WidthsExact(e: Encoding)
    ensures ValidEncoding(e) <==>
            e.bits >= 1 && (if e.signed then Pow2(e.bits - 1) <= I64_MAX + 1 else Pow2(e.bits) - 1 <= I64_MAX)
  {
    hide Pow2;
    Pow2Words();
    var n := if e.signed then e.bits - 1 else e.bits;
    if 0 <= n <= 63 { Pow2Monotone(n, 63); }
    if n > 63 { Pow2Monotone(64, n); }
  }

  function Min(e: Encoding): int
    requires ValidEncoding(e)
  {
    if e.signed then 0 - Pow2(e.bits - 1) else 0
  }

  function Max(e: Encoding): int
    requires ValidEncoding(e)
  {
    if e.signed then Pow2(e.bits - 1) - 1 else Pow2(e.bits) - 1
  }

  predicate InBounds(e: Encoding, v: int)
    requires ValidEncoding(e)
  {
    Min(e) <= v <= Max(e)
  }

  /** `raw as i64`. */
  function AsI64(raw: u64): i64 {
    if raw < 0x8000_0000_0000_0000 then raw else raw - U64_LIMIT
  }

  /** Interprets a raw pattern, sign-extending narrow signed fields. */
  function Decode(e: Encoding, raw: u64): i64
    requires ValidEncoding(e) && raw < Pow2(e.bits)
  {
    if !e.signed || e.bits == 64 then AsI64(raw)
    else if Digit(raw, e.bits - 1) == 1 then
      ExtensionFits(e, raw);
      AsI64(raw + (U64_LIMIT - Pow2(e.bits)))
    else AsI64(raw)
  }

  lemma ExtensionFits(e: Encoding, raw: u64)
    requires ValidEncoding(e) && raw < Pow2(e.bits)
    ensures Pow2(e.bits) <= U64_LIMIT && raw + (U64_LIMIT - Pow2(e.bits)) < U64_LIMIT
  {
    Pow2Words();
    Pow2Monotone(e.bits, 64);
  }

  /** The low bits of the two's complement pattern of `v`. */
  function Encode(e: Encoding, v: i64): u64
    requires ValidEncoding(e)
  {
    var raw := v % U64_LIMIT;
    if e.bits == 64 then raw else ModAtMost(raw, Pow2(e.bits)); raw % Pow2(e.bits)
  }

  /** Two's complement, said directly. */
  function Represented(e: Encoding, raw: nat): int
    requires ValidEncoding(e) && raw < Pow2(e.bits)
  {
    if e.signed && raw >= Pow2(e.bits - 1) then raw - Pow2(e.bits) else raw
  }

  lemma BoundsFit(e: Encoding, v: int)
    requires ValidEncoding(e) && InBounds(e, v)
    ensures I64_MIN <= v <= I64_MAX
  {
    Pow2Words();
    if e.signed { Pow2Monotone(e.bits - 1, 63); } else { Pow2Monotone(e.bits, 63); }
  }

  /** Branch by branch, `decode` is two's complement. */
  lemma DecodeRepresents(e: Encoding, raw: u64)
    requires ValidEncoding(e) && raw < Pow2(e.bits)
    ensures Decode(e, raw) == Represented(e, raw) && InBounds(e, Decode(e, raw))
  {
    Pow2Words();
    TopDigit(raw, e.bits);
    assert Pow2(e.bits) == 2 * Pow2(e.bits - 1);
    if e.signed { Pow2Monotone(e.bits - 1, 63); } else { Pow2Monotone(e.bits, 63); }
    if e.bits < 64 { Pow2Monotone(e.bits, 63); }
  }

  lemma EncodeIsRemainder(e: Encoding, v: i64)
    requires ValidEncoding(e)
    ensures Encode(e, v) == v % Pow2(e.bits) < Pow2(e.bits)
  {
    Pow2Words();
    if e.bits < 64 {
      Pow2Add(e.bits, 64 - e.bits);
      ModMod(v, Pow2(e.bits), Pow2(64 - e.bits));
    }
  }

  /** Encoding and decoding are inverse to each other. */
  lemma EncodeDecode(e: Encoding, v: i64)
    requires ValidEncoding(e) && InBounds(e, v)
    ensures Encode(e, v) < Pow2(e.bits) && Decode(e, Encode(e, v)) == v
  {
    EncodeIsRemainder(e, v);
    var m := Pow2(e.bits);
    assert m == 2 * Pow2(e.bits - 1);
    if v >= 0 { DivUnique(v, m, 0, v); } else { DivUnique(v, m, -1, v + m); }
    DecodeRepresents(e, Encode(e, v));
  }

  lemma DecodeEncode(e: Encoding, raw: u64)
    requires ValidEncoding(e) && raw < Pow2(e.bits)
    ensures Encode(e, Decode(e, raw)) == raw
  {
    DecodeRepresents(e, raw);
    var v, m := Decode(e, raw), Pow2(e.bits);
    EncodeIsRemainder(e, v);
    if v == raw { DivUnique(v, m, 0, raw); } else { DivUnique(v, m, -1, raw); }
  }

  /** `normalize`: an integer brought into range, or nothing. */
  function Normalize(e: Encoding, v: int, o: Overflow): Option<int>
    requires ValidEncoding(e)
  {
    if InBounds(e, v) then Some(v)
    else
      match o
      case Fail => None
      case Sat => Some(if v < Min(e) then Min(e) else Max(e))
      case Wrap =>
        var wrapped := v % Pow2(e.bits);
        Some(if e.signed && wrapped >= Pow2(e.bits - 1) then wrapped - Pow2(e.bits) else wrapped)
  }

  function Distance(a: int, b: int): int { if a <= b then b - a else a - b }

  /** SAT gives the nearest representable value. */
  lemma SatNearest(e: Encoding, v: int, z: int)
    requires ValidEncoding(e) && InBounds(e, z)
    ensures var r := Normalize(e, v, Sat).value;
            InBounds(e, r) && Distance(v, r) <= Distance(v, z)
  {
  }

  /** WRAP gives the one representable value congruent modulo 2 to the width. */
  lemma WrapCongruent(e: Encoding, v: int)
    requires ValidEncoding(e)
    ensures var r := Normalize(e, v, Wrap).value;
            InBounds(e, r) && r % Pow2(e.bits) == v % Pow2(e.bits)
  {
    var m, r := Pow2(e.bits), Normalize(e, v, Wrap).value;
    assert m == 2 * Pow2(e.bits - 1);
    if !InBounds(e, v) {
      assert v == m * (v / m) + v % m;
      if r == v % m { DivUnique(r, m, 0, r); } else { DivUnique(r, m, -1, v % m); }
    }
  }

  lemma CongruentUnique(e: Encoding, a: int, b: int)
    requires ValidEncoding(e) && InBounds(e, a) && InBounds(e, b)
    requires a % Pow2(e.bits) == b % Pow2(e.bits)
    ensures a == b
  {
    assert Pow2(e.bits) == 2 * Pow2(e.bits - 1);
    ModNear(a, b, Pow2(e.bits));
  }

  /** Wrapping early or late makes no difference. */
  lemma WrapAdds(e: Encoding, x: int, y: int)
    requires ValidEncoding(e)
    ensures Normalize(e, Normalize(e, x, Wrap).value + y, Wrap).value == Normalize(e, x + y, Wrap).value
  {
    var w := Normalize(e, x, Wrap).value;
    WrapCongruent(e, x);
    WrapCongruent(e, w + y);
    WrapCongruent(e, x + y);
    ModAdd(w, x, y, Pow2(e.bits));
    hide Normalize, InBounds, Pow2;
    CongruentUnique(e, Normalize(e, w + y, Wrap).value, Normalize(e, x + y, Wrap).value);
  }
}

/** BITFIELD over an infinite bit string, and over the bytes of a value. */
module BitField {
  import opened Machine
  import opened BitString
  import opened BitEncoding

  datatype Op =
    | Get(encoding: Encoding, offset: nat)
    | Set(encoding: Encoding, offset: nat, value: i64, overflow: Overflow)
    | IncrBy(encoding: Encoding, offset: nat, increment: i64, overflow: Overflow)

  const MAX_STRING_BYTES := 512 * 1024 * 1024

  function EndBit(op: Op): nat
    requires ValidEncoding(op.encoding)
  {
    op.offset + op.encoding.bits - 1
  }

  /** What argument parsing guarantees of every sub-command. */
  predicate ValidOp(op: Op) {
    ValidEncoding(op.encoding) && EndBit(op) / 8 + 1 <= MAX_STRING_BYTES
  }

  predicate ValidOps(ops: seq<Op>) {
    forall i :: 0 <= i < |ops| ==> ValidOp(ops[i])
  }

  predicate IsWrite(op: Op) { op.Set? || op.IncrBy? }

  // ---- The simple semantics ----------------------------------------------------

  ghost function Value(bits: Bits, e: Encoding, off: nat): int
    requires ValidEncoding(e)
  {
    Represented(e, Field(bits, off, e.bits))
  }

  ghost function Put(bits: Bits, e: Encoding, off: nat, v: int): Bits
    requires ValidEncoding(e)
  {
    WriteBits(bits, off, e.bits, v % Pow2(e.bits))
  }

  ghost function Step(bits: Bits, op: Op): (Bits, Option<int>)
    requires ValidEncoding(op.encoding)
  {
    var was := Value(bits, op.encoding, op.offset);
    match op
    case Get(_, _) => (bits, Some(was))
    case Set(e, off, v, o) =>
      (match Normalize(e, v, o)
       case None => (bits, None)
       case Some(n) => (Put(bits, e, off, n), Some(was)))
    case IncrBy(e, off, inc, o) =>
      (match Normalize(e, was + inc, o)
       case None => (bits, None)
       case Some(n) => (Put(bits, e, off, n), Some(n)))
  }

  /** A plain fold over an infinite, zero-extended bit string. */
  ghost function Run(bits: Bits, ops: seq<Op>): (r: (Bits, seq<Option<int>>))
    requires ValidOps(ops)
    ensures |r.1| == |ops|
  {
    if ops == [] then (bits, [])
    else
      var (b, rs) := Run(bits, ops[..|ops| - 1]);
      var (b', r) := Step(b, ops[|ops| - 1]);
      (b', rs + [r])
  }

  // ---- Properties of the fold -----------------------------------------------------

  lemma FieldRepresents(bits: Bits, e: Encoding, off: nat)
    requires ValidEncoding(e)
    ensures InBounds(e, Value(bits, e, off))
    ensures Value(bits, e, off) % Pow2(e.bits) == Field(bits, off, e.bits)
  {
    var raw := Field(bits, off, e.bits);
    Pow2Words();
    Pow2Monotone(e.bits, 64);
    DecodeRepresents(e, raw);
    DecodeEncode(e, raw);
    EncodeIsRemainder(e, Decode(e, raw));
  }

  /** Reading back a written value returns it and every bit outside the field
      is untouched. */
  lemma PutGet(bits: Bits, e: Encoding, off: nat, v: int)
    requires ValidEncoding(e) && InBounds(e, v)
    ensures Value(Put(bits, e, off, v), e, off) == v
    ensures forall i: nat :: !(off <= i < off + e.bits) ==> (i in Put(bits, e, off, v) <==> i in bits)
  {
    BoundsFit(e, v);
    EncodeIsRemainder(e, v);
    EncodeDecode(e, v);
    DecodeRepresents(e, Encode(e, v));
    FieldOfWrite(bits, off, e.bits, v % Pow2(e.bits));
  }

  /** What a sub-command makes of the old value of its field. */
  function NewValue(op: Op, was: int): Option<int>
    requires ValidEncoding(op.encoding)
  {
    match op
    case Get(_, _) => None
    case Set(e, _, v, o) => Normalize(e, v, o)
    case IncrBy(e, _, inc, o) => Normalize(e, was + inc, o)
  }

  function Reply(op: Op, was: int): Option<int>
    requires ValidEncoding(op.encoding)
  {
    if op.Get? then Some(was)
    else if NewValue(op, was).None? then None
    else if op.Set? then Some(was) else NewValue(op, was)
  }

  function NewRaw(op: Op, was: int): nat
    requires ValidEncoding(op.encoding)
  {
    (if NewValue(op, was).Some? then NewValue(op, was).value else was) % Pow2(op.encoding.bits)
  }

  /** Every sub-command rewrites its own field from the old value of that
      field, and nothing else matters to it. */
  lemma StepIsLocal(bits: Bits, op: Op)
    requires ValidOp(op)
    ensures var was := Value(bits, op.encoding, op.offset);
            Step(bits, op) == (WriteBits(bits, op.offset, op.encoding.bits, NewRaw(op, was)), Reply(op, was))
  {
    hide Normalize, Represented, Field;
    FieldRepresents(bits, op.encoding, op.offset);
    WriteOfField(bits, op.offset, op.encoding.bits);
  }

  /** The value a write sub-command aims for, before any overflow policy. */
  function Target(op: Op, was: int): int
    requires IsWrite(op)
  {
    if op.Set? then op.value else was + op.increment
  }

  /** A write replies nil exactly if its policy is FAIL and its target does not
      fit, and then nothing changes. Otherwise the field holds the target
      itself if that fits, under SAT a value at least as near to it as any
      other, under WRAP one congruent to it; a SET replies the old value, an
      INCRBY the new. */
  lemma WriteExact(bits: Bits, op: Op)
    requires ValidOp(op) && IsWrite(op)
    ensures var e := op.encoding;
            var was := Value(bits, e, op.offset);
            var (after, reply) := Step(bits, op);
            var now := Value(after, e, op.offset);
            && (reply == None <==> op.overflow == Fail && !InBounds(e, Target(op, was)))
            && (reply == None ==> after == bits)
            && (reply != None ==> reply == Some(if op.Set? then was else now))
            && (InBounds(e, Target(op, was)) ==> now == Target(op, was))
            && (op.overflow.Sat? ==>
                  forall z :: InBounds(e, z) ==> Distance(Target(op, was), now) <= Distance(Target(op, was), z))
            && (op.overflow.Wrap? ==> now % Pow2(e.bits) == Target(op, was) % Pow2(e.bits))
            && (forall i: nat :: !(op.offset <= i <= EndBit(op)) ==> (i in after <==> i in bits))
  {
    hide Value, Put, Pow2;
    var e, was := op.encoding, Value(bits, op.encoding, op.offset);
    var n := Normalize(e, Target(op, was), op.overflow);
    if n.Some? {
      if op.overflow.Wrap? { WrapCongruent(e, Target(op, was)); }
      if op.overflow.Sat? {
        SatNearest(e, Target(op, was), was) by { FieldRepresents(bits, e, op.offset); }
        forall z | InBounds(e, z) ensures Distance(Target(op, was), n.value) <= Distance(Target(op, was), z) {
          SatNearest(e, Target(op, was), z);
        }
      }
      PutGet(bits, e, op.offset, n.value);
    }
  }

  /** Sub-commands on disjoint fields commute, replies included. */
  lemma DisjointStepsCommute(bits: Bits, a: Op, b: Op)
    requires ValidOp(a) && ValidOp(b)
    requires EndBit(a) < b.offset || EndBit(b) < a.offset
    ensures var (x, ra) := Step(bits, a);
            var (y, rb) := Step(bits, b);
            Step(x, b) == (Step(y, a).0, rb) && Step(y, a).1 == ra
  {
    hide Step, Represented, Field, WriteBits, NewRaw, Reply;
    var wa, wb := a.encoding.bits, b.encoding.bits;
    var ra := NewRaw(a, Value(bits, a.encoding, a.offset));
    var rb := NewRaw(b, Value(bits, b.encoding, b.offset));
    StepIsLocal(bits, a);
    StepIsLocal(bits, b);
    StepIsLocal(Step(bits, a).0, b);
    StepIsLocal(Step(bits, b).0, a);
    DisjointWrites(bits, a.offset, wa, ra, b.offset, wb, rb);
    DisjointWrites(bits, b.offset, wb, rb, a.offset, wa, ra);
  }

  function Sum(xs: seq<i64>): int {
    if xs == [] then 0 else Sum(xs[..|xs| - 1]) + xs[|xs| - 1]
  }

  function Increments(e: Encoding, off: nat, xs: seq<i64>): (ops: seq<Op>)
    ensures |ops| == |xs| && forall i :: 0 <= i < |xs| ==> ops[i] == IncrBy(e, off, xs[i], Wrap)
  {
    seq(|xs|, i requires 0 <= i < |xs| => IncrBy(e, off, xs[i], Wrap))
  }

  /** One more increment on a field that holds `v`. */
  lemma IncrementOnPut(bits: Bits, e: Encoding, off: nat, v: int, inc: i64)
    requires ValidEncoding(e) && InBounds(e, v)
    ensures var n := Normalize(e, v + inc, Wrap).value;
            Step(Put(bits, e, off, v), IncrBy(e, off, inc, Wrap)) == (Put(bits, e, off, n), Some(n))
  {
    hide Value, InBounds;
    PutGet(bits, e, off, v);
    WriteTwice(bits, off, e.bits, v % Pow2(e.bits), Normalize(e, v + inc, Wrap).value % Pow2(e.bits));
  }

  /** The last of a run of increments, after the others have been done. */
  lemma LastIncrement(bits: Bits, e: Encoding, off: nat, xs: seq<i64>)
    requires xs != [] && ValidOps(Increments(e, off, xs)) && ValidEncoding(e)
    requires var front := xs[..|xs| - 1];
             Run(bits, Increments(e, off, front)).0 ==
             Put(bits, e, off, Normalize(e, Value(bits, e, off) + Sum(front), Wrap).value)
    ensures var n := Normalize(e, Value(bits, e, off) + Sum(xs), Wrap);
            Run(bits, Increments(e, off, xs)) ==
            (Put(bits, e, off, n.value), Run(bits, Increments(e, off, xs[..|xs| - 1])).1 + [n])
  {
    hide Value, Put, Step, InBounds;
    var was, front, last := Value(bits, e, off), xs[..|xs| - 1], xs[|xs| - 1];
    assert Increments(e, off, xs)[..|xs| - 1] == Increments(e, off, front);
    var v := Normalize(e, was + Sum(front), Wrap).value;
    WrapCongruent(e, was + Sum(front));
    assert Normalize(e, was + Sum(xs), Wrap).Some?;
    hide Normalize;
    IncrementOnPut(bits, e, off, v, last);
    WrapAdds(e, was + Sum(front), last);
  }

  /** The wraps of a starting value plus each of the sums so far. */
  function RunningTotals(e: Encoding, was: int, xs: seq<i64>): (r: seq<Option<int>>)
    requires ValidEncoding(e)
    ensures |r| == |xs|
    ensures forall i :: 0 <= i < |xs| ==> r[i] == Normalize(e, was + Sum(xs[..i + 1]), Wrap)
  {
    if xs == [] then []
    else
      assert forall i {:trigger xs[i]} :: 0 <= i < |xs| - 1 ==> xs[..|xs| - 1][..i + 1] == xs[..i + 1];
      assert xs[..|xs|] == xs;
      RunningTotals(e, was, xs[..|xs| - 1]) + [Normalize(e, was + Sum(xs), Wrap)]
  }

  /** Any run of wrapping increments on one field is a single wrap of the old
      value plus their mathematical sum, and each reply is the wrap of the old
      value plus the sum so far. */
  lemma {:induction false} IncrementsCompose(bits: Bits, e: Encoding, off: nat, xs: seq<i64>)
    requires ValidOps(Increments(e, off, xs)) && ValidEncoding(e)
    ensures var was := Value(bits, e, off);
            Run(bits, Increments(e, off, xs)) ==
            (Put(bits, e, off, Normalize(e, was + Sum(xs), Wrap).value), RunningTotals(e, was, xs))
  {
    hide Value, Put, Step, InBounds, Normalize;
    if xs == [] {
      NoIncrement(bits, e, off);
    } else {
      var front := xs[..|xs| - 1];
      assert Increments(e, off, front) == Increments(e, off, xs)[..|xs| - 1];
      hide Run;
      IncrementsCompose(bits, e, off, front);
      LastIncrement(bits, e, off, xs);
    }
  }

  lemma NoIncrement(bits: Bits, e: Encoding, off: nat)
    requires ValidEncoding(e)
    ensures Put(bits, e, off, Normalize(e, Value(bits, e, off) + 0, Wrap).value) == bits
  {
    FieldRepresents(bits, e, off);
    WriteOfField(bits, off, e.bits);
  }

  // ---- The byte-level engine ------------------------------------------------------

  /** The furthest bit that a write sub-command touches. */
  function HighestWriteEnd(ops: seq<Op>): (r: Option<nat>)
    requires ValidOps(ops)
    ensures r.None? <==> forall i :: 0 <= i < |ops| ==> !IsWrite(ops[i])
    ensures r.Some? ==> exists i :: 0 <= i < |ops| && IsWrite(ops[i]) && EndBit(ops[i]) == r.value
    ensures r.Some? ==> forall i :: 0 <= i < |ops| && IsWrite(ops[i]) ==> EndBit(ops[i]) <= r.value
  {
    if ops == [] then None
    else
      var rest := HighestWriteEnd(ops[1..]);
      assert forall i :: 0 < i < |ops| ==> ops[i] == ops[1..][i - 1];
      if !IsWrite(ops[0]) then rest
      else if rest.Some? && rest.value >= EndBit(ops[0]) then rest
      else Some(EndBit(ops[0]))
  }

  /** Stores one bit; every other bit keeps its value. */
  function StoreBit(b: bytes, i: nat, one: bool): (r: bytes)
    requires i < 8 * |b|
    ensures |r| == |b| && forall j: nat :: BitAt(r, j) <==> if j == i then one else BitAt(b, j)
  {
    var k, p := i / 8, 7 - i % 8;
    var r := b[k := if one then SetMask(b[k], p) else ClearMask(b[k], p)];
    assert forall j: nat :: j / 8 == k && j != i ==> 7 - j % 8 != p;
    r
  }

  class BitBuffer {
    var data: bytes

    constructor (source: bytes)
      ensures data == source
    {
      data := source;
    }

    /** `read_bitfield`: shift the bits in one at a time. */
    method ReadField(e: Encoding, off: nat) returns (v: i64)
      requires ValidEncoding(e)
      ensures v == Value(Ones(data), e, off)
    {
      var raw: nat := 0;
      for k := 0 to e.bits
        invariant raw == Field(Ones(data), off, k)
      {
        var bit := if (off + k) / 8 < |data| then Digit(data[(off + k) / 8], 7 - (off + k) % 8) else 0;
        assert bit == if off + k in Ones(data) then 1 else 0;
        raw := 2 * raw + bit;
      }
      assert raw < U64_LIMIT by {
        Pow2Words();
        Pow2Monotone(e.bits, 64);
      }
      DecodeRepresents(e, raw);
      v := Decode(e, raw);
    }

    /** `write_bitfield`: store the bits of the pattern one at a time. */
    method WriteField(e: Encoding, off: nat, v: i64)
      requires ValidEncoding(e) && off + e.bits <= 8 * |data|
      modifies this
      ensures |data| == old(|data|)
      ensures Ones(data) == Put(old(Ones(data)), e, off, v)
    {
      EncodeIsRemainder(e, v);
      var raw := Encode(e, v);
      for k := 0 to e.bits
        invariant |data| == old(|data|)
        invariant forall j: nat :: BitAt(data, j) <==>
                    if off <= j < off + k then Digit(raw, off + e.bits - 1 - j) == 1 else BitAt(old(data), j)
      {
        data := StoreBit(data, off + k, Digit(raw, e.bits - 1 - k) == 1);
      }
    }

    /** `prepare_write_buffer`: zero-extend to the furthest write. */
    method PrepareWriteBuffer(ops: seq<Op>)
      requires ValidOps(ops)
      modifies this
      ensures Ones(data) == old(Ones(data))
      ensures var end := HighestWriteEnd(ops);
              |data| == if end.Some? && old(|data|) < end.value / 8 + 1 then end.value / 8 + 1 else old(|data|)
      ensures HighestWriteEnd(ops).None? ==> data == old(data)
    {
      var end := HighestWriteEnd(ops);
      if end.None? {
        return;
      }
      var required := end.value / 8 + 1;
      if |data| < required {
        ZeroExtends(data, required - |data|);
        data := data + Zeros(required - |data|);
      }
    }

    method ExecuteOne(op: Op) returns (reply: Option<int>)
      requires ValidOp(op) && (IsWrite(op) ==> EndBit(op) < 8 * |data|)
      modifies this
      ensures |data| == old(|data|)
      ensures (Ones(data), reply) == Step(old(Ones(data)), op)
      ensures op.Get? ==> data == old(data)
    {
      var current := ReadField(op.encoding, op.offset);
      match op
      case Get(_, _) =>
        reply := Some(current);
      case Set(e, off, value, overflow) =>
        var n := Normalize(e, value, overflow);
        reply := None;
        if n.Some? {
          NormalizedFits(e, value, overflow);
          WriteField(e, off, n.value);
          reply := Some(current);
        }
      case IncrBy(e, off, increment, overflow) =>
        var n := Normalize(e, current + increment, overflow);
        reply := None;
        if n.Some? {
          NormalizedFits(e, current + increment, overflow);
          WriteField(e, off, n.value);
          reply := Some(n.value);
        }
    }

    /** `execute_operations` gives the replies and final bits of the fold; the
        length is decided by the furthest write; reads alone change nothing. */
    method ExecuteOperations(ops: seq<Op>) returns (replies: seq<Option<int>>)
      requires ValidOps(ops)
      modifies this
      ensures (Ones(data), replies) == Run(old(Ones(data)), ops)
      ensures var end := HighestWriteEnd(ops);
              |data| == if end.Some? && old(|data|) < end.value / 8 + 1 then end.value / 8 + 1 else old(|data|)
      ensures (forall i :: 0 <= i < |ops| ==> !IsWrite(ops[i])) ==> data == old(data)
    {
      PrepareWriteBuffer(ops);
      ghost var prepared := data;
      replies := [];
      for i := 0 to |ops|
        invariant |data| == |prepared|
        invariant (Ones(data), replies) == Run(old(Ones(data)), ops[..i])
        invariant HighestWriteEnd(ops).None? ==> data == prepared
      {
        var reply := ExecuteOne(ops[i]);
        assert ops[..i + 1][..i] == ops[..i];
        replies := replies + [reply];
      }
      assert ops[..|ops|] == ops;
    }
  }

  function Zeros(n: nat): (z: bytes)
    ensures |z| == n && forall i :: 0 <= i < n ==> z[i] == 0
  {
    if n == 0 then [] else [0] + Zeros(n - 1)
  }

  /** Zero bytes at the end are invisible. */
  lemma ZeroExtends(b: bytes, n: nat)
    ensures Ones(b + Zeros(n)) == Ones(b)
  {
    forall i: nat ensures BitAt(b + Zeros(n), i) <==> BitAt(b, i) {
      ZeroDigits(7 - i % 8);
    }
  }

  lemma NormalizedFits(e: Encoding, v: int, o: Overflow)
    requires ValidEncoding(e) && Normalize(e, v, o).Some?
    ensures I64_MIN <= Normalize(e, v, o).value <= I64_MAX
  {
    WrapCongruent(e, v);
    BoundsFit(e, Normalize(e, v, o).value);
  }
}
