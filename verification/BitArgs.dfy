/** Argument parsing of BITFIELD. */
module BitArgs {
  import opened Machine
  import opened Decimal
  import opened BitEncoding
  import opened BitField

  datatype ArgError = Syntax | BadType | BadOffset | BadInteger | BadOverflow
  datatype Parsed<T> = Ok(value: T) | Err(error: ArgError)

  const GET: bytes := [71, 69, 84]
  const SET: bytes := [83, 69, 84]
  const INCRBY: bytes := [73, 78, 67, 82, 66, 89]
  const OVERFLOW: bytes := [79, 86, 69, 82, 70, 76, 79, 87]
  const WRAP: bytes := [87, 82, 65, 80]
  const SAT: bytes := [83, 65, 84]
  const FAIL: bytes := [70, 65, 73, 76]

  /** `to_ascii_uppercase`. */
  function Upper(s: bytes): (r: bytes)
    ensures |r| == |s|
  {
    seq(|s|, i requires 0 <= i < |s| => if 97 <= s[i] <= 122 then s[i] - 32 else s[i])
  }

  function ParseEncoding(t: bytes): (r: Parsed<Encoding>)
    ensures r.Ok? ==> ValidEncoding(r.value)
  {
    if |t| < 2 || (t[0] != 105 && t[0] != 117) then Err(BadType)
    else
      match ParseU64(t[1..])
      case None => Err(BadType)
      case Some(bits) =>
        var e := Encoding(t[0] == 105, bits);
        if bits < 256 && ValidEncoding(e) then Ok(e) else Err(BadType)
  }

  /** The first bit of the n-th field of this width. */
  function Scaled(n: nat, e: Encoding): nat
    requires ValidEncoding(e)
  {
    n * e.bits
  }

  /** A bit offset, or `#n` for the n-th field of this width. */
  function ParseOffset(t: bytes, e: Encoding): (r: Parsed<nat>)
    requires ValidEncoding(e)
    ensures r.Ok? ==> ValidOp(Get(e, r.value))
  {
    var scaled := t != [] && t[0] == 35;
    match ParseU64(if scaled then t[1..] else t)
    case None => Err(BadOffset)
    case Some(base) =>
      var offset := if scaled then Scaled(base, e) else base;
      if offset >= U64_LIMIT || offset + e.bits - 1 >= U64_LIMIT then Err(BadOffset)
      else if (offset + e.bits - 1) / 8 + 1 > MAX_STRING_BYTES then Err(BadOffset)
      else Ok(offset)
  }

  function ParseInteger(t: bytes): Parsed<i64> {
    match ParseI64(t) case None => Err(BadInteger) case Some(n) => Ok(n)
  }

  function ParseOverflow(t: bytes): Parsed<Overflow> {
    if Upper(t) == WRAP then Ok(Wrap)
    else if Upper(t) == SAT then Ok(Sat)
    else if Upper(t) == FAIL then Ok(Fail)
    else Err(BadOverflow)
  }

  /** One sub-command and the number of arguments it takes; `OVERFLOW` yields
      no sub-command but changes the policy. */
  datatype Item = Item(op: Option<Op>, overflow: Overflow, used: nat)

  function ParseItem(items: seq<bytes>, overflow: Overflow): (r: Parsed<Item>)
    requires items != []
    ensures r.Ok? ==> 1 <= r.value.used <= |items|
    ensures r.Ok? && r.value.op.Some? ==> ValidOp(r.value.op.value)
  {
    var name := Upper(items[0]);
    if name == GET || name == SET || name == INCRBY then
      var used := if name == GET then 3 else 4;
      if |items| < used then Err(Syntax)
      else
        match ParseEncoding(items[1])
        case Err(x) => Err(x)
        case Ok(e) =>
          match ParseOffset(items[2], e)
          case Err(x) => Err(x)
          case Ok(off) =>
            if name == GET then Ok(Item(Some(Get(e, off)), overflow, used))
            else
              match ParseInteger(items[3])
              case Err(x) => Err(x)
              case Ok(n) =>
                var op := if name == SET then Set(e, off, n, overflow) else IncrBy(e, off, n, overflow);
                Ok(Item(Some(op), overflow, used))
    else if name == OVERFLOW then
      if |items| < 2 then Err(Syntax)
      else
        match ParseOverflow(items[1])
        case Err(x) => Err(x)
        case Ok(o) => Ok(Item(None, o, 2))
    else Err(Syntax)
  }

  function Cons(op: Option<Op>, rest: Parsed<seq<Op>>): Parsed<seq<Op>> {
    if op.None? || rest.Err? then rest else Ok([op.value] + rest.value)
  }

  /** All sub-commands, each with the policy in force where it stands. */
  function ParseOps(items: seq<bytes>, overflow: Overflow): (r: Parsed<seq<Op>>)
    ensures r.Ok? ==> ValidOps(r.value)
    decreases |items|
  {
    if items == [] then Ok([])
    else
      match ParseItem(items, overflow)
      case Err(x) => Err(x)
      case Ok(item) => Cons(item.op, ParseOps(items[item.used..], item.overflow))
  }

  function Before(ops: seq<Op>, rest: Parsed<seq<Op>>): Parsed<seq<Op>> {
    if rest.Err? then rest else Ok(ops + rest.value)
  }

  /** The argument loop, which keeps the policy and the position in variables;
      everything it accepts can be executed. */
  method ParseArgs(items: seq<bytes>) returns (r: Parsed<seq<Op>>)
    ensures r == ParseOps(items, Wrap)
    ensures r.Ok? ==> ValidOps(r.value)
  {
    hide ParseItem;
    var operations: seq<Op>, overflow, index := [], Wrap, 0;
    assert ParseOps(items, Wrap).Ok? ==> [] + ParseOps(items, Wrap).value == ParseOps(items, Wrap).value;
    assert items[0..] == items;
    while index < |items|
      invariant 0 <= index <= |items|
      invariant ParseOps(items, Wrap) == Before(operations, ParseOps(items[index..], overflow))
      decreases |items| - index
    {
      var item := ParseItem(items[index..], overflow);
      if item.Err? {
        return Err(item.error);
      }
      var used := item.value.used;
      assert items[index..][used..] == items[index + used..];
      ghost var rest := ParseOps(items[index + used..], item.value.overflow);
      if item.value.op.Some? {
        assert rest.Ok? ==> operations + ([item.value.op.value] + rest.value) ==
                            (operations + [item.value.op.value]) + rest.value;
        operations := operations + [item.value.op.value];
      }
      overflow := item.value.overflow;
      index := index + used;
    }
    assert operations + [] == operations;
    return Ok(operations);
  }

  // ---- Exactly which texts are accepted --------------------------------------------

  /** `name`, which is in upper case, with each letter in either case. */
  predicate Spelt(t: bytes, name: bytes) {
    |t| == |name| && forall i :: 0 <= i < |t| ==> t[i] == name[i] || (t[i] >= 32 && t[i] - 32 == name[i])
  }

  lemma UpperExact(t: bytes, name: bytes)
    requires forall i :: 0 <= i < |name| ==> 65 <= name[i] <= 90
    ensures Upper(t) == name <==> Spelt(t, name)
  {
    if Upper(t) == name {
      forall i | 0 <= i < |t| ensures t[i] == name[i] || (t[i] >= 32 && t[i] - 32 == name[i]) {
        assert Upper(t)[i] == name[i];
      }
    }
  }

  lemma NamesDiffer(t: bytes)
    ensures Spelt(t, GET) ==> !Spelt(t, SET)
    ensures Spelt(t, WRAP) ==> !Spelt(t, FAIL)
  {
    assert GET[0] == 71 && SET[0] == 83 && WRAP[0] == 87 && FAIL[0] == 70;
  }

  lemma NameExact(t: bytes)
    ensures Upper(t) == GET <==> Spelt(t, GET)
    ensures Upper(t) == SET <==> Spelt(t, SET)
    ensures Upper(t) == INCRBY <==> Spelt(t, INCRBY)
    ensures Upper(t) == OVERFLOW <==> Spelt(t, OVERFLOW)
  {
    UpperExact(t, GET);
    UpperExact(t, SET);
    UpperExact(t, INCRBY);
    UpperExact(t, OVERFLOW);
  }

  lemma PolicyExact(t: bytes, o: Overflow)
    ensures ParseOverflow(t) == Ok(o) <==> Spelt(t, OverflowText(o))
  {
    UpperExact(t, WRAP);
    UpperExact(t, SAT);
    UpperExact(t, FAIL);
    NamesDiffer(t);
  }

  /** A number without a minus sign; a plus sign and zeros may precede it. */
  ghost predicate SpellsNat(t: bytes, n: nat) {
    n < U64_LIMIT && (Spells(t, [], n) || Spells(t, [PLUS], n))
  }

  ghost predicate SpellsEncoding(t: bytes, e: Encoding) {
    ValidEncoding(e) && t != [] && t[0] == (if e.signed then 105 else 117) && SpellsNat(t[1..], e.bits)
  }

  /** The offset itself, or `#` and the number of the field. */
  ghost predicate SpellsOffset(t: bytes, e: Encoding, off: nat)
    requires ValidEncoding(e)
  {
    && off + e.bits <= 8 * 512 * 1024 * 1024
    && (SpellsNat(t, off) || (t != [] && t[0] == 35 && exists n: nat :: SpellsNat(t[1..], n) && off == n * e.bits))
  }

  lemma NatExact(t: bytes, n: nat)
    ensures ParseU64(t) == Some(n) <==> SpellsNat(t, n)
    ensures SpellsNat(t, n) ==> t != [] && t[0] != 35
  {
    ParseU64Exact(t, n);
    SignedText(t, n);
  }

  lemma EncodingExact(t: bytes, e: Encoding)
    ensures ParseEncoding(t) == Ok(e) <==> SpellsEncoding(t, e)
  {
    hide ParseU64, SpellsNat;
    if |t| >= 1 {
      if e.bits >= 0 { NatExact(t[1..], e.bits); }
      if ParseEncoding(t).Ok? { NatExact(t[1..], ParseEncoding(t).value.bits); }
    }
  }

  lemma OffsetExact(t: bytes, e: Encoding, off: nat)
    requires ValidEncoding(e)
    ensures ParseOffset(t, e) == Ok(off) <==> SpellsOffset(t, e, off)
  {
    hide ParseU64, SpellsNat;
    NatExact(t, off);
    if t != [] && t[0] == 35 {
      forall n: nat { NatExact(t[1..], n); }
    }
  }

  // ---- The whole argument list -------------------------------------------------------

  /** One unit of the argument list: a change of policy or a sub-command, whose
      own policy field means nothing here. */
  datatype Arg = Policy(o: Overflow) | Do(op: Op)

  function Under(op: Op, o: Overflow): Op {
    match op
    case Get(_, _) => op
    case Set(e, off, v, _) => Set(e, off, v, o)
    case IncrBy(e, off, n, _) => IncrBy(e, off, n, o)
  }

  /** The sub-commands, each under the policy last named before it. */
  function Policed(args: seq<Arg>, o: Overflow): seq<Op> {
    if args == [] then []
    else match args[0]
         case Policy(p) => Policed(args[1..], p)
         case Do(op) => [Under(op, o)] + Policed(args[1..], o)
  }

  /** `ts` are the arguments of one unit. */
  ghost predicate SpellsArg(ts: seq<bytes>, a: Arg) {
    match a
    case Policy(o) => |ts| == 2 && Spelt(ts[0], OVERFLOW) && Spelt(ts[1], OverflowText(o))
    case Do(op) =>
      && |ts| == (if op.Get? then 3 else 4)
      && Spelt(ts[0], if op.Get? then GET else if op.Set? then SET else INCRBY)
      && SpellsEncoding(ts[1], op.encoding) && SpellsOffset(ts[2], op.encoding, op.offset)
      && (op.Set? ==> ParseI64(ts[3]) == Some(op.value)) && (op.IncrBy? ==> ParseI64(ts[3]) == Some(op.increment))
  }

  ghost predicate SpellsArgs(ts: seq<bytes>, args: seq<Arg>)
    decreases |args|
  {
    if args == [] then ts == []
    else exists k :: 0 < k <= |ts| && SpellsArg(ts[..k], args[0]) && SpellsArgs(ts[k..], args[1..])
  }

  /** The item that a unit makes under a policy. */
  function ItemOf(a: Arg, o: Overflow): Item {
    match a
    case Policy(p) => Item(None, p, 2)
    case Do(op) => Item(Some(Under(op, o)), o, if op.Get? then 3 else 4)
  }

  lemma ArgParses(ts: seq<bytes>, k: nat, a: Arg, o: Overflow)
    requires k <= |ts| && SpellsArg(ts[..k], a)
    ensures 0 < k && ParseItem(ts, o) == Ok(ItemOf(a, o)) && ItemOf(a, o).used == k
  {
    hide ParseEncoding, ParseOffset, ParseI64, Upper, SpellsEncoding, SpellsOffset, Spelt, ParseOverflow;
    NameExact(ts[0]);
    NamesApart(ts[0]);
    assert forall i :: 0 <= i < k ==> ts[..k][i] == ts[i];
    match a
    case Policy(p) => PolicyExact(ts[1], p);
    case Do(op) =>
      EncodingExact(ts[1], op.encoding);
      assert ValidEncoding(op.encoding) by { assert SpellsEncoding(ts[1], op.encoding); EncodingValid(ts[1], op.encoding); }
      OffsetExact(ts[2], op.encoding, op.offset);
  }

  lemma EncodingValid(t: bytes, e: Encoding)
    requires SpellsEncoding(t, e)
    ensures ValidEncoding(e)
  {
  }

  lemma NamesApart(t: bytes)
    ensures Spelt(t, GET) ==> !Spelt(t, SET) && !Spelt(t, INCRBY) && !Spelt(t, OVERFLOW)
    ensures Spelt(t, SET) ==> !Spelt(t, INCRBY) && !Spelt(t, OVERFLOW)
    ensures Spelt(t, INCRBY) ==> !Spelt(t, OVERFLOW)
  {
    NamesDiffer(t);
  }

  lemma ItemSpells(ts: seq<bytes>, o: Overflow) returns (a: Arg)
    requires ts != [] && ParseItem(ts, o).Ok?
    ensures var item := ParseItem(ts, o).value;
            item == ItemOf(a, o) && SpellsArg(ts[..item.used], a)
  {
    hide ParseEncoding, ParseOffset, ParseI64, Upper, SpellsEncoding, SpellsOffset, Spelt, ParseOverflow;
    NameExact(ts[0]);
    var item := ParseItem(ts, o).value;
    assert forall i :: 0 <= i < item.used ==> ts[..item.used][i] == ts[i];
    if item.op.None? {
      a := Policy(item.overflow);
      PolicyExact(ts[1], item.overflow);
    } else {
      var op := item.op.value;
      a := Do(op);
      EncodingExact(ts[1], op.encoding);
      OffsetExact(ts[2], op.encoding, op.offset);
    }
  }

  lemma {:induction false} SpelledParses(ts: seq<bytes>, args: seq<Arg>, o: Overflow)
    requires SpellsArgs(ts, args)
    ensures ParseOps(ts, o) == Ok(Policed(args, o))
    decreases |args|
  {
    hide ParseItem, SpellsArg;
    if args != [] {
      var k :| 0 < k <= |ts| && SpellsArg(ts[..k], args[0]) && SpellsArgs(ts[k..], args[1..]);
      ArgParses(ts, k, args[0], o);
      SpelledParses(ts[k..], args[1..], ItemOf(args[0], o).overflow);
    }
  }

  lemma {:induction false} ParsedSpells(ts: seq<bytes>, o: Overflow) returns (args: seq<Arg>)
    requires ParseOps(ts, o).Ok?
    ensures SpellsArgs(ts, args) && Policed(args, o) == ParseOps(ts, o).value
    decreases |ts|
  {
    hide ParseItem, SpellsArg;
    if ts == [] {
      args := [];
    } else {
      var item := ParseItem(ts, o).value;
      var a := ItemSpells(ts, o);
      var rest := ParsedSpells(ts[item.used..], item.overflow);
      args := [a] + rest;
      assert args[1..] == rest;
    }
  }

  /** An argument list is accepted exactly if it spells units, in any case and
      with any zeros, and what it yields is their sub-commands, each under the
      policy last named before it, from whatever initial policy. */
  lemma ArgsExact(ts: seq<bytes>, o: Overflow, ops: seq<Op>)
    ensures ParseOps(ts, o) == Ok(ops) <==> exists args :: SpellsArgs(ts, args) && Policed(args, o) == ops
  {
    hide ParseOps, SpellsArgs, Policed;
    if ParseOps(ts, o) == Ok(ops) { var args := ParsedSpells(ts, o); }
    forall args | SpellsArgs(ts, args) && Policed(args, o) == ops ensures ParseOps(ts, o) == Ok(ops) {
      SpelledParses(ts, args, o);
    }
  }

  predicate IsShort(ts: seq<bytes>)
    requires ts != []
  {
    |ts| < (if Spelt(ts[0], GET) then 3 else if Spelt(ts[0], OVERFLOW) then 2 else 4)
  }

  /** Why a unit is refused: unknown or incomplete, or else the first of its
      parts that spells nothing. */
  lemma ItemRefused(ts: seq<bytes>, o: Overflow)
    requires ts != [] && ParseItem(ts, o).Err?
    ensures var write := Spelt(ts[0], SET) || Spelt(ts[0], INCRBY);
            ParseItem(ts, o).error ==
              if !(Spelt(ts[0], GET) || write || Spelt(ts[0], OVERFLOW)) || IsShort(ts) then Syntax
              else if Spelt(ts[0], OVERFLOW) then BadOverflow
              else if forall e :: !SpellsEncoding(ts[1], e) then BadType
              else if forall e, off: nat :: SpellsEncoding(ts[1], e) ==> !SpellsOffset(ts[2], e, off) then BadOffset
              else BadInteger
  {
    hide ParseI64, Upper, SpellsEncoding, SpellsOffset, Spelt, ParseU64;
    NameExact(ts[0]);
    NamesApart(ts[0]);
    if !IsShort(ts) && !Spelt(ts[0], OVERFLOW) {
      forall e { EncodingExact(ts[1], e); }
      var parsed := ParseEncoding(ts[1]);
      if parsed.Ok? {
        assert SpellsEncoding(ts[1], parsed.value);
        forall off: nat { OffsetExact(ts[2], parsed.value, off); }
      }
    }
  }

  /** The policy in force after these units. */
  function LastPolicy(args: seq<Arg>, o: Overflow): Overflow {
    if args == [] then o else LastPolicy(args[1..], if args[0].Policy? then args[0].o else o)
  }

  /** A list is refused for the first unit that is, whatever follows it. */
  lemma {:induction false} FirstErrorWins(ts: seq<bytes>, k: nat, args: seq<Arg>, o: Overflow, x: ArgError)
    requires k < |ts| && SpellsArgs(ts[..k], args) && ParseItem(ts[k..], LastPolicy(args, o)) == Err(x)
    ensures ParseOps(ts, o) == Err(x)
    decreases |args|
  {
    hide ParseItem, SpellsArg;
    if args == [] {
      assert ts[0..] == ts;
    } else {
      var front := ts[..k];
      var j :| 0 < j <= |front| && SpellsArg(front[..j], args[0]) && SpellsArgs(front[j..], args[1..]);
      assert front[..j] == ts[..j] && front[j..] == ts[j..][..k - j] && ts[j..][k - j..] == ts[k..];
      ArgParses(ts, j, args[0], o);
      FirstErrorWins(ts[j..], k - j, args[1..], ItemOf(args[0], o).overflow, x);
    }
  }

  // ---- Printing and parsing back ------------------------------------------------

  function OverflowText(o: Overflow): bytes {
    match o case Wrap => WRAP case Sat => SAT case Fail => FAIL
  }

  function EncodingText(e: Encoding): bytes {
    [if e.signed then 105 else 117] + Print(e.bits)
  }

  function OpText(op: Op): seq<bytes> {
    match op
    case Get(e, off) => [GET, EncodingText(e), Print(off)]
    case Set(e, off, v, o) => [SET, EncodingText(e), Print(off), Print(v)]
    case IncrBy(e, off, n, o) => [INCRBY, EncodingText(e), Print(off), Print(n)]
  }

  /** Each write sub-command preceded by its policy. */
  function ArgsOf(ops: seq<Op>): seq<bytes> {
    if ops == [] then []
    else (if IsWrite(ops[0]) then [OVERFLOW, OverflowText(ops[0].overflow)] else []) + OpText(ops[0]) + ArgsOf(ops[1..])
  }

  lemma UpperNames()
    ensures Upper(GET) == GET && Upper(SET) == SET && Upper(INCRBY) == INCRBY && Upper(OVERFLOW) == OVERFLOW
    ensures forall o :: ParseOverflow(OverflowText(o)) == Ok(o)
  {
    assert Upper(WRAP) == WRAP && Upper(SAT) == SAT && Upper(FAIL) == FAIL;
  }

  lemma NatTextParses(n: nat)
    ensures ParseU64(Print(n)) == (if n < U64_LIMIT then Some(n) else None) && Print(n)[0] != 35
  {
    PrintMagnitude(n);
    assert IsDigit(Print(n)[0]);
  }

  lemma EncodingTextParses(e: Encoding)
    requires ValidEncoding(e)
    ensures ParseEncoding(EncodingText(e)) == Ok(e)
  {
    NatTextParses(e.bits);
    assert EncodingText(e)[1..] == Print(e.bits);
  }

  lemma OffsetTextParses(e: Encoding, off: nat)
    requires ValidOp(Get(e, off))
    ensures ParseOffset(Print(off), e) == Ok(off)
  {
    NatTextParses(off);
  }

  /** `#n` is the offset `n` times the width, errors included. */
  lemma ScaledOffset(e: Encoding, n: u64)
    requires ValidEncoding(e)
    ensures ParseOffset([35] + Print(n), e) == ParseOffset(Print(n * e.bits), e)
  {
    hide ParseU64, Print;
    assert ([35] + Print(n))[1..] == Print(n);
    NatTextParses(n);
    NatTextParses(n * e.bits);
  }

  lemma OpTextParses(op: Op, o: Overflow, rest: seq<bytes>)
    requires ValidOp(op) && (IsWrite(op) ==> op.overflow == o)
    ensures ParseItem(OpText(op) + rest, o) == Ok(Item(Some(op), o, |OpText(op)|))
  {
    hide ParseEncoding, ParseOffset, ParseI64, Print, Upper;
    UpperNames();
    EncodingTextParses(op.encoding);
    OffsetTextParses(op.encoding, op.offset);
    if op.Set? { ParsePrint(op.value); }
    if op.IncrBy? { ParsePrint(op.increment); }
  }

  /** One more sub-command in front, its policy named or still in force. */
  lemma {:induction false} OneMoreParses(op: Op, named: bool, o: Overflow, rest: seq<bytes>, tail: seq<Op>)
    requires ValidOp(op) && (named ==> IsWrite(op)) && (IsWrite(op) && !named ==> op.overflow == o)
    requires ParseOps(rest, if IsWrite(op) then op.overflow else o) == Ok(tail)
    ensures ParseOps((if named then [OVERFLOW, OverflowText(op.overflow)] else []) + OpText(op) + rest, o) == Ok([op] + tail)
  {
    hide ParseItem, OpText, ValidOp;
    var policy := if IsWrite(op) then op.overflow else o;
    OpTextParses(op, policy, rest);
    OpTextNonEmpty(op);
    var after := OpText(op) + rest;
    assert after[|OpText(op)|..] == rest;
    assert ParseOps(after, policy) == Ok([op] + tail);
    if named {
      PolicyParses(op.overflow, o, after);
      var all := [OVERFLOW, OverflowText(op.overflow)] + after;
      assert [OVERFLOW, OverflowText(op.overflow)] + OpText(op) + rest == all && all[2..] == after;
    } else {
      assert [] + OpText(op) + rest == after;
    }
  }

  /** Printed sub-commands parse back to themselves under any initial policy. */
  lemma {:induction false} ArgsParseBack(ops: seq<Op>, o: Overflow)
    requires ValidOps(ops)
    ensures ParseOps(ArgsOf(ops), o) == Ok(ops)
  {
    hide ParseOps, OpText, ValidOp;
    if ops == [] {
      NothingParses(o);
    } else {
      ArgsParseBack(ops[1..], if IsWrite(ops[0]) then ops[0].overflow else o);
      OneMoreParses(ops[0], IsWrite(ops[0]), o, ArgsOf(ops[1..]), ops[1..]);
      assert [ops[0]] + ops[1..] == ops;
    }
  }

  lemma NothingParses(o: Overflow)
    ensures ParseOps([], o) == Ok([])
  {
  }

  /** The shortest way to write it: a policy is named only where it changes. */
  function SparseArgs(ops: seq<Op>, o: Overflow): seq<bytes> {
    if ops == [] then []
    else
      (if IsWrite(ops[0]) && ops[0].overflow != o then [OVERFLOW, OverflowText(ops[0].overflow)] else []) + OpText(ops[0])
      + SparseArgs(ops[1..], if IsWrite(ops[0]) then ops[0].overflow else o)
  }

  /** A policy once named stays in force until the next one is. */
  lemma {:induction false} SparseParsesBack(ops: seq<Op>, o: Overflow)
    requires ValidOps(ops)
    ensures ParseOps(SparseArgs(ops, o), o) == Ok(ops)
  {
    hide ParseOps, OpText, ValidOp;
    if ops == [] {
      NothingParses(o);
    } else {
      var policy := if IsWrite(ops[0]) then ops[0].overflow else o;
      SparseParsesBack(ops[1..], policy);
      OneMoreParses(ops[0], policy != o, o, SparseArgs(ops[1..], policy), ops[1..]);
      assert [ops[0]] + ops[1..] == ops;
    }
  }

  lemma OpTextNonEmpty(op: Op)
    ensures |OpText(op)| >= 3
  {
  }

  lemma PolicyParses(o: Overflow, before: Overflow, rest: seq<bytes>)
    ensures ParseItem([OVERFLOW, OverflowText(o)] + rest, before) == Ok(Item(None, o, 2))
  {
    UpperNames();
    assert OVERFLOW != GET && OVERFLOW != SET && OVERFLOW != INCRBY;
  }
}
