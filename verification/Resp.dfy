/** Values and the RESP decoder of `protocol/resp.rs`. */
module RespParser {
  import opened Machine
  import opened Decimal

  /** Semantic reply values; doubles are kept as their text. */
  datatype Value =
    | SimpleString(text: bytes)
    | Error(text: bytes)
    | Integer(n: i64)
    | BulkString(data: Option<bytes>)
    | Array(items: seq<Value>)
    | NullArray
    | Null
    | Map(pairs: seq<Pair>)
    | Set(members: seq<Value>)
    | Push(members: seq<Value>)
    | Boolean(b: bool)
    | Double(repr: bytes)
    | BigNumber(text: bytes)
    | VerbatimString(format: bytes, payload: bytes)
    | BulkError(text: bytes)
    | MemberScores(scores: seq<(bytes, bytes)>)
    | Batch(frames: seq<Value>)

  datatype Pair = Pair(key: Value, val: Value)

  datatype Kind = KArray | KMap | KSet | KPush | KAttribute

  /** Metadata of one parsed element; `len` is its full size on the wire. */
  datatype Parser =
    | PString(len: nat)
    | PError(len: nat)
    | PInteger(len: nat, value: i64)
    | PBytes(len: nat, body: Option<(nat, nat)>)
    | PBulkError(len: nat, pos: nat, size: nat)
    | PVerbatim(len: nat, pos: nat, size: nat)
    | PNull(len: nat)
    | PBoolean(len: nat, b: bool)
    | PDouble(len: nat, repr: bytes)
    | PBigNumber(len: nat)
    | PNullArray(len: nat)
    | PAggregate(kind: Kind, len: nat, pos: nat, children: seq<Parser>)

  const CRLF: bytes := [13, 10]

  predicate CrLfAt(b: bytes, i: int) {
    0 <= i && i + 1 < |b| && b[i] == 13 && b[i + 1] == 10
  }

  predicate NoCrLf(b: bytes) {
    forall i :: 0 <= i < |b| - 1 ==> !CrLfAt(b, i)
  }

  /** Index of the first CRLF. */
  function FindLine(b: bytes, from: nat := 0): (r: Option<nat>)
    requires from <= |b|
    ensures r.Some? ==> from <= r.value && CrLfAt(b, r.value)
    ensures forall i :: from <= i < (if r.Some? then r.value else |b|) ==> !CrLfAt(b, i)
    decreases |b| - from
  {
    if from + 1 >= |b| then None
    else if CrLfAt(b, from) then Some(from)
    else FindLine(b, from + 1)
  }

  /** `(line, full length)` of a line that starts with a mode byte. */
  function ReadLine(b: bytes): (r: Option<(bytes, nat)>)
    requires b != []
    ensures r.Some? ==> 3 <= r.value.1 <= |b| && r.value.0 == b[1..r.value.1 - 2]
  {
    match FindLine(b[1..])
    case None => None
    case Some(index) => Some((b[1..index + 1], index + 3))
  }

  function ReadI64(b: bytes): (r: Option<(i64, nat)>)
    requires b != []
    ensures r.Some? ==> 3 <= r.value.1 <= |b|
  {
    match ReadLine(b)
    case None => None
    case Some((line, len)) =>
      match ParseI64(line)
      case None => None
      case Some(n) => Some((n, len))
  }

  /** Lower-case ASCII letter. */
  function Lower(b: byte): byte {
    if 65 <= b <= 90 then b + 32 else b
  }

  predicate SameIgnoringCase(a: bytes, b: bytes) {
    |a| == |b| && forall i :: 0 <= i < |a| ==> Lower(a[i]) == Lower(b[i])
  }

  /** Number of leading digits. */
  function DigitRun(s: bytes): (n: nat)
    ensures n <= |s|
  {
    if s != [] && IsDigit(s[0]) then 1 + DigitRun(s[1..]) else 0
  }

  /** An optional sign is skipped. */
  function Unsigned(s: bytes): bytes {
    if s != [] && (s[0] == PLUS || s[0] == MINUS) then s[1..] else s
  }

  /** The text grammar that `f64` parsing accepts. */
  predicate IsDouble(s: bytes) {
    var t := Unsigned(s);
    || SameIgnoringCase(t, [105, 110, 102])
    || SameIgnoringCase(t, [105, 110, 102, 105, 110, 105, 116, 121])
    || SameIgnoringCase(t, [110, 97, 110])
    || (var whole := DigitRun(t);
        var rest := t[whole..];
        var dot := rest != [] && rest[0] == 46;
        var frac := if dot then DigitRun(rest[1..]) else 0;
        var tail := if dot then rest[1 + frac..] else rest;
        whole + frac > 0 &&
        (tail == [] ||
         (Lower(tail[0]) == 101 &&
          var e := Unsigned(tail[1..]);
          e != [] && AllDigits(e))))
  }

  predicate IsBigNumber(s: bytes) {
    Unsigned(s) != [] && AllDigits(Unsigned(s))
  }

  /** Length-prefixed payload: `(full length, Some((pos, size)))`, or the
      RESP2 null form. The two bytes after the payload are not inspected. */
  function ReadBlob(b: bytes, allowNull: bool): (r: Option<(nat, Option<(nat, nat)>)>)
    requires b != []
    ensures r.Some? ==> 3 <= r.value.0 <= |b|
    ensures r.Some? && r.value.1.Some? ==> r.value.1.value.0 + r.value.1.value.1 + 2 == r.value.0
    ensures r.Some? && r.value.1.None? ==> allowNull
  {
    match ReadI64(b)
    case None => None
    case Some((size, pos)) =>
      if size == -1 && allowNull then Some((pos, None))
      else if size < 0 then None
      else if pos + size + 2 > |b| then None
      else Some((pos + size + 2, Some((pos, size))))
  }

  function ParseLineMode(b: bytes): (r: Option<Parser>)
    requires |b| >= 3
    ensures r.Some? ==> 3 <= r.value.len <= |b|
  {
    match ReadLine(b)
    case None => None
    case Some((line, len)) =>
      if b[0] == 43 then Some(PString(len))
      else if b[0] == 45 then Some(PError(len))
      else if b[0] == 58 then
        (match ParseI64(line) case None => None case Some(n) => Some(PInteger(len, n)))
      else if b[0] == 95 then (if line == [] then Some(PNull(len)) else None)
      else if b[0] == 35 then
        (if line == [116] then Some(PBoolean(len, true))
         else if line == [102] then Some(PBoolean(len, false)) else None)
      else if b[0] == 44 then (if IsDouble(line) then Some(PDouble(len, line)) else None)
      else if b[0] == 40 then (if IsBigNumber(line) then Some(PBigNumber(len)) else None)
      else None
  }

  function ParseBlobMode(b: bytes): (r: Option<Parser>)
    requires |b| >= 3
    ensures r.Some? ==> 3 <= r.value.len <= |b|
  {
    match ReadBlob(b, b[0] == 36)
    case None => None
    case Some((len, body)) =>
      if b[0] == 36 then Some(PBytes(len, body))
      else if body.None? then None
      else if b[0] == 33 then Some(PBulkError(len, body.value.0, body.value.1))
      else Some(PVerbatim(len, body.value.0, body.value.1))
  }

  predicate IsBlobMode(mode: byte) { mode == 36 || mode == 33 || mode == 61 }

  /** The aggregate kind a mode byte announces. */
  function KindOf(mode: byte): Option<Kind> {
    if mode == 42 then Some(KArray)
    else if mode == 37 then Some(KMap)
    else if mode == 126 then Some(KSet)
    else if mode == 62 then Some(KPush)
    else if mode == 124 then Some(KAttribute)
    else None
  }

  /** The total wire size of consecutive elements. */
  function TotalLen(es: seq<Parser>): nat {
    if es == [] then 0 else es[0].len + TotalLen(es[1..])
  }

  /** Every offset in the metadata lies inside its frame: header and children
      tile each aggregate exactly, at every depth. */
  predicate WellSized(m: Parser) {
    && m.len >= 3
    && match m
       case PBytes(len, Some((pos, size))) => pos + size + 2 == len
       case PBulkError(len, pos, size) => pos + size + 2 == len
       case PVerbatim(len, pos, size) => pos + size + 2 == len
       case PAggregate(_, len, pos, es) =>
         pos + TotalLen(es) == len && forall i :: 0 <= i < |es| ==> WellSized(es[i])
       case _ => true
  }

  /** `count` children follow; maps and attributes count pairs. */
  function ChildCount(kind: Kind, count: nat): nat {
    if kind.KMap? || kind.KAttribute? then 2 * count else count
  }

  function ParseMeta(b: bytes): (r: Option<Parser>)
    ensures r.Some? ==> 3 <= r.value.len <= |b|
    decreases |b|, 3
  {
    if |b| < 3 then None
    else if KindOf(b[0]).Some? then
      if KindOf(b[0]).value.KAttribute? then ParseAttribute(b) else ParseAggregate(b, KindOf(b[0]).value)
    else if IsBlobMode(b[0]) then ParseBlobMode(b)
    else ParseLineMode(b)
  }

  /** `n` consecutive elements at the start of `b`, and their total length. */
  function ParseElements(b: bytes, n: nat): (r: Option<seq<Parser>>)
    ensures r.Some? ==> |r.value| == n && TotalLen(r.value) <= |b|
    decreases |b|, 4
  {
    if n == 0 then Some([])
    else
      match ParseMeta(b)
      case None => None
      case Some(m) =>
        match ParseElements(b[m.len..], n - 1)
        case None => None
        case Some(rest) => Some([m] + rest)
  }

  function ParseAggregate(b: bytes, kind: Kind): (r: Option<Parser>)
    requires |b| >= 3
    ensures r.Some? ==> 3 <= r.value.len <= |b|
    ensures r.Some? && !kind.KArray? ==> r.value.PAggregate?
    decreases |b|, 1
  {
    match ReadI64(b)
    case None => None
    case Some((count, pos)) =>
      if count == -1 && kind.KArray? then Some(PNullArray(pos))
      else if count < 0 then None
      else
        match ParseElements(b[pos..], ChildCount(kind, count))
        case None => None
        case Some(es) => Some(PAggregate(kind, pos + TotalLen(es), pos, es))
  }

  /** An attribute map and the element it annotates, kept as the last child. */
  function ParseAttribute(b: bytes): (r: Option<Parser>)
    requires |b| >= 3
    ensures r.Some? ==> 3 <= r.value.len <= |b|
    decreases |b|, 2
  {
    match ParseAggregate(b, KAttribute)
    case None => None
    case Some(attrs) =>
      match ParseMeta(b[attrs.len..])
      case None => None
      case Some(inner) =>
        Some(PAggregate(KAttribute, attrs.len + inner.len, attrs.pos, attrs.children + [inner]))
  }

  lemma {:induction false} TotalLenAppend(es: seq<Parser>, m: Parser)
    ensures TotalLen(es + [m]) == TotalLen(es) + m.len
  {
    if es == [] {
      assert es + [m] == [m];
    } else {
      assert (es + [m])[1..] == es[1..] + [m];
      TotalLenAppend(es[1..], m);
    }
  }

  // ---- Sizes -------------------------------------------------------------

  lemma LeafWellSized(b: bytes)
    requires |b| >= 3
    ensures ParseLineMode(b).Some? ==> WellSized(ParseLineMode(b).value)
    ensures ParseBlobMode(b).Some? ==> WellSized(ParseBlobMode(b).value)
  {
  }

  /** Whatever parses is well sized, at every depth. */
  lemma {:induction false} ParseWellSized(b: bytes)
    requires ParseMeta(b).Some?
    ensures WellSized(ParseMeta(b).value)
    decreases |b|, 3
  {
    if KindOf(b[0]).None? {
      LeafWellSized(b);
    } else {
      AggregateWellSized(b, KindOf(b[0]).value);
      if KindOf(b[0]).value.KAttribute? {
        var attrs := ParseAggregate(b, KAttribute).value;
        ParseWellSized(b[attrs.len..]);
        TotalLenAppend(attrs.children, ParseMeta(b[attrs.len..]).value);
      }
    }
  }

  lemma {:induction false} AggregateWellSized(b: bytes, kind: Kind)
    requires |b| >= 3 && ParseAggregate(b, kind).Some?
    ensures WellSized(ParseAggregate(b, kind).value)
    decreases |b|, 1
  {
    var (count, pos) := ReadI64(b).value;
    if count >= 0 { ElementsWellSized(b[pos..], ChildCount(kind, count)); }
  }

  lemma {:induction false} ElementsWellSized(b: bytes, n: nat)
    requires ParseElements(b, n).Some?
    ensures forall i :: 0 <= i < n ==> WellSized(ParseElements(b, n).value[i])
    decreases |b|, 4
  {
    if n > 0 {
      var m := ParseMeta(b).value;
      ParseWellSized(b);
      ElementsWellSized(b[m.len..], n - 1);
    }
  }

  // ---- Taking values out of a frame --------------------------------------

  function PairUp(vs: seq<Value>): seq<Pair> {
    if |vs| < 2 then [] else [Pair(vs[0], vs[1])] + PairUp(vs[2..])
  }

  /** The value of a frame; every slice is in bounds because of `WellSized`. */
  function Take(m: Parser, b: bytes): Value
    requires WellSized(m) && |b| == m.len
    decreases m
  {
    match m
    case PString(len) => SimpleString(b[1..len - 2])
    case PError(len) => Error(b[1..len - 2])
    case PInteger(_, n) => Integer(n)
    case PBytes(_, None) => BulkString(None)
    case PBytes(_, Some((pos, size))) => BulkString(Some(b[pos..][..size]))
    case PBulkError(_, pos, size) => BulkError(b[pos..][..size])
    case PVerbatim(_, pos, size) =>
      var payload := b[pos..][..size];
      if size >= 4 && payload[3] == 58 then VerbatimString(payload[..3], payload[4..])
      else VerbatimString([], payload)
    case PNull(_) => Null
    case PBoolean(_, t) => Boolean(t)
    case PDouble(_, repr) => Double(repr)
    case PBigNumber(len) => BigNumber(b[1..len - 2])
    case PNullArray(_) => NullArray
    case PAggregate(kind, _, pos, es) => Assemble(kind, TakeAll(es, b[pos..]))
  }

  function Assemble(kind: Kind, vs: seq<Value>): Value {
    match kind
    case KArray => Array(vs)
    case KSet => Set(vs)
    case KPush => Push(vs)
    case KMap => Map(PairUp(vs))
    case KAttribute => if vs == [] then Null else vs[|vs| - 1]
  }

  function TakeAll(es: seq<Parser>, b: bytes): (vs: seq<Value>)
    requires TotalLen(es) == |b| && forall i :: 0 <= i < |es| ==> WellSized(es[i])
    ensures |vs| == |es|
    decreases es
  {
    if es == [] then []
    else [Take(es[0], b[..es[0].len])] + TakeAll(es[1..], b[es[0].len..])
  }

  /** One decoding step: the first value and how many bytes it occupied. */
  function Decode(b: bytes): (r: Option<(Value, nat)>)
    ensures r.Some? ==> 3 <= r.value.1 <= |b|
  {
    match ParseMeta(b)
    case None => None
    case Some(m) => ParseWellSized(b); Some((Take(m, b[..m.len]), m.len))
  }
}
