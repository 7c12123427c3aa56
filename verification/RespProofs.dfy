/** A one-pass reference decoder: no metadata, no second walk. The two-phase
    parser is proved equal to it on every input. */
module RespReader {
  import opened Machine
  import opened Decimal
  import opened RespParser

  function LineValue(mode: byte, text: bytes): Option<Value> {
    if mode == 43 then Some(SimpleString(text))
    else if mode == 45 then Some(Error(text))
    else if mode == 58 then (match ParseI64(text) case None => None case Some(n) => Some(Integer(n)))
    else if mode == 95 then (if text == [] then Some(Null) else None)
    else if mode == 35 then
      (if text == [116] then Some(Boolean(true)) else if text == [102] then Some(Boolean(false)) else None)
    else if mode == 44 then (if IsDouble(text) then Some(Double(text)) else None)
    else if mode == 40 then (if IsBigNumber(text) then Some(BigNumber(text)) else None)
    else None
  }

  function BlobValue(mode: byte, payload: bytes): Value {
    if mode == 36 then BulkString(Some(payload))
    else if mode == 33 then BulkError(payload)
    else if |payload| >= 4 && payload[3] == 58 then VerbatimString(payload[..3], payload[4..])
    else VerbatimString([], payload)
  }

  function ReadLineFrame(b: bytes): (r: Option<(Value, nat)>)
    requires b != []
    ensures r.Some? ==> 3 <= r.value.1 <= |b|
  {
    match ReadLine(b)
    case None => None
    case Some((text, len)) =>
      match LineValue(b[0], text)
      case None => None
      case Some(v) => Some((v, len))
  }

  function ReadBlobFrame(b: bytes): (r: Option<(Value, nat)>)
    requires b != []
    ensures r.Some? ==> 3 <= r.value.1 <= |b|
  {
    match ReadI64(b)
    case None => None
    case Some((size, pos)) =>
      if size == -1 && b[0] == 36 then Some((BulkString(None), pos))
      else if size < 0 || pos + size + 2 > |b| then None
      else Some((BlobValue(b[0], b[pos..pos + size]), pos + size + 2))
  }

  function ReadLeaf(b: bytes): (r: Option<(Value, nat)>)
    requires b != []
    ensures r.Some? ==> 3 <= r.value.1 <= |b|
  {
    if IsBlobMode(b[0]) then ReadBlobFrame(b) else ReadLineFrame(b)
  }

  /** The first value of `b` and the number of bytes it takes up. */
  function Read(b: bytes): (r: Option<(Value, nat)>)
    ensures r.Some? ==> 3 <= r.value.1 <= |b|
    decreases |b|, 1
  {
    if |b| < 3 then None
    else
      match KindOf(b[0])
      case None => ReadLeaf(b)
      case Some(kind) => ReadGroup(b, kind)
  }

  function ReadGroup(b: bytes, kind: Kind): (r: Option<(Value, nat)>)
    requires |b| >= 3
    ensures r.Some? ==> 3 <= r.value.1 <= |b|
    decreases |b|, 0
  {
    match ReadI64(b)
    case None => None
    case Some((count, pos)) =>
      if count == -1 && kind.KArray? then Some((NullArray, pos))
      else if count < 0 then None
      else
        match ReadMany(b[pos..], ChildCount(kind, count))
        case None => None
        case Some((vs, n)) =>
          if kind.KAttribute? then
            match Read(b[pos + n..])
            case None => None
            case Some((v, k)) => Some((v, pos + n + k))
          else Some((Assemble(kind, vs), pos + n))
  }

  /** `n` values in a row. */
  function ReadMany(b: bytes, n: nat): (r: Option<(seq<Value>, nat)>)
    ensures r.Some? ==> |r.value.0| == n && r.value.1 <= |b|
    decreases |b|, 2
  {
    if n == 0 then Some(([], 0))
    else
      match Read(b)
      case None => None
      case Some((v, k)) =>
        match ReadMany(b[k..], n - 1)
        case None => None
        case Some((vs, l)) => Some(([v] + vs, k + l))
  }

  // ---- The two-phase parser is this reader ---------------------------------

  ghost predicate Agrees(b: bytes, m: Option<Parser>, r: Option<(Value, nat)>) {
    match m
    case None => r.None?
    case Some(p) => p.len <= |b| && WellSized(p) && r == Some((Take(p, b[..p.len]), p.len))
  }

  lemma LineAgrees(b: bytes)
    requires |b| >= 3
    ensures Agrees(b, ParseLineMode(b), ReadLineFrame(b))
  {
    hide ParseI64, IsDouble, IsBigNumber, FindLine;
    LeafWellSized(b);
    if ReadLine(b).Some? {
      var (text, len) := ReadLine(b).value;
      assert b[..len][1..len - 2] == text;
    }
  }

  lemma SliceInPrefix(b: bytes, i: nat, j: nat, n: nat)
    requires i <= j <= n <= |b|
    ensures b[..n][i..][..j - i] == b[i..j]
  {
  }

  lemma SuffixOfPrefix(b: bytes, i: nat, n: nat)
    requires i + n <= |b|
    ensures b[..i + n][i..] == b[i..][..n]
  {
  }

  lemma BlobAgrees(b: bytes)
    requires |b| >= 3 && IsBlobMode(b[0])
    ensures Agrees(b, ParseBlobMode(b), ReadBlobFrame(b))
  {
    hide ReadI64, BlobValue;
    LeafWellSized(b);
    if ReadI64(b).Some? {
      var (size, pos) := ReadI64(b).value;
      if 0 <= size && pos + size + 2 <= |b| {
        SliceInPrefix(b, pos, pos + size, pos + size + 2);
        BlobTakes(b, b[0], pos, size);
      }
    }
  }

  lemma BlobTakes(b: bytes, mode: byte, pos: nat, size: nat)
    requires IsBlobMode(mode) && 3 <= pos && pos + size + 2 <= |b|
    requires b[..pos + size + 2][pos..][..size] == b[pos..pos + size]
    ensures var n := pos + size + 2;
            var m := if mode == 36 then PBytes(n, Some((pos, size)))
                     else if mode == 33 then PBulkError(n, pos, size) else PVerbatim(n, pos, size);
            WellSized(m) && Take(m, b[..n]) == BlobValue(mode, b[pos..pos + size])
  {
  }

  ghost predicate ManyAgree(b: bytes, es: Option<seq<Parser>>, r: Option<(seq<Value>, nat)>) {
    match es
    case None => r.None?
    case Some(ps) =>
      && TotalLen(ps) <= |b| && (forall i :: 0 <= i < |ps| ==> WellSized(ps[i]))
      && r == Some((TakeAll(ps, b[..TotalLen(ps)]), TotalLen(ps)))
  }

  /** The two-phase parser and the one-pass reader agree on every input. */
  lemma {:induction false} ParseAgrees(b: bytes)
    ensures Agrees(b, ParseMeta(b), Read(b))
    decreases |b|, 3
  {
    if |b| >= 3 {
      if KindOf(b[0]).None? {
        if IsBlobMode(b[0]) { BlobAgrees(b); } else { LineAgrees(b); }
      } else {
        GroupAgrees(b, KindOf(b[0]).value);
      }
    }
  }

  lemma {:induction false} ManyAgrees(b: bytes, n: nat)
    ensures ManyAgree(b, ParseElements(b, n), ReadMany(b, n))
    decreases |b|, 4
  {
    if n > 0 {
      ParseAgrees(b);
      if ParseMeta(b).Some? {
        var m := ParseMeta(b).value;
        ManyAgrees(b[m.len..], n - 1);
        if ParseElements(b[m.len..], n - 1).Some? {
          ConsAgrees(b, m, ParseElements(b[m.len..], n - 1).value);
        }
      }
    }
  }

  lemma ConsAgrees(b: bytes, m: Parser, tail: seq<Parser>)
    requires WellSized(m) && m.len + TotalLen(tail) <= |b|
    requires forall i :: 0 <= i < |tail| ==> WellSized(tail[i])
    ensures TotalLen([m] + tail) == m.len + TotalLen(tail)
    ensures TakeAll([m] + tail, b[..TotalLen([m] + tail)]) ==
            [Take(m, b[..m.len])] + TakeAll(tail, b[m.len..][..TotalLen(tail)])
  {
    hide Take, WellSized;
    var es := [m] + tail;
    assert es[1..] == tail;
    var c := b[..m.len + TotalLen(tail)];
    assert c[..m.len] == b[..m.len];
    assert c[m.len..] == b[m.len..][..TotalLen(tail)];
  }

  lemma {:induction false} GroupAgrees(b: bytes, kind: Kind)
    requires |b| >= 3
    ensures Agrees(b, if kind.KAttribute? then ParseAttribute(b) else ParseAggregate(b, kind), ReadGroup(b, kind))
    decreases |b|, 2
  {
    hide ReadI64, ParseMeta, Read, TakeAll, Take, WellSized, ParseElements, ReadMany, Assemble, TotalLen;
    if ReadI64(b).Some? {
      var (count, pos) := ReadI64(b).value;
      NullAgrees(b, pos);
      if count >= 0 {
        var n := ChildCount(kind, count);
        ManyAgrees(b[pos..], n);
        if ParseElements(b[pos..], n).Some? {
          var es := ParseElements(b[pos..], n).value;
          assert ParseAggregate(b, kind) == Some(PAggregate(kind, pos + TotalLen(es), pos, es));
          if kind.KAttribute? {
            ParseAgrees(b[pos + TotalLen(es)..]);
            AttributeAgrees(b, pos, es);
          } else {
            AssembleAgrees(b, kind, pos, es);
          }
        }
      }
    }
  }

  lemma NullAgrees(b: bytes, pos: nat)
    requires 3 <= pos <= |b|
    ensures WellSized(PNullArray(pos)) && Take(PNullArray(pos), b[..pos]) == NullArray
  {
  }

  lemma AssembleAgrees(b: bytes, kind: Kind, pos: nat, es: seq<Parser>)
    requires 3 <= pos && pos + TotalLen(es) <= |b|
    requires forall i :: 0 <= i < |es| ==> WellSized(es[i])
    ensures var m := PAggregate(kind, pos + TotalLen(es), pos, es);
            && WellSized(m)
            && Take(m, b[..m.len]) == Assemble(kind, TakeAll(es, b[pos..][..TotalLen(es)]))
  {
    hide TakeAll, Assemble, TotalLen;
    SuffixOfPrefix(b, pos, TotalLen(es));
  }

  lemma AttributeAgrees(b: bytes, pos: nat, es: seq<Parser>)
    requires 3 <= pos && pos + TotalLen(es) <= |b| && (forall i :: 0 <= i < |es| ==> WellSized(es[i]))
    requires var n := pos + TotalLen(es); Agrees(b[n..], ParseMeta(b[n..]), Read(b[n..]))
    ensures var n := pos + TotalLen(es);
            ParseMeta(b[n..]).Some? ==>
              var inner := ParseMeta(b[n..]).value;
              var m := PAggregate(KAttribute, n + inner.len, pos, es + [inner]);
              && m.len <= |b| && WellSized(m)
              && Take(m, b[..m.len]) == Read(b[n..]).value.0 && inner.len == Read(b[n..]).value.1
  {
    hide ParseMeta, Read, TakeAll, Take, WellSized, TotalLen;
    var n := pos + TotalLen(es);
    if ParseMeta(b[n..]).Some? {
      LastAgrees(b, pos, es, ParseMeta(b[n..]).value);
    }
  }

  lemma LastAgrees(b: bytes, pos: nat, es: seq<Parser>, inner: Parser)
    requires 3 <= pos && pos + TotalLen(es) + inner.len <= |b| && WellSized(inner)
    requires forall i :: 0 <= i < |es| ==> WellSized(es[i])
    ensures var n := pos + TotalLen(es);
            var m := PAggregate(KAttribute, n + inner.len, pos, es + [inner]);
            WellSized(m) && Take(m, b[..m.len]) == Take(inner, b[n..][..inner.len])
  {
    hide TakeAll, Take, WellSized, TotalLen;
    var n := pos + TotalLen(es);
    TotalLenAppend(es, inner);
    AssembleAgrees(b, KAttribute, pos, es + [inner]);
    var front, back := b[pos..][..TotalLen(es)], b[n..][..inner.len];
    assert b[pos..][..TotalLen(es + [inner])] == front + back;
    TakeLast(es, inner, front, back);
  }

  /** Taking a list of elements ends with the value of the last one. */
  lemma {:induction false} TakeLast(es: seq<Parser>, m: Parser, b: bytes, c: bytes)
    requires TotalLen(es) == |b| && m.len == |c| && WellSized(m)
    requires forall i :: 0 <= i < |es| ==> WellSized(es[i])
    requires TotalLen(es + [m]) == |b + c|
    ensures TakeAll(es + [m], b + c)[|es|] == Take(m, c)
  {
    if es == [] {
      assert es + [m] == [m] && b + c == c && c[..m.len] == c;
    } else {
      assert (es + [m])[1..] == es[1..] + [m];
      assert (b + c)[es[0].len..] == b[es[0].len..] + c;
      TotalLenAppend(es[1..], m);
      TakeLast(es[1..], m, b[es[0].len..], c);
    }
  }

  lemma DecodeIsRead(b: bytes)
    ensures Decode(b) == Read(b)
  {
    ParseAgrees(b);
  }
}

/** A successful read is decided by the bytes it covers. */
module RespStability {
  import opened Machine
  import opened Decimal
  import opened RespParser
  import opened RespReader

  lemma LineStable(b: bytes, c: bytes)
    requires b != [] && ReadLine(b).Some?
    ensures ReadLine(b + c) == ReadLine(b)
  {
    var i := FindLine(b[1..]).value;
    assert (b + c)[1..] == b[1..] + c;
    assert CrLfAt(b[1..] + c, i);
    assert forall j :: 0 <= j < i ==> CrLfAt(b[1..] + c, j) == CrLfAt(b[1..], j);
    var j := FindLine(b[1..] + c).value;
    assert j == i;
    assert (b + c)[1..i + 1] == b[1..i + 1];
  }

  lemma LeafStable(b: bytes, c: bytes)
    requires b != [] && ReadLeaf(b).Some?
    ensures ReadLeaf(b + c) == ReadLeaf(b)
  {
    LineStable(b, c);
    if IsBlobMode(b[0]) {
      var (size, pos) := ReadI64(b).value;
      if size >= 0 { assert (b + c)[pos..pos + size] == b[pos..pos + size]; }
    }
  }

  /** Appending bytes does not change a successful read. */
  lemma {:induction false} ReadStable(b: bytes, c: bytes)
    requires Read(b).Some?
    ensures Read(b + c) == Read(b)
    decreases |b|, 1
  {
    assert (b + c)[0] == b[0];
    if KindOf(b[0]).Some? { GroupStable(b, c, KindOf(b[0]).value); } else { LeafStable(b, c); }
  }

  lemma {:induction false} GroupStable(b: bytes, c: bytes, kind: Kind)
    requires |b| >= 3 && ReadGroup(b, kind).Some?
    ensures ReadGroup(b + c, kind) == ReadGroup(b, kind)
    decreases |b|, 0
  {
    hide ReadLine, Read, ReadMany, Assemble, ParseI64;
    LineStable(b, c);
    var (count, pos) := ReadI64(b).value;
    if count >= 0 {
      var n := ChildCount(kind, count);
      assert (b + c)[pos..] == b[pos..] + c;
      ManyStable(b[pos..], c, n);
      if kind.KAttribute? {
        var len := ReadMany(b[pos..], n).value.1;
        assert (b + c)[pos + len..] == b[pos + len..] + c;
        ReadStable(b[pos + len..], c);
      }
    }
  }

  lemma {:induction false} ManyStable(b: bytes, c: bytes, n: nat)
    requires ReadMany(b, n).Some?
    ensures ReadMany(b + c, n) == ReadMany(b, n)
    decreases |b|, 2
  {
    hide Read, ReadGroup;
    if n > 0 {
      var k := Read(b).value.1;
      ReadStable(b, c);
      assert (b + c)[k..] == b[k..] + c;
      ManyStable(b[k..], c, n - 1);
    }
  }
}

/** The RESP grammar as a tree of frames, its wire form and its meaning. The
    grammar is as lenient as the decoder: signs and leading zeros in sizes and
    counts, and any two bytes behind a payload. */
module RespFrames {
  import opened Machine
  import opened Decimal
  import opened RespParser
  import opened RespReader
  import opened RespStability

  datatype Frame =
    | Line(mode: byte, text: bytes)
    | Blob(mode: byte, size: bytes, payload: bytes, end: bytes)
    | NullBlob(size: bytes)
    | NullArrayFrame(count: bytes)
    | Aggregate(kind: Kind, count: bytes, children: seq<Frame>)
    | Attribute(count: bytes, meta: seq<Frame>, inner: Frame)

  /** Header text that stands for a number. */
  predicate Counts(text: bytes, n: int) {
    NoCrLf(text) && ParseI64(text) == Some(n)
  }

  /** Frames that the grammar allows: lines without CRLF whose text suits
      their mode, sizes and counts that are true, maps with whole pairs. */
  predicate Good(f: Frame)
    decreases f, 1
  {
    match f
    case Line(mode, text) => NoCrLf(text) && KindOf(mode).None? && !IsBlobMode(mode) && LineValue(mode, text).Some?
    case Blob(mode, size, payload, end) => IsBlobMode(mode) && Counts(size, |payload|) && |end| == 2
    case NullBlob(size) => Counts(size, -1)
    case NullArrayFrame(count) => Counts(count, -1)
    case Aggregate(kind, count, children) => !kind.KAttribute? && GoodGroup(kind, count, children)
    case Attribute(count, meta, inner) => GoodGroup(KAttribute, count, meta) && Good(inner)
  }

  predicate GoodGroup(kind: Kind, count: bytes, children: seq<Frame>)
    decreases children, 0
  {
    && NoCrLf(count) && ParseI64(count).Some? && ParseI64(count).value >= 0
    && ChildCount(kind, ParseI64(count).value) == |children|
    && forall i :: 0 <= i < |children| ==> Good(children[i])
  }

  function ModeOf(kind: Kind): (mode: byte)
    ensures KindOf(mode) == Some(kind)
  {
    match kind case KArray => 42 case KMap => 37 case KSet => 126 case KPush => 62 case KAttribute => 124
  }

  /** Mode byte, text of a size or count, CRLF. */
  function Header(mode: byte, text: bytes): (h: bytes)
    ensures |h| == |text| + 3 && h[0] == mode
  {
    [mode] + text + CRLF
  }

  function Wire(f: Frame): bytes
    decreases f
  {
    match f
    case Line(mode, text) => Header(mode, text)
    case Blob(mode, size, payload, end) => Header(mode, size) + payload + end
    case NullBlob(size) => Header(36, size)
    case NullArrayFrame(count) => Header(42, count)
    case Aggregate(kind, count, children) => Header(ModeOf(kind), count) + WireAll(children)
    case Attribute(count, meta, inner) => Header(124, count) + WireAll(meta) + Wire(inner)
  }

  function WireAll(fs: seq<Frame>): bytes
    decreases fs
  {
    if fs == [] then [] else Wire(fs[0]) + WireAll(fs[1..])
  }

  /** The value a frame denotes; attributes denote what they annotate. */
  function Meaning(f: Frame): Value
    requires Good(f)
    decreases f
  {
    match f
    case Line(mode, text) => LineValue(mode, text).value
    case Blob(mode, _, payload, _) => BlobValue(mode, payload)
    case NullBlob(_) => BulkString(None)
    case NullArrayFrame(_) => NullArray
    case Aggregate(kind, count, children) =>
      assert GoodGroup(kind, count, children);
      Assemble(kind, MeaningAll(children))
    case Attribute(_, _, inner) => Meaning(inner)
  }

  function MeaningAll(fs: seq<Frame>): (vs: seq<Value>)
    requires forall i :: 0 <= i < |fs| ==> Good(fs[i])
    ensures |vs| == |fs|
    decreases fs
  {
    if fs == [] then [] else [Meaning(fs[0])] + MeaningAll(fs[1..])
  }

  // ---- Reading headers back -------------------------------------------------

  lemma LineReads(mode: byte, text: bytes, rest: bytes)
    requires NoCrLf(text)
    ensures ReadLine(Header(mode, text) + rest) == Some((text, |text| + 3))
  {
    var b := Header(mode, text) + rest;
    var c := text + CRLF + rest;
    assert b[1..] == c;
    assert CrLfAt(c, |text|);
    forall i | 0 <= i < |text| ensures !CrLfAt(c, i) {
      if i + 1 < |text| { assert !CrLfAt(text, i); }
    }
    assert FindLine(c) == Some(|text|);
    assert b[1..|text| + 1] == text;
  }

  lemma HeaderReads(mode: byte, text: bytes, n: int, rest: bytes)
    requires Counts(text, n)
    ensures ReadI64(Header(mode, text) + rest) == Some((n, |text| + 3))
  {
    LineReads(mode, text, rest);
  }

  lemma DigitsHaveNoCrLf(s: bytes)
    requires AllDigits(s)
    ensures NoCrLf(s)
  {
    forall i | 0 <= i < |s| - 1 ensures !CrLfAt(s, i) { assert IsDigit(s[i]); }
  }

  lemma PrintCounts(n: nat)
    requires n <= I64_MAX
    ensures Counts(Print(n), n)
  {
    DigitsHaveNoCrLf(Print(n));
    ParsePrint(n);
  }

  // ---- The decoder inverts the grammar ---------------------------------------

  /** The two bytes that close a payload are skipped, whatever they are. */
  lemma BlobReads(mode: byte, size: bytes, payload: bytes, end: bytes, rest: bytes)
    requires IsBlobMode(mode) && Counts(size, |payload|) && |end| == 2
    ensures var w := Header(mode, size) + payload + end;
            Read(w + rest) == Some((BlobValue(mode, payload), |w|))
  {
    var h := Header(mode, size);
    var b := h + payload + end + rest;
    assert b == h + (payload + end + rest);
    HeaderReads(mode, size, |payload|, payload + end + rest);
    hide ParseI64, NoCrLf, FindLine, ReadLine, ReadI64, BlobValue, Header;
    assert b[|h|..|h| + |payload|] == payload;
  }

  /** A group whose children read back reads back. */
  lemma GroupReads(kind: Kind, count: bytes, n: nat, ws: bytes, vs: seq<Value>, rest: bytes)
    requires Counts(count, n) && !kind.KAttribute?
    requires ReadMany(ws + rest, ChildCount(kind, n)) == Some((vs, |ws|))
    ensures var w := Header(ModeOf(kind), count) + ws;
            Read(w + rest) == Some((Assemble(kind, vs), |w|))
  {
    hide ReadI64, ReadMany, Assemble, Header, ReadLeaf;
    var h := Header(ModeOf(kind), count);
    var b := h + ws + rest;
    assert b == h + (ws + rest);
    HeaderReads(ModeOf(kind), count, n, ws + rest);
    assert b[|h|..] == ws + rest;
    assert KindOf(b[0]) == Some(kind);
    assert Read(b) == ReadGroup(b, kind);
  }

  lemma FourPieces(h: bytes, ws: bytes, wi: bytes, rest: bytes)
    ensures var b := h + ws + wi + rest;
            && b == h + (ws + (wi + rest)) && b[|h|..] == ws + (wi + rest) && b[|h| + |ws|..] == wi + rest
  {
  }

  /** An attribute map reads back as the element it annotates. */
  lemma AttributeReads(count: bytes, n: nat, ws: bytes, vs: seq<Value>, wi: bytes, v: Value, rest: bytes)
    requires Counts(count, n)
    requires ReadMany(ws + (wi + rest), 2 * n) == Some((vs, |ws|))
    requires Read(wi + rest) == Some((v, |wi|))
    ensures var w := Header(124, count) + ws + wi;
            Read(w + rest) == Some((v, |w|))
  {
    hide ReadI64, ReadMany, Assemble, Header, ReadLeaf, Counts;
    var h := Header(124, count);
    var b := h + ws + wi + rest;
    FourPieces(h, ws, wi, rest);
    HeaderReads(124, count, n, ws + (wi + rest));
    assert KindOf(b[0]) == Some(KAttribute);
    assert Read(b) == ReadGroup(b, KAttribute);
  }

  lemma LeafReads(f: Frame, rest: bytes)
    requires Good(f) && !f.Aggregate? && !f.Attribute?
    ensures Read(Wire(f) + rest) == Some((Meaning(f), |Wire(f)|))
  {
    hide ParseI64, NoCrLf, FindLine;
    match f
    case Line(mode, text) => LineReads(mode, text, rest);
    case Blob(mode, size, payload, end) => BlobReads(mode, size, payload, end, rest);
    case NullBlob(size) => HeaderReads(36, size, -1, rest);
    case NullArrayFrame(count) => HeaderReads(42, count, -1, rest);
  }

  /** For every good frame, of any nesting depth and whatever follows it, the
      reader consumes exactly its wire form and yields its meaning. */
  lemma {:induction false} FrameReads(f: Frame, rest: bytes)
    requires Good(f)
    ensures Read(Wire(f) + rest) == Some((Meaning(f), |Wire(f)|))
    decreases f, 1
  {
    hide Read, ParseI64, NoCrLf;
    match f
    case Aggregate(kind, count, children) =>
      FramesRead(children, rest);
      GroupReads(kind, count, ParseI64(count).value, WireAll(children), MeaningAll(children), rest);
    case Attribute(count, meta, inner) =>
      FramesRead(meta, Wire(inner) + rest);
      FrameReads(inner, rest);
      AttributeReads(count, ParseI64(count).value, WireAll(meta), MeaningAll(meta), Wire(inner), Meaning(inner), rest);
    case _ => LeafReads(f, rest);
  }

  lemma {:induction false} FramesRead(fs: seq<Frame>, rest: bytes)
    requires forall i :: 0 <= i < |fs| ==> Good(fs[i])
    ensures ReadMany(WireAll(fs) + rest, |fs|) == Some((MeaningAll(fs), |WireAll(fs)|))
    decreases fs, 0
  {
    hide Read, Wire, Good, Meaning;
    if fs != [] {
      var w, ws := Wire(fs[0]), WireAll(fs[1..]);
      assert WireAll(fs) + rest == w + (ws + rest);
      FrameReads(fs[0], ws + rest);
      FramesRead(fs[1..], rest);
      assert (WireAll(fs) + rest)[|w|..] == ws + rest;
    }
  }

  // ---- Whatever is accepted is a frame -----------------------------------------

  /** A line that was read is its mode byte, its text and a CRLF. */
  lemma LineSplits(b: bytes)
    requires b != [] && ReadLine(b).Some?
    ensures var (text, len) := ReadLine(b).value;
            NoCrLf(text) && b[..len] == Header(b[0], text)
  {
    var (text, len) := ReadLine(b).value;
    var c := b[1..];
    forall i | 0 <= i < |text| - 1 ensures !CrLfAt(text, i) {
      assert !CrLfAt(c, i) && text[i] == c[i] && text[i + 1] == c[i + 1];
    }
    assert CrLfAt(c, len - 3);
    assert c[len - 3] == b[len - 2] && c[len - 2] == b[len - 1];
  }

  lemma ThreePieces(b: bytes, i: nat, j: nat, k: nat)
    requires i <= j <= k <= |b|
    ensures b[..k] == b[..i] + b[i..j] + b[j..k]
    ensures b[i..][..j - i] == b[i..j] && b[j..][..k - j] == b[j..k]
  {
  }

  lemma BlobUnfolds(mode: byte, size: bytes, payload: bytes, end: bytes)
    requires IsBlobMode(mode) && Counts(size, |payload|) && |end| == 2
    ensures var f := Blob(mode, size, payload, end);
            Good(f) && Wire(f) == Header(mode, size) + payload + end && Meaning(f) == BlobValue(mode, payload)
  {
    hide Counts, Header, BlobValue;
  }

  lemma AttributeUnfolds(count: bytes, meta: seq<Frame>, inner: Frame)
    requires GoodGroup(KAttribute, count, meta) && Good(inner)
    ensures var f := Attribute(count, meta, inner);
            Good(f) && Wire(f) == Header(124, count) + WireAll(meta) + Wire(inner) && Meaning(f) == Meaning(inner)
  {
    hide Header, WireAll, MeaningAll, GoodGroup;
  }

  /** `f` accounts for a successful read of `b`. */
  ghost predicate Explains(f: Frame, b: bytes, r: (Value, nat)) {
    Good(f) && Meaning(f) == r.0 && r.1 <= |b| && Wire(f) == b[..r.1]
  }

  lemma LineFrameOf(b: bytes) returns (f: Frame)
    requires |b| >= 3 && KindOf(b[0]).None? && !IsBlobMode(b[0]) && ReadLineFrame(b).Some?
    ensures Explains(f, b, ReadLineFrame(b).value)
  {
    LineSplits(b);
    hide FindLine, ReadLine, NoCrLf, LineValue, Header;
    f := Line(b[0], ReadLine(b).value.0);
  }

  lemma NullBlobUnfolds(b: bytes, size: bytes, pos: nat)
    requires Counts(size, -1) && pos <= |b| && b[..pos] == Header(36, size)
    ensures Explains(NullBlob(size), b, (BulkString(None), pos))
  {
    hide Counts, Header;
  }

  lemma BlobExplains(b: bytes, text: bytes, n: nat, pos: nat) returns (f: Frame)
    requires b != [] && IsBlobMode(b[0]) && Counts(text, n) && pos + n + 2 <= |b| && b[..pos] == Header(b[0], text)
    ensures Explains(f, b, (BlobValue(b[0], b[pos..pos + n]), pos + n + 2))
  {
    hide Counts, BlobValue, Header, Good, Wire, Meaning;
    var payload, end := b[pos..pos + n], b[pos + n..pos + n + 2];
    ThreePieces(b, pos, pos + n, pos + n + 2);
    BlobUnfolds(b[0], text, payload, end);
    f := Blob(b[0], text, payload, end);
  }

  lemma BlobFrameOf(b: bytes) returns (f: Frame)
    requires |b| >= 3 && IsBlobMode(b[0]) && ReadBlobFrame(b).Some?
    ensures Explains(f, b, ReadBlobFrame(b).value)
  {
    LineSplits(b);
    hide FindLine, ReadLine, NoCrLf, ParseI64, BlobValue, Header, Explains;
    var (text, pos) := ReadLine(b).value;
    var n := ReadI64(b).value.0;
    if n == -1 && b[0] == 36 {
      f := NullBlob(text);
      NullBlobUnfolds(b, text, pos);
    } else {
      f := BlobExplains(b, text, n, pos);
    }
  }

  lemma {:induction false} FrameOfRead(b: bytes) returns (f: Frame)
    requires Read(b).Some?
    ensures Explains(f, b, Read(b).value)
    decreases |b|, 1
  {
    hide Good, Wire, Meaning;
    if KindOf(b[0]).None? {
      if IsBlobMode(b[0]) { f := BlobFrameOf(b); } else { f := LineFrameOf(b); }
    } else {
      f := FrameOfGroup(b, KindOf(b[0]).value);
    }
  }

  lemma NullGroupFrame(b: bytes)
    requires |b| >= 3 && b[0] == 42 && ReadI64(b).Some? && ReadI64(b).value.0 == -1
    ensures Explains(NullArrayFrame(ReadLine(b).value.0), b, (NullArray, ReadI64(b).value.1))
  {
    LineSplits(b);
  }

  lemma {:induction false} FrameOfGroup(b: bytes, kind: Kind) returns (f: Frame)
    requires |b| >= 3 && KindOf(b[0]) == Some(kind) && ReadGroup(b, kind).Some?
    ensures Explains(f, b, ReadGroup(b, kind).value)
    decreases |b|, 0
  {
    hide FindLine, ReadLine, NoCrLf, ParseI64, Read, ReadMany, Good, Wire, Meaning, Assemble;
    var (count, pos) := ReadI64(b).value;
    var text := ReadLine(b).value.0;
    if count == -1 && kind.KArray? {
      NullGroupFrame(b);
      return NullArrayFrame(text);
    }
    LineSplits(b);
    var fs := FramesOfRead(b[pos..], ChildCount(kind, count));
    var n := ReadMany(b[pos..], ChildCount(kind, count)).value.1;
    assert b[..pos + n] == b[..pos] + b[pos..][..n];
    if kind.KAttribute? {
      var inner := FrameOfRead(b[pos + n..]);
      f := Attribute(text, fs, inner);
      AttributeExplains(b, text, count, pos, fs, inner, n, Read(b[pos + n..]).value);
    } else {
      f := Aggregate(kind, text, fs);
      GroupExplains(b, kind, text, count, pos, fs, n);
    }
  }

  lemma GroupExplains(b: bytes, kind: Kind, text: bytes, count: nat, pos: nat, fs: seq<Frame>, n: nat)
    requires b != [] && KindOf(b[0]) == Some(kind) && !kind.KAttribute? && pos + n <= |b|
    requires Counts(text, count) && ChildCount(kind, count) == |fs| && b[..pos] == Header(b[0], text)
    requires (forall i :: 0 <= i < |fs| ==> Good(fs[i])) && WireAll(fs) == b[pos..][..n]
    ensures Explains(Aggregate(kind, text, fs), b, (Assemble(kind, MeaningAll(fs)), pos + n))
  {
    hide WireAll, MeaningAll, NoCrLf, ParseI64, Header;
    assert b[..pos + n] == b[..pos] + b[pos..][..n];
    assert GoodGroup(kind, text, fs);
  }

  lemma AttributeExplains(b: bytes, text: bytes, count: nat, pos: nat, fs: seq<Frame>, inner: Frame, n: nat, r: (Value, nat))
    requires b != [] && b[0] == 124 && pos + n <= |b|
    requires Counts(text, count) && ChildCount(KAttribute, count) == |fs| && b[..pos] == Header(124, text)
    requires (forall i :: 0 <= i < |fs| ==> Good(fs[i])) && WireAll(fs) == b[pos..][..n]
    requires Explains(inner, b[pos + n..], r)
    ensures Explains(Attribute(text, fs, inner), b, (r.0, pos + n + r.1))
  {
    hide WireAll, MeaningAll, NoCrLf, ParseI64, Header, Good, Wire, Meaning;
    ThreePieces(b, pos, pos + n, pos + n + r.1);
    assert GoodGroup(KAttribute, text, fs);
    AttributeUnfolds(text, fs, inner);
  }

  lemma {:induction false} FramesOfRead(b: bytes, n: nat) returns (fs: seq<Frame>)
    requires ReadMany(b, n).Some?
    ensures |fs| == n && forall i :: 0 <= i < |fs| ==> Good(fs[i])
    ensures var (vs, len) := ReadMany(b, n).value;
            MeaningAll(fs) == vs && WireAll(fs) == b[..len]
    decreases |b|, 2
  {
    hide Read, Good, Wire, Meaning;
    if n == 0 {
      fs := [];
    } else {
      var f := FrameOfRead(b);
      var k := Read(b).value.1;
      var tail := FramesOfRead(b[k..], n - 1);
      fs := [f] + tail;
      assert fs[1..] == tail;
      var len := ReadMany(b, n).value.1;
      assert b[..len] == b[..k] + b[k..][..len - k];
    }
  }

  // ---- The decoder ---------------------------------------------------------------

  /** The decoder returns the meaning of a frame and consumes its length. */
  lemma FrameDecodes(f: Frame, rest: bytes)
    requires Good(f)
    ensures Decode(Wire(f) + rest) == Some((Meaning(f), |Wire(f)|))
  {
    hide Read, Decode, Good, Wire, Meaning;
    FrameReads(f, rest);
    DecodeIsRead(Wire(f) + rest);
  }

  /** The decoder accepts exactly the frames of the grammar: it yields a value
      and a length if and only if so many bytes are a frame that means it. */
  lemma DecodeExact(b: bytes, v: Value, n: nat)
    ensures Decode(b) == Some((v, n)) <==> exists f :: Explains(f, b, (v, n))
  {
    hide Read, Decode, Good, Wire, Meaning;
    DecodeIsRead(b);
    if Decode(b) == Some((v, n)) {
      var f := FrameOfRead(b);
      assert Explains(f, b, (v, n));
    }
    forall f | Explains(f, b, (v, n)) ensures Decode(b) == Some((v, n)) {
      FrameDecodes(f, b[n..]);
      assert Wire(f) + b[n..] == b;
    }
  }

  /** A leading attribute is transparent. */
  lemma AttributeTransparent(count: bytes, meta: seq<Frame>, f: Frame, rest: bytes)
    requires Good(Attribute(count, meta, f))
    ensures var a := Header(124, count) + WireAll(meta);
            Decode(a + Wire(f) + rest) == Some((Meaning(f), |a| + |Wire(f)|))
  {
    hide Read, Decode;
    FrameDecodes(Attribute(count, meta, f), rest);
  }

  /** No proper prefix of a frame decodes to anything. */
  lemma PrefixWaits(f: Frame, n: nat)
    requires Good(f) && n < |Wire(f)|
    ensures Decode(Wire(f)[..n]) == None
  {
    hide Read, Decode, Good, Wire, Meaning;
    var p := Wire(f)[..n];
    FrameReads(f, []);
    assert Wire(f) + [] == Wire(f) == p + Wire(f)[n..];
    DecodeIsRead(p);
    if Read(p).Some? { ReadStable(p, Wire(f)[n..]); }
  }

  lemma BrokenLineShrinks(text: bytes, rest: bytes)
    requires !NoCrLf(text)
    ensures var r := ReadLine(Header(43, text) + rest); r.Some? && r.value.1 < |text| + 3
  {
    var b := Header(43, text) + rest;
    var i :| 0 <= i < |text| - 1 && CrLfAt(text, i);
    assert CrLfAt(b[1..], i);
  }

  /** A line survives exactly when it holds no CRLF. */
  lemma LineExact(text: bytes, rest: bytes)
    ensures Decode([43] + text + CRLF + rest) == Some((SimpleString(text), |text| + 3)) <==> NoCrLf(text)
  {
    var b := [43] + text + CRLF + rest;
    if NoCrLf(text) {
      FrameDecodes(Line(43, text), rest);
    } else {
      hide Decode, ReadLine;
      BrokenLineShrinks(text, rest);
      DecodeIsRead(b);
    }
  }
}
