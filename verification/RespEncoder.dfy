/** The reply encoder of `response_value.rs` and its round trip through the
    decoder, for both protocol versions. */
module RespEncoder {
  import opened Machine
  import opened Decimal
  import opened RespParser
  import opened RespReader
  import opened RespFrames
  import opened RespStream

  function PutLine(mode: byte, text: bytes): bytes { [mode] + text + CRLF }

  function PutBlob(mode: byte, data: bytes): bytes { [mode] + Print(|data|) + CRLF + data + CRLF }

  const NULL3: bytes := [95, 13, 10]

  /** The verbatim format hint, cut or padded with spaces to three bytes. */
  function Hint(format: bytes): (h: bytes)
    ensures |h| == 3 && (|format| == 3 ==> h == format)
    ensures forall i :: 0 <= i < 3 ==> h[i] == if i < |format| then format[i] else 32
  {
    if |format| >= 3 then format[..3]
    else if |format| == 2 then format + [32]
    else if |format| == 1 then format + [32, 32]
    else [32, 32, 32]
  }

  /** `encode_to`; anything but version 3 gets the RESP2 downgrade. */
  function Encode(v: Value, resp3: bool): bytes
    decreases v, 1
  {
    match v
    case SimpleString(s) => PutLine(43, s)
    case Error(e) => PutLine(45, e)
    case Integer(n) => PutLine(58, Print(n))
    case Null => if resp3 then NULL3 else [36, 45, 49, 13, 10]
    case BulkString(None) => if resp3 then NULL3 else [36, 45, 49, 13, 10]
    case BulkString(Some(data)) => PutBlob(36, data)
    case NullArray => if resp3 then NULL3 else [42, 45, 49, 13, 10]
    case Array(items) => PutLine(42, Print(|items|)) + EncodeAll(items, resp3)
    case Map(pairs) =>
      (if resp3 then PutLine(37, Print(|pairs|)) else PutLine(42, Print(2 * |pairs|))) + EncodePairs(pairs, resp3)
    case Set(items) => PutLine(if resp3 then 126 else 42, Print(|items|)) + EncodeAll(items, resp3)
    case Push(items) => PutLine(if resp3 then 62 else 42, Print(|items|)) + EncodeAll(items, resp3)
    case Boolean(b) =>
      if resp3 then (if b then [35, 116, 13, 10] else [35, 102, 13, 10])
      else (if b then [58, 49, 13, 10] else [58, 48, 13, 10])
    case Double(repr) => if resp3 then PutLine(44, repr) else PutBlob(36, repr)
    case BigNumber(n) => if resp3 then PutLine(40, n) else PutBlob(36, n)
    case VerbatimString(format, data) => if resp3 then PutBlob(61, Hint(format) + [58] + data) else PutBlob(36, data)
    case BulkError(e) => if resp3 then PutBlob(33, e) else PutLine(45, e)
    case MemberScores(scores) =>
      PutLine(42, Print(if resp3 then |scores| else 2 * |scores|)) + EncodeScores(scores, resp3)
    case Batch(frames) => EncodeAll(frames, resp3)
  }

  function EncodeAll(vs: seq<Value>, resp3: bool): bytes
    decreases vs, 0
  {
    if vs == [] then [] else Encode(vs[0], resp3) + EncodeAll(vs[1..], resp3)
  }

  function EncodePairs(ps: seq<Pair>, resp3: bool): bytes
    decreases ps, 0
  {
    if ps == [] then [] else EncodePair(ps[0], resp3) + EncodePairs(ps[1..], resp3)
  }

  function EncodePair(p: Pair, resp3: bool): bytes
    decreases p, 2
  {
    Encode(p.key, resp3) + Encode(p.val, resp3)
  }

  function EncodeScores(ps: seq<(bytes, bytes)>, resp3: bool): bytes {
    if ps == [] then [] else EncodeScore(ps[0].0, ps[0].1, resp3) + EncodeScores(ps[1..], resp3)
  }

  function EncodeScore(member: bytes, score: bytes, resp3: bool): bytes {
    if resp3 then [42, 50, 13, 10] + PutBlob(36, member) + PutLine(44, score)
    else PutBlob(36, member) + PutBlob(36, score)
  }

  /** Values that have a wire form of their own: lines free of CRLF, number
      texts that are numbers, sizes that fit, no batch inside a container. */
  predicate Encodable(v: Value, resp3: bool)
    decreases v, 1
  {
    match v
    case SimpleString(s) => NoCrLf(s)
    case Error(e) => NoCrLf(e)
    case BulkString(Some(data)) => |data| <= I64_MAX
    case Array(items) => AllEncodable(items, resp3)
    case Set(items) => AllEncodable(items, resp3)
    case Push(items) => AllEncodable(items, resp3)
    case Map(pairs) =>
      && (if resp3 then |pairs| else 2 * |pairs|) <= I64_MAX
      && forall i :: 0 <= i < |pairs| ==> Encodable(pairs[i].key, resp3) && Encodable(pairs[i].val, resp3)
    case Double(repr) => if resp3 then NoCrLf(repr) && IsDouble(repr) else |repr| <= I64_MAX
    case BigNumber(n) => if resp3 then NoCrLf(n) && IsBigNumber(n) else |n| <= I64_MAX
    case VerbatimString(_, data) => (if resp3 then |data| + 4 else |data|) <= I64_MAX
    case BulkError(e) => if resp3 then |e| <= I64_MAX else NoCrLf(e)
    case MemberScores(scores) =>
      && (if resp3 then |scores| else 2 * |scores|) <= I64_MAX
      && forall i :: 0 <= i < |scores| ==>
           && |scores[i].0| <= I64_MAX
           && (if resp3 then NoCrLf(scores[i].1) && IsDouble(scores[i].1) else |scores[i].1| <= I64_MAX)
    case Batch(_) => false
    case _ => true
  }

  predicate AllEncodable(vs: seq<Value>, resp3: bool)
    decreases vs, 0
  {
    |vs| <= I64_MAX && forall i :: 0 <= i < |vs| ==> Encodable(vs[i], resp3)
  }

  /** What the other side sees: the value itself under RESP3 up to the three
      nulls, and the documented downgrade under RESP2. */
  function Image(v: Value, resp3: bool): Value
    decreases v, 1
  {
    match v
    case Null => if resp3 then Null else BulkString(None)
    case BulkString(None) => if resp3 then Null else v
    case NullArray => if resp3 then Null else v
    case Array(items) => Array(Images(items, resp3))
    case Map(pairs) =>
      if resp3 then Map(PairUp(PairImages(pairs, resp3))) else Array(PairImages(pairs, resp3))
    case Set(items) => if resp3 then Set(Images(items, resp3)) else Array(Images(items, resp3))
    case Push(items) => if resp3 then Push(Images(items, resp3)) else Array(Images(items, resp3))
    case Boolean(b) => if resp3 then v else Integer(if b then 1 else 0)
    case Double(repr) => if resp3 then v else BulkString(Some(repr))
    case BigNumber(n) => if resp3 then v else BulkString(Some(n))
    case VerbatimString(format, data) =>
      if resp3 then VerbatimString(Hint(format), data) else BulkString(Some(data))
    case BulkError(e) => if resp3 then v else Error(e)
    case MemberScores(scores) => Array(ScoreImages(scores, resp3))
    case _ => v
  }

  function Images(vs: seq<Value>, resp3: bool): (r: seq<Value>)
    ensures |r| == |vs|
    decreases vs, 0
  {
    if vs == [] then [] else [Image(vs[0], resp3)] + Images(vs[1..], resp3)
  }

  /** Keys and values alternate. */
  function PairImages(ps: seq<Pair>, resp3: bool): (r: seq<Value>)
    ensures |r| == 2 * |ps|
    decreases ps, 0
  {
    if ps == [] then [] else PairImage(ps[0], resp3) + PairImages(ps[1..], resp3)
  }

  function PairImage(p: Pair, resp3: bool): (r: seq<Value>)
    ensures |r| == 2
    decreases p, 2
  {
    [Image(p.key, resp3), Image(p.val, resp3)]
  }

  function ScoreImages(ps: seq<(bytes, bytes)>, resp3: bool): (r: seq<Value>)
    ensures |r| == if resp3 then |ps| else 2 * |ps|
  {
    if ps == [] then [] else ScoreImage(ps[0].0, ps[0].1, resp3) + ScoreImages(ps[1..], resp3)
  }

  function ScoreImage(member: bytes, score: bytes, resp3: bool): seq<Value> {
    if resp3 then [Array([BulkString(Some(member)), Double(score)])]
    else [BulkString(Some(member)), BulkString(Some(score))]
  }

  // ---- The encoder emits frames of the grammar -------------------------------

  const MINUS_ONE: bytes := [45, 49]

  /** A payload with its canonical size and a CRLF behind it. */
  function Strict(mode: byte, data: bytes): Frame { Blob(mode, Print(|data|), data, CRLF) }

  function Group(kind: Kind, n: nat, children: seq<Frame>): Frame { Aggregate(kind, Print(n), children) }

  function FrameOf(v: Value, resp3: bool): Frame
    requires Encodable(v, resp3)
    decreases v, 1
  {
    match v
    case SimpleString(s) => Line(43, s)
    case Error(e) => Line(45, e)
    case Integer(n) => Line(58, Print(n))
    case Null => if resp3 then Line(95, []) else NullBlob(MINUS_ONE)
    case BulkString(None) => if resp3 then Line(95, []) else NullBlob(MINUS_ONE)
    case BulkString(Some(data)) => Strict(36, data)
    case NullArray => if resp3 then Line(95, []) else NullArrayFrame(MINUS_ONE)
    case Array(items) => assert AllEncodable(items, resp3); Group(KArray, |items|, FramesOf(items, resp3))
    case Map(pairs) =>
      if resp3 then Group(KMap, |pairs|, PairFrames(pairs, resp3))
      else Group(KArray, 2 * |pairs|, PairFrames(pairs, resp3))
    case Set(items) =>
      assert AllEncodable(items, resp3); Group(if resp3 then KSet else KArray, |items|, FramesOf(items, resp3))
    case Push(items) =>
      assert AllEncodable(items, resp3); Group(if resp3 then KPush else KArray, |items|, FramesOf(items, resp3))
    case Boolean(b) =>
      if resp3 then Line(35, if b then [116] else [102]) else Line(58, if b then [49] else [48])
    case Double(repr) => if resp3 then Line(44, repr) else Strict(36, repr)
    case BigNumber(n) => if resp3 then Line(40, n) else Strict(36, n)
    case VerbatimString(format, data) => if resp3 then Strict(61, Hint(format) + [58] + data) else Strict(36, data)
    case BulkError(e) => if resp3 then Strict(33, e) else Line(45, e)
    case MemberScores(scores) => Group(KArray, if resp3 then |scores| else 2 * |scores|, ScoreFrames(scores, resp3))
  }

  function FramesOf(vs: seq<Value>, resp3: bool): (fs: seq<Frame>)
    requires forall i :: 0 <= i < |vs| ==> Encodable(vs[i], resp3)
    ensures |fs| == |vs|
    decreases vs, 0
  {
    if vs == [] then [] else [FrameOf(vs[0], resp3)] + FramesOf(vs[1..], resp3)
  }

  function PairFrames(ps: seq<Pair>, resp3: bool): (fs: seq<Frame>)
    requires forall i :: 0 <= i < |ps| ==> Encodable(ps[i].key, resp3) && Encodable(ps[i].val, resp3)
    ensures |fs| == 2 * |ps|
    decreases ps, 0
  {
    if ps == [] then [] else PairFrame(ps[0], resp3) + PairFrames(ps[1..], resp3)
  }

  function PairFrame(p: Pair, resp3: bool): (r: seq<Frame>)
    requires Encodable(p.key, resp3) && Encodable(p.val, resp3)
    ensures |r| == 2
    decreases p, 2
  {
    [FrameOf(p.key, resp3), FrameOf(p.val, resp3)]
  }

  function ScoreFrames(ps: seq<(bytes, bytes)>, resp3: bool): (fs: seq<Frame>)
    ensures |fs| == if resp3 then |ps| else 2 * |ps|
  {
    if ps == [] then [] else ScoreFrame(ps[0].0, ps[0].1, resp3) + ScoreFrames(ps[1..], resp3)
  }

  function ScoreFrame(member: bytes, score: bytes, resp3: bool): (fs: seq<Frame>)
    ensures |fs| == if resp3 then 1 else 2
  {
    if resp3 then [Group(KArray, 2, [Strict(36, member), Line(44, score)])]
    else [Strict(36, member), Strict(36, score)]
  }

  // ---- Frames of lists ---------------------------------------------------------

  ghost predicate Sound(fs: seq<Frame>, w: bytes, vs: seq<Value>) {
    && (forall i :: 0 <= i < |fs| ==> Good(fs[i]))
    && WireAll(fs) == w && MeaningAll(fs) == vs
  }

  lemma SoundCons(f: Frame, fs: seq<Frame>)
    requires Good(f) && forall i :: 0 <= i < |fs| ==> Good(fs[i])
    ensures Sound([f] + fs, Wire(f) + WireAll(fs), [Meaning(f)] + MeaningAll(fs))
  {
    hide Good, Wire, Meaning;
    assert ([f] + fs)[1..] == fs;
  }

  lemma Associative<T>(a: seq<T>, b: seq<T>, c: seq<T>)
    ensures (a + b) + c == a + (b + c)
  {
  }

  lemma {:induction false} SoundConcat(fs: seq<Frame>, w: bytes, vs: seq<Value>, gs: seq<Frame>, x: bytes, ws: seq<Value>)
    requires Sound(fs, w, vs) && Sound(gs, x, ws)
    ensures Sound(fs + gs, w + x, vs + ws)
  {
    hide Good, Wire, Meaning;
    if fs == [] {
      assert fs + gs == gs && w + x == x && vs + ws == ws;
    } else {
      var f, tail := fs[0], fs[1..];
      SoundConcat(tail, WireAll(tail), MeaningAll(tail), gs, x, ws);
      SoundCons(f, tail + gs);
      assert fs == [f] + tail;
      Associative([f], tail, gs);
      Associative(Wire(f), WireAll(tail), x);
      Associative([Meaning(f)], MeaningAll(tail), ws);
    }
  }

  lemma SoundOne(f: Frame)
    requires Good(f)
    ensures Sound([f], Wire(f), [Meaning(f)])
  {
    hide Good, Wire, Meaning;
    SoundCons(f, []);
    assert [f] + [] == [f] && Wire(f) + [] == Wire(f) && [Meaning(f)] + [] == [Meaning(f)];
  }

  lemma SoundTwo(f: Frame, g: Frame)
    requires Good(f) && Good(g)
    ensures Sound([f, g], Wire(f) + Wire(g), [Meaning(f), Meaning(g)])
  {
    hide Good, Wire, Meaning;
    SoundOne(f);
    SoundOne(g);
    SoundConcat([f], Wire(f), [Meaning(f)], [g], Wire(g), [Meaning(g)]);
    assert [f] + [g] == [f, g] && [Meaning(f)] + [Meaning(g)] == [Meaning(f), Meaning(g)];
  }

  /** A counted group of sound children is itself a sound frame. */
  lemma SoundGroup(kind: Kind, n: nat, fs: seq<Frame>, w: bytes, vs: seq<Value>)
    requires Sound(fs, w, vs) && !kind.KAttribute? && n <= I64_MAX && ChildCount(kind, n) == |fs|
    ensures Good(Group(kind, n, fs))
    ensures Wire(Group(kind, n, fs)) == PutLine(ModeOf(kind), Print(n)) + w
    ensures Meaning(Group(kind, n, fs)) == Assemble(kind, vs)
  {
    hide WireAll, MeaningAll, Assemble, Print, ParseI64, NoCrLf;
    PrintCounts(n);
    assert GoodGroup(kind, Print(n), fs);
  }

  // ---- Every encodable value -----------------------------------------------------

  predicate IsContainer(v: Value) { v.Array? || v.Map? || v.Set? || v.Push? || v.MemberScores? }

  lemma LineFrame(mode: byte, text: bytes)
    requires NoCrLf(text) && KindOf(mode).None? && !IsBlobMode(mode) && LineValue(mode, text).Some?
    ensures Good(Line(mode, text)) && Wire(Line(mode, text)) == PutLine(mode, text)
    ensures Meaning(Line(mode, text)) == LineValue(mode, text).value
  {
    hide LineValue;
  }

  lemma BlobFrame(mode: byte, data: bytes)
    requires IsBlobMode(mode) && |data| <= I64_MAX
    ensures Good(Strict(mode, data)) && Wire(Strict(mode, data)) == PutBlob(mode, data)
    ensures Meaning(Strict(mode, data)) == BlobValue(mode, data)
  {
    hide BlobValue, Print, ParseI64, NoCrLf;
    PrintCounts(|data|);
  }

  lemma NullFrames()
    ensures var f := NullBlob(MINUS_ONE);
            Good(f) && Wire(f) == [36, 45, 49, 13, 10] && Meaning(f) == BulkString(None)
    ensures var f := NullArrayFrame(MINUS_ONE);
            Good(f) && Wire(f) == [42, 45, 49, 13, 10] && Meaning(f) == NullArray
    ensures Good(Line(95, [])) && Wire(Line(95, [])) == NULL3 && Meaning(Line(95, [])) == Null
  {
    assert [95] + [] + CRLF == NULL3;
    assert Counts(MINUS_ONE, -1) by {
      assert MINUS_ONE[1..] == [49] && Magnitude([49]) == 1 by { assert [49][..0] == []; }
    }
  }

  /** A verbatim payload is a three-byte hint, a colon and the text; one without
      that colon is all text. */
  lemma VerbatimDecodes(payload: bytes, rest: bytes)
    requires |payload| <= I64_MAX
    ensures var r := Decode(PutBlob(61, payload) + rest);
            && r.Some? && r.value.1 == |PutBlob(61, payload)| && r.value.0.VerbatimString?
            && payload == (if |payload| > 3 && payload[3] == 58 then r.value.0.format + [58] else []) + r.value.0.payload
            && |r.value.0.format| == if |payload| > 3 && payload[3] == 58 then 3 else 0
  {
    hide Decode, PutBlob;
    BlobFrame(61, payload);
    FrameDecodes(Strict(61, payload), rest);
    assert |payload| > 3 && payload[3] == 58 ==> payload == payload[..3] + [58] + payload[4..];
  }

  lemma VerbatimFrame(format: bytes, data: bytes)
    ensures BlobValue(61, Hint(format) + [58] + data) == VerbatimString(Hint(format), data)
  {
    var p := Hint(format) + [58] + data;
    assert p[..3] == Hint(format) && p[4..] == data && p[3] == 58;
  }

  lemma LeafFrame(v: Value, resp3: bool)
    requires Encodable(v, resp3) && !IsContainer(v)
    ensures Good(FrameOf(v, resp3))
    ensures Wire(FrameOf(v, resp3)) == Encode(v, resp3)
    ensures Meaning(FrameOf(v, resp3)) == Image(v, resp3)
  {
    hide Good, Wire, Meaning, IsDouble, IsBigNumber, ParseI64, Hint;
    NullFrames();
    match v
    case SimpleString(s) => LineFrame(43, s);
    case Error(e) => LineFrame(45, e);
    case Integer(n) =>
      ParsePrint(n);
      IntegerText(n);
      LineFrame(58, Print(n));
    case BulkString(Some(data)) => BlobFrame(36, data);
    case Boolean(b) => BooleanFrame(b, resp3);
    case Double(repr) => if resp3 { LineFrame(44, repr); } else { BlobFrame(36, repr); }
    case BigNumber(n) => if resp3 { LineFrame(40, n); } else { BlobFrame(36, n); }
    case VerbatimString(format, data) =>
      if resp3 {
        VerbatimFrame(format, data);
        BlobFrame(61, Hint(format) + [58] + data);
      } else {
        BlobFrame(36, data);
      }
    case BulkError(e) => if resp3 { BlobFrame(33, e); } else { LineFrame(45, e); }
    case _ =>
  }

  lemma BooleanFrame(b: bool, resp3: bool)
    ensures var f := FrameOf(Boolean(b), resp3);
            Good(f) && Wire(f) == Encode(Boolean(b), resp3) && Meaning(f) == Image(Boolean(b), resp3)
  {
    if resp3 {
      LineFrame(35, if b then [116] else [102]);
    } else {
      ParsePrint(if b then 1 else 0);
      assert PrintNat(1) == [49] && PrintNat(0) == [48];
      LineFrame(58, if b then [49] else [48]);
    }
  }

  lemma IntegerText(n: int)
    ensures NoCrLf(Print(n))
  {
    if n < 0 {
      DigitsHaveNoCrLf(PrintNat(0 - n));
      forall i | 0 <= i < |Print(n)| - 1 ensures !CrLfAt(Print(n), i) {
        assert Print(n)[i] == (if i == 0 then MINUS else PrintNat(0 - n)[i - 1]);
        if i > 0 { assert IsDigit(PrintNat(0 - n)[i - 1]); }
      }
    } else {
      DigitsHaveNoCrLf(PrintNat(n));
    }
  }

  /** The encoder writes the wire form of a good frame, and that frame means
      the value's image. */
  lemma {:induction false} EncodesFrame(v: Value, resp3: bool)
    requires Encodable(v, resp3)
    ensures Good(FrameOf(v, resp3))
    ensures Wire(FrameOf(v, resp3)) == Encode(v, resp3)
    ensures Meaning(FrameOf(v, resp3)) == Image(v, resp3)
    decreases v, 1
  {
    hide Good, Wire, Meaning, PutLine, PutBlob, Print, Hint, NoCrLf, IsDouble, IsBigNumber, PairUp;
    match v
    case Array(items) => EncodesGroup(KArray, items, resp3);
    case Set(items) => EncodesGroup(if resp3 then KSet else KArray, items, resp3);
    case Push(items) => EncodesGroup(if resp3 then KPush else KArray, items, resp3);
    case Map(pairs) =>
      EncodesPairs(pairs, resp3);
      SoundGroup(if resp3 then KMap else KArray, if resp3 then |pairs| else 2 * |pairs|,
                 PairFrames(pairs, resp3), EncodePairs(pairs, resp3), PairImages(pairs, resp3));
    case MemberScores(scores) =>
      EncodesScores(scores, resp3);
      SoundGroup(KArray, if resp3 then |scores| else 2 * |scores|,
                 ScoreFrames(scores, resp3), EncodeScores(scores, resp3), ScoreImages(scores, resp3));
    case _ => LeafFrame(v, resp3);
  }

  lemma {:induction false} EncodesGroup(kind: Kind, items: seq<Value>, resp3: bool)
    requires AllEncodable(items, resp3) && !kind.KAttribute? && !kind.KMap?
    ensures var f := Group(kind, |items|, FramesOf(items, resp3));
            && Good(f) && Wire(f) == PutLine(ModeOf(kind), Print(|items|)) + EncodeAll(items, resp3)
            && Meaning(f) == Assemble(kind, Images(items, resp3))
    decreases items, 1
  {
    hide Good, Wire, Meaning;
    EncodesAll(items, resp3);
    SoundGroup(kind, |items|, FramesOf(items, resp3), EncodeAll(items, resp3), Images(items, resp3));
  }

  lemma {:induction false} EncodesAll(vs: seq<Value>, resp3: bool)
    requires forall i :: 0 <= i < |vs| ==> Encodable(vs[i], resp3)
    ensures Sound(FramesOf(vs, resp3), EncodeAll(vs, resp3), Images(vs, resp3))
    decreases vs, 0
  {
    hide Encodable, Encode, Image, FrameOf, Good, Wire, Meaning;
    if vs != [] {
      EncodesFrame(vs[0], resp3);
      EncodesAll(vs[1..], resp3);
      SoundCons(FrameOf(vs[0], resp3), FramesOf(vs[1..], resp3));
    }
  }

  lemma {:induction false} EncodesPairs(ps: seq<Pair>, resp3: bool)
    requires forall i :: 0 <= i < |ps| ==> Encodable(ps[i].key, resp3) && Encodable(ps[i].val, resp3)
    ensures Sound(PairFrames(ps, resp3), EncodePairs(ps, resp3), PairImages(ps, resp3))
    decreases ps
  {
    hide Encodable, EncodePair, PairImage, PairFrame, Good, Wire, Meaning;
    if ps != [] {
      EncodesPair(ps[0], resp3);
      EncodesPairs(ps[1..], resp3);
      SoundConcat(PairFrame(ps[0], resp3), EncodePair(ps[0], resp3), PairImage(ps[0], resp3),
                  PairFrames(ps[1..], resp3), EncodePairs(ps[1..], resp3), PairImages(ps[1..], resp3));
    }
  }

  lemma {:induction false} EncodesPair(p: Pair, resp3: bool)
    requires Encodable(p.key, resp3) && Encodable(p.val, resp3)
    ensures Sound(PairFrame(p, resp3), EncodePair(p, resp3), PairImage(p, resp3))
    decreases p, 2
  {
    hide Encodable, Encode, Image, FrameOf, Good, Wire, Meaning;
    EncodesFrame(p.key, resp3);
    EncodesFrame(p.val, resp3);
    SoundTwo(FrameOf(p.key, resp3), FrameOf(p.val, resp3));
  }

  lemma EncodesScore(m: bytes, s: bytes, resp3: bool)
    requires Encodable(MemberScores([(m, s)]), resp3)
    ensures Sound(ScoreFrame(m, s, resp3), EncodeScore(m, s, resp3), ScoreImage(m, s, resp3))
  {
    hide Good, Wire, Meaning, IsDouble, Print;
    assert [(m, s)][0] == (m, s);
    BlobFrame(36, m);
    if resp3 {
      LineFrame(44, s);
      var pair := [Strict(36, m), Line(44, s)];
      SoundTwo(Strict(36, m), Line(44, s));
      SoundGroup(KArray, 2, pair, PutBlob(36, m) + PutLine(44, s), [BulkString(Some(m)), Double(s)]);
      assert Print(2) == [50] by { PrintTwo(); }
      SoundOne(Group(KArray, 2, pair));
      assert PutLine(42, [50]) == [42, 50, 13, 10];
      assert [42, 50, 13, 10] + (PutBlob(36, m) + PutLine(44, s)) == EncodeScore(m, s, resp3);
    } else {
      BlobFrame(36, s);
      SoundTwo(Strict(36, m), Strict(36, s));
    }
  }

  lemma PrintTwo()
    ensures Print(2) == [50]
  {
  }

  lemma {:induction false} EncodesScores(ps: seq<(bytes, bytes)>, resp3: bool)
    requires Encodable(MemberScores(ps), resp3)
    ensures Sound(ScoreFrames(ps, resp3), EncodeScores(ps, resp3), ScoreImages(ps, resp3))
    decreases ps
  {
    hide Good, Wire, Meaning, IsDouble, ScoreFrame, EncodeScore, ScoreImage;
    if ps != [] {
      assert Encodable(MemberScores([ps[0]]), resp3);
      EncodesScore(ps[0].0, ps[0].1, resp3);
      EncodesScores(ps[1..], resp3);
      SoundConcat(ScoreFrame(ps[0].0, ps[0].1, resp3), EncodeScore(ps[0].0, ps[0].1, resp3), ScoreImage(ps[0].0, ps[0].1, resp3),
                  ScoreFrames(ps[1..], resp3), EncodeScores(ps[1..], resp3), ScoreImages(ps[1..], resp3));
    }
  }

  // ---- Round trips ------------------------------------------------------------------

  /** Decoding what the encoder wrote returns the value's image and consumes
      exactly its bytes, whatever follows. */
  lemma RoundTrip(v: Value, resp3: bool, rest: bytes)
    requires Encodable(v, resp3)
    ensures Decode(Encode(v, resp3) + rest) == Some((Image(v, resp3), |Encode(v, resp3)|))
  {
    hide Decode, Encode, Image, Encodable;
    EncodesFrame(v, resp3);
    FrameDecodes(FrameOf(v, resp3), rest);
  }

  /** Encoding the decoded value again gives the same bytes. */
  lemma {:induction false} ReEncodes(v: Value, resp3: bool)
    ensures Encode(Image(v, resp3), resp3) == Encode(v, resp3)
    decreases v, 1
  {
    hide PutLine, PutBlob, Hint, PrintNat, EncodeScores, ScoreImages, PairUp;
    match v
    case Array(items) => ReEncodesAll(items, resp3);
    case Set(items) => ReEncodesAll(items, resp3);
    case Push(items) => ReEncodesAll(items, resp3);
    case Map(pairs) => ReEncodesPairs(pairs, resp3);
    case MemberScores(scores) => ReEncodesScores(scores, resp3);
    case Boolean(b) => ReEncodesBoolean(b, resp3);
    case _ =>
  }

  lemma ReEncodesBoolean(b: bool, resp3: bool)
    ensures Encode(Image(Boolean(b), resp3), resp3) == Encode(Boolean(b), resp3)
  {
    assert PrintNat(1) == [49] && PrintNat(0) == [48];
  }

  lemma {:induction false} ReEncodesAll(vs: seq<Value>, resp3: bool)
    ensures EncodeAll(Images(vs, resp3), resp3) == EncodeAll(vs, resp3)
    decreases vs, 0
  {
    hide Encode, Image;
    if vs != [] {
      ReEncodes(vs[0], resp3);
      ReEncodesAll(vs[1..], resp3);
      assert Images(vs, resp3)[1..] == Images(vs[1..], resp3);
    }
  }

  lemma {:induction false} ReEncodesPairs(ps: seq<Pair>, resp3: bool)
    ensures EncodeAll(PairImages(ps, resp3), resp3) == EncodePairs(ps, resp3)
    ensures EncodePairs(PairUp(PairImages(ps, resp3)), resp3) == EncodePairs(ps, resp3)
    ensures |PairUp(PairImages(ps, resp3))| == |ps|
    decreases ps, 0
  {
    hide Encode, Image;
    if ps != [] {
      ReEncodesPair(ps[0], resp3);
      ReEncodesPairs(ps[1..], resp3);
      var k, x, rest := Image(ps[0].key, resp3), Image(ps[0].val, resp3), PairImages(ps[1..], resp3);
      var all := PairImages(ps, resp3);
      assert all == [k, x] + rest && all[1..] == [x] + rest && all[1..][1..] == rest && all[2..] == rest;
      assert EncodeAll(all, resp3) == Encode(k, resp3) + (Encode(x, resp3) + EncodeAll(rest, resp3));
      assert PairUp(all)[1..] == PairUp(rest);
    }
  }

  lemma {:induction false} ReEncodesPair(p: Pair, resp3: bool)
    ensures Encode(Image(p.key, resp3), resp3) == Encode(p.key, resp3)
    ensures Encode(Image(p.val, resp3), resp3) == Encode(p.val, resp3)
    decreases p, 2
  {
    ReEncodes(p.key, resp3);
    ReEncodes(p.val, resp3);
  }

  lemma {:induction false} ReEncodesScores(ps: seq<(bytes, bytes)>, resp3: bool)
    ensures EncodeAll(ScoreImages(ps, resp3), resp3) == EncodeScores(ps, resp3)
    decreases ps
  {
    hide PutBlob, PutLine;
    if ps != [] {
      ReEncodesScores(ps[1..], resp3);
      var rest := ScoreImages(ps[1..], resp3);
      EncodesPiece(ScoreImage(ps[0].0, ps[0].1, resp3), rest, resp3);
      ReEncodesScore(ps[0].0, ps[0].1, resp3);
    }
  }

  lemma {:induction false} EncodesPiece(vs: seq<Value>, ws: seq<Value>, resp3: bool)
    ensures EncodeAll(vs + ws, resp3) == EncodeAll(vs, resp3) + EncodeAll(ws, resp3)
    decreases |vs|
  {
    hide Encode;
    if vs == [] {
      assert vs + ws == ws;
    } else {
      assert (vs + ws)[1..] == vs[1..] + ws;
      EncodesPiece(vs[1..], ws, resp3);
    }
  }

  lemma ReEncodesScore(m: bytes, s: bytes, resp3: bool)
    ensures EncodeAll(ScoreImage(m, s, resp3), resp3) == EncodeScore(m, s, resp3)
  {
    PrintTwo();
    var both := [BulkString(Some(m)), if resp3 then Double(s) else BulkString(Some(s))];
    TwoEncode(both[0], both[1], resp3);
    if resp3 {
      var pair := Array(both);
      assert ScoreImage(m, s, resp3) == [pair] && [pair][1..] == [];
      assert PutLine(42, [50]) == [42, 50, 13, 10];
    }
  }

  lemma TwoEncode(v: Value, w: Value, resp3: bool)
    ensures EncodeAll([v, w], resp3) == Encode(v, resp3) + Encode(w, resp3)
  {
    hide Encode;
    assert [v, w][1..] == [w] && [w][1..] == [];
    assert EncodeAll([w], resp3) == Encode(w, resp3) + EncodeAll([], resp3);
  }

  /** A batch, or any run of replies, arrives as its replies one after another,
      however the bytes are cut up on the way. */
  lemma RepliesArrive(vs: seq<Value>, resp3: bool, chunks: seq<bytes>)
    requires forall i :: 0 <= i < |vs| ==> Encodable(vs[i], resp3)
    requires Concat(chunks) == Encode(Batch(vs), resp3)
    ensures FeedAll([], chunks) == (Images(vs, resp3), [])
  {
    EncodesAll(vs, resp3);
    StreamExact(FramesOf(vs, resp3), chunks);
  }
}
