/** What can come out of the decoder, and hence exactly which values survive
    the way through the encoder and back. */
module RespExact {
  import opened Machine
  import opened Decimal
  import opened RespParser
  import opened RespReader
  import opened RespFrames
  import opened RespStream
  import opened RespEncoder

  /** Values that some input decodes to are of this form. */
  predicate Clean(v: Value)
    decreases v
  {
    match v
    case SimpleString(s) => NoCrLf(s)
    case Error(e) => NoCrLf(e)
    case BulkString(Some(data)) => |data| <= I64_MAX
    case Array(items) => |items| <= I64_MAX && forall i :: 0 <= i < |items| ==> Clean(items[i])
    case Set(items) => |items| <= I64_MAX && forall i :: 0 <= i < |items| ==> Clean(items[i])
    case Push(items) => |items| <= I64_MAX && forall i :: 0 <= i < |items| ==> Clean(items[i])
    case Map(pairs) =>
      |pairs| <= I64_MAX && forall i :: 0 <= i < |pairs| ==> Clean(pairs[i].key) && Clean(pairs[i].val)
    case Double(repr) => NoCrLf(repr) && IsDouble(repr)
    case BigNumber(n) => NoCrLf(n) && IsBigNumber(n)
    case VerbatimString(format, data) => |format| == 3 ==> |data| + 4 <= I64_MAX
    case BulkError(e) => |e| <= I64_MAX
    case MemberScores(_) => false
    case Batch(_) => false
    case _ => true
  }

  ghost predicate AllClean(vs: seq<Value>) { forall i :: 0 <= i < |vs| ==> Clean(vs[i]) }

  ghost predicate PairsClean(ps: seq<Pair>) {
    forall i :: 0 <= i < |ps| ==> Clean(ps[i].key) && Clean(ps[i].val)
  }

  lemma {:induction false} PairUpClean(vs: seq<Value>)
    requires |vs| % 2 == 0
    ensures |PairUp(vs)| == |vs| / 2
    ensures AllClean(vs) <==> PairsClean(PairUp(vs))
    decreases |vs|
  {
    hide Clean;
    if vs != [] {
      var ps, tail := PairUp(vs), vs[2..];
      PairUpClean(tail);
      assert ps[0] == Pair(vs[0], vs[1]) && ps[1..] == PairUp(tail);
      if AllClean(vs) {
        forall i | 0 <= i < |ps| ensures Clean(ps[i].key) && Clean(ps[i].val) {
          if i > 0 { assert ps[i] == ps[1..][i - 1]; }
        }
      }
      if PairsClean(ps) {
        assert PairsClean(PairUp(tail));
        forall i | 0 <= i < |vs| ensures Clean(vs[i]) {
          if i < 2 { assert Clean(ps[0].key) && Clean(ps[0].val); } else { assert vs[i] == tail[i - 2]; }
        }
      }
    }
  }

  // ---- The decoder emits clean values only -----------------------------------

  lemma LeafClean(b: bytes)
    requires b != [] && ReadLeaf(b).Some?
    ensures Clean(ReadLeaf(b).value.0)
  {
    hide ParseI64, IsDouble, IsBigNumber, NoCrLf, FindLine;
    LineSplits(b);
  }

  lemma {:induction false} ReadClean(b: bytes)
    requires Read(b).Some?
    ensures Clean(Read(b).value.0)
    decreases |b|, 1
  {
    if KindOf(b[0]).Some? { GroupClean(b, KindOf(b[0]).value); } else { LeafClean(b); }
  }

  lemma {:induction false} GroupClean(b: bytes, kind: Kind)
    requires |b| >= 3 && ReadGroup(b, kind).Some?
    ensures Clean(ReadGroup(b, kind).value.0)
    decreases |b|, 0
  {
    hide ReadLine, Read, ReadMany, PairUp, ParseI64;
    var (count, pos) := ReadI64(b).value;
    if count >= 0 {
      ManyClean(b[pos..], ChildCount(kind, count));
      var (vs, n) := ReadMany(b[pos..], ChildCount(kind, count)).value;
      if kind.KAttribute? {
        ReadClean(b[pos + n..]);
      } else if kind.KMap? {
        PairUpClean(vs);
      }
    }
  }

  lemma {:induction false} ManyClean(b: bytes, n: nat)
    requires ReadMany(b, n).Some?
    ensures AllClean(ReadMany(b, n).value.0)
    decreases |b|, 2
  {
    hide Read, Clean;
    if n > 0 {
      ReadClean(b);
      ManyClean(b[Read(b).value.1..], n - 1);
    }
  }

  // ---- A clean image has an encodable origin -----------------------------------

  lemma {:induction false} CleanImage(v: Value, resp3: bool)
    requires Clean(Image(v, resp3))
    ensures Encodable(v, resp3)
    decreases v, 1
  {
    hide NoCrLf, IsDouble, IsBigNumber, PairUp, ScoreImages, PairImages, Images;
    match v
    case Array(items) => CleanImages(items, resp3);
    case Set(items) => CleanImages(items, resp3);
    case Push(items) => CleanImages(items, resp3);
    case Map(pairs) =>
      PairUpClean(PairImages(pairs, resp3));
      CleanPairs(pairs, resp3);
    case MemberScores(scores) => CleanScores(scores, resp3);
    case _ =>
  }

  lemma {:induction false} CleanImages(vs: seq<Value>, resp3: bool)
    requires AllClean(Images(vs, resp3))
    ensures forall i :: 0 <= i < |vs| ==> Encodable(vs[i], resp3)
    decreases vs, 0
  {
    hide Clean, Encodable, Image;
    if vs != [] {
      var images := Images(vs, resp3);
      assert Clean(images[0]);
      CleanImage(vs[0], resp3);
      assert images[1..] == Images(vs[1..], resp3);
      CleanImages(vs[1..], resp3);
    }
  }

  lemma {:induction false} CleanPairs(ps: seq<Pair>, resp3: bool)
    requires AllClean(PairImages(ps, resp3))
    ensures forall i :: 0 <= i < |ps| ==> Encodable(ps[i].key, resp3) && Encodable(ps[i].val, resp3)
    decreases ps, 0
  {
    hide Clean, Encodable, Image;
    if ps != [] {
      var images := PairImages(ps, resp3);
      assert Clean(images[0]) && Clean(images[1]);
      CleanPair(ps[0], resp3);
      assert images[2..] == PairImages(ps[1..], resp3);
      CleanPairs(ps[1..], resp3);
    }
  }

  lemma {:induction false} CleanPair(p: Pair, resp3: bool)
    requires Clean(Image(p.key, resp3)) && Clean(Image(p.val, resp3))
    ensures Encodable(p.key, resp3) && Encodable(p.val, resp3)
    decreases p, 2
  {
    CleanImage(p.key, resp3);
    CleanImage(p.val, resp3);
  }

  lemma {:induction false} CleanScores(ps: seq<(bytes, bytes)>, resp3: bool)
    requires AllClean(ScoreImages(ps, resp3))
    ensures forall i :: 0 <= i < |ps| ==>
              && |ps[i].0| <= I64_MAX
              && (if resp3 then NoCrLf(ps[i].1) && IsDouble(ps[i].1) else |ps[i].1| <= I64_MAX)
    decreases ps
  {
    hide NoCrLf, IsDouble;
    if ps != [] {
      var images, first := ScoreImages(ps, resp3), ScoreImage(ps[0].0, ps[0].1, resp3);
      assert Clean(images[0]);
      if resp3 {
        assert Clean(images[0].items[0]) && Clean(images[0].items[1]);
      } else {
        assert Clean(images[1]);
      }
      assert images[|first|..] == ScoreImages(ps[1..], resp3);
      CleanScores(ps[1..], resp3);
    }
  }

  // ---- Exactly the encodable values survive --------------------------------------

  /** A value comes back as its image, with exactly its bytes used up, if and
      only if it is encodable; no bytes at all decode to the image of another. */
  lemma RoundTripExact(v: Value, resp3: bool, rest: bytes)
    ensures Decode(Encode(v, resp3) + rest) == Some((Image(v, resp3), |Encode(v, resp3)|)) <==> Encodable(v, resp3)
    ensures (exists b :: Decode(b).Some? && Decode(b).value.0 == Image(v, resp3)) <==> Encodable(v, resp3)
  {
    hide Decode, Encode, Image, Encodable, Clean;
    if Encodable(v, resp3) { RoundTrip(v, resp3, rest); }
    forall b | Decode(b).Some? && Decode(b).value.0 == Image(v, resp3) ensures Encodable(v, resp3) {
      DecodeIsRead(b);
      ReadClean(b);
      CleanImage(v, resp3);
    }
  }

  lemma {:induction false} DecodedClean(b: bytes)
    ensures AllClean(DecodeAll(b).0)
    decreases |b|
  {
    hide Decode, Clean, Read;
    match Decode(b)
    case None =>
    case Some((v, n)) =>
      DecodeIsRead(b);
      ReadClean(b);
      DecodedClean(b[n..]);
  }

  /** A run of replies, cut up in any way, arrives as the images of its replies
      with nothing left over, if and only if each of them is encodable. */
  lemma RepliesExact(vs: seq<Value>, resp3: bool, chunks: seq<bytes>)
    requires Concat(chunks) == Encode(Batch(vs), resp3)
    ensures FeedAll([], chunks) == (Images(vs, resp3), []) <==> forall i :: 0 <= i < |vs| ==> Encodable(vs[i], resp3)
  {
    hide Decode, Encodable, Clean, Image, Images, Encode, FeedAll, DecodeAll;
    if forall i :: 0 <= i < |vs| ==> Encodable(vs[i], resp3) { RepliesArrive(vs, resp3, chunks); }
    if FeedAll([], chunks) == (Images(vs, resp3), []) {
      EmptyWaits();
      ChunkingIrrelevant([], chunks);
      DecodedClean([] + Concat(chunks));
      CleanImages(vs, resp3);
    }
  }

  lemma EmptyWaits()
    ensures Decode([]) == None
  {
  }
}
