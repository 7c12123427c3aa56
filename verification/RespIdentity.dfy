/** Which values come back from the wire as themselves. */
module RespIdentity {
  import opened Machine
  import opened Decimal
  import opened RespParser
  import opened RespReader
  import opened RespFrames
  import opened RespEncoder
  import opened RespExact

  /** Values that a protocol version can tell from all others: RESP3 has one
      null and three-byte verbatim hints, RESP2 only strings, errors, integers
      and arrays. */
  predicate Kept(v: Value, resp3: bool)
    decreases v
  {
    match v
    case SimpleString(_) => true
    case Error(_) => true
    case Integer(_) => true
    case BulkString(data) => resp3 ==> data.Some?
    case NullArray => !resp3
    case Array(items) => forall i :: 0 <= i < |items| ==> Kept(items[i], resp3)
    case Set(items) => resp3 && forall i :: 0 <= i < |items| ==> Kept(items[i], resp3)
    case Push(items) => resp3 && forall i :: 0 <= i < |items| ==> Kept(items[i], resp3)
    case Map(pairs) =>
      resp3 && forall i :: 0 <= i < |pairs| ==> Kept(pairs[i].key, resp3) && Kept(pairs[i].val, resp3)
    case VerbatimString(format, _) => resp3 && |format| == 3
    case MemberScores(_) => false
    case Batch(_) => true
    case _ => resp3
  }

  ghost predicate AllKept(vs: seq<Value>, resp3: bool) { forall i :: 0 <= i < |vs| ==> Kept(vs[i], resp3) }

  ghost predicate PairsKept(ps: seq<Pair>, resp3: bool) {
    forall i :: 0 <= i < |ps| ==> Kept(ps[i].key, resp3) && Kept(ps[i].val, resp3)
  }

  // ---- When the image is the value itself --------------------------------------

  lemma {:induction false} ImageIdentity(v: Value, resp3: bool)
    ensures Image(v, resp3) == v <==> Kept(v, resp3)
    decreases v, 1
  {
    hide Images, PairImages, ScoreImages, PairUp, Hint;
    match v
    case Array(items) => ImagesIdentity(items, resp3);
    case Set(items) => ImagesIdentity(items, resp3);
    case Push(items) => ImagesIdentity(items, resp3);
    case Map(pairs) => PairsIdentity(pairs, resp3);
    case _ =>
  }

  lemma {:induction false} ImagesIdentity(vs: seq<Value>, resp3: bool)
    ensures Images(vs, resp3) == vs <==> AllKept(vs, resp3)
    decreases vs, 0
  {
    hide Image, Kept;
    if vs != [] {
      ImageIdentity(vs[0], resp3);
      ImagesIdentity(vs[1..], resp3);
      assert Images(vs, resp3)[1..] == Images(vs[1..], resp3);
      assert vs == [vs[0]] + vs[1..];
    }
  }

  lemma {:induction false} PairsIdentity(ps: seq<Pair>, resp3: bool)
    ensures PairUp(PairImages(ps, resp3)) == ps <==> PairsKept(ps, resp3)
    decreases ps, 0
  {
    hide Image, Kept;
    if ps != [] {
      PairIdentity(ps[0], resp3);
      PairsIdentity(ps[1..], resp3);
      var images, pair := PairImages(ps, resp3), Pair(Image(ps[0].key, resp3), Image(ps[0].val, resp3));
      assert images[2..] == PairImages(ps[1..], resp3);
      assert PairUp(images)[1..] == PairUp(images[2..]) && PairUp(images)[0] == pair;
      assert ps == [ps[0]] + ps[1..];
    }
  }

  lemma {:induction false} PairIdentity(p: Pair, resp3: bool)
    ensures Image(p.key, resp3) == p.key && Image(p.val, resp3) == p.val <==> Kept(p.key, resp3) && Kept(p.val, resp3)
    decreases p, 2
  {
    ImageIdentity(p.key, resp3);
    ImageIdentity(p.val, resp3);
  }

  // ---- What comes back as itself is kept ------------------------------------------

  /** The value reads back as itself, whatever length is used up. */
  ghost predicate Back(v: Value, resp3: bool, rest: bytes) {
    var r := Read(Encode(v, resp3) + rest);
    r.Some? && r.value.0 == v
  }

  lemma EncodableBack(v: Value, resp3: bool, rest: bytes)
    requires Encodable(v, resp3)
    ensures Back(v, resp3, rest) <==> Kept(v, resp3)
    ensures Read(Encode(v, resp3) + rest) == Some((Image(v, resp3), |Encode(v, resp3)|))
  {
    hide Decode, Read, Encode, Image, Encodable, Kept;
    RoundTrip(v, resp3, rest);
    DecodeIsRead(Encode(v, resp3) + rest);
    ImageIdentity(v, resp3);
  }

  lemma HugeText(n: nat)
    requires n > I64_MAX
    ensures NoCrLf(Print(n)) && ParseI64(Print(n)) == None
  {
    DigitsHaveNoCrLf(Print(n));
    PrintMagnitude(n);
    assert IsDigit(Print(n)[0]);
  }

  lemma HugeBlobFails(mode: byte, data: bytes, rest: bytes)
    requires IsBlobMode(mode) && |data| > I64_MAX
    ensures Read(PutBlob(mode, data) + rest) == None
  {
    hide Print, NoCrLf, ParseI64, FindLine, ReadLine;
    HugeText(|data|);
    LineReads(mode, Print(|data|), data + CRLF + rest);
    assert PutBlob(mode, data) + rest == Header(mode, Print(|data|)) + (data + CRLF + rest);
  }

  /** The first byte settles the kind of value. */
  lemma ModeDecides(b: bytes)
    requires Read(b).Some?
    ensures b[0] == 45 ==> Read(b).value.0.Error?
    ensures b[0] == 42 ==> Read(b).value.0.Array? || Read(b).value.0.NullArray?
  {
    hide ReadLine, FindLine, ReadMany, ParseI64;
  }

  lemma {:induction false} BackIsKept(v: Value, resp3: bool, rest: bytes)
    requires Back(v, resp3, rest)
    ensures Kept(v, resp3) && Encodable(v, resp3)
    decreases v, 1
  {
    hide Encode, Encodable, Kept, Clean, Read;
    assert Clean(v) by { ReadClean(Encode(v, resp3) + rest); }
    if Encodable(v, resp3) && !IsContainer(v) {
      EncodableBack(v, resp3, rest);
    } else {
      PartsKept(v, resp3, rest);
      ImageIdentity(v, resp3);
      CleanImage(v, resp3);
    }
  }

  /** Containers come back through their parts; a leaf without a wire form of
      its own does not come back at all. */
  lemma {:induction false} PartsKept(v: Value, resp3: bool, rest: bytes)
    requires Back(v, resp3, rest) && Clean(v) && (IsContainer(v) || !Encodable(v, resp3))
    ensures Kept(v, resp3)
    decreases v, 0
  {
    hide Read, EncodeAll, EncodePairs, EncodeScores, NoCrLf, IsDouble, IsBigNumber, Print, PutBlob;
    ModeDecides(Encode(v, resp3) + rest);
    match v
    case Array(items) => GroupBack(42, KArray, items, resp3, rest);
    case Set(items) => if resp3 { GroupBack(126, KSet, items, resp3, rest); }
    case Push(items) => if resp3 { GroupBack(62, KPush, items, resp3, rest); }
    case Map(pairs) => if resp3 { MapBack(pairs, rest); }
    case Double(repr) => if !resp3 { HugeBlobFails(36, repr, rest); }
    case BigNumber(n) => if !resp3 { HugeBlobFails(36, n, rest); }
    case VerbatimString(format, data) =>
      if resp3 { HugeBlobFails(61, Hint(format) + [58] + data, rest); } else { HugeBlobFails(36, data, rest); }
    case _ =>
  }

  lemma {:induction false} GroupBack(mode: byte, kind: Kind, items: seq<Value>, resp3: bool, rest: bytes)
    requires KindOf(mode) == Some(kind) && !kind.KMap? && !kind.KAttribute? && |items| <= I64_MAX
    requires var r := Read(PutLine(mode, Print(|items|)) + EncodeAll(items, resp3) + rest);
             r.Some? && r.value.0 == Assemble(kind, items)
    ensures AllKept(items, resp3)
    decreases items, 2
  {
    hide Read, Print, ParseI64, NoCrLf, ReadMany, EncodeAll;
    GroupOpens(mode, kind, |items|, EncodeAll(items, resp3) + rest);
    assert PutLine(mode, Print(|items|)) + EncodeAll(items, resp3) + rest ==
           PutLine(mode, Print(|items|)) + (EncodeAll(items, resp3) + rest);
    ManyBack(items, resp3, rest);
  }

  /** Reading a group reads its header and then its children. */
  lemma GroupOpens(mode: byte, kind: Kind, n: nat, rest: bytes)
    requires KindOf(mode) == Some(kind) && !kind.KAttribute? && n <= I64_MAX
    ensures var r := Read(PutLine(mode, Print(n)) + rest);
            var m := ReadMany(rest, ChildCount(kind, n));
            r.Some? ==> m.Some? && r.value.0 == Assemble(kind, m.value.0)
  {
    hide Print, ParseI64, NoCrLf, ReadMany, Assemble, FindLine, ReadLine, ReadLeaf;
    PrintCounts(n);
    HeaderReads(mode, Print(n), n, rest);
    var b := PutLine(mode, Print(n)) + rest;
    assert b == Header(mode, Print(n)) + rest;
    assert b[|Print(n)| + 3..] == rest;
  }

  lemma {:induction false} ManyBack(vs: seq<Value>, resp3: bool, rest: bytes)
    requires var m := ReadMany(EncodeAll(vs, resp3) + rest, |vs|); m.Some? && m.value.0 == vs
    ensures AllKept(vs, resp3)
    decreases vs, 1
  {
    hide Read, Encode, Kept, Encodable, Image;
    if vs != [] {
      var w, more := Encode(vs[0], resp3), EncodeAll(vs[1..], resp3) + rest;
      assert EncodeAll(vs, resp3) + rest == w + more;
      BackIsKept(vs[0], resp3, more);
      EncodableBack(vs[0], resp3, more);
      assert (w + more)[|w|..] == more;
      ManyBack(vs[1..], resp3, rest);
    }
  }

  lemma {:induction false} MapBack(ps: seq<Pair>, rest: bytes)
    requires |ps| <= I64_MAX && Back(Map(ps), true, rest)
    ensures PairsKept(ps, true)
    decreases ps, 2
  {
    hide Read, Print, ParseI64, NoCrLf, ReadMany, EncodePairs, PairUp;
    GroupOpens(37, KMap, |ps|, EncodePairs(ps, true) + rest);
    assert PutLine(37, Print(|ps|)) + EncodePairs(ps, true) + rest ==
           PutLine(37, Print(|ps|)) + (EncodePairs(ps, true) + rest);
    PairsBack(ps, rest);
  }

  lemma PairsUnfold(ps: seq<Pair>, rest: bytes)
    requires ps != []
    ensures EncodePairs(ps, true) + rest ==
            Encode(ps[0].key, true) + (Encode(ps[0].val, true) + (EncodePairs(ps[1..], true) + rest))
  {
    hide Encode;
  }

  lemma FirstPair(vs: seq<Value>)
    requires |vs| >= 2
    ensures PairUp(vs) != [] && PairUp(vs)[0] == Pair(vs[0], vs[1]) && PairUp(vs)[1..] == PairUp(vs[2..])
  {
  }

  lemma {:induction false} PairsBack(ps: seq<Pair>, rest: bytes)
    requires var m := ReadMany(EncodePairs(ps, true) + rest, 2 * |ps|); m.Some? && PairUp(m.value.0) == ps
    ensures PairsKept(ps, true)
    decreases ps, 1
  {
    hide Read, Encode, Kept, Encodable, Image, ReadMany;
    if ps != [] {
      var b, more := EncodePairs(ps, true) + rest, EncodePairs(ps[1..], true) + rest;
      PairsUnfold(ps, rest);
      var vs := ReadMany(b, 2 * |ps|).value.0;
      FirstPair(vs);
      PairBack(ps[0], b, more, 2 * |ps|, vs);
      PairsBack(ps[1..], rest);
    }
  }

  lemma {:induction false} PairBack(p: Pair, b: bytes, more: bytes, n: nat, vs: seq<Value>)
    requires n >= 2 && b == Encode(p.key, true) + (Encode(p.val, true) + more)
    requires ReadMany(b, n).Some? && ReadMany(b, n).value.0 == vs && vs[0] == p.key && vs[1] == p.val
    ensures Kept(p.key, true) && Kept(p.val, true)
    ensures ReadMany(more, n - 2).Some? && ReadMany(more, n - 2).value.0 == vs[2..]
    decreases p, 2
  {
    hide Read, Encode, Kept, Encodable, Image;
    var k, x := Encode(p.key, true), Encode(p.val, true);
    BackIsKept(p.key, true, x + more);
    EncodableBack(p.key, true, x + more);
    assert b[|k|..] == x + more;
    var m := ReadMany(x + more, n - 1);
    assert m.value.0 == vs[1..];
    BackIsKept(p.val, true, more);
    EncodableBack(p.val, true, more);
    assert (x + more)[|x|..] == more;
  }

  // ---- The identity, exactly ---------------------------------------------------------

  /** For every value and both protocol versions: it comes back as itself, with
      exactly its bytes used up, if and only if it is encodable and kept. */
  lemma IdentityExact(v: Value, resp3: bool, rest: bytes)
    ensures Decode(Encode(v, resp3) + rest) == Some((v, |Encode(v, resp3)|)) <==>
            Encodable(v, resp3) && Kept(v, resp3)
  {
    hide Decode, Read, Encode, Image, Encodable, Kept;
    DecodeIsRead(Encode(v, resp3) + rest);
    if Encodable(v, resp3) {
      EncodableBack(v, resp3, rest);
      ImageIdentity(v, resp3);
    } else if Back(v, resp3, rest) {
      BackIsKept(v, resp3, rest);
    }
  }

  /** The encoder confuses two encodable values exactly if their images agree. */
  lemma EncodeConfuses(v: Value, w: Value, resp3: bool)
    requires Encodable(v, resp3) && Encodable(w, resp3)
    ensures Encode(v, resp3) == Encode(w, resp3) <==> Image(v, resp3) == Image(w, resp3)
  {
    hide Decode, Encode, Image, Encodable;
    RoundTrip(v, resp3, []);
    RoundTrip(w, resp3, []);
    ReEncodes(v, resp3);
    ReEncodes(w, resp3);
  }

  /** Under RESP3 the three nulls are one on the wire. */
  lemma NullsCollapse()
    ensures Encode(Null, true) == Encode(BulkString(None), true) == Encode(NullArray, true)
    ensures Decode(Encode(NullArray, true)) == Some((Null, 3)) == Decode(Encode(BulkString(None), true))
  {
    hide Decode;
    RoundTrip(Null, true, []);
    assert NULL3 + [] == NULL3;
  }
}
