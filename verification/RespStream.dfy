/** Decoding a byte stream that arrives in arbitrary chunks. */
module RespStream {
  import opened Machine
  import opened RespParser
  import opened RespReader
  import opened RespStability
  import opened RespFrames

  /** Decode until no complete frame is left: the values and the remainder. */
  function DecodeAll(b: bytes): (r: (seq<Value>, bytes))
    decreases |b|
  {
    match Decode(b)
    case None => ([], b)
    case Some((v, n)) =>
      var (vs, rest) := DecodeAll(b[n..]);
      ([v] + vs, rest)
  }

  /** What a connection that starts with `buffer` emits for these chunks. */
  function FeedAll(buffer: bytes, chunks: seq<bytes>): (r: (seq<Value>, bytes))
    decreases |chunks|
  {
    if chunks == [] then ([], buffer)
    else
      var (vs, rest) := DecodeAll(buffer + chunks[0]);
      var (ws, last) := FeedAll(rest, chunks[1..]);
      (vs + ws, last)
  }

  function Concat(chunks: seq<bytes>): bytes {
    if chunks == [] then [] else chunks[0] + Concat(chunks[1..])
  }

  /** A successful decoding step is unchanged by appended bytes. */
  lemma DecodeStable(a: bytes, c: bytes)
    requires Decode(a).Some?
    ensures Decode(a + c) == Decode(a)
  {
    hide Decode, Read;
    DecodeIsRead(a);
    DecodeIsRead(a + c);
    ReadStable(a, c);
  }

  /** Stopping after `a` and carrying on with `c` is decoding `a + c`. */
  lemma {:induction false} SplitDecodes(a: bytes, c: bytes)
    ensures var (vs, rest) := DecodeAll(a);
            var (ws, last) := DecodeAll(rest + c);
            DecodeAll(a + c) == (vs + ws, last)
    decreases |a|
  {
    hide Decode;
    match Decode(a)
    case None =>
      var (ws, last) := DecodeAll(a + c);
      assert [] + ws == ws;
    case Some((v, n)) =>
      DecodeStable(a, c);
      assert (a + c)[n..] == a[n..] + c;
      SplitDecodes(a[n..], c);
      var (vs, rest) := DecodeAll(a[n..]);
      var (ws, last) := DecodeAll(rest + c);
      assert [v] + (vs + ws) == ([v] + vs) + ws;
  }

  /** The remainder never holds a complete frame. */
  lemma {:induction false} RemainderWaits(b: bytes)
    ensures Decode(DecodeAll(b).1) == None
    decreases |b|
  {
    hide Decode;
    if Decode(b).Some? { RemainderWaits(b[Decode(b).value.1..]); }
  }

  /** However a stream is cut into chunks, well formed or not, the decoder
      emits what it would emit for the whole. */
  lemma {:induction false} ChunkingIrrelevant(buffer: bytes, chunks: seq<bytes>)
    requires Decode(buffer) == None
    ensures FeedAll(buffer, chunks) == DecodeAll(buffer + Concat(chunks))
    decreases |chunks|
  {
    hide Decode;
    if chunks == [] {
      assert buffer + [] == buffer;
    } else {
      var a := buffer + chunks[0];
      RemainderWaits(a);
      ChunkingIrrelevant(DecodeAll(a).1, chunks[1..]);
      SplitDecodes(a, Concat(chunks[1..]));
      assert buffer + Concat(chunks) == a + Concat(chunks[1..]);
    }
  }

  lemma {:induction false} FramesDecodeAll(fs: seq<Frame>)
    requires forall i :: 0 <= i < |fs| ==> Good(fs[i])
    ensures DecodeAll(WireAll(fs)) == (MeaningAll(fs), [])
    decreases |fs|
  {
    hide Decode, Good, Wire, Meaning;
    if fs == [] {
      assert Decode([]) == None by { DecodeIsRead([]); }
    } else {
      FrameDecodes(fs[0], WireAll(fs[1..]));
      FramesDecodeAll(fs[1..]);
      assert WireAll(fs)[|Wire(fs[0])|..] == WireAll(fs[1..]);
    }
  }

  /** A decoder fed any sequence of frames, cut anywhere, emits exactly the
      values of those frames and keeps nothing back. */
  lemma StreamExact(fs: seq<Frame>, chunks: seq<bytes>)
    requires (forall i :: 0 <= i < |fs| ==> Good(fs[i])) && Concat(chunks) == WireAll(fs)
    ensures FeedAll([], chunks) == (MeaningAll(fs), [])
  {
    assert Decode([]) == None by { DecodeIsRead([]); }
    ChunkingIrrelevant([], chunks);
    assert [] + Concat(chunks) == WireAll(fs);
    FramesDecodeAll(fs);
  }

  // ---- The loops of the source -----------------------------------------------

  method FindLineByWindows(b: bytes) returns (r: Option<nat>)
    ensures r.Some? ==> CrLfAt(b, r.value) && forall i :: 0 <= i < r.value ==> !CrLfAt(b, i)
    ensures r.None? ==> forall i :: 0 <= i < |b| ==> !CrLfAt(b, i)
    ensures r == FindLine(b)
  {
    var index := 0;
    while index + 1 < |b|
      invariant 0 <= index <= |b|
      invariant forall i :: 0 <= i < index ==> !CrLfAt(b, i)
    {
      if b[index] == 13 && b[index + 1] == 10 {
        return Some(index);
      }
      index := index + 1;
    }
    return None;
  }

  ghost function Prepend(es: seq<Parser>, rest: Option<seq<Parser>>): Option<seq<Parser>> {
    match rest case None => None case Some(fs) => Some(es + fs)
  }

  lemma PrependMore(es: seq<Parser>, m: Parser, rest: Option<seq<Parser>>)
    ensures Prepend(es, Prepend([m], rest)) == Prepend(es + [m], rest)
    ensures Prepend([], rest) == rest
  {
    if rest.Some? {
      assert es + ([m] + rest.value) == (es + [m]) + rest.value;
      assert [] + rest.value == rest.value;
    }
  }

  lemma NoLength()
    ensures TotalLen([]) == 0
  {
  }

  /** The element loop of `parse_aggregate`: `full` runs over the buffer. */
  method ParseChildren(b: bytes, pos: nat, count: nat) returns (r: Option<(nat, seq<Parser>)>)
    requires pos <= |b|
    ensures r.Some? <==> ParseElements(b[pos..], count).Some?
    ensures r.Some? ==> r.value.1 == ParseElements(b[pos..], count).value
                        && r.value.0 == pos + TotalLen(r.value.1) <= |b|
  {
    hide ParseMeta, TotalLen;
    var elements, full := [], pos;
    assert TotalLen(elements) == 0 by { NoLength(); }
    PrependMore([], PNull(3), ParseElements(b[pos..], count));
    for i := 0 to count
      invariant pos <= full <= |b| && full == pos + TotalLen(elements)
      invariant ParseElements(b[pos..], count) == Prepend(elements, ParseElements(b[full..], count - i))
    {
      var meta := ParseMeta(b[full..]);
      if meta.None? {
        return None;
      }
      ghost var rest := ParseElements(b[full + meta.value.len..], count - i - 1);
      assert b[full..][meta.value.len..] == b[full + meta.value.len..];
      assert ParseElements(b[full..], count - i) == Prepend([meta.value], rest);
      PrependMore(elements, meta.value, rest);
      TotalLenAppend(elements, meta.value);
      full := full + meta.value.len;
      elements := elements + [meta.value];
    }
    assert elements + [] == elements;
    return Some((full, elements));
  }

  /** One connection's input buffer. */
  class StreamDecoder {
    var buffer: bytes

    constructor ()
      ensures buffer == []
    {
      buffer := [];
    }

    /** `take_from_bytes_stream`: removes the first complete frame, if any. */
    method TakeFromStream() returns (r: Option<Value>)
      modifies this
      ensures match Decode(old(buffer))
              case None => r == None && buffer == old(buffer)
              case Some((v, n)) => r == Some(v) && buffer == old(buffer)[n..]
    {
      if |buffer| < 3 {
        DecodeIsRead(buffer);
        return None;
      }
      var meta := ParseMeta(buffer);
      if meta.None? {
        return None;
      }
      ParseWellSized(buffer);
      var frame := buffer[..meta.value.len];
      buffer := buffer[meta.value.len..];
      return Some(Take(meta.value, frame));
    }

    /** A read from the socket followed by decoding until nothing is left. */
    method Feed(chunk: bytes) returns (values: seq<Value>)
      modifies this
      ensures (values, buffer) == DecodeAll(old(buffer) + chunk)
    {
      hide Decode;
      buffer := buffer + chunk;
      values := [];
      ghost var whole := DecodeAll(buffer);
      assert [] + whole.0 == whole.0;
      while true
        invariant whole == (values + DecodeAll(buffer).0, DecodeAll(buffer).1)
        decreases |buffer|
      {
        ghost var before := buffer;
        var r := TakeFromStream();
        if r.None? {
          assert values + [] == values;
          return;
        }
        ghost var tail := DecodeAll(buffer);
        assert DecodeAll(before) == ([r.value] + tail.0, tail.1);
        assert values + ([r.value] + tail.0) == (values + [r.value]) + tail.0;
        values := values + [r.value];
      }
    }
  }
}
