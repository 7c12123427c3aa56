/** What patterns mean, said through printers: classes listed byte by byte and
    range by range, and whole patterns as lists of tokens. */
module GlobText {
  import opened Machine
  import opened Glob

  // ---- What a class text means ---------------------------------------------------------

  datatype Listing = Single(b: byte) | Span(lo: byte, hi: byte)

  predicate Lists(x: Listing, v: byte) {
    match x case Single(b) => v == b case Span(lo, hi) => lo <= v <= hi
  }

  function ListingText(x: Listing): (t: bytes)
    ensures |t| >= 1
  {
    match x case Single(b) => [b] case Span(lo, hi) => [lo, DASH, hi]
  }

  function ClassText(xs: seq<Listing>): bytes {
    if xs == [] then [] else ListingText(xs[0]) + ClassText(xs[1..])
  }

  /** Nothing starts with the closing bracket, and no single byte is followed by
      a dash, which would make it a range. */
  predicate GoodClass(xs: seq<Listing>) {
    forall i :: 0 <= i < |xs| ==>
      && ListingText(xs[i])[0] != CLOSE
      && (xs[i].Single? && i + 1 < |xs| ==> ListingText(xs[i + 1])[0] != DASH)
  }

  ghost predicate Listed(xs: seq<Listing>, v: byte) { exists k :: 0 <= k < |xs| && Lists(xs[k], v) }

  /** The text and a closing bracket stand at `i`. */
  ghost predicate TextAt(p: bytes, i: nat, xs: seq<Listing>) {
    var n := |ClassText(xs)|;
    i + n < |p| && p[i..i + n] == ClassText(xs) && p[i + n] == CLOSE
  }

  lemma TextSplits(p: bytes, i: nat, w: bytes, rest: bytes)
    requires i + |w| + |rest| <= |p| && p[i..i + |w + rest|] == w + rest
    ensures p[i + |w|..i + |w| + |rest|] == rest && forall k :: 0 <= k < |w| ==> p[i + k] == w[k]
    ensures rest != [] ==> p[i + |w|] == rest[0]
  {
    var text := p[i..i + |w + rest|];
    assert forall k :: 0 <= k < |text| ==> p[i + k] == text[k];
    assert p[i + |w|..i + |w| + |rest|] == text[|w|..];
  }

  lemma GoodRest(xs: seq<Listing>)
    requires GoodClass(xs) && xs != []
    ensures GoodClass(xs[1..])
  {
    assert forall k :: 0 <= k < |xs[1..]| ==> xs[1..][k] == xs[k + 1];
  }

  lemma ClassUnfolds(xs: seq<Listing>)
    requires xs != []
    ensures ClassText(xs) == ListingText(xs[0]) + ClassText(xs[1..])
    ensures |xs| > 1 ==> ClassText(xs[1..]) != [] && ClassText(xs[1..])[0] == ListingText(xs[1])[0]
    ensures |xs| == 1 ==> ClassText(xs[1..]) == []
  {
  }

  /** The first listing stands at `i` as it was printed, and the others after it. */
  lemma TextStep(p: bytes, i: nat, xs: seq<Listing>)
    requires xs != [] && GoodClass(xs) && TextAt(p, i, xs)
    ensures var next := i + |ListingText(xs[0])|;
            TextAt(p, next, xs[1..]) && next + |ClassText(xs[1..])| == i + |ClassText(xs)|
    ensures p[i] != CLOSE
    ensures match xs[0]
            case Single(b) => p[i] == b && p[i + 1] != DASH
            case Span(lo, hi) => i + 2 < |p| && p[i] == lo && p[i + 1] == DASH && p[i + 2] == hi
  {
    var w, rest := ListingText(xs[0]), ClassText(xs[1..]);
    ClassUnfolds(xs);
    assert ListingText(xs[0])[0] != CLOSE && (xs[0].Single? && |xs| > 1 ==> rest[0] != DASH);
    hide ClassText, GoodClass;
    TextSplits(p, i, w, rest);
    assert p[i + 0] == w[0];
    assert xs[0].Span? ==> p[i + 1] == w[1] && p[i + 2] == w[2];
  }

  /** From any position where such a text and a closing bracket stand, the scan
      stops at that bracket and has seen exactly the bytes listed. */
  lemma {:induction false} ClassScans(p: bytes, i: nat, xs: seq<Listing>, v: byte)
    requires GoodClass(xs) && TextAt(p, i, xs)
    ensures BracketEnd(p, i) == i + |ClassText(xs)|
    ensures InRanges(BracketRanges(p, i), v) <==> Listed(xs, v)
    decreases |xs|
  {
    if xs != [] {
      hide Listed, GoodClass, TextAt, ClassText, InRanges;
      var x, next := xs[0], i + |ListingText(xs[0])|;
      GoodRest(xs);
      TextStep(p, i, xs);
      ClassScans(p, next, xs[1..], v);
      RangesStep(if x.Single? then (x.b, x.b) else (x.lo, x.hi), BracketRanges(p, next), v);
      ListedStep(xs, v);
    }
  }

  lemma ListedStep(xs: seq<Listing>, v: byte)
    requires xs != []
    ensures Listed(xs, v) <==> Lists(xs[0], v) || Listed(xs[1..], v)
  {
    if k :| 0 <= k < |xs[1..]| && Lists(xs[1..][k], v) { assert Lists(xs[k + 1], v); }
    if k :| 0 < k < |xs| && Lists(xs[k], v) { assert Lists(xs[1..][k - 1], v); }
  }

  lemma PiecesOf(before: bytes, mark: bytes, text: bytes, after: bytes)
    requires |mark| <= 1
    ensures var p := before + [OPEN] + mark + text + [CLOSE] + after;
            var i := |before| + 1 + |mark|;
            && p[i..i + |text|] == text && p[i + |text|] == CLOSE
            && p[|before| + 1] == if mark != [] then mark[0] else if text != [] then text[0] else CLOSE
  {
  }

  /** The text of a class stands in `p` behind an opening bracket at `start`. */
  ghost predicate ClassAt(p: bytes, start: nat, mark: bytes, xs: seq<Listing>) {
    var text := ClassText(xs);
    && TextAt(p, start + 1 + |mark|, xs)
    && p[start + 1] == if mark != [] then mark[0] else if text != [] then text[0] else CLOSE
  }

  /** A mark negates; without one the text must not start like a mark. */
  predicate GoodMark(mark: bytes, xs: seq<Listing>) {
    || mark == [94] || mark == [33]
    || (mark == [] && (xs == [] || (ListingText(xs[0])[0] != 94 && ListingText(xs[0])[0] != 33)))
  }

  /** A printed class, negated by `^` or `!` or not at all, holds exactly the
      listed bytes or exactly the others, wherever it stands in a pattern. */
  lemma ClassMeans(p: bytes, start: nat, mark: bytes, xs: seq<Listing>, v: byte)
    requires GoodClass(xs) && GoodMark(mark, xs) && ClassAt(p, start, mark, xs)
    ensures ClassEnd(p, start) == start + 1 + |mark| + |ClassText(xs)|
    ensures InClass(p, start, v) <==> Listed(xs, v) == (mark == [])
  {
    assert Negated(p, start) == (mark != []);
    hide ClassText, BracketRanges, BracketEnd, InRanges, GoodClass, GoodMark, Negated, Listed;
    ClassScans(p, start + 1 + |mark|, xs, v);
  }

  /** Such a text inside any pattern does. */
  lemma ClassStands(before: bytes, mark: bytes, xs: seq<Listing>, after: bytes)
    requires GoodMark(mark, xs)
    ensures ClassAt(before + [OPEN] + mark + ClassText(xs) + [CLOSE] + after, |before|, mark, xs)
  {
    hide ClassText;
    PiecesOf(before, mark, ClassText(xs), after);
  }

  lemma LoneClass(p: bytes, v: byte)
    requires p != [] && p[0] == OPEN && ClassEnd(p, 0) == |p| - 1
    ensures GlobMatch(p, [v]) == if InClass(p, 0, v) then Yes else No
  {
    hide ClassEnd, InClass;
    assert MatchInner(p, [v], |p|, 1) == Yes;
  }

  /** So a pattern that is one class matches exactly those single bytes. */
  lemma ClassMatches(mark: bytes, xs: seq<Listing>, v: byte)
    requires GoodClass(xs) && GoodMark(mark, xs)
    ensures GlobMatch([OPEN] + mark + ClassText(xs) + [CLOSE], [v]) == if Listed(xs, v) == (mark == []) then Yes else No
  {
    hide ClassText, InClass, ClassEnd, GoodClass, GoodMark, Listed, GlobMatch, ClassAt;
    var p := [OPEN] + mark + ClassText(xs) + [CLOSE];
    ClassStands([], mark, xs, []);
    assert [] + [OPEN] + mark + ClassText(xs) + [CLOSE] + [] == p;
    ClassMeans(p, 0, mark, xs, v);
    LoneClass(p, v);
  }

  // ---- Printing tokens and reading them back ----------------------------------------

  function RangesText(ranges: seq<(byte, byte)>): bytes {
    if ranges == [] then [] else [ranges[0].0, DASH, ranges[0].1] + RangesText(ranges[1..])
  }

  function TokenText(t: Token): (w: bytes)
    ensures |w| >= 1
  {
    match t
    case Any => [STAR]
    case One => [QUESTION]
    case Class(negated, ranges) => [OPEN] + (if negated then [94] else []) + RangesText(ranges) + [CLOSE]
    case Literal(b) => [ESCAPE, b]
    case Never => [ESCAPE]
  }

  function PatternText(ts: seq<Token>): bytes {
    if ts == [] then [] else TokenText(ts[0]) + PatternText(ts[1..])
  }

  /** Tokens that can be printed: no range starts with the closing bracket or, in
      front, like a negation; what never matches stands at the end only. */
  predicate Printable(t: Token) {
    match t
    case Class(negated, ranges) =>
      && (forall i :: 0 <= i < |ranges| ==> ranges[i].0 != CLOSE)
      && (!negated && ranges != [] ==> ranges[0].0 != 94 && ranges[0].0 != 33)
    case Never => false
    case _ => true
  }

  lemma {:induction false} RangesRead(p: bytes, i: nat, ranges: seq<(byte, byte)>)
    requires var n := |RangesText(ranges)|;
             i + n < |p| && p[i..i + n] == RangesText(ranges) && p[i + n] == CLOSE
    requires forall k :: 0 <= k < |ranges| ==> ranges[k].0 != CLOSE
    ensures BracketRanges(p, i) == ranges && BracketEnd(p, i) == i + |RangesText(ranges)|
    decreases |ranges|
  {
    if ranges != [] {
      var (lo, hi) := ranges[0];
      TextSplits(p, i, [lo, DASH, hi], RangesText(ranges[1..]));
      assert p[i + 0] == lo && p[i + 1] == DASH && p[i + 2] == hi;
      RangesRead(p, i + 3, ranges[1..]);
      assert ranges == [(lo, hi)] + ranges[1..];
    }
  }

  lemma StandsAt(p: bytes, i: nat, mark: bytes, text: bytes, rest: bytes)
    requires |mark| <= 1 && i <= |p| && p[i..] == [OPEN] + mark + text + [CLOSE] + rest
    ensures var j := i + 1 + |mark|;
            && p[i] == OPEN && j + |text| < |p| && p[j..j + |text|] == text && p[j + |text|] == CLOSE
            && p[i + 1] == (if mark != [] then mark[0] else if text != [] then text[0] else CLOSE)
            && p[j + |text| + 1..] == rest
  {
    var q, k := p[i..], 1 + |mark|;
    assert forall x :: 0 <= x < |q| ==> p[i + x] == q[x];
    assert q[k..k + |text|] == text && q[k + |text| + 1..] == rest;
    assert p[i + k..i + k + |text|] == q[k..k + |text|];
    assert p[i + 0] == q[0];
  }

  lemma RangesStart(ranges: seq<(byte, byte)>)
    ensures ranges == [] ==> RangesText(ranges) == []
    ensures ranges != [] ==> RangesText(ranges) != [] && RangesText(ranges)[0] == ranges[0].0
  {
  }

  /** Where a printed class stands, it is read back. */
  lemma ClassReads(p: bytes, i: nat, mark: bytes, ranges: seq<(byte, byte)>, rest: bytes)
    requires mark == [] || mark == [94]
    requires forall k :: 0 <= k < |ranges| ==> ranges[k].0 != CLOSE
    requires mark == [] && ranges != [] ==> ranges[0].0 != 94 && ranges[0].0 != 33
    requires i <= |p| && p[i..] == [OPEN] + mark + RangesText(ranges) + [CLOSE] + rest
    ensures var n := 2 + |mark| + |RangesText(ranges)|;
            && p[i] == OPEN && i + n <= |p| && ClassEnd(p, i) == i + n - 1 && p[i + n..] == rest
            && Negated(p, i) == (mark != []) && BracketRanges(p, BodyStart(p, i)) == ranges
  {
    hide RangesText, BracketRanges, BracketEnd;
    StandsAt(p, i, mark, RangesText(ranges), rest);
    RangesStart(ranges);
    assert Negated(p, i) == (mark != []);
    RangesRead(p, i + 1 + |mark|, ranges);
  }

  lemma ByteReads(p: bytes, i: nat, w: bytes, rest: bytes)
    requires 1 <= |w| <= 2 && i <= |p| && p[i..] == w + rest
    ensures i + |w| <= |p| && p[i] == w[0] && (|w| == 2 ==> p[i + 1] == w[1]) && p[i + |w|..] == rest
  {
    assert p[i..][0] == p[i];
    assert |w| == 2 ==> p[i..][1] == p[i + 1];
    assert p[i + |w|..] == p[i..][|w|..];
  }

  /** A printed token is read back, wherever it stands. */
  lemma TokenReads(p: bytes, i: nat, t: Token, rest: bytes)
    requires Printable(t) && i <= |p| && p[i..] == TokenText(t) + rest
    ensures var n := |TokenText(t)|;
            && i + n <= |p| && p[i + n..] == rest
            && (p[i] == OPEN ==> ClassEnd(p, i) < |p|) && (p[i] == ESCAPE ==> i + 1 < |p|)
            && TokenAt(p, i) == (t, i + n)
  {
    hide BracketRanges, ClassEnd, Negated, BodyStart, RangesText;
    if t.Class? {
      ClassReads(p, i, if t.negated then [94] else [], t.ranges, rest);
    } else {
      ByteReads(p, i, TokenText(t), rest);
    }
  }

  lemma {:induction false} TokensReadBack(p: bytes, i: nat, ts: seq<Token>)
    requires i <= |p| && p[i..] == PatternText(ts) && forall k :: 0 <= k < |ts| ==> Printable(ts[k])
    ensures Tokens(p, i) == Some(ts)
    decreases |ts|
  {
    hide TokenAt, TokenText, Printable, ClassEnd;
    if ts != [] {
      TokenReads(p, i, ts[0], PatternText(ts[1..]));
      TokensReadBack(p, i + |TokenText(ts[0])|, ts[1..]);
      assert ts == [ts[0]] + ts[1..];
    }
  }

  /** Every list of printable tokens is the reading of its text. */
  lemma TokensParseBack(ts: seq<Token>)
    requires forall k :: 0 <= k < |ts| ==> Printable(ts[k])
    ensures Tokens(PatternText(ts), 0) == Some(ts)
  {
    var p := PatternText(ts);
    assert p[0..] == p;
    TokensReadBack(p, 0, ts);
  }
}
