/** The two glob matchers: `GlobMatcher` (KEYS) and `matches_pattern` (pub/sub). */
module Glob {
  import opened Machine

  const STAR: byte := 42
  const QUESTION: byte := 63
  const OPEN: byte := 91
  const CLOSE: byte := 93
  const ESCAPE: byte := 92
  const DASH: byte := 45

  /** Matching reads past the end of the pattern in one case, which panics. */
  datatype Outcome = Yes | No | Panic

  // ---- Brackets -------------------------------------------------------------------

  predicate IsRange(p: bytes, i: nat) {
    i + 2 < |p| && p[i + 1] == DASH
  }

  /** Where the scan of a bracket stops: at `]` or past the end. */
  function BracketEnd(p: bytes, i: nat): (e: nat)
    requires i <= |p|
    ensures i <= e <= |p| && (e < |p| ==> p[e] == CLOSE)
    decreases |p| - i
  {
    if i >= |p| || p[i] == CLOSE then i else BracketEnd(p, if IsRange(p, i) then i + 3 else i + 1)
  }

  /** The ranges listed in a bracket; a single byte is a range of one. */
  function BracketRanges(p: bytes, i: nat): seq<(byte, byte)>
    requires i <= |p|
    decreases |p| - i
  {
    if i >= |p| || p[i] == CLOSE then []
    else if IsRange(p, i) then [(p[i], p[i + 2])] + BracketRanges(p, i + 3)
    else [(p[i], p[i])] + BracketRanges(p, i + 1)
  }

  predicate InRanges(ranges: seq<(byte, byte)>, v: byte) {
    exists k :: 0 <= k < |ranges| && ranges[k].0 <= v <= ranges[k].1
  }

  function Negated(p: bytes, start: nat): bool {
    start + 1 < |p| && (p[start + 1] == 94 || p[start + 1] == 33)
  }

  function BodyStart(p: bytes, start: nat): (i: nat)
    requires start < |p|
    ensures start < i <= |p|
  {
    if Negated(p, start) then start + 2 else start + 1
  }

  predicate InClass(p: bytes, start: nat, v: byte)
    requires start < |p|
  {
    InRanges(BracketRanges(p, BodyStart(p, start)), v) != Negated(p, start)
  }

  function ClassEnd(p: bytes, start: nat): (e: nat)
    requires start < |p|
    ensures start < e <= |p|
  {
    BracketEnd(p, BodyStart(p, start))
  }

  lemma RangesStep(first: (byte, byte), rest: seq<(byte, byte)>, v: byte)
    ensures InRanges([first] + rest, v) <==> first.0 <= v <= first.1 || InRanges(rest, v)
  {
    var all := [first] + rest;
    if first.0 <= v <= first.1 { assert all[0].0 <= v <= all[0].1; }
    if InRanges(rest, v) {
      var k :| 0 <= k < |rest| && rest[k].0 <= v <= rest[k].1;
      assert all[k + 1].0 <= v <= all[k + 1].1;
    }
  }

  /** `match_bracket`: is the byte in the class, and where does it end? */
  method MatchBracket(p: bytes, start: nat, value: byte) returns (matched: bool, end: nat)
    requires start < |p|
    ensures matched == InClass(p, start, value) && end == ClassEnd(p, start)
  {
    var i := start + 1;
    var negate := false;
    if i < |p| && (p[i] == 94 || p[i] == 33) {
      negate := true;
      i := i + 1;
    }
    matched := false;
    ghost var body := i;
    while i < |p| && p[i] != CLOSE
      invariant body <= i <= |p| && BracketEnd(p, i) == BracketEnd(p, body)
      invariant InRanges(BracketRanges(p, body), value) == (matched || InRanges(BracketRanges(p, i), value))
      decreases |p| - i
    {
      if i + 2 < |p| && p[i + 1] == DASH {
        RangesStep((p[i], p[i + 2]), BracketRanges(p, i + 3), value);
        if p[i] <= value && value <= p[i + 2] {
          matched := true;
        }
        i := i + 3;
      } else {
        RangesStep((p[i], p[i]), BracketRanges(p, i + 1), value);
        if p[i] == value {
          matched := true;
        }
        i := i + 1;
      }
    }
    if negate {
      matched := !matched;
    }
    end := i;
  }

  // ---- GlobMatcher -----------------------------------------------------------------

  /** `match_inner`. After an unclosed bracket that matched, the pattern index
      is past the end and the next access panics. */
  function MatchInner(p: bytes, v: bytes, pi: nat, vi: nat): Outcome
    requires pi <= |p| && vi <= |v|
    decreases |p| - pi, |v| - vi
  {
    if pi == |p| then (if vi == |v| then Yes else No)
    else if p[pi] == STAR then
      var skip := MatchInner(p, v, pi + 1, vi);
      if skip != No then skip
      else if vi < |v| then MatchInner(p, v, pi, vi + 1)
      else No
    else if p[pi] == QUESTION then
      if vi < |v| then MatchInner(p, v, pi + 1, vi + 1) else No
    else if p[pi] == OPEN then
      if vi >= |v| || !InClass(p, pi, v[vi]) then No
      else if ClassEnd(p, pi) == |p| then Panic
      else MatchInner(p, v, ClassEnd(p, pi) + 1, vi + 1)
    else if p[pi] == ESCAPE then
      if pi + 1 >= |p| then No
      else if vi < |v| && p[pi + 1] == v[vi] then MatchInner(p, v, pi + 2, vi + 1)
      else No
    else
      if vi < |v| && p[pi] == v[vi] then MatchInner(p, v, pi + 1, vi + 1) else No
  }

  function GlobMatch(p: bytes, v: bytes): Outcome {
    MatchInner(p, v, 0, 0)
  }

  // ---- Declarative semantics ---------------------------------------------------------

  datatype Token =
    | Any
    | One
    | Class(negated: bool, ranges: seq<(byte, byte)>)
    | Literal(b: byte)
    | Never

  /** The pattern as tokens, or nothing if some bracket is not closed. A lone
      escape at the end matches nothing. */
  function Tokens(p: bytes, pi: nat): Option<seq<Token>>
    requires pi <= |p|
    decreases |p| - pi
  {
    if pi == |p| then Some([])
    else if p[pi] == OPEN && ClassEnd(p, pi) == |p| then None
    else if p[pi] == ESCAPE && pi + 1 == |p| then Some([Never])
    else
      var (token, next) := TokenAt(p, pi);
      match Tokens(p, next)
      case None => None
      case Some(rest) => Some([token] + rest)
  }

  function TokenAt(p: bytes, pi: nat): (r: (Token, nat))
    requires pi < |p| && (p[pi] == OPEN ==> ClassEnd(p, pi) < |p|) && (p[pi] == ESCAPE ==> pi + 1 < |p|)
    ensures pi < r.1 <= |p|
  {
    if p[pi] == STAR then (Any, pi + 1)
    else if p[pi] == QUESTION then (One, pi + 1)
    else if p[pi] == OPEN then (Class(Negated(p, pi), BracketRanges(p, BodyStart(p, pi))), ClassEnd(p, pi) + 1)
    else if p[pi] == ESCAPE then (Literal(p[pi + 1]), pi + 2)
    else (Literal(p[pi]), pi + 1)
  }

  predicate FitsByte(t: Token, b: byte) {
    match t
    case Any => false
    case One => true
    case Class(negated, ranges) => InRanges(ranges, b) != negated
    case Literal(c) => b == c
    case Never => false
  }

  predicate Fits(t: Token, piece: bytes) {
    t.Any? || (|piece| == 1 && FitsByte(t, piece[0]))
  }

  function Join(pieces: seq<bytes>): bytes {
    if pieces == [] then [] else pieces[0] + Join(pieces[1..])
  }

  /** A cut of the value into one piece per token, each piece fitting. */
  ghost predicate IsCut(tokens: seq<Token>, v: bytes, pieces: seq<bytes>) {
    |pieces| == |tokens| && Join(pieces) == v && forall i :: 0 <= i < |tokens| ==> Fits(tokens[i], pieces[i])
  }

  ghost predicate Matches(tokens: seq<Token>, v: bytes) {
    exists pieces :: IsCut(tokens, v, pieces)
  }

  // ---- The matcher computes the declarative semantics -----------------------------------

  predicate MatchTokens(ts: seq<Token>, v: bytes)
    decreases |ts|, |v|
  {
    if ts == [] then v == []
    else if ts[0].Any? then MatchTokens(ts[1..], v) || (v != [] && MatchTokens(ts, v[1..]))
    else v != [] && FitsByte(ts[0], v[0]) && MatchTokens(ts[1..], v[1..])
  }

  lemma {:induction false} InnerIsTokens(p: bytes, v: bytes, pi: nat, vi: nat)
    requires pi <= |p| && vi <= |v| && Tokens(p, pi).Some?
    ensures MatchInner(p, v, pi, vi) == if MatchTokens(Tokens(p, pi).value, v[vi..]) then Yes else No
    decreases |p| - pi, |v| - vi
  {
    hide InRanges, BracketRanges, BracketEnd;
    if pi < |p| && !(p[pi] == ESCAPE && pi + 1 == |p|) {
      var (token, next) := TokenAt(p, pi);
      var ts := Tokens(p, pi).value;
      assert ts[0] == token && ts[1..] == Tokens(p, next).value;
      assert vi < |v| ==> v[vi..][1..] == v[vi + 1..] && v[vi..][0] == v[vi];
      if token.Any? {
        InnerIsTokens(p, v, pi + 1, vi);
        if vi < |v| { InnerIsTokens(p, v, pi, vi + 1); }
      } else if vi < |v| {
        InnerIsTokens(p, v, next, vi + 1);
      }
    }
  }

  lemma CutExtends(ts: seq<Token>, v: bytes, pieces: seq<bytes>, t: Token, piece: bytes)
    requires IsCut(ts, v, pieces) && Fits(t, piece)
    ensures IsCut([t] + ts, piece + v, [piece] + pieces)
  {
    assert ([piece] + pieces)[1..] == pieces;
  }

  lemma {:induction false} TokensCut(ts: seq<Token>, v: bytes)
    requires MatchTokens(ts, v)
    ensures Matches(ts, v)
    decreases |ts|, |v|
  {
    if ts == [] {
      assert IsCut(ts, v, []);
    } else if ts[0].Any? && !MatchTokens(ts[1..], v) {
      TokensCut(ts, v[1..]);
      var pieces :| IsCut(ts, v[1..], pieces);
      var longer := pieces[0 := [v[0]] + pieces[0]];
      assert longer[1..] == pieces[1..];
      assert [v[0]] + (pieces[0] + Join(pieces[1..])) == Join(longer);
      assert v == [v[0]] + v[1..];
      assert IsCut(ts, v, longer);
    } else {
      var piece := if ts[0].Any? then [] else [v[0]];
      var rest := if ts[0].Any? then v else v[1..];
      TokensCut(ts[1..], rest);
      var pieces :| IsCut(ts[1..], rest, pieces);
      CutExtends(ts[1..], rest, pieces, ts[0], piece);
      assert [ts[0]] + ts[1..] == ts && piece + rest == v;
    }
  }

  lemma {:induction false} CutTokens(ts: seq<Token>, v: bytes, pieces: seq<bytes>)
    requires IsCut(ts, v, pieces)
    ensures MatchTokens(ts, v)
    decreases |ts|, |v|
  {
    if ts != [] {
      var rest := Join(pieces[1..]);
      assert v == pieces[0] + rest;
      assert IsCut(ts[1..], rest, pieces[1..]);
      if pieces[0] == [] || !ts[0].Any? {
        CutTokens(ts[1..], rest, pieces[1..]);
        assert pieces[0] == [] ==> v == rest;
        assert |pieces[0]| == 1 ==> v[0] == pieces[0][0] && v[1..] == rest;
      } else {
        var shorter := pieces[0 := pieces[0][1..]];
        assert shorter[1..] == pieces[1..];
        assert v[1..] == pieces[0][1..] + rest;
        CutTokens(ts, v[1..], shorter);
      }
    }
  }

  /** On patterns whose brackets are all closed as scanned, the matcher never
      panics and accepts exactly the values that can be cut to fit. */
  lemma MatcherIsDeclarative(p: bytes, v: bytes)
    requires Tokens(p, 0).Some?
    ensures GlobMatch(p, v) == Yes <==> Matches(Tokens(p, 0).value, v)
    ensures GlobMatch(p, v) != Panic
  {
    InnerIsTokens(p, v, 0, 0);
    assert v[0..] == v;
    var ts := Tokens(p, 0).value;
    if MatchTokens(ts, v) { TokensCut(ts, v); }
    if pieces :| IsCut(ts, v, pieces) { CutTokens(ts, v, pieces); }
  }

  // ---- When the matcher panics ----------------------------------------------------------

  ghost predicate Satisfiable(p: bytes, start: nat)
    requires start < |p|
  {
    exists b: byte :: InClass(p, start, b)
  }

  /** Scanning reaches an unclosed bracket past tokens that can all match, and
      some byte is in the unclosed class. */
  ghost predicate CanPanic(p: bytes, pi: nat)
    requires pi <= |p|
    decreases |p| - pi
  {
    pi < |p| &&
    (if p[pi] == OPEN then Satisfiable(p, pi) && (ClassEnd(p, pi) == |p| || CanPanic(p, ClassEnd(p, pi) + 1))
     else if p[pi] == ESCAPE then pi + 1 < |p| && CanPanic(p, pi + 2)
     else CanPanic(p, pi + 1))
  }

  lemma {:induction false} PanicNeeds(p: bytes, v: bytes, pi: nat, vi: nat)
    requires pi <= |p| && vi <= |v| && MatchInner(p, v, pi, vi) == Panic
    ensures CanPanic(p, pi)
    decreases |p| - pi, |v| - vi
  {
    hide InClass, ClassEnd;
    if p[pi] == STAR {
      if MatchInner(p, v, pi + 1, vi) == Panic { PanicNeeds(p, v, pi + 1, vi); } else { PanicNeeds(p, v, pi, vi + 1); }
    } else if p[pi] == OPEN {
      assert InClass(p, pi, v[vi]);
      if ClassEnd(p, pi) < |p| { PanicNeeds(p, v, ClassEnd(p, pi) + 1, vi + 1); }
    } else if p[pi] == ESCAPE {
      PanicNeeds(p, v, pi + 2, vi + 1);
    } else {
      PanicNeeds(p, v, pi + 1, vi + 1);
    }
  }

  /** Builds a value, after any prefix, on which matching from `pi` panics. */
  lemma {:induction false} PanicWitness(p: bytes, pi: nat, before: bytes) returns (w: bytes)
    requires pi <= |p| && CanPanic(p, pi)
    ensures MatchInner(p, before + w, pi, |before|) == Panic
    decreases |p| - pi
  {
    hide InClass, ClassEnd;
    if p[pi] == STAR {
      w := PanicWitness(p, pi + 1, before);
    } else {
      var b: byte := if p[pi] == ESCAPE then p[pi + 1] else p[pi];
      if p[pi] == OPEN { b :| InClass(p, pi, b); }
      if p[pi] == OPEN && ClassEnd(p, pi) == |p| {
        w := [b];
      } else {
        var next := if p[pi] == OPEN then ClassEnd(p, pi) + 1 else if p[pi] == ESCAPE then pi + 2 else pi + 1;
        var rest := PanicWitness(p, next, before + [b]);
        w := [b] + rest;
        assert before + w == (before + [b]) + rest;
      }
    }
  }

  /** Some value makes the matcher panic exactly when the pattern can. */
  lemma PanicExact(p: bytes)
    ensures (exists v :: GlobMatch(p, v) == Panic) <==> CanPanic(p, 0)
  {
    if v :| GlobMatch(p, v) == Panic { PanicNeeds(p, v, 0, 0); }
    if CanPanic(p, 0) {
      var w := PanicWitness(p, 0, []);
      assert [] + w == w;
      assert GlobMatch(p, w) == Panic;
    }
  }

  // ---- matches_pattern ---------------------------------------------------------------

  predicate MatchesPattern(channel: bytes, p: bytes)
    decreases |p|
  {
    if p == [] then channel == []
    else if p[0] == STAR then exists i :: 0 <= i <= |channel| && MatchesPattern(channel[i..], p[1..])
    else channel != [] && (p[0] == QUESTION || channel[0] == p[0]) && MatchesPattern(channel[1..], p[1..])
  }

  /** The recursion with its search loop. */
  method MatchPattern(channel: bytes, p: bytes) returns (r: bool)
    ensures r == MatchesPattern(channel, p)
    decreases |p|
  {
    if p == [] {
      return channel == [];
    }
    if p[0] == STAR {
      for i := 0 to |channel| + 1
        invariant forall j :: 0 <= j < i ==> !MatchesPattern(channel[j..], p[1..])
      {
        var found := MatchPattern(channel[i..], p[1..]);
        if found {
          return true;
        }
      }
      return false;
    }
    if channel == [] || (p[0] != QUESTION && channel[0] != p[0]) {
      return false;
    }
    r := MatchPattern(channel[1..], p[1..]);
  }

  /** Every byte of a pub/sub pattern is a token. */
  function PatternTokens(p: bytes): seq<Token> {
    if p == [] then []
    else [if p[0] == STAR then Any else if p[0] == QUESTION then One else Literal(p[0])] + PatternTokens(p[1..])
  }

  lemma {:induction false} StarSearches(ts: seq<Token>, v: bytes)
    requires ts != [] && ts[0].Any?
    ensures MatchTokens(ts, v) <==> exists i :: 0 <= i <= |v| && MatchTokens(ts[1..], v[i..])
    decreases |v|
  {
    assert v[0..] == v;
    if v != [] {
      StarSearches(ts, v[1..]);
      if MatchTokens(ts, v[1..]) {
        var i :| 0 <= i <= |v[1..]| && MatchTokens(ts[1..], v[1..][i..]);
        assert v[1..][i..] == v[i + 1..];
      }
      if i :| 0 < i <= |v| && MatchTokens(ts[1..], v[i..]) {
        assert v[1..][i - 1..] == v[i..];
      }
    }
  }

  lemma {:induction false} PatternMatches(p: bytes, v: bytes)
    ensures MatchTokens(PatternTokens(p), v) <==> MatchesPattern(v, p)
    decreases |p|
  {
    if p != [] {
      var ts := PatternTokens(p);
      assert ts[1..] == PatternTokens(p[1..]);
      if p[0] == STAR {
        StarSearches(ts, v);
        forall i | 0 <= i <= |v| ensures MatchTokens(ts[1..], v[i..]) <==> MatchesPattern(v[i..], p[1..]) {
          PatternMatches(p[1..], v[i..]);
        }
      } else if v != [] {
        PatternMatches(p[1..], v[1..]);
      }
    }
  }

  /** On every pattern, the pub/sub matcher accepts exactly the channels that can
      be cut into pieces that fit its bytes. */
  lemma PatternIsDeclarative(channel: bytes, p: bytes)
    ensures MatchesPattern(channel, p) <==> Matches(PatternTokens(p), channel)
  {
    var ts := PatternTokens(p);
    PatternMatches(p, channel);
    if MatchTokens(ts, channel) { TokensCut(ts, channel); }
    if pieces :| IsCut(ts, channel, pieces) { CutTokens(ts, channel, pieces); }
  }

  predicate Plain(p: bytes) {
    forall i :: 0 <= i < |p| ==> p[i] != OPEN && p[i] != ESCAPE
  }

  lemma {:induction false} PlainTokens(p: bytes, pi: nat)
    requires pi <= |p| && Plain(p)
    ensures Tokens(p, pi) == Some(PatternTokens(p[pi..]))
    decreases |p| - pi
  {
    if pi < |p| {
      assert p[pi..][1..] == p[pi + 1..] && p[pi..][0] == p[pi];
      PlainTokens(p, pi + 1);
    }
  }

  /** Without brackets and escapes the two matchers agree on every input. */
  lemma MatchersAgree(p: bytes, v: bytes)
    requires Plain(p)
    ensures GlobMatch(p, v) == if MatchesPattern(v, p) then Yes else No
  {
    PlainTokens(p, 0);
    InnerIsTokens(p, v, 0, 0);
    assert p[0..] == p && v[0..] == v;
    PatternMatches(p, v);
  }
}
