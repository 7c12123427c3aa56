/** Byte strings in lexicographic order. */
module ByteOrder {
  import opened Machine

  predicate LexLeq(a: bytes, b: bytes) {
    a == [] || (b != [] && if a[0] != b[0] then a[0] < b[0] else LexLeq(a[1..], b[1..]))
  }

  lemma {:induction false} LexTotal(a: bytes, b: bytes)
    ensures LexLeq(a, b) || LexLeq(b, a)
    ensures LexLeq(a, b) && LexLeq(b, a) ==> a == b
  {
    if a != [] && b != [] && a[0] == b[0] {
      LexTotal(a[1..], b[1..]);
      assert a == [a[0]] + a[1..] && b == [b[0]] + b[1..];
    }
  }

  lemma {:induction false} LexTransitive(a: bytes, b: bytes, c: bytes)
    requires LexLeq(a, b) && LexLeq(b, c)
    ensures LexLeq(a, c)
  {
    if a != [] && a[0] == b[0] == c[0] { LexTransitive(a[1..], b[1..], c[1..]); }
  }

  /** A prefix comes first; otherwise the first byte that differs decides. */
  lemma {:induction false} LexExact(a: bytes, b: bytes)
    ensures LexLeq(a, b) <==>
            a <= b || exists i :: 0 <= i < |a| && i < |b| && a[..i] == b[..i] && a[i] < b[i]
  {
    if a != [] && b != [] {
      var x, y := a[1..], b[1..];
      if a[0] == b[0] {
        LexExact(x, y);
        assert a == [a[0]] + x && b == [b[0]] + y;
        assert a <= b <==> x <= y;
        if i :| 0 <= i < |x| && i < |y| && x[..i] == y[..i] && x[i] < y[i] {
          assert a[..i + 1] == [a[0]] + x[..i] && b[..i + 1] == [b[0]] + y[..i];
          assert a[i + 1] < b[i + 1];
        }
        if i :| 0 <= i < |a| && i < |b| && a[..i] == b[..i] && a[i] < b[i] {
          assert x[..i - 1] == a[..i][1..] && y[..i - 1] == b[..i][1..];
          assert x[i - 1] < y[i - 1];
        }
      } else {
        assert a[..0] == b[..0];
        assert forall i :: 0 < i <= |a| && i <= |b| ==> a[..i][0] != b[..i][0];
      }
    }
  }

  predicate Sorted(s: seq<bytes>) {
    forall i, j :: 0 <= i < j < |s| ==> LexLeq(s[i], s[j])
  }

  predicate Distinct<T(==)>(s: seq<T>) {
    forall i, j :: 0 <= i < j < |s| ==> s[i] != s[j]
  }

  /** `s` lists every member of `members` exactly once, in some order. */
  ghost predicate Enumerates(s: seq<bytes>, members: set<bytes>) {
    Distinct(s) && Elements(s) == members
  }

  function InsertSorted(x: bytes, s: seq<bytes>): (r: seq<bytes>)
    requires Sorted(s) && Distinct(s) && x !in s
    ensures Sorted(r) && Distinct(r) && Elements(r) == Elements(s) + {x}
  {
    if s == [] then [x]
    else if LexLeq(x, s[0]) then
      HeadSmallest(x, s);
      ConsSorted(x, s);
      [x] + s
    else
      var rest := InsertSorted(x, s[1..]);
      LexTotal(x, s[0]);
      HeadBeforeRest(x, s, rest);
      ConsSorted(s[0], rest);
      [s[0]] + rest
  }

  lemma ConsSorted(x: bytes, s: seq<bytes>)
    requires Sorted(s) && Distinct(s) && forall i :: 0 <= i < |s| ==> LexLeq(x, s[i]) && x != s[i]
    ensures Sorted([x] + s) && Distinct([x] + s) && Elements([x] + s) == Elements(s) + {x}
  {
  }

  lemma HeadBeforeRest(x: bytes, s: seq<bytes>, rest: seq<bytes>)
    requires s != [] && Sorted(s) && Distinct(s) && x !in s && LexLeq(s[0], x)
    requires Elements(rest) == Elements(s[1..]) + {x}
    ensures forall i :: 0 <= i < |rest| ==> LexLeq(s[0], rest[i]) && s[0] != rest[i]
    ensures Elements(rest) + {s[0]} == Elements(s) + {x}
  {
    assert s == [s[0]] + s[1..];
    forall i | 0 <= i < |rest| ensures LexLeq(s[0], rest[i]) && s[0] != rest[i] {
      assert rest[i] in Elements(rest);
      if rest[i] != x {
        assert rest[i] in s[1..];
        var j :| 0 <= j < |s[1..]| && s[1..][j] == rest[i];
        assert s[j + 1] == rest[i];
      }
    }
  }

  lemma HeadSmallest(x: bytes, s: seq<bytes>)
    requires s != [] && Sorted(s) && LexLeq(x, s[0])
    ensures forall i :: 0 <= i < |s| ==> LexLeq(x, s[i])
  {
    forall i | 0 <= i < |s| ensures LexLeq(x, s[i]) {
      if i > 0 { LexTransitive(x, s[0], s[i]); }
    }
  }

  /** The members of a listing in byte order. */
  function SortBytes(s: seq<bytes>): (r: seq<bytes>)
    requires Distinct(s)
    ensures Sorted(r) && Enumerates(r, Elements(s))
  {
    if s == [] then []
    else
      assert s == [s[0]] + s[1..];
      var rest := SortBytes(s[1..]);
      assert s[0] !in rest by { assert s[0] !in Elements(s[1..]); }
      InsertSorted(s[0], rest)
  }

  lemma {:induction false} EnumerationSize(s: seq<bytes>)
    requires Distinct(s)
    ensures |Elements(s)| == |s|
  {
    if s != [] {
      EnumerationSize(s[1..]);
      TailElements(s);
      assert s[0] in Elements(s);
    } else {
      assert Elements(s) == {};
    }
  }

  /** A set has only one sorted listing. */
  lemma {:induction false} SortedUnique(a: seq<bytes>, b: seq<bytes>)
    requires Sorted(a) && Sorted(b) && Distinct(a) && Distinct(b) && Elements(a) == Elements(b)
    ensures a == b
  {
    EnumerationSize(a);
    EnumerationSize(b);
    if a != [] {
      assert a[0] in Elements(b) && b[0] in Elements(a);
      var i :| 0 <= i < |b| && b[i] == a[0];
      var j :| 0 <= j < |a| && a[j] == b[0];
      LexTotal(a[0], b[0]);
      assert a[0] == b[0];
      TailElements(a);
      TailElements(b);
      SortedUnique(a[1..], b[1..]);
      assert a == [a[0]] + a[1..] && b == [b[0]] + b[1..];
    }
  }

  lemma TailElements(s: seq<bytes>)
    requires s != [] && Distinct(s)
    ensures Elements(s[1..]) == Elements(s) - {s[0]}
  {
    forall x ensures x in Elements(s[1..]) <==> x in Elements(s) - {s[0]} {
      assert s == [s[0]] + s[1..];
    }
  }
}

/** SPOP: a random draw that every replica repeats exactly. */
module Spop {
  import opened Machine
  import opened Arith
  import opened ByteOrder

  // ---- The generator ------------------------------------------------------------

  function Advance(state: bv64): bv64 {
    state + 0x9E37_79B9_7F4A_7C15
  }

  function FirstRound(state: bv64): bv64 { (state ^ (state >> 30)) * 0xBF58_476D_1CE4_E5B9 }

  function SecondRound(state: bv64): bv64 { (state ^ (state >> 27)) * 0x94D0_49BB_1331_11EB }

  function Mix(state: bv64): bv64 {
    var b := SecondRound(FirstRound(state));
    b ^ (b >> 31)
  }

  /** The high half of a 128-bit product: below the bound, and in proportion to
      the random number. */
  function HighHalf(r: nat, bound: nat): (i: nat)
    requires r < U64_LIMIT && bound > 0
    ensures i < bound
    ensures i * U64_LIMIT <= r * bound < (i + 1) * U64_LIMIT
  {
    ProductBelow(r, bound);
    (r * bound) / U64_LIMIT
  }

  function IndexBelow(random: bv64, bound: nat): (i: nat)
    requires bound > 0
    ensures i < bound
  {
    HighHalf(random as int, bound)
  }

  /** The index is in proportion to the random number. */
  lemma IndexProportional(random: bv64, bound: nat)
    requires bound > 0
    ensures var i := IndexBelow(random, bound); i * U64_LIMIT <= (random as int) * bound < (i + 1) * U64_LIMIT
  {
  }

  lemma ProductBelow(r: nat, bound: nat)
    requires r < U64_LIMIT && bound > 0
    ensures 0 <= (r * bound) / U64_LIMIT < bound
  {
    MulMonotone(bound, 0, r);
    MulMonotone(bound, r, U64_LIMIT - 1);
  }

  /** Every index can be drawn, as long as there are no more of them than
      random numbers. */
  lemma EveryIndexDrawn(i: nat, bound: nat) returns (r: u64)
    requires i < bound <= U64_LIMIT
    ensures HighHalf(r, bound) == i
  {
    var least := (i * U64_LIMIT + bound - 1) / bound;
    CeilingFits(i, bound, least);
    r := least;
    var j := HighHalf(r, bound);
    assert j * U64_LIMIT <= r * bound < (j + 1) * U64_LIMIT;
  }

  lemma CeilingFits(i: nat, bound: nat, r: int)
    requires i < bound <= U64_LIMIT && r == (i * U64_LIMIT + bound - 1) / bound
    ensures 0 <= r < U64_LIMIT && i * U64_LIMIT <= r * bound < (i + 1) * U64_LIMIT
  {
    var x := i * U64_LIMIT + bound - 1;
    assert x == bound * (x / bound) + x % bound;
    assert i * U64_LIMIT <= r * bound < i * U64_LIMIT + bound;
    assert r * bound < bound * U64_LIMIT;
    if r >= U64_LIMIT { MulMonotone(bound, U64_LIMIT, r); }
    if r < 0 { MulMonotone(bound, r, -1); }
  }

  class DeterministicRng {
    var state: bv64

    constructor (seed: bv64)
      ensures state == seed
    {
      state := seed;
    }

    method NextIndex(bound: nat) returns (i: nat)
      requires bound > 0
      modifies this
      ensures state == Advance(old(state)) && i == IndexBelow(Mix(state), bound) && i < bound
    {
      state := Advance(state);
      i := IndexBelow(Mix(state), bound);
    }
  }

  /** FNV-1a over the key bytes. */
  function KeyHash(key: bytes): bv64 {
    if key == [] then 0xCBF2_9CE4_8422_2325
    else HashByte(KeyHash(key[..|key| - 1]), key[|key| - 1])
  }

  function HashByte(hash: bv64, b: byte): bv64 {
    (hash ^ (b as bv64)) * 0x0000_0100_0000_01B3
  }

  /** A published value of each algorithm: SplitMix64 from state 0, and 64-bit
      FNV-1a of "a". */
  lemma PublishedValues()
    ensures Mix(Advance(0)) == 0xE220_A839_7B1D_CDAF
    ensures KeyHash([97]) == 0xAF63_DC4C_8601_EC8C
  {
    assert FirstRound(0x9E37_79B9_7F4A_7C15) == 0x6F68_261B_57E7_A770;
    assert SecondRound(0x6F68_261B_57E7_A770) == 0xE220_A838_BF5C_9DDE;
    assert [97][..0] == [];
  }

  function Seed(key: bytes, clock: bv64): bv64 {
    KeyHash(key) ^ clock.RotateLeft(17) ^ 0xA076_1D64_78BD_642F
  }

  /** At different clocks a key is drawn from with different seeds. */
  lemma SeedTellsClocks(key: bytes, a: bv64, b: bv64)
    requires Seed(key, a) == Seed(key, b)
    ensures a == b
  {
    hide KeyHash;
  }

  /** At one clock, keys with different hashes get different seeds. */
  lemma SeedTellsHashes(key: bytes, other: bytes, clock: bv64)
    requires Seed(key, clock) == Seed(other, clock)
    ensures KeyHash(key) == KeyHash(other)
  {
    hide KeyHash;
  }

  method RandomSeed(key: bytes, clock: bv64) returns (seed: bv64)
    ensures seed == Seed(key, clock)
  {
    hide HashByte;
    var hash: bv64 := 0xCBF2_9CE4_8422_2325;
    for i := 0 to |key|
      invariant hash == KeyHash(key[..i])
    {
      assert key[..i + 1][..i] == key[..i];
      hash := HashByte(hash, key[i]);
    }
    assert key[..|key|] == key;
    seed := hash ^ clock.RotateLeft(17) ^ 0xA076_1D64_78BD_642F;
  }

  // ---- The draw -------------------------------------------------------------------

  /** `swap_remove`: the last element takes the place of the removed one. */
  function SwapRemove(s: seq<bytes>, i: nat): (r: seq<bytes>)
    requires i < |s|
    ensures |r| == |s| - 1
  {
    s[i := s[|s| - 1]][..|s| - 1]
  }

  /** The members drawn, in order, from sorted candidates. */
  function Draw(candidates: seq<bytes>, state: bv64, n: nat): (popped: seq<bytes>)
    requires n <= |candidates|
    ensures |popped| == n
    decreases n
  {
    if n == 0 then []
    else
      var next := Advance(state);
      var i := IndexBelow(Mix(next), |candidates|);
      [candidates[i]] + Draw(SwapRemove(candidates, i), next, n - 1)
  }

  /** Only the removed place changes: the last element is there now. */
  lemma SwapRemoveAt(s: seq<bytes>, i: nat, k: nat)
    requires i < |s| && k < |s| - 1
    ensures SwapRemove(s, i)[k] == if k == i then s[|s| - 1] else s[k]
  {
  }

  lemma SwapRemoveElements(s: seq<bytes>, i: nat)
    requires i < |s| && Distinct(s)
    ensures Distinct(SwapRemove(s, i)) && Elements(SwapRemove(s, i)) == Elements(s) - {s[i]}
  {
    var r := SwapRemove(s, i);
    assert forall k :: 0 <= k < |r| ==> r[k] == s[if k == i then |s| - 1 else k];
    forall x ensures x in Elements(r) <==> x in Elements(s) - {s[i]} {
      if x in Elements(s) - {s[i]} {
        var k :| 0 <= k < |s| && s[k] == x;
        assert r[if k == |s| - 1 then i else k] == x;
      }
    }
  }

  /** The draw takes distinct members out of the candidates. */
  lemma {:induction false} DrawDistinct(candidates: seq<bytes>, state: bv64, n: nat)
    requires n <= |candidates| && Distinct(candidates)
    ensures Distinct(Draw(candidates, state, n))
    ensures Elements(Draw(candidates, state, n)) <= Elements(candidates)
    decreases n
  {
    hide Mix, Advance, IndexBelow, SwapRemove;
    if n > 0 {
      var next := Advance(state);
      var i := IndexBelow(Mix(next), |candidates|);
      SwapRemoveElements(candidates, i);
      var rest := Draw(SwapRemove(candidates, i), next, n - 1);
      DrawDistinct(SwapRemove(candidates, i), next, n - 1);
      assert forall y :: y in rest ==> y in Elements(rest);
    }
  }

  lemma PoppedSize(members: set<bytes>, popped: seq<bytes>)
    requires Distinct(popped) && Elements(popped) <= members
    ensures |members - Elements(popped)| == |members| - |popped|
  {
    EnumerationSize(popped);
    assert members == (members - Elements(popped)) + Elements(popped);
  }

  /** What SPOP draws for a key, a clock and a count from a listing of the set. */
  function PopSequence(order: seq<bytes>, key: bytes, clock: bv64, n: nat): seq<bytes>
    requires Distinct(order) && n <= |order|
  {
    EnumerationSize(order);
    EnumerationSize(SortBytes(order));
    Draw(SortBytes(order), Seed(key, clock), n)
  }

  /** Whatever order the hash set is iterated in, every replica draws the same
      members in the same order. */
  lemma ReplicaDeterministic(a: seq<bytes>, b: seq<bytes>, members: set<bytes>, key: bytes, clock: bv64, n: nat)
    requires Enumerates(a, members) && Enumerates(b, members) && n <= |members|
    ensures |a| == |b| == |members|
    ensures PopSequence(a, key, clock, n) == PopSequence(b, key, clock, n)
  {
    EnumerationSize(a);
    EnumerationSize(b);
    SortedUnique(SortBytes(a), SortBytes(b));
  }

  // ---- The command ----------------------------------------------------------------

  datatype Change = Abort | RemoveKey | Keep
  datatype Reply = WrongType | NilBulk | Bulk(member: bytes) | Members(popped: seq<bytes>)

  function MissingReply(count: Option<u64>): Reply {
    if count.None? then NilBulk else Members([])
  }

  function PoppedReply(count: Option<u64>, popped: seq<bytes>): Reply {
    if count.Some? then Members(popped) else if popped == [] then NilBulk else Bulk(popped[0])
  }

  /** One without a count, otherwise at most `count`. */
  function PopCount(count: Option<u64>, size: nat): (n: nat)
    requires size > 0
    ensures n <= size
  {
    if count.None? then 1 else if count.value >= size then size else count.value
  }

  /** An entry's value; `members` means something only if it is a set. */
  class SetValue {
    const isSet: bool
    var members: set<bytes>

    constructor (isSet: bool, ms: set<bytes>)
      ensures this.isSet == isSet && members == ms
    {
      this.isSet := isSet;
      members := ms;
    }

    /** The drawing loop: removes exactly the drawn members. */
    method DrawFrom(sorted: seq<bytes>, seed: bv64, n: nat) returns (popped: seq<bytes>)
      requires Enumerates(sorted, members) && n <= |sorted|
      modifies this
      ensures popped == Draw(sorted, seed, n)
      ensures members == old(members) - Elements(popped)
    {
      hide Mix, Advance, IndexBelow;
      var rng := new DeterministicRng(seed);
      var candidates := sorted;
      popped := [];
      for k := 0 to n
        invariant |candidates| == |sorted| - k && Enumerates(candidates, members)
        invariant members == old(members) - Elements(popped)
        invariant Draw(sorted, seed, n) == popped + Draw(candidates, rng.state, n - k)
      {
        ghost var state := rng.state;
        var index := rng.NextIndex(|candidates|);
        var member := candidates[index];
        ghost var rest := Draw(SwapRemove(candidates, index), rng.state, n - k - 1);
        SwapRemoveElements(candidates, index);
        assert Draw(candidates, state, n - k) == [member] + rest;
        assert popped + ([member] + rest) == (popped + [member]) + rest;
        candidates := SwapRemove(candidates, index);
        members := members - {member};
        popped := popped + [member];
      }
      assert popped + [] == popped;
    }

    /** `mutate` on an entry; `order` is the hash set's iteration order. */
    method Mutate(order: seq<bytes>, key: bytes, count: Option<u64>, clock: bv64)
      returns (change: Change, reply: Reply)
      requires Enumerates(order, members)
      modifies this
      ensures !isSet ==> change == Abort && reply == WrongType && members == old(members)
      ensures isSet && count == Some(0) ==> change == Abort && reply == Members([]) && members == old(members)
      ensures isSet && count != Some(0) && old(members) == {} ==>
                change == RemoveKey && reply == (if count.Some? then Members([]) else NilBulk) && members == {}
      ensures isSet && count != Some(0) && old(members) != {} ==>
                var n := if count.None? then 1 else if count.value <= |old(members)| then count.value else |old(members)|;
                && n <= |order| && |members| == |old(members)| - n
                && var popped := PopSequence(order, key, clock, n);
                   && |popped| == n && Distinct(popped) && Elements(popped) <= old(members)
                   && members == old(members) - Elements(popped)
                   && reply == (if count.Some? then Members(popped) else Bulk(popped[0]))
                   && (change == RemoveKey <==> members == {}) && (change == Keep <==> members != {})
    {
      if !isSet {
        return Abort, WrongType;
      }
      if count == Some(0) {
        return Abort, Members([]);
      }
      if members == {} {
        return RemoveKey, MissingReply(count);
      }
      EnumerationSize(order);
      var n := PopCount(count, |members|);
      var sorted := SortBytes(order);
      EnumerationSize(sorted);
      var seed := RandomSeed(key, clock);
      DrawDistinct(sorted, seed, n);
      hide Draw, Seed, SortBytes;
      var popped := DrawFrom(sorted, seed, n);
      PoppedSize(old(members), popped);
      reply := PoppedReply(count, popped);
      change := if members == {} then RemoveKey else Keep;
    }
  }
}
