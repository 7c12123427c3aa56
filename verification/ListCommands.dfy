/** LREM, LTRIM and LRANGE on a list value. */
module ListCommands {
  import opened Machine

  type Elem = bytes

  function Count(xs: seq<Elem>, e: Elem): (n: nat)
    ensures n <= |xs|
  {
    if xs == [] then 0 else Count(xs[1..], e) + (if xs[0] == e then 1 else 0)
  }

  /** All elements other than `e`, in order. */
  function Without(xs: seq<Elem>, e: Elem): seq<Elem> {
    if xs == [] then [] else (if xs[0] == e then [] else [xs[0]]) + Without(xs[1..], e)
  }

  /** Drops matches from the head until `n` are gone. */
  function RemoveFirst(xs: seq<Elem>, e: Elem, n: nat): seq<Elem> {
    if xs == [] then []
    else if n > 0 && xs[0] == e then RemoveFirst(xs[1..], e, n - 1)
    else [xs[0]] + RemoveFirst(xs[1..], e, n)
  }

  /** Drops matches from the tail until `n` are gone. */
  function RemoveLast(xs: seq<Elem>, e: Elem, n: nat): seq<Elem> {
    if xs == [] then []
    else
      var front, last := xs[..|xs| - 1], xs[|xs| - 1];
      if n > 0 && last == e then RemoveLast(front, e, n - 1) else RemoveLast(front, e, n) + [last]
  }

  function Reverse(xs: seq<Elem>): seq<Elem> {
    if xs == [] then [] else Reverse(xs[1..]) + [xs[0]]
  }

  function AtMost(a: nat, b: nat): nat { if a <= b then a else b }

  // ---- What the removals mean -------------------------------------------------------

  /** Exactly the first `min(n, occurrences)` matches go: some prefix holds that
      many and loses them all, the rest of the list is untouched. */
  lemma {:induction false} RemoveFirstMeans(xs: seq<Elem>, e: Elem, n: nat) returns (k: nat)
    ensures k <= |xs| && Count(xs[..k], e) == AtMost(n, Count(xs, e))
    ensures RemoveFirst(xs, e, n) == Without(xs[..k], e) + xs[k..]
  {
    if xs == [] || n == 0 {
      k := 0;
      RemoveNone(xs, e);
    } else {
      var m := RemoveFirstMeans(xs[1..], e, if xs[0] == e then n - 1 else n);
      k := m + 1;
      var head := if xs[0] == e then [] else [xs[0]];
      assert xs[..k][1..] == xs[1..][..m] && xs[k..] == xs[1..][m..];
      assert head + (Without(xs[1..][..m], e) + xs[k..]) == Without(xs[..k], e) + xs[k..];
    }
  }

  /** `Without` distributes over concatenation, keeps any other element and drops
      this one, and only one function does. */
  lemma {:induction false} WithoutExact(xs: seq<Elem>, ys: seq<Elem>, x: Elem, e: Elem)
    ensures Without(xs + ys, e) == Without(xs, e) + Without(ys, e)
    ensures Without([x], e) == if x == e then [] else [x]
    decreases |xs|
  {
    if xs == [] {
      assert xs + ys == ys;
    } else {
      assert (xs + ys)[1..] == xs[1..] + ys;
      WithoutExact(xs[1..], ys, x, e);
    }
  }

  lemma HeadStep(pre: seq<Elem>, rest: seq<Elem>, e: Elem, n: nat)
    requires rest != [] && n > 0
    ensures pre + RemoveFirst(rest, e, n) ==
            if rest[0] == e then pre + RemoveFirst(rest[1..], e, n - 1)
            else (pre + [rest[0]]) + RemoveFirst(rest[1..], e, n)
  {
  }

  lemma RemoveFromNothing(e: Elem, n: nat)
    ensures RemoveFirst([], e, n) == []
  {
  }

  lemma {:induction false} RemoveNone(xs: seq<Elem>, e: Elem)
    ensures RemoveFirst(xs, e, 0) == xs
  {
    if xs != [] { RemoveNone(xs[1..], e); }
  }

  lemma {:induction false} RemoveAll(xs: seq<Elem>, e: Elem, n: nat)
    requires n >= Count(xs, e)
    ensures RemoveFirst(xs, e, n) == Without(xs, e)
  {
    if xs != [] { RemoveAll(xs[1..], e, if n > 0 && xs[0] == e then n - 1 else n); }
  }

  lemma {:induction false} ReverseAppend(xs: seq<Elem>, ys: seq<Elem>)
    ensures Reverse(xs + ys) == Reverse(ys) + Reverse(xs)
  {
    if xs == [] {
      assert xs + ys == ys;
    } else {
      assert (xs + ys)[1..] == xs[1..] + ys;
      ReverseAppend(xs[1..], ys);
    }
  }

  lemma {:induction false} ReverseTwice(xs: seq<Elem>)
    ensures Reverse(Reverse(xs)) == xs && |Reverse(xs)| == |xs|
  {
    if xs != [] {
      ReverseTwice(xs[1..]);
      ReverseAppend(Reverse(xs[1..]), [xs[0]]);
      assert Reverse([xs[0]]) == [xs[0]];
    }
  }

  lemma ReverseOfLast(xs: seq<Elem>)
    requires xs != []
    ensures Reverse(xs) == [xs[|xs| - 1]] + Reverse(xs[..|xs| - 1])
  {
    var front, last := xs[..|xs| - 1], xs[|xs| - 1];
    assert xs == front + [last];
    ReverseAppend(front, [last]);
    assert Reverse([last]) == [last];
  }

  /** Removing from the tail is removing from the head of the reversed list. */
  lemma {:induction false} TailIsReversedHead(xs: seq<Elem>, e: Elem, n: nat)
    ensures RemoveLast(xs, e, n) == Reverse(RemoveFirst(Reverse(xs), e, n))
  {
    if xs != [] {
      var front, last := xs[..|xs| - 1], xs[|xs| - 1];
      ReverseOfLast(xs);
      assert Reverse(xs)[1..] == Reverse(front);
      TailIsReversedHead(front, e, if n > 0 && last == e then n - 1 else n);
    }
  }

  // ---- LREM ------------------------------------------------------------------------

  /** Two's complement negation of an `i64`. */
  function WrappingNeg(n: i64): i64 {
    if n == I64_MIN then I64_MIN else -n
  }

  /** The list that LREM leaves. */
  function LRem(xs: seq<Elem>, e: Elem, count: i64): seq<Elem> {
    if count > 0 then RemoveFirst(xs, e, count)
    else if count == 0 then Without(xs, e)
    else RemoveLast(xs, e, if WrappingNeg(count) > 0 then WrappingNeg(count) else 0)
  }

  /** LREM as documented, with a mathematical absolute value. */
  function LRemDocumented(xs: seq<Elem>, e: Elem, count: int): seq<Elem> {
    if count > 0 then RemoveFirst(xs, e, count)
    else if count == 0 then Without(xs, e)
    else RemoveLast(xs, e, 0 - count)
  }

  lemma LastRemoves(xs: seq<Elem>, e: Elem, n: nat)
    ensures |RemoveLast(xs, e, n)| == |xs| - AtMost(n, Count(Reverse(xs), e))
  {
    TailIsReversedHead(xs, e, n);
    var k := RemoveFirstMeans(Reverse(xs), e, n);
    ReverseTwice(xs);
    ReverseTwice(RemoveFirst(Reverse(xs), e, n));
    WithoutSize(Reverse(xs)[..k], e);
  }

  lemma {:induction false} WithoutSize(xs: seq<Elem>, e: Elem)
    ensures |Without(xs, e)| == |xs| - Count(xs, e)
  {
    if xs != [] { WithoutSize(xs[1..], e); }
  }

  lemma {:induction false} CountAppend(xs: seq<Elem>, ys: seq<Elem>, e: Elem)
    ensures Count(xs + ys, e) == Count(xs, e) + Count(ys, e)
  {
    if xs == [] {
      assert xs + ys == ys;
    } else {
      assert (xs + ys)[1..] == xs[1..] + ys;
      CountAppend(xs[1..], ys, e);
    }
  }

  lemma {:induction false} CountReverse(xs: seq<Elem>, e: Elem)
    ensures Count(Reverse(xs), e) == Count(xs, e)
  {
    if xs != [] {
      CountReverse(xs[1..], e);
      CountAppend(Reverse(xs[1..]), [xs[0]], e);
      var head := [xs[0]];
      assert head[1..] == [];
    }
  }

  lemma {:induction false} CountPositive(xs: seq<Elem>, e: Elem)
    ensures Count(xs, e) > 0 <==> e in xs
  {
    if xs != [] {
      CountPositive(xs[1..], e);
      assert xs == [xs[0]] + xs[1..];
    }
  }

  /** The code does what is documented except that the one count whose negation
      overflows removes nothing: it then differs as soon as there is a match. */
  lemma LRemExact(xs: seq<Elem>, e: Elem, count: i64)
    ensures LRem(xs, e, count) == LRemDocumented(xs, e, count) <==> count != I64_MIN || e !in xs
  {
    if count == I64_MIN {
      LastRemoves(xs, e, 0);
      LastRemoves(xs, e, 0 - I64_MIN);
      CountReverse(xs, e);
      CountPositive(xs, e);
      if e !in xs {
        TailIsReversedHead(xs, e, 0);
        TailIsReversedHead(xs, e, 0 - I64_MIN);
        RemoveAll(Reverse(xs), e, 0);
        RemoveAll(Reverse(xs), e, 0 - I64_MIN);
      }
    }
  }

  /** LREM with a negative count mirrors LREM with a positive one. */
  lemma LRemMirror(xs: seq<Elem>, e: Elem, n: i64)
    requires 0 < n
    ensures LRem(xs, e, -n) == Reverse(LRem(Reverse(xs), e, n))
  {
    TailIsReversedHead(xs, e, n);
  }

  // ---- LRANGE ------------------------------------------------------------------------

  /** `lrange`: clamped indices, then skip and take. */
  function LRange(xs: seq<Elem>, start: i64, end: i64): seq<Elem> {
    var len := |xs|;
    if len == 0 then []
    else
      var s := if start < 0 then len + start else start;
      var e := if end < 0 then len + end else end;
      var s1 := if s < 0 then 0 else s;
      var e1 := if e > len - 1 then len - 1 else e;
      if s1 > e1 then [] else xs[s1..][..e1 - s1 + 1]
  }

  /** Index `i` counted from either end, as the caller wrote it. */
  function FromEnd(len: nat, i: i64): int { if i < 0 then len + i else i }

  /** Does the closed range `start..end` cover position `i`? */
  predicate Selected(len: nat, start: i64, end: i64, i: int) {
    FromEnd(len, start) <= i <= FromEnd(len, end)
  }

  /** LRANGE returns the selected positions, all of them and in order. */
  lemma LRangeMeans(xs: seq<Elem>, start: i64, end: i64) returns (lo: nat)
    ensures var r := LRange(xs, start, end);
            && lo + |r| <= |xs| && r == xs[lo..lo + |r|]
            && forall i: nat :: i < |xs| ==> (Selected(|xs|, start, end, i) <==> lo <= i < lo + |r|)
  {
    var s := FromEnd(|xs|, start);
    lo := if LRange(xs, start, end) == [] || s < 0 then 0 else s;
  }

  // ---- In place ------------------------------------------------------------------------

  class ListValue {
    var items: seq<Elem>

    constructor (xs: seq<Elem>)
      ensures items == xs
    {
      items := xs;
    }

    /** `list.remove(i)`. */
    method RemoveAt(i: nat)
      requires i < |items|
      modifies this
      ensures items == old(items)[..i] + old(items)[i + 1..]
    {
      items := items[..i] + items[i + 1..];
    }

    method RemoveFromHead(e: Elem, limit: nat) returns (removed: nat)
      modifies this
      ensures items == RemoveFirst(old(items), e, limit)
      ensures removed == |old(items)| - |items|
    {
      hide RemoveFirst;
      var count, i := limit, 0;
      removed := 0;
      assert items[0..] == items;
      while i < |items| && count > 0
        invariant 0 <= i <= |items| && 0 <= count
        invariant RemoveFirst(old(items), e, limit) == items[..i] + RemoveFirst(items[i..], e, count)
        invariant removed == |old(items)| - |items|
        decreases |items| - i, count
      {
        ghost var before := items;
        HeadStep(items[..i], items[i..], e, count);
        if items[i] == e {
          RemoveAt(i);
          assert items[..i] == before[..i] && items[i..] == before[i..][1..];
          removed := removed + 1;
          count := count - 1;
        } else {
          assert items[..i + 1] == items[..i] + [items[i]] && items[i + 1..] == items[i..][1..];
          i := i + 1;
        }
      }
      if count == 0 {
        RemoveNone(items[i..], e);
      } else {
        RemoveFromNothing(e, count);
      }
      assert items == items[..i] + items[i..];
    }

    method RemoveFromTail(e: Elem, limit: nat) returns (removed: nat)
      modifies this
      ensures items == RemoveLast(old(items), e, limit)
      ensures removed == |old(items)| - |items|
    {
      var count, i := limit, |items|;
      removed := 0;
      assert items[..i] == items;
      while i > 0 && count > 0
        invariant 0 <= i <= |items| && 0 <= count
        invariant RemoveLast(old(items), e, limit) == RemoveLast(items[..i], e, count) + items[i..]
        invariant removed == |old(items)| - |items|
        decreases i
      {
        ghost var before := items;
        i := i - 1;
        assert before[..i + 1][..i] == before[..i];
        if items[i] == e {
          RemoveAt(i);
          assert items[..i] == before[..i] && items[i..] == before[i + 1..];
          removed := removed + 1;
          count := count - 1;
        } else {
          assert items[i..] == [items[i]] + items[i + 1..];
        }
      }
      if count == 0 {
        TailIsReversedHead(items[..i], e, 0);
        RemoveNone(Reverse(items[..i]), e);
        ReverseTwice(items[..i]);
      }
      assert items == items[..i] + items[i..];
    }

    method RemoveEvery(e: Elem) returns (removed: nat)
      modifies this
      ensures items == Without(old(items), e)
      ensures removed == |old(items)| - |items|
    {
      var i := 0;
      removed := 0;
      assert items[0..] == items;
      while i < |items|
        invariant 0 <= i <= |items|
        invariant Without(old(items), e) == items[..i] + Without(items[i..], e)
        invariant removed == |old(items)| - |items|
        decreases |items| - i
      {
        ghost var before := items;
        if items[i] == e {
          RemoveAt(i);
          assert items[..i] == before[..i] && items[i..] == before[i..][1..];
          removed := removed + 1;
        } else {
          assert items[..i + 1] == items[..i] + [items[i]] && items[i + 1..] == items[i..][1..];
          i := i + 1;
        }
      }
    }

    /** `remove_elements`; the reply is the number of elements removed. */
    method RemoveElements(e: Elem, count: i64) returns (removed: nat)
      modifies this
      ensures items == LRem(old(items), e, count)
      ensures removed == |old(items)| - |items|
    {
      if count > 0 {
        removed := RemoveFromHead(e, count);
      } else if count < 0 {
        var limit := WrappingNeg(count);
        removed := RemoveFromTail(e, if limit > 0 then limit else 0);
      } else {
        removed := RemoveEvery(e);
      }
    }

    /** LTRIM leaves exactly what LRANGE would have returned. */
    method Trim(from: i64, until: i64)
      modifies this
      ensures items == LRange(old(items), from, until)
    {
      var len := |items|;
      if len == 0 {
        return;
      }
      var start: int, stop: int := from, until;
      if start < 0 {
        start := len + start;
      }
      if stop < 0 {
        stop := len + stop;
      }
      if start < 0 {
        start := 0;
      }
      if stop >= len {
        stop := len - 1;
      }
      if start > stop {
        items := [];
      } else {
        items := items[..stop + 1];
        if start > 0 {
          items := items[start..];
        }
      }
    }
  }
}
