/** Base-256 digit arithmetic behind the eight wheel levels. */
module WheelDigits {
  import opened Machine
  import opened Arith

  const WHEEL_SIZE := 256
  const WHEEL_LEVELS := 8

  /** Ticks covered by one slot of a level: 256 to the power `level`. */
  function Span(level: nat): (r: nat)
    ensures r > 0
  {
    if level == 0 then 1 else 256 * Span(level - 1)
  }

  /** `(at >> (level * 8)) & 255`: the base-256 digit of `at` at `level`. */
  function SlotFor(at: nat, level: nat): (s: nat)
    ensures s < WHEEL_SIZE
  {
    (at / Span(level)) % 256
  }

  function LevelFrom(delta: nat, level: nat): (r: nat)
    requires level < WHEEL_LEVELS
    ensures level <= r < WHEEL_LEVELS
    ensures r > level ==> Span(r) <= delta
    ensures r < WHEEL_LEVELS - 1 ==> delta < Span(r + 1)
    decreases WHEEL_LEVELS - level
  {
    if level + 1 < WHEEL_LEVELS && delta >= Span(level + 1) then LevelFrom(delta, level + 1) else level
  }

  /** The level and slot that `insert` chooses for an expiry `e` at time `c`. */
  function Home(e: nat, c: nat): (h: (nat, nat))
    ensures h.0 < WHEEL_LEVELS && h.1 < WHEEL_SIZE
  {
    if e <= c then (0, SlotFor(c, 0))
    else var level := LevelFrom(e - c, 0); (level, SlotFor(e, level))
  }

  /** Where an item may rest between operations. */
  predicate Placed(e: nat, level: nat, slot: nat, c: nat) {
    && slot == SlotFor(e, level)
    && (level == 0 ==> 1 <= e - c <= 255)
    && (level > 0 ==> 1 <= e / Span(level) - c / Span(level) <= 256)
  }

  /** Where an item may rest while `current == c` is being cascaded and the
      levels below `k` are done: a level whose digit has just changed may
      still hold items that belong further down. */
  predicate Mid(e: nat, level: nat, slot: nat, c: nat, k: nat) {
    && slot == SlotFor(e, level)
    && (level == 0 ==> 0 <= e - c <= 255)
    && (level > 0 ==>
          var d := e / Span(level) - c / Span(level);
          if level < k || c % Span(level) != 0 then 1 <= d <= 256 else 0 <= d <= 255)
  }

  lemma SpanValues()
    ensures Span(0) == 1 && Span(1) == 0x100 && Span(2) == 0x1_0000 && Span(3) == 0x100_0000
    ensures Span(4) == 0x1_0000_0000 && Span(5) == 0x100_0000_0000 && Span(6) == 0x1_0000_0000_0000
    ensures Span(7) == 0x100_0000_0000_0000 && Span(8) == 0x1_0000_0000_0000_0000
  {
    assert Span(1) == 256 * Span(0);
    assert Span(2) == 256 * Span(1);
    assert Span(3) == 256 * Span(2);
    assert Span(4) == 256 * Span(3);
    assert Span(5) == 256 * Span(4);
    assert Span(6) == 256 * Span(5);
    assert Span(7) == 256 * Span(6);
    assert Span(8) == 256 * Span(7);
  }

  lemma DivStep(c: nat, p: nat)
    requires p > 0
    ensures (c + 1) % p == 0 ==> (c + 1) / p == c / p + 1
    ensures (c + 1) % p != 0 ==> (c + 1) / p == c / p
  {
    var q, r := c / p, c % p;
    assert c == p * q + r;
    if r + 1 == p {
      assert c + 1 == p * (q + 1) + 0;
      DivUnique(c + 1, p, q + 1, 0);
    } else {
      DivUnique(c + 1, p, q, r + 1);
    }
  }

  /** Times a whole slot apart have different quotients, close ones near quotients. */
  lemma DivDistance(e: nat, c: nat, p: nat)
    requires p > 0 && c <= e
    ensures p <= e - c ==> 1 <= e / p - c / p
    ensures e - c < 256 * p ==> e / p - c / p <= 256
    ensures 0 <= e / p - c / p
  {
    var qe, qc := e / p, c / p;
    assert e == p * qe + e % p && c == p * qc + c % p;
    if qe < qc { MulMonotone(p, qe + 1, qc); }
    if qe <= qc { MulMonotone(p, qe, qc); }
    if qe > qc + 256 { MulMonotone(p, qc + 257, qe); }
  }

  /** Equal quotients at the start of a slot: the later time lies inside it. */
  lemma DivWithin(e: nat, c: nat, p: nat)
    requires p > 0 && c % p == 0 && e / p == c / p
    ensures 0 <= e - c < p
  {
    assert e == p * (e / p) + e % p && c == p * (c / p);
  }

  /** A time on a level boundary is on every lower boundary. */
  lemma {:induction false} BoundaryNests(c: nat, k: nat, level: nat)
    requires k <= level && c % Span(level) == 0
    ensures c % Span(k) == 0
    decreases level
  {
    if k < level {
      var q := Span(level - 1);
      assert Span(level) == 256 * q;
      assert c == (256 * q) * (c / (256 * q));
      assert (256 * q) * (c / (256 * q)) == q * (256 * (c / (256 * q)));
      DivUnique(c, q, 256 * (c / (256 * q)), 0);
      BoundaryNests(c, k, level - 1);
    }
  }

  lemma TopDigit(e: u64)
    ensures 0 <= e / Span(7) < 256
  {
    SpanValues();
  }

  /** `insert` puts an item that is not yet due in a legal place. */
  lemma HomePlaced(e: u64, c: u64)
    requires c < e
    ensures Placed(e, Home(e, c).0, Home(e, c).1, c)
  {
    var level := LevelFrom(e - c, 0);
    SpanValues();
    if level > 0 {
      DivDistance(e, c, Span(level));
      TopDigit(e);
      TopDigit(c);
      assert Span(level + 1) == 256 * Span(level);
    }
  }

  /** Advancing one tick loosens the placement of every item. */
  lemma TickLoosens(e: nat, level: nat, slot: nat, c: nat)
    requires Placed(e, level, slot, c)
    ensures Mid(e, level, slot, c + 1, 1)
  {
    DivStep(c, Span(level));
  }

  /** Only the slot named by the current digit holds items for lower levels. */
  lemma LevelDone(e: nat, level: nat, slot: nat, c: nat, k: nat)
    requires Mid(e, level, slot, c, k) && k >= 1
    requires level == k ==> slot != SlotFor(c, k)
    ensures Mid(e, level, slot, c, k + 1)
  {
  }

  /** Everything in that slot falls within the span that has just begun. */
  lemma CascadeSlot(e: nat, k: nat, c: nat)
    requires k >= 1 && c % Span(k) == 0 && Mid(e, k, SlotFor(c, k), c, k)
    ensures 0 <= e - c < Span(k)
  {
    assert e / Span(k) == c / Span(k);
    DivWithin(e, c, Span(k));
  }

  /** Re-inserting such an item leaves it legally placed on a lower level. */
  lemma CascadeHome(e: u64, k: nat, c: u64)
    requires 1 <= k < WHEEL_LEVELS && c % Span(k) == 0 && 0 <= e - c < Span(k)
    ensures Home(e, c).0 < k && Mid(e, Home(e, c).0, Home(e, c).1, c, k + 1)
  {
    SpanValues();
    if e <= c {
      assert e == c;
    } else {
      HomePlaced(e, c);
      var level := LevelFrom(e - c, 0);
      if level >= k { SpanMonotone(k, level); }
    }
  }

  lemma {:induction false} SpanMonotone(a: nat, b: nat)
    requires a <= b
    ensures Span(a) <= Span(b)
    decreases b
  {
    if a < b { SpanMonotone(a, b - 1); }
  }

  /** Once cascading stops, the current level-0 slot is exactly what is due
      and everything else is legally placed. */
  lemma CascadeStops(e: nat, level: nat, slot: nat, c: nat, k: nat)
    requires Mid(e, level, slot, c, k) && level < WHEEL_LEVELS
    requires k == WHEEL_LEVELS || c % Span(k) != 0
    ensures level == 0 && slot == SlotFor(c, 0) ==> e == c
    ensures !(level == 0 && slot == SlotFor(c, 0)) ==> Placed(e, level, slot, c)
  {
    assert Span(0) == 1;
    if level > 0 && level >= k && c % Span(level) == 0 {
      BoundaryNests(c, k, level);
    }
  }

  lemma PlacedIsLater(e: nat, level: nat, slot: nat, c: nat)
    requires Placed(e, level, slot, c)
    ensures c < e
  {
    if level > 0 && e <= c { DivDistance(c, e, Span(level)); }
  }
}

/** What a timer wheel is for: a plain bag of (key, expiry) pairs. */
module TimerBag {
  import opened Machine

  datatype TimerItem<K> = TimerItem(key: K, expireAt: u64)

  /** All items of a sequence of slots. */
  ghost function Bag<K>(slots: seq<seq<TimerItem<K>>>): multiset<TimerItem<K>> {
    if slots == [] then multiset{} else multiset(slots[0]) + Bag(slots[1..])
  }

  /** Advancing a bag to `now` fires exactly the items due by then. */
  ghost predicate Advances<K>(c: u64, items: multiset<TimerItem<K>>, now: u64,
                              c': u64, items': multiset<TimerItem<K>>, fired: seq<TimerItem<K>>)
  {
    if now <= c then c' == c && items' == items && fired == []
    else
      && c' == now
      && multiset(fired) + items' == items
      && (forall i :: 0 <= i < |fired| ==> fired[i].expireAt <= now)
      && (forall x :: x in items' ==> now < x.expireAt)
  }

  predicate InExpiryOrder<K>(fired: seq<TimerItem<K>>) {
    forall i, j :: 0 <= i < j < |fired| ==> fired[i].expireAt <= fired[j].expireAt
  }

  lemma {:induction false} BagUpdate<K>(slots: seq<seq<TimerItem<K>>>, i: nat, s: seq<TimerItem<K>>)
    requires i < |slots|
    ensures Bag(slots[i := s]) + multiset(slots[i]) == Bag(slots) + multiset(s)
  {
    if i == 0 {
      assert slots[i := s][1..] == slots[1..];
    } else {
      var tail := slots[1..][i - 1 := s];
      assert slots[i := s][1..] == tail && slots[i := s][0] == slots[0];
      BagUpdate(slots[1..], i - 1, s);
      assert Bag(slots[i := s]) + multiset(slots[i]) == multiset(slots[0]) + (Bag(tail) + multiset(slots[i]));
      assert Bag(slots) + multiset(s) == multiset(slots[0]) + (Bag(slots[1..]) + multiset(s));
    }
  }

  lemma PrefixBag<T>(s: seq<T>, n: nat)
    requires n < |s|
    ensures multiset(s[..n + 1]) == multiset(s[..n]) + multiset{s[n]}
  {
    assert s[..n + 1] == s[..n] + [s[n]];
  }

  lemma BagAssoc<T>(a: multiset<T>, b: multiset<T>, c: multiset<T>)
    ensures (a + b) + c == a + (b + c)
  {
  }

  /** Bags can be cancelled. */
  lemma BagCancel<T>(a: multiset<T>, b: multiset<T>, c: multiset<T>)
    requires a + c == b + c
    ensures a == b
  {
    forall x: T ensures a[x] == b[x] {
      assert (a + c)[x] == (b + c)[x];
    }
  }

  lemma {:induction false} BagMember<K>(slots: seq<seq<TimerItem<K>>>, x: TimerItem<K>)
    ensures x in Bag(slots) <==> exists i :: 0 <= i < |slots| && x in slots[i]
  {
    if slots != [] {
      BagMember(slots[1..], x);
      if x in Bag(slots[1..]) {
        var i :| 0 <= i < |slots[1..]| && x in slots[1..][i];
        assert x in slots[i + 1];
      }
      forall i | 0 < i < |slots| && x in slots[i] ensures x in Bag(slots[1..]) {
        assert x in slots[1..][i - 1];
      }
    }
  }

  lemma {:induction false} BagOfEmpty<K>(slots: seq<seq<TimerItem<K>>>)
    requires forall i :: 0 <= i < |slots| ==> slots[i] == []
    ensures Bag(slots) == multiset{}
  {
    if slots != [] { BagOfEmpty(slots[1..]); }
  }

  /** An advance partitions the bag. */
  lemma AdvancesMembers<K>(c: u64, items: multiset<TimerItem<K>>, now: u64,
                           c': u64, items': multiset<TimerItem<K>>, fired: seq<TimerItem<K>>)
    requires Advances(c, items, now, c', items', fired)
    ensures forall x :: x in items <==> x in fired || x in items'
    ensures forall x :: x in fired ==> x.expireAt <= now
  {
    if c < now {
      forall x: TimerItem<K> ensures x in items <==> x in fired || x in items' {
        assert items[x] == multiset(fired)[x] + items'[x];
      }
    }
  }

  /** However the advance is carried out, what fires and what stays is
      determined: the tick path and the bulk path cannot differ. */
  lemma AdvancesUnique<K>(c: u64, items: multiset<TimerItem<K>>, now: u64,
                          c1: u64, items1: multiset<TimerItem<K>>, fired1: seq<TimerItem<K>>,
                          c2: u64, items2: multiset<TimerItem<K>>, fired2: seq<TimerItem<K>>)
    requires Advances(c, items, now, c1, items1, fired1)
    requires Advances(c, items, now, c2, items2, fired2)
    ensures c1 == c2 && items1 == items2 && multiset(fired1) == multiset(fired2)
  {
    if c < now {
      forall x: TimerItem<K> ensures items1[x] == items2[x] && multiset(fired1)[x] == multiset(fired2)[x] {
        assert items[x] == multiset(fired1)[x] + items1[x] == multiset(fired2)[x] + items2[x];
        if x.expireAt <= now {
          assert x !in items1 && x !in items2;
        } else {
          assert x !in fired1 && x !in fired2;
        }
      }
    }
  }

  /** Two advances in a row are one advance to the later time. */
  lemma AdvancesCompose<K>(c: u64, items: multiset<TimerItem<K>>,
                           n1: u64, c1: u64, items1: multiset<TimerItem<K>>, f1: seq<TimerItem<K>>,
                           n2: u64, c2: u64, items2: multiset<TimerItem<K>>, f2: seq<TimerItem<K>>)
    requires Advances(c, items, n1, c1, items1, f1) && Advances(c1, items1, n2, c2, items2, f2)
    requires forall x :: x in items ==> c < x.expireAt
    ensures Advances(c, items, if n1 <= n2 then n2 else n1, c2, items2, f1 + f2)
  {
    assert multiset(f1 + f2) == multiset(f1) + multiset(f2);
    if c < n1 && n1 < n2 {
      forall i | 0 <= i < |f1 + f2| ensures (f1 + f2)[i].expireAt <= n2 {
      }
    }
  }
}

/** The hierarchical time wheel of `mocha/mod.rs`: eight levels of 256 slots. */
module TimeWheel {
  import opened Machine
  import opened WheelDigits
  import opened TimerBag

  const LARGE_ADVANCE_THRESHOLD := 4096

  method LevelForDelta(delta: u64) returns (level: nat)
    ensures level < WHEEL_LEVELS
    ensures level > 0 ==> Span(level) <= delta
    ensures level < WHEEL_LEVELS - 1 ==> delta < Span(level + 1)
    ensures level == LevelFrom(delta, 0)
  {
    SpanValues();
    level := 0;
    var span: u64 := WHEEL_SIZE;
    while level + 1 < WHEEL_LEVELS && delta >= span
      invariant level < WHEEL_LEVELS
      invariant level < WHEEL_LEVELS - 1 ==> span == Span(level + 1)
      invariant LevelFrom(delta, level) == LevelFrom(delta, 0)
    {
      level := level + 1;
      span := (span * 256) % U64_LIMIT;
      assert level < 7 ==> Span(level + 1) == 256 * Span(level);
      if level < 7 { SpanMonotone(level + 1, 7); }
    }
  }

  class HierarchicalTimeWheel<K(==)> {
    var current: u64
    const wheels: array2<seq<TimerItem<K>>>

    ghost predicate Shape() reads this {
      wheels.Length0 == WHEEL_LEVELS && wheels.Length1 == WHEEL_SIZE
    }

    /** All slots, level by level. */
    ghost function Slots(): seq<seq<TimerItem<K>>>
      requires Shape()
      reads this, wheels
    {
      seq(WHEEL_LEVELS * WHEEL_SIZE, (i: nat) requires i < 2048 reads this, wheels => wheels[i / 256, i % 256])
    }

    /** The abstract contents: the bag of scheduled items. */
    ghost function Items(): multiset<TimerItem<K>>
      requires Shape()
      reads this, wheels
    {
      Bag(Slots())
    }

    /** Every item sits where its expiry says it must. */
    ghost predicate Valid() reads this, wheels {
      Shape() &&
      forall l, s :: 0 <= l < WHEEL_LEVELS && 0 <= s < WHEEL_SIZE ==>
        forall i :: 0 <= i < |wheels[l, s]| ==> Placed(wheels[l, s][i].expireAt, l, s, current)
    }

    /** Levels below `k` are cascaded for the current tick. */
    ghost predicate Cascading(k: nat) reads this, wheels {
      Shape() &&
      forall l, s :: 0 <= l < WHEEL_LEVELS && 0 <= s < WHEEL_SIZE ==>
        forall i :: 0 <= i < |wheels[l, s]| ==> Mid(wheels[l, s][i].expireAt, l, s, current, k)
    }

    lemma ItemAt(l: nat, s: nat, i: nat)
      requires Shape() && l < WHEEL_LEVELS && s < WHEEL_SIZE && i < |wheels[l, s]|
      ensures wheels[l, s][i] in Items()
    {
      assert Slots()[l * 256 + s] == wheels[l, s];
      BagMember(Slots(), wheels[l, s][i]);
    }

    lemma ItemWhere(x: TimerItem<K>) returns (l: nat, s: nat, i: nat)
      requires Shape() && x in Items()
      ensures l < WHEEL_LEVELS && s < WHEEL_SIZE && i < |wheels[l, s]| && wheels[l, s][i] == x
    {
      BagMember(Slots(), x);
      var n :| 0 <= n < |Slots()| && x in Slots()[n];
      l, s := n / 256, n % 256;
      i :| 0 <= i < |wheels[l, s]| && wheels[l, s][i] == x;
    }

    /** In a valid wheel nothing is overdue. */
    lemma NothingOverdue()
      requires Valid()
      ensures forall x :: x in Items() ==> current < x.expireAt
    {
      forall x | x in Items() ensures current < x.expireAt {
        var l, s, i := ItemWhere(x);
        PlacedIsLater(x.expireAt, l, s, current);
      }
    }

    constructor (now: u64)
      ensures Valid() && fresh(wheels) && current == now && Items() == multiset{}
    {
      current := now;
      wheels := new seq<TimerItem<K>>[WHEEL_LEVELS, WHEEL_SIZE]((l, s) => []);
      new;
      BagOfEmpty(Slots());
    }

    /** Replaces the contents of one slot. */
    method SetSlot(l: nat, s: nat, items: seq<TimerItem<K>>)
      requires Shape() && l < WHEEL_LEVELS && s < WHEEL_SIZE
      modifies wheels
      ensures wheels[l, s] == items
      ensures forall m, t :: 0 <= m < WHEEL_LEVELS && 0 <= t < WHEEL_SIZE && (m, t) != (l, s) ==>
                wheels[m, t] == old(wheels[m, t])
      ensures Items() + multiset(old(wheels[l, s])) == old(Items()) + multiset(items)
    {
      ghost var before := Slots();
      wheels[l, s] := items;
      assert Slots() == before[l * 256 + s := items];
      BagUpdate(before, l * 256 + s, items);
    }

    /** Adds an item to the end of one slot. */
    method Push(l: nat, s: nat, item: TimerItem<K>)
      requires Shape() && l < WHEEL_LEVELS && s < WHEEL_SIZE
      modifies wheels
      ensures wheels[l, s] == old(wheels[l, s]) + [item]
      ensures forall m, t :: 0 <= m < WHEEL_LEVELS && 0 <= t < WHEEL_SIZE && (m, t) != (l, s) ==>
                wheels[m, t] == old(wheels[m, t])
      ensures Items() == old(Items()) + multiset{item}
    {
      ghost var was := wheels[l, s];
      SetSlot(l, s, wheels[l, s] + [item]);
      assert multiset(was + [item]) == multiset{item} + multiset(was);
      BagCancel(Items(), old(Items()) + multiset{item}, multiset(was));
    }

    /** Appends the item to the one slot that `Home` names. */
    method Insert(item: TimerItem<K>)
      requires Shape()
      modifies wheels
      ensures Items() == old(Items()) + multiset{item}
      ensures var h := Home(item.expireAt, current);
              && wheels[h.0, h.1] == old(wheels[h.0, h.1]) + [item]
              && forall m, t :: 0 <= m < WHEEL_LEVELS && 0 <= t < WHEEL_SIZE && (m, t) != h ==>
                   wheels[m, t] == old(wheels[m, t])
    {
      if item.expireAt <= current {
        Push(0, SlotFor(current, 0), item);
        return;
      }
      var delta := item.expireAt - current;
      var level := LevelForDelta(delta);
      var slot := SlotFor(item.expireAt, level);
      Push(level, slot, item);
    }

    /** Inserting an item that is not yet due keeps the wheel valid. */
    method Schedule(item: TimerItem<K>)
      requires Valid() && current < item.expireAt
      modifies wheels
      ensures Valid() && Items() == old(Items()) + multiset{item}
    {
      HomePlaced(item.expireAt, current);
      Insert(item);
    }

    method TakeSlot(l: nat, s: nat) returns (items: seq<TimerItem<K>>)
      requires Shape() && l < WHEEL_LEVELS && s < WHEEL_SIZE
      modifies wheels
      ensures items == old(wheels[l, s]) && wheels[l, s] == []
      ensures forall m, t :: 0 <= m < WHEEL_LEVELS && 0 <= t < WHEEL_SIZE && (m, t) != (l, s) ==>
                wheels[m, t] == old(wheels[m, t])
      ensures Items() + multiset(items) == old(Items())
    {
      items := wheels[l, s];
      SetSlot(l, s, []);
    }

    /** Re-inserts one item that falls within the span just begun at `level`. */
    method ReinsertOne(item: TimerItem<K>, level: nat)
      requires 1 <= level < WHEEL_LEVELS && Cascading(level + 1) && current % Span(level) == 0
      requires 0 <= item.expireAt - current < Span(level)
      modifies wheels
      ensures Cascading(level + 1) && Items() == old(Items()) + multiset{item}
    {
      CascadeHome(item.expireAt, level, current);
      Insert(item);
    }

    /** Re-inserts items that fall within the span just begun at `level`. */
    method Reinsert(items: seq<TimerItem<K>>, level: nat)
      requires 1 <= level < WHEEL_LEVELS && Cascading(level + 1) && current % Span(level) == 0
      requires forall i :: 0 <= i < |items| ==> 0 <= items[i].expireAt - current < Span(level)
      modifies wheels
      ensures Cascading(level + 1) && Items() == old(Items()) + multiset(items)
    {
      for n := 0 to |items|
        invariant Cascading(level + 1)
        invariant Items() == old(Items()) + multiset(items[..n])
      {
        ReinsertOne(items[n], level);
        PrefixBag(items, n);
      }
      assert items[..|items|] == items;
    }

    /** Moves the items of the current slot of `level` to lower levels. */
    method Cascade(level: nat)
      requires 1 <= level < WHEEL_LEVELS && Cascading(level) && current % Span(level) == 0
      modifies wheels
      ensures Cascading(level + 1) && Items() == old(Items())
    {
      var slot := SlotFor(current, level);
      var items := TakeSlot(level, slot);
      forall i | 0 <= i < |items| ensures 0 <= items[i].expireAt - current < Span(level) {
        CascadeSlot(items[i].expireAt, level, current);
      }
      forall l, s, i | 0 <= l < WHEEL_LEVELS && 0 <= s < WHEEL_SIZE && 0 <= i < |wheels[l, s]|
        ensures Mid(wheels[l, s][i].expireAt, l, s, current, level + 1)
      {
        LevelDone(wheels[l, s][i].expireAt, l, s, current, level);
      }
      Reinsert(items, level);
    }

    /** The level loop of one tick: cascade while the lower digits are zero. */
    method CascadeLevels() returns (ghost k: nat)
      requires Cascading(1)
      modifies wheels
      ensures 1 <= k <= WHEEL_LEVELS && Cascading(k) && Items() == old(Items())
      ensures k == WHEEL_LEVELS || current % Span(k) != 0
    {
      var level := 1;
      while level < WHEEL_LEVELS
        invariant 1 <= level <= WHEEL_LEVELS && Cascading(level)
        invariant Items() == old(Items())
      {
        if current % Span(level) == 0 {
          Cascade(level);
        } else {
          break;
        }
        level := level + 1;
      }
      k := level;
    }

    /** Fires a drained item that is due, re-inserts one that is not. */
    method FireOrKeep(item: TimerItem<K>, fired: seq<TimerItem<K>>) returns (fired': seq<TimerItem<K>>)
      requires Valid()
      modifies wheels
      ensures Valid()
      ensures fired' == if item.expireAt <= current then fired + [item] else fired
      ensures multiset(fired') + Items() == (multiset(fired) + old(Items())) + multiset{item}
    {
      if item.expireAt <= current {
        fired' := fired + [item];
      } else {
        fired' := fired;
        Schedule(item);
      }
    }

    /** Fires or re-inserts every drained item. */
    method Resettle(pending: seq<TimerItem<K>>) returns (fired: seq<TimerItem<K>>)
      requires Valid()
      modifies wheels
      ensures Valid() && multiset(fired) + Items() == old(Items()) + multiset(pending)
      ensures forall i :: 0 <= i < |fired| ==> fired[i] in pending && fired[i].expireAt <= current
    {
      fired := [];
      ghost var base := Items();
      for n := 0 to |pending|
        invariant Valid() && multiset(fired) + Items() == base + multiset(pending[..n])
        invariant forall i :: 0 <= i < |fired| ==> fired[i] in pending && fired[i].expireAt <= current
      {
        fired := FireOrKeep(pending[n], fired);
        PrefixBag(pending, n);
        BagAssoc(base, multiset(pending[..n]), multiset{pending[n]});
      }
      assert pending[..|pending|] == pending;
    }

    /** One tick: fires exactly the items whose expiry is the new time. */
    method Tick() returns (fired: seq<TimerItem<K>>)
      requires Valid() && current + 1 < U64_LIMIT
      modifies this`current, wheels
      ensures Valid() && current == old(current) + 1
      ensures multiset(fired) + Items() == old(Items())
      ensures forall i :: 0 <= i < |fired| ==> fired[i].expireAt == current
    {
      ghost var c := current;
      ghost var all := Items();
      current := current + 1;
      forall l, s, i | 0 <= l < WHEEL_LEVELS && 0 <= s < WHEEL_SIZE && 0 <= i < |wheels[l, s]|
        ensures Mid(wheels[l, s][i].expireAt, l, s, current, 1)
      {
        TickLoosens(wheels[l, s][i].expireAt, l, s, c);
      }
      assert Slots() == old(Slots());
      ghost var k := CascadeLevels();
      fired := DrainDue(k);
    }

    method DrainDue(ghost k: nat) returns (fired: seq<TimerItem<K>>)
      requires Cascading(k) && (k == WHEEL_LEVELS || current % Span(k) != 0)
      modifies wheels
      ensures Valid()
      ensures multiset(fired) + Items() == old(Items())
      ensures forall i :: 0 <= i < |fired| ==> fired[i].expireAt == current
    {
      var slot := SlotFor(current, 0);
      forall l, s, i | 0 <= l < WHEEL_LEVELS && 0 <= s < WHEEL_SIZE && 0 <= i < |wheels[l, s]|
        ensures (l, s) == (0, slot) ==> wheels[l, s][i].expireAt == current
        ensures (l, s) != (0, slot) ==> Placed(wheels[l, s][i].expireAt, l, s, current)
      {
        CascadeStops(wheels[l, s][i].expireAt, l, s, current, k);
      }
      var due := TakeSlot(0, slot);
      assert Valid();
      fired := Resettle(due);
    }

    /** Empties one level. */
    method TakeLevel(level: nat) returns (pending: seq<TimerItem<K>>)
      requires Shape() && level < WHEEL_LEVELS
      modifies wheels
      ensures multiset(pending) + Items() == old(Items())
      ensures forall l, s :: 0 <= l < WHEEL_LEVELS && 0 <= s < WHEEL_SIZE ==>
                wheels[l, s] == if l == level then [] else old(wheels[l, s])
    {
      pending := [];
      for slot := 0 to WHEEL_SIZE
        invariant multiset(pending) + Items() == old(Items())
        invariant forall l, s :: 0 <= l < WHEEL_LEVELS && 0 <= s < WHEEL_SIZE ==>
                    wheels[l, s] == if l == level && s < slot then [] else old(wheels[l, s])
      {
        ghost var before, had := Items(), pending;
        var items := TakeSlot(level, slot);
        pending := pending + items;
        assert multiset(pending) + Items() == multiset(had) + (Items() + multiset(items));
      }
    }

    /** Empties every level in turn. */
    method TakeAll() returns (pending: seq<TimerItem<K>>)
      requires Shape()
      modifies wheels
      ensures multiset(pending) == old(Items()) && Items() == multiset{}
      ensures forall l, s :: 0 <= l < WHEEL_LEVELS && 0 <= s < WHEEL_SIZE ==> wheels[l, s] == []
    {
      pending := [];
      for level := 0 to WHEEL_LEVELS
        invariant multiset(pending) + Items() == old(Items())
        invariant forall l, s :: 0 <= l < level && 0 <= s < WHEEL_SIZE ==> wheels[l, s] == []
      {
        ghost var had := pending;
        var items := TakeLevel(level);
        pending := pending + items;
        assert multiset(pending) + Items() == multiset(had) + (multiset(items) + Items());
      }
      BagOfEmpty(Slots());
    }

    /** The bulk path: empty the wheel, fire what is due, re-insert the rest. */
    method AdvanceLarge(now: u64) returns (fired: seq<TimerItem<K>>)
      requires Valid() && current < now
      modifies this`current, wheels
      ensures Valid() && Advances(old(current), old(Items()), now, current, Items(), fired)
    {
      current := now;
      assert Slots() == old(Slots());
      var pending := TakeAll();
      fired := Resettle(pending);
      assert multiset{} + multiset(pending) == multiset(pending);
      NothingOverdue();
    }

    /** The tick path, one tick at a time up to `now`. */
    method AdvanceByTicks(now: u64) returns (fired: seq<TimerItem<K>>)
      requires Valid() && current < now
      modifies this`current, wheels
      ensures Valid() && Advances(old(current), old(Items()), now, current, Items(), fired)
      ensures InExpiryOrder(fired)
    {
      fired := [];
      while current < now
        invariant Valid() && current <= now
        invariant multiset(fired) + Items() == old(Items())
        invariant InExpiryOrder(fired)
        invariant forall i :: 0 <= i < |fired| ==> fired[i].expireAt <= current
      {
        var due := Tick();
        fired := fired + due;
      }
      NothingOverdue();
    }

    method AdvanceTo(now: u64) returns (fired: seq<TimerItem<K>>)
      requires Valid()
      modifies this`current, wheels
      ensures Valid() && Advances(old(current), old(Items()), now, current, Items(), fired)
      ensures now - old(current) <= LARGE_ADVANCE_THRESHOLD ==> InExpiryOrder(fired)
    {
      if now <= current {
        return [];
      }
      if now - current > LARGE_ADVANCE_THRESHOLD {
        fired := AdvanceLarge(now);
        return;
      }
      fired := AdvanceByTicks(now);
    }

    /** Is some item due by `now` whose timer is still current? */
    method HasDue(now: u64, isCurrent: (K, u64) -> bool) returns (due: bool)
      requires Shape()
      ensures due <==> exists x :: x in Items() && x.expireAt <= now && isCurrent(x.key, x.expireAt)
    {
      for level := 0 to WHEEL_LEVELS
        invariant forall l, s, i :: 0 <= l < level && 0 <= s < WHEEL_SIZE && 0 <= i < |wheels[l, s]| ==>
                    var x := wheels[l, s][i]; !(x.expireAt <= now && isCurrent(x.key, x.expireAt))
      {
        for slot := 0 to WHEEL_SIZE
          invariant forall s, i :: 0 <= s < slot && 0 <= i < |wheels[level, s]| ==>
                      var x := wheels[level, s][i]; !(x.expireAt <= now && isCurrent(x.key, x.expireAt))
        {
          var items := wheels[level, slot];
          for n := 0 to |items|
            invariant forall i :: 0 <= i < n ==>
                        !(items[i].expireAt <= now && isCurrent(items[i].key, items[i].expireAt))
          {
            if items[n].expireAt <= now && isCurrent(items[n].key, items[n].expireAt) {
              ItemAt(level, slot, n);
              return true;
            }
          }
        }
      }
      forall x | x in Items() ensures !(x.expireAt <= now && isCurrent(x.key, x.expireAt)) {
        var l, s, i := ItemWhere(x);
      }
      return false;
    }
  }
}
