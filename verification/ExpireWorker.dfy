/** The expiry worker run to completion over the real time wheel, with no
    other thread in between: what one command does to the map. */
module ExpireWorker {
  import opened Machine
  import opened TimerBag
  import opened TimeWheel
  import opened CacheModel

  /** A map whose timers are all still to come is its own live view. */
  lemma AllLaterIsView(store: map<Key, Entry>, now: u64)
    requires forall t: Timer :: HasTimer(store, t) ==> now < t.expireAt
    ensures View(store, now) == store
  {
    forall k | k in store ensures !ExpiredAt(store[k], now) {
      if store[k].expireAt.Some? { assert HasTimer(store, TimerItem(k, store[k].expireAt.value)); }
    }
  }

  /** Timers that fired have lost their entries; the others are still held. */
  lemma StillHeld(before: map<Key, Entry>, after: map<Key, Entry>, had: multiset<Timer>, kept: multiset<Timer>,
                  fired: seq<Timer>, now: u64, pending: seq<Timer>)
    requires forall t: Timer :: HasTimer(after, t) <==> HasTimer(before, t) && !(t in fired && t.expireAt <= now)
    requires (forall x :: x in had <==> x in fired || x in kept) && forall x :: x in fired ==> x.expireAt <= now
    requires forall t: Timer :: HasTimer(before, t) ==> t in had || t in pending
    ensures forall t: Timer :: HasTimer(after, t) ==> t in kept || t in pending
  {
  }

  class Expirer {
    var store: map<Key, Entry>
    const wheel: HierarchicalTimeWheel<Key>

    ghost predicate Valid()
      reads this, wheel, wheel.wheels
    {
      wheel.Valid()
    }

    /** Every volatile entry has its timer in the wheel or among `ts`. */
    ghost predicate Tracked(ts: seq<Timer>)
      requires Valid()
      reads this, wheel, wheel.wheels
    {
      forall t: Timer :: HasTimer(store, t) ==> t in wheel.Items() || t in ts
    }

    constructor (now: u64)
      ensures Valid() && fresh(wheel) && fresh(wheel.wheels)
      ensures store == map[] && wheel.current == now && Tracked([])
    {
      store := map[];
      wheel := new HierarchicalTimeWheel<Key>(now);
    }

    /** The expiry callbacks, one per fired timer, in order. */
    method RunCallbacks(fired: seq<Timer>, now: u64)
      modifies this`store
      ensures forall t: Timer :: HasTimer(store, t) <==> HasTimer(old(store), t) && !(t in fired && t.expireAt <= now)
      ensures View(store, now) == View(old(store), now)
    {
      for n := 0 to |fired|
        invariant forall t: Timer :: HasTimer(store, t) <==>
                    HasTimer(old(store), t) && !(t in fired[..n] && t.expireAt <= now)
        invariant View(store, now) == View(old(store), now)
      {
        ghost var before := store;
        store := DropIfCurrent(store, fired[n], now);
        assert View(store, now) == View(before, now);
        assert fired[..n + 1] == fired[..n] + [fired[n]];
      }
      assert fired[..|fired|] == fired;
    }

    /** Advancing never touches a live entry. If every volatile entry had a
        timer in the wheel, what remains is exactly the live view. */
    method AdvanceWheel(now: u64, ghost pending: seq<Timer>)
      requires Valid()
      modifies this`store, wheel`current, wheel.wheels
      ensures Valid()
      ensures wheel.current == if old(wheel.current) <= now then now else old(wheel.current)
      ensures View(store, now) == View(old(store), now)
      ensures old(Tracked(pending)) ==> Tracked(pending)
      ensures old(Tracked([])) ==> store == View(old(store), now)
    {
      ghost var c, had := wheel.current, wheel.Items();
      var fired := wheel.AdvanceTo(now);
      AdvancesMembers(c, had, now, wheel.current, wheel.Items(), fired);
      ghost var before := store;
      RunCallbacks(fired, now);
      wheel.NothingOverdue();
      if old(Tracked(pending)) {
        StillHeld(before, store, had, wheel.Items(), fired, now, pending);
      }
      if old(Tracked([])) {
        StillHeld(before, store, had, wheel.Items(), fired, now, []);
        AllLaterIsView(store, now);
      }
    }

    /** One item of `Schedule` or `ScheduleBatch`. */
    method PlaceOne(item: Timer, now: u64, ghost rest: seq<Timer>)
      requires Valid() && wheel.current <= now
      modifies this`store, wheel.wheels
      ensures Valid()
      ensures View(store, now) == View(old(store), now)
      ensures old(Tracked([item] + rest)) ==> Tracked(rest)
    {
      if item.expireAt <= now {
        store := DropIfCurrent(store, item, now);
        assert View(store, now) == View(old(store), now);
      } else {
        wheel.Schedule(item);
      }
    }

    method PlaceAll(items: seq<Timer>, now: u64)
      requires Valid() && wheel.current <= now
      modifies this`store, wheel.wheels
      ensures Valid()
      ensures View(store, now) == View(old(store), now)
      ensures old(Tracked(items)) ==> Tracked([])
    {
      assert items[0..] == items;
      for n := 0 to |items|
        invariant Valid()
        invariant View(store, now) == View(old(store), now)
        invariant old(Tracked(items)) ==> Tracked(items[n..])
      {
        assert items[n..] == [items[n]] + items[n + 1..];
        PlaceOne(items[n], now, items[n + 1..]);
      }
    }

    /** `handle_expire_command` at clock `now`, which is never behind the wheel
        because the clock never goes back. No live entry is touched; and if the
        timers in `cmd` were all that the wheel did not yet know, the wheel
        then knows every timer and its answers are exact. */
    method HandleExpireCommand(cmd: Command, now: u64) returns (due: bool)
      requires Valid() && wheel.current <= now
      modifies this`store, wheel`current, wheel.wheels
      ensures Valid() && wheel.current <= now
      ensures View(store, now) == View(old(store), now)
      ensures old(Tracked(CommandTimers(cmd))) ==> Tracked([])
      ensures old(Tracked([])) && (cmd.Advance? || cmd.AdvanceAndWait?) ==> store == View(old(store), now)
      ensures cmd.HasExpired? ==> store == old(store)
      ensures cmd.HasExpired? && Tracked([]) ==> (due <==> exists k :: k in store && ExpiredAt(store[k], cmd.localNow))
    {
      due := false;
      if cmd.HasExpired? {
        due := AnswerDue(cmd.localNow);
        return;
      }
      AdvanceWheel(now, CommandTimers(cmd));
      if cmd.Schedule? {
        PlaceAll([cmd.item], now);
      } else if cmd.ScheduleBatch? {
        PlaceAll(cmd.items, now);
      }
    }

    /** `HasExpiredByLocalClock`: scan the wheel, check each timer's currency. */
    method AnswerDue(localNow: u64) returns (due: bool)
      requires Valid()
      ensures due ==> exists k :: k in store && ExpiredAt(store[k], localNow)
      ensures Tracked([]) ==> (due <==> exists k :: k in store && ExpiredAt(store[k], localNow))
    {
      var entries := store;
      due := wheel.HasDue(localNow, (k, at) => k in entries && entries[k].expireAt == Some(at));
      if k :| k in store && ExpiredAt(store[k], localNow) {
        assert HasTimer(store, TimerItem(k, store[k].expireAt.value)) ==>
                 (Tracked([]) ==> TimerItem(k, store[k].expireAt.value) in wheel.Items());
      }
    }
  }
}
