/** KEYS against the cache. */
module CacheKeys {
  import opened Machine
  import opened Glob
  import opened CacheModel

  /** `get_with_read_clock` when the write clock reads `now`. */
  function GetWithReadClock(store: map<Key, Entry>, key: Key, now: u64, readClock: Option<u64>): Option<Entry> {
    match AliveAt(store, key, now)
    case None => None
    case Some(e) =>
      if e.expireAt.Some? && readClock.Some? && e.expireAt.value <= readClock.value then None else Some(e)
  }

  /** `keys` with one fixed write clock: of all stored keys, in iteration order,
      exactly those that match and that a read would find, each once. It panics exactly
      when the matcher panics on a key that a read would find. */
  method Keys(store: map<Key, Entry>, order: seq<Key>, pattern: bytes, now: u64, readClock: Option<u64>)
    returns (listed: Option<seq<Key>>)
    requires forall k :: k in order <==> k in store
    requires forall i, j :: 0 <= i < j < |order| ==> order[i] != order[j]
    ensures listed.Some? ==> forall i, j :: 0 <= i < j < |listed.value| ==> listed.value[i] != listed.value[j]
    ensures listed.Some? ==>
              forall k :: k in listed.value <==>
                          GetWithReadClock(store, k, now, readClock).Some? && GlobMatch(pattern, k) == Yes
    ensures listed.None? <==>
              exists k :: k in order && GetWithReadClock(store, k, now, readClock).Some? && GlobMatch(pattern, k) == Panic
  {
    hide GlobMatch;
    var found: seq<Key> := [];
    for i := 0 to |order|
      invariant forall k :: k in found <==>
                  k in order[..i] && GetWithReadClock(store, k, now, readClock).Some? && GlobMatch(pattern, k) == Yes
      invariant forall j, l :: 0 <= j < l < |found| ==> found[j] != found[l]
      invariant forall k :: k in order[..i] && GetWithReadClock(store, k, now, readClock).Some? ==>
                  GlobMatch(pattern, k) != Panic
    {
      var key := order[i];
      assert order[..i + 1] == order[..i] + [key];
      assert key in order;
      var entry := store[key];
      if entry.expireAt.Some? && (now >= entry.expireAt.value || (readClock.Some? && readClock.value >= entry.expireAt.value)) {
        continue;
      }
      var m := GlobMatch(pattern, key);
      if m == Panic {
        return None;
      }
      if m == Yes {
        found := found + [key];
      }
    }
    assert order[..|order|] == order;
    return Some(found);
  }

  /** A read with a read clock finds the plain map's entry at the later of the
      two clocks. */
  lemma ReadClockHides(store: map<Key, Entry>, key: Key, now: u64, readClock: Option<u64>)
    ensures var later := if readClock.Some? && now < readClock.value then readClock.value else now;
            var view := View(store, later);
            GetWithReadClock(store, key, now, readClock) == if key in view then Some(view[key]) else None
  {
  }

  /** On patterns with closed brackets, KEYS lists the keys of the plain map, at
      the later of the two clocks, that the declarative pattern semantics
      admits. */
  lemma KeysAreViewKeys(store: map<Key, Entry>, pattern: bytes, now: u64, readClock: Option<u64>, k: Key)
    requires Tokens(pattern, 0).Some?
    ensures var later := if readClock.Some? && now < readClock.value then readClock.value else now;
            GetWithReadClock(store, k, now, readClock).Some? && GlobMatch(pattern, k) == Yes <==>
            k in View(store, later) && Matches(Tokens(pattern, 0).value, k)
  {
    ReadClockHides(store, k, now, readClock);
    MatcherIsDeclarative(pattern, k);
  }
}
