/** The cache refines a plain map filtered by time; expiry machinery is
    invisible, except for the exact races stated at the end. */
module CacheRefinement {
  import opened Machine
  import opened TimerBag
  import opened CacheModel
  import opened CacheSafety

  /** The specification: a plain map whose dead entries are simply absent. */
  datatype Plain = Plain(view: map<Key, Entry>, clock: u64)

  datatype PlainStep =
    | Stutter
    | Put(key: Key, entry: Entry)
    | Delete(key: Key)
    | DeleteAll
    | Tick(to: u64)

  function Abs(s: State): Plain {
    Plain(View(s.store, s.clock), s.clock)
  }

  function Next(p: Plain, st: PlainStep): Plain {
    match st
    case Stutter => p
    case Put(key, entry) => p.(view := View(p.view[key := entry], p.clock))
    case Delete(key) => p.(view := p.view - {key})
    case DeleteAll => p.(view := map[])
    case Tick(to) => Plain(View(p.view, LaterOf(p.clock, to)), LaterOf(p.clock, to))
  }

  function ActMeaning(s: State, p: Client, act: Act): PlainStep
    requires ActEnabled(p, act)
  {
    match act
    case WriteEntry => Put(p.key, p.entry)
    case ApplyRemove => Delete(p.key)
    case ApplyExpiry =>
      if p.key in s.store && !ExpiredAt(s.store[p.key], p.now)
      then Put(p.key, Entry(s.store[p.key].value, ResolveExpireAt(p.policy, s.clock))) else Stutter
    case ApplyUnlink => if Unlinks(s.store, p.key, p.now) then Delete(p.key) else Stutter
    case UnlinkNext => if Unlinks(s.store, p.keys[0], p.now) then Delete(p.keys[0]) else Stutter
    case Clear => DeleteAll
    case _ => Stutter
  }

  /** The plain-map step that an event stands for. Worker events, stale
      timers, lookups and lazy removals all stand for nothing. */
  function Meaning(s: State, ev: Event): PlainStep
    requires Enabled(s, ev)
  {
    match ev
    case ClockSet(to) => Tick(to)
    case ByClient(c, act) => ActMeaning(s, ClientAt(s, c), act)
    case ByWorker(_) => Stutter
  }

  /** Dropping an entry that is due changes nothing anyone can see. */
  lemma DropInvisible(store: map<Key, Entry>, t: Timer, now: u64, clock: u64)
    requires now <= clock
    ensures View(DropIfCurrent(store, t, now), clock) == View(store, clock)
  {
  }

  lemma UnlinkVisible(store: map<Key, Entry>, key: Key, now: u64, clock: u64)
    requires now <= clock
    ensures View(UnlinkIn(store, key, now), clock) ==
            if Unlinks(store, key, now) then View(store, clock) - {key} else View(store, clock)
  {
  }

  lemma ExpiryVisible(s: State, c: nat)
    requires InTime(s) && ClientAt(s, c).SettingExpiry?
    ensures Abs(ApplyAct(s, c, ApplyExpiry)) == Next(Abs(s), ActMeaning(s, ClientAt(s, c), ApplyExpiry))
  {
    var p := ClientAt(s, c);
    var e := ExpiryEffect(s.store, s.clock, p.key, p.policy, p.now);
    assert ClientOk(p, s.clock);
    if p.key in s.store && ExpiredAt(s.store[p.key], p.now) {
      assert View(e.store, s.clock) == View(s.store, s.clock);
    } else if p.key in s.store {
      var entry := Entry(s.store[p.key].value, ResolveExpireAt(p.policy, s.clock));
      assert View(e.store, s.clock) == View(View(s.store, s.clock)[p.key := entry], s.clock);
    }
  }

  lemma ActRefines(s: State, c: nat, act: Act)
    requires InTime(s) && ActEnabled(ClientAt(s, c), act)
    ensures Abs(ApplyAct(s, c, act)) == Next(Abs(s), ActMeaning(s, ClientAt(s, c), act))
  {
    var p := ClientAt(s, c);
    assert ClientOk(p, s.clock);
    match act
    case WriteEntry =>
      assert View(s.store[p.key := p.entry], s.clock) ==
             View(View(s.store, s.clock)[p.key := p.entry], s.clock);
    case ApplyRemove => assert View(s.store - {p.key}, s.clock) == View(s.store, s.clock) - {p.key};
    case Reap => DropInvisible(s.store, TimerItem(p.key, p.at), p.now, s.clock);
    case ApplyExpiry => ExpiryVisible(s, c);
    case ApplyUnlink => UnlinkVisible(s.store, p.key, p.now, s.clock);
    case UnlinkNext => UnlinkVisible(s.store, p.keys[0], p.now, s.clock);
    case Clear => assert View(map[], s.clock) == map[];
    case _ =>
  }

  lemma WorkRefines(s: State, work: Work)
    requires InTime(s) && WorkEnabled(s, work)
    ensures Abs(ApplyWork(s, work)) == Abs(s)
  {
    match work
    case Fire => DropInvisible(s.store, s.worker.todo[0], s.worker.now, s.clock);
    case DropNext => DropInvisible(s.store, s.worker.rest[0], s.worker.now, s.clock);
    case _ =>
  }

  /** Every event of the cache is the plain-map step it stands for. */
  lemma StepRefines(s: State, ev: Event)
    requires Inv(s) && Enabled(s, ev)
    ensures Abs(Apply(s, ev)) == Next(Abs(s), Meaning(s, ev))
  {
    match ev
    case ClockSet(to) =>
      assert View(s.store, LaterOf(s.clock, to)) == View(View(s.store, s.clock), LaterOf(s.clock, to));
    case ByClient(c, act) => ActRefines(s, c, act);
    case ByWorker(work) => WorkRefines(s, work);
  }

  /** Hence every run of the cache is a run of the plain map. */
  lemma {:induction false} RunRefines(states: seq<State>, evs: seq<Event>, i: nat)
    requires IsRun(states, evs) && Inv(states[0]) && i < |evs|
    ensures Inv(states[i]) && Abs(states[i + 1]) == Next(Abs(states[i]), Meaning(states[i], evs[i]))
  {
    RunInv(states, evs, i);
    StepRefines(states[i], evs[i]);
  }

  // ---- Reads and races -----------------------------------------------------

  function PlainGet(view: map<Key, Entry>, key: Key): Option<Entry> {
    if key in view then Some(view[key]) else None
  }

  /** The entry expired between the caller's clock reading and its map access. */
  predicate Overtaken(store: map<Key, Entry>, key: Key, now: u64, clock: u64) {
    key in store && store[key].expireAt.Some? && now < store[key].expireAt.value <= clock
  }

  /** The answer an operation would get from the plain map. */
  function PlainAnswer(p: Plain, client: Client, act: Act): Answer
    requires ActEnabled(client, act) && Settles(act)
  {
    match act
    case Lookup => Found(PlainGet(p.view, client.key))
    case ApplyRemove => Removed(PlainGet(p.view, client.key))
    case ApplyExpiry =>
      Updated(if client.key !in p.view then None
              else Some(Entry(p.view[client.key].value, ResolveExpireAt(client.policy, p.clock))))
    case ApplyUnlink => Unlinked(if client.key in p.view then 1 else 0)
  }

  /** The accesses that settle the answer of an operation on one key. */
  predicate Settles(act: Act) {
    act.Lookup? || act.ApplyRemove? || act.ApplyExpiry? || act.ApplyUnlink?
  }

  /** `get_entry`, `remove_entry`, `set_expire_policy` and `unlink` answer from
      the plain map exactly when the entry was not overtaken by the clock. */
  lemma AnswersExact(s: State, c: nat, act: Act)
    requires InTime(s) && ActEnabled(ClientAt(s, c), act) && Settles(act)
    ensures var p := ClientAt(s, c);
            ActEffect(s.store, s.clock, p, act).answer == PlainAnswer(Abs(s), p, act)
            <==> !Overtaken(s.store, p.key, p.now, s.clock)
  {
    var p := ClientAt(s, c);
    assert ClientOk(p, s.clock);
    assert p.key in View(s.store, s.clock) <==> p.key in s.store && !ExpiredAt(s.store[p.key], s.clock);
  }

  function PlainSetExpiry(p: Plain, key: Key, policy: Policy): PlainStep {
    if key in p.view then Put(key, Entry(p.view[key].value, ResolveExpireAt(policy, p.clock))) else Stutter
  }

  /** `set_expire_policy` acts on the plain map exactly when it does not bring
      an entry back that the clock has overtaken, and acts and answers like the
      plain map exactly when no entry was overtaken. */
  lemma SetExpiryExact(s: State, c: nat)
    requires InTime(s) && ClientAt(s, c).SettingExpiry?
    ensures var p := ClientAt(s, c);
            Abs(ApplyAct(s, c, ApplyExpiry)) == Next(Abs(s), PlainSetExpiry(Abs(s), p.key, p.policy))
            <==> !(Overtaken(s.store, p.key, p.now, s.clock)
                   && !ExpiredAt(Entry([], ResolveExpireAt(p.policy, s.clock)), s.clock))
    ensures var p := ClientAt(s, c);
            && Abs(ApplyAct(s, c, ApplyExpiry)) == Next(Abs(s), PlainSetExpiry(Abs(s), p.key, p.policy))
            && ActEffect(s.store, s.clock, p, ApplyExpiry).answer == PlainAnswer(Abs(s), p, ApplyExpiry)
            <==> !Overtaken(s.store, p.key, p.now, s.clock)
  {
    AnswersExact(s, c, ApplyExpiry);
    ExpiryVisible(s, c);
    var p := ClientAt(s, c);
    assert ClientOk(p, s.clock);
    if Overtaken(s.store, p.key, p.now, s.clock) {
      var e := Entry(s.store[p.key].value, ResolveExpireAt(p.policy, s.clock));
      var view := View(s.store, s.clock);
      assert p.key !in view;
      if ExpiredAt(e, s.clock) {
        assert View(view[p.key := e], s.clock) == view;
      } else {
        assert p.key in View(view[p.key := e], s.clock);
      }
    }
  }

  /** From every state with two idle clients, an overtaken read can return an
      entry that was alive in no state of the run. */
  lemma StaleReadRun(s: State, c: nat, d: nat, key: Key, value: Payload, at: u64)
    returns (states: seq<State>, evs: seq<Event>)
    requires c != d && ClientAt(s, c).Ready? && ClientAt(s, d).Ready? && key !in s.store && s.clock < at
    ensures IsRun(states, evs) && |states| == 5 && states[0] == s
    ensures forall i :: 0 <= i < |states| ==> key !in Abs(states[i]).view
    ensures var last := states[4];
            && ClientAt(last, c) == Reading(key, s.clock)
            && ActEffect(last.store, last.clock, ClientAt(last, c), Lookup).answer == Found(Some(Entry(value, Some(at))))
  {
    evs := [ByClient(c, BeginGet(key)), ClockSet(at), ByClient(d, BeginInsert(key, value, Absolute(at))), ByClient(d, WriteEntry)];
    var s1 := ReadsClock(s, c, key);
    var s2 := s1.(clock := at);
    var s3, s4 := WritesExpired(s2, d, key, value, at);
    assert Apply(s1, evs[1]) == s2;
    states := [s, s1, s2, s3, s4];
    assert s4.store[key] == Entry(value, Some(at));
  }

  lemma ReadsClock(s: State, c: nat, key: Key) returns (s': State)
    requires ClientAt(s, c).Ready?
    ensures s' == Apply(s, ByClient(c, BeginGet(key)))
    ensures s'.store == s.store && s'.clock == s.clock && s'.clients == s.clients[c := Reading(key, s.clock)]
  {
    s' := Apply(s, ByClient(c, BeginGet(key)));
  }

  lemma WritesExpired(s: State, d: nat, key: Key, value: Payload, at: u64) returns (s1: State, s2: State)
    requires ClientAt(s, d).Ready?
    ensures var ev := ByClient(d, BeginInsert(key, value, Absolute(at)));
            Enabled(s, ev) && s1 == Apply(s, ev)
    ensures Enabled(s1, ByClient(d, WriteEntry)) && s2 == Apply(s1, ByClient(d, WriteEntry))
    ensures s1.store == s.store && s1.clock == s2.clock == s.clock
    ensures s2.store == s.store[key := Entry(value, Some(at))]
    ensures forall c :: c != d ==> ClientAt(s2, c) == ClientAt(s, c)
  {
    s1 := Apply(s, ByClient(d, BeginInsert(key, value, Absolute(at))));
    s2 := Apply(s1, ByClient(d, WriteEntry));
  }

  /** Likewise, from every state with a live volatile entry, `set_expire_policy`
      can bring that entry back after it has died. */
  lemma ResurrectionRun(s: State, c: nat, key: Key) returns (states: seq<State>, evs: seq<Event>)
    requires ClientAt(s, c).Ready? && key in Abs(s).view && Abs(s).view[key].expireAt.Some?
    ensures IsRun(states, evs) && |states| == 4 && states[0] == s
    ensures states[2].clock == states[3].clock
    ensures key !in Abs(states[2]).view && key in Abs(states[3]).view
  {
    var at := s.store[key].expireAt.value;
    evs := [ByClient(c, BeginSetExpiry(key, Persistent)), ClockSet(at), ByClient(c, ApplyExpiry)];
    var s1 := Apply(s, evs[0]);
    var s2 := Apply(s1, evs[1]);
    assert ClientAt(s2, c) == SettingExpiry(key, Persistent, s.clock);
    var s3 := Apply(s2, evs[2]);
    states := [s, s1, s2, s3];
    assert s3.store[key] == Entry(s.store[key].value, None);
  }
}
