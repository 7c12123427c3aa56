/** How long an entry lives, counted from the clock readings of the operation
    that gave it its policy. */
module CacheLifetime {
  import opened Machine
  import opened CacheModel
  import opened CacheSafety
  import opened CacheRefinement
  import opened CacheAnswers

  /** A client access that writes, removes or unlinks the key. */
  predicate Touches(s: State, ev: Event, key: Key) {
    ev.ByClient? &&
    var p := ClientAt(s, ev.c);
    match ev.act
    case WriteEntry => p.Inserting? && p.key == key
    case ApplyExpiry => p.SettingExpiry? && p.key == key
    case ApplyRemove => p.Removing? && p.key == key
    case ApplyUnlink => p.Unlinking? && p.key == key
    case UnlinkNext => p.UnlinkingBatch? && p.keys != [] && p.keys[0] == key
    case Clear => true
    case _ => false
  }

  ghost predicate Untouched(states: seq<State>, evs: seq<Event>, key: Key, i: nat, j: nat)
    requires |states| == |evs| + 1 && j <= |evs|
  {
    forall x :: i <= x < j ==> !Touches(states[x], evs[x], key)
  }

  /** Where the clock stands, is an entry that got this policy at clock `start`
      still alive? */
  predicate Lasts(policy: Policy, start: u64, clock: u64) {
    match policy
    case Persistent => true
    case Absolute(at) => clock < at
    case Ttl(ttl) => if start + ttl < U64_LIMIT then clock < start + ttl else clock < U64_LIMIT - 1
  }

  /** What is left at a clock of an entry that may be there. */
  function Alive(e: Option<Entry>, clock: u64): Option<Entry> {
    if e.Some? && !ExpiredAt(e.value, clock) then e else None
  }

  /** Steps that do not touch a key only ever let it expire. */
  lemma UntouchedStep(s: State, ev: Event, key: Key)
    requires Inv(s) && Enabled(s, ev) && !Touches(s, ev, key)
    ensures var s' := Apply(s, ev);
            s.clock <= s'.clock && PlainGet(Abs(s').view, key) == Alive(PlainGet(Abs(s).view, key), s'.clock)
  {
    StepRefines(s, ev);
    assert forall k :: k in Abs(s).view ==> !ExpiredAt(Abs(s).view[k], s.clock);
  }

  lemma AliveTwice(e: Entry, early: u64, late: u64)
    requires early <= late
    ensures Alive(Alive(Some(e), early), late) == Alive(Some(e), late)
  {
  }

  lemma {:induction false} UntouchedRun(states: seq<State>, evs: seq<Event>, key: Key, e: Entry, i: nat, j: nat)
    requires IsRun(states, evs) && Inv(states[0]) && i <= j <= |evs| && Untouched(states, evs, key, i, j)
    requires PlainGet(Abs(states[i]).view, key) == Alive(Some(e), states[i].clock)
    ensures PlainGet(Abs(states[j]).view, key) == Alive(Some(e), states[j].clock)
    decreases j
  {
    hide Abs, Apply, Enabled, Touches, Inv, Alive, PlainGet;
    if i < j {
      UntouchedRun(states, evs, key, e, i, j - 1);
      RunInv(states, evs, j - 1);
      NextState(states, evs, j - 1);
      UntouchedStep(states[j - 1], evs[j - 1], key);
      AliveTwice(e, states[j - 1].clock, states[j].clock);
    }
  }

  // ---- Insertion -----------------------------------------------------------------

  lemma InsertBegins(s: State, c: nat, key: Key, value: Payload, policy: Policy)
    requires Enabled(s, ByClient(c, BeginInsert(key, value, policy)))
    ensures var p := ClientAt(Apply(s, ByClient(c, BeginInsert(key, value, policy))), c);
            && p.Inserting? && p.key == key && p.entry.value == value
            && forall clock: u64 :: ExpiredAt(p.entry, clock) <==> !Lasts(policy, s.clock, clock)
  {
  }

  lemma {:induction false} ClientWaits(states: seq<State>, evs: seq<Event>, c: nat, i: nat, j: nat)
    requires IsRun(states, evs) && i <= j <= |evs| && forall x :: i <= x < j ==> !Acts(evs[x], c)
    ensures ClientAt(states[j], c) == ClientAt(states[i], c)
    decreases j
  {
    if i < j {
      hide Apply, Enabled, ClientAt;
      ClientWaits(states, evs, c, i, j - 1);
      NextState(states, evs, j - 1);
      OthersLeave(states[j - 1], evs[j - 1], c);
    }
  }

  lemma WriteStores(s: State, c: nat)
    requires Enabled(s, ByClient(c, WriteEntry))
    ensures var p, s' := ClientAt(s, c), Apply(s, ByClient(c, WriteEntry));
            && s'.clock == s.clock
            && PlainGet(Abs(s').view, p.key) == Alive(Some(p.entry), s.clock)
  {
  }

  /** In every run, an inserted entry is in the plain map, with its value, exactly
      as long as its policy says, counted from the insert's clock reading, until
      somebody writes, removes or unlinks its key; and that entry is the answer. */
  lemma InsertLives(states: seq<State>, evs: seq<Event>, c: nat, key: Key, value: Payload, policy: Policy,
                    i: nat, j: nat, m: nat)
    requires IsRun(states, evs) && Inv(states[0]) && i < j < m <= |evs|
    requires evs[i] == ByClient(c, BeginInsert(key, value, policy)) && evs[j] == ByClient(c, WriteEntry)
    requires (forall x :: i < x < j ==> !Acts(evs[x], c)) && Untouched(states, evs, key, j + 1, m)
    ensures key in Abs(states[m]).view <==> Lasts(policy, states[i].clock, states[m].clock)
    ensures key in Abs(states[m]).view ==> Abs(states[m]).view[key].value == value
    ensures ClientAt(states[j], c).Inserting?
    ensures var answer := ActEffect(states[j].store, states[j].clock, ClientAt(states[j], c), WriteEntry).answer;
            && answer.Stored? && answer.snapshot.value == value
            && forall clock: u64 ::
                 (answer.snapshot.expireAt.None? || clock < answer.snapshot.expireAt.value) <==>
                 Lasts(policy, states[i].clock, clock)
  {
    hide Apply, Enabled, ClientAt, Abs, Touches;
    NextState(states, evs, i);
    NextState(states, evs, j);
    InsertBegins(states[i], c, key, value, policy);
    ClientWaits(states, evs, c, i + 1, j);
    WriteStores(states[j], c);
    var e := ClientAt(states[j], c).entry;
    UntouchedRun(states, evs, key, e, j + 1, m);
  }

  // ---- A new policy ----------------------------------------------------------------

  lemma ExpiryStores(s: State, c: nat)
    requires Inv(s) && ClientAt(s, c).SettingExpiry? && ClientAt(s, c).key in Abs(s).view
    ensures var p, s' := ClientAt(s, c), Apply(s, ByClient(c, ApplyExpiry));
            && s'.clock == s.clock && p.key in s'.store
            && var e := s'.store[p.key];
               && e.value == Abs(s).view[p.key].value
               && (forall clock: u64 :: ExpiredAt(e, clock) <==> !Lasts(p.policy, s.clock, clock))
               && PlainGet(Abs(s').view, p.key) == Alive(Some(e), s.clock)
  {
    assert ClientOk(ClientAt(s, c), s.clock);
  }

  /** A policy set on an entry that is alive at the map access counts from that
      access; the value stays. */
  lemma ExpiryLives(states: seq<State>, evs: seq<Event>, c: nat, key: Key, policy: Policy, j: nat, m: nat)
    requires IsRun(states, evs) && Inv(states[0]) && j < m <= |evs| && evs[j] == ByClient(c, ApplyExpiry)
    requires ClientAt(states[j], c).SettingExpiry?
    requires ClientAt(states[j], c).key == key && ClientAt(states[j], c).policy == policy
    requires key in Abs(states[j]).view && Untouched(states, evs, key, j + 1, m)
    ensures key in Abs(states[m]).view <==> Lasts(policy, states[j].clock, states[m].clock)
    ensures key in Abs(states[m]).view ==> Abs(states[m]).view[key].value == Abs(states[j]).view[key].value
  {
    hide Apply, Enabled, ClientAt, Abs, Touches;
    RunInv(states, evs, j);
    NextState(states, evs, j);
    ExpiryStores(states[j], c);
    UntouchedRun(states, evs, key, states[j + 1].store[key], j + 1, m);
  }

  // ---- From the call to the access -------------------------------------------------

  predicate Begins(act: Act) {
    || act.BeginInsert? || act.BeginGet? || act.BeginSetExpiry?
    || act.BeginRemove? || act.BeginUnlink? || act.BeginUnlinkBatch?
  }

  /** Where a client stands once it has begun an operation at this clock. */
  ghost predicate Began(p: Client, act: Act, clock: u64) {
    match act
    case BeginInsert(key, value, _) => p.Inserting? && p.key == key && p.entry.value == value
    case BeginGet(key) => p == Reading(key, clock)
    case BeginSetExpiry(key, policy) => p == SettingExpiry(key, policy, clock)
    case BeginRemove(key) => p == Removing(key, clock)
    case BeginUnlink(key) => p == Unlinking(key, clock)
    case BeginUnlinkBatch(keys) => p == UnlinkingBatch(keys, [], clock)
    case _ => false
  }

  /** The map access that belongs to an operation. */
  predicate Follows(act: Act, next: Act) {
    match act
    case BeginInsert(_, _, _) => next.WriteEntry?
    case BeginGet(_) => next.Lookup?
    case BeginSetExpiry(_, _) => next.ApplyExpiry?
    case BeginRemove(_) => next.ApplyRemove?
    case BeginUnlink(_) => next.ApplyUnlink?
    case BeginUnlinkBatch(keys) => if keys == [] then next.FinishUnlinkBatch? else next.UnlinkNext?
    case _ => true
  }

  lemma BeginStep(s: State, c: nat, act: Act)
    requires Enabled(s, ByClient(c, act)) && Begins(act)
    ensures Began(ClientAt(Apply(s, ByClient(c, act)), c), act, s.clock)
  {
  }

  /** Whatever happens meanwhile, the next access of a client that has begun an
      operation is that operation's, on the key it was called with and with the
      clock it then read. */
  lemma OperationRemembers(states: seq<State>, evs: seq<Event>, c: nat, act: Act, next: Act, i: nat, j: nat)
    requires IsRun(states, evs) && i < j < |evs| && forall x :: i < x < j ==> !Acts(evs[x], c)
    requires evs[i] == ByClient(c, act) && evs[j] == ByClient(c, next) && Begins(act)
    ensures Began(ClientAt(states[j], c), act, states[i].clock) && Follows(act, next)
  {
    hide Apply, ClientAt;
    NextState(states, evs, i);
    NextState(states, evs, j);
    BeginStep(states[i], c, act);
    ClientWaits(states, evs, c, i + 1, j);
  }

  // ---- What stays in memory ---------------------------------------------------------

  /** The key that a client's access is about, if it is about one. */
  function Target(p: Client): Option<Key> {
    match p
    case Inserting(key, _) => Some(key)
    case Reaping(key, _, _) => Some(key)
    case SettingExpiry(key, _, _) => Some(key)
    case Removing(key, _) => Some(key)
    case Unlinking(key, _) => Some(key)
    case UnlinkingBatch(keys, _, _) => if keys == [] then None else Some(keys[0])
    case _ => None
  }

  /** Beyond what the plain map shows: removing and clearing take entries out
      whether alive or dead, setting a policy on an entry that was already dead
      takes it out, unlinking keeps the value in place, and no access changes
      any key but its own. */
  lemma PhysicalEffects(s: State, c: nat, act: Act)
    requires ActEnabled(ClientAt(s, c), act)
    ensures var p, after := ClientAt(s, c), ApplyAct(s, c, act).store;
            && (act.Clear? ==> after == map[])
            && (act.ApplyRemove? ==> p.key !in after)
            && (act.ApplyExpiry? && p.key in s.store && ExpiredAt(s.store[p.key], p.now) ==> p.key !in after)
            && (act.ApplyUnlink? && p.key in s.store ==> p.key in after && after[p.key].value == s.store[p.key].value)
            && (!act.Clear? ==> forall k :: Some(k) != Target(p) ==>
                                  (k in after <==> k in s.store) && (k in after ==> after[k] == s.store[k]))
  {
  }

  /** A read that finds an expired entry removes it, unless it has been replaced
      by then: its next access leaves no entry with that expiry. */
  lemma GetReaps(states: seq<State>, evs: seq<Event>, c: nat, key: Key, i: nat, j: nat, m: nat)
    requires GetSpan(states, evs, c, key, i, j) && j < m < |evs|
    requires Acts(evs[m], c) && forall x :: j < x < m ==> !Acts(evs[x], c)
    requires key in states[j].store && ExpiredAt(states[j].store[key], states[i].clock)
    ensures evs[m] == ByClient(c, Reap)
    ensures key in states[m + 1].store ==> states[m + 1].store[key].expireAt != states[j].store[key].expireAt
  {
    hide Abs;
    StillReading(states, evs, c, key, i, j, j);
    NextState(states, evs, j);
    NextState(states, evs, m);
    var at := states[j].store[key].expireAt.value;
    assert ClientAt(states[j + 1], c) == Reaping(key, at, states[i].clock);
    hide Apply, Enabled;
    ClientWaits(states, evs, c, j + 1, m);
    ReapRemoves(states[m], evs[m], c, key, at, states[i].clock);
  }

  lemma ReapRemoves(s: State, ev: Event, c: nat, key: Key, at: u64, now: u64)
    requires Enabled(s, ev) && Acts(ev, c) && ClientAt(s, c) == Reaping(key, at, now) && at <= now
    ensures ev == ByClient(c, Reap)
    ensures key in Apply(s, ev).store ==> Apply(s, ev).store[key].expireAt != Some(at)
  {
  }

  // ---- Removal ---------------------------------------------------------------------

  /** The accesses that take a key out: removing, clearing and unlinking. */
  predicate TakesOut(s: State, ev: Event, key: Key) {
    Touches(s, ev, key) && (ev.act.ApplyRemove? || ev.act.Clear? || ev.act.ApplyUnlink? || ev.act.UnlinkNext?)
  }

  /** Once taken out, a key stays out of the plain map until somebody writes it. */
  lemma RemovedStaysOut(states: seq<State>, evs: seq<Event>, key: Key, j: nat, m: nat)
    requires IsRun(states, evs) && Inv(states[0]) && j < m <= |evs|
    requires TakesOut(states[j], evs[j], key) && Untouched(states, evs, key, j + 1, m)
    ensures key !in Abs(states[m]).view
  {
    RunInv(states, evs, j);
    NextState(states, evs, j);
    TakenOut(states[j], evs[j], key);
    hide Abs, Apply, Enabled, Touches, Inv;
    StaysOut(states, evs, key, j + 1, m);
  }

  lemma TakenOut(s: State, ev: Event, key: Key)
    requires Inv(s) && Enabled(s, ev) && TakesOut(s, ev, key)
    ensures PlainGet(Abs(Apply(s, ev)).view, key) == None
  {
    assert ClientOk(ClientAt(s, ev.c), s.clock);
    StepRefines(s, ev);
  }

  lemma {:induction false} StaysOut(states: seq<State>, evs: seq<Event>, key: Key, i: nat, j: nat)
    requires IsRun(states, evs) && Inv(states[0]) && i <= j <= |evs| && Untouched(states, evs, key, i, j)
    requires PlainGet(Abs(states[i]).view, key) == None
    ensures PlainGet(Abs(states[j]).view, key) == None
    decreases j
  {
    hide Abs, Apply, Enabled, Touches, Inv, PlainGet;
    if i < j {
      StaysOut(states, evs, key, i, j - 1);
      RunInv(states, evs, j - 1);
      NextState(states, evs, j - 1);
      UntouchedStep(states[j - 1], evs[j - 1], key);
    }
  }
}
