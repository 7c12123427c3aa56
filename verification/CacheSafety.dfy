/** The invariant of every run of the cache. */
module CacheSafety {
  import opened Machine
  import opened TimerBag
  import opened CacheModel

  // ---- The system invariant ----------------------------------------------

  predicate WorkerHolds(s: State, t: Timer) {
    t in s.wheel || t in WorkerTimers(s.worker)
  }

  ghost predicate Held(s: State, t: Timer) {
    WorkerHolds(s, t) || QueueHolds(s.queue, t) || ClientHolds(s, t)
  }

  /** Every volatile entry has a timer somewhere on its way to the wheel. */
  ghost predicate Covered(s: State) {
    forall t: Timer :: HasTimer(s.store, t) ==> Held(s, t)
  }

  ghost predicate DueBy(ts: seq<Timer>, now: u64) {
    forall i :: 0 <= i < |ts| ==> ts[i].expireAt <= now
  }

  ghost predicate WorkerOk(w: Worker, wheelNow: u64, clock: u64) {
    match w
    case Firing(todo, _) => DueBy(todo, wheelNow)
    case FiringAt(now, todo, _) => DueBy(todo, wheelNow) && wheelNow <= now <= clock && todo != []
    case Placing(_, at) => wheelNow <= at <= clock
    case Dropping(now, rest, at) => wheelNow <= at <= now <= clock && rest != [] && rest[0].expireAt <= at
    case _ => true
  }

  predicate ClientOk(p: Client, clock: u64) {
    match p
    case Reading(_, now) => now <= clock
    case Reaping(_, at, now) => at <= now <= clock
    case SettingExpiry(_, _, now) => now <= clock
    case Removing(_, now) => now <= clock
    case Unlinking(_, now) => now <= clock
    case UnlinkingBatch(_, _, now) => now <= clock
    case _ => true
  }

  /** The wheel and every clock reading in flight lag behind the clock. */
  ghost predicate InTime(s: State) {
    && s.wheelNow <= s.clock
    && (forall t :: t in s.wheel ==> s.wheelNow < t.expireAt)
    && WorkerOk(s.worker, s.wheelNow, s.clock)
    && (forall c :: c in s.clients ==> ClientOk(s.clients[c], s.clock))
  }

  ghost predicate Inv(s: State) {
    InTime(s) && Covered(s)
  }

  lemma InitInv(clock: u64)
    ensures Inv(Init(clock))
  {
  }

  // ---- Preservation --------------------------------------------------------

  /** A client access keeps the client's clock readings in the past, writes an
      entry only together with taking charge of its timer, and gives up a
      timer only by sending it. */
  lemma ActKeeps(store: map<Key, Entry>, clock: u64, p: Client, act: Act)
    requires ActEnabled(p, act) && ClientOk(p, clock)
    ensures var e := ActEffect(store, clock, p, act);
            && ClientOk(e.client, clock)
            && (forall t: Timer :: HasTimer(e.store, t) ==> HasTimer(store, t) || t in ClientTimers(e.client))
            && (forall t: Timer :: t in ClientTimers(p) ==> t in ClientTimers(e.client) || QueueHolds(e.sent, t))
  {
    if act.Send? {
      forall t: Timer | t in ClientTimers(p) ensures QueueHolds([p.cmd], t) {
        assert [p.cmd][0] == p.cmd;
      }
    }
  }

  lemma QueueConcat(a: seq<Command>, b: seq<Command>, t: Timer)
    ensures QueueHolds(a + b, t) <==> QueueHolds(a, t) || QueueHolds(b, t)
  {
    if QueueHolds(a, t) {
      var i :| 0 <= i < |a| && t in CommandTimers(a[i]);
      assert (a + b)[i] == a[i];
    }
    if QueueHolds(b, t) {
      var i :| 0 <= i < |b| && t in CommandTimers(b[i]);
      assert (a + b)[|a| + i] == b[i];
    }
  }

  lemma ActInv(s: State, c: nat, act: Act)
    requires Inv(s) && ActEnabled(ClientAt(s, c), act)
    ensures Inv(ApplyAct(s, c, act))
  {
    var s' := ApplyAct(s, c, act);
    var e := ActEffect(s.store, s.clock, ClientAt(s, c), act);
    ActKeeps(s.store, s.clock, ClientAt(s, c), act);
    forall t: Timer | HasTimer(s'.store, t) ensures Held(s', t) {
      QueueConcat(s.queue, e.sent, t);
      if t in ClientTimers(e.client) {
        assert t in ClientTimers(s'.clients[c]);
      } else {
        assert Held(s, t);
        if ClientHolds(s, t) {
          var d :| d in s.clients && t in ClientTimers(s.clients[d]);
          if d != c { assert t in ClientTimers(s'.clients[d]); }
        }
      }
    }
  }

  lemma AdvanceTimes(s: State, fired: seq<Timer>, kept: multiset<Timer>, t: Timer)
    requires InTime(s) && WorkEnabled(s, AdvanceWheel(fired, kept))
    ensures t in kept ==> LaterOf(s.wheelNow, s.clock) < t.expireAt
    ensures DueBy(fired, LaterOf(s.wheelNow, s.clock))
    ensures t in s.wheel <==> t in fired || t in kept
  {
    AdvancesMembers(s.wheelNow, s.wheel, s.clock, LaterOf(s.wheelNow, s.clock), kept, fired);
  }

  lemma AdvanceInTime(s: State, fired: seq<Timer>, kept: multiset<Timer>)
    requires InTime(s) && WorkEnabled(s, AdvanceWheel(fired, kept))
    ensures InTime(ApplyWork(s, AdvanceWheel(fired, kept)))
  {
    forall t: Timer ensures t in kept ==> LaterOf(s.wheelNow, s.clock) < t.expireAt {
      AdvanceTimes(s, fired, kept, t);
    }
    AdvanceTimes(s, fired, kept, TimerItem([], 0));
  }

  lemma WorkTimes(s: State, work: Work)
    requires InTime(s) && WorkEnabled(s, work)
    ensures InTime(ApplyWork(s, work))
  {
    if work.AdvanceWheel? {
      AdvanceInTime(s, work.fired, work.kept);
    } else {
      OtherInTime(s, work);
    }
  }

  lemma OtherInTime(s: State, work: Work)
    requires InTime(s) && WorkEnabled(s, work) && !work.AdvanceWheel?
    ensures InTime(ApplyWork(s, work))
  {
    hide ApplyWork, ClientOk, WorkerOk;
    WorkerInTime(s, work);
    if work.PlaceNext? { PlaceInTime(s); }
  }

  lemma PlaceInTime(s: State)
    requires InTime(s) && WorkEnabled(s, PlaceNext)
    ensures forall t :: t in ApplyWork(s, PlaceNext).wheel ==> s.wheelNow < t.expireAt
  {
    hide DropIfCurrent, ClientOk;
  }

  lemma WorkerInTime(s: State, work: Work)
    requires InTime(s) && WorkEnabled(s, work) && !work.AdvanceWheel?
    ensures WorkerOk(ApplyWork(s, work).worker, s.wheelNow, s.clock)
  {
    hide DropIfCurrent, ClientOk;
  }

  lemma HeadAndTail(ts: seq<Timer>, t: Timer)
    requires ts != []
    ensures t in ts <==> t == ts[0] || t in ts[1..]
  {
    assert ts == [ts[0]] + ts[1..];
  }

  /** A dropped timer that was due no longer has an entry. */
  lemma DropPasses(s: State, work: Work, t: Timer)
    requires InTime(s) && WorkEnabled(s, work) && (work.Fire? || work.DropNext?)
    requires HasTimer(ApplyWork(s, work).store, t) && WorkerHolds(s, t)
    ensures WorkerHolds(ApplyWork(s, work), t)
  {
    if work.Fire? {
      HeadAndTail(s.worker.todo, t);
    } else {
      HeadAndTail(s.worker.rest, t);
    }
  }

  lemma PlacePasses(s: State, t: Timer)
    requires WorkEnabled(s, PlaceNext) && WorkerHolds(s, t)
    ensures WorkerHolds(ApplyWork(s, PlaceNext), t)
  {
    HeadAndTail(s.worker.rest, t);
  }

  lemma AdvancePasses(s: State, fired: seq<Timer>, kept: multiset<Timer>, t: Timer)
    requires InTime(s) && WorkEnabled(s, AdvanceWheel(fired, kept)) && WorkerHolds(s, t)
    ensures WorkerHolds(ApplyWork(s, AdvanceWheel(fired, kept)), t)
  {
    AdvanceTimes(s, fired, kept, t);
  }

  predicate MovesTimers(work: Work) {
    work.AdvanceWheel? || work.Fire? || work.DropNext? || work.PlaceNext?
  }

  lemma OtherPasses(s: State, work: Work, t: Timer)
    requires WorkEnabled(s, work) && !MovesTimers(work) && WorkerHolds(s, t)
    ensures WorkerHolds(ApplyWork(s, work), t)
  {
  }

  /** The worker passes timers on, and gives one up only when it has just
      seen to it that the entry it stands for is gone. */
  lemma WorkPasses(s: State, work: Work, t: Timer)
    requires InTime(s) && WorkEnabled(s, work) && HasTimer(ApplyWork(s, work).store, t)
    requires WorkerHolds(s, t)
    ensures WorkerHolds(ApplyWork(s, work), t)
  {
    if !MovesTimers(work) {
      OtherPasses(s, work, t);
    } else if work.AdvanceWheel? {
      AdvancePasses(s, work.fired, work.kept, t);
    } else if work.PlaceNext? {
      PlacePasses(s, t);
    } else {
      DropPasses(s, work, t);
    }
  }

  /** The worker never makes an entry volatile. */
  lemma WorkWritesNothing(s: State, work: Work, t: Timer)
    requires WorkEnabled(s, work) && HasTimer(ApplyWork(s, work).store, t)
    ensures HasTimer(s.store, t)
  {
  }

  lemma WorkInv(s: State, work: Work)
    requires Inv(s) && WorkEnabled(s, work)
    ensures Inv(ApplyWork(s, work))
  {
    WorkTimes(s, work);
    forall t: Timer | HasTimer(ApplyWork(s, work).store, t) ensures Held(ApplyWork(s, work), t) {
      WorkWritesNothing(s, work, t);
      WorkHeld(s, work, t);
    }
  }

  lemma WorkHeld(s: State, work: Work, t: Timer)
    requires InTime(s) && WorkEnabled(s, work) && HasTimer(ApplyWork(s, work).store, t) && Held(s, t)
    ensures Held(ApplyWork(s, work), t)
  {
    var s' := ApplyWork(s, work);
    if !work.Receive? { hide ApplyWork; }
    if WorkerHolds(s, t) {
      WorkPasses(s, work, t);
    } else if work.Receive? {
      assert s.queue == [s.queue[0]] + s.queue[1..];
      QueueConcat([s.queue[0]], s.queue[1..], t);
      assert ClientHolds(s', t) == ClientHolds(s, t);
      assert QueueHolds([s.queue[0]], t) ==> t in WorkerTimers(s'.worker);
    } else {
      assert ClientHolds(s', t) == ClientHolds(s, t);
    }
  }

  /** Every event preserves the invariant. */
  lemma InvStep(s: State, ev: Event)
    requires Inv(s) && Enabled(s, ev)
    ensures Inv(Apply(s, ev))
  {
    match ev
    case ClockSet(to) =>
      forall t: Timer | HasTimer(s.store, t) ensures Held(Apply(s, ev), t) {
        assert Held(s, t) && ClientHolds(s, t) == ClientHolds(Apply(s, ev), t);
      }
    case ByClient(c, act) => ActInv(s, c, act);
    case ByWorker(work) => WorkInv(s, work);
  }

  /** Every state of every run satisfies the invariant. */
  lemma {:induction false} RunInv(states: seq<State>, evs: seq<Event>, i: nat)
    requires IsRun(states, evs) && Inv(states[0]) && i < |states|
    ensures Inv(states[i])
  {
    if i > 0 {
      RunInv(states, evs, i - 1);
      InvStep(states[i - 1], evs[i - 1]);
    }
  }
}
