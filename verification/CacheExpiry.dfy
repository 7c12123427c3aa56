/** When the worker has answered, expiry really has happened. */
module CacheExpiry {
  import opened Machine
  import opened TimerBag
  import opened CacheModel
  import opened CacheSafety

  ghost predicate NoClientTimers(s: State) {
    forall c :: c in s.clients ==> ClientTimers(s.clients[c]) == []
  }

  /** Events other than the map accesses that create or move expiries. */
  predicate Quiet(ev: Event) {
    ev.ByClient? ==> !ev.act.WriteEntry? && !ev.act.ApplyExpiry? && !ev.act.ApplyUnlink? && !ev.act.UnlinkNext?
  }

  lemma QuietWritesNothing(s: State, ev: Event, t: Timer)
    requires Enabled(s, ev) && Quiet(ev) && HasTimer(Apply(s, ev).store, t)
    ensures HasTimer(s.store, t)
  {
    if ev.ByWorker? { WorkWritesNothing(s, ev.work, t); }
  }

  // ---- A timer that a command cannot overtake -----------------------------------

  predicate Handles(w: Worker, cmd: Command) {
    (w.Received? || w.Firing? || w.FiringAt?) && w.cmd == cmd
  }

  /** The worker has the timer, or will get it before the command. */
  ghost predicate InFront(s: State, cmd: Command, t: Timer) {
    WorkerHolds(s, t) || exists q :: 0 <= q < |s.queue| && t in CommandTimers(s.queue[q]) && cmd !in s.queue[..q]
  }

  ghost predicate Ahead(s: State, cmd: Command, t: Timer) {
    InFront(s, cmd, t) && (Handles(s.worker, cmd) ==> WorkerHolds(s, t))
  }

  lemma AheadAct(s: State, c: nat, act: Act, cmd: Command, t: Timer)
    requires ActEnabled(ClientAt(s, c), act) && Ahead(s, cmd, t)
    ensures Ahead(ApplyAct(s, c, act), cmd, t)
  {
    var s' := ApplyAct(s, c, act);
    if !WorkerHolds(s, t) {
      var q :| 0 <= q < |s.queue| && t in CommandTimers(s.queue[q]) && cmd !in s.queue[..q];
      assert s'.queue[q] == s.queue[q] && s'.queue[..q] == s.queue[..q];
    }
  }

  lemma AheadReceive(s: State, cmd: Command, t: Timer)
    requires WorkEnabled(s, Receive) && Ahead(s, cmd, t) && CommandTimers(cmd) == []
    ensures Ahead(ApplyWork(s, Receive), cmd, t)
  {
    var s' := ApplyWork(s, Receive);
    if !WorkerHolds(s, t) {
      var q :| 0 <= q < |s.queue| && t in CommandTimers(s.queue[q]) && cmd !in s.queue[..q];
      if q > 0 {
        assert s.queue[..q] == [s.queue[0]] + s'.queue[..q - 1];
        assert s'.queue[q - 1] == s.queue[q];
      }
    }
  }

  lemma AheadWork(s: State, work: Work, cmd: Command, t: Timer)
    requires InTime(s) && WorkEnabled(s, work) && !work.Receive? && HasTimer(ApplyWork(s, work).store, t)
    requires Ahead(s, cmd, t)
    ensures Ahead(ApplyWork(s, work), cmd, t)
  {
    hide ApplyWork, WorkerHolds, HasTimer;
    if WorkerHolds(s, t) { WorkPasses(s, work, t); }
    HandlesStays(s, work, cmd);
  }

  lemma HandlesStays(s: State, work: Work, cmd: Command)
    requires WorkEnabled(s, work) && !work.Receive?
    ensures var w := ApplyWork(s, work).worker;
            Handles(w, cmd) ==> Handles(s.worker, cmd) && !w.Received? && (s.worker.Received? ==> work.AdvanceWheel?)
  {
  }

  /** As long as the entry keeps its timer, nothing makes the timer fall behind. */
  lemma AheadStep(s: State, ev: Event, cmd: Command, t: Timer)
    requires Inv(s) && Enabled(s, ev) && HasTimer(Apply(s, ev).store, t)
    requires CommandTimers(cmd) == [] && Ahead(s, cmd, t)
    ensures Ahead(Apply(s, ev), cmd, t)
  {
    match ev
    case ClockSet(_) =>
    case ByClient(c, act) => AheadAct(s, c, act, cmd, t);
    case ByWorker(work) =>
      if work.Receive? { AheadReceive(s, cmd, t); } else { AheadWork(s, work, cmd, t); }
  }

  /** Sending a command puts every timer in front of it that no client holds. */
  lemma AheadStarts(s: State, c: nat, cmd: Command, t: Timer)
    requires Inv(s) && ActEnabled(ClientAt(s, c), Ask(cmd)) && cmd !in s.queue && !Handles(s.worker, cmd)
    requires HasTimer(s.store, t) && !ClientHolds(s, t)
    ensures Ahead(ApplyAct(s, c, Ask(cmd)), cmd, t)
  {
    var s' := ApplyAct(s, c, Ask(cmd));
    assert Held(s, t);
    if !WorkerHolds(s, t) {
      var q :| 0 <= q < |s.queue| && t in CommandTimers(s.queue[q]);
      assert s'.queue[q] == s.queue[q] && s'.queue[..q] == s.queue[..q];
    }
  }

  // ---- AdvanceAndWait --------------------------------------------------------------

  /** A timer that is due is dealt with before the ticket is answered. */
  ghost predicate Swept(s: State, ticket: nat, t: Timer) {
    && t.expireAt <= s.clock
    && (HasTimer(s.store, t) ==>
          && ticket !in s.answered && Ahead(s, AdvanceAndWait(ticket), t)
          && (Handles(s.worker, AdvanceAndWait(ticket)) && !s.worker.Received? ==> t.expireAt <= s.wheelNow))
  }

  lemma SweptStep(s: State, ev: Event, ticket: nat, t: Timer)
    requires Inv(s) && Enabled(s, ev) && Swept(s, ticket, t)
    requires HasTimer(Apply(s, ev).store, t) ==> HasTimer(s.store, t)
    ensures Swept(Apply(s, ev), ticket, t)
  {
    var s' := Apply(s, ev);
    if HasTimer(s'.store, t) {
      AheadStep(s, ev, AdvanceAndWait(ticket), t);
      if ev.ByWorker? { SweptWork(s, ev.work, ticket, t); }
    }
  }

  lemma SweptWork(s: State, work: Work, ticket: nat, t: Timer)
    requires InTime(s) && WorkEnabled(s, work) && Swept(s, ticket, t) && HasTimer(s.store, t)
    ensures ticket !in ApplyWork(s, work).answered
    ensures var s' := ApplyWork(s, work);
            Handles(s'.worker, AdvanceAndWait(ticket)) && !s'.worker.Received? ==> t.expireAt <= s'.wheelNow
  {
    if work.FinishFiring? {
    } else if work.AdvanceWheel? {
    } else if work.Receive? {
    } else {
      hide ApplyWork;
      HandlesStays(s, work, AdvanceAndWait(ticket));
    }
  }

  lemma {:induction false} SweptRun(states: seq<State>, evs: seq<Event>, ticket: nat, t: Timer, i: nat)
    requires IsRun(states, evs) && Inv(states[0]) && 1 <= i < |states|
    requires Swept(states[1], ticket, t)
    requires forall j :: 1 <= j < i && HasTimer(states[j + 1].store, t) ==> HasTimer(states[j].store, t)
    ensures Swept(states[i], ticket, t)
  {
    if i > 1 {
      SweptRun(states, evs, ticket, t, i - 1);
      RunInv(states, evs, i - 1);
      hide HasTimer, Swept, Apply, Enabled, Inv;
      assert HasTimer(states[i].store, t) ==> HasTimer(states[i - 1].store, t);
      SweptStep(states[i - 1], evs[i - 1], ticket, t);
    }
  }

  /** A ticket that has not been used yet. */
  ghost predicate Fresh(s: State, ticket: nat) {
    && ticket !in s.answered && AdvanceAndWait(ticket) !in s.queue
    && !Handles(s.worker, AdvanceAndWait(ticket))
  }

  /** A run that starts by sending `AdvanceAndWait` and in which it is answered. */
  ghost predicate Answered(states: seq<State>, evs: seq<Event>, c: nat, ticket: nat) {
    && IsRun(states, evs) && Inv(states[0]) && evs != []
    && evs[0] == ByClient(c, Ask(AdvanceAndWait(ticket))) && Fresh(states[0], ticket)
    && ticket in states[|evs|].answered
  }

  /** Whatever else the clients do meanwhile: an expiry that was due when the
      command was sent, and whose timer no client still held, is gone when it
      is answered, unless some event wrote that very expiry afresh. */
  lemma SweptUnlessRewritten(states: seq<State>, evs: seq<Event>, c: nat, ticket: nat, t: Timer)
    requires Answered(states, evs, c, ticket)
    requires t.expireAt <= states[0].clock && !ClientHolds(states[0], t)
    ensures HasTimer(states[|evs|].store, t) ==>
              exists j :: 1 <= j < |evs| && !HasTimer(states[j].store, t) && HasTimer(states[j + 1].store, t)
  {
    if HasTimer(states[0].store, t) { AheadStarts(states[0], c, AdvanceAndWait(ticket), t); }
    assert states[1] == ApplyAct(states[0], c, Ask(AdvanceAndWait(ticket)));
    if forall j :: 1 <= j < |evs| && HasTimer(states[j + 1].store, t) ==> HasTimer(states[j].store, t) {
      SweptRun(states, evs, ticket, t, |evs|);
    }
  }

  /** Without a concurrent writer nothing that had expired when the command was
      sent is left; with the clock unmoved the physical map is the live view,
      so `len()` counts live entries only. */
  lemma AnsweredMeansSwept(states: seq<State>, evs: seq<Event>, c: nat, ticket: nat)
    requires Answered(states, evs, c, ticket) && NoClientTimers(states[0])
    requires forall j :: 1 <= j < |evs| ==> Quiet(evs[j])
    ensures forall k :: k in states[|evs|].store ==> !ExpiredAt(states[|evs|].store[k], states[0].clock)
    ensures states[|evs|].clock == states[0].clock ==>
              && states[|evs|].store == View(states[|evs|].store, states[|evs|].clock)
              && |states[|evs|].store| == |View(states[|evs|].store, states[|evs|].clock)|
  {
    var last := states[|evs|];
    forall k | k in last.store ensures !ExpiredAt(last.store[k], states[0].clock) {
      if ExpiredAt(last.store[k], states[0].clock) {
        var t := TimerItem(k, last.store[k].expireAt.value);
        forall j | 1 <= j < |evs| && HasTimer(states[j + 1].store, t) ensures HasTimer(states[j].store, t) {
          QuietWritesNothing(states[j], evs[j], t);
        }
        SweptUnlessRewritten(states, evs, c, ticket, t);
      }
    }
  }

  // ---- HasExpired --------------------------------------------------------------------

  predicate Scans(w: Worker, localNow: u64, ticket: nat) {
    w.Scanning? && w.localNow == localNow && w.ticket == ticket
  }

  /** A timer that the scan for this request still has to come to. */
  ghost predicate Unscanned(s: State, localNow: u64, ticket: nat, t: Timer) {
    Ahead(s, HasExpired(localNow, ticket), t) && (Scans(s.worker, localNow, ticket) ==> t in s.worker.rest)
  }

  lemma UnscannedWork(s: State, work: Work, localNow: u64, ticket: nat, t: Timer)
    requires WorkEnabled(s, work) && Unscanned(s, localNow, ticket, t)
    requires t.expireAt <= localNow && HasTimer(s.store, t)
    ensures var w := ApplyWork(s, work).worker; Scans(w, localNow, ticket) ==> t in w.rest
  {
    if work.BeginScan? {
      assert t in s.wheel ==> t in multiset(work.order);
    } else if work.ScanNext? {
      HeadAndTail(s.worker.rest, t);
    }
  }

  lemma {:induction false} UnscannedRun(states: seq<State>, evs: seq<Event>, localNow: u64, ticket: nat, t: Timer, i: nat)
    requires IsRun(states, evs) && Inv(states[0]) && 1 <= i < |states|
    requires Unscanned(states[1], localNow, ticket, t) && t.expireAt <= localNow
    requires forall m :: 1 <= m <= i ==> HasTimer(states[m].store, t)
    ensures Unscanned(states[i], localNow, ticket, t)
  {
    if i > 1 {
      var s, ev := states[i - 1], evs[i - 1];
      UnscannedRun(states, evs, localNow, ticket, t, i - 1);
      RunInv(states, evs, i - 1);
      assert states[i] == Apply(s, ev) && HasTimer(states[i].store, t);
      AheadStep(s, ev, HasExpired(localNow, ticket), t);
      if ev.ByWorker? { UnscannedWork(s, ev.work, localNow, ticket, t); }
    }
  }

  /** A run that starts by sending `HasExpired` and whose last event, by the
      worker, sends the reply. */
  ghost predicate Replied(states: seq<State>, evs: seq<Event>, c: nat, localNow: u64, ticket: nat) {
    && IsRun(states, evs) && Inv(states[0]) && |evs| >= 2
    && var cmd := HasExpired(localNow, ticket);
       && evs[0] == ByClient(c, Ask(cmd)) && cmd !in states[0].queue
       && !Handles(states[0].worker, cmd) && !Scans(states[0].worker, localNow, ticket)
       && Scans(states[|evs| - 1].worker, localNow, ticket) && states[|evs|].worker.Waiting?
       && evs[|evs| - 1].ByWorker?
  }

  lemma ReplyGiven(s: State, work: Work)
    requires WorkEnabled(s, work) && s.worker.Scanning? && ApplyWork(s, work).worker.Waiting?
    ensures var s' := ApplyWork(s, work);
            && s.worker.ticket in s'.dueReplies && s'.store == s.store
            && (s'.dueReplies[s.worker.ticket] ==>
                  exists k :: k in s.store && ExpiredAt(s.store[k], s.worker.localNow))
            && (!s'.dueReplies[s.worker.ticket] ==> s.worker.rest == [])
  {
    if work.ScanNext? { assert s.worker.rest[0].key in s.store; }
  }

  /** The reply to `HasExpired`, whatever else the clients do meanwhile. If it
      is true, some entry is due by the given clock at that moment. If it is
      false, no expiry due by then, whose timer no client held at the start,
      was there all along. With no such timers at the start and no writer
      meanwhile the reply is exact. */
  lemma ReplyExact(states: seq<State>, evs: seq<Event>, c: nat, localNow: u64, ticket: nat)
    requires Replied(states, evs, c, localNow, ticket)
    ensures var last := states[|evs|];
            && ticket in last.dueReplies
            && (last.dueReplies[ticket] ==> exists k :: k in last.store && ExpiredAt(last.store[k], localNow))
            && (!last.dueReplies[ticket] ==>
                  forall t: Timer :: t.expireAt <= localNow && !ClientHolds(states[0], t) ==>
                    exists m :: 0 <= m < |evs| && !HasTimer(states[m].store, t))
    ensures NoClientTimers(states[0]) && (forall j :: 1 <= j < |evs| ==> Quiet(evs[j])) ==>
              var last := states[|evs|];
              last.dueReplies[ticket] <==> exists k :: k in last.store && ExpiredAt(last.store[k], localNow)
  {
    var r := |evs| - 1;
    var last := states[|evs|];
    ReplyGiven(states[r], evs[r].work);
    if !last.dueReplies[ticket] {
      forall t: Timer | t.expireAt <= localNow && !ClientHolds(states[0], t)
        ensures exists m :: 0 <= m < |evs| && !HasTimer(states[m].store, t)
      {
        PresentIsScanned(states, evs, c, localNow, ticket, t);
      }
      if NoClientTimers(states[0]) && forall j :: 1 <= j < |evs| ==> Quiet(evs[j]) {
        forall k | k in last.store ensures !ExpiredAt(last.store[k], localNow) {
          if ExpiredAt(last.store[k], localNow) {
            var t := TimerItem(k, last.store[k].expireAt.value);
            QuietBack(states, evs, t, 0);
          }
        }
      }
    }
  }

  /** An expiry that is there all along is still ahead of the scan. */
  lemma PresentIsScanned(states: seq<State>, evs: seq<Event>, c: nat, localNow: u64, ticket: nat, t: Timer)
    requires Replied(states, evs, c, localNow, ticket) && t.expireAt <= localNow && !ClientHolds(states[0], t)
    ensures states[|evs| - 1].worker.rest == [] ==> exists m :: 0 <= m < |evs| && !HasTimer(states[m].store, t)
  {
    if forall m :: 0 <= m < |evs| ==> HasTimer(states[m].store, t) {
      AheadStarts(states[0], c, HasExpired(localNow, ticket), t);
      assert states[1] == ApplyAct(states[0], c, Ask(HasExpired(localNow, ticket)));
      UnscannedRun(states, evs, localNow, ticket, t, |evs| - 1);
    }
  }

  /** Without writers an expiry that is there now has been there all along. */
  lemma {:induction false} QuietBack(states: seq<State>, evs: seq<Event>, t: Timer, i: nat)
    requires IsRun(states, evs) && i <= |evs| && HasTimer(states[|evs|].store, t)
    requires evs != [] && Quiet(evs[0]) && forall j :: 1 <= j < |evs| ==> Quiet(evs[j])
    ensures forall m :: i <= m <= |evs| ==> HasTimer(states[m].store, t)
    decreases |evs| - i
  {
    if i < |evs| {
      hide HasTimer, Apply, Enabled;
      QuietBack(states, evs, t, i + 1);
      assert states[i + 1] == Apply(states[i], evs[i]) && HasTimer(states[i + 1].store, t);
      QuietWritesNothing(states[i], evs[i], t);
    }
  }
}
