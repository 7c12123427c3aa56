/** The worker gets its work done: left alone it empties its queue and answers
    every request, and a timer that is due when it is placed is acted on. */
module CacheProgress {
  import opened Machine
  import opened CacheModel
  import opened CacheSafety
  import opened CacheExpiry
  import opened CacheAnswers

  // ---- There is always a next step ------------------------------------------------

  /** Some order of a bag. */
  lemma {:induction false} Ordered(items: multiset<Timer>) returns (order: seq<Timer>)
    ensures multiset(order) == items
    decreases |items|
  {
    if items == multiset{} {
      order := [];
    } else {
      var t :| t in items;
      var rest := Ordered(items - multiset{t});
      order := [t] + rest;
      assert multiset(order) == multiset{t} + multiset(rest);
    }
  }

  /** A bag divided into what is due and what is not. */
  lemma {:induction false} Divided(items: multiset<Timer>, now: u64) returns (due: seq<Timer>, later: multiset<Timer>)
    ensures multiset(due) + later == items
    ensures DueBy(due, now) && forall t :: t in later ==> now < t.expireAt
    decreases |items|
  {
    if items == multiset{} {
      due, later := [], multiset{};
    } else {
      var t :| t in items;
      var d, l := Divided(items - multiset{t}, now);
      assert items == (items - multiset{t}) + multiset{t};
      if t.expireAt <= now {
        due, later := [t] + d, l;
        assert multiset([t] + d) == multiset{t} + multiset(d);
      } else {
        due, later := d, l + multiset{t};
      }
    }
  }

  lemma CanAdvance(s: State) returns (fired: seq<Timer>, kept: multiset<Timer>)
    requires InTime(s) && s.worker.Received? && !s.worker.cmd.HasExpired?
    ensures WorkEnabled(s, AdvanceWheel(fired, kept)) && |fired| <= |s.wheel|
  {
    if s.clock <= s.wheelNow {
      fired, kept := [], s.wheel;
    } else {
      fired, kept := Divided(s.wheel, s.clock);
      assert |multiset(fired)| <= |s.wheel|;
    }
  }

  /** An upper bound on the steps left until the worker waits again. */
  function Steps(s: State): nat {
    match s.worker
    case Waiting => 0
    case Received(cmd) =>
      if cmd.HasExpired? then |s.wheel| + 2 else 2 * |s.wheel| + 3 * |CommandTimers(cmd)| + 5
    case Firing(todo, cmd) => 2 * |todo| + 3 * |CommandTimers(cmd)| + 3
    case FiringAt(_, todo, cmd) => (if todo == [] then 0 else 2 * |todo| - 1) + 3 * |CommandTimers(cmd)| + 3
    case Placing(rest, _) => 3 * |rest| + 1
    case Dropping(_, rest, _) => 3 * |rest|
    case Scanning(_, rest, _) => |rest| + 1
  }

  predicate AtRest(s: State) { s.worker.Waiting? && s.queue == [] }

  /** Requests sent and not yet answered, or answered: none may get lost. */
  predicate Owed(s: State, cmd: Command) {
    || cmd in s.queue
    || (if cmd.HasExpired? then s.worker == Received(cmd) || Scans(s.worker, cmd.localNow, cmd.ticket)
        else Handles(s.worker, cmd))
  }

  predicate Answers(s: State, cmd: Command) {
    (cmd.AdvanceAndWait? ==> cmd.ticket in s.answered) && (cmd.HasExpired? ==> cmd.ticket in s.dueReplies)
  }

  lemma FiringMoves(s: State) returns (work: Work)
    requires Inv(s) && (s.worker.Firing? || s.worker.FiringAt?)
    ensures WorkEnabled(s, work) && !work.Receive? && Steps(ApplyWork(s, work)) < Steps(s)
  {
    work := if s.worker.FiringAt? then Fire else if s.worker.todo == [] then FinishFiring else LoadToFire;
  }

  lemma PlacingMoves(s: State) returns (work: Work)
    requires Inv(s) && (s.worker.Placing? || s.worker.Dropping?)
    ensures WorkEnabled(s, work) && !work.Receive? && Steps(ApplyWork(s, work)) < Steps(s)
  {
    work := if s.worker.Dropping? then DropNext else if s.worker.rest == [] then FinishPlacing else PlaceNext;
  }

  lemma RequestMoves(s: State) returns (work: Work)
    requires Inv(s) && (s.worker.Received? || s.worker.Scanning?)
    ensures WorkEnabled(s, work) && !work.Receive? && Steps(ApplyWork(s, work)) < Steps(s)
  {
    if s.worker.Scanning? {
      work := if s.worker.rest == [] then FinishScan else ScanNext;
    } else if s.worker.cmd.HasExpired? {
      var order := Ordered(s.wheel);
      assert |order| == |multiset(order)|;
      work := BeginScan(order);
    } else {
      var fired, kept := CanAdvance(s);
      work := AdvanceWheel(fired, kept);
    }
  }

  lemma NextMove(s: State) returns (work: Work)
    requires Inv(s) && !AtRest(s)
    ensures WorkEnabled(s, work)
    ensures var s' := ApplyWork(s, work);
            |s'.queue| < |s.queue| || (s'.queue == s.queue && Steps(s') < Steps(s))
  {
    hide Inv;
    if s.worker.Waiting? {
      work := Receive;
    } else if s.worker.Firing? || s.worker.FiringAt? {
      work := FiringMoves(s);
    } else if s.worker.Placing? || s.worker.Dropping? {
      work := PlacingMoves(s);
    } else {
      work := RequestMoves(s);
    }
  }

  /** No step loses a request: it stays owed or is answered by that step. */
  lemma OwedStep(s: State, work: Work, cmd: Command)
    requires WorkEnabled(s, work) && (cmd.AdvanceAndWait? || cmd.HasExpired?)
    requires Owed(s, cmd) || Answers(s, cmd)
    ensures var s' := ApplyWork(s, work); Owed(s', cmd) || Answers(s', cmd)
  {
    if work.Receive? {
      assert s.queue == [s.queue[0]] + s.queue[1..];
    }
  }

  /** The worker alone comes to rest after finitely many steps, having answered
      every request that was sent, and no client notices. */
  lemma {:induction false} WorkerFinishes(s: State) returns (states: seq<State>, evs: seq<Event>)
    requires Inv(s)
    ensures IsRun(states, evs) && states[0] == s && forall i :: 0 <= i < |evs| ==> evs[i].ByWorker?
    ensures AtRest(states[|evs|]) && states[|evs|].clients == s.clients && states[|evs|].clock == s.clock
    ensures forall cmd: Command :: (cmd.AdvanceAndWait? || cmd.HasExpired?) && (Owed(s, cmd) || Answers(s, cmd)) ==>
              Answers(states[|evs|], cmd)
    decreases |s.queue|, Steps(s)
  {
    if AtRest(s) {
      states, evs := [s], [];
    } else {
      var work := NextMove(s);
      var s' := ApplyWork(s, work);
      WorkInv(s, work);
      forall cmd: Command | (cmd.AdvanceAndWait? || cmd.HasExpired?) && (Owed(s, cmd) || Answers(s, cmd))
        ensures Owed(s', cmd) || Answers(s', cmd)
      {
        OwedStep(s, work, cmd);
      }
      hide Inv, ApplyWork, Owed, Answers, Steps, WorkEnabled;
      var more, rest := WorkerFinishes(s');
      states, evs := [s] + more, [ByWorker(work)] + rest;
      RunExtends(s, work, more, rest);
    }
  }

  /** Hence every request is answered: after it is sent there is a run in which
      the worker alone does so. */
  lemma RequestsAnswered(s: State, c: nat, cmd: Command) returns (states: seq<State>, evs: seq<Event>)
    requires Inv(s) && ActEnabled(ClientAt(s, c), Ask(cmd)) && (cmd.AdvanceAndWait? || cmd.HasExpired?)
    ensures IsRun(states, evs) && states[0] == ApplyAct(s, c, Ask(cmd)) && Answers(states[|evs|], cmd)
    ensures forall i :: 0 <= i < |evs| ==> evs[i].ByWorker?
  {
    var sent := ApplyAct(s, c, Ask(cmd));
    assert sent.queue[|s.queue|] == cmd;
    ActInv(s, c, Ask(cmd));
    states, evs := WorkerFinishes(sent);
  }

  lemma RunExtends(s: State, work: Work, more: seq<State>, rest: seq<Event>)
    requires WorkEnabled(s, work) && IsRun(more, rest) && more[0] == ApplyWork(s, work)
    ensures IsRun([s] + more, [ByWorker(work)] + rest)
  {
    var states, evs := [s] + more, [ByWorker(work)] + rest;
    forall i | 0 <= i < |evs| ensures Enabled(states[i], evs[i]) && states[i + 1] == Apply(states[i], evs[i]) {
      if i > 0 {
        NextState(more, rest, i - 1);
        assert states[i] == more[i - 1] && states[i + 1] == more[i] && evs[i] == rest[i - 1];
      }
    }
  }

  // ---- A timer that is due when it is placed --------------------------------------------

  /** The timer is still to be placed and will be found due, or its entry is gone. */
  ghost predicate Doomed(s: State, t: Timer) {
    HasTimer(s.store, t) ==>
      (s.worker.Placing? || s.worker.Dropping?) && t in s.worker.rest && t.expireAt <= s.worker.placedAt
  }

  lemma DoomedStep(s: State, ev: Event, t: Timer)
    requires InTime(s) && Enabled(s, ev) && Doomed(s, t)
    requires HasTimer(Apply(s, ev).store, t) ==> HasTimer(s.store, t)
    ensures Doomed(Apply(s, ev), t)
  {
    if ev.ByWorker? && HasTimer(Apply(s, ev).store, t) {
      HeadAndTail(s.worker.rest, t);
    }
  }

  /** Whatever else happens, an expiry that is due when the worker turns to the
      timers of its command has no entry left when the worker waits again,
      unless that expiry was written afresh. */
  lemma {:induction false} DueWhenPlaced(states: seq<State>, evs: seq<Event>, i: nat, j: nat, t: Timer)
    requires IsRun(states, evs) && Inv(states[0]) && i < j <= |evs| && evs[i] == ByWorker(FinishFiring)
    requires states[i].worker.Firing? && t in CommandTimers(states[i].worker.cmd) && t.expireAt <= states[i].clock
    requires forall x :: i < x < j && HasTimer(states[x + 1].store, t) ==> HasTimer(states[x].store, t)
    ensures Doomed(states[j], t)
    ensures states[j].worker.Waiting? ==> !HasTimer(states[j].store, t)
    decreases j
  {
    hide Apply, Enabled, HasTimer, Inv, Doomed;
    NextState(states, evs, j - 1);
    if j == i + 1 {
      PlacingStarts(states[i], t);
    } else {
      DueWhenPlaced(states, evs, i, j - 1, t);
      RunInv(states, evs, j - 1);
      assert HasTimer(states[j - 1 + 1].store, t) ==> HasTimer(states[j - 1].store, t);
      InvInTime(states[j - 1]);
      DoomedStep(states[j - 1], evs[j - 1], t);
    }
    DoomedRests(states[j], t);
  }

  lemma PlacingStarts(s: State, t: Timer)
    requires Enabled(s, ByWorker(FinishFiring)) && t in CommandTimers(s.worker.cmd) && t.expireAt <= s.clock
    ensures Doomed(Apply(s, ByWorker(FinishFiring)), t)
  {
  }

  lemma InvInTime(s: State)
    requires Inv(s)
    ensures InTime(s)
  {
  }

  lemma DoomedRests(s: State, t: Timer)
    requires Doomed(s, t)
    ensures s.worker.Waiting? ==> !HasTimer(s.store, t)
  {
  }
}
