/** Answers of operations that take more than one step, over whole runs. */
module CacheAnswers {
  import opened Machine
  import opened CacheModel
  import opened CacheSafety
  import opened CacheRefinement

  predicate Acts(ev: Event, c: nat) { ev.ByClient? && ev.c == c }

  lemma OthersLeave(s: State, ev: Event, c: nat)
    requires Enabled(s, ev) && !Acts(ev, c)
    ensures ClientAt(Apply(s, ev), c) == ClientAt(s, c)
  {
  }

  // ---- The batched unlink -------------------------------------------------------

  /** What became of the keys that client `c` unlinked in events `i` to `j`:
      how many there were, how many of them were in the plain map and how many
      had been overtaken by the clock. */
  datatype Tally = Tally(steps: nat, hits: nat, late: nat)

  ghost function TallyOf(states: seq<State>, evs: seq<Event>, c: nat, i: nat, j: nat): Tally
    requires |states| == |evs| + 1 && i <= j <= |evs|
    decreases j
  {
    if i == j then Tally(0, 0, 0)
    else Counted(TallyOf(states, evs, c, i, j - 1), states[j - 1], evs[j - 1], c)
  }

  /** A tally after one more event. */
  ghost function Counted(t: Tally, s: State, ev: Event, c: nat): Tally {
    var p := ClientAt(s, c);
    if ev == ByClient(c, UnlinkNext) && p.UnlinkingBatch? && p.keys != [] then
      Tally(t.steps + 1,
            t.hits + (if p.keys[0] in Abs(s).view then 1 else 0),
            t.late + (if Overtaken(s.store, p.keys[0], p.now, s.clock) then 1 else 0))
    else t
  }

  /** A batch that started with these keys and items agrees with the tally. */
  ghost predicate Tallied(p: Client, keys: seq<Key>, items: nat, t: Tally) {
    && p.UnlinkingBatch? && t.steps <= |keys| && p.keys == keys[t.steps..]
    && |p.items| == items + t.hits + t.late
  }

  /** One key of the batch counts if it was in the plain map or overtaken. */
  lemma UnlinkCounts(s: State, c: nat)
    requires InTime(s) && ActEnabled(ClientAt(s, c), UnlinkNext)
    ensures var p, p' := ClientAt(s, c), ClientAt(ApplyAct(s, c, UnlinkNext), c);
            var hit, late := p.keys[0] in Abs(s).view, Overtaken(s.store, p.keys[0], p.now, s.clock);
            && !(hit && late)
            && p'.UnlinkingBatch? && p'.keys == p.keys[1..]
            && |p'.items| == |p.items| + (if hit || late then 1 else 0)
  {
    assert ClientOk(ClientAt(s, c), s.clock);
  }

  lemma BatchStep(s: State, ev: Event, c: nat, keys: seq<Key>, items: nat, t: Tally)
    requires InTime(s) && Enabled(s, ev) && ev != ByClient(c, FinishUnlinkBatch)
    requires Tallied(ClientAt(s, c), keys, items, t)
    ensures Tallied(ClientAt(Apply(s, ev), c), keys, items, Counted(t, s, ev, c))
  {
    if Acts(ev, c) {
      assert ev == ByClient(c, UnlinkNext);
      assert Apply(s, ev) == ApplyAct(s, c, UnlinkNext);
      hide Apply, ApplyAct, Abs, Overtaken, InTime;
      UnlinkCounts(s, c);
    } else {
      hide Apply;
      OthersLeave(s, ev, c);
    }
  }

  lemma {:induction false} BatchTally(states: seq<State>, evs: seq<Event>, c: nat, i: nat, j: nat)
    requires IsRun(states, evs) && Inv(states[0]) && i <= j <= |evs|
    requires ClientAt(states[i], c).UnlinkingBatch?
    requires forall m :: i <= m < j ==> evs[m] != ByClient(c, FinishUnlinkBatch)
    ensures var p := ClientAt(states[i], c);
            Tallied(ClientAt(states[j], c), p.keys, |p.items|, TallyOf(states, evs, c, i, j))
    decreases j
  {
    hide Apply, Enabled, Counted, ClientAt;
    if i < j {
      var p := ClientAt(states[i], c);
      BatchTally(states, evs, c, i, j - 1);
      RunInv(states, evs, j - 1);
      NextState(states, evs, j - 1);
      BatchStep(states[j - 1], evs[j - 1], c, p.keys, |p.items|, TallyOf(states, evs, c, i, j - 1));
    }
  }

  lemma NextState(states: seq<State>, evs: seq<Event>, i: nat)
    requires IsRun(states, evs) && i < |evs|
    ensures Enabled(states[i], evs[i]) && states[i + 1] == Apply(states[i], evs[i])
  {
  }

  /** The batched unlink visits each key once and answers with the number of
      those that were in the plain map when their turn came, plus those that
      the clock had overtaken by then. So its count is that of the plain map
      exactly if no key was overtaken. */
  lemma BatchUnlinkExact(states: seq<State>, evs: seq<Event>, c: nat, keys: seq<Key>, i: nat, j: nat)
    requires IsRun(states, evs) && Inv(states[0]) && i < j < |evs|
    requires evs[i] == ByClient(c, BeginUnlinkBatch(keys)) && evs[j] == ByClient(c, FinishUnlinkBatch)
    requires forall m :: i < m < j ==> evs[m] != ByClient(c, FinishUnlinkBatch)
    ensures var s, t := states[j], TallyOf(states, evs, c, i + 1, j);
            var answer := ActEffect(s.store, s.clock, ClientAt(s, c), FinishUnlinkBatch).answer;
            && t.steps == |keys| && answer == Unlinked(t.hits + t.late)
            && (answer == Unlinked(t.hits) <==> t.late == 0)
  {
    hide Apply, ClientAt, TallyOf;
    NextState(states, evs, i);
    NextState(states, evs, j);
    BatchBegins(states[i], c, keys);
    BatchTally(states, evs, c, i + 1, j);
  }

  lemma BatchBegins(s: State, c: nat, keys: seq<Key>)
    requires Enabled(s, ByClient(c, BeginUnlinkBatch(keys)))
    ensures ClientAt(Apply(s, ByClient(c, BeginUnlinkBatch(keys))), c) == UnlinkingBatch(keys, [], s.clock)
  {
  }

  // ---- Reads ----------------------------------------------------------------------

  /** A `get` of client `c` that reads the clock in event `i` and the map in
      event `j`. */
  ghost predicate GetSpan(states: seq<State>, evs: seq<Event>, c: nat, key: Key, i: nat, j: nat) {
    && IsRun(states, evs) && Inv(states[0]) && i < j < |evs|
    && evs[i] == ByClient(c, BeginGet(key)) && evs[j] == ByClient(c, Lookup)
    && forall m :: i < m < j ==> !Acts(evs[m], c)
  }

  ghost predicate Holds(s: State, key: Key, e: Entry) {
    key in s.store && s.store[key] == e
  }

  /** The least index from `i` on whose state holds the entry. */
  ghost function FirstHolding(states: seq<State>, key: Key, e: Entry, i: nat, j: nat): (f: nat)
    requires i <= j < |states| && Holds(states[j], key, e)
    ensures i <= f <= j && Holds(states[f], key, e)
    ensures forall m :: i <= m < f ==> !Holds(states[m], key, e)
    decreases j - i
  {
    if Holds(states[i], key, e) then i else FirstHolding(states, key, e, i + 1, j)
  }

  lemma {:induction false} ClockGrows(states: seq<State>, evs: seq<Event>, i: nat, j: nat)
    requires IsRun(states, evs) && i <= j < |states|
    ensures states[i].clock <= states[j].clock
    decreases j
  {
    if i < j {
      ClockGrows(states, evs, i, j - 1);
      NextState(states, evs, j - 1);
    }
  }

  lemma GetBegins(s: State, c: nat, key: Key)
    requires Enabled(s, ByClient(c, BeginGet(key)))
    ensures var s' := Apply(s, ByClient(c, BeginGet(key)));
            ClientAt(s', c) == Reading(key, s.clock) && s'.clock == s.clock
  {
  }

  lemma {:induction false} StillReading(states: seq<State>, evs: seq<Event>, c: nat, key: Key, i: nat, j: nat, m: nat)
    requires GetSpan(states, evs, c, key, i, j) && i < m <= j
    ensures ClientAt(states[m], c) == Reading(key, states[i].clock) && states[i + 1].clock == states[i].clock
    decreases m
  {
    hide Apply, Enabled, ClientAt, Inv;
    NextState(states, evs, m - 1);
    if m == i + 1 {
      GetBegins(states[i], c, key);
    } else {
      StillReading(states, evs, c, key, i, j, m - 1);
      OthersLeave(states[m - 1], evs[m - 1], c);
    }
  }

  /** The entry a read finds had expired since its clock reading, and already
      when it first came into the map during the read. */
  ghost predicate StoredDead(states: seq<State>, key: Key, i: nat, j: nat)
    requires i < j < |states|
  {
    && Overtaken(states[j].store, key, states[i].clock, states[j].clock)
    && var e := states[j].store[key];
       ExpiredAt(e, states[FirstHolding(states, key, e, i + 1, j)].clock)
  }

  ghost function GetAnswer(states: seq<State>, c: nat, j: nat): Answer
    requires j < |states| && ClientAt(states[j], c).Reading?
  {
    ActEffect(states[j].store, states[j].clock, ClientAt(states[j], c), Lookup).answer
  }

  /** The answer is the plain map's at some moment during the read. */
  ghost predicate Linearizes(states: seq<State>, key: Key, i: nat, j: nat, answer: Answer)
    requires j < |states|
  {
    exists k :: i < k <= j && answer == Found(PlainGet(Abs(states[k]).view, key))
  }

  lemma LiveIsVisible(s: State, key: Key, e: Entry)
    ensures PlainGet(Abs(s).view, key) == Some(e) <==> Holds(s, key, e) && !ExpiredAt(e, s.clock)
  {
  }

  /** In every run, a read answers from the plain map at some moment between its
      two accesses, if and only if it did not find an entry that came into the
      map during the read when it had already expired. */
  lemma GetLinearizes(states: seq<State>, evs: seq<Event>, c: nat, key: Key, i: nat, j: nat)
    requires GetSpan(states, evs, c, key, i, j)
    ensures ClientAt(states[j], c).Reading?
    ensures Linearizes(states, key, i, j, GetAnswer(states, c, j)) <==> !StoredDead(states, key, i, j)
  {
    StillReading(states, evs, c, key, i, j, j);
    RunInv(states, evs, j);
    var s, now, answer := states[j], states[i].clock, GetAnswer(states, c, j);
    AnswersExact(s, c, Lookup);
    if Overtaken(s.store, key, now, s.clock) {
      var e := s.store[key];
      var f := FirstHolding(states, key, e, i + 1, j);
      assert answer == Found(Some(e));
      hide Abs, PlainGet, GetSpan, ActEffect;
      LiveIsVisible(states[f], key, e);
      forall k | i < k <= j && answer == Found(PlainGet(Abs(states[k]).view, key)) ensures !ExpiredAt(e, states[f].clock) {
        LiveIsVisible(states[k], key, e);
        ClockGrows(states, evs, f, k);
      }
    }
  }

  /** A client access that puts an expired entry under a key. */
  ghost predicate WritesDead(states: seq<State>, evs: seq<Event>, key: Key, m: nat)
    requires |states| == |evs| + 1 && m < |evs|
  {
    && evs[m].ByClient?
    && (evs[m].act.WriteEntry? || evs[m].act.ApplyExpiry? || evs[m].act.ApplyUnlink? || evs[m].act.UnlinkNext?)
    && key in states[m + 1].store && ExpiredAt(states[m + 1].store[key], states[m + 1].clock)
    && !Holds(states[m], key, states[m + 1].store[key])
  }

  lemma OnlyWritersStore(s: State, ev: Event, key: Key)
    requires Enabled(s, ev) && key in Apply(s, ev).store && !Holds(s, key, Apply(s, ev).store[key])
    ensures ev.ByClient? && (ev.act.WriteEntry? || ev.act.ApplyExpiry? || ev.act.ApplyUnlink? || ev.act.UnlinkNext?)
  {
  }

  /** Hence a read can go wrong only if another client writes an expired entry
      under its key, or unlinks it, between its two accesses. */
  lemma GetFailsByDeadWrite(states: seq<State>, evs: seq<Event>, c: nat, key: Key, i: nat, j: nat)
    requires GetSpan(states, evs, c, key, i, j) && StoredDead(states, key, i, j)
    ensures exists m :: i < m < j && WritesDead(states, evs, key, m)
  {
    var e := states[j].store[key];
    var f := FirstHolding(states, key, e, i + 1, j);
    StillReading(states, evs, c, key, i, j, j);
    assert f > i + 1;
    NextState(states, evs, f - 1);
    hide Apply, IsRun, Enabled;
    OnlyWritersStore(states[f - 1], evs[f - 1], key);
    assert WritesDead(states, evs, key, f - 1);
  }
}
