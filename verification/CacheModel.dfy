/** The expiring cache of `mocha/mod.rs` as a step system: clients and the
    expiry worker interleave over a shared map, a FIFO command queue and a
    logical clock. Each event is one atomic access to shared state. */
module CacheModel {
  import opened Machine
  import opened TimerBag

  type Key = seq<byte>
  type Payload = seq<byte>
  type Timer = TimerItem<Key>

  datatype Entry = Entry(value: Payload, expireAt: Option<u64>)
  datatype Policy = Persistent | Absolute(at: u64) | Ttl(ttl: u64)

  datatype Command =
    | Schedule(item: Timer)
    | ScheduleBatch(items: seq<Timer>)
    | Advance
    | AdvanceAndWait(ticket: nat)
    | HasExpired(localNow: u64, ticket: nat)

  /** Where the expiry worker stands between two shared accesses. */
  datatype Worker =
    | Waiting
    | Received(cmd: Command)
    | Firing(todo: seq<Timer>, cmd: Command)
    | FiringAt(now: u64, todo: seq<Timer>, cmd: Command)
    | Placing(rest: seq<Timer>, placedAt: u64)
    | Dropping(now: u64, rest: seq<Timer>, placedAt: u64)
    | Scanning(localNow: u64, rest: seq<Timer>, ticket: nat)

  /** Where a client stands inside a cache operation. */
  datatype Client =
    | Ready
    | Inserting(key: Key, entry: Entry)
    | Sending(cmd: Command)
    | Reading(key: Key, now: u64)
    | Reaping(key: Key, at: u64, now: u64)
    | SettingExpiry(key: Key, policy: Policy, now: u64)
    | Removing(key: Key, now: u64)
    | Unlinking(key: Key, now: u64)
    | UnlinkingBatch(keys: seq<Key>, items: seq<Timer>, now: u64)

  datatype State = State(
    store: map<Key, Entry>,
    clock: u64,
    queue: seq<Command>,
    wheelNow: u64,
    wheel: multiset<Timer>,
    worker: Worker,
    clients: map<nat, Client>,
    answered: set<nat>,
    dueReplies: map<nat, bool>)

  /** One shared access of a client. */
  datatype Act =
    | BeginInsert(key: Key, value: Payload, policy: Policy)
    | WriteEntry
    | Send
    | BeginGet(key: Key)
    | Lookup
    | Reap
    | BeginSetExpiry(key: Key, policy: Policy)
    | ApplyExpiry
    | BeginRemove(key: Key)
    | ApplyRemove
    | BeginUnlink(key: Key)
    | ApplyUnlink
    | BeginUnlinkBatch(keys: seq<Key>)
    | UnlinkNext
    | FinishUnlinkBatch
    | Clear
    | Ask(cmd: Command)

  /** One shared access of the worker. */
  datatype Work =
    | Receive
    | AdvanceWheel(fired: seq<Timer>, kept: multiset<Timer>)
    | LoadToFire
    | Fire
    | FinishFiring
    | PlaceNext
    | DropNext
    | FinishPlacing
    | BeginScan(order: seq<Timer>)
    | ScanNext
    | FinishScan

  datatype Event = ClockSet(to: u64) | ByClient(c: nat, act: Act) | ByWorker(work: Work)

  // ---- Policies and liveness -------------------------------------------

  function SaturatingAdd(a: u64, b: u64): u64 {
    if a + b < U64_LIMIT then a + b else U64_LIMIT - 1
  }

  function ResolveExpireAt(policy: Policy, clock: u64): Option<u64> {
    match policy
    case Persistent => None
    case Absolute(at) => Some(at)
    case Ttl(ttl) => Some(SaturatingAdd(clock, ttl))
  }

  predicate ExpiredAt(e: Entry, now: u64) {
    e.expireAt.Some? && now >= e.expireAt.value
  }

  /** The plain map that the cache stands for: its entries that are alive. */
  function View(store: map<Key, Entry>, clock: u64): map<Key, Entry> {
    map k | k in store && !ExpiredAt(store[k], clock) :: store[k]
  }

  predicate HasTimer(store: map<Key, Entry>, t: Timer) {
    t.key in store && store[t.key].expireAt == Some(t.expireAt)
  }

  /** `remove_expired_if_current_from`: drop the entry only if this very
      timer is still the current one and is due. */
  function DropIfCurrent(store: map<Key, Entry>, t: Timer, now: u64): map<Key, Entry> {
    if HasTimer(store, t) && now >= t.expireAt then store - {t.key} else store
  }

  // ---- Timers held in the various places -------------------------------

  function CommandTimers(cmd: Command): seq<Timer> {
    match cmd
    case Schedule(item) => [item]
    case ScheduleBatch(items) => items
    case _ => []
  }

  function ClientTimers(p: Client): seq<Timer> {
    match p
    case Sending(cmd) => CommandTimers(cmd)
    case UnlinkingBatch(_, items, _) => items
    case _ => []
  }

  function WorkerTimers(w: Worker): seq<Timer> {
    match w
    case Waiting => []
    case Received(cmd) => CommandTimers(cmd)
    case Firing(todo, cmd) => todo + CommandTimers(cmd)
    case FiringAt(_, todo, cmd) => todo + CommandTimers(cmd)
    case Placing(rest, _) => rest
    case Dropping(_, rest, _) => rest
    case Scanning(_, _, _) => []
  }

  function ClientAt(s: State, c: nat): Client {
    if c in s.clients then s.clients[c] else Ready
  }

  ghost predicate QueueHolds(queue: seq<Command>, t: Timer) {
    exists i :: 0 <= i < |queue| && t in CommandTimers(queue[i])
  }

  ghost predicate ClientHolds(s: State, t: Timer) {
    exists c :: c in s.clients && t in ClientTimers(s.clients[c])
  }

  // ---- Steps -------------------------------------------------------------

  function Init(clock: u64): State {
    State(map[], clock, [], clock, multiset{}, Waiting, map[], {}, map[])
  }

  predicate ActEnabled(p: Client, act: Act) {
    match act
    case WriteEntry => p.Inserting?
    case Send => p.Sending?
    case Lookup => p.Reading?
    case Reap => p.Reaping?
    case ApplyExpiry => p.SettingExpiry?
    case ApplyRemove => p.Removing?
    case ApplyUnlink => p.Unlinking?
    case UnlinkNext => p.UnlinkingBatch? && p.keys != []
    case FinishUnlinkBatch => p.UnlinkingBatch? && p.keys == []
    case Ask(cmd) => p.Ready? && (cmd.Advance? || cmd.AdvanceAndWait? || cmd.HasExpired?)
    case _ => p.Ready?
  }

  /** What an operation answers, at the access that settles it. */
  datatype Answer =
    | Pending
    | Stored(snapshot: Entry)
    | Found(entry: Option<Entry>)
    | Removed(entry: Option<Entry>)
    | Updated(entry: Option<Entry>)
    | Unlinked(count: nat)

  /** What one client access does: new map, new client position, commands sent,
      answer given. */
  datatype Effect = Effect(store: map<Key, Entry>, client: Client, sent: seq<Command>, answer: Answer)

  /** The entry under a key, if it was alive at `now`. */
  function AliveAt(store: map<Key, Entry>, key: Key, now: u64): Option<Entry> {
    if key in store && !ExpiredAt(store[key], now) then Some(store[key]) else None
  }

  /** After writing an entry its timer, if any, is still to be sent. */
  function AfterWrite(key: Key, e: Entry): Client {
    if e.expireAt.Some? then Sending(Schedule(TimerItem(key, e.expireAt.value))) else Ready
  }

  predicate Unlinks(store: map<Key, Entry>, key: Key, now: u64) {
    key in store && !ExpiredAt(store[key], now)
  }

  /** Marks an entry that was alive at `now` as expired from `now` on. */
  function UnlinkIn(store: map<Key, Entry>, key: Key, now: u64): map<Key, Entry> {
    if Unlinks(store, key, now) then store[key := store[key].(expireAt := Some(now))] else store
  }

  function ExpiryEffect(store: map<Key, Entry>, clock: u64, key: Key, policy: Policy, now: u64): Effect {
    if key !in store then Effect(store, Ready, [], Updated(None))
    else if ExpiredAt(store[key], now) then Effect(store - {key}, Ready, [], Updated(None))
    else
      var e := Entry(store[key].value, ResolveExpireAt(policy, clock));
      Effect(store[key := e], AfterWrite(key, e), [], Updated(Some(e)))
  }

  function ActEffect(store: map<Key, Entry>, clock: u64, p: Client, act: Act): Effect
    requires ActEnabled(p, act)
  {
    match act
    case BeginInsert(key, value, policy) =>
      Effect(store, Inserting(key, Entry(value, ResolveExpireAt(policy, clock))), [], Pending)
    case WriteEntry => Effect(store[p.key := p.entry], AfterWrite(p.key, p.entry), [], Stored(p.entry))
    case Send => Effect(store, Ready, [p.cmd], Pending)
    case BeginGet(key) => Effect(store, Reading(key, clock), [], Pending)
    case Lookup =>
      Effect(store,
        if p.key in store && ExpiredAt(store[p.key], p.now)
        then Reaping(p.key, store[p.key].expireAt.value, p.now) else Ready,
        [], Found(AliveAt(store, p.key, p.now)))
    case Reap => Effect(DropIfCurrent(store, TimerItem(p.key, p.at), p.now), Ready, [], Pending)
    case BeginSetExpiry(key, policy) => Effect(store, SettingExpiry(key, policy, clock), [], Pending)
    case ApplyExpiry => ExpiryEffect(store, clock, p.key, p.policy, p.now)
    case BeginRemove(key) => Effect(store, Removing(key, clock), [], Pending)
    case ApplyRemove => Effect(store - {p.key}, Ready, [], Removed(AliveAt(store, p.key, p.now)))
    case BeginUnlink(key) => Effect(store, Unlinking(key, clock), [], Pending)
    case ApplyUnlink =>
      var hit := Unlinks(store, p.key, p.now);
      Effect(UnlinkIn(store, p.key, p.now),
        if hit then Sending(Schedule(TimerItem(p.key, p.now))) else Ready, [], Unlinked(if hit then 1 else 0))
    case BeginUnlinkBatch(keys) => Effect(store, UnlinkingBatch(keys, [], clock), [], Pending)
    case UnlinkNext =>
      var items := if Unlinks(store, p.keys[0], p.now) then p.items + [TimerItem(p.keys[0], p.now)] else p.items;
      Effect(UnlinkIn(store, p.keys[0], p.now), UnlinkingBatch(p.keys[1..], items, p.now), [], Pending)
    case FinishUnlinkBatch =>
      Effect(store, if p.items == [] then Ready else Sending(ScheduleBatch(p.items)), [], Unlinked(|p.items|))
    case Clear => Effect(map[], Ready, [], Pending)
    case Ask(cmd) => Effect(store, Ready, [cmd], Pending)
  }

  ghost predicate WorkEnabled(s: State, work: Work) {
    match work
    case Receive => s.worker.Waiting? && s.queue != []
    case AdvanceWheel(fired, kept) =>
      && s.worker.Received? && !s.worker.cmd.HasExpired?
      && Advances(s.wheelNow, s.wheel, s.clock, LaterOf(s.wheelNow, s.clock), kept, fired)
    case LoadToFire => s.worker.Firing? && s.worker.todo != []
    case Fire => s.worker.FiringAt? && s.worker.todo != []
    case FinishFiring => s.worker.Firing? && s.worker.todo == []
    case PlaceNext => s.worker.Placing? && s.worker.rest != []
    case DropNext => s.worker.Dropping? && s.worker.rest != []
    case FinishPlacing => s.worker.Placing? && s.worker.rest == []
    case BeginScan(order) => s.worker.Received? && s.worker.cmd.HasExpired? && multiset(order) == s.wheel
    case ScanNext => s.worker.Scanning? && s.worker.rest != []
    case FinishScan => s.worker.Scanning? && s.worker.rest == []
  }

  function LaterOf(a: u64, b: u64): u64 {
    if a <= b then b else a
  }

  /** The scan for `HasExpired` ends with a reply. */
  function RepliesDue(s: State, due: bool): State
    requires s.worker.Scanning?
  {
    s.(worker := Waiting, dueReplies := s.dueReplies[s.worker.ticket := due])
  }

  /** `HasExpired` scans the wheel only, timer by timer, each checked against
      the map as it then is. */
  function ApplyWork(s: State, work: Work): (s': State)
    requires WorkEnabled(s, work)
    ensures s'.clients == s.clients && s'.clock == s.clock
    ensures !work.Receive? ==> s'.queue == s.queue
    ensures !work.AdvanceWheel? ==> s'.wheelNow == s.wheelNow
    ensures !work.AdvanceWheel? && !work.PlaceNext? ==> s'.wheel == s.wheel
    ensures !work.FinishFiring? ==> s'.answered == s.answered
  {
    match work
    case Receive => s.(queue := s.queue[1..], worker := Received(s.queue[0]))
    case AdvanceWheel(fired, kept) =>
      s.(wheelNow := LaterOf(s.wheelNow, s.clock), wheel := kept, worker := Firing(fired, s.worker.cmd))
    case LoadToFire => s.(worker := FiringAt(s.clock, s.worker.todo, s.worker.cmd))
    case Fire =>
      s.(store := DropIfCurrent(s.store, s.worker.todo[0], s.worker.now),
         worker := Firing(s.worker.todo[1..], s.worker.cmd))
    case FinishFiring =>
      (match s.worker.cmd
       case Schedule(item) => s.(worker := Placing([item], s.clock))
       case ScheduleBatch(items) => s.(worker := Placing(items, s.clock))
       case AdvanceAndWait(ticket) => s.(worker := Waiting, answered := s.answered + {ticket})
       case _ => s.(worker := Waiting))
    case PlaceNext =>
      var t := s.worker.rest[0];
      if t.expireAt <= s.worker.placedAt
      then s.(worker := Dropping(s.clock, s.worker.rest, s.worker.placedAt))
      else s.(wheel := s.wheel + multiset{t}, worker := Placing(s.worker.rest[1..], s.worker.placedAt))
    case DropNext =>
      s.(store := DropIfCurrent(s.store, s.worker.rest[0], s.worker.now),
         worker := Placing(s.worker.rest[1..], s.worker.placedAt))
    case FinishPlacing => s.(worker := Waiting)
    case BeginScan(order) => s.(worker := Scanning(s.worker.cmd.localNow, order, s.worker.cmd.ticket))
    case ScanNext =>
      if s.worker.rest[0].expireAt <= s.worker.localNow && HasTimer(s.store, s.worker.rest[0])
      then RepliesDue(s, true)
      else s.(worker := s.worker.(rest := s.worker.rest[1..]))
    case FinishScan => RepliesDue(s, false)
  }

  ghost predicate Enabled(s: State, ev: Event) {
    match ev
    case ClockSet(_) => true
    case ByClient(c, act) => ActEnabled(ClientAt(s, c), act)
    case ByWorker(work) => WorkEnabled(s, work)
  }

  function ApplyAct(s: State, c: nat, act: Act): State
    requires ActEnabled(ClientAt(s, c), act)
  {
    var e := ActEffect(s.store, s.clock, ClientAt(s, c), act);
    s.(store := e.store, queue := s.queue + e.sent, clients := s.clients[c := e.client])
  }

  /** One event; the clock is set by `fetch_max`, so it never goes back. */
  function Apply(s: State, ev: Event): State
    requires Enabled(s, ev)
  {
    match ev
    case ClockSet(to) => s.(clock := LaterOf(s.clock, to))
    case ByClient(c, act) => ApplyAct(s, c, act)
    case ByWorker(work) => ApplyWork(s, work)
  }

  // ---- Runs --------------------------------------------------------------

  /** `states` is the run that `evs` drives from `states[0]`. */
  ghost predicate IsRun(states: seq<State>, evs: seq<Event>) {
    && |states| == |evs| + 1
    && forall i :: 0 <= i < |evs| ==> Enabled(states[i], evs[i]) && states[i + 1] == Apply(states[i], evs[i])
  }
}
