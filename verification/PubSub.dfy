/** The pub/sub registry: an index from names to subscribers and, per client,
    the names it subscribed to. Each lock section is one step; a client runs
    one command at a time, clients interleave freely. */
module PubSub {
  import opened Machine
  import opened Glob

  type Name = bytes
  type Index = map<Name, set<nat>>

  datatype Kind = Channel | Pattern
  datatype Subs = Subs(channels: set<Name>, patterns: set<Name>)

  /** Where a client stands between two lock sections of its command. */
  datatype Proc =
    | Idle
    | Registering(kind: Kind, names: seq<Name>)
    | Confirming(kind: Kind, names: seq<Name>)
    | Leaving(kind: Kind, names: seq<Name>)
    | Left(kind: Kind, names: seq<Name>)
    | DroppingPatterns
    | DroppingClient

  datatype State = State(channels: Index, patterns: Index, clients: map<nat, Subs>, procs: map<nat, Proc>)

  datatype Act =
    | Subscribe(kind: Kind, names: seq<Name>)
    | Register
    | Confirm
    | Unsubscribe(kind: Kind, names: seq<Name>)
    | UnsubscribeAll(kind: Kind, names: seq<Name>)
    | Unregister
    | Forget
    | Disconnect
    | DropPatterns
    | DropClient

  function Names(s: Subs, k: Kind): set<Name> {
    if k.Channel? then s.channels else s.patterns
  }

  function IndexOf(s: State, k: Kind): Index {
    if k.Channel? then s.channels else s.patterns
  }

  function WithIndex(s: State, k: Kind, idx: Index): State {
    if k.Channel? then s.(channels := idx) else s.(patterns := idx)
  }

  function WithNames(s: Subs, k: Kind, ns: set<Name>): Subs {
    if k.Channel? then s.(channels := ns) else s.(patterns := ns)
  }

  function ProcAt(s: State, c: nat): Proc {
    if c in s.procs then s.procs[c] else Idle
  }

  function Own(s: State, c: nat, k: Kind): set<Name> {
    if c in s.clients then Names(s.clients[c], k) else {}
  }

  predicate Listed(idx: Index, n: Name, c: nat) {
    n in idx && c in idx[n]
  }

  // ---- Index updates under one lock ----------------------------------------------

  /** The client is added to every name; names appear as needed. */
  function AddAll(idx: Index, names: seq<Name>, c: nat): Index {
    map n | n in idx.Keys + Elements(names) ::
      (if n in idx then idx[n] else {}) + (if n in names then {c} else {})
  }

  /** The client is taken out of every name; names left empty disappear. */
  function RemoveAll(idx: Index, names: seq<Name>, c: nat): Index {
    map n | n in idx && !(n in names && idx[n] - {c} == {}) :: if n in names then idx[n] - {c} else idx[n]
  }

  /** `retain`: the client is taken out everywhere. */
  function Purge(idx: Index, c: nat): Index {
    map n | n in idx && idx[n] - {c} != {} :: idx[n] - {c}
  }

  // ---- Steps -----------------------------------------------------------------------

  predicate Enabled(s: State, c: nat, act: Act) {
    var p := ProcAt(s, c);
    match act
    case Subscribe(_, names) => p.Idle? && names != []
    case Register => p.Registering?
    case Confirm => p.Confirming?
    case Unsubscribe(_, names) => p.Idle? && names != []
    case UnsubscribeAll(kind, names) => p.Idle? && Elements(names) == Own(s, c, kind)
    case Unregister => p.Leaving?
    case Forget => p.Left?
    case Disconnect => p.Idle?
    case DropPatterns => p.DroppingPatterns?
    case DropClient => p.DroppingClient?
  }

  function SetProc(s: State, c: nat, p: Proc): State {
    s.(procs := s.procs[c := p])
  }

  /** Removes names from a client's own set, and the client with its last name. */
  function ForgetNames(clients: map<nat, Subs>, c: nat, k: Kind, names: seq<Name>): map<nat, Subs> {
    if c !in clients then clients
    else
      var left := WithNames(clients[c], k, Names(clients[c], k) - Elements(names));
      if left.channels == {} && left.patterns == {} then clients - {c} else clients[c := left]
  }

  function Apply(s: State, c: nat, act: Act): State
    requires Enabled(s, c, act)
  {
    var p := ProcAt(s, c);
    match act
    case Subscribe(kind, names) =>
      SetProc(s.(clients := if c in s.clients then s.clients else s.clients[c := Subs({}, {})]),
              c, Registering(kind, names))
    case Register =>
      SetProc(WithIndex(s, p.kind, AddAll(IndexOf(s, p.kind), p.names, c)), c, Confirming(p.kind, p.names))
    case Confirm =>
      SetProc(if c !in s.clients then s
              else s.(clients := s.clients[c := WithNames(s.clients[c], p.kind, Names(s.clients[c], p.kind) + Elements(p.names))]),
              c, Idle)
    case Unsubscribe(kind, names) =>
      SetProc(WithIndex(s, kind, RemoveAll(IndexOf(s, kind), names, c)), c, Left(kind, names))
    case UnsubscribeAll(kind, names) => SetProc(s, c, Leaving(kind, names))
    case Unregister =>
      SetProc(WithIndex(s, p.kind, RemoveAll(IndexOf(s, p.kind), p.names, c)), c, Left(p.kind, p.names))
    case Forget => SetProc(s.(clients := ForgetNames(s.clients, c, p.kind, p.names)), c, Idle)
    case Disconnect => SetProc(s.(channels := Purge(s.channels, c)), c, DroppingPatterns)
    case DropPatterns => SetProc(s.(patterns := Purge(s.patterns, c)), c, DroppingClient)
    case DropClient => SetProc(s.(clients := s.clients - {c}), c, Idle)
  }

  function Init(): State {
    State(map[], map[], map[], map[])
  }

  // ---- The invariant ----------------------------------------------------------------

  /** The names under which the index must list a client: its own names, give
      or take what its running command has already changed. */
  function Expected(s: State, c: nat, k: Kind): set<Name> {
    match ProcAt(s, c)
    case Confirming(kind, names) => if k == kind then Own(s, c, k) + Elements(names) else Own(s, c, k)
    case Left(kind, names) => if k == kind then Own(s, c, k) - Elements(names) else Own(s, c, k)
    case DroppingPatterns => if k.Channel? then {} else Own(s, c, k)
    case DroppingClient => {}
    case _ => Own(s, c, k)
  }

  ghost predicate ProcOk(s: State, c: nat) {
    match ProcAt(s, c)
    case Idle => c in s.clients ==> s.clients[c].channels + s.clients[c].patterns != {}
    case Registering(_, names) => c in s.clients && names != []
    case Confirming(_, names) => c in s.clients && names != []
    case _ => true
  }

  /** The index lists the client under exactly these names. */
  ghost predicate Agrees(idx: Index, c: nat, names: set<Name>) {
    forall n: Name :: Listed(idx, n, c) <==> n in names
  }

  ghost predicate ClientAgrees(s: State, c: nat) {
    Agrees(s.channels, c, Expected(s, c, Channel)) && Agrees(s.patterns, c, Expected(s, c, Pattern))
  }

  ghost predicate NoEmptySets(idx: Index) {
    forall n :: n in idx ==> idx[n] != {}
  }

  /** The two directions agree for every client, no name is kept without a
      subscriber, no idle client without a subscription. */
  ghost predicate Inv(s: State) {
    && NoEmptySets(s.channels) && NoEmptySets(s.patterns)
    && forall c :: ProcOk(s, c) && ClientAgrees(s, c)
  }

  lemma InitInv()
    ensures Inv(Init())
  {
  }

  lemma AddListed(idx: Index, names: seq<Name>, c: nat)
    requires NoEmptySets(idx)
    ensures NoEmptySets(AddAll(idx, names, c))
    ensures forall n: Name, d: nat :: Listed(AddAll(idx, names, c), n, d) <==> Listed(idx, n, d) || (d == c && n in names)
  {
    forall n: Name, d: nat
      ensures Listed(AddAll(idx, names, c), n, d) <==> Listed(idx, n, d) || (d == c && n in names)
    {
      assert n in Elements(names) <==> n in names;
    }
  }

  lemma RemoveListed(idx: Index, names: seq<Name>, c: nat)
    requires NoEmptySets(idx)
    ensures NoEmptySets(RemoveAll(idx, names, c))
    ensures forall n: Name, d: nat ::
              Listed(RemoveAll(idx, names, c), n, d) <==> Listed(idx, n, d) && !(d == c && n in names)
  {
    forall n: Name, d: nat
      ensures Listed(RemoveAll(idx, names, c), n, d) <==> Listed(idx, n, d) && !(d == c && n in names)
    {
      if n in idx { assert d in idx[n] - {c} <==> d in idx[n] && d != c; }
    }
  }

  lemma PurgeListed(idx: Index, c: nat)
    ensures NoEmptySets(Purge(idx, c))
    ensures forall n: Name, d: nat :: Listed(Purge(idx, c), n, d) <==> Listed(idx, n, d) && d != c
  {
    forall n: Name, d: nat ensures Listed(Purge(idx, c), n, d) <==> Listed(idx, n, d) && d != c {
      if n in idx { assert d in idx[n] - {c} <==> d in idx[n] && d != c; }
    }
  }

  /** The change that a step makes to one index. */
  function NewIndex(idx: Index, c: nat, p: Proc, act: Act, k: Kind): Index {
    match act
    case Register => if p.Registering? && p.kind == k then AddAll(idx, p.names, c) else idx
    case Unsubscribe(kind, names) => if kind == k then RemoveAll(idx, names, c) else idx
    case Unregister => if p.Leaving? && p.kind == k then RemoveAll(idx, p.names, c) else idx
    case Disconnect => if k.Channel? then Purge(idx, c) else idx
    case DropPatterns => if k.Pattern? then Purge(idx, c) else idx
    case _ => idx
  }

  lemma IndexAfter(s: State, c: nat, act: Act, k: Kind)
    requires Enabled(s, c, act)
    ensures IndexOf(Apply(s, c, act), k) == NewIndex(IndexOf(s, k), c, ProcAt(s, c), act, k)
  {
    hide AddAll, RemoveAll, Purge, ForgetNames;
  }

  /** A step changes the listings of the acting client only. */
  lemma OthersKeep(idx: Index, c: nat, p: Proc, act: Act, k: Kind)
    requires NoEmptySets(idx)
    ensures NoEmptySets(NewIndex(idx, c, p, act, k))
    ensures forall n: Name, d: nat :: d != c ==> (Listed(NewIndex(idx, c, p, act, k), n, d) <==> Listed(idx, n, d))
  {
    hide AddAll, RemoveAll, Purge;
    PurgeListed(idx, c);
    match act
    case Register => if p.Registering? { AddListed(idx, p.names, c); }
    case Unsubscribe(_, names) => RemoveListed(idx, names, c);
    case Unregister => if p.Leaving? { RemoveListed(idx, p.names, c); }
    case _ =>
  }

  /** The names a step must leave the acting client listed under. */
  function NewExpected(was: set<Name>, p: Proc, act: Act, k: Kind): set<Name> {
    match act
    case Register => if p.Registering? && p.kind == k then was + Elements(p.names) else was
    case Unsubscribe(kind, names) => if kind == k then was - Elements(names) else was
    case Unregister => if p.Leaving? && p.kind == k then was - Elements(p.names) else was
    case Disconnect => if k.Channel? then {} else was
    case DropPatterns => if k.Pattern? then {} else was
    case _ => was
  }

  lemma SelfAgrees(idx: Index, c: nat, p: Proc, act: Act, k: Kind, was: set<Name>)
    requires NoEmptySets(idx) && Agrees(idx, c, was)
    ensures Agrees(NewIndex(idx, c, p, act, k), c, NewExpected(was, p, act, k))
  {
    hide AddAll, RemoveAll, Purge;
    PurgeListed(idx, c);
    match act
    case Register => if p.Registering? { AddListed(idx, p.names, c); }
    case Unsubscribe(_, names) => RemoveListed(idx, names, c);
    case Unregister => if p.Leaving? { RemoveListed(idx, p.names, c); }
    case _ =>
  }

  /** The client's own bookkeeping catches up with what the index was told. */
  lemma ExpectedAfter(s: State, c: nat, act: Act, k: Kind)
    requires Enabled(s, c, act) && ProcOk(s, c)
    ensures Expected(Apply(s, c, act), c, k) == NewExpected(Expected(s, c, k), ProcAt(s, c), act, k)
  {
    hide AddAll, RemoveAll, Purge;
  }

  lemma OwnStep(s: State, c: nat, act: Act)
    requires Inv(s) && Enabled(s, c, act)
    ensures ProcOk(Apply(s, c, act), c)
    ensures forall d: nat :: d != c ==>
              && ProcAt(Apply(s, c, act), d) == ProcAt(s, d)
              && (d in Apply(s, c, act).clients <==> d in s.clients)
              && (d in s.clients ==> Apply(s, c, act).clients[d] == s.clients[d])
  {
    hide AddAll, RemoveAll, Purge;
    assert ProcOk(s, c);
    var p := ProcAt(s, c);
    if act.Confirm? {
      assert p.names[0] in Elements(p.names);
    }
  }

  /** Every step of every client preserves the invariant. */
  lemma InvStep(s: State, c: nat, act: Act)
    requires Inv(s) && Enabled(s, c, act)
    ensures Inv(Apply(s, c, act))
  {
    hide Apply, NewIndex, NewExpected;
    var s', p := Apply(s, c, act), ProcAt(s, c);
    assert ProcOk(s, c) && ClientAgrees(s, c);
    IndexAfter(s, c, act, Channel);
    IndexAfter(s, c, act, Pattern);
    ExpectedAfter(s, c, act, Channel);
    ExpectedAfter(s, c, act, Pattern);
    OthersKeep(s.channels, c, p, act, Channel);
    OthersKeep(s.patterns, c, p, act, Pattern);
    SelfAgrees(s.channels, c, p, act, Channel, Expected(s, c, Channel));
    SelfAgrees(s.patterns, c, p, act, Pattern, Expected(s, c, Pattern));
    OwnStep(s, c, act);
    forall d: nat ensures ProcOk(s', d) && ClientAgrees(s', d) {
      if d != c { assert ProcOk(s, d) && ClientAgrees(s, d); }
    }
  }

  ghost predicate IsRun(states: seq<State>, events: seq<(nat, Act)>) {
    && |states| == |events| + 1
    && forall i :: 0 <= i < |events| ==>
         Enabled(states[i], events[i].0, events[i].1) && states[i + 1] == Apply(states[i], events[i].0, events[i].1)
  }

  /** Every reachable state satisfies the invariant, in every interleaving. */
  lemma {:induction false} RunInv(states: seq<State>, events: seq<(nat, Act)>, i: nat)
    requires IsRun(states, events) && states[0] == Init() && i < |states|
    ensures Inv(states[i])
  {
    if i == 0 {
      InitInv();
    } else {
      RunInv(states, events, i - 1);
      InvStep(states[i - 1], events[i - 1].0, events[i - 1].1);
    }
  }

  /** Disconnecting erases every trace of a client, whatever others do meanwhile. */
  lemma DisconnectErases(s: State, c: nat)
    requires Inv(s) && Enabled(s, c, DropClient)
    ensures var s' := Apply(s, c, DropClient);
            c !in s'.clients && forall n: Name :: !Listed(s'.channels, n, c) && !Listed(s'.patterns, n, c)
  {
    InvStep(s, c, DropClient);
    assert ClientAgrees(Apply(s, c, DropClient), c);
  }

  // ---- Publishing ----------------------------------------------------------------------

  /** The clients a message reaches. `publish` reads the channel index, the
      pattern index and the client table under three separate locks, so the
      three may come from different states. */
  ghost function Reached(exactAt: State, patternsAt: State, clientsAt: State, channel: Name, alive: set<nat>): set<nat> {
    set c | c in clientsAt.clients && c in alive &&
            (Listed(exactAt.channels, channel, c) ||
             exists p :: p in patternsAt.patterns && MatchesPattern(channel, p) && c in patternsAt.patterns[p])
  }

  /** Is the client subscribed to the channel, directly or by pattern? */
  ghost predicate Wants(subs: Subs, channel: Name) {
    channel in subs.channels || exists p :: p in subs.patterns && MatchesPattern(channel, p)
  }

  /** With no command in flight and all receivers alive, a message reaches
      exactly the clients subscribed to it, each counted once. */
  lemma PublishExact(s: State, channel: Name, alive: set<nat>)
    requires Inv(s) && s.clients.Keys <= alive && forall c :: ProcAt(s, c).Idle?
    ensures Reached(s, s, s, channel, alive) == set c | c in s.clients && Wants(s.clients[c], channel)
  {
    forall c | c in s.clients
      ensures Wants(s.clients[c], channel) <==> c in Reached(s, s, s, channel, alive)
    {
      assert ClientAgrees(s, c) && ProcAt(s, c).Idle?;
      assert Listed(s.channels, channel, c) <==> channel in s.clients[c].channels;
      assert forall p: Name :: Listed(s.patterns, p, c) <==> p in s.clients[c].patterns;
    }
  }

  /** Everything the registry knows about one client is the same. */
  ghost predicate SameFor(c: nat, s: State, t: State) {
    && ProcAt(t, c) == ProcAt(s, c) && (c in t.clients <==> c in s.clients)
    && (c in s.clients ==> t.clients[c] == s.clients[c])
  }

  lemma {:induction false} Bystander(states: seq<State>, events: seq<(nat, Act)>, i: nat, k: nat, c: nat)
    requires IsRun(states, events) && states[0] == Init() && i <= k < |states|
    requires forall m :: i <= m < k ==> events[m].0 != c
    ensures SameFor(c, states[i], states[k])
    decreases k
  {
    if i < k {
      Bystander(states, events, i, k - 1, c);
      RunInv(states, events, k - 1);
      OwnStep(states[k - 1], events[k - 1].0, events[k - 1].1);
    }
  }

  // ---- What a completed command achieves ------------------------------------------------

  /** The names a client has of one kind once its command is done. */
  function Achieved(was: set<Name>, act: Act, k: Kind): set<Name> {
    match act
    case Subscribe(kind, names) => if k == kind then was + Elements(names) else was
    case Unsubscribe(kind, names) => if k == kind then was - Elements(names) else was
    case UnsubscribeAll(kind, _) => if k == kind then {} else was
    case Disconnect => {}
    case _ => was
  }

  /** The client is inside the command `act`, which it began with the names
      `was`, and has not touched its own names yet. */
  ghost predicate Underway(s: State, c: nat, act: Act, was: Subs) {
    && Own(s, c, Channel) == was.channels && Own(s, c, Pattern) == was.patterns
    && match ProcAt(s, c)
       case Idle => false
       case Registering(kind, names) => act == Subscribe(kind, names) && c in s.clients
       case Confirming(kind, names) => act == Subscribe(kind, names) && c in s.clients
       case Leaving(kind, names) => act == UnsubscribeAll(kind, names) && Elements(names) == Names(was, kind)
       case Left(kind, names) =>
         || act == Unsubscribe(kind, names)
         || (act == UnsubscribeAll(kind, names) && Elements(names) == Names(was, kind))
       case DroppingPatterns => act == Disconnect
       case DroppingClient => act == Disconnect
  }

  lemma BeginsUnderway(s: State, c: nat, act: Act)
    requires Enabled(s, c, act) && ProcAt(s, c).Idle?
    ensures Underway(Apply(s, c, act), c, act, Subs(Own(s, c, Channel), Own(s, c, Pattern)))
  {
    hide AddAll, RemoveAll, Purge;
  }

  lemma StaysUnderway(s: State, c: nat, next: Act, act: Act, was: Subs)
    requires Enabled(s, c, next) && Underway(s, c, act, was)
    ensures var s' := Apply(s, c, next);
            if ProcAt(s', c).Idle?
            then Own(s', c, Channel) == Achieved(was.channels, act, Channel)
                 && Own(s', c, Pattern) == Achieved(was.patterns, act, Pattern)
            else Underway(s', c, act, was)
  {
    hide AddAll, RemoveAll, Purge;
  }

  /** A command of client `c` that begins with event `i` and ends with event
      `j`; other clients act in between as they like. */
  ghost predicate Command(states: seq<State>, events: seq<(nat, Act)>, c: nat, i: nat, j: nat) {
    && IsRun(states, events) && states[0] == Init() && i < j < |events|
    && events[i].0 == c && ProcAt(states[i], c).Idle?
    && (forall m :: i < m <= j ==> !ProcAt(states[m], c).Idle?)
    && ProcAt(states[j + 1], c).Idle?
  }

  lemma {:induction false} CommandUnderway(states: seq<State>, events: seq<(nat, Act)>, c: nat, i: nat, j: nat, m: nat)
    requires Command(states, events, c, i, j) && i < m <= j
    ensures Underway(states[m], c, events[i].1, Subs(Own(states[i], c, Channel), Own(states[i], c, Pattern)))
    decreases m
  {
    hide Apply, Underway;
    var was := Subs(Own(states[i], c, Channel), Own(states[i], c, Pattern));
    if m == i + 1 {
      BeginsUnderway(states[i], c, events[i].1);
    } else {
      CommandUnderway(states, events, c, i, j, m - 1);
      var s := states[m - 1];
      var (d, next) := events[m - 1];
      if d == c {
        StaysUnderway(s, c, next, events[i].1, was);
      } else {
        RunInv(states, events, m - 1);
        OwnStep(s, d, next);
        SameUnderway(s, states[m], c, events[i].1, was);
      }
    }
  }

  lemma SameUnderway(s: State, t: State, c: nat, act: Act, was: Subs)
    requires SameFor(c, s, t) && Underway(s, c, act, was)
    ensures Underway(t, c, act, was)
  {
  }

  /** Whatever other clients do meanwhile, a completed command has changed the
      client's own names by exactly the names it was given, and the index lists
      the client under exactly those names. */
  lemma CommandAchieves(states: seq<State>, events: seq<(nat, Act)>, c: nat, i: nat, j: nat, k: Kind)
    requires Command(states, events, c, i, j)
    ensures Own(states[j + 1], c, k) == Achieved(Own(states[i], c, k), events[i].1, k)
    ensures forall n: Name :: Listed(IndexOf(states[j + 1], k), n, c) <==> n in Achieved(Own(states[i], c, k), events[i].1, k)
  {
    hide Apply, Underway;
    CommandUnderway(states, events, c, i, j, j);
    RunInv(states, events, j);
    RunInv(states, events, j + 1);
    var (d, next) := events[j];
    if d == c {
      StaysUnderway(states[j], c, next, events[i].1, Subs(Own(states[i], c, Channel), Own(states[i], c, Pattern)));
    } else {
      OwnStep(states[j], d, next);
    }
    assert ClientAgrees(states[j + 1], c);
  }

  /** Whatever other clients do while a message is being published, a client
      that runs no command of its own meanwhile gets it exactly if it is
      subscribed. */
  lemma PublishAmidCommands(states: seq<State>, events: seq<(nat, Act)>, i: nat, j: nat, k: nat,
                            channel: Name, alive: set<nat>, c: nat)
    requires IsRun(states, events) && states[0] == Init() && i <= j <= k < |states|
    requires forall m :: i <= m < k ==> events[m].0 != c
    requires ProcAt(states[i], c).Idle? && c in alive
    ensures c in Reached(states[i], states[j], states[k], channel, alive) <==>
            c in states[i].clients && Wants(states[i].clients[c], channel)
  {
    hide Apply, MatchesPattern;
    Bystander(states, events, i, j, c);
    Bystander(states, events, i, k, c);
    RunInv(states, events, i);
    RunInv(states, events, j);
    assert ClientAgrees(states[i], c) && ClientAgrees(states[j], c);
    assert Listed(states[i].channels, channel, c) <==> channel in Own(states[i], c, Channel);
    assert forall p: Name :: Listed(states[j].patterns, p, c) <==> p in Own(states[j], c, Pattern);
  }

  /** Some matching pattern lists the client: by name or by position. */
  lemma ByPosition(s: State, channel: Name, order: seq<Name>, c: nat)
    requires forall p :: p in order <==> p in s.patterns
    ensures (exists p :: p in s.patterns && MatchesPattern(channel, p) && c in s.patterns[p]) <==>
            (exists j :: 0 <= j < |order| && MatchesPattern(channel, order[j]) && c in s.patterns[order[j]])
  {
    if p :| p in s.patterns && MatchesPattern(channel, p) && c in s.patterns[p] {
      assert p in order;
      var j :| 0 <= j < |order| && order[j] == p;
      assert MatchesPattern(channel, order[j]);
    }
    if j :| 0 <= j < |order| && MatchesPattern(channel, order[j]) && c in s.patterns[order[j]] {
      assert order[j] in s.patterns;
    }
  }

  /** `publish`; `order` is the iteration order of the pattern index. The reply
      counts each client once. */
  method Publish(exactAt: State, patternsAt: State, clientsAt: State, channel: Name, order: seq<Name>, alive: set<nat>)
    returns (count: nat)
    requires forall p :: p in order <==> p in patternsAt.patterns
    ensures count == |Reached(exactAt, patternsAt, clientsAt, channel, alive)|
  {
    var exact: set<nat> := if channel in exactAt.channels then exactAt.channels[channel] else {};
    var delivered: set<nat> := set c | c in exact && c in clientsAt.clients && c in alive;
    for i := 0 to |order|
      invariant forall c: nat :: c in delivered <==>
                  && c in clientsAt.clients && c in alive
                  && (Listed(exactAt.channels, channel, c) ||
                      exists j :: 0 <= j < i && MatchesPattern(channel, order[j]) && c in patternsAt.patterns[order[j]])
    {
      var matched := MatchPattern(channel, order[i]);
      assert order[i] in order;
      if matched {
        delivered := delivered + set c | c in patternsAt.patterns[order[i]] && c in clientsAt.clients && c in alive;
      }
    }
    forall c: nat ensures c in delivered <==> c in Reached(exactAt, patternsAt, clientsAt, channel, alive) {
      ByPosition(patternsAt, channel, order, c);
    }
    assert delivered == Reached(exactAt, patternsAt, clientsAt, channel, alive);
    count := |delivered|;
  }

  // ---- The loops under a lock -----------------------------------------------------------

  /** `entry(name).or_default().insert(c)`. */
  function AddOne(idx: Index, n: Name, c: nat): Index {
    idx[n := (if n in idx then idx[n] else {}) + {c}]
  }

  /** Remove from the set of one name, and the name with its last subscriber. */
  function RemoveOne(idx: Index, n: Name, c: nat): Index {
    if n !in idx then idx
    else if idx[n] - {c} == {} then idx - {n}
    else idx[n := idx[n] - {c}]
  }

  lemma AddNothing(idx: Index, c: nat)
    ensures AddAll(idx, [], c) == idx
  {
    var none: seq<Name> := [];
    assert Elements(none) == {};
    assert AddAll(idx, none, c).Keys == idx.Keys;
    assert forall n :: n in idx ==> idx[n] + {} == idx[n];
  }

  lemma AddOneMore(idx: Index, names: seq<Name>, n: Name, c: nat)
    ensures AddAll(idx, names + [n], c) == AddOne(AddAll(idx, names, c), n, c)
  {
    assert Elements(names + [n]) == Elements(names) + {n};
    var a, b := AddAll(idx, names + [n], c), AddOne(AddAll(idx, names, c), n, c);
    assert a.Keys == b.Keys;
    forall m | m in a ensures a[m] == b[m] {
      assert m in names + [n] <==> m in names || m == n;
    }
  }

  lemma RemoveNothing(idx: Index, c: nat)
    ensures RemoveAll(idx, [], c) == idx
  {
  }

  lemma RemoveOneMore(idx: Index, names: seq<Name>, n: Name, c: nat)
    requires NoEmptySets(idx)
    ensures RemoveAll(idx, names + [n], c) == RemoveOne(RemoveAll(idx, names, c), n, c)
  {
    var a, b := RemoveAll(idx, names + [n], c), RemoveOne(RemoveAll(idx, names, c), n, c);
    forall m ensures m in a <==> m in b {
      assert m in names + [n] <==> m in names || m == n;
      if m in idx { assert idx[m] - {c} - {c} == idx[m] - {c}; }
    }
    forall m | m in a ensures a[m] == b[m] {
      assert m in names + [n] <==> m in names || m == n;
      assert idx[m] - {c} - {c} == idx[m] - {c};
    }
  }

  class Registry {
    var index: Index

    constructor ()
      ensures index == map[]
    {
      index := map[];
    }

    /** The registration loop of `subscribe`. */
    method Register(names: seq<Name>, c: nat)
      modifies this
      ensures index == AddAll(old(index), names, c)
    {
      AddNothing(index, c);
      for i := 0 to |names|
        invariant index == AddAll(old(index), names[..i], c)
      {
        assert names[..i + 1] == names[..i] + [names[i]];
        AddOneMore(old(index), names[..i], names[i], c);
        index := AddOne(index, names[i], c);
      }
      assert names[..|names|] == names;
    }

    /** The removal loop of `unsubscribe`. */
    method Unregister(names: seq<Name>, c: nat)
      requires NoEmptySets(index)
      modifies this
      ensures index == RemoveAll(old(index), names, c)
    {
      RemoveNothing(index, c);
      for i := 0 to |names|
        invariant index == RemoveAll(old(index), names[..i], c)
      {
        assert names[..i + 1] == names[..i] + [names[i]];
        RemoveOneMore(old(index), names[..i], names[i], c);
        index := RemoveOne(index, names[i], c);
      }
      assert names[..|names|] == names;
    }
  }
}
