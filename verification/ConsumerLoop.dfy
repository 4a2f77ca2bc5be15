/**
 The fetch/consume/commit loop of the CLI (cmd/cli/main.go:353-424), run by any number of consumers
 of one group and partition against a broker whose log goes on changing. Every RPC, and each of the
 two halves of a commit, is a step of its own; any of them may fail or be lost.
 */
module ConsumerLoop {
  import opened Bytes
  import opened Format
  import opened Views
  import opened SegmentFile
  import opened Runs

  /** Where a consumer is in its loop. */
  datatype Phase = Idle | Fetched(offset: nat) | Delivered(offset: nat) | Waiting

  /**
   `stored` and `cached` are the group's offset in the database and in the cache, zero when absent;
   `requests` are commits on their way to the broker, `pending` those persisted but not yet published.
   */
  datatype State = State(
    ops: seq<Op>,
    stored: nat,
    cached: nat,
    requests: multiset<nat>,
    pending: multiset<nat>,
    consumers: map<nat, Phase>,
    deliveries: set<Message>)

  datatype Action =
    | LogStep(op: Op)
    | Fetch(consumer: nat)
    | Consume(consumer: nat)
    | SendCommit(consumer: nat)
    | Restart(consumer: nat)
    | LoseRequest(offset: nat)
    | PersistCommit(offset: nat)
    | PublishCommit(offset: nat)
    | BrokerRestart

  const INITIAL: State := State([], 0, 0, multiset{}, multiset{}, map[], {})

  function PhaseOf(s: State, c: nat): Phase { if c in s.consumers then s.consumers[c] else Idle }

  function LogOf(cfg: Config, s: State): LogView { Run(cfg, EMPTY_LOG, s.ops) }

  predicate Enabled(s: State, a: Action) {
    match a
    case LogStep(_) => true
    case Fetch(c) => PhaseOf(s, c).Idle?
    case Consume(c) => PhaseOf(s, c).Fetched?
    case SendCommit(c) => PhaseOf(s, c).Delivered?
    case Restart(_) => true
    case LoseRequest(x) => x in s.requests
    case PersistCommit(x) => x in s.requests
    case PublishCommit(x) => x in s.pending
    case BrokerRestart => true
  }

  function Do(cfg: Config, s: State, a: Action): State
    requires Enabled(s, a)
  {
    match a
    case LogStep(op) => s.(ops := s.ops + [op])
    case Fetch(c) => s.(consumers := s.consumers[c := Fetched(s.cached)])
    case Consume(c) =>
      var r := Lookup(Flat(LogOf(cfg, s)), PhaseOf(s, c).offset);
      if r.Ok? then s.(consumers := s.consumers[c := Delivered(r.value.offset)], deliveries := s.deliveries + {r.value})
      else s.(consumers := s.consumers[c := Idle])
    case SendCommit(c) =>
      s.(requests := s.requests + multiset{PhaseOf(s, c).offset + 1}, consumers := s.consumers[c := Waiting])
    case Restart(c) => s.(consumers := s.consumers[c := Idle])
    case LoseRequest(x) => s.(requests := s.requests - multiset{x})
    case PersistCommit(x) =>
      s.(stored := x, requests := s.requests - multiset{x}, pending := s.pending + multiset{x})
    case PublishCommit(x) => s.(cached := x, pending := s.pending - multiset{x})
    case BrokerRestart => s.(cached := s.stored, pending := multiset{})
  }

  /** The state after a sequence of actions, when each of them is enabled in its turn. */
  function After(cfg: Config, s: State, actions: seq<Action>): Option<State> {
    if actions == [] then Some(s) else
      var before := After(cfg, s, actions[..|actions| - 1]);
      if before.Some? && Enabled(before.value, actions[|actions| - 1])
      then Some(Do(cfg, before.value, actions[|actions| - 1])) else None
  }

  /** Every offset committed, or on its way to be, is in commits. */
  ghost predicate CommitsIn(s: State, commits: iset<nat>) {
    && s.stored in commits && s.cached in commits
    && Within(s.requests, commits) && Within(s.pending, commits)
  }

  ghost predicate Within(offsets: multiset<nat>, commits: iset<nat>) {
    forall x :: x in offsets ==> x in commits
  }

  lemma {:induction false} WithinChange(offsets: multiset<nat>, x: nat, commits: iset<nat>)
    requires Within(offsets, commits)
    ensures Within(offsets - multiset{x}, commits)
    ensures x in commits ==> Within(offsets + multiset{x}, commits)
    ensures x in offsets ==> x in commits
    ensures Within(multiset{}, commits)
  {
  }

  /** Every consumer fetches an offset in fetches, or has one to commit that is in commits. */
  ghost predicate PhasesIn(s: State, commits: iset<nat>, fetches: iset<nat>) {
    forall c :: c in s.consumers ==>
      && (s.consumers[c].Fetched? ==> s.consumers[c].offset in fetches)
      && (s.consumers[c].Delivered? ==> s.consumers[c].offset + 1 in commits)
  }

  ghost predicate Held(s: State, commits: iset<nat>, fetches: iset<nat>) {
    CommitsIn(s, commits) && PhasesIn(s, commits, fetches)
  }

  lemma {:induction false} HeldGrows(s: State, commits: iset<nat>, fetches: iset<nat>, more: iset<nat>, further: iset<nat>)
    requires Held(s, commits, fetches) && commits <= more && fetches <= further
    ensures Held(s, more, further)
  {
  }

  /** Commits only pass offsets on; a new one comes from a delivery. */
  lemma {:induction false} HeldStep(cfg: Config, s: State, a: Action, commits: iset<nat>, fetches: iset<nat>)
    requires Enabled(s, a) && Held(s, commits, fetches) && commits <= fetches
    requires a.Consume? ==>
      var r := Lookup(Flat(LogOf(cfg, s)), PhaseOf(s, a.consumer).offset);
      r.Ok? ==> r.value.offset + 1 in commits
    ensures Held(Do(cfg, s, a), commits, fetches)
  {
    assert s.cached in fetches;
    hide CommitsIn, PhasesIn, LogOf, Lookup, Flat, Do;
    CommitsStep(cfg, s, a, commits, fetches);
    PhasesStep(cfg, s, a, commits, fetches);
  }

  lemma {:induction false} PhasesStep(cfg: Config, s: State, a: Action, commits: iset<nat>, fetches: iset<nat>)
    requires Enabled(s, a) && PhasesIn(s, commits, fetches) && s.cached in fetches
    requires a.Consume? ==>
      var r := Lookup(Flat(LogOf(cfg, s)), PhaseOf(s, a.consumer).offset);
      r.Ok? ==> r.value.offset + 1 in commits
    ensures PhasesIn(Do(cfg, s, a), commits, fetches)
  {
    hide LogOf, Lookup, Flat;
  }

  lemma {:induction false} CommitsStep(cfg: Config, s: State, a: Action, commits: iset<nat>, fetches: iset<nat>)
    requires Enabled(s, a) && Held(s, commits, fetches)
    ensures CommitsIn(Do(cfg, s, a), commits)
  {
    assert a.SendCommit? ==> PhaseOf(s, a.consumer).offset + 1 in commits;
    hide LogOf, Lookup, Flat, PhasesIn, Within;
    match a
    case SendCommit(c) => WithinChange(s.requests, PhaseOf(s, c).offset + 1, commits);
    case LoseRequest(x) => WithinChange(s.requests, x, commits);
    case PersistCommit(x) =>
      WithinChange(s.requests, x, commits);
      WithinChange(s.pending, x, commits);
    case PublishCommit(x) => WithinChange(s.pending, x, commits);
    case BrokerRestart => WithinChange(s.pending, 0, commits);
    case _ =>
  }

  // ---------- At-least-once delivery ----------

  /** Every offset below n has been delivered with the record that was appended at it. */
  ghost predicate DeliveredBelow(history: seq<Record>, deliveries: set<Message>, n: nat) {
    n <= |history| && forall o :: 0 <= o < n ==> Stamp(o, history[o]) in deliveries
  }

  ghost function Reached(ops: seq<Op>, deliveries: set<Message>): iset<nat> {
    iset n: nat | DeliveredBelow(History(ops), deliveries, n)
  }

  ghost predicate Safe(s: State) {
    Held(s, Reached(s.ops, s.deliveries), Reached(s.ops, s.deliveries))
  }

  /** Deliveries and history only grow, so what is delivered stays delivered. */
  lemma {:induction false} ReachedGrows(ops: seq<Op>, longer: seq<Op>, d: set<Message>, larger: set<Message>)
    requires History(ops) <= History(longer) && d <= larger
    ensures Reached(ops, d) <= Reached(longer, larger)
  {
    hide History;
    assert forall o :: 0 <= o < |History(ops)| ==> History(longer)[o] == History(ops)[o];
  }

  lemma {:induction false} HistorySnoc(ops: seq<Op>, op: Op)
    ensures History(ops) <= History(ops + [op])
  {
    assert (ops + [op])[..|ops|] == ops;
  }

  lemma {:induction false} ConsumeDelivers(cfg: Config, s: State, o: nat)
    requires cfg.maxSegmentSize > 0 && Lookup(Flat(LogOf(cfg, s)), o).Ok?
    ensures
      var m := Lookup(Flat(LogOf(cfg, s)), o).value;
      m.offset == o < |History(s.ops)| && m == Stamp(o, History(s.ops)[o])
  {
    hide Run, History, Flat, Contents;
    RunRepresents(cfg, s.ops);
  }

  /** Consuming an offset with everything below it delivered delivers it, too. */
  lemma {:induction false} ConsumeReaches(cfg: Config, s: State, o: nat)
    requires cfg.maxSegmentSize > 0 && o in Reached(s.ops, s.deliveries) && Lookup(Flat(LogOf(cfg, s)), o).Ok?
    ensures
      var m := Lookup(Flat(LogOf(cfg, s)), o).value;
      m.offset == o && o + 1 in Reached(s.ops, s.deliveries + {m})
  {
    hide History, LogOf, Lookup;
    ConsumeDelivers(cfg, s, o);
  }

  lemma {:induction false} SafeStep(cfg: Config, s: State, a: Action)
    requires cfg.maxSegmentSize > 0 && Safe(s) && Enabled(s, a)
    ensures Safe(Do(cfg, s, a))
  {
    hide Held, Reached, History, LogOf, Lookup, Flat;
    var t := Do(cfg, s, a);
    var before, after := Reached(s.ops, s.deliveries), Reached(t.ops, t.deliveries);
    HistorySnoc(s.ops, if a.LogStep? then a.op else Compact);
    ReachedGrows(s.ops, t.ops, s.deliveries, t.deliveries);
    HeldGrows(s, before, before, after, after);
    if a.Consume? {
      var o := PhaseOf(s, a.consumer).offset;
      FetchedIsHeld(s, a.consumer, before, before);
      if Lookup(Flat(LogOf(cfg, s)), o).Ok? { ConsumeReaches(cfg, s, o); }
    }
    HeldStep(cfg, s, a, after, after);
  }

  lemma {:induction false} FetchedIsHeld(s: State, c: nat, commits: iset<nat>, fetches: iset<nat>)
    requires Held(s, commits, fetches) && PhaseOf(s, c).Fetched?
    ensures PhaseOf(s, c).offset in fetches
  {
  }

  lemma {:induction false} RunIsSafe(cfg: Config, actions: seq<Action>)
    requires cfg.maxSegmentSize > 0 && After(cfg, INITIAL, actions).Some?
    ensures Safe(After(cfg, INITIAL, actions).value)
  {
    hide Do, Enabled, Safe;
    if actions == [] {
      InitialIsSafe();
    } else {
      var n := |actions| - 1;
      RunIsSafe(cfg, actions[..n]);
      SafeStep(cfg, After(cfg, INITIAL, actions[..n]).value, actions[n]);
    }
  }

  lemma {:induction false} InitialIsSafe()
    ensures Safe(INITIAL)
  {
  }

  /**
   In any interleaving of any number of consumers, with failures at any step and the log changing
   underneath, every offset below the committed offset has been delivered with the record appended
   at that offset, whether the committed offset is read from the cache or from the database.
   */
  lemma {:induction false} AtLeastOnce(cfg: Config, actions: seq<Action>, o: nat)
    requires cfg.maxSegmentSize > 0 && After(cfg, INITIAL, actions).Some?
    ensures
      var s := After(cfg, INITIAL, actions).value;
      o < s.cached || o < s.stored ==> o < |History(s.ops)| && Stamp(o, History(s.ops)[o]) in s.deliveries
  {
    hide After, History;
    RunIsSafe(cfg, actions);
  }

  // ---------- A committed offset that has been removed ----------

  /** An offset that has been assigned and whose message is gone. */
  predicate GapAt(cfg: Config, s: State, o: nat) {
    o < End(LogOf(cfg, s)) && o !in Contents(Flat(LogOf(cfg, s)))
  }

  /** No consumer, request or half-done commit holds an offset other than the committed one. */
  ghost predicate NothingInHand(s: State) {
    && s.stored == s.cached && s.requests == multiset{} && s.pending == multiset{}
    && (forall c :: c in s.consumers ==> !s.consumers[c].Delivered?)
    && (forall c :: c in s.consumers && s.consumers[c].Fetched? ==> s.consumers[c].offset == s.cached)
  }

  ghost predicate AtGap(cfg: Config, s: State) { NothingInHand(s) && GapAt(cfg, s, s.cached) }

  lemma {:induction false} GapStays(cfg: Config, s: State, op: Op, o: nat)
    requires cfg.maxSegmentSize > 0 && GapAt(cfg, s, o)
    ensures GapAt(cfg, s.(ops := s.ops + [op]), o)
  {
    hide Flat, Contents, Step, Wf, Next, Run;
    var v := LogOf(cfg, s);
    RunStep(cfg, s.ops, op);
    RunRepresents(cfg, s.ops);
    StepRefines(cfg, v, op);
    NextOnlyLoses(Abstract(v), op, Abstract(Step(cfg, v, op)));
  }

  lemma {:induction false} GapStep(cfg: Config, s: State, a: Action)
    requires cfg.maxSegmentSize > 0 && AtGap(cfg, s) && Enabled(s, a)
    ensures AtGap(cfg, Do(cfg, s, a))
    ensures Do(cfg, s, a).cached == s.cached && Do(cfg, s, a).deliveries == s.deliveries
  {
    hide Flat, Contents, Run;
    if a.LogStep? { GapStays(cfg, s, a.op, s.cached); }
  }

  /**
   Once the committed offset is a gap and no other offset is in hand, the group is stuck: whatever
   happens next, nothing is delivered and the committed offset never moves again.
   */
  lemma {:induction false} GapStopsGroup(cfg: Config, s: State, actions: seq<Action>)
    requires cfg.maxSegmentSize > 0 && AtGap(cfg, s) && After(cfg, s, actions).Some?
    ensures
      var t := After(cfg, s, actions).value;
      AtGap(cfg, t) && t.cached == s.cached && t.deliveries == s.deliveries
  {
    hide Do, Enabled, AtGap;
    if actions != [] {
      var n := |actions| - 1;
      GapStopsGroup(cfg, s, actions[..n]);
      GapStep(cfg, After(cfg, s, actions[..n]).value, actions[n]);
    }
  }

  // ---------- Reaching such a state ----------

  lemma {:induction false} AfterTwo(cfg: Config, s: State, a: Action, b: Action)
    requires Enabled(s, a) && Enabled(Do(cfg, s, a), b)
    ensures After(cfg, s, [a, b]) == Some(Do(cfg, Do(cfg, s, a), b))
  {
    hide Do, Enabled;
    AfterCons(cfg, s, a, [b]);
    AfterCons(cfg, Do(cfg, s, a), b, []);
  }

  lemma {:induction false} AfterCons(cfg: Config, s: State, a: Action, rest: seq<Action>)
    requires Enabled(s, a)
    ensures After(cfg, s, [a] + rest) == After(cfg, Do(cfg, s, a), rest)
  {
    hide Do, Enabled;
    var all := [a] + rest;
    if rest == [] {
      assert all[..0] == [] && all[0] == a;
      assert After(cfg, s, all[..0]) == Some(s);
    } else {
      var n := |rest| - 1;
      assert all[..|all| - 1] == [a] + rest[..n] && all[|all| - 1] == rest[n];
      AfterCons(cfg, s, a, rest[..n]);
    }
  }

  /** Retention reaches a gap: it drops the first segment before the group has read anything. */
  lemma {:induction false} RetentionReachesGap(cfg: Config, r: Record)
    requires 0 < cfg.maxSegmentSize <= 24 && Acceptable(r)
    ensures
      var s := After(cfg, INITIAL, [LogStep(Append(r)), LogStep(EnforceRetention(1, 0, 0))]);
      s.Some? && AtGap(cfg, s.value)
  {
    hide LogBytes, Wf, RetentionPoint, Flat, Contents;
    var drop := EnforceRetention(1, 0, 0);
    AfterTwo(cfg, INITIAL, LogStep(Append(r)), LogStep(drop));
    FirstAppend(cfg, r);
    var v := Run(cfg, EMPTY_LOG, [Append(r)]);
    assert [Append(r), drop][..1] == [Append(r)];
    assert [] + [Append(r)] + [drop] == [Append(r), drop];
    var k := RetentionPoint(cfg.encoding, v, 1, 0, 0);
    FirstExpires(cfg.encoding, v);
    RetainStep(v, k);
  }

  lemma {:induction false} FirstExpires(e: Encoding, v: LogView)
    requires |v| == 2 && |LogBytes(e, v[0].msgs)| >= 24
    ensures RetentionPoint(e, v, 1, 0, 0) == 1
  {
    hide LogBytes;
  }

  /** So does compaction: a later record of the same key replaces the one the group would read next. */
  lemma {:induction false} CompactionReachesGap(cfg: Config, first: Record, second: Record)
    requires 0 < cfg.maxSegmentSize <= 24 && Acceptable(first) && Acceptable(second) && first.key == second.key
    ensures
      var s := After(cfg, INITIAL, [LogStep(Append(first)), LogStep(Append(second)), LogStep(Compact)]);
      s.Some? && AtGap(cfg, s.value)
  {
    hide LogBytes, Wf, Appended, Compacted, Flat, Contents;
    var appends := [Append(first), Append(second)];
    var s := INITIAL.(ops := [Append(first)]);
    assert [LogStep(Append(first))] + [LogStep(Append(second)), LogStep(Compact)]
           == [LogStep(Append(first)), LogStep(Append(second)), LogStep(Compact)];
    AfterCons(cfg, INITIAL, LogStep(Append(first)), [LogStep(Append(second)), LogStep(Compact)]);
    AfterTwo(cfg, s, LogStep(Append(second)), LogStep(Compact));
    TwoAppends(cfg, first, second);
    var v := Run(cfg, EMPTY_LOG, appends);
    assert (appends + [Compact])[..2] == appends;
    assert [] + [Append(first)] == [Append(first)] && [Append(first)] + [Append(second)] == appends;
    ReplacedIsRemoved(v, 0, 1);
  }

  lemma {:induction false} TwoAppends(cfg: Config, first: Record, second: Record)
    requires 0 < cfg.maxSegmentSize <= 24 && Acceptable(first) && Acceptable(second)
    ensures
      var v := Run(cfg, EMPTY_LOG, [Append(first), Append(second)]);
      var c := Contents(Flat(v));
      && Wf(v) && Active(v).base == 2
      && 1 in c && c[1] == Stamp(1, second) && (0 in c ==> c[0] == Stamp(0, first))
  {
    hide LogBytes, Wf, Appended, Flat, Contents;
    var appends := [Append(first), Append(second)];
    var u, v := Run(cfg, EMPTY_LOG, [Append(first)]), Run(cfg, EMPTY_LOG, appends);
    assert appends[..1] == [Append(first)] && [second][0] == second;
    FirstAppend(cfg, first);
    FillingAppend(cfg, u, second);
    AppendStep(cfg, u, [second]);
    RunRepresents(cfg, appends);
    assert History(appends) == [first, second];
  }

  lemma {:induction false} ReplacedIsRemoved(v: LogView, o: nat, p: nat)
    requires Wf(v) && o < p < Active(v).base && p in Contents(Flat(v))
    requires o in Contents(Flat(v)) ==> Contents(Flat(v))[o].key == Contents(Flat(v))[p].key
    ensures End(Compacted(v)) == End(v) && o < End(v) && o !in Contents(Flat(Compacted(v)))
  {
    hide Wf, Compacted, Flat, Contents;
    CompactStep(v);
    StartBelowEnd(v);
  }

  // ---------- One consumer without failures ----------

  /** Nothing is on its way to the broker and no commit is half done. */
  predicate Settled(s: State) {
    s.stored == s.cached && s.requests == multiset{} && s.pending == multiset{}
  }

  lemma {:induction false} AfterConcat(cfg: Config, s: State, first: seq<Action>, second: seq<Action>)
    requires After(cfg, s, first).Some?
    ensures After(cfg, s, first + second) == After(cfg, After(cfg, s, first).value, second)
  {
    hide Do, Enabled;
    if second == [] {
      assert first + second == first;
    } else {
      var n := |second| - 1;
      assert (first + second)[..|first| + n] == first + second[..n];
      AfterConcat(cfg, s, first, second[..n]);
    }
  }

  lemma {:induction false} AfterThree(cfg: Config, s: State, a: Action, b: Action, c: Action)
    requires Enabled(s, a) && Enabled(Do(cfg, s, a), b) && Enabled(Do(cfg, Do(cfg, s, a), b), c)
    ensures After(cfg, s, [a, b, c]) == Some(Do(cfg, Do(cfg, Do(cfg, s, a), b), c))
  {
    hide Do, Enabled;
    AfterCons(cfg, s, a, [b, c]);
    assert [a] + [b, c] == [a, b, c];
    AfterTwo(cfg, Do(cfg, s, a), b, c);
  }

  /** Reading the committed offset delivers the message there, or leaves the consumer to ask again. */
  lemma {:induction false} ReadTurn(cfg: Config, s: State, c: nat)
    requires cfg.maxSegmentSize > 0
    ensures
      var present := Contents(Flat(LogOf(cfg, s)));
      After(cfg, s, [Restart(c), Fetch(c), Consume(c)]) == Some(
        if s.cached in present
        then s.(consumers := s.consumers[c := Delivered(s.cached)], deliveries := s.deliveries + {present[s.cached]})
        else s.(consumers := s.consumers[c := Idle]))
  {
    hide Run, Flat, Contents, After;
    var present := Contents(Flat(LogOf(cfg, s)));
    AfterThree(cfg, s, Restart(c), Fetch(c), Consume(c));
    var fetched := Do(cfg, Do(cfg, s, Restart(c)), Fetch(c));
    assert LogOf(cfg, fetched) == LogOf(cfg, s) && PhaseOf(fetched, c) == Fetched(s.cached);
    if s.cached in present {
      ConsumeDelivers(cfg, s, s.cached);
      assert fetched.consumers[c := Delivered(s.cached)] == s.consumers[c := Delivered(s.cached)];
    } else {
      assert fetched.consumers[c := Idle] == s.consumers[c := Idle];
    }
  }

  /** Committing a delivery moves the committed offset to the one after it, in the database and in the cache. */
  lemma {:induction false} CommitTurn(cfg: Config, s: State, c: nat, o: nat)
    requires Settled(s) && PhaseOf(s, c) == Delivered(o)
    ensures
      After(cfg, s, [SendCommit(c), PersistCommit(o + 1), PublishCommit(o + 1)]) ==
      Some(s.(stored := o + 1, cached := o + 1, consumers := s.consumers[c := Waiting]))
  {
    hide After;
    var sent := Do(cfg, s, SendCommit(c));
    assert sent.requests == multiset{o + 1};
    var stored := Do(cfg, sent, PersistCommit(o + 1));
    assert stored.requests == multiset{} && stored.pending == multiset{o + 1};
    var done := Do(cfg, stored, PublishCommit(o + 1));
    assert done.pending == multiset{};
    AfterThree(cfg, s, SendCommit(c), PersistCommit(o + 1), PublishCommit(o + 1));
  }

  function Turn(c: nat, o: nat): seq<Action> {
    [Restart(c), Fetch(c), Consume(c)] + [SendCommit(c), PersistCommit(o + 1), PublishCommit(o + 1)]
  }

  function Turns(c: nat, from: nat, n: nat): seq<Action> {
    if n == 0 then [] else Turns(c, from, n - 1) + Turn(c, from + n - 1)
  }

  /** The messages at n offsets in a row. */
  function MessagesAt(present: map<nat, Message>, from: nat, n: nat): set<Message>
    requires forall o :: from <= o < from + n ==> o in present
  {
    set o | from <= o < from + n :: present[o]
  }

  lemma {:induction false} MessagesSnoc(present: map<nat, Message>, from: nat, n: nat)
    requires forall o :: from <= o < from + n ==> o in present
    ensures MessagesAt(present, from, n) ==
            if n == 0 then {} else MessagesAt(present, from, n - 1) + {present[from + n - 1]}
  {
    if n > 0 {
      var all, init := MessagesAt(present, from, n), MessagesAt(present, from, n - 1);
      forall m
        ensures m in all <==> m in init || m == present[from + n - 1]
      {
        if m in all {
          var o :| from <= o < from + n && present[o] == m;
        }
      }
    }
  }

  lemma {:induction false} OneTurn(cfg: Config, s: State, c: nat)
    requires cfg.maxSegmentSize > 0 && Settled(s) && s.cached in Contents(Flat(LogOf(cfg, s)))
    ensures
      After(cfg, s, Turn(c, s.cached)) == Some(s.(
        stored := s.cached + 1, cached := s.cached + 1, consumers := s.consumers[c := Waiting],
        deliveries := s.deliveries + {Contents(Flat(LogOf(cfg, s)))[s.cached]}))
  {
    hide LogOf, Flat, Contents, After;
    ReadTurn(cfg, s, c);
    var t := After(cfg, s, [Restart(c), Fetch(c), Consume(c)]).value;
    CommitTurn(cfg, t, c, s.cached);
    AfterConcat(cfg, s, [Restart(c), Fetch(c), Consume(c)],
                [SendCommit(c), PersistCommit(s.cached + 1), PublishCommit(s.cached + 1)]);
    assert t.consumers[c := Waiting] == s.consumers[c := Waiting];
  }

  /**
   Exactly once without failures: over n messages in a row, one consumer delivers each of them, in
   order and no other, and commits the offset after the last one.
   */
  lemma {:induction false} LoneConsumer(cfg: Config, s: State, c: nat, n: nat)
    requires cfg.maxSegmentSize > 0 && Settled(s)
    requires forall o :: s.cached <= o < s.cached + n ==> o in Contents(Flat(LogOf(cfg, s)))
    ensures
      var t := After(cfg, s, Turns(c, s.cached, n));
      && t.Some? && Settled(t.value) && t.value.cached == s.cached + n && t.value.ops == s.ops
      && t.value.deliveries == s.deliveries + MessagesAt(Contents(Flat(LogOf(cfg, s))), s.cached, n)
  {
    hide LogOf, Flat, Contents, Turn, MessagesAt, After;
    var present := Contents(Flat(LogOf(cfg, s)));
    MessagesSnoc(present, s.cached, n);
    if n == 0 {
      AfterNone(cfg, s);
    } else {
      LoneConsumer(cfg, s, c, n - 1);
      var t := After(cfg, s, Turns(c, s.cached, n - 1)).value;
      SameLog(cfg, s, t);
      OneTurn(cfg, t, c);
      AfterConcat(cfg, s, Turns(c, s.cached, n - 1), Turn(c, t.cached));
    }
  }

  lemma {:induction false} AfterNone(cfg: Config, s: State)
    ensures After(cfg, s, []) == Some(s)
  {
  }

  lemma {:induction false} SameLog(cfg: Config, s: State, t: State)
    requires s.ops == t.ops
    ensures LogOf(cfg, s) == LogOf(cfg, t)
  {
  }

  /** A broker restart forgets half-done commits and goes on from what was stored. */
  lemma {:induction false} BrokerRestartSettles(cfg: Config, s: State)
    requires s.requests == multiset{}
    ensures
      var t := Do(cfg, s, BrokerRestart);
      Settled(t) && t.cached == s.stored && t.consumers == s.consumers && t.deliveries == s.deliveries && t.ops == s.ops
  {
  }

  // ---------- When the committed offset can move ----------

  /** Some continuation moves the committed offset past n. */
  ghost predicate CanPass(cfg: Config, s: State, n: nat) {
    exists actions :: Passes(cfg, s, actions, n)
  }

  predicate Passes(cfg: Config, s: State, actions: seq<Action>, n: nat) {
    After(cfg, s, actions).Some? && After(cfg, s, actions).value.cached > n
  }

  lemma {:induction false} PassesAfter(cfg: Config, s: State, a: Action, n: nat)
    requires Enabled(s, a) && CanPass(cfg, Do(cfg, s, a), n)
    ensures CanPass(cfg, s, n)
  {
    hide After, Do, Enabled;
    var rest :| Passes(cfg, Do(cfg, s, a), rest, n);
    AfterCons(cfg, s, a, rest);
    assert Passes(cfg, s, [a] + rest, n);
  }

  lemma {:induction false} CachedPasses(cfg: Config, s: State, n: nat)
    requires s.cached > n
    ensures CanPass(cfg, s, n)
  {
    assert Passes(cfg, s, [], n);
  }

  lemma {:induction false} PendingPasses(cfg: Config, s: State, x: nat, n: nat)
    requires x in s.pending && x > n
    ensures CanPass(cfg, s, n)
  {
    hide CanPass;
    CachedPasses(cfg, Do(cfg, s, PublishCommit(x)), n);
    PassesAfter(cfg, s, PublishCommit(x), n);
  }

  lemma {:induction false} RequestPasses(cfg: Config, s: State, x: nat, n: nat)
    requires x in s.requests && x > n
    ensures CanPass(cfg, s, n)
  {
    hide CanPass;
    PendingPasses(cfg, Do(cfg, s, PersistCommit(x)), x, n);
    PassesAfter(cfg, s, PersistCommit(x), n);
  }

  lemma {:induction false} DeliveredPasses(cfg: Config, s: State, c: nat, n: nat)
    requires PhaseOf(s, c).Delivered? && PhaseOf(s, c).offset >= n
    ensures CanPass(cfg, s, n)
  {
    hide CanPass;
    RequestPasses(cfg, Do(cfg, s, SendCommit(c)), PhaseOf(s, c).offset + 1, n);
    PassesAfter(cfg, s, SendCommit(c), n);
  }

  lemma {:induction false} PresentPasses(cfg: Config, s: State, c: nat, n: nat)
    requires cfg.maxSegmentSize > 0 && PhaseOf(s, c).Fetched? && PhaseOf(s, c).offset >= n
    requires PhaseOf(s, c).offset in Contents(Flat(LogOf(cfg, s)))
    ensures CanPass(cfg, s, n)
  {
    hide CanPass, LogOf, Flat, Contents;
    ConsumeDelivers(cfg, s, PhaseOf(s, c).offset);
    DeliveredPasses(cfg, Do(cfg, s, Consume(c)), c, n);
    PassesAfter(cfg, s, Consume(c), n);
  }

  lemma {:induction false} FetchedPasses(cfg: Config, s: State, c: nat, n: nat)
    requires cfg.maxSegmentSize > 0 && PhaseOf(s, c).Fetched? && PhaseOf(s, c).offset >= n
    requires PhaseOf(s, c).offset <= |History(s.ops)| && !GapAt(cfg, s, PhaseOf(s, c).offset)
    ensures CanPass(cfg, s, n)
  {
    hide CanPass, Flat, Contents, Run, Wf, History, Represents;
    RunRepresents(cfg, s.ops);
    EndIsCount(Abstract(LogOf(cfg, s)), History(s.ops));
    if PhaseOf(s, c).offset in Contents(Flat(LogOf(cfg, s))) {
      PresentPasses(cfg, s, c, n);
    } else {
      var append := LogStep(Append(Record(0, [], [])));
      AppendFillsEnd(cfg, s, append.op.record);
      PresentPasses(cfg, Do(cfg, s, append), c, n);
      PassesAfter(cfg, s, append, n);
    }
  }

  lemma {:induction false} EndIsCount(a: AbstractLog, history: seq<Record>)
    requires Represents(a, history)
    ensures a.end == |history|
  {
  }

  /** At the end of the log, the next record to be appended is the one to consume. */
  lemma {:induction false} AppendFillsEnd(cfg: Config, s: State, r: Record)
    requires cfg.maxSegmentSize > 0 && Acceptable(r)
    ensures End(LogOf(cfg, s)) in Contents(Flat(LogOf(cfg, s.(ops := s.ops + [Append(r)]))))
  {
    hide Flat, Contents, Appended, Wf, History, Represents, Run, Extends;
    var v := LogOf(cfg, s);
    RunRepresents(cfg, s.ops);
    RunStep(cfg, s.ops, Append(r));
    AppendStep(cfg, v, [r]);
    OneAcceptable(r);
    ExtendsAtEnd(Abstract(v), r, Abstract(Appended(cfg, v, [r])));
  }

  lemma {:induction false} RunStep(cfg: Config, ops: seq<Op>, op: Op)
    ensures Run(cfg, EMPTY_LOG, ops + [op]) == Step(cfg, Run(cfg, EMPTY_LOG, ops), op)
  {
    hide Step;
    assert (ops + [op])[..|ops|] == ops;
  }

  lemma {:induction false} OneAcceptable(r: Record)
    requires Acceptable(r)
    ensures AllAcceptable([r])
  {
  }

  lemma {:induction false} ExtendsAtEnd(a: AbstractLog, r: Record, b: AbstractLog)
    requires Extends(a, [r], b)
    ensures a.end in b.messages
  {
  }

  lemma {:induction false} CommittedPasses(cfg: Config, s: State)
    requires cfg.maxSegmentSize > 0 && s.cached <= |History(s.ops)| && !GapAt(cfg, s, s.cached)
    ensures CanPass(cfg, s, s.cached)
  {
    hide CanPass, GapAt, History;
    var idle := Do(cfg, s, Restart(0));
    var fetched := Do(cfg, idle, Fetch(0));
    SameLogSameGap(cfg, s, fetched, s.cached);
    FetchedPasses(cfg, fetched, 0, s.cached);
    PassesAfter(cfg, idle, Fetch(0), s.cached);
    PassesAfter(cfg, s, Restart(0), s.cached);
  }

  lemma {:induction false} SameLogSameGap(cfg: Config, s: State, t: State, o: nat)
    requires s.ops == t.ops
    ensures GapAt(cfg, s, o) <==> GapAt(cfg, t, o)
  {
  }

  predicate AtMost(n: nat, gap: nat) { n <= gap }

  ghost function UpTo(gap: nat): iset<nat> { iset n: nat | AtMost(n, gap) }

  ghost function GapsBeyond(cfg: Config, s: State, gap: nat): iset<nat> {
    iset n: nat | AtMost(n, gap) || GapAt(cfg, s, n)
  }

  /** A gap that no offset in hand, in flight or in the database can lead past. */
  ghost predicate Stuck(cfg: Config, s: State, gap: nat) {
    GapAt(cfg, s, gap) && Held(s, UpTo(gap), GapsBeyond(cfg, s, gap))
  }

  lemma {:induction false} GapsStay(cfg: Config, s: State, a: Action)
    requires cfg.maxSegmentSize > 0 && Enabled(s, a)
    ensures forall o: nat :: GapAt(cfg, s, o) ==> GapAt(cfg, Do(cfg, s, a), o)
  {
    hide GapAt, LogOf, Lookup;
    var t := Do(cfg, s, a);
    forall o: nat | GapAt(cfg, s, o)
      ensures GapAt(cfg, t, o)
    {
      if a.LogStep? { GapStays(cfg, s, a.op, o); } else { SameLogSameGap(cfg, s, t, o); }
    }
  }

  lemma {:induction false} StuckStep(cfg: Config, s: State, a: Action, gap: nat)
    requires cfg.maxSegmentSize > 0 && Stuck(cfg, s, gap) && Enabled(s, a)
    ensures Stuck(cfg, Do(cfg, s, a), gap)
  {
    hide Held, GapAt, LogOf, Lookup, Flat, Do;
    var t := Do(cfg, s, a);
    GapsStay(cfg, s, a);
    HeldGrows(s, UpTo(gap), GapsBeyond(cfg, s, gap), UpTo(gap), GapsBeyond(cfg, t, gap));
    if a.Consume? {
      var o := PhaseOf(s, a.consumer).offset;
      FetchedIsHeld(s, a.consumer, UpTo(gap), GapsBeyond(cfg, s, gap));
      if o >= gap {
        GapFails(cfg, s, o);
      } else if Lookup(Flat(LogOf(cfg, s)), o).Ok? {
        ConsumeDelivers(cfg, s, o);
      }
    }
    HeldStep(cfg, s, a, UpTo(gap), GapsBeyond(cfg, t, gap));
  }

  lemma {:induction false} GapFails(cfg: Config, s: State, o: nat)
    requires GapAt(cfg, s, o)
    ensures Lookup(Flat(LogOf(cfg, s)), o).Err?
  {
  }

  lemma {:induction false} StuckStays(cfg: Config, s: State, actions: seq<Action>, gap: nat)
    requires cfg.maxSegmentSize > 0 && Stuck(cfg, s, gap) && After(cfg, s, actions).Some?
    ensures After(cfg, s, actions).value.cached <= gap && Stuck(cfg, After(cfg, s, actions).value, gap)
  {
    hide Do, Enabled;
    if actions != [] {
      hide Stuck;
      var n := |actions| - 1;
      StuckStays(cfg, s, actions[..n], gap);
      StuckStep(cfg, After(cfg, s, actions[..n]).value, actions[n], gap);
      StuckBelow(cfg, After(cfg, s, actions).value, gap);
    }
  }

  lemma {:induction false} StuckBelow(cfg: Config, s: State, gap: nat)
    requires Stuck(cfg, s, gap)
    ensures s.cached <= gap
  {
  }

  /**
   In every reachable state the committed offset can still move forward, whatever it takes, exactly
   when it is not stuck; with nothing in hand, exactly when it is not a gap.
   */
  lemma {:induction false} AdvancesIff(cfg: Config, past: seq<Action>)
    requires cfg.maxSegmentSize > 0 && After(cfg, INITIAL, past).Some?
    ensures
      var s := After(cfg, INITIAL, past).value;
      && (CanPass(cfg, s, s.cached) <==> !Stuck(cfg, s, s.cached))
      && (NothingInHand(s) ==> (CanPass(cfg, s, s.cached) <==> !GapAt(cfg, s, s.cached)))
  {
    hide After, GapAt, CanPass, History;
    var s := After(cfg, INITIAL, past).value;
    RunIsSafe(cfg, past);
    if Stuck(cfg, s, s.cached) {
      StuckCannotPass(cfg, s);
    } else {
      NotStuckPasses(cfg, s);
    }
  }

  lemma {:induction false} StuckCannotPass(cfg: Config, s: State)
    requires cfg.maxSegmentSize > 0 && Stuck(cfg, s, s.cached)
    ensures !CanPass(cfg, s, s.cached)
  {
    hide After, Stuck;
    forall actions | After(cfg, s, actions).Some?
      ensures !Passes(cfg, s, actions, s.cached)
    {
      StuckStays(cfg, s, actions, s.cached);
    }
  }

  lemma {:induction false} NotStuckPasses(cfg: Config, s: State)
    requires cfg.maxSegmentSize > 0 && Safe(s) && !Stuck(cfg, s, s.cached)
    ensures CanPass(cfg, s, s.cached)
  {
    hide GapAt, CanPass, History;
    if !GapAt(cfg, s, s.cached) {
      CommittedPasses(cfg, s);
    } else if s.stored > s.cached {
      CachedPasses(cfg, Do(cfg, s, BrokerRestart), s.cached);
      PassesAfter(cfg, s, BrokerRestart, s.cached);
    } else if x :| x in s.requests && x > s.cached {
      RequestPasses(cfg, s, x, s.cached);
    } else if x :| x in s.pending && x > s.cached {
      PendingPasses(cfg, s, x, s.cached);
    } else if c :| c in s.consumers && s.consumers[c].Delivered? && s.consumers[c].offset >= s.cached {
      DeliveredPasses(cfg, s, c, s.cached);
    } else {
      var c :| c in s.consumers && s.consumers[c].Fetched? && s.consumers[c].offset > s.cached
               && !GapAt(cfg, s, s.consumers[c].offset);
      FetchedPasses(cfg, s, c, s.cached);
    }
  }
}
