/**
 Replicas of the state machine (internal/raft/fsm.go, internal/broker/broker.go): each one applies
 the committed commands with its own clock and its own compression and segment-size settings, and
 runs retention, compaction and topic creation whenever it likes.
 */
module Replicas {
  import opened Bytes
  import opened Format
  import opened Views
  import opened SegmentFile
  import opened CommitLog
  import opened Frames
  import opened Runs

  const NUM_PARTITIONS: nat := 3

  /** The partition logs of every topic that the broker has created so far. */
  type Replica = map<bytes, seq<LogView>>

  /** A replica's fixed settings for each topic. */
  type Settings = bytes -> Config

  ghost predicate ValidSettings(settings: Settings) {
    forall topic :: settings(topic).maxSegmentSize > 0
  }

  predicate ValidReplica(state: Replica) {
    forall topic :: topic in state ==> |state[topic]| == NUM_PARTITIONS
  }

  function PartitionOf(state: Replica, topic: bytes, p: nat): (v: LogView)
    ensures |v| > 0
  {
    if topic in state && p < |state[topic]| && |state[topic][p]| > 0 then state[topic][p] else EMPTY_LOG
  }

  /** GetPartition creates all partitions of a topic the first time it is named. */
  function Touch(state: Replica, topic: bytes): Replica {
    if topic in state then state else state[topic := [EMPTY_LOG, EMPTY_LOG, EMPTY_LOG]]
  }

  /** One log operation on one partition of an existing topic. */
  function OnPartition(settings: Settings, state: Replica, topic: bytes, p: nat, op: Op): Replica
    requires topic in state && p < |state[topic]|
  {
    state[topic := state[topic][p := Step(settings(topic), PartitionOf(state, topic, p), op)]]
  }

  datatype Response = Offset(offset: nat) | OffsetList(offsets: seq<nat>) | Rejected

  function Timed(now: int64, r: KeyValue): Record { Record(now, r.key, r.value) }

  function TimedAll(now: int64, rs: seq<KeyValue>): seq<Record> {
    seq(|rs|, i requires 0 <= i < |rs| => Timed(now, rs[i]))
  }

  function OpOf(body: Body, now: int64): Op {
    match body
    case Single(r) => Append(Timed(now, r))
    case Batch(rs) => AppendBatch(TimedAll(now, rs))
  }

  function ResponseOf(body: Body, end: nat): Response {
    match body
    case Single(_) => Offset(end)
    case Batch(rs) => OffsetList(Offsets(end, |rs|))
  }

  /** FSM.Apply: the partition is looked up, and its topic created, before the body is decoded. */
  function Apply(settings: Settings, state: Replica, data: bytes, now: int64): (Replica, Response)
    requires ValidReplica(state)
  {
    var target := TakeTarget(data);
    if target.Err? || target.value.1 >= NUM_PARTITIONS then (state, Rejected) else
      var (topic, p, at) := target.value;
      var touched := Touch(state, topic);
      var body := TakeBody(data, data[0], at);
      if body.Err? then (touched, Rejected) else
        (OnPartition(settings, touched, topic, p, OpOf(body.value.0, now)),
         ResponseOf(body.value.0, End(PartitionOf(touched, topic, p))))
  }

  /**
   w is v with exactly these records added at its end, each at the next offset, with this timestamp
   and its own key and value.
   */
  ghost predicate Gained(v: LogView, w: LogView, rs: seq<KeyValue>, now: int64)
    requires |v| > 0 && |w| > 0
  {
    var before, after, end := Contents(Flat(v)), Contents(Flat(w)), End(v);
    && End(w) == end + |rs|
    && (forall o :: end <= o < end + |rs| ==>
          o in after && after[o] == Message(o, now, rs[o - end].key, rs[o - end].value))
    && (forall o :: o in before ==> o in after && after[o] == before[o])
    && (forall o :: o in after ==> o in before || end <= o < end + |rs|)
  }

  /**
   FSM.Apply once GetPartition has returned the partition's log: decode the whole command, then
   append. A malformed command leaves the log as it was.
   */
  method ApplyToLog(log: Log, ghost e: Encoding, ghost v: LogView, data: bytes, now: int64)
      returns (response: Response, ghost w: LogView)
    requires log.Rep(e, v) && log.Ready(e)
    requires Decode(data).Ok? ==> Fits(e, Step(Config(e, log.maxSegmentSize), v, OpOf(Decode(data).value.0.body, now)))
    modifies log`segments, log.dir, log.segments
    ensures log.Ready(e) && |v| > 0 && |w| > 0 && log.Rep(e, w)
    ensures Decode(data).Err? ==> response == Rejected && w == v
    ensures Decode(data).Ok? ==>
      var body := Decode(data).value.0.body;
      && response == ResponseOf(body, End(v))
      && w == Step(Config(e, log.maxSegmentSize), v, OpOf(body, now))
      && Gained(v, w, RecordsOf(body), now)
  {
    hide Log.Rep, Log.Ready, Decode, Fits, Appended, Encodable, Gained, RecordsOf;
    log.RepFacts(e, v);
    DecodeBounds(data);
    w := v;
    var decoded := DecodeCommand(data);
    if decoded.Err? {
      return Rejected, w;
    }
    BodyAccepted(decoded.value.0, now);
    BodyGained(Config(e, log.maxSegmentSize), v, decoded.value.0.body, now);
    w := Step(Config(e, log.maxSegmentSize), v, OpOf(decoded.value.0.body, now));
    match decoded.value.0.body
    case Single(r) =>
      var appended := log.Append(e, v, Timed(now, r));
      return if appended.Ok? then Offset(appended.value) else Rejected, w;
    case Batch(rs) =>
      var records: seq<Record> := [];
      for i := 0 to |rs|
        invariant log.Rep(e, v) && log.Ready(e) && records == TimedAll(now, rs[..i])
      {
        records := records + [Timed(now, rs[i])];
      }
      assert rs[..|rs|] == rs;
      var appended := log.AppendBatch(e, v, records);
      return if appended.Ok? then OffsetList(appended.value) else Rejected, w;
  }

  /** A decoded body adds its records with the time at which it was applied. */
  lemma {:induction false} BodyGained(cfg: Config, v: LogView, body: Body, now: int64)
    requires Wf(v) && cfg.maxSegmentSize > 0 && BodyFits(body)
    ensures Gained(v, Step(cfg, v, OpOf(body, now)), RecordsOf(body), now)
  {
    hide Flat, Contents, WfSegment, Tiled, Appended, Extends, Gained;
    var records := match body case Single(r) => [Timed(now, r)] case Batch(rs) => TimedAll(now, rs);
    RecordsTimed(body, now, records);
    AppendedWf(cfg, v, records);
    AppendStep(cfg, v, records);
    ExtendsGained(v, Appended(cfg, v, records), records, RecordsOf(body), now);
  }

  lemma {:induction false} RecordsTimed(body: Body, now: int64, records: seq<Record>)
    requires BodyFits(body)
    requires records == match body case Single(r) => [Timed(now, r)] case Batch(rs) => TimedAll(now, rs)
    ensures AllAcceptable(records) && |records| == |RecordsOf(body)|
    ensures forall i :: 0 <= i < |records| ==> records[i] == Record(now, RecordsOf(body)[i].key, RecordsOf(body)[i].value)
  {
  }

  lemma {:induction false} ExtendsGained(v: LogView, w: LogView, records: seq<Record>, rs: seq<KeyValue>, now: int64)
    requires |v| > 0 && |w| > 0 && Extends(Abstract(v), records, Abstract(w)) && |records| == |rs|
    requires forall i :: 0 <= i < |records| ==> records[i] == Record(now, rs[i].key, rs[i].value)
    ensures Gained(v, w, rs, now)
  {
    hide Flat, Contents;
  }

  lemma {:induction false} BodyAccepted(f: Frame, now: int64)
    requires Encodable(f.topic, f.partition, f.body)
    ensures BodyFits(f.body)
    ensures f.body.Single? ==> Acceptable(Timed(now, f.body.record))
    ensures f.body.Batch? ==> AllAcceptable(TimedAll(now, f.body.records)) && |TimedAll(now, f.body.records)| == |f.body.records|
  {
  }

  datatype Event =
    | Command(data: bytes, now: int64)
    | LocalRetention(topic: bytes, partition: nat, retentionBytes: int64, retentionMs: int64, clock: int)
    | LocalCompaction(topic: bytes, partition: nat)
    | LocalTouch(topic: bytes)

  function OnExisting(settings: Settings, state: Replica, topic: bytes, p: nat, op: Op): Replica {
    if topic in state && p < |state[topic]| then OnPartition(settings, state, topic, p, op) else state
  }

  function After(settings: Settings, state: Replica, ev: Event): Replica
    requires ValidReplica(state)
  {
    match ev
    case Command(data, now) => Apply(settings, state, data, now).0
    case LocalRetention(t, p, b, ms, clock) => OnExisting(settings, state, t, p, EnforceRetention(b, ms, clock))
    case LocalCompaction(t, p) => OnExisting(settings, state, t, p, Compact)
    case LocalTouch(t) => Touch(state, t)
  }

  function RunReplica(settings: Settings, events: seq<Event>): (state: Replica)
    ensures ValidReplica(state)
  {
    if events == [] then map[] else After(settings, RunReplica(settings, events[..|events| - 1]), events[|events| - 1])
  }

  /** The committed commands among the events of a replica. */
  function Commands(events: seq<Event>): seq<bytes> {
    if events == [] then [] else
      var before, last := Commands(events[..|events| - 1]), events[|events| - 1];
      if last.Command? then before + [last.data] else before
  }

  /** What the replica answered to each command. */
  function Responses(settings: Settings, events: seq<Event>): seq<Response> {
    if events == [] then [] else
      var init, last := events[..|events| - 1], events[|events| - 1];
      var before := Responses(settings, init);
      if last.Command? then before + [Apply(settings, RunReplica(settings, init), last.data, last.now).1] else before
  }

  // ---------- The reference: what the commands alone determine ----------

  function RecordsOf(body: Body): seq<KeyValue> {
    match body
    case Single(r) => [r]
    case Batch(rs) => rs
  }

  /** The records that a command adds to a partition. */
  function Contributes(data: bytes, topic: bytes, p: nat): seq<KeyValue> {
    var d := Decode(data);
    if d.Ok? && p < NUM_PARTITIONS && d.value.0.topic == topic && d.value.0.partition == p
    then RecordsOf(d.value.0.body) else []
  }

  /** All records ever committed to a partition. */
  function Committed(commands: seq<bytes>, topic: bytes, p: nat): seq<KeyValue> {
    if commands == [] then [] else
      Committed(commands[..|commands| - 1], topic, p) + Contributes(commands[|commands| - 1], topic, p)
  }

  /** The answer to a command is determined by the commands before it. */
  function IdealResponse(commands: seq<bytes>, data: bytes): Response {
    var d := Decode(data);
    if d.Err? || d.value.0.partition >= NUM_PARTITIONS then Rejected
    else ResponseOf(d.value.0.body, |Committed(commands, d.value.0.topic, d.value.0.partition)|)
  }

  function IdealResponses(commands: seq<bytes>): seq<Response> {
    if commands == [] then [] else
      var n := |commands| - 1;
      IdealResponses(commands[..n]) + [IdealResponse(commands[..n], commands[n])]
  }

  function KeyValueOf(m: Message): KeyValue { KeyValue(m.key, m.value) }

  /** The log holds, at every offset still present, the record committed at that position. */
  ghost predicate Holds(v: LogView, committed: seq<KeyValue>) {
    && Wf(v) && End(v) == |committed|
    && forall o :: o in Contents(Flat(v)) ==> o < |committed| && KeyValueOf(Contents(Flat(v))[o]) == committed[o]
  }

  ghost predicate Consistent(state: Replica, commands: seq<bytes>) {
    forall topic: bytes, p: nat :: p < NUM_PARTITIONS ==> Holds(PartitionOf(state, topic, p), Committed(commands, topic, p))
  }

  // ---------- Every replica is consistent with the commands it has applied ----------

  function KeyValuesOf(rs: seq<Record>): seq<KeyValue> {
    seq(|rs|, i requires 0 <= i < |rs| => KeyValue(rs[i].key, rs[i].value))
  }

  lemma {:induction false} StepHolds(cfg: Config, v: LogView, op: Op, h: seq<KeyValue>)
    requires Holds(v, h) && cfg.maxSegmentSize > 0
    ensures Holds(Step(cfg, v, op), h + KeyValuesOf(Added(op)))
  {
    hide WfSegment, Tiled, Flat, Contents, Step, HighestBelow;
    StepRefines(cfg, v, op);
    assert Removes(op) || op.Reopen? ==> h + KeyValuesOf(Added(op)) == h;
  }

  lemma {:induction false} EmptyHolds()
    ensures Holds(EMPTY_LOG, [])
  {
    EmptyLogWf();
  }

  /** A decoded body is accepted whole, and adds exactly its records. */
  lemma {:induction false} AddedByBody(body: Body, now: int64)
    requires BodyFits(body)
    ensures KeyValuesOf(Added(OpOf(body, now))) == RecordsOf(body)
  {
  }

  /** A command changes at most the partition it names, and none when it is rejected. */
  lemma {:induction false} ApplyEffect(settings: Settings, state: Replica, data: bytes, now: int64, topic: bytes, p: nat)
    requires ValidReplica(state) && p < NUM_PARTITIONS
    ensures
      var (next, response) := Apply(settings, state, data, now);
      var d := Decode(data);
      && ValidReplica(next)
      && PartitionOf(next, topic, p) ==
         (if d.Ok? && d.value.0.topic == topic && d.value.0.partition == p
          then Step(settings(topic), PartitionOf(state, topic, p), OpOf(d.value.0.body, now))
          else PartitionOf(state, topic, p))
      && response ==
         (if d.Err? || d.value.0.partition >= NUM_PARTITIONS then Rejected
          else ResponseOf(d.value.0.body, End(PartitionOf(state, d.value.0.topic, d.value.0.partition))))
      && (response == Rejected ==> PartitionOf(next, topic, p) == PartitionOf(state, topic, p))
  {
    hide Step, TakeTarget, TakeBody, OpOf;
  }

  /** A command creates the topic it names, even when its body is malformed, but not for a partition out of range. */
  lemma {:induction false} ApplyCreates(settings: Settings, state: Replica, data: bytes, now: int64)
    requires ValidReplica(state)
    ensures Apply(settings, state, data, now).0.Keys ==
      var target := TakeTarget(data);
      if target.Ok? && target.value.1 < 3 then state.Keys + {target.value.0} else state.Keys
  {
    hide Step, TakeTarget, TakeBody, OpOf;
  }

  lemma {:induction false} OnExistingEffect(settings: Settings, state: Replica, t: bytes, q: nat, op: Op, topic: bytes, p: nat)
    requires ValidReplica(state)
    ensures
      var next := OnExisting(settings, state, t, q, op);
      && ValidReplica(next)
      && PartitionOf(next, topic, p) ==
         (if t == topic && q == p && topic in state && p < NUM_PARTITIONS
          then Step(settings(topic), PartitionOf(state, topic, p), op) else PartitionOf(state, topic, p))
  {
    hide Step;
  }

  /** Retention and compaction act on the one existing partition they name, and creating a topic on none. */
  lemma {:induction false} LocalEffect(settings: Settings, state: Replica, ev: Event, topic: bytes, p: nat)
    requires ValidReplica(state) && !ev.Command?
    ensures
      var v, w := PartitionOf(state, topic, p), PartitionOf(After(settings, state, ev), topic, p);
      match ev
      case LocalRetention(t, q, b, ms, clock) =>
        w == if t == topic && q == p && topic in state && p < 3
             then Retained(settings(topic).encoding, v, b, ms, clock) else v
      case LocalCompaction(t, q) =>
        w == if t == topic && q == p && topic in state && p < 3 then Compacted(v) else v
      case LocalTouch(_) => w == v
  {
    hide Retained, Compacted, OnExisting, PartitionOf;
    match ev
    case LocalRetention(t, q, b, ms, clock) =>
      OnExistingEffect(settings, state, t, q, EnforceRetention(b, ms, clock), topic, p);
    case LocalCompaction(t, q) =>
      OnExistingEffect(settings, state, t, q, Compact, topic, p);
    case LocalTouch(t) =>
      TouchKeeps(state, t, topic, p);
  }

  lemma {:induction false} LocalKeeps(settings: Settings, state: Replica, commands: seq<bytes>, t: bytes, q: nat, op: Op)
    requires ValidReplica(state) && ValidSettings(settings) && Consistent(state, commands) && Removes(op)
    ensures Consistent(OnExisting(settings, state, t, q, op), commands)
  {
    hide Holds, Step, OnExisting, Committed;
    var next := OnExisting(settings, state, t, q, op);
    forall topic: bytes, p: nat | p < NUM_PARTITIONS
      ensures Holds(PartitionOf(next, topic, p), Committed(commands, topic, p))
    {
      OnExistingEffect(settings, state, t, q, op, topic, p);
      StepHolds(settings(topic), PartitionOf(state, topic, p), op, Committed(commands, topic, p));
      assert Committed(commands, topic, p) + KeyValuesOf(Added(op)) == Committed(commands, topic, p);
    }
  }

  lemma {:induction false} CommandKeeps(settings: Settings, state: Replica, commands: seq<bytes>, data: bytes, now: int64)
    requires ValidReplica(state) && ValidSettings(settings) && Consistent(state, commands)
    ensures Consistent(Apply(settings, state, data, now).0, commands + [data])
    ensures Apply(settings, state, data, now).1 == IdealResponse(commands, data)
  {
    hide Holds, Step, Apply, Decode, Committed, OpOf, PartitionOf;
    var next := Apply(settings, state, data, now).0;
    var d := Decode(data);
    DecodeBounds(data);
    forall topic: bytes, p: nat | p < NUM_PARTITIONS
      ensures Holds(PartitionOf(next, topic, p), Committed(commands + [data], topic, p))
    {
      ApplyEffect(settings, state, data, now, topic, p);
      CommittedSnoc(commands, data, topic, p);
      if d.Ok? && d.value.0.topic == topic && d.value.0.partition == p {
        AddedByBody(d.value.0.body, now);
        assert RecordsOf(d.value.0.body) == [] ==>
          Committed(commands, topic, p) + RecordsOf(d.value.0.body) == Committed(commands, topic, p);
        StepHolds(settings(topic), PartitionOf(state, topic, p), OpOf(d.value.0.body, now), Committed(commands, topic, p));
      }
    }
    ApplyEffect(settings, state, data, now, [], 0);
    if d.Ok? && d.value.0.partition < NUM_PARTITIONS {
      HoldsEnd(PartitionOf(state, d.value.0.topic, d.value.0.partition),
               Committed(commands, d.value.0.topic, d.value.0.partition));
    }
  }

  lemma {:induction false} HoldsEnd(v: LogView, committed: seq<KeyValue>)
    requires Holds(v, committed)
    ensures Wf(v) && |v| > 0 && End(v) == |committed|
  {
  }

  lemma {:induction false} CommittedSnoc(commands: seq<bytes>, data: bytes, topic: bytes, p: nat)
    ensures Committed(commands + [data], topic, p) ==
            if Contributes(data, topic, p) == [] then Committed(commands, topic, p)
            else Committed(commands, topic, p) + Contributes(data, topic, p)
  {
    hide Contributes;
    assert (commands + [data])[..|commands|] == commands;
  }

  lemma {:induction false} TouchKeeps(state: Replica, t: bytes, topic: bytes, p: nat)
    ensures PartitionOf(Touch(state, t), topic, p) == PartitionOf(state, topic, p)
  {
  }

  /**
   Whatever a replica does locally between commands, its partitions hold what the commands committed
   and its answers are those that the commands alone determine.
   */
  lemma {:induction false} ReplicaConsistent(settings: Settings, events: seq<Event>)
    requires ValidSettings(settings)
    ensures Consistent(RunReplica(settings, events), Commands(events))
    ensures Responses(settings, events) == IdealResponses(Commands(events))
  {
    if events == [] {
      EmptyHolds();
    } else {
      hide Consistent, Apply, IdealResponse, ValidSettings, After, IdealResponses;
      var n := |events| - 1;
      var init, last := events[..n], events[n];
      ReplicaConsistent(settings, init);
      EventKeeps(settings, RunReplica(settings, init), Commands(init), last);
      if last.Command? { IdealSnoc(Commands(init), last.data); }
    }
  }

  lemma {:induction false} IdealSnoc(commands: seq<bytes>, data: bytes)
    ensures IdealResponses(commands + [data]) == IdealResponses(commands) + [IdealResponse(commands, data)]
  {
    hide IdealResponse;
    assert (commands + [data])[..|commands|] == commands;
  }

  lemma {:induction false} EventKeeps(settings: Settings, state: Replica, commands: seq<bytes>, ev: Event)
    requires ValidReplica(state) && ValidSettings(settings) && Consistent(state, commands)
    ensures Consistent(After(settings, state, ev), if ev.Command? then commands + [ev.data] else commands)
    ensures ev.Command? ==> Apply(settings, state, ev.data, ev.now).1 == IdealResponse(commands, ev.data)
  {
    hide Consistent, Apply, OnExisting, IdealResponse, ValidSettings;
    match ev
    case Command(data, now) =>
      CommandKeeps(settings, state, commands, data, now);
    case LocalRetention(t, p, b, ms, clock) =>
      LocalKeeps(settings, state, commands, t, p, EnforceRetention(b, ms, clock));
    case LocalCompaction(t, p) =>
      LocalKeeps(settings, state, commands, t, p, Compact);
    case LocalTouch(t) =>
      TouchConsistent(state, t, commands);
  }

  lemma {:induction false} TouchConsistent(state: Replica, t: bytes, commands: seq<bytes>)
    requires Consistent(state, commands)
    ensures Consistent(Touch(state, t), commands)
  {
    hide Holds, Committed;
    forall topic: bytes, p: nat | p < NUM_PARTITIONS
      ensures Holds(PartitionOf(Touch(state, t), topic, p), Committed(commands, topic, p))
    {
      TouchKeeps(state, t, topic, p);
    }
  }

  /** A decoded command adds its records to the partition it names, with the time at which it is applied. */
  lemma {:induction false} ApplyGains(settings: Settings, state: Replica, data: bytes, now: int64)
    requires ValidReplica(state) && ValidSettings(settings) && Decode(data).Ok?
    requires Decode(data).value.0.partition < NUM_PARTITIONS
    requires Wf(PartitionOf(state, Decode(data).value.0.topic, Decode(data).value.0.partition))
    ensures
      var f, next := Decode(data).value.0, Apply(settings, state, data, now).0;
      Gained(PartitionOf(state, f.topic, f.partition), PartitionOf(next, f.topic, f.partition), RecordsOf(f.body), now)
  {
    hide Decode, Apply, PartitionOf, Step, OpOf, Gained, RecordsOf, Wf;
    var f := Decode(data).value.0;
    DecodeBounds(data);
    ApplyEffect(settings, state, data, now, f.topic, f.partition);
    BodyGained(settings(f.topic), PartitionOf(state, f.topic, f.partition), f.body, now);
  }

  /** Event j applied the command that committed the message. */
  ghost predicate CommittedBy(events: seq<Event>, topic: bytes, p: nat, m: Message, j: nat)
    requires j < |events|
  {
    events[j].Command? &&
    var rs, from := Contributes(events[j].data, topic, p), |Committed(Commands(events[..j]), topic, p)|;
    && from <= m.offset < from + |rs|
    && m == Message(m.offset, events[j].now, rs[m.offset - from].key, rs[m.offset - from].value)
  }

  ghost predicate Applied(events: seq<Event>, topic: bytes, p: nat, m: Message) {
    exists j :: 0 <= j < |events| && CommittedBy(events, topic, p, m, j)
  }

  lemma {:induction false} AppliedStays(events: seq<Event>, topic: bytes, p: nat, m: Message)
    requires events != [] && Applied(events[..|events| - 1], topic, p, m)
    ensures Applied(events, topic, p, m)
  {
    hide Contributes, Committed, Commands;
    var init := events[..|events| - 1];
    var j :| 0 <= j < |init| && CommittedBy(init, topic, p, m, j);
    assert init[..j] == events[..j];
    assert CommittedBy(events, topic, p, m, j);
  }

  /**
   Every message that a replica still holds carries the key and value of the record that a command
   committed at its offset, and the replica's own clock when it applied that command.
   */
  lemma {:induction false} ReplicaTimes(settings: Settings, events: seq<Event>, topic: bytes, p: nat, o: nat)
    requires ValidSettings(settings) && p < NUM_PARTITIONS
    requires o in Contents(Flat(PartitionOf(RunReplica(settings, events), topic, p)))
    ensures Applied(events, topic, p, Contents(Flat(PartitionOf(RunReplica(settings, events), topic, p)))[o])
  {
    hide Applied, PartitionOf, After, Contents, Flat, Wf, Holds, Committed, ValidSettings;
    if events == [] {
      NothingHeld(topic, p);
    } else {
      var n := |events| - 1;
      var state := RunReplica(settings, events[..n]);
      var v, w := PartitionOf(state, topic, p), PartitionOf(RunReplica(settings, events), topic, p);
      ReplicaConsistent(settings, events[..n]);
      HoldsEnd(v, Committed(Commands(events[..n]), topic, p));
      if o in Contents(Flat(v)) {
        ReplicaTimes(settings, events[..n], topic, p, o);
        AppliedStays(events, topic, p, Contents(Flat(v))[o]);
      }
      EventHolds(settings, events, topic, p, o);
    }
  }

  lemma {:induction false} NothingHeld(topic: bytes, p: nat)
    ensures Contents(Flat(PartitionOf(map[], topic, p))) == map[]
  {
    assert EMPTY_LOG[1..] == [];
  }

  /** What the last event leaves at an offset was there before it, or it is a record that it committed. */
  lemma {:induction false} EventHolds(settings: Settings, events: seq<Event>, topic: bytes, p: nat, o: nat)
    requires ValidSettings(settings) && p < NUM_PARTITIONS && events != []
    requires
      var v := PartitionOf(RunReplica(settings, events[..|events| - 1]), topic, p);
      Wf(v) && End(v) == |Committed(Commands(events[..|events| - 1]), topic, p)|
    ensures
      var v := PartitionOf(RunReplica(settings, events[..|events| - 1]), topic, p);
      var w := PartitionOf(RunReplica(settings, events), topic, p);
      var before, after := Contents(Flat(v)), Contents(Flat(w));
      o in after ==> (o in before && before[o] == after[o]) || Applied(events, topic, p, after[o])
  {
    hide PartitionOf, Contents, Flat, Wf, Committed, Commands, Apply, Step, Decode, OpOf, OnExisting, RecordsOf, ValidSettings;
    var n := |events| - 1;
    var state := RunReplica(settings, events[..n]);
    var v, w := PartitionOf(state, topic, p), PartitionOf(RunReplica(settings, events), topic, p);
    match events[n]
    case Command(data, now) =>
      ApplyEffect(settings, state, data, now, topic, p);
      var d := Decode(data);
      if d.Ok? && d.value.0.topic == topic && d.value.0.partition == p {
        ApplyGains(settings, state, data, now);
        if o in Contents(Flat(w)) && o !in Contents(Flat(v)) {
          assert CommittedBy(events, topic, p, Contents(Flat(w))[o], n);
        }
      }
    case LocalRetention(t, q, b, ms, clock) =>
      OnExistingLoses(settings, state, t, q, EnforceRetention(b, ms, clock), topic, p);
    case LocalCompaction(t, q) =>
      OnExistingLoses(settings, state, t, q, Compact, topic, p);
    case LocalTouch(t) =>
      TouchKeeps(state, t, topic, p);
  }

  lemma {:induction false} OnExistingLoses(settings: Settings, state: Replica, t: bytes, q: nat, op: Op, topic: bytes, p: nat)
    requires ValidReplica(state) && ValidSettings(settings) && Removes(op) && Wf(PartitionOf(state, topic, p))
    ensures
      var before := Contents(Flat(PartitionOf(state, topic, p)));
      var after := Contents(Flat(PartitionOf(OnExisting(settings, state, t, q, op), topic, p)));
      forall o :: o in after ==> o in before && before[o] == after[o]
  {
    hide PartitionOf, Contents, Flat, Wf, Step, OnExisting, HighestBelow;
    OnExistingEffect(settings, state, t, q, op, topic, p);
    StepRefines(settings(topic), PartitionOf(state, topic, p), op);
  }

  /**
   Two replicas that have applied the same commands returned the same offsets, have equal end
   offsets, and agree on key and value at every offset that both can still read.
   */
  lemma {:induction false} ReplicasAgree(
    a: Settings, eventsA: seq<Event>, b: Settings, eventsB: seq<Event>, topic: bytes, p: nat, o: nat)
    requires ValidSettings(a) && ValidSettings(b) && p < NUM_PARTITIONS
    requires Commands(eventsA) == Commands(eventsB)
    ensures Responses(a, eventsA) == Responses(b, eventsB)
    ensures
      var va, vb := PartitionOf(RunReplica(a, eventsA), topic, p), PartitionOf(RunReplica(b, eventsB), topic, p);
      && End(va) == End(vb)
      && (o in Contents(Flat(va)) && o in Contents(Flat(vb)) ==>
            KeyValueOf(Contents(Flat(va))[o]) == KeyValueOf(Contents(Flat(vb))[o]))
  {
    hide Flat, Contents, PartitionOf, RunReplica, Committed, Responses, IdealResponses;
    ReplicaConsistent(a, eventsA);
    ReplicaConsistent(b, eventsB);
    assert Holds(PartitionOf(RunReplica(a, eventsA), topic, p), Committed(Commands(eventsA), topic, p));
    assert Holds(PartitionOf(RunReplica(b, eventsB), topic, p), Committed(Commands(eventsB), topic, p));
  }
}
