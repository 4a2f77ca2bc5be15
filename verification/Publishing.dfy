/**
 Partition routing and publishing on the leader (internal/broker/broker.go). The hash of a key is
 a parameter; the committed command sequence is taken as given.
 */
module Publishing {
  import opened Bytes
  import opened Views
  import opened SegmentFile
  import opened Frames
  import opened Runs
  import opened Replicas

  // ---------- Routing ----------

  type Hash = bytes -> nat

  datatype Request = Request(topic: bytes, key: bytes, partition: Option<int>) {
    predicate Keyless() { partition.None? && key == [] }
  }

  function NextTurn(turns: map<bytes, nat>, topic: bytes): nat {
    if topic in turns then turns[topic] % 3 else 0
  }

  function Route(hash: Hash, turns: map<bytes, nat>, q: Request): Result<nat> {
    if q.partition.Some? then
      if 0 <= q.partition.value < NUM_PARTITIONS then Ok(q.partition.value) else Err
    else if q.key != [] then Ok(hash(q.key) % 3)
    else Ok(NextTurn(turns, q.topic))
  }

  function TurnsAfter(turns: map<bytes, nat>, q: Request): map<bytes, nat> {
    if q.Keyless() then turns[q.topic := (NextTurn(turns, q.topic) + 1) % 3] else turns
  }

  class Router {
    const hash: Hash
    var roundRobin: map<bytes, nat>

    constructor (hash: Hash)
      ensures roundRobin == map[] && this.hash == hash
    {
      this.hash, roundRobin := hash, map[];
    }

    /** An explicit partition, the hash of the key, or the topic's next turn. */
    method SelectPartition(q: Request) returns (r: Result<nat>)
      modifies this
      ensures r == Route(hash, old(roundRobin), q) && roundRobin == TurnsAfter(old(roundRobin), q)
    {
      if q.partition.Some? {
        if q.partition.value < 0 || q.partition.value >= NUM_PARTITIONS {
          return Err;
        }
        return Ok(q.partition.value);
      }
      if |q.key| > 0 {
        return Ok(hash(q.key) % 3);
      }
      var turn := if q.topic in roundRobin then roundRobin[q.topic] else 0;
      var next := turn % 3;
      roundRobin := roundRobin[q.topic := (next + 1) % 3];
      return Ok(next);
    }
  }

  /** The turn counters after a run of publishes. */
  function RunTurns(qs: seq<Request>): map<bytes, nat> {
    if qs == [] then map[] else TurnsAfter(RunTurns(qs[..|qs| - 1]), qs[|qs| - 1])
  }

  /** Where publish i of a run is routed. */
  function RoutedTo(hash: Hash, qs: seq<Request>, i: nat): Result<nat>
    requires i < |qs|
  {
    Route(hash, RunTurns(qs[..i]), qs[i])
  }

  /** How many keyless publishes of a topic were routed to a partition. */
  function KeylessTo(hash: Hash, qs: seq<Request>, topic: bytes, p: nat): nat {
    if qs == [] then 0 else
      var n := |qs| - 1;
      KeylessTo(hash, qs[..n], topic, p) +
      (if qs[n].Keyless() && qs[n].topic == topic && RoutedTo(hash, qs, n) == Ok(p) then 1 else 0)
  }

  function KeylessCount(qs: seq<Request>, topic: bytes): nat {
    if qs == [] then 0 else
      KeylessCount(qs[..|qs| - 1], topic) + (if qs[|qs| - 1].Keyless() && qs[|qs| - 1].topic == topic then 1 else 0)
  }

  /** The turn counter counts the topic's keyless publishes, and deals them out in rotation. */
  lemma {:induction false} Rotation(hash: Hash, qs: seq<Request>, topic: bytes, p: nat)
    requires p < NUM_PARTITIONS
    ensures NextTurn(RunTurns(qs), topic) == KeylessCount(qs, topic) % 3
    ensures KeylessTo(hash, qs, topic, p) == (KeylessCount(qs, topic) + 2 - p) / 3
  {
    if qs != [] {
      hide Route, RoutedTo, NextTurn, TurnsAfter;
      var n := |qs| - 1;
      DealNext(KeylessCount(qs[..n], topic), p);
      Rotation(hash, qs[..n], topic, p);
      TurnTaken(RunTurns(qs[..n]), qs[n], topic);
      if qs[n].Keyless() && qs[n].topic == topic { RouteKeyless(hash, qs, n); }
    }
  }

  lemma {:induction false} DealNext(count: nat, p: nat)
    requires p < NUM_PARTITIONS
    ensures (count + 1 + 2 - p) / 3 == (count + 2 - p) / 3 + (if count % 3 == p then 1 else 0)
    ensures (count + 1) % 3 == (count % 3 + 1) % 3
  {
  }

  lemma {:induction false} TurnTaken(turns: map<bytes, nat>, q: Request, topic: bytes)
    ensures NextTurn(TurnsAfter(turns, q), topic) ==
            if q.Keyless() && q.topic == topic then (NextTurn(turns, topic) + 1) % 3 else NextTurn(turns, topic)
  {
  }

  lemma {:induction false} RouteKeyless(hash: Hash, qs: seq<Request>, i: nat)
    requires i < |qs| && qs[i].Keyless()
    ensures RoutedTo(hash, qs, i) == Ok(NextTurn(RunTurns(qs[..i]), qs[i].topic))
  {
  }

  /**
   Over any run, whatever keyed, explicit or other-topic publishes interleave, the keyless publishes
   of a topic are spread over the partitions to within one.
   */
  lemma {:induction false} RoundRobinIsFair(hash: Hash, qs: seq<Request>, topic: bytes, p: nat, q: nat)
    requires p < NUM_PARTITIONS && q < NUM_PARTITIONS
    ensures KeylessTo(hash, qs, topic, p) <= KeylessTo(hash, qs, topic, q) + 1
    ensures KeylessTo(hash, qs, topic, 0) + KeylessTo(hash, qs, topic, 1) + KeylessTo(hash, qs, topic, 2)
            == KeylessCount(qs, topic)
  {
    hide KeylessTo, KeylessCount;
    Rotation(hash, qs, topic, p);
    Rotation(hash, qs, topic, q);
    Rotation(hash, qs, topic, 0);
    Rotation(hash, qs, topic, 1);
    Rotation(hash, qs, topic, 2);
  }

  /**
   A router's answers over a run of publishes. An explicit partition is taken or refused as it is. The
   publishes of one key without one depend on the key alone, so in all runs they go to one partition.
   */
  method RouteRun(hash: Hash, qs: seq<Request>) returns (routes: seq<Result<nat>>)
    ensures |routes| == |qs| && forall i :: 0 <= i < |qs| ==> routes[i] == RoutedTo(hash, qs, i)
    ensures forall i :: 0 <= i < |qs| && qs[i].partition.Some? ==>
      routes[i] == (if 0 <= qs[i].partition.value < 3 then Ok(qs[i].partition.value) else Err)
    ensures forall i :: 0 <= i < |qs| && qs[i].partition.None? && qs[i].key != [] ==> routes[i] == Ok(hash(qs[i].key) % 3)
  {
    var router := new Router(hash);
    routes := [];
    for n := 0 to |qs|
      invariant router.hash == hash && router.roundRobin == RunTurns(qs[..n]) && fresh(router)
      invariant |routes| == n && forall i :: 0 <= i < n ==> routes[i] == RoutedTo(hash, qs, i)
    {
      assert qs[..n + 1][..n] == qs[..n];
      var route := router.SelectPartition(qs[n]);
      routes := routes + [route];
    }
  }

  // ---------- Publish to read ----------

  /** An event that can remove messages. */
  predicate RemovesLocally(ev: Event) { ev.LocalRetention? || ev.LocalCompaction? }

  lemma {:induction false} CommandsConcat(a: seq<Event>, b: seq<Event>)
    ensures Commands(a + b) == Commands(a) + Commands(b)
  {
    if b == [] {
      assert a + b == a;
    } else {
      var n := |b| - 1;
      assert (a + b)[..|a| + n] == a + b[..n];
      CommandsConcat(a, b[..n]);
    }
  }

  /** What is committed stays committed at its position. */
  lemma {:induction false} CommittedPrefix(a: seq<bytes>, b: seq<bytes>, topic: bytes, p: nat)
    ensures Committed(a, topic, p) <= Committed(a + b, topic, p)
  {
    hide Contributes;
    if b == [] {
      assert a + b == a;
    } else {
      var n := |b| - 1;
      assert (a + b)[..|a| + n] == a + b[..n];
      CommittedPrefix(a, b[..n], topic, p);
    }
  }

  lemma {:induction false} EventLosesNothing(settings: Settings, state: Replica, ev: Event, topic: bytes, p: nat)
    requires ValidReplica(state) && ValidSettings(settings) && p < NUM_PARTITIONS && !RemovesLocally(ev)
    requires Wf(PartitionOf(state, topic, p))
    ensures LosesNothing(Abstract(PartitionOf(state, topic, p)), Abstract(PartitionOf(After(settings, state, ev), topic, p)))
  {
    hide Wf, Flat, Contents, Step, Apply, Next;
    var v := PartitionOf(state, topic, p);
    match ev
    case Command(data, now) =>
      ApplyEffect(settings, state, data, now, topic, p);
      var d := Decode(data);
      if d.Ok? {
        var op := OpOf(d.value.0.body, now);
        StepRefines(settings(topic), v, op);
        NextOnlyLoses(Abstract(v), op, Abstract(Step(settings(topic), v, op)));
      }
    case LocalTouch(t) =>
      TouchKeeps(state, t, topic, p);
  }

  lemma {:induction false} EventsLoseNothing(settings: Settings, events: seq<Event>, more: seq<Event>, topic: bytes, p: nat)
    requires ValidSettings(settings) && p < NUM_PARTITIONS
    requires forall i :: 0 <= i < |more| ==> !RemovesLocally(more[i])
    ensures
      var v, w := PartitionOf(RunReplica(settings, events), topic, p), PartitionOf(RunReplica(settings, events + more), topic, p);
      LosesNothing(Abstract(v), Abstract(w))
  {
    hide LosesNothing, After, PartitionOf, Wf, Consistent, Holds;
    if more == [] {
      assert events + more == events;
      SameLosesNothing(Abstract(PartitionOf(RunReplica(settings, events), topic, p)));
    } else {
      var n := |more| - 1;
      var init := events + more[..n];
      assert (events + more)[..|events| + n] == init;
      EventsLoseNothing(settings, events, more[..n], topic, p);
      var mid := RunReplica(settings, init);
      PartitionHolds(settings, init, topic, p);
      EventLosesNothing(settings, mid, more[n], topic, p);
      LossesCompose(Abstract(PartitionOf(RunReplica(settings, events), topic, p)), Abstract(PartitionOf(mid, topic, p)),
                    Abstract(PartitionOf(After(settings, mid, more[n]), topic, p)));
    }
  }

  lemma {:induction false} SameLosesNothing(a: AbstractLog)
    ensures LosesNothing(a, a)
  {
  }

  lemma {:induction false} PartitionHolds(settings: Settings, events: seq<Event>, topic: bytes, p: nat)
    requires ValidSettings(settings) && p < NUM_PARTITIONS
    ensures Wf(PartitionOf(RunReplica(settings, events), topic, p))
    ensures Holds(PartitionOf(RunReplica(settings, events), topic, p), Committed(Commands(events), topic, p))
  {
    hide RunReplica, Commands, Committed, PartitionOf, Flat, Contents;
    ReplicaConsistent(settings, events);
  }

  /** An offset of a partition holds a record, or has been removed, after any further events. */
  ghost predicate StaysReadable(settings: Settings, events: seq<Event>, topic: bytes, p: nat, o: nat, r: KeyValue) {
    forall more: seq<Event> :: ReadableAfter(settings, events, more, topic, p, o, r)
  }

  ghost predicate ReadableAfter(
    settings: Settings, events: seq<Event>, more: seq<Event>, topic: bytes, p: nat, o: nat, r: KeyValue)
  {
    var v := PartitionOf(RunReplica(settings, events + more), topic, p);
    && o < End(v)
    && (o in Contents(Flat(v)) ==> KeyValueOf(Contents(Flat(v))[o]) == r)
    && ((forall i :: 0 <= i < |more| ==> !RemovesLocally(more[i])) ==> o in Contents(Flat(v)))
  }

  /** The answer to the last command of a run. */
  function Answer(settings: Settings, events: seq<Event>, data: bytes, now: int64): Response {
    Apply(settings, RunReplica(settings, events), data, now).1
  }

  /** A command's records become readable at consecutive offsets from the partition's end. */
  lemma {:induction false} CommandReadable(settings: Settings, events: seq<Event>, data: bytes, now: int64, i: nat)
    requires ValidSettings(settings) && Decode(data).Ok? && Decode(data).value.0.partition < NUM_PARTITIONS
    requires i < |RecordsOf(Decode(data).value.0.body)|
    ensures
      var f := Decode(data).value.0;
      var end := |Committed(Commands(events), f.topic, f.partition)|;
      && Answer(settings, events, data, now) == ResponseOf(f.body, end)
      && StaysReadable(settings, events + [Command(data, now)], f.topic, f.partition, end + i, RecordsOf(f.body)[i])
  {
    hide Decode, Apply, RunReplica, Committed, Consistent, ReadableAfter, Encodable;
    var f := Decode(data).value.0;
    var end := |Committed(Commands(events), f.topic, f.partition)|;
    ReplicaConsistent(settings, events);
    CommandKeeps(settings, RunReplica(settings, events), Commands(events), data, now);
    var after, topic, p, o, r := events + [Command(data, now)], f.topic, f.partition, end + i, RecordsOf(f.body)[i];
    forall more: seq<Event>
      ensures ReadableAfter(settings, after, more, topic, p, o, r)
    {
      CommandReadableAfter(settings, events, data, now, i, more);
    }
  }

  lemma {:induction false} CommandReadableAfter(
    settings: Settings, events: seq<Event>, data: bytes, now: int64, i: nat, more: seq<Event>)
    requires ValidSettings(settings) && Decode(data).Ok? && Decode(data).value.0.partition < NUM_PARTITIONS
    requires i < |RecordsOf(Decode(data).value.0.body)|
    ensures
      var f := Decode(data).value.0;
      var end := |Committed(Commands(events), f.topic, f.partition)|;
      ReadableAfter(settings, events + [Command(data, now)], more, f.topic, f.partition, end + i, RecordsOf(f.body)[i])
  {
    hide Decode, RunReplica, Commands, Committed, PartitionOf, Wf, Flat, Contents;
    var f := Decode(data).value.0;
    var after := events + [Command(data, now)];
    var all, before := Commands(after + more), Commands(events);
    var end := |Committed(before, f.topic, f.partition)|;
    CommandsSnoc(events, data, now);
    CommandsConcat(after, more);
    CommittedSnoc(before, data, f.topic, f.partition);
    CommittedPrefix(before + [data], Commands(more), f.topic, f.partition);
    PartitionHolds(settings, after + more, f.topic, f.partition);
    assert Committed(all, f.topic, f.partition)[end + i] == RecordsOf(f.body)[i];
    if forall j :: 0 <= j < |more| ==> !RemovesLocally(more[j]) {
      CommandPresent(settings, events, data, now, i);
      EventsLoseNothing(settings, after, more, f.topic, f.partition);
    }
  }

  lemma {:induction false} CommandsSnoc(events: seq<Event>, data: bytes, now: int64)
    ensures Commands(events + [Command(data, now)]) == Commands(events) + [data]
  {
    assert (events + [Command(data, now)])[..|events|] == events;
  }

  lemma {:induction false} CommandPresent(settings: Settings, events: seq<Event>, data: bytes, now: int64, i: nat)
    requires ValidSettings(settings) && Decode(data).Ok? && Decode(data).value.0.partition < NUM_PARTITIONS
    requires i < |RecordsOf(Decode(data).value.0.body)|
    ensures
      var f := Decode(data).value.0;
      var v := PartitionOf(RunReplica(settings, events + [Command(data, now)]), f.topic, f.partition);
      |Committed(Commands(events), f.topic, f.partition)| + i in Contents(Flat(v))
  {
    hide Decode, Apply, Committed, PartitionOf, Wf, Flat, Contents, Step, OpOf, Added, RunReplica;
    var f := Decode(data).value.0;
    var state := RunReplica(settings, events);
    var v, op := PartitionOf(state, f.topic, f.partition), OpOf(f.body, now);
    RunSnoc(settings, events, Command(data, now));
    PartitionHolds(settings, events, f.topic, f.partition);
    ApplyEffect(settings, state, data, now, f.topic, f.partition);
    DecodeBounds(data);
    AddedByBody(f.body, now);
    StepRefines(settings(f.topic), v, op);
    OpAppends(f.body, now);
    assert |KeyValuesOf(Added(op))| == |Added(op)|;
  }

  lemma {:induction false} OpAppends(body: Body, now: int64)
    ensures OpOf(body, now).Append? || OpOf(body, now).AppendBatch?
  {
  }

  lemma {:induction false} RunSnoc(settings: Settings, events: seq<Event>, ev: Event)
    ensures RunReplica(settings, events + [ev]) == After(settings, RunReplica(settings, events), ev)
  {
    hide After;
    assert (events + [ev])[..|events|] == events;
  }

  /** Publish up to the Raft log: the routed partition, or an error before anything is proposed. */
  function PublishTarget(hash: Hash, leader: bool, turns: map<bytes, nat>, q: Request): Result<nat> {
    if leader then Route(hash, turns, q.(topic := TopicOrDefault(q.topic))) else Err
  }

  /** What Publish returns for the FSM's response. */
  function PublishResult(response: Response): Result<nat> {
    if response.Offset? then Ok(response.offset) else Err
  }

  /** What PublishBatch returns for the FSM's response: offsets must fit int64. */
  function PublishBatchResult(response: Response): Result<seq<nat>> {
    if !response.OffsetList? || exists i :: 0 <= i < |response.offsets| && response.offsets[i] >= TWO63 then Err
    else Ok(response.offsets)
  }

  /** Only the leader publishes, and only an explicit partition can be refused. */
  lemma {:induction false} PublishTargetIs(hash: Hash, leader: bool, turns: map<bytes, nat>, q: Request)
    ensures
      var target := PublishTarget(hash, leader, turns, q);
      && (target.Ok? <==> leader && (q.partition.Some? ==> 0 <= q.partition.value < 3))
      && (target.Ok? ==>
            && target.value < 3
            && (q.partition.Some? ==> target.value == q.partition.value)
            && (q.partition.None? && q.key != [] ==> target.value == hash(q.key) % 3))
  {
  }

  /**
   A publish on the leader fails exactly when it names a partition that does not exist. Otherwise it
   goes to the partition it names, if any, and returns an offset at which reading that partition
   yields the published key and value, until retention or compaction removes it.
   */
  lemma {:induction false} PublishThenRead(
    settings: Settings, events: seq<Event>, hash: Hash, turns: map<bytes, nat>, q: Request, value: bytes, now: int64)
    requires ValidSettings(settings)
    requires |q.topic| < TWO16 && |q.key| < TWO32 && |value| < TWO32
    ensures
      var target := PublishTarget(hash, true, turns, q);
      target.Ok? <==> (q.partition.Some? ==> 0 <= q.partition.value < 3)
    ensures PublishTarget(hash, true, turns, q).Ok? ==>
      var topic, p, r := TopicOrDefault(q.topic), PublishTarget(hash, true, turns, q).value, KeyValue(q.key, value);
      var data := SingleFrame(topic, p, r);
      var touched := events + [LocalTouch(topic)];
      var offset := PublishResult(Answer(settings, touched, data, now));
      && p < NUM_PARTITIONS && offset.Ok?
      && (q.partition.Some? ==> p == q.partition.value)
      && StaysReadable(settings, touched + [Command(data, now)], topic, p, offset.value, r)
  {
    PublishTargetIs(hash, true, turns, q);
    if PublishTarget(hash, true, turns, q).Ok? {
      PublishReadable(settings, events, TopicOrDefault(q.topic), PublishTarget(hash, true, turns, q).value,
                      KeyValue(q.key, value), now);
    }
  }

  lemma {:induction false} PublishReadable(
    settings: Settings, events: seq<Event>, topic: bytes, p: nat, r: KeyValue, now: int64)
    requires ValidSettings(settings) && p < NUM_PARTITIONS && Encodable(topic, p, Single(r))
    ensures
      var data := SingleFrame(topic, p, r);
      var touched := events + [LocalTouch(topic)];
      var offset := PublishResult(Answer(settings, touched, data, now));
      offset.Ok? && StaysReadable(settings, touched + [Command(data, now)], topic, p, offset.value, r)
  {
    hide Decode, SingleFrame, StaysReadable, Apply, RunReplica, Committed;
    SingleRoundTrip(topic, p, r);
    CommandReadable(settings, events + [LocalTouch(topic)], SingleFrame(topic, p, r), now, 0);
  }

  /** A topic name too long for the frame's length field never receives what is published to it. */
  lemma {:induction false} LongTopicStoresNothing(topic: bytes, partition: int, body: Body, p: nat)
    requires |topic| >= TWO16
    ensures Contributes(Encode(topic, partition, body), topic, p) == []
  {
    hide Decode, Encode;
    DecodeBounds(Encode(topic, partition, body));
  }

  /**
   Such a publish is answered as one to the topic and partition that the frame is read as, or
   rejected; and it is always rejected when the name has no NUL byte.
   */
  lemma {:induction false} LongTopicAnswer(
    settings: Settings, events: seq<Event>, topic: bytes, partition: int, body: Body, now: int64)
    requires ValidSettings(settings) && |topic| >= TWO16
    ensures
      var data, n := Encode(topic, partition, body), |topic| % 0x1_0000;
      var target, p := TopicOrDefault(topic[..n]), FromBigEndian(topic[n..n + 4]);
      var rest := TakeBody(data, data[0], 7 + n);
      && Answer(settings, events, data, now) ==
         (if p < NUM_PARTITIONS && rest.Ok? then ResponseOf(rest.value.0, |Committed(Commands(events), target, p)|)
          else Rejected)
      && (0 !in topic ==> Answer(settings, events, data, now) == Rejected)
  {
    hide TakeTarget, TakeBody, Encode, FromBigEndian, Committed, Commands, Apply, RunReplica, Consistent, TopicOrDefault;
    var data, n := Encode(topic, partition, body), |topic| % 0x1_0000;
    LongTopicTarget(topic, partition, body);
    ReplicaConsistent(settings, events);
    CommandKeeps(settings, RunReplica(settings, events), Commands(events), data, now);
    var field := topic[n..n + 4];
    if FromBigEndian(field) < NUM_PARTITIONS {
      SmallHasZero(field);
      assert field[2] in topic;
    }
  }

  /**
   A batch that is applied on the leader and whose offsets fit int64 returns consecutive offsets at
   which the records of the batch can be read, in order, until they are removed.
   */
  lemma {:induction false} PublishBatchThenRead(
    settings: Settings, events: seq<Event>, name: bytes, p: nat, rs: seq<KeyValue>, now: int64, i: nat)
    requires ValidSettings(settings) && p < NUM_PARTITIONS && i < |rs|
    requires |name| < TWO16 && BodyFits(Batch(rs))
    ensures
      var topic := TopicOrDefault(name);
      var data := BatchFrame(topic, p, rs);
      var touched := events + [LocalTouch(topic)];
      var end := |Committed(Commands(touched), topic, p)|;
      var offsets := PublishBatchResult(Answer(settings, touched, data, now));
      && (offsets.Ok? <==> end + |rs| <= TWO63)
      && (offsets.Ok? ==> offsets.value == Offsets(end, |rs|))
      && (offsets.Ok? ==> StaysReadable(settings, touched + [Command(data, now)], topic, p, offsets.value[i], rs[i]))
  {
    hide Decode, BatchFrame, StaysReadable, Apply, RunReplica, Committed, BodyFits;
    var topic := TopicOrDefault(name);
    var touched := events + [LocalTouch(topic)];
    BatchRoundTrip(topic, p, rs);
    CommandReadable(settings, touched, BatchFrame(topic, p, rs), now, i);
    var offsets := Offsets(|Committed(Commands(touched), topic, p)|, |rs|);
    assert offsets[|rs| - 1] == |Committed(Commands(touched), topic, p)| + |rs| - 1;
  }
}
