/**
 Whole runs of a partition log: any sequence of Append, AppendBatch, Compact,
 EnforceRetention and close/reopen, with the compression flag fixed.
 */
module Runs {
  import opened Bytes
  import opened Format
  import opened Views
  import opened SegmentFile
  import opened Compaction
  import opened CommitLog

  datatype Op =
    | Append(record: Record)
    | AppendBatch(records: seq<Record>)
    | Compact
    | EnforceRetention(retentionBytes: int64, retentionMs: int64, now: int)
    | Reopen

  function Step(cfg: Config, v: LogView, op: Op): (w: LogView)
    requires |v| > 0
    ensures |w| > 0
  {
    match op
    case Append(record) => Appended(cfg, v, [record])
    case AppendBatch(records) => Appended(cfg, v, records)
    case Compact => Compacted(v)
    case EnforceRetention(b, ms, now) => Retained(cfg.encoding, v, b, ms, now)
    case Reopen => v
  }

  function Run(cfg: Config, v: LogView, ops: seq<Op>): (w: LogView)
    requires |v| > 0
    ensures |w| > 0
  {
    if ops == [] then v else Step(cfg, Run(cfg, v, ops[..|ops| - 1]), ops[|ops| - 1])
  }

  /** The records that an operation adds to the log. */
  function Added(op: Op): seq<Record> {
    match op
    case Append(record) => if Acceptable(record) then [record] else []
    case AppendBatch(records) => if AllAcceptable(records) then records else []
    case _ => []
  }

  /** Every record ever appended; its position is its offset. */
  function History(ops: seq<Op>): seq<Record> {
    if ops == [] then [] else History(ops[..|ops| - 1]) + Added(ops[|ops| - 1])
  }

  // ---------- The abstract log ----------

  /** Which message each offset holds, and the offset the next record will get. */
  datatype AbstractLog = AbstractLog(messages: map<nat, Message>, end: nat)

  function Abstract(v: LogView): AbstractLog
    requires |v| > 0
  {
    AbstractLog(Contents(Flat(v)), End(v))
  }

  /** Below the boundary, no message has the key of the one at o at a higher offset. */
  ghost predicate HighestBelow(messages: map<nat, Message>, boundary: nat, o: nat)
    requires o in messages
  {
    forall p :: p in messages && o < p < boundary ==> messages[p].key != messages[o].key
  }

  /** One step of the abstract log. */
  ghost predicate Next(a: AbstractLog, op: Op, b: AbstractLog) {
    match op
    case Append(_) => Extends(a, Added(op), b)
    case AppendBatch(_) => Extends(a, Added(op), b)
    case Compact => exists boundary :: CompactsBelow(a, boundary, b)
    case EnforceRetention(_, _, _) => exists start :: DropsBelow(a, start, b)
    case Reopen => b == a
  }

  ghost predicate Extends(a: AbstractLog, rs: seq<Record>, b: AbstractLog) {
    && b.end == a.end + |rs|
    && (forall o :: o in a.messages ==> o in b.messages && b.messages[o] == a.messages[o])
    && (forall o :: a.end <= o < a.end + |rs| ==> o in b.messages && b.messages[o] == Stamp(o, rs[o - a.end]))
    && (forall o :: o in b.messages ==> o in a.messages || a.end <= o < a.end + |rs|)
  }

  ghost predicate CompactsBelow(a: AbstractLog, boundary: nat, b: AbstractLog) {
    && boundary <= a.end && b.end == a.end
    && b.messages == map o | o in a.messages && (o >= boundary || HighestBelow(a.messages, boundary, o)) :: a.messages[o]
  }

  ghost predicate DropsBelow(a: AbstractLog, start: nat, b: AbstractLog) {
    && start <= a.end && b.end == a.end
    && b.messages == map o | o in a.messages && o >= start :: a.messages[o]
  }

  // ---------- Every step refines the abstract log ----------

  lemma {:induction false} ContentsStamped(o: nat, rs: seq<Record>)
    ensures forall p :: p in Contents(Stamped(o, rs)) <==> o <= p < o + |rs|
    ensures forall p :: o <= p < o + |rs| ==> p in Contents(Stamped(o, rs)) && Contents(Stamped(o, rs))[p] == Stamp(p, rs[p - o])
  {
    if rs != [] {
      var n := |rs| - 1;
      ContentsStamped(o, rs[..n]);
      assert Stamped(o, rs)[..n] == Stamped(o, rs[..n]);
    }
  }

  lemma {:induction false} AppendStep(cfg: Config, v: LogView, rs: seq<Record>)
    requires Wf(v) && cfg.maxSegmentSize > 0
    ensures Extends(Abstract(v), if AllAcceptable(rs) then rs else [], Abstract(Appended(cfg, v, rs)))
  {
    hide Flat, Contents, Appended, Stamped, WfSegment;
    AppendedWf(cfg, v, rs);
    PresentBelowEnd(v);
    var added := if AllAcceptable(rs) then rs else [];
    StampedNone(End(v));
    ContentsStamped(End(v), added);
    ContentsConcat(Flat(v), Stamped(End(v), added));
  }

  lemma {:induction false} StampedNone(o: nat)
    ensures Stamped(o, []) == []
  {
  }

  /** Every offset present lies in the log's range. */
  lemma {:induction false} PresentBelowEnd(v: LogView)
    requires Wf(v)
    ensures forall o :: o in Contents(Flat(v)) ==> Start(v) <= o < End(v) && Contents(Flat(v))[o].offset == o
  {
    FlatOrdered(v);
    forall o | o in Contents(Flat(v))
      ensures Start(v) <= o < End(v) && Contents(Flat(v))[o].offset == o
    {
      ContentsIff(Flat(v), o);
    }
  }

  lemma {:induction false} RetainStep(v: LogView, k: nat)
    requires Wf(v) && k < |v|
    ensures Wf(v[k..]) && DropsBelow(Abstract(v), Start(v[k..]), Abstract(v[k..]))
  {
    hide Flat, Contents, WfSegment;
    RetainedWf(v, k);
    StartBelowEnd(v[k..]);
    ContentsConcat(Flat(v[..k]), Flat(v[k..]));
    PresentBelowEnd(v[k..]);
    forall o | o in Contents(Flat(v[..k]))
      ensures o < Start(v[k..])
    {
      if o >= Start(v[k..]) { AbsentOutside(v[..k], o); }
    }
  }

  /** An offset is present exactly when some message of the log carries it. */
  lemma {:induction false} PresentIff(v: LogView, o: nat)
    requires Wf(v)
    ensures o in Contents(Flat(v)) ==> Contents(Flat(v))[o] in Flat(v) && Contents(Flat(v))[o].offset == o
    ensures forall m :: m in Flat(v) && m.offset == o ==> o in Contents(Flat(v)) && Contents(Flat(v))[o] == m
  {
    FlatOrdered(v);
    ContentsIff(Flat(v), o);
  }

  /** Below the active segment, messages are the sealed ones. */
  lemma {:induction false} SealedIffBelow(v: LogView, m: Message)
    requires Wf(v)
    ensures m in Flat(Sealed(v)) <==> m in Flat(v) && m.offset < Active(v).base
    ensures m in Active(v).msgs <==> m in Flat(v) && Active(v).base <= m.offset
  {
    FlatSplit(v);
    if |v| > 1 {
      FlatOrdered(Sealed(v));
    }
  }

  lemma {:induction false} HighestAgree(v: LogView, m: Message)
    requires Wf(v) && m in Flat(Sealed(v))
    ensures m.offset in Contents(Flat(v))
    ensures HighestSealed(v, m) <==> HighestBelow(Contents(Flat(v)), Active(v).base, m.offset)
  {
    hide Flat, Contents, WfSegment, Tiled;
    var c, boundary := Contents(Flat(v)), Active(v).base;
    SealedIffBelow(v, m);
    PresentIff(v, m.offset);
    forall p | p in c && m.offset < p < boundary && HighestSealed(v, m)
      ensures c[p].key != m.key
    {
      PresentIff(v, p);
      SealedIffBelow(v, c[p]);
    }
    forall other | other in Flat(Sealed(v)) && other.key == m.key && HighestBelow(c, boundary, m.offset)
      ensures other.offset <= m.offset
    {
      SealedIffBelow(v, other);
      PresentIff(v, other.offset);
    }
  }

  lemma {:induction false} CompactStep(v: LogView)
    requires Wf(v)
    ensures Wf(Compacted(v)) && CompactsBelow(Abstract(v), Active(v).base, Abstract(Compacted(v)))
  {
    hide Flat, Contents, Compacted, HighestSealed, HighestBelow, WfSegment;
    var w := Compacted(v);
    CompactedWf(v);
    StartBelowEnd(v);
    var c, d, boundary := Contents(Flat(v)), Contents(Flat(w)), Active(v).base;
    forall o
      ensures o in d <==> o in c && (o >= boundary || HighestBelow(c, boundary, o))
      ensures o in d ==> o in c && d[o] == c[o]
    {
      CompactAt(v, o);
    }
  }

  lemma {:induction false} CompactAt(v: LogView, o: nat)
    requires Wf(v)
    ensures
      var c, d, boundary := Contents(Flat(v)), Contents(Flat(Compacted(v))), Active(v).base;
      && (o in d <==> o in c && (o >= boundary || HighestBelow(c, boundary, o)))
      && (o in d ==> o in c && d[o] == c[o])
  {
    hide Flat, Contents, Compacted, HighestSealed, HighestBelow, WfSegment;
    var w := Compacted(v);
    var c, d, boundary := Contents(Flat(v)), Contents(Flat(w)), Active(v).base;
    CompactedWf(v);
    PresentIff(v, o);
    PresentIff(w, o);
    if o in d {
      CompactedExactly(v, d[o]);
      SealedIffBelow(v, d[o]);
      if o < boundary { HighestAgree(v, d[o]); }
    }
    if o in c {
      CompactedExactly(v, c[o]);
      SealedIffBelow(v, c[o]);
      if o < boundary { HighestAgree(v, c[o]); }
    }
  }

  /** Every operation is a step of the abstract log. */
  lemma {:induction false} StepRefines(cfg: Config, v: LogView, op: Op)
    requires Wf(v) && cfg.maxSegmentSize > 0
    ensures Wf(Step(cfg, v, op)) && Next(Abstract(v), op, Abstract(Step(cfg, v, op)))
  {
    hide WfSegment, Tiled, Flat, Contents, Compacted, Appended, RetentionPoint, Extends, CompactsBelow, DropsBelow, Abstract;
    match op
    case Append(record) =>
      assert [record][0] == record;
      AppendedWf(cfg, v, [record]);
      AppendStep(cfg, v, [record]);
    case AppendBatch(records) =>
      AppendedWf(cfg, v, records);
      AppendStep(cfg, v, records);
    case Compact =>
      CompactStep(v);
    case EnforceRetention(b, ms, now) =>
      RetainStep(v, RetentionPoint(cfg.encoding, v, b, ms, now));
    case Reopen =>
  }

  /** Every present message is the record appended at its offset, and the end offset counts all records. */
  ghost predicate Represents(a: AbstractLog, history: seq<Record>) {
    && a.end == |history|
    && forall o :: o in a.messages ==>
         o < |history| && a.messages[o] == Message(o, history[o].timestamp, history[o].key, history[o].value)
  }

  lemma {:induction false} NextRepresents(a: AbstractLog, op: Op, b: AbstractLog, history: seq<Record>)
    requires Represents(a, history) && Next(a, op, b)
    ensures Represents(b, history + Added(op))
  {
    assert op.Compact? || op.EnforceRetention? || op.Reopen? ==> history + Added(op) == history;
  }

  /**
   After any run on an empty log, the log is well formed, its end offset is the number of records
   ever appended, and whatever is still present at an offset is exactly the record appended there.
   */
  lemma {:induction false} RunRepresents(cfg: Config, ops: seq<Op>)
    requires cfg.maxSegmentSize > 0
    ensures Wf(Run(cfg, EMPTY_LOG, ops)) && Represents(Abstract(Run(cfg, EMPTY_LOG, ops)), History(ops))
  {
    hide Wf, Next, Step, Added, Represents;
    if ops == [] {
      EmptyLogWf();
    } else {
      var n := |ops| - 1;
      RunRepresents(cfg, ops[..n]);
      var v := Run(cfg, EMPTY_LOG, ops[..n]);
      StepRefines(cfg, v, ops[n]);
      NextRepresents(Abstract(v), ops[n], Abstract(Step(cfg, v, ops[n])), History(ops[..n]));
    }
  }

  lemma {:induction false} EmptyLogWf()
    ensures Wf(EMPTY_LOG) && Represents(Abstract(EMPTY_LOG), [])
  {
    assert EMPTY_LOG[1..] == [];
  }

  /** Nothing below the old end is ever written again: it is the same message or it is gone for good. */
  ghost predicate OnlyLoses(a: AbstractLog, b: AbstractLog) {
    && a.end <= b.end
    && forall o :: o in b.messages && o < a.end ==> o in a.messages && b.messages[o] == a.messages[o]
  }

  ghost predicate LosesNothing(a: AbstractLog, b: AbstractLog) {
    forall o :: o in a.messages ==> o in b.messages && b.messages[o] == a.messages[o]
  }

  predicate Removes(op: Op) { op.Compact? || op.EnforceRetention? }

  lemma {:induction false} NextOnlyLoses(a: AbstractLog, op: Op, b: AbstractLog)
    requires Next(a, op, b)
    ensures OnlyLoses(a, b) && (!Removes(op) ==> LosesNothing(a, b))
  {
  }

  /** Offsets are never assigned twice, the end offset never decreases, and only Compact and retention remove. */
  lemma {:induction false} RunOnlyLoses(cfg: Config, v: LogView, ops: seq<Op>)
    requires Wf(v) && cfg.maxSegmentSize > 0
    ensures Wf(Run(cfg, v, ops)) && OnlyLoses(Abstract(v), Abstract(Run(cfg, v, ops)))
    ensures (forall i :: 0 <= i < |ops| ==> !Removes(ops[i])) ==> LosesNothing(Abstract(v), Abstract(Run(cfg, v, ops)))
  {
    if ops != [] {
      hide Next, Step, Wf, Abstract, OnlyLoses, LosesNothing;
      var n := |ops| - 1;
      RunOnlyLoses(cfg, v, ops[..n]);
      var u := Run(cfg, v, ops[..n]);
      StepRefines(cfg, u, ops[n]);
      NextOnlyLoses(Abstract(u), ops[n], Abstract(Step(cfg, u, ops[n])));
      LossesCompose(Abstract(v), Abstract(u), Abstract(Step(cfg, u, ops[n])));
    }
  }

  lemma {:induction false} LossesCompose(a: AbstractLog, b: AbstractLog, c: AbstractLog)
    ensures OnlyLoses(a, b) && OnlyLoses(b, c) ==> OnlyLoses(a, c)
    ensures LosesNothing(a, b) && LosesNothing(b, c) ==> LosesNothing(a, c)
  {
  }

  // ---------- When segments roll ----------

  /** Write j of the run added the last messages of s, and without them s was below the size limit. */
  ghost predicate FilledAt(cfg: Config, ops: seq<Op>, s: SegView, j: nat)
    requires j < |ops|
  {
    var n := |Added(ops[j])|;
    && 0 < n <= |s.msgs| && |History(ops[..j])| + n == s.next
    && |LogBytes(cfg.encoding, s.msgs[..|s.msgs| - n])| < cfg.maxSegmentSize
  }

  /** The segment has reached the size limit, and its last append or batch brought it there. */
  ghost predicate Filled(cfg: Config, ops: seq<Op>, s: SegView) {
    && |LogBytes(cfg.encoding, s.msgs)| >= cfg.maxSegmentSize
    && exists j :: 0 <= j < |ops| && FilledAt(cfg, ops, s, j)
  }

  lemma {:induction false} FilledStays(cfg: Config, ops: seq<Op>, s: SegView)
    requires ops != [] && Filled(cfg, ops[..|ops| - 1], s)
    ensures Filled(cfg, ops, s)
  {
    hide LogBytes, History, Added;
    var init := ops[..|ops| - 1];
    var j :| 0 <= j < |init| && FilledAt(cfg, init, s, j);
    assert init[..j] == ops[..j];
    assert FilledAt(cfg, ops, s, j);
  }

  lemma {:induction false} WriteFills(cfg: Config, ops: seq<Op>, v: LogView, rs: seq<Record>)
    requires ops != [] && rs != [] && AllAcceptable(rs) && Added(ops[|ops| - 1]) == rs
    requires |v| > 0 && End(v) == |History(ops[..|ops| - 1])|
    requires cfg.maxSegmentSize > 0 && |LogBytes(cfg.encoding, Active(v).msgs)| < cfg.maxSegmentSize
    ensures
      var w := Appended(cfg, v, rs);
      && |v| <= |w| <= |v| + 1 && |LogBytes(cfg.encoding, Active(w).msgs)| < cfg.maxSegmentSize
      && (|w| > |v| ==> Filled(cfg, ops, w[|v| - 1]))
      && forall i :: 0 <= i < |v| - 1 ==> w[i] == v[i]
  {
    hide LogBytes, Appended, History, Added;
    var w, n := Appended(cfg, v, rs), |ops| - 1;
    AppendedRolls(cfg, v, rs);
    EmptyFiles(cfg.encoding, []);
    if |w| > |v| {
      var s := w[|v| - 1];
      assert s.msgs[..|s.msgs| - |rs|] == Active(v).msgs;
      assert FilledAt(cfg, ops, s, n);
    }
  }

  /**
   In every run the active segment is below the size limit. As long as nothing is compacted, every
   sealed segment has reached it, and was below it before its last append or batch.
   */
  lemma {:induction false} SegmentSizes(cfg: Config, ops: seq<Op>)
    requires cfg.maxSegmentSize > 0
    ensures
      var v := Run(cfg, EMPTY_LOG, ops);
      && |LogBytes(cfg.encoding, Active(v).msgs)| < cfg.maxSegmentSize
      && ((forall i :: 0 <= i < |ops| ==> !ops[i].Compact?) ==>
            forall i :: 0 <= i < |v| - 1 ==> Filled(cfg, ops, v[i]))
  {
    hide LogBytes, Step, History, Wf;
    if ops == [] {
      EmptyFiles(cfg.encoding, []);
    } else {
      hide Filled;
      var n := |ops| - 1;
      SegmentSizes(cfg, ops[..n]);
      RunRepresents(cfg, ops[..n]);
      var v := Run(cfg, EMPTY_LOG, ops[..n]);
      StepSizes(cfg, ops, v);
      forall i | 0 <= i < |v| - 1 && Filled(cfg, ops[..n], v[i])
        ensures Filled(cfg, ops, v[i])
      {
        FilledStays(cfg, ops, v[i]);
      }
    }
  }

  /** One step keeps the active segment small, and each sealed segment is an old one or has just been filled. */
  lemma {:induction false} StepSizes(cfg: Config, ops: seq<Op>, v: LogView)
    requires ops != [] && |v| > 0 && End(v) == |History(ops[..|ops| - 1])|
    requires cfg.maxSegmentSize > 0 && |LogBytes(cfg.encoding, Active(v).msgs)| < cfg.maxSegmentSize
    ensures
      var op := ops[|ops| - 1];
      var w := Step(cfg, v, op);
      && |LogBytes(cfg.encoding, Active(w).msgs)| < cfg.maxSegmentSize
      && (!op.Compact? ==> forall i :: 0 <= i < |w| - 1 ==>
            Filled(cfg, ops, w[i]) || exists k :: 0 <= k < |v| - 1 && w[i] == v[k])
  {
    hide LogBytes, Appended, History, RetentionPoint, Filled, Survivors;
    var op := ops[|ops| - 1];
    match op
    case Append(record) =>
      assert [record][0] == record;
      if Acceptable(record) {
        WriteFills(cfg, ops, v, [record]);
      } else {
        NotWritten(cfg, v, [record]);
      }
    case AppendBatch(records) =>
      if records != [] && AllAcceptable(records) {
        WriteFills(cfg, ops, v, records);
      } else {
        NotWritten(cfg, v, records);
      }
    case EnforceRetention(b, ms, now) =>
      var k := RetentionPoint(cfg.encoding, v, b, ms, now);
      assert forall i :: 0 <= i < |v| - k ==> v[k..][i] == v[k + i];
    case _ =>
  }

  lemma {:induction false} NotWritten(cfg: Config, v: LogView, rs: seq<Record>)
    requires |v| > 0 && (rs == [] || !AllAcceptable(rs))
    ensures Appended(cfg, v, rs) == v
  {
  }

  // ---------- The same runs on files ----------

  /** The run stays within uint64 offsets and int64 sizes. */
  ghost predicate RunFits(cfg: Config, v: LogView, ops: seq<Op>)
    requires |v| > 0
  {
    forall k :: 0 <= k <= |ops| ==> Fits(cfg.encoding, Run(cfg, v, ops[..k]))
  }

  /** What an operation returns, given the end offset before it. */
  function OutcomeOf(op: Op, end: nat): Result<seq<nat>> {
    match op
    case Append(record) => if Acceptable(record) then Ok([end]) else Err
    case AppendBatch(records) => if AllAcceptable(records) then Ok(Offsets(end, |records|)) else Err
    case _ => Ok([])
  }

  /** One operation on an open log. */
  method PerformOpen(log: Log, ghost e: Encoding, ghost v: LogView, op: Op) returns (outcome: Result<seq<nat>>)
    requires log.Rep(e, v) && log.Ready(e) && e.codec.Lawful() && |v| > 0 && !op.Reopen?
    requires Fits(e, Step(Config(e, log.maxSegmentSize), v, op))
    modifies log`segments, log.dir, log.segments
    ensures log.Rep(e, Step(Config(e, log.maxSegmentSize), v, op)) && log.Ready(e)
    ensures outcome == OutcomeOf(op, End(v))
    ensures forall i :: 0 <= i < |log.segments| ==> log.segments[i] in old(log.segments) || fresh(log.segments[i])
  {
    hide Log.Rep, Log.Ready, Fits, Appended, Compacted, Retained, Codec.Lawful, Acceptable, AllAcceptable, Offsets;
    outcome := Ok([]);
    match op
    case Append(record) =>
      var appended := log.Append(e, v, record);
      outcome := if appended.Ok? then Ok([appended.value]) else Err;
    case AppendBatch(records) =>
      outcome := log.AppendBatch(e, v, records);
    case Compact =>
      var _ := log.Compact(e, v);
    case EnforceRetention(b, ms, now) =>
      var _ := log.EnforceRetention(e, v, b, ms, now);
  }

  /** One operation on the files; closing and reopening builds a new Log object from the directory. */
  method Perform(log: Log, ghost e: Encoding, ghost v: LogView, op: Op) returns (next: Log, outcome: Result<seq<nat>>)
    requires log.Rep(e, v) && log.Ready(e) && e.codec.Lawful() && |v| > 0
    requires Fits(e, Step(Config(e, log.maxSegmentSize), v, op))
    modifies log, log.dir, log.segments
    ensures next.Rep(e, Step(Config(e, log.maxSegmentSize), v, op)) && next.Ready(e)
    ensures outcome == OutcomeOf(op, End(v))
    ensures next.dir == log.dir && next.maxSegmentSize == log.maxSegmentSize
    ensures next == log || fresh(next)
    ensures forall i :: 0 <= i < |next.segments| ==> next.segments[i] in old(log.segments) || fresh(next.segments[i])
  {
    assert log.compressed == e.compressed;
    assert op.Reopen? ==> Step(Config(e, log.maxSegmentSize), v, op) == v && OutcomeOf(op, End(v)) == Ok([]);
    hide Log.Rep, Log.Ready, Fits, Codec.Lawful, Step, OutcomeOf;
    if op.Reopen? {
      outcome := Ok([]);
      next := ReopenLog(log, e, v);
    } else {
      next := log;
      outcome := PerformOpen(log, e, v, op);
    }
  }

  /**
   Close, NewLog on the same directory, and the same compression setting again. The log may have
   segments that are closed already: the files are all that counts.
   */
  method ReopenLog(log: Log, ghost e: Encoding, ghost v: LogView) returns (next: Log)
    requires log.Rep(e, v) && log.compressed == e.compressed
    modifies log.dir, log.segments
    ensures next.Rep(e, v) && next.Ready(e)
    ensures next.dir == log.dir && next.maxSegmentSize == log.maxSegmentSize
    ensures fresh(next) && forall i :: 0 <= i < |next.segments| ==> fresh(next.segments[i])
  {
    hide Wf, Fits, DirHolds, PairHolds, Bases, ValidPair;
    log.Close(e, v);
    log.RepDirHolds(e, v);
    DirNonEmpty(log.dir.files, e, v);
    DirValid(log.dir.files, e, v);
    var reopened := Log.NewLog(log.dir, log.codec, [log.maxSegmentSize], e, v);
    next := reopened.value;
    next.SetCompressed(e, v, log.compressed);
  }

  /** Any run on the files ends with files and counters that represent the run's view, and returns what it should. */
  method Execute(log: Log, ghost e: Encoding, ghost v: LogView, ops: seq<Op>)
      returns (last: Log, outcomes: seq<Result<seq<nat>>>)
    requires log.Rep(e, v) && log.Ready(e) && e.codec.Lawful() && |v| > 0
    requires RunFits(Config(e, log.maxSegmentSize), v, ops)
    modifies log, log.dir, log.segments
    ensures last.Rep(e, Run(Config(e, log.maxSegmentSize), v, ops)) && last.Ready(e)
    ensures last.dir == log.dir && last.maxSegmentSize == log.maxSegmentSize
    ensures |outcomes| == |ops|
    ensures forall i :: 0 <= i < |ops| ==>
      outcomes[i] == OutcomeOf(ops[i], End(Run(Config(e, log.maxSegmentSize), v, ops[..i])))
  {
    hide Log.Rep, Log.Ready, Fits, Step, Codec.Lawful, OutcomeOf;
    ghost var cfg := Config(e, log.maxSegmentSize);
    last, outcomes := log, [];
    for i := 0 to |ops|
      invariant last.Rep(e, Run(cfg, v, ops[..i])) && last.Ready(e)
      invariant last.dir == log.dir && last.maxSegmentSize == log.maxSegmentSize
      invariant last == log || fresh(last)
      invariant forall j :: 0 <= j < |last.segments| ==> last.segments[j] in old(log.segments) || fresh(last.segments[j])
      invariant |outcomes| == i
      invariant forall j :: 0 <= j < i ==> outcomes[j] == OutcomeOf(ops[j], End(Run(cfg, v, ops[..j])))
    {
      assert ops[..i + 1][..i] == ops[..i];
      assert Fits(e, Run(cfg, v, ops[..i + 1]));
      var next, outcome := Perform(last, e, Run(cfg, v, ops[..i]), ops[i]);
      last, outcomes := next, outcomes + [outcome];
    }
    assert ops[..|ops|] == ops;
  }

  /** The records of operation i sit in the history from the end offset it found. */
  lemma {:induction false} HistoryAt(ops: seq<Op>, i: nat, j: nat)
    requires i < |ops| && j < |Added(ops[i])|
    ensures |History(ops[..i])| + j < |History(ops)| && History(ops)[|History(ops[..i])| + j] == Added(ops[i])[j]
  {
    hide Added;
    var n := |ops| - 1;
    if i < n {
      HistoryAt(ops[..n], i, j);
      assert ops[..n][..i] == ops[..i];
    }
  }

  /** An append returned the offsets at which the whole history has its records, or an error if one is too large. */
  ghost predicate Places(ops: seq<Op>, i: nat, outcome: Result<seq<nat>>)
    requires i < |ops|
  {
    var o := |History(ops[..i])|;
    match ops[i]
    case Append(r) =>
      if |r.key| < TWO32 && |r.value| < TWO32
      then outcome == Ok([o]) && o < |History(ops)| && History(ops)[o] == r
      else outcome.Err?
    case AppendBatch(rs) =>
      if forall j :: 0 <= j < |rs| ==> |rs[j].key| < TWO32 && |rs[j].value| < TWO32
      then
        && outcome.Ok? && |outcome.value| == |rs| && o + |rs| <= |History(ops)|
        && forall j :: 0 <= j < |rs| ==> outcome.value[j] == o + j && History(ops)[o + j] == rs[j]
      else outcome.Err?
    case _ => outcome == Ok([])
  }

  lemma {:induction false} OutcomePlaces(ops: seq<Op>, i: nat)
    requires i < |ops|
    ensures Places(ops, i, OutcomeOf(ops[i], |History(ops[..i])|))
  {
    hide History;
    forall j: nat | j < |Added(ops[i])|
      ensures |History(ops[..i])| + j < |History(ops)| && History(ops)[|History(ops[..i])| + j] == Added(ops[i])[j]
    {
      HistoryAt(ops, i, j);
    }
    HistoryGrows(ops, i);
    if ops[i].Append? && Acceptable(ops[i].record) { HistoryAt(ops, i, 0); }
    if ops[i].AppendBatch? && AllAcceptable(ops[i].records) && ops[i].records != [] {
      HistoryAt(ops, i, |ops[i].records| - 1);
    }
  }

  lemma {:induction false} HistoryGrows(ops: seq<Op>, i: nat)
    requires i <= |ops|
    ensures |History(ops[..i])| <= |History(ops)|
  {
    hide Added;
    if i < |ops| {
      var n := |ops| - 1;
      HistoryGrows(ops[..n], i);
      assert ops[..n][..i] == ops[..i];
    } else {
      assert ops[..i] == ops;
    }
  }

  /** Every file but the last has reached the size limit, and the last one has not. */
  ghost predicate FilesRolled(log: Log)
    reads log, log.dir, log.segments
  {
    var n := |log.segments|;
    && (forall i :: 0 <= i < n ==> log.segments[i].baseOffset in log.dir.files)
    && (forall i :: 0 <= i < n - 1 ==> |log.dir.files[log.segments[i].baseOffset].log| >= log.maxSegmentSize)
  }

  lemma {:induction false} OutcomesPlaced(cfg: Config, ops: seq<Op>, outcomes: seq<Result<seq<nat>>>)
    requires cfg.maxSegmentSize > 0 && |outcomes| == |ops|
    requires forall i :: 0 <= i < |ops| ==> outcomes[i] == OutcomeOf(ops[i], End(Run(cfg, EMPTY_LOG, ops[..i])))
    ensures forall i :: 0 <= i < |ops| ==> Places(ops, i, outcomes[i])
  {
    hide Run, History, Wf, OutcomeOf, Places;
    forall i | 0 <= i < |ops|
      ensures Places(ops, i, outcomes[i])
    {
      RunRepresents(cfg, ops[..i]);
      OutcomePlaces(ops, i);
    }
  }

  /** NewLog in an empty directory. */
  method CreateLog(codec: Codec, compressed: bool, maxSegmentSize: nat, ghost e: Encoding) returns (log: Log)
    requires maxSegmentSize > 0 && e == Encoding(codec, compressed)
    ensures log.Rep(e, EMPTY_LOG) && log.Ready(e) && log.maxSegmentSize == maxSegmentSize
    ensures fresh(log) && fresh(log.dir) && forall i :: 0 <= i < |log.segments| ==> fresh(log.segments[i])
  {
    hide Wf, Fits, PairHolds, Bases, ValidPair, DirHolds, Log.Rep;
    var dir := new Directory();
    var created := Log.NewLog(dir, codec, [maxSegmentSize], e, EMPTY_LOG);
    log := created.value;
    log.SetCompressed(e, EMPTY_LOG, compressed);
  }

  /**
   A log in an empty directory after a run. Its last file is below the size limit, and as long as
   nothing is compacted every other file has reached it.
   */
  method ExecuteFresh(codec: Codec, compressed: bool, maxSegmentSize: nat, ops: seq<Op>, ghost e: Encoding)
      returns (last: Log, outcomes: seq<Result<seq<nat>>>)
    requires codec.Lawful() && maxSegmentSize > 0 && e == Encoding(codec, compressed)
    requires RunFits(Config(e, maxSegmentSize), EMPTY_LOG, ops)
    ensures last.Rep(e, Run(Config(e, maxSegmentSize), EMPTY_LOG, ops)) && last.Ready(e)
    ensures |last.segments| > 0 && last.segments[|last.segments| - 1].baseOffset in last.dir.files
    ensures |last.dir.files[last.segments[|last.segments| - 1].baseOffset].log| < maxSegmentSize == last.maxSegmentSize
    ensures (forall i :: 0 <= i < |ops| ==> !ops[i].Compact?) ==> FilesRolled(last)
    ensures |outcomes| == |ops| && forall i :: 0 <= i < |ops| ==> Places(ops, i, outcomes[i])
  {
    hide Log.Rep, Log.Ready, Fits, OutcomeOf, History, Places, FilesRolled, Run, Codec.Lawful;
    var log := CreateLog(codec, compressed, maxSegmentSize, e);
    last, outcomes := Execute(log, e, EMPTY_LOG, ops);
    OutcomesPlaced(Config(e, maxSegmentSize), ops, outcomes);
    FilesSized(last, e, ops);
  }

  lemma {:induction false} FilesSized(log: Log, e: Encoding, ops: seq<Op>)
    requires log.maxSegmentSize > 0 && log.Rep(e, Run(Config(e, log.maxSegmentSize), EMPTY_LOG, ops))
    ensures |log.segments| > 0 && log.segments[|log.segments| - 1].baseOffset in log.dir.files
    ensures |log.dir.files[log.segments[|log.segments| - 1].baseOffset].log| < log.maxSegmentSize
    ensures (forall i :: 0 <= i < |ops| ==> !ops[i].Compact?) ==> FilesRolled(log)
  {
    hide LogBytes, IndexBytes, Run, Wf, Fits, Bases, History, FilledAt;
    SegmentSizes(Config(e, log.maxSegmentSize), ops);
  }

  /**
   After any run from an empty directory, every append has returned the places of its records in the
   history, and reading an offset gives back exactly the record appended there, as long as neither
   Compact nor retention has removed it, and an error otherwise.
   */
  method ExecuteThenRead(codec: Codec, compressed: bool, maxSegmentSize: nat, ops: seq<Op>, offset: nat)
      returns (r: Result<Message>, outcomes: seq<Result<seq<nat>>>)
    requires codec.Lawful() && maxSegmentSize > 0 && offset < TWO64
    requires RunFits(Config(Encoding(codec, compressed), maxSegmentSize), EMPTY_LOG, ops)
    ensures
      var v := Run(Config(Encoding(codec, compressed), maxSegmentSize), EMPTY_LOG, ops);
      r.Ok? <==> offset in Contents(Flat(v))
    ensures r.Ok? ==> offset < |History(ops)|
    ensures r.Ok? ==>
      var record := History(ops)[offset];
      r.value == Message(offset, record.timestamp, record.key, record.value)
    ensures |outcomes| == |ops| && forall i :: 0 <= i < |ops| ==> Places(ops, i, outcomes[i])
  {
    hide Log.Rep, Log.Ready, Wf, Fits, Flat, Contents, Places, History, FilesRolled;
    ghost var e := Encoding(codec, compressed);
    var last: Log;
    last, outcomes := ExecuteFresh(codec, compressed, maxSegmentSize, ops, e);
    RunRepresents(Config(e, maxSegmentSize), ops);
    r := last.Read(e, Run(Config(e, maxSegmentSize), EMPTY_LOG, ops), offset);
  }

  /** The messages are the records appended from an offset on. */
  ghost predicate Recorded(messages: seq<Message>, offset: nat, history: seq<Record>) {
    && (messages != [] ==> offset + |messages| <= |history|)
    && forall k :: 0 <= k < |messages| ==>
         var record := history[offset + k];
         messages[k] == Message(offset + k, record.timestamp, record.key, record.value)
  }

  /**
   After any run from an empty directory, a batch read gives the longest run of records from the
   offset, each exactly as it was appended, up to the count, the end of the log or a removed record,
   and fails exactly where not even the first one is there although its offset has been assigned.
   */
  method ExecuteThenReadBatch(codec: Codec, compressed: bool, maxSegmentSize: nat, ops: seq<Op>,
                              offset: nat, maxCount: int) returns (r: Result<seq<Message>>)
    requires codec.Lawful() && maxSegmentSize > 0 && offset < TWO64
    requires RunFits(Config(Encoding(codec, compressed), maxSegmentSize), EMPTY_LOG, ops)
    ensures maxCount <= 0 ==> r == Ok([])
    ensures
      var v := Run(Config(Encoding(codec, compressed), maxSegmentSize), EMPTY_LOG, ops);
      var present := Contents(Flat(v));
      && (r.Err? <==> maxCount > 0 && offset < |History(ops)| && offset !in present)
      && (maxCount > 0 && r.Ok? ==>
            && |r.value| <= maxCount && (forall p :: offset <= p < offset + |r.value| ==> p in present)
            && (|r.value| < maxCount ==> offset + |r.value| !in present))
    ensures r.Ok? ==> Recorded(r.value, offset, History(ops))
  {
    hide Log.Rep, Log.Ready, Fits, WfSegment, Tiled, History, BatchAt, Run, Recorded, Flat, Contents, Codec.Lawful, Places, FilesRolled;
    ghost var e := Encoding(codec, compressed);
    var last, _ := ExecuteFresh(codec, compressed, maxSegmentSize, ops, e);
    RunRepresents(Config(e, maxSegmentSize), ops);
    ghost var v := Run(Config(e, maxSegmentSize), EMPTY_LOG, ops);
    PresentBelowEnd(v);
    StartBelowEnd(v);
    BatchIsLongest(v, offset, maxCount);
    r := last.ReadBatch(e, v, offset, maxCount);
    if r.Ok? { BatchIsHistory(v, History(ops), offset, maxCount); }
  }

  lemma {:induction false} BatchIsHistory(v: LogView, history: seq<Record>, offset: nat, maxCount: int)
    requires |v| > 0 && Represents(Abstract(v), history) && BatchAt(v, offset, maxCount).Ok?
    ensures Recorded(BatchAt(v, offset, maxCount).value, offset, history)
  {
    hide Flat, Contents, Represents, Recorded;
    var c := Contents(Flat(v));
    if maxCount > 0 {
      ConsecutiveIsRecorded(Abstract(v), history, offset, ReadRun(c, offset, maxCount));
    } else {
      NothingRecorded(offset, history);
    }
  }

  lemma {:induction false} NothingRecorded(offset: nat, history: seq<Record>)
    ensures Recorded([], offset, history)
  {
  }

  lemma {:induction false} ConsecutiveIsRecorded(a: AbstractLog, history: seq<Record>, offset: nat, messages: seq<Message>)
    requires Represents(a, history) && Consecutive(a.messages, offset, messages)
    ensures Recorded(messages, offset, history)
  {
    assert messages != [] ==> offset + |messages| - 1 in a.messages;
    forall k | 0 <= k < |messages|
      ensures
        var record := history[offset + k];
        messages[k] == Message(offset + k, record.timestamp, record.key, record.value)
    {
      assert offset + k in a.messages;
    }
  }

  /** A record that fills a segment gets the segment to itself and leaves an empty one behind it. */
  lemma {:induction false} FillingAppend(cfg: Config, v: LogView, r: Record)
    requires |v| > 0 && Active(v).msgs == [] && Acceptable(r) && 0 < cfg.maxSegmentSize <= 24
    ensures
      var w := Appended(cfg, v, [r]);
      && |w| == |v| + 1 && Active(w) == SegView(End(v) + 1, End(v) + 1, [])
      && w[|v| - 1] == SegView(Active(v).base, End(v) + 1, [Stamp(End(v), r)])
      && (forall i :: 0 <= i < |v| - 1 ==> w[i] == v[i])
      && |LogBytes(cfg.encoding, w[|v| - 1].msgs)| >= 24
  {
    hide LogBytes;
    var m := Stamp(End(v), r);
    assert [r][0] == r;
    assert Stamped(End(v), [r]) == [m];
    LogSnoc(cfg.encoding, [], m);
    assert [] + [m] == [m];
  }

  /** The first record of a log whose segments hold one record each. */
  lemma {:induction false} FirstAppend(cfg: Config, r: Record)
    requires 0 < cfg.maxSegmentSize <= 24 && Acceptable(r)
    ensures
      var v := Run(cfg, EMPTY_LOG, [Append(r)]);
      Wf(v) && v == [SegView(0, 1, [Stamp(0, r)]), SegView(1, 1, [])] && |LogBytes(cfg.encoding, v[0].msgs)| >= 24
  {
    hide LogBytes, Wf, Appended;
    EmptyLogWf();
    AppendedWf(cfg, EMPTY_LOG, [r]);
    FillingAppend(cfg, EMPTY_LOG, r);
    assert [Append(r)][..0] == [];
  }

  // ---------- Compact in the order in which it is written ----------

  /** No message has been compacted out of any segment. */
  ghost predicate Full(v: LogView) {
    forall i :: 0 <= i < |v| ==> |v[i].msgs| == v[i].next - v[i].base
  }

  lemma {:induction false} StepFull(cfg: Config, v: LogView, op: Op)
    requires Wf(v) && Full(v) && !op.Compact?
    ensures Full(Step(cfg, v, op))
  {
    hide WfSegment, Tiled, LogBytes, RetentionPoint;
    if op.Append? { ExtendCounts(Active(v), [op.record]); }
    if op.AppendBatch? { ExtendCounts(Active(v), op.records); }
  }

  lemma {:induction false} RunFull(cfg: Config, ops: seq<Op>)
    requires cfg.maxSegmentSize > 0 && forall i :: 0 <= i < |ops| ==> !ops[i].Compact?
    ensures Full(Run(cfg, EMPTY_LOG, ops))
  {
    if ops != [] {
      hide Wf, Full, Step;
      var n := |ops| - 1;
      RunFull(cfg, ops[..n]);
      RunRepresents(cfg, ops[..n]);
      StepFull(cfg, Run(cfg, EMPTY_LOG, ops[..n]), ops[n]);
    }
  }

  /**
   As long as no Compact has gone through, the condition under which CompactAsWritten succeeds, that
   no sealed segment holds a message, is that the log has a single segment.
   */
  lemma {:induction false} AsWrittenNeedsOneSegment(cfg: Config, ops: seq<Op>)
    requires cfg.maxSegmentSize > 0 && forall i :: 0 <= i < |ops| ==> !ops[i].Compact?
    ensures
      var v := Run(cfg, EMPTY_LOG, ops);
      (forall i :: 0 <= i < |v| - 1 ==> v[i].msgs == []) <==> |v| == 1
  {
    hide Run, WfSegment;
    RunFull(cfg, ops);
    RunRepresents(cfg, ops);
  }

  /** A log on which CompactAsWritten fails: one record fills the first segment. */
  method FailCompact(codec: Codec, compressed: bool, record: Record, ghost e: Encoding, ghost v: LogView)
      returns (log: Log, r: Result<()>)
    requires codec.Lawful() && e == Encoding(codec, compressed) && Acceptable(record)
    requires v == [SegView(0, 1, [Stamp(0, record)]), SegView(1, 1, [])] && Fits(e, v)
    ensures r.Err? && log.StuckAt(e, v, 0)
    ensures log.Rep(e, v) && log.compressed == compressed
    ensures fresh(log) && fresh(log.dir) && forall i :: 0 <= i < |log.segments| ==> fresh(log.segments[i])
  {
    hide Log.Rep, Appended, Fits, Wf, Codec.Lawful, Acceptable;
    ghost var cfg := Config(e, 24);
    FirstAppend(cfg, record);
    assert [Append(record)][..0] == [] && Run(cfg, EMPTY_LOG, []) == EMPTY_LOG;
    log := CreateLog(codec, compressed, 24, e);
    var _ := log.Append(e, EMPTY_LOG, record);
    r := log.CompactAsWritten(e, v);
    assert v[0].msgs != [];
  }

  /** The sealed segment that CompactAsWritten leaves closed. */
  ghost predicate FirstStuck(v: LogView, k: nat) {
    k < |v| - 1 && v[k].msgs != [] && forall j :: 0 <= j < k ==> v[j].msgs == []
  }

  /**
   CompactAsWritten and then close and reopen, on any log: if it failed, the offsets of the stuck
   segment cannot be read in between, and afterwards every offset reads as if it had not been tried.
   */
  method CompactThenReopen(log: Log, ghost e: Encoding, ghost v: LogView, offset: nat)
      returns (compacted: Result<()>, between: Result<Message>, next: Log, r: Result<Message>)
    requires log.Rep(e, v) && log.Ready(e) && e.codec.Lawful() && offset < TWO64
    modifies log, log.dir, log.segments
    ensures compacted.Ok? <==> forall i :: 0 <= i < |v| - 1 ==> v[i].msgs == []
    ensures compacted.Ok? ==> between == Lookup(Flat(v), offset)
    ensures forall k :: FirstStuck(v, k) && Owns(v, k, offset) ==> between.Err?
    ensures next.Rep(e, v) && next.Ready(e) && r == Lookup(Flat(v), offset)
  {
    hide Log.Rep, Flat, Contents, Wf, Codec.Lawful;
    compacted := log.CompactAsWritten(e, v);
    between := log.Read(e, v, offset);
    next := ReopenLog(log, e, v);
    r := next.Read(e, v, offset);
  }
}
