/**
 What a partition log means: the segments with the messages each one still holds, and
 the effect of every public operation on them. The classes of SegmentFile and
 CommitLog keep bytes and counters; their methods are proved against these functions.
 */
module Views {
  import opened Bytes
  import opened Format

  datatype Config = Config(encoding: Encoding, maxSegmentSize: nat)

  /** One segment: the offsets it owns are base..next, the messages it still holds are msgs. */
  datatype SegView = SegView(base: nat, next: nat, msgs: seq<Message>)

  type LogView = seq<SegView>

  predicate Increasing(msgs: seq<Message>) {
    forall i, j :: 0 <= i < j < |msgs| ==> msgs[i].offset < msgs[j].offset
  }

  predicate WfSegment(s: SegView) {
    && s.base <= s.next
    && Increasing(s.msgs)
    && (forall i :: 0 <= i < |s.msgs| ==> s.base <= s.msgs[i].offset < s.next)
    && (forall i :: 0 <= i < |s.msgs| ==> Acceptable(s.msgs[i].Content()))
  }

  /** Neighbouring segments tile the offset space and no sealed segment owns an empty range. */
  ghost predicate Tiled(v: LogView) {
    && (forall i :: 0 <= i < |v| - 1 ==> v[i].base < v[i].next)
    && (forall i, j :: 0 <= i < j < |v| && j == i + 1 ==> v[i].next == v[j].base)
  }

  ghost predicate Wf(v: LogView) {
    && |v| > 0
    && (forall i :: 0 <= i < |v| ==> WfSegment(v[i]))
    && Tiled(v)
    // nothing has been compacted out of the active segment
    && |Active(v).msgs| == Active(v).next - Active(v).base
  }

  const EMPTY_LOG: LogView := [SegView(0, 0, [])]

  function Active(v: LogView): SegView
    requires |v| > 0
  {
    v[|v| - 1]
  }

  function Sealed(v: LogView): LogView
    requires |v| > 0
  {
    v[..|v| - 1]
  }

  function Start(v: LogView): nat
    requires |v| > 0
  {
    v[0].base
  }

  function End(v: LogView): nat
    requires |v| > 0
  {
    Active(v).next
  }

  /** All messages of the log, oldest first. */
  function Flat(v: LogView): seq<Message> {
    if v == [] then [] else v[0].msgs + Flat(v[1..])
  }

  /** The abstract log: which message each offset holds. */
  function Contents(msgs: seq<Message>): map<nat, Message> {
    if msgs == [] then map[] else
      Contents(msgs[..|msgs| - 1])[msgs[|msgs| - 1].offset := msgs[|msgs| - 1]]
  }

  /** Bytes in the .log files. */
  function TotalSize(e: Encoding, v: LogView): nat {
    if v == [] then 0 else |LogBytes(e, v[0].msgs)| + TotalSize(e, v[1..])
  }

  /** The log stays within uint64 offsets and int64 file sizes. */
  predicate Fits(e: Encoding, v: LogView)
    requires |v| > 0
  {
    End(v) < TWO64 && TotalSize(e, v) < TWO63
  }

  // ---------- Append and AppendBatch ----------

  function Stamped(offset: nat, rs: seq<Record>): seq<Message> {
    seq(|rs|, i requires 0 <= i < |rs| => Stamp(offset + i, rs[i]))
  }

  function Extend(s: SegView, rs: seq<Record>): SegView {
    SegView(s.base, s.next + |rs|, s.msgs + Stamped(s.next, rs))
  }

  predicate AllAcceptable(rs: seq<Record>) {
    forall i :: 0 <= i < |rs| ==> Acceptable(rs[i])
  }

  /** A new active segment is opened as soon as the current one reaches the size limit. */
  function Roll(cfg: Config, v: LogView): LogView
    requires |v| > 0
  {
    if |LogBytes(cfg.encoding, Active(v).msgs)| >= cfg.maxSegmentSize
    then v + [SegView(End(v), End(v), [])]
    else v
  }

  /** Append is the case of one record. A batch is written whole or refused whole. */
  function Appended(cfg: Config, v: LogView, rs: seq<Record>): LogView
    requires |v| > 0
  {
    if rs == [] || !AllAcceptable(rs) then v
    else Roll(cfg, v[|v| - 1 := Extend(Active(v), rs)])
  }

  // ---------- Compact ----------

  /** For every key of msgs, and every key of later, the offset of the last message that carries it. */
  function LatestOnto(msgs: seq<Message>, later: map<bytes, nat>): map<bytes, nat> {
    if msgs == [] then later else
      var m := LatestOnto(msgs[1..], later);
      if msgs[0].key in m then m else m[msgs[0].key := msgs[0].offset]
  }

  function Latest(msgs: seq<Message>): map<bytes, nat> { LatestOnto(msgs, map[]) }

  predicate Survives(m: Message, latest: map<bytes, nat>) {
    m.key in latest && latest[m.key] == m.offset
  }

  function Survivors(msgs: seq<Message>, latest: map<bytes, nat>): seq<Message> {
    if msgs == [] then [] else
      var init := Survivors(msgs[..|msgs| - 1], latest);
      if Survives(msgs[|msgs| - 1], latest) then init + [msgs[|msgs| - 1]] else init
  }

  function CompactSegmentView(s: SegView, latest: map<bytes, nat>): SegView {
    s.(msgs := Survivors(s.msgs, latest))
  }

  function Compacted(v: LogView): LogView
    requires |v| > 0
  {
    seq(|v|, i requires 0 <= i < |v| =>
      if i < |v| - 1 then CompactSegmentView(v[i], Latest(Flat(Sealed(v)))) else v[i])
  }

  // ---------- EnforceRetention ----------

  /** now - retentionMs milliseconds, with the int64 wrap-around of Go's time.Duration product. */
  function Cutoff(retentionMs: int64, now: int): int {
    now + ToInt64(ToUint64(retentionMs * -1_000_000))
  }

  /** Whether retention drops the first segment of v. */
  predicate Expired(e: Encoding, v: LogView, retentionBytes: int64, retentionMs: int64, now: int) {
    && |v| > 1
    && (|| (retentionBytes > 0 && TotalSize(e, v) > retentionBytes)
        || (&& retentionMs > 0
            && |v[0].msgs| > 0
            && v[0].msgs[|v[0].msgs| - 1].timestamp < Cutoff(retentionMs, now)))
  }

  /** How many segments retention drops: the fewest after which the first one is not expired. */
  function RetentionPoint(e: Encoding, v: LogView, retentionBytes: int64, retentionMs: int64, now: int): (k: nat)
    requires |v| > 0
    ensures k < |v|
  {
    if Expired(e, v, retentionBytes, retentionMs, now)
    then 1 + RetentionPoint(e, v[1..], retentionBytes, retentionMs, now)
    else 0
  }

  /** Every dropped segment was expired in its turn, and the first kept one is not. */
  lemma {:induction false} RetentionPointIsLeast(
    e: Encoding, v: LogView, retentionBytes: int64, retentionMs: int64, now: int)
    requires |v| > 0
    ensures
      var k := RetentionPoint(e, v, retentionBytes, retentionMs, now);
      && !Expired(e, v[k..], retentionBytes, retentionMs, now)
      && forall j :: 0 <= j < k ==> Expired(e, v[j..], retentionBytes, retentionMs, now)
  {
    assert v[0..] == v;
    var k := RetentionPoint(e, v, retentionBytes, retentionMs, now);
    if k > 0 {
      assert |v| > 1;
      hide Expired;
      RetentionPointIsLeast(e, v[1..], retentionBytes, retentionMs, now);
      assert v[1..][k - 1..] == v[k..];
      forall j | 0 < j < k
        ensures Expired(e, v[j..], retentionBytes, retentionMs, now)
      {
        assert v[1..][j - 1..] == v[j..];
      }
    }
  }

  /** No other prefix length has those two properties. */
  lemma {:induction false} RetentionPointUnique(
    e: Encoding, v: LogView, k: nat, retentionBytes: int64, retentionMs: int64, now: int)
    requires k < |v| && !Expired(e, v[k..], retentionBytes, retentionMs, now)
    requires forall j :: 0 <= j < k ==> Expired(e, v[j..], retentionBytes, retentionMs, now)
    ensures RetentionPoint(e, v, retentionBytes, retentionMs, now) == k
  {
    hide Expired, RetentionPoint;
    RetentionPointIsLeast(e, v, retentionBytes, retentionMs, now);
    var p := RetentionPoint(e, v, retentionBytes, retentionMs, now);
    assert !(p < k) && !(k < p);
  }

  function Retained(e: Encoding, v: LogView, retentionBytes: int64, retentionMs: int64, now: int): LogView
    requires |v| > 0
  {
    v[RetentionPoint(e, v, retentionBytes, retentionMs, now)..]
  }

  // ---------- What retention drops, in bytes and timestamps ----------

  /** The bytes of all segments are those of all messages. */
  lemma {:induction false} TotalSizeIsAllBytes(e: Encoding, v: LogView)
    ensures TotalSize(e, v) == |LogBytes(e, Flat(v))|
  {
    hide LogBytes, IndexBytes;
    if v == [] {
      EmptyFiles(e, []);
    } else {
      TotalSizeIsAllBytes(e, v[1..]);
      FilesConcat(e, v[0].msgs, Flat(v[1..]));
    }
  }

  /** The int64 product of Go is the one number in the int64 range that is congruent to the true product. */
  lemma {:induction false} CutoffIs(retentionMs: int64, now: int, delay: int)
    requires -TWO63 < delay <= TWO63 && (delay - retentionMs * 1_000_000) % 0x1_0000_0000_0000_0000 == 0
    ensures Cutoff(retentionMs, now) == now - delay
  {
    hide ToInt64;
    SameResidue(retentionMs * -1_000_000, -delay);
    assert ToUint64(retentionMs * -1_000_000) == ToUint64(-delay);
  }

  lemma {:induction false} SameResidue(x: int, y: int)
    requires (x - y) % 0x1_0000_0000_0000_0000 == 0
    ensures x % 0x1_0000_0000_0000_0000 == y % 0x1_0000_0000_0000_0000
  {
  }

  /** The log is too large, or its first segment's newest message is older than the delay. */
  predicate Overdue(e: Encoding, v: LogView, retentionBytes: int64, retentionMs: int64, now: int, delay: int)
    requires |v| > 0
  {
    || (retentionBytes > 0 && |LogBytes(e, Flat(v))| > retentionBytes)
    || (retentionMs > 0 && v[0].msgs != [] && v[0].msgs[|v[0].msgs| - 1].timestamp + delay < now)
  }

  /**
   Retention with both rules. The delay is retentionMs in nanoseconds, reduced to the int64 range:
   every dropped segment broke a rule when it was the first one, and the first kept one breaks none
   or is the last.
   */
  lemma {:induction false} RetainedRules(
    e: Encoding, v: LogView, retentionBytes: int64, retentionMs: int64, now: int, delay: int)
    requires |v| > 0
    requires -TWO63 < delay <= TWO63 && (delay - retentionMs * 1_000_000) % 0x1_0000_0000_0000_0000 == 0
    ensures
      var w := Retained(e, v, retentionBytes, retentionMs, now);
      var k := |v| - |w|;
      && 0 < |w| <= |v| && w == v[k..]
      && (forall i :: 0 <= i < k ==> Overdue(e, v[i..], retentionBytes, retentionMs, now, delay))
      && (|w| == 1 || !Overdue(e, w, retentionBytes, retentionMs, now, delay))
  {
    hide Overdue, Expired, RetentionPoint;
    RetentionPointIsLeast(e, v, retentionBytes, retentionMs, now);
    var k := RetentionPoint(e, v, retentionBytes, retentionMs, now);
    forall i | 0 <= i < k
      ensures Overdue(e, v[i..], retentionBytes, retentionMs, now, delay)
    {
      assert Expired(e, v[i..], retentionBytes, retentionMs, now);
      ExpiredIs(e, v[i..], retentionBytes, retentionMs, now, delay);
    }
    ExpiredIs(e, v[k..], retentionBytes, retentionMs, now, delay);
  }

  lemma {:induction false} ExpiredIs(
    e: Encoding, v: LogView, retentionBytes: int64, retentionMs: int64, now: int, delay: int)
    requires |v| > 0
    requires -TWO63 < delay <= TWO63 && (delay - retentionMs * 1_000_000) % 0x1_0000_0000_0000_0000 == 0
    ensures Expired(e, v, retentionBytes, retentionMs, now) <==>
      |v| > 1 && Overdue(e, v, retentionBytes, retentionMs, now, delay)
  {
    hide LogBytes, Flat, TotalSize, Cutoff;
    TotalSizeIsAllBytes(e, v);
    CutoffIs(retentionMs, now, delay);
  }

  /** The time rule alone: dropped segments are older than the retention time, and the first kept one is not. */
  lemma {:induction false} RetainedByTime(e: Encoding, v: LogView, retentionBytes: int64, retentionMs: int64, now: int)
    requires |v| > 0 && retentionBytes <= 0 && 0 < retentionMs * 1_000_000 < TWO63
    ensures
      var w := Retained(e, v, retentionBytes, retentionMs, now);
      var k := |v| - |w|;
      && 0 < |w| <= |v| && w == v[k..]
      && (forall i :: 0 <= i < k ==>
            v[i].msgs != [] && v[i].msgs[|v[i].msgs| - 1].timestamp + retentionMs * 1_000_000 < now)
      && (|w| == 1 || w[0].msgs == [] || w[0].msgs[|w[0].msgs| - 1].timestamp + retentionMs * 1_000_000 >= now)
  {
    hide Retained, LogBytes, Flat;
    var delay := retentionMs * 1_000_000;
    RetainedRules(e, v, retentionBytes, retentionMs, now, delay);
    forall i | 0 <= i < |v| - |Retained(e, v, retentionBytes, retentionMs, now)|
      ensures v[i].msgs != [] && v[i].msgs[|v[i].msgs| - 1].timestamp + delay < now
    {
      assert Overdue(e, v[i..], retentionBytes, retentionMs, now, delay) && v[i..][0] == v[i];
    }
  }

  /** The byte rule alone: what remains fits, or is one segment, and nothing was dropped that fitted already. */
  lemma {:induction false} RetainedByBytes(e: Encoding, v: LogView, retentionBytes: int64, retentionMs: int64, now: int)
    requires |v| > 0 && retentionBytes > 0 && retentionMs <= 0
    ensures
      var w := Retained(e, v, retentionBytes, retentionMs, now);
      var k := |v| - |w|;
      && 0 < |w| <= |v| && w == v[k..]
      && (|w| == 1 || |LogBytes(e, Flat(w))| <= retentionBytes)
      && (forall i :: 0 <= i < k ==> |LogBytes(e, Flat(v[i..]))| > retentionBytes)
  {
    hide Retained, LogBytes, Flat;
    var delay := DelayOf(retentionMs);
    RetainedRules(e, v, retentionBytes, retentionMs, now, delay);
    forall i | 0 <= i < |v| - |Retained(e, v, retentionBytes, retentionMs, now)|
      ensures |LogBytes(e, Flat(v[i..]))| > retentionBytes
    {
      assert Overdue(e, v[i..], retentionBytes, retentionMs, now, delay);
    }
  }

  lemma {:induction false} DelayOf(retentionMs: int64) returns (delay: int)
    ensures -TWO63 < delay <= TWO63 && (delay - retentionMs * 1_000_000) % 0x1_0000_0000_0000_0000 == 0
  {
    delay := NegatedInt64(retentionMs * -1_000_000);
  }

  lemma {:induction false} NegatedInt64(x: int) returns (delay: int)
    ensures -TWO63 < delay <= TWO63 && (delay + x) % 0x1_0000_0000_0000_0000 == 0
  {
    var r, q := x % 0x1_0000_0000_0000_0000, x / 0x1_0000_0000_0000_0000;
    delay := if r < TWO63 then -r else TWO64 - r;
    assert delay + x == (if r < TWO63 then q else q + 1) * 0x1_0000_0000_0000_0000;
  }

  // ---------- ReadBatch ----------

  /** The longest run of consecutively readable messages from offset o, cut at n. */
  function ReadRun(c: map<nat, Message>, o: nat, n: nat): (run: seq<Message>)
    ensures |run| <= n
    ensures forall p :: o <= p < o + |run| ==> p in c && run[p - o] == c[p]
    ensures |run| < n ==> o + |run| !in c
    decreases n
  {
    if n == 0 || o !in c then [] else
      [c[o]] + ReadRun(c, o + 1, n - 1)
  }

  /** The messages are those the log holds at the offsets from o on. */
  ghost predicate Consecutive(c: map<nat, Message>, o: nat, messages: seq<Message>) {
    forall p :: o <= p < o + |messages| ==> p in c && messages[p - o] == c[p]
  }

  /** A run that cannot be extended is the run that ReadRun describes. */
  lemma {:induction false} RunUnique(c: map<nat, Message>, o: nat, n: nat, messages: seq<Message>)
    requires Consecutive(c, o, messages) && |messages| <= n
    requires |messages| < n ==> o + |messages| !in c
    ensures messages == ReadRun(c, o, n)
  {
    var run := ReadRun(c, o, n);
    forall i | 0 <= i < |messages|
      ensures messages[i] == run[i]
    {
      assert o + i in c;
    }
  }

  // ---------- Basic facts ----------

  lemma {:induction false} FlatConcat(a: LogView, b: LogView)
    ensures Flat(a + b) == Flat(a) + Flat(b)
  {
    if a == [] {
      assert a + b == b;
    } else {
      assert (a + b)[1..] == a[1..] + b;
      FlatConcat(a[1..], b);
    }
  }

  lemma {:induction false} FlatSplit(v: LogView)
    requires |v| > 0
    ensures Flat(v) == Flat(Sealed(v)) + Active(v).msgs
  {
    assert v == Sealed(v) + [Active(v)];
    FlatConcat(Sealed(v), [Active(v)]);
    assert [Active(v)][1..] == [];
  }

  lemma {:induction false} TotalSizeConcat(e: Encoding, a: LogView, b: LogView)
    ensures TotalSize(e, a + b) == TotalSize(e, a) + TotalSize(e, b)
  {
    if a == [] {
      assert a + b == b;
    } else {
      assert (a + b)[1..] == a[1..] + b;
      TotalSizeConcat(e, a[1..], b);
    }
  }

  lemma {:induction false} SegmentSizeBound(e: Encoding, v: LogView, i: nat)
    requires i < |v|
    ensures |LogBytes(e, v[i].msgs)| <= TotalSize(e, v)
  {
    assert v == v[..i] + v[i..];
    TotalSizeConcat(e, v[..i], v[i..]);
  }

  /** Base offsets strictly increase and ranges do not overlap. */
  lemma {:induction false} SegmentsOrdered(v: LogView, i: nat, j: nat)
    requires Tiled(v) && (forall k :: 0 <= k < |v| ==> v[k].base <= v[k].next) && i < j < |v|
    ensures v[i].base < v[i].next <= v[j].base <= v[j].next
    decreases j - i
  {
    if i + 1 < j {
      SegmentsOrdered(v, i + 1, j);
    }
  }

  lemma {:induction false} BasesIncrease(v: LogView)
    requires Wf(v)
    ensures forall i, j :: 0 <= i < j < |v| ==> v[i].base < v[i].next <= v[j].base
  {
    forall i, j | 0 <= i < j < |v|
      ensures v[i].base < v[i].next <= v[j].base
    {
      SegmentsOrdered(v, i, j);
    }
  }

  lemma {:induction false} StartBelowEnd(v: LogView)
    requires Wf(v)
    ensures Start(v) <= Active(v).base <= End(v)
  {
    if |v| > 1 { SegmentsOrdered(v, 0, |v| - 1); }
  }

  /** The segments from i on hold messages of increasing offset, all in [v[i].base, End). */
  lemma {:induction false} FlatOrdered(v: LogView)
    requires |v| > 0 && Tiled(v) && forall i :: 0 <= i < |v| ==> WfSegment(v[i])
    ensures Increasing(Flat(v))
    ensures forall i :: 0 <= i < |Flat(v)| ==> Start(v) <= Flat(v)[i].offset < End(v)
  {
    if |v| > 1 {
      FlatOrdered(v[1..]);
      SegmentsOrdered(v, 0, |v| - 1);
    } else {
      assert v[1..] == [];
    }
  }

  /** Contents is the map of the messages, when no offset occurs twice. */
  lemma {:induction false} ContentsIff(msgs: seq<Message>, o: nat)
    requires Increasing(msgs)
    ensures o in Contents(msgs) <==> exists i :: 0 <= i < |msgs| && msgs[i].offset == o
    ensures forall i :: 0 <= i < |msgs| && msgs[i].offset == o ==> o in Contents(msgs) && Contents(msgs)[o] == msgs[i]
  {
    if msgs != [] {
      ContentsIff(msgs[..|msgs| - 1], o);
    }
  }

  lemma {:induction false} ContentsConcat(a: seq<Message>, b: seq<Message>)
    ensures Contents(a + b) == Contents(a) + Contents(b)
  {
    if b == [] {
      assert a + b == a;
    } else {
      var k := |b| - 1;
      assert (a + b)[..|a + b| - 1] == a + b[..k];
      ContentsConcat(a, b[..k]);
    }
  }

  /** In a segment with no gaps the message at position i has offset base + i. */
  lemma {:induction false} DenseOffsets(s: SegView, i: nat)
    requires WfSegment(s) && |s.msgs| == s.next - s.base && i < |s.msgs|
    ensures s.msgs[i].offset == s.base + i
  {
    OffsetsAtLeast(s, i);
    OffsetsAtMost(s, i);
  }

  lemma {:induction false} OffsetsAtLeast(s: SegView, i: nat)
    requires WfSegment(s) && i < |s.msgs|
    ensures s.msgs[i].offset >= s.base + i
  {
    if i > 0 { OffsetsAtLeast(s, i - 1); }
  }

  lemma {:induction false} OffsetsAtMost(s: SegView, i: nat)
    requires WfSegment(s) && i < |s.msgs|
    ensures s.msgs[i].offset + (|s.msgs| - i) <= s.next
    decreases |s.msgs| - i
  {
    if i + 1 < |s.msgs| { OffsetsAtMost(s, i + 1); }
  }

  // ---------- Every operation keeps Wf ----------

  lemma {:induction false} ExtendWf(s: SegView, rs: seq<Record>)
    requires WfSegment(s) && AllAcceptable(rs)
    ensures WfSegment(Extend(s, rs))
  {
    var m, n := Extend(s, rs).msgs, |s.msgs|;
    assert forall i :: 0 <= i < n ==> m[i] == s.msgs[i];
    assert forall i :: n <= i < |m| ==> m[i] == Stamp(s.next + (i - n), rs[i - n]);
    hide Stamped, Extend;
  }

  lemma {:induction false} ExtendActiveWf(v: LogView, rs: seq<Record>)
    requires Wf(v) && AllAcceptable(rs)
    ensures
      var w := v[|v| - 1 := Extend(Active(v), rs)];
      && Wf(w) && Flat(w) == Flat(v) + Stamped(End(v), rs)
      && End(w) == End(v) + |rs| && Start(w) == Start(v)
  {
    hide Flat, WfSegment, Stamped;
    var w := v[|v| - 1 := Extend(Active(v), rs)];
    ExtendWf(Active(v), rs);
    ExtendCounts(Active(v), rs);
    FlatSplit(v);
    FlatSplit(w);
    assert Sealed(w) == Sealed(v);
    assert forall i :: 0 <= i < |v| - 1 ==> w[i] == v[i];
  }

  lemma {:induction false} ExtendCounts(s: SegView, rs: seq<Record>)
    ensures |Extend(s, rs).msgs| == |s.msgs| + |rs|
    ensures Extend(s, rs).next == s.next + |rs| && Extend(s, rs).base == s.base
    ensures Extend(s, rs).msgs == s.msgs + Stamped(s.next, rs)
  {
  }

  lemma {:induction false} RollWf(cfg: Config, v: LogView)
    requires Wf(v) && cfg.maxSegmentSize > 0
    ensures Wf(Roll(cfg, v)) && Flat(Roll(cfg, v)) == Flat(v)
    ensures End(Roll(cfg, v)) == End(v) && Start(Roll(cfg, v)) == Start(v)
  {
    hide LogBytes, Flat, WfSegment;
    var empty := SegView(End(v), End(v), []);
    var w := v + [empty];
    FlatSplit(w);
    assert Sealed(w) == v && forall i :: 0 <= i < |v| ==> w[i] == v[i];
    EmptySegmentWf(End(v));
    EmptyFiles(cfg.encoding, Active(v).msgs);
  }

  lemma {:induction false} EmptySegmentWf(o: nat)
    ensures WfSegment(SegView(o, o, []))
  {
  }

  lemma {:induction false} RollFits(cfg: Config, v: LogView)
    requires |v| > 0
    ensures Fits(cfg.encoding, Roll(cfg, v)) <==> Fits(cfg.encoding, v)
  {
    hide LogBytes;
    var empty := SegView(End(v), End(v), []);
    TotalSizeConcat(cfg.encoding, v, [empty]);
    EmptyFiles(cfg.encoding, []);
    assert TotalSize(cfg.encoding, [empty][1..]) == 0;
  }

  lemma {:induction false} AppendedWf(cfg: Config, v: LogView, rs: seq<Record>)
    requires Wf(v) && cfg.maxSegmentSize > 0
    ensures Wf(Appended(cfg, v, rs))
    ensures Flat(Appended(cfg, v, rs)) == Flat(v) + (if AllAcceptable(rs) then Stamped(End(v), rs) else [])
    ensures End(Appended(cfg, v, rs)) == End(v) + (if AllAcceptable(rs) then |rs| else 0)
    ensures Start(Appended(cfg, v, rs)) == Start(v)
  {
    if rs != [] && AllAcceptable(rs) {
      ExtendActiveWf(v, rs);
      RollWf(cfg, v[|v| - 1 := Extend(Active(v), rs)]);
    }
  }

  /** A write opens a new segment exactly when the bytes of the segment it wrote to reach the size limit. */
  lemma {:induction false} AppendedRolls(cfg: Config, v: LogView, rs: seq<Record>)
    requires |v| > 0 && rs != [] && AllAcceptable(rs)
    ensures
      var w, filled := Appended(cfg, v, rs), Active(v).msgs + Stamped(End(v), rs);
      && |w| == |v| + (if |LogBytes(cfg.encoding, filled)| >= cfg.maxSegmentSize then 1 else 0)
      && w[|v| - 1] == SegView(Active(v).base, End(v) + |rs|, filled)
      && (|w| > |v| ==> Active(w) == SegView(End(v) + |rs|, End(v) + |rs|, []))
      && forall i :: 0 <= i < |v| - 1 ==> w[i] == v[i]
  {
    hide LogBytes, Stamped;
    ExtendCounts(Active(v), rs);
  }

  lemma {:induction false} RetainedWf(v: LogView, k: nat)
    requires Wf(v) && k < |v|
    ensures Wf(v[k..]) && End(v[k..]) == End(v) && Active(v[k..]) == Active(v)
    ensures Flat(v) == Flat(v[..k]) + Flat(v[k..])
  {
    hide Flat, WfSegment, Tiled;
    assert v == v[..k] + v[k..];
    FlatConcat(v[..k], v[k..]);
    SuffixTiled(v, k);
    assert forall i :: 0 <= i < |v| - k ==> v[k..][i] == v[k + i];
  }

  lemma {:induction false} SuffixTiled(v: LogView, k: nat)
    requires Tiled(v) && k <= |v|
    ensures Tiled(v[k..])
  {
    assert forall i :: 0 <= i < |v| - k ==> v[k..][i] == v[k + i];
  }
}
