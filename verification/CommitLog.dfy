/**
 The ordered segments of one partition (internal/log/log.go). Every public operation holds
 the log's mutex, so each one is a single step here. The methods work on Segment objects and
 on the partition directory, and are proved against LogView.
 */
module CommitLog {
  import opened Bytes
  import opened Format
  import opened Views
  import opened SegmentFile
  import opened Compaction

  ghost function Bases(v: LogView): set<nat> {
    set i | 0 <= i < |v| :: v[i].base
  }

  function BaseTable(v: LogView): seq<nat> {
    seq(|v|, i requires 0 <= i < |v| => v[i].base)
  }

  /** The offset falls in the part of the offset space that segment i answers for. */
  ghost predicate Owns(v: LogView, i: nat, offset: nat)
    requires i < |v|
  {
    v[i].base <= offset && (i + 1 < |v| ==> offset < v[i + 1].base)
  }

  lemma {:induction false} AbsentOutside(v: LogView, offset: nat)
    requires Tiled(v) && (forall i :: 0 <= i < |v| ==> WfSegment(v[i]))
    requires v != [] ==> offset < Start(v) || End(v) <= offset
    ensures offset !in Contents(Flat(v))
  {
    if v != [] {
      FlatOrdered(v);
      ContentsIff(Flat(v), offset);
    }
  }

  /** Only the owning segment can hold an offset. */
  lemma {:induction false} OwnerHolds(v: LogView, i: nat, offset: nat)
    requires Wf(v) && i < |v| && Owns(v, i, offset)
    ensures Lookup(Flat(v), offset) == Lookup(v[i].msgs, offset)
  {
    hide Flat, Contents, WfSegment;
    var before, after := v[..i], v[i + 1..];
    FlatAround(v, i);
    var a, m, b := Flat(before), v[i].msgs, Flat(after);
    PartsOrdered(v, i);
    PartsOrdered(v, i + 1);
    AbsentOutside(before, offset);
    AbsentOutside(after, offset);
    ContentsConcat(a, m + b);
    ContentsConcat(m, b);
  }

  lemma {:induction false} PartsOrdered(v: LogView, i: nat)
    requires Wf(v) && i <= |v|
    ensures Tiled(v[..i]) && (forall k :: 0 <= k < i ==> WfSegment(v[..i][k]))
    ensures Tiled(v[i..]) && (forall k :: 0 <= k < |v| - i ==> WfSegment(v[i..][k]))
  {
    hide WfSegment;
  }

  lemma {:induction false} FlatAround(v: LogView, i: nat)
    requires i < |v|
    ensures Flat(v) == Flat(v[..i]) + (v[i].msgs + Flat(v[i + 1..]))
  {
    assert v == v[..i] + v[i..];
    FlatConcat(v[..i], v[i..]);
    assert v[i..][1..] == v[i + 1..];
  }

  lemma {:induction false} SameBases(v: LogView, w: LogView)
    requires |v| == |w| && forall i :: 0 <= i < |v| ==> v[i].base == w[i].base
    ensures Bases(v) == Bases(w)
  {
    forall b
      ensures b in Bases(v) <==> b in Bases(w)
    {
      if b in Bases(v) { var i :| 0 <= i < |v| && v[i].base == b; assert w[i].base == b; }
      if b in Bases(w) { var i :| 0 <= i < |w| && w[i].base == b; assert v[i].base == b; }
    }
  }

  lemma {:induction false} BasesSnoc(v: LogView, s: SegView)
    ensures Bases(v + [s]) == Bases(v) + {s.base}
  {
    forall b
      ensures b in Bases(v + [s]) <==> b in Bases(v) + {s.base}
    {
      if b in Bases(v) { var i :| 0 <= i < |v| && v[i].base == b; assert (v + [s])[i].base == b; }
      assert (v + [s])[|v|].base == s.base;
    }
  }

  /** The base offset of a rolled segment is not in use yet. */
  lemma {:induction false} EndIsNew(v: LogView, w: LogView)
    requires Wf(v) && Wf(w) && w == v + [SegView(End(v), End(v), [])]
    ensures End(v) !in Bases(v) && Bases(w) == Bases(v) + {End(v)}
  {
    hide WfSegment;
    BasesIncrease(w);
    BasesSnoc(v, Active(w));
    forall i | 0 <= i < |v|
      ensures v[i].base != End(v)
    {
      assert w[i].base < w[|v|].base;
    }
  }

  /** The files of a directory are those of v. */
  ghost predicate DirHolds(files: map<nat, Files>, e: Encoding, v: LogView) {
    && Wf(v) && Fits(e, v)
    && files.Keys == Bases(v)
    && (forall i :: 0 <= i < |v| ==>
          v[i].base in files && files[v[i].base] == Files(LogBytes(e, v[i].msgs), IndexBytes(e, v[i].msgs)))
  }

  // ---------- Directory listing ----------

  function Insert(xs: seq<nat>, x: nat): seq<nat> {
    if xs == [] || x < xs[0] then [x] + xs else [xs[0]] + Insert(xs[1..], x)
  }

  lemma {:induction false} InsertMembers(xs: seq<nat>, x: nat)
    ensures forall y :: y in Insert(xs, x) <==> y == x || y in xs
  {
    if xs != [] && xs[0] <= x {
      InsertMembers(xs[1..], x);
      assert xs == [xs[0]] + xs[1..];
    }
  }

  lemma {:induction false} InsertSorted(xs: seq<nat>, x: nat)
    requires StrictlyIncreasing(xs) && x !in xs
    ensures StrictlyIncreasing(Insert(xs, x))
  {
    if xs != [] && xs[0] <= x {
      var rest := Insert(xs[1..], x);
      InsertSorted(xs[1..], x);
      InsertMembers(xs[1..], x);
      hide Insert;
      forall i | 0 <= i < |rest|
        ensures xs[0] < rest[i]
      {
        assert rest[i] in rest;
      }
    }
  }

  /** The base offsets found in a directory, sorted. */
  method SortedOffsets(keys: set<nat>) returns (r: seq<nat>)
    ensures StrictlyIncreasing(r)
    ensures forall x :: x in r <==> x in keys
  {
    r := [];
    var rest := keys;
    while rest != {}
      invariant StrictlyIncreasing(r)
      invariant forall x :: x in keys <==> x in r || x in rest
      invariant forall x :: x in r ==> x !in rest
    {
      var x :| x in rest;
      InsertMembers(r, x);
      InsertSorted(r, x);
      r := Insert(r, x);
      rest := rest - {x};
    }
  }

  /** A set has one strictly increasing listing. */
  lemma {:induction false} SortedUnique(a: seq<nat>, b: seq<nat>)
    requires StrictlyIncreasing(a) && StrictlyIncreasing(b) && forall x :: x in a <==> x in b
    ensures a == b
  {
    assert (a != [] ==> a[0] in b) && (b != [] ==> b[0] in a);
    if a != [] {
      forall x
        ensures x in a[1..] <==> x in b[1..]
      {
        if x in a[1..] { assert x in b; }
        if x in b[1..] { assert x in a; }
      }
      SortedUnique(a[1..], b[1..]);
    }
  }

  lemma {:induction false} SortedBases(v: LogView, offsets: seq<nat>)
    requires Wf(v) && StrictlyIncreasing(offsets) && forall x :: x in offsets <==> x in Bases(v)
    ensures offsets == BaseTable(v)
  {
    hide WfSegment, Tiled;
    BasesIncrease(v);
    var bases := BaseTable(v);
    forall x
      ensures x in bases <==> x in Bases(v)
    {
      if x in bases { var i :| 0 <= i < |v| && bases[i] == x; assert v[i].base == x; }
      if x in Bases(v) { var i :| 0 <= i < |v| && v[i].base == x; assert bases[i] == x; }
    }
    SortedUnique(offsets, bases);
  }

  function Following(xs: seq<nat>, i: nat): Option<nat> {
    if i + 1 < |xs| then Some(xs[i + 1]) else None
  }

  lemma {:induction false} FollowingAt(xs: seq<nat>, i: nat)
    ensures Following(xs, i) == if i + 1 < |xs| then Some(xs[i + 1]) else None
  {
  }

  lemma {:induction false} LinkedIsReady(segment: Segment, dir: Directory, codec: Codec, base: nat, next: Option<nat>)
    requires LinkedAt(segment, dir, codec, base, next)
    ensures segment.Ready(false)
  {
  }

  lemma {:induction false} OpenedIsReady(segment: Segment, dir: Directory, codec: Codec, base: nat)
    requires Opened(segment, dir, codec, base)
    ensures segment.Ready(false) && segment.baseOffset == base && segment.dir == dir
  {
  }

  /** Next offsets and sizes that a reopened log must find. */
  lemma {:induction false} LinkedNext(e: Encoding, v: LogView)
    requires Wf(v) && Fits(e, v)
    ensures forall i :: 0 <= i < |v| ==> v[i].next < TWO64 && |LogBytes(e, v[i].msgs)| < TWO63
    ensures forall i :: 0 <= i < |v| ==>
      var following := Following(BaseTable(v), i);
      v[i].next == if following.Some? then following.value else IndexedEnd(v[i].base, IndexBytes(e, v[i].msgs))
  {
    hide LogBytes, IndexBytes, IndexedEnd, WfSegment, TotalSize;
    BasesIncrease(v);
    SegmentSizeBound(e, v, |v| - 1);
    IndexedEndIsNext(e, Active(v));
    forall i | 0 <= i < |v|
      ensures v[i].next < TWO64 && |LogBytes(e, v[i].msgs)| < TWO63
    {
      SegmentSizeBound(e, v, i);
    }
  }

  lemma {:induction false} DirNonEmpty(files: map<nat, Files>, e: Encoding, v: LogView)
    requires DirHolds(files, e, v)
    ensures files != map[]
  {
    assert v[0].base in files;
  }

  lemma {:induction false} DirValid(files: map<nat, Files>, e: Encoding, v: LogView)
    requires DirHolds(files, e, v)
    ensures forall b :: b in files ==> ValidPair(files[b])
  {
    hide LogBytes, IndexBytes, ValidPair, Wf, Fits;
    forall b | b in files
      ensures ValidPair(files[b])
    {
      var i :| 0 <= i < |v| && v[i].base == b;
      PairIsValid(e, v[i].msgs);
    }
  }

  lemma {:induction false} EmptyDirHolds(e: Encoding)
    ensures DirHolds(map[0 := Files([], [])], e, EMPTY_LOG)
  {
    hide LogBytes, IndexBytes;
    EmptyFiles(e, []);
    assert EMPTY_LOG[0].base == 0 && Bases(EMPTY_LOG) == {0} == map[0 := Files([], [])].Keys;
    assert EMPTY_LOG[1..] == [];
    assert TotalSize(e, EMPTY_LOG) == 0;
    assert Wf(EMPTY_LOG);
  }

  lemma {:induction false} BasesTail(v: LogView)
    requires Wf(v) && |v| > 1
    ensures Bases(v[1..]) == Bases(v) - {v[0].base}
    ensures forall i :: 0 < i < |v| ==> v[i].base != v[0].base
  {
    hide WfSegment, Tiled;
    BasesIncrease(v);
    forall b
      ensures b in Bases(v[1..]) <==> b in Bases(v) - {v[0].base}
    {
      if b in Bases(v[1..]) { var i :| 0 <= i < |v| - 1 && v[1..][i].base == b; assert v[i + 1].base == b; }
      if b in Bases(v) - {v[0].base} { var i :| 0 < i < |v| && v[i].base == b; assert v[1..][i - 1].base == b; }
    }
  }

  lemma {:induction false} TailFits(e: Encoding, v: LogView)
    requires Wf(v) && Fits(e, v) && |v| > 1
    ensures Wf(v[1..]) && Fits(e, v[1..]) && End(v[1..]) == End(v)
    ensures TotalSize(e, v[1..]) == TotalSize(e, v) - |LogBytes(e, v[0].msgs)|
  {
    hide LogBytes, Flat, WfSegment;
    RetainedWf(v, 1);
  }

  lemma {:induction false} SingleNotExpired(
    e: Encoding, v: LogView, retentionBytes: int64, retentionMs: int64, now: int)
    requires |v| <= 1
    ensures !Expired(e, v, retentionBytes, retentionMs, now)
  {
  }

  lemma {:induction false} NoRuleNotExpired(
    e: Encoding, v: LogView, retentionBytes: int64, retentionMs: int64, now: int)
    requires retentionBytes <= 0 && retentionMs <= 0
    ensures !Expired(e, v, retentionBytes, retentionMs, now)
  {
  }

  /** What an open segment's index gives for each of its messages. */
  lemma {:induction false} SegmentReads(segment: Segment, e: Encoding, s: SegView)
    requires segment.Rep(e, s) && WfSegment(s) && segment.Ready(e.compressed)
    ensures segment.indexEntries == |s.msgs| && segment.open
    ensures segment.IndexIs(OffsetTable(s.msgs), PositionTable(e, s.msgs))
    ensures forall i :: 0 <= i < |s.msgs| ==>
      && OffsetTable(s.msgs)[i] == s.msgs[i].offset < TWO64
      && Lookup(s.msgs, s.msgs[i].offset) == Ok(s.msgs[i])
  {
    segment.HoldsIndex(e, s);
    hide Contents, LogBytes, IndexBytes;
    forall i | 0 <= i < |s.msgs|
      ensures Lookup(s.msgs, s.msgs[i].offset) == Ok(s.msgs[i])
    {
      ContentsIff(s.msgs, s.msgs[i].offset);
    }
  }

  lemma {:induction false} LatestOntoEmpty(msgs: seq<Message>, later: map<bytes, nat>)
    ensures LatestOnto(msgs[|msgs|..], later) == later
  {
  }

  lemma {:induction false} LatestOntoStep(msgs: seq<Message>, i: nat, later: map<bytes, nat>)
    requires i < |msgs|
    ensures
      var l := LatestOnto(msgs[i + 1..], later);
      LatestOnto(msgs[i..], later) == if msgs[i].key in l then l else l[msgs[i].key := msgs[i].offset]
  {
    assert msgs[i..][1..] == msgs[i + 1..];
  }

  lemma {:induction false} CompactOneFacts(e: Encoding, v: LogView, i: nat, latest: map<bytes, nat>)
    requires Wf(v) && Fits(e, v) && i < |v| - 1
    ensures
      var w := v[i := CompactSegmentView(v[i], latest)];
      Wf(w) && Fits(e, w) && Bases(w) == Bases(v)
    ensures v[i].base < v[i].next && forall j :: 0 <= j < |v| && j != i ==> v[j].base != v[i].base
  {
    hide WfSegment, TotalSize, Survivors;
    CompactOneWf(e, v, i, latest);
    SameBases(v, v[i := CompactSegmentView(v[i], latest)]);
    BasesIncrease(v);
  }

  /** The log while Compact is at segment i. */
  ghost function CompactedUpTo(v: LogView, latest: map<bytes, nat>, i: int): LogView {
    seq(|v|, j requires 0 <= j < |v| => if j < i then CompactSegmentView(v[j], latest) else v[j])
  }

  lemma {:induction false} FlatEnd(segs: LogView)
    ensures Latest(Flat(segs[|segs|..])) == map[]
  {
  }

  lemma {:induction false} FlatStep(segs: LogView, i: nat)
    requires i < |segs|
    ensures Flat(segs[i..]) == segs[i].msgs + Flat(segs[i + 1..])
  {
    assert segs[i..][1..] == segs[i + 1..];
  }

  lemma {:induction false} BasesDistinct(v: LogView, i: nat)
    requires Wf(v) && i < |v| - 1
    ensures v[i].base < v[i].next && forall j :: 0 <= j < |v| && j != i ==> v[j].base != v[i].base
  {
    hide WfSegment;
    BasesIncrease(v);
  }

  /** A segment object loaded from its files; the next offset is the following base when there is one. */
  ghost predicate LinkedAt(segment: Segment, dir: Directory, codec: Codec, base: nat, next: Option<nat>)
    reads segment, dir
  {
    && segment.dir == dir && segment.baseOffset == base && segment.codec == codec
    && base in dir.files
    && segment.nextOffset == (if next.Some? then next.value else IndexedEnd(base, dir.files[base].index))
    && segment.size == |dir.files[base].log|
    && segment.indexEntries == |dir.files[base].index| / 16
    && segment.Ready(false)
  }

  lemma {:induction false} LinkedSegment(segment: Segment, dir: Directory, e: Encoding, s: SegView, next: Option<nat>)
    requires LinkedAt(segment, dir, e.codec, s.base, next)
    requires dir.files[s.base] == Files(LogBytes(e, s.msgs), IndexBytes(e, s.msgs))
    requires s.next < TWO64 && |LogBytes(e, s.msgs)| < TWO63
    requires s.next == if next.Some? then next.value else IndexedEnd(s.base, IndexBytes(e, s.msgs))
    ensures segment.dir == dir && segment.Rep(e, s)
  {
    hide LogBytes, IndexBytes, IndexedEnd;
  }

  /** A segment as NewSegment leaves it. */
  ghost predicate Opened(segment: Segment, dir: Directory, codec: Codec, base: nat)
    reads segment, dir
  {
    LinkedAt(segment, dir, codec, base, None)
  }

  /** What a write to the active segment leaves, before the roll. */
  lemma {:induction false} WriteFacts(cfg: Config, v: LogView, rs: seq<Record>)
    requires Wf(v) && AllAcceptable(rs) && Fits(cfg.encoding, Appended(cfg, v, rs))
    requires rs != []
    ensures
      var w := v[|v| - 1 := Extend(Active(v), rs)];
      && Appended(cfg, v, rs) == Roll(cfg, w) && Wf(w) && Fits(cfg.encoding, w) && Bases(w) == Bases(v)
      && Active(v).next + |rs| < TWO64 && |LogBytes(cfg.encoding, Extend(Active(v), rs).msgs)| < TWO63
    ensures forall i :: 0 <= i < |v| - 1 ==> v[i].base != Active(v).base
  {
    hide LogBytes, Flat, TotalSize, WfSegment;
    var w := v[|v| - 1 := Extend(Active(v), rs)];
    ExtendActiveWf(v, rs);
    RollFits(cfg, w);
    SegmentSizeBound(cfg.encoding, w, |v| - 1);
    SameBases(v, w);
    BasesIncrease(v);
  }

  /** What ReadBatch returns: a gap or an offset before the log is an error only as the first offset. */
  function BatchAt(v: LogView, offset: nat, maxCount: int): Result<seq<Message>>
    requires |v| > 0
  {
    var c := Contents(Flat(v));
    if maxCount <= 0 then Ok([])
    else if offset < Start(v) || (offset < End(v) && offset !in c) then Err
    else Ok(ReadRun(c, offset, maxCount))
  }

  /** Up to maxCount messages from the offset on, and fewer only where the next one is missing. */
  lemma {:induction false} BatchIsLongest(v: LogView, offset: nat, maxCount: int)
    requires |v| > 0
    ensures
      var r, c := BatchAt(v, offset, maxCount), Contents(Flat(v));
      && (maxCount <= 0 ==> r == Ok([]))
      && (r.Err? <==> maxCount > 0 && (offset < Start(v) || (offset < End(v) && offset !in c)))
      && (maxCount > 0 && r.Ok? ==>
            && |r.value| <= maxCount && Consecutive(c, offset, r.value)
            && (|r.value| < maxCount ==> offset + |r.value| !in c))
  {
    hide Contents, Flat;
  }

  lemma {:induction false} ConsecutiveConcat(c: map<nat, Message>, o: nat, a: seq<Message>, b: seq<Message>)
    requires Consecutive(c, o, a) && Consecutive(c, o + |a|, b)
    ensures Consecutive(c, o, a + b)
    ensures a + b != [] ==> o in c
  {
    forall p | o <= p < o + |a + b|
      ensures p in c && (a + b)[p - o] == c[p]
    {
    }
  }

  class Log {
    const dir: Directory
    const codec: Codec
    const maxSegmentSize: nat
    var segments: seq<Segment>
    var compressed: bool

    constructor Attach(dir: Directory, codec: Codec, maxSegmentSize: nat, segments: seq<Segment>)
      ensures this.dir == dir && this.codec == codec && this.maxSegmentSize == maxSegmentSize
      ensures this.segments == segments && !compressed
    {
      this.dir, this.codec, this.maxSegmentSize := dir, codec, maxSegmentSize;
      this.segments, compressed := segments, false;
    }

    /** The directory and the segment objects are those of v, written in encoding e. */
    ghost predicate Rep(e: Encoding, v: LogView)
      reads this, dir, segments
    {
      && Wf(v) && Fits(e, v)
      && codec == e.codec && maxSegmentSize > 0
      && |segments| == |v|
      && (forall i :: 0 <= i < |v| ==> segments[i].dir == dir && segments[i].Rep(e, v[i]))
      && dir.files.Keys == Bases(v)
    }

    /** All handles are open and every segment decodes what was written in encoding e. */
    ghost predicate Ready(e: Encoding)
      reads this, segments
    {
      compressed == e.compressed && forall i :: 0 <= i < |segments| ==> segments[i].Ready(e.compressed)
    }

    lemma {:induction false} RepFacts(e: Encoding, v: LogView)
      requires Rep(e, v)
      ensures |v| > 0 && Wf(v) && |segments| == |v| && maxSegmentSize > 0
    {
    }

    lemma {:induction false} RepSegment(e: Encoding, v: LogView, i: nat)
      requires Rep(e, v) && i < |v|
      ensures |v| > 0 && Wf(v) && |segments| == |v| && WfSegment(v[i])
      ensures segments[i].dir == dir && segments[i].Rep(e, v[i]) && segments[i].nextOffset == v[i].next < TWO64
      ensures segments[i].size == |LogBytes(e, v[i].msgs)|
      ensures v[i].next <= End(v) && (i + 1 < |v| ==> v[i].next == v[i + 1].base)
      ensures Ready(e) ==> segments[i].Ready(e.compressed)
    {
      BasesIncrease(v);
    }

    lemma {:induction false} SegmentIsOpen(e: Encoding, v: LogView, i: nat)
      requires Rep(e, v) && Ready(e) && i < |v|
      ensures |segments| == |v| && segments[i].open
    {
    }

    /** Opens one segment for each listed base offset, in order. */
    static method OpenSegments(dir: Directory, codec: Codec, offsets: seq<nat>) returns (r: Result<seq<Segment>>)
      requires forall x :: x in offsets ==> x in dir.files
      modifies dir
      ensures dir.files == old(dir.files)
      ensures r.Ok? <==> forall x :: x in offsets ==> ValidPair(dir.files[x])
      ensures r.Ok? ==> |r.value| == |offsets|
      ensures r.Ok? ==> forall i :: 0 <= i < |offsets| ==> Opened(r.value[i], dir, codec, offsets[i]) && fresh(r.value[i])
    {
      hide IndexedEnd, ValidPair;
      var segments: seq<Segment> := [];
      for i := 0 to |offsets|
        invariant dir.files == old(dir.files) && |segments| == i
        invariant forall j :: 0 <= j < i ==> ValidPair(dir.files[offsets[j]])
        invariant forall j :: 0 <= j < i ==> Opened(segments[j], dir, codec, offsets[j]) && fresh(segments[j])
      {
        var segment := Segment.NewSegment(dir, offsets[i], codec);
        if segment.Err? {
          assert offsets[i] in offsets;
          return Err;
        }
        segments := segments + [segment.value];
      }
      return Ok(segments);
    }

    /** Opens all segments found in the directory, or creates segment 0 when there is none. */
    static method LoadSegments(dir: Directory, codec: Codec) returns (r: Result<seq<Segment>>, ghost offsets: seq<nat>)
      modifies dir
      ensures dir.files == if old(dir.files) == map[] then map[0 := Files([], [])] else old(dir.files)
      ensures r.Ok? <==> forall b :: b in old(dir.files) ==> ValidPair(old(dir.files)[b])
      ensures r.Ok? ==> |r.value| == |offsets| && StrictlyIncreasing(offsets) && forall x :: x in offsets <==> x in dir.files
      ensures r.Ok? ==> forall i :: 0 <= i < |offsets| ==> Opened(r.value[i], dir, codec, offsets[i]) && fresh(r.value[i])
    {
      var found := SortedOffsets(dir.files.Keys);
      offsets := found;
      r := OpenSegments(dir, codec, found);
      assert found != [] ==> found[0] in dir.files;
      if r.Ok? && |r.value| == 0 {
        assert dir.files == map[];
        var first := Segment.NewSegment(dir, 0, codec);
        offsets := [0];
        r := Ok([first.value]);
      }
    }

    static method LinkSegment(segment: Segment, next: nat, ghost dir: Directory, ghost codec: Codec, ghost base: nat)
      requires Opened(segment, dir, codec, base)
      modifies segment
      ensures LinkedAt(segment, dir, codec, base, Some(next))
    {
      segment.nextOffset := next;
    }

    /** Every segment but the last ends where the next one begins. */
    static method LinkSegments(segments: seq<Segment>, dir: Directory, codec: Codec, ghost offsets: seq<nat>)
      requires |segments| == |offsets| && StrictlyIncreasing(offsets)
      requires forall i :: 0 <= i < |offsets| ==> Opened(segments[i], dir, codec, offsets[i])
      requires forall i, j :: 0 <= i < j < |segments| ==> segments[i] != segments[j]
      modifies segments
      ensures forall i :: 0 <= i < |offsets| ==>
        LinkedAt(segments[i], dir, codec, offsets[i], Following(offsets, i))
      ensures forall i :: 0 <= i < |segments| ==> segments[i].Ready(false)
    {
      hide LinkedAt, Following, Segment.Ready, StrictlyIncreasing;
      var i := 0;
      while i < |segments| - 1
        invariant i == 0 || 0 < i < |segments|
        invariant forall j :: 0 <= j < |offsets| ==>
          LinkedAt(segments[j], dir, codec, offsets[j], if j < i then Following(offsets, j) else None)
      {
        OpenedIsReady(segments[i + 1], dir, codec, offsets[i + 1]);
        FollowingAt(offsets, i);
        LinkSegment(segments[i], segments[i + 1].baseOffset, dir, codec, offsets[i]);
        i := i + 1;
      }
      if |offsets| > 0 { FollowingAt(offsets, |offsets| - 1); }
      forall j | 0 <= j < |segments|
        ensures segments[j].Ready(false)
      {
        LinkedIsReady(segments[j], dir, codec, offsets[j], Following(offsets, j));
      }
    }

    /** The segment objects as NewLog leaves them. */
    ghost predicate Linked(offsets: seq<nat>)
      reads this, dir, segments
    {
      && |segments| == |offsets| && StrictlyIncreasing(offsets)
      && (forall x :: x in offsets <==> x in dir.files)
      && forall i :: 0 <= i < |segments| ==>
        LinkedAt(segments[i], dir, codec, offsets[i], Following(offsets, i))
    }

    /** Reopening rebuilds every base offset, next offset, size and entry count of v. */
    lemma {:induction false} LinkedRep(e: Encoding, v: LogView, offsets: seq<nat>)
      requires Linked(offsets) && DirHolds(dir.files, e, v) && codec == e.codec && maxSegmentSize > 0
      ensures Rep(e, v)
    {
      hide LinkedAt, Segment.Rep, LogBytes, IndexBytes, IndexedEnd, Wf, Fits, Bases, Following;
      SortedBases(v, offsets);
      LinkedNext(e, v);
      forall i | 0 <= i < |v|
        ensures segments[i].dir == dir && segments[i].Rep(e, v[i])
      {
        LinkedSegment(segments[i], dir, e, v[i], Following(offsets, i));
      }
    }

    /** Loads the segments of a directory in offset order; an empty directory gets segment 0. */
    static method NewLog(dir: Directory, codec: Codec, sizes: seq<nat>, ghost e: Encoding, ghost v: LogView)
        returns (r: Result<Log>)
      requires codec == e.codec
      modifies dir
      ensures r.Ok? <==> |sizes| <= 1 && sizes != [0] && forall b :: b in old(dir.files) ==> ValidPair(old(dir.files)[b])
      ensures old(dir.files) != map[] ==> dir.files == old(dir.files)
      ensures r.Ok? ==>
        && fresh(r.value) && r.value.dir == dir && r.value.Ready(Encoding(codec, false))
        && (forall i :: 0 <= i < |r.value.segments| ==> fresh(r.value.segments[i]))
        && r.value.maxSegmentSize == (if sizes == [] then 1024 * 1024 * 1024 else sizes[0])
      ensures r.Ok? && old(dir.files) == map[] ==> r.value.Rep(e, EMPTY_LOG)
      ensures r.Ok? && DirHolds(old(dir.files), e, v) ==> r.value.Rep(e, v)
    {
      hide LinkedAt, Following, ValidPair, DirHolds, Log.Rep;
      var segmentSize := 1024 * 1024 * 1024;
      if |sizes| > 1 {
        return Err;
      }
      if |sizes| == 1 {
        if sizes[0] == 0 {
          return Err;
        }
        segmentSize := sizes[0];
      }
      var loaded, offsets := LoadSegments(dir, codec);
      if loaded.Err? {
        return Err;
      }
      forall i | 0 <= i < |offsets|
        ensures loaded.value[i].baseOffset == offsets[i]
      {
        OpenedIsReady(loaded.value[i], dir, codec, offsets[i]);
      }
      LinkSegments(loaded.value, dir, codec, offsets);
      var log := new Log.Attach(dir, codec, segmentSize, loaded.value);
      assert log.Linked(offsets);
      if DirHolds(old(dir.files), e, v) {
        DirNonEmpty(old(dir.files), e, v);
        log.LinkedRep(e, v, offsets);
      }
      if old(dir.files) == map[] {
        EmptyDirHolds(e);
        log.LinkedRep(e, EMPTY_LOG, offsets);
      }
      return Ok(log);
    }

    /** Closes every segment; counters and files stay as they are. */
    method Close(ghost e: Encoding, ghost v: LogView)
      requires Rep(e, v)
      modifies segments
      ensures Rep(e, v) && forall i :: 0 <= i < |segments| ==> !segments[i].open
    {
      hide Wf, Fits, PairHolds, Bases;
      for i := 0 to |segments|
        invariant Rep(e, v) && forall j :: 0 <= j < i ==> !segments[j].open
      {
        segments[i].Close();
      }
    }

    /** The files alone determine the log: they are what NewLog needs to rebuild it. */
    lemma {:induction false} RepDirHolds(e: Encoding, v: LogView)
      requires Rep(e, v)
      ensures DirHolds(dir.files, e, v)
    {
      hide LogBytes, IndexBytes, TotalSize, Bases, Tiled, WfSegment;
    }

    /** sort.Search for the first segment whose base offset exceeds a bound. */
    method SearchBase(ghost bases: seq<nat>, bound: nat) returns (k: nat)
      requires |bases| == |segments| && StrictlyIncreasing(bases)
      requires forall i :: 0 <= i < |segments| ==> segments[i].baseOffset == bases[i]
      ensures k <= |bases|
      ensures forall i :: 0 <= i < k ==> bases[i] <= bound
      ensures forall i :: k <= i < |bases| ==> bound < bases[i]
    {
      var low, high := 0, |segments|;
      while low < high
        invariant 0 <= low <= high <= |segments|
        invariant forall i :: 0 <= i < low ==> bases[i] <= bound
        invariant forall i :: high <= i < |bases| ==> bound < bases[i]
      {
        var mid := (low + high) / 2;
        if segments[mid].baseOffset <= bound {
          low := mid + 1;
        } else {
          high := mid;
        }
      }
      return low;
    }

    lemma {:induction false} RepBases(e: Encoding, v: LogView)
      requires Rep(e, v)
      ensures StrictlyIncreasing(BaseTable(v)) && |BaseTable(v)| == |segments| == |v|
      ensures forall i :: 0 <= i < |segments| ==> segments[i].baseOffset == BaseTable(v)[i]
    {
      hide PairHolds, Fits, WfSegment, Bases, Tiled;
      BasesIncrease(v);
    }

    /** The segment that answers for an offset, or an error before the beginning of the log. */
    method SegmentForOffset(ghost e: Encoding, ghost v: LogView, offset: nat) returns (r: Result<nat>)
      requires Rep(e, v)
      ensures r.Err? <==> offset < Start(v)
      ensures r.Ok? ==> r.value < |v| && Owns(v, r.value, offset)
    {
      hide LogBytes, IndexBytes, Fits, WfSegment, Tiled;
      RepBases(e, v);
      ghost var bases := BaseTable(v);
      assert bases[0] == v[0].base;
      if offset < segments[0].baseOffset {
        return Err;
      }
      var k := SearchBase(bases, offset);
      assert k > 0 && bases[k - 1] == v[k - 1].base && (k < |v| ==> bases[k] == v[k].base);
      r := Ok(k - 1);
    }

    /** Returns exactly the message the log holds at an offset, and an error where it holds none. */
    method Read(ghost e: Encoding, ghost v: LogView, offset: nat) returns (r: Result<Message>)
      requires Rep(e, v) && e.codec.Lawful() && offset < TWO64
      ensures Ready(e) ==> r == Lookup(Flat(v), offset)
      ensures forall i :: 0 <= i < |v| && Owns(v, i, offset) && !segments[i].open ==> r.Err?
    {
      hide PairHolds, Fits, Increasing, Bases;
      var index := SegmentForOffset(e, v, offset);
      if index.Err? {
        AbsentOutside(v, offset);
        return Err;
      }
      ghost var i := index.value;
      OwnerHolds(v, i, offset);
      BasesIncrease(v);
      r := segments[index.value].Read(e, v[i], offset);
    }

    /** The inner loop of ReadBatch: read on within segment i until n messages, its end or a gap. */
    method ReadWithin(ghost e: Encoding, ghost v: LogView, i: nat, offset: nat, n: nat)
        returns (messages: seq<Message>, gap: bool)
      requires Rep(e, v) && Ready(e) && e.codec.Lawful() && i < |v| && Owns(v, i, offset)
      ensures |messages| <= n && Consecutive(Contents(Flat(v)), offset, messages)
      ensures gap ==> |messages| < n && offset + |messages| < End(v) && offset + |messages| !in Contents(Flat(v))
      ensures !gap ==> |messages| == n || v[i].next <= offset + |messages|
    {
      hide Rep, Ready, Segment.Rep, Segment.Ready, Wf, WfSegment, Flat, Contents, Codec.Lawful;
      RepSegment(e, v, i);
      ghost var c := Contents(Flat(v));
      var segment := segments[i];
      messages := [];
      while |messages| < n && offset + |messages| < segment.nextOffset
        invariant |messages| <= n && Consecutive(c, offset, messages)
      {
        OwnerHolds(v, i, offset + |messages|);
        var msg := segment.Read(e, v[i], offset + |messages|);
        if msg.Err? {
          return messages, true;
        }
        messages := messages + [msg.value];
      }
      gap := false;
    }

    /** The longest run of readable messages from an offset, across segments, up to the first gap. */
    method ReadBatch(ghost e: Encoding, ghost v: LogView, offset: nat, maxCount: int) returns (r: Result<seq<Message>>)
      requires Rep(e, v) && Ready(e) && e.codec.Lawful() && offset < TWO64
      ensures r == BatchAt(v, offset, maxCount)
    {
      hide Rep, Ready, ReadRun, Flat, Contents, WfSegment, Codec.Lawful;
      RepFacts(e, v);
      if maxCount <= 0 {
        return Ok([]);
      }
      ghost var c := Contents(Flat(v));
      var messages: seq<Message> := [];
      while |messages| < maxCount
        invariant |messages| <= maxCount && Consecutive(c, offset, messages)
        invariant messages != [] ==> Start(v) <= offset
        decreases maxCount - |messages|
      {
        var index := SegmentForOffset(e, v, offset + |messages|);
        if index.Err? {
          return Err;
        }
        var more, gap := ReadWithin(e, v, index.value, offset + |messages|, maxCount - |messages|);
        ConsecutiveConcat(c, offset, messages, more);
        messages := messages + more;
        if gap {
          if |messages| == 0 {
            return Err;
          }
          break;
        }
        if |messages| < maxCount && index.value == |segments| - 1 {
          AbsentOutside(v, offset + |messages|);
          break;
        }
      }
      RunUnique(c, offset, maxCount, messages);
      return Ok(messages);
    }

    /** One less than the end offset; zero when every retained segment owns an empty range. */
    method LatestOffset(ghost e: Encoding, ghost v: LogView) returns (r: nat)
      requires Rep(e, v)
      ensures r == if exists i :: 0 <= i < |v| && v[i].base < v[i].next then End(v) - 1 else 0
    {
      hide PairHolds, Fits, Increasing, Bases;
      for i := |segments| downto 0
        invariant forall j :: i <= j < |v| ==> v[j].base == v[j].next
      {
        var segment := segments[i];
        if segment.nextOffset > segment.baseOffset {
          if i < |v| - 1 {
            assert v[i + 1].base == v[i + 1].next;
            assert v[i].next == v[i + 1].base;
          }
          return segment.nextOffset - 1;
        }
      }
      return 0;
    }

    /** A fresh segment at an unused base offset, set to the log's compression; the other segments stay as they are. */
    method CreateSegment(ghost e: Encoding, ghost v: LogView, baseOffset: nat) returns (segment: Segment)
      requires Rep(e, v) && baseOffset !in Bases(v) && baseOffset < TWO64
      modifies dir
      ensures fresh(segment) && segment.dir == dir && segment.Rep(e, SegView(baseOffset, baseOffset, []))
      ensures segment.Ready(compressed)
      ensures dir.files.Keys == Bases(v) + {baseOffset}
      ensures forall i :: 0 <= i < |v| ==> segments[i].Rep(e, v[i])
    {
      hide PairHolds, Wf, Fits, Bases;
      EmptyPair(e, baseOffset);
      var r := Segment.NewSegment(dir, baseOffset, codec);
      segment := r.value;
      segment.SetCompressed(compressed);
    }

    /** Opens a new active segment when the current one has reached the size limit. */
    method RollIfFull(ghost e: Encoding, ghost v: LogView)
      requires Rep(e, v) && Ready(e)
      modifies this`segments, dir
      ensures Rep(e, Roll(Views.Config(e, maxSegmentSize), v)) && Ready(e)
      ensures forall i :: 0 <= i < |segments| ==> segments[i] in old(segments) || fresh(segments[i])
    {
      hide Wf, Fits, LogBytes, Bases, Segment.Rep, Segment.Ready;
      ghost var cfg := Views.Config(e, maxSegmentSize);
      RepFacts(e, v);
      RepSegment(e, v, |v| - 1);
      RollWf(cfg, v);
      RollFits(cfg, v);
      var active := segments[|segments| - 1];
      if active.size >= maxSegmentSize {
        EndIsNew(v, Roll(cfg, v));
        var nextSegment := CreateSegment(e, v, active.nextOffset);
        segments := segments + [nextSegment];
      }
    }

    /** Appends one record; its offset is the end offset before the call. */
    method Append(ghost e: Encoding, ghost v: LogView, record: Record) returns (r: Result<nat>)
      requires Rep(e, v) && Ready(e) && Fits(e, Appended(Views.Config(e, maxSegmentSize), v, [record]))
      modifies this`segments, dir, segments
      ensures Rep(e, Appended(Views.Config(e, maxSegmentSize), v, [record])) && Ready(e)
      ensures r == if Acceptable(record) then Ok(End(v)) else Err
      ensures forall i :: 0 <= i < |segments| ==> segments[i] in old(segments) || fresh(segments[i])
    {
      hide Wf, Fits, PairHolds, LogBytes, Bases, Extend, Acceptable, Roll;
      RepFacts(e, v);
      RepSegment(e, v, |v| - 1);
      ghost var w := v[|v| - 1 := Extend(Active(v), [record])];
      assert [record][0] == record;
      if Acceptable(record) { WriteFacts(Views.Config(e, maxSegmentSize), v, [record]); }
      var active := segments[|segments| - 1];
      var res := active.Append(e, Active(v), record);
      if res.Err? {
        return Err;
      }
      RollIfFull(e, w);
      return Ok(res.value.0);
    }

    /** Appends a batch without rolling inside it; the offsets are consecutive from the end offset. */
    method AppendBatch(ghost e: Encoding, ghost v: LogView, records: seq<Record>) returns (r: Result<seq<nat>>)
      requires Rep(e, v) && Ready(e) && Fits(e, Appended(Views.Config(e, maxSegmentSize), v, records))
      modifies this`segments, dir, segments
      ensures Rep(e, Appended(Views.Config(e, maxSegmentSize), v, records)) && Ready(e)
      ensures r == if AllAcceptable(records) then Ok(Offsets(End(v), |records|)) else Err
      ensures forall i :: 0 <= i < |segments| ==> segments[i] in old(segments) || fresh(segments[i])
    {
      hide Wf, Fits, PairHolds, LogBytes, Bases, Extend, Roll, TotalSaved;
      RepFacts(e, v);
      if |records| == 0 {
        assert Offsets(End(v), 0) == [];
        return Ok([]);
      }
      RepSegment(e, v, |v| - 1);
      ghost var w := v[|v| - 1 := Extend(Active(v), records)];
      if AllAcceptable(records) { WriteFacts(Views.Config(e, maxSegmentSize), v, records); }
      var active := segments[|segments| - 1];
      var res := active.AppendBatch(e, Active(v), records);
      if res.Err? {
        return Err;
      }
      RollIfFull(e, w);
      return Ok(res.value.0);
    }

    /** Sets the flag that governs both writing and decoding on the log and on every segment. */
    method SetCompressed(ghost e: Encoding, ghost v: LogView, flag: bool)
      requires Rep(e, v)
      modifies this`compressed, segments
      ensures Rep(e, v) && compressed == flag
      ensures forall i :: 0 <= i < |segments| ==> segments[i].compressed == flag && segments[i].open == old(segments[i].open)
    {
      hide Wf, Fits, PairHolds, Bases;
      compressed := flag;
      for i := 0 to |segments|
        invariant Rep(e, v) && compressed == flag
        invariant forall j :: 0 <= j < |segments| ==> segments[j].open == old(segments[j].open)
        invariant forall j :: 0 <= j < i ==> segments[j].compressed == flag
      {
        segments[i].SetCompressed(flag);
      }
    }

    /** Removes the first segment's files; the other segments stay as they are. */
    method DeleteFirst(ghost e: Encoding, ghost v: LogView)
      requires Rep(e, v) && Ready(e) && |v| > 1
      modifies dir, segments[0]
      ensures dir.files.Keys == Bases(v) - {v[0].base}
      ensures forall i :: 0 < i < |v| ==> segments[i].Rep(e, v[i]) && segments[i].Ready(e.compressed)
    {
      hide Wf, Fits, PairHolds, Bases;
      BasesTail(v);
      var segment := segments[0];
      assert forall i :: 0 < i < |segments| ==> segments[i] != segment;
      segment.Delete();
    }

    /** Deletes the first segment. */
    method DropFirst(ghost e: Encoding, ghost v: LogView)
      requires Rep(e, v) && Ready(e) && |v| > 1
      modifies this`segments, dir, segments[0]
      ensures Rep(e, v[1..]) && Ready(e) && segments == old(segments)[1..]
    {
      hide Wf, Fits, Bases, Segment.Rep, Segment.Ready;
      BasesTail(v);
      TailFits(e, v);
      DeleteFirst(e, v);
      segments := segments[1..];
      assert forall i :: 0 <= i < |segments| ==> segments[i] == old(segments)[i + 1] && v[1..][i] == v[i + 1];
    }

    method SumSizes(ghost e: Encoding, ghost v: LogView) returns (totalSize: nat)
      requires Rep(e, v)
      ensures totalSize == TotalSize(e, v)
    {
      hide Wf, Fits, Bases, LogBytes, IndexBytes;
      totalSize := 0;
      for i := 0 to |segments|
        invariant totalSize == TotalSize(e, v[..i])
      {
        assert v[..i + 1] == v[..i] + [v[i]] && [v[i]][1..] == [];
        TotalSizeConcat(e, v[..i], [v[i]]);
        totalSize := totalSize + segments[i].size;
      }
      assert v[..|v|] == v;
    }

    /** The two retention rules, applied to the first segment. */
    method FirstExpired(ghost e: Encoding, ghost v: LogView, totalSize: nat,
                        retentionBytes: int64, retentionMs: int64, now: int) returns (r: Result<bool>)
      requires Rep(e, v) && Ready(e) && |v| > 1 && totalSize == TotalSize(e, v)
      ensures r == Ok(Expired(e, v, retentionBytes, retentionMs, now))
    {
      hide Rep, Ready, Wf, WfSegment, LogBytes, IndexBytes, TotalSize, Segment.Rep, Segment.Ready, Cutoff, Bases;
      SegmentIsOpen(e, v, 0);
      RepSegment(e, v, 0);
      EmptyFiles(e, v[0].msgs);
      var segment := segments[0];
      var removeForBytes := retentionBytes > 0 && totalSize > retentionBytes;
      var removeForTime := false;
      if retentionMs > 0 && segment.size > 0 {
        var newestTimestamp := segment.NewestTimestamp(e, v[0]);
        if newestTimestamp.Err? {
          return Err;
        }
        removeForTime := newestTimestamp.value < Cutoff(retentionMs, now);
      }
      return Ok(removeForBytes || removeForTime);
    }

    /** Drops exactly the shortest prefix of segments after which the first one is not expired. */
    method EnforceRetention(ghost e: Encoding, ghost v: LogView, retentionBytes: int64, retentionMs: int64, now: int)
        returns (r: Result<()>)
      requires Rep(e, v) && Ready(e)
      modifies this`segments, dir, segments
      ensures r.Ok? && Rep(e, Retained(e, v, retentionBytes, retentionMs, now)) && Ready(e)
      ensures exists k :: 0 <= k < |old(segments)| && segments == old(segments)[k..]
    {
      hide Rep, Ready, Expired, RetentionPoint, TotalSize, LogBytes;
      RepFacts(e, v);
      ghost var k := 0;
      assert v[0..] == v && segments[0..] == segments;
      if |segments| <= 1 {
        SingleNotExpired(e, v, retentionBytes, retentionMs, now);
        RetentionPointUnique(e, v, 0, retentionBytes, retentionMs, now);
        return Ok(());
      }
      if retentionBytes <= 0 && retentionMs <= 0 {
        NoRuleNotExpired(e, v, retentionBytes, retentionMs, now);
        RetentionPointUnique(e, v, 0, retentionBytes, retentionMs, now);
        return Ok(());
      }
      var totalSize := SumSizes(e, v);
      while |segments| > 1
        invariant 0 <= k < |v| && segments == old(segments)[k..] && |segments| == |v[k..]|
        invariant Rep(e, v[k..]) && Ready(e)
        invariant totalSize == TotalSize(e, v[k..])
        invariant forall j :: 0 <= j < k ==> Expired(e, v[j..], retentionBytes, retentionMs, now)
        decreases |segments|
      {
        ghost var w := v[k..];
        var expired := FirstExpired(e, w, totalSize, retentionBytes, retentionMs, now);
        if !expired.value {
          RetentionPointUnique(e, v, k, retentionBytes, retentionMs, now);
          return Ok(());
        }
        RepSize(e, w);
        assert w[1..] == v[k + 1..];
        var segmentSize := segments[0].size;
        DropFirst(e, w);
        totalSize := totalSize - segmentSize;
        k := k + 1;
      }
      SingleNotExpired(e, v[k..], retentionBytes, retentionMs, now);
      RetentionPointUnique(e, v, k, retentionBytes, retentionMs, now);
      return Ok(());
    }

    lemma {:induction false} RepSize(e: Encoding, v: LogView)
      requires Rep(e, v) && |v| > 1
      ensures |segments| == |v| && TotalSize(e, v[1..]) == TotalSize(e, v) - segments[0].size
    {
      hide LogBytes, Bases, WfSegment, Tiled;
      TailFits(e, v);
    }

    /** The position of the segment with this base offset, or -1: sort.Search over the base offsets. */
    method SegmentIndex(ghost bases: seq<nat>, baseOffset: nat) returns (k: int)
      requires |bases| == |segments| && StrictlyIncreasing(bases)
      requires forall i :: 0 <= i < |segments| ==> segments[i].baseOffset == bases[i]
      ensures 0 <= k ==> k < |bases| && bases[k] == baseOffset
      ensures k < 0 ==> baseOffset !in bases
    {
      var low, high := 0, |segments|;
      while low < high
        invariant 0 <= low <= high <= |segments|
        invariant forall i :: 0 <= i < low ==> bases[i] < baseOffset
        invariant forall i :: high <= i < |bases| ==> baseOffset <= bases[i]
      {
        var mid := (low + high) / 2;
        if segments[mid].baseOffset < baseOffset {
          low := mid + 1;
        } else {
          high := mid;
        }
      }
      if low < |segments| && segments[low].baseOffset == baseOffset {
        return low;
      }
      return -1;
    }

    /** Scans a segment backwards; a key already found in a later message keeps its later offset. */
    method CollectLatestOffsets(ghost e: Encoding, ghost s: SegView, segment: Segment, latestOffsets: map<bytes, nat>)
        returns (r: Result<map<bytes, nat>>)
      requires segment.Rep(e, s) && WfSegment(s) && segment.Ready(e.compressed) && e.codec.Lawful()
      ensures r == Ok(LatestOnto(s.msgs, latestOffsets))
    {
      hide LatestOnto, Segment.Rep, WfSegment, Codec.Lawful, Segment.Ready, OffsetTable, PositionTable, Lookup;
      SegmentReads(segment, e, s);
      ghost var offsets, positions := OffsetTable(s.msgs), PositionTable(e, s.msgs);
      LatestOntoEmpty(s.msgs, latestOffsets);
      var latest := latestOffsets;
      for i := segment.indexEntries downto 0
        invariant latest == LatestOnto(s.msgs[i..], latestOffsets)
      {
        var entry := segment.ReadEntry(offsets, positions, i);
        if entry.Err? {
          return Err;
        }
        var message := segment.Read(e, s, entry.value.0);
        if message.Err? {
          return Err;
        }
        LatestOntoStep(s.msgs, i, latestOffsets);
        if message.value.key !in latest {
          latest := latest[message.value.key := message.value.offset];
        }
      }
      assert s.msgs[0..] == s.msgs;
      return Ok(latest);
    }

    /** The end of compactSegment: rename the new files into place and open them with the old end. */
    static method Reopen(segment: Segment, files: Files, compressed: bool, nextOffset: nat,
                         ghost e: Encoding, ghost s: SegView) returns (r: Result<Segment>)
      requires segment.baseOffset == s.base && segment.codec == e.codec && nextOffset == s.next < TWO64
      requires files == Files(LogBytes(e, s.msgs), IndexBytes(e, s.msgs)) && |files.log| < TWO63
      modifies segment.dir
      ensures segment.dir.files == old(segment.dir.files)[segment.baseOffset := files]
      ensures r.Ok? && fresh(r.value) && r.value.dir == segment.dir && r.value.Rep(e, s) && r.value.Ready(compressed)
    {
      hide LogBytes, IndexBytes, IndexedEnd;
      PairIsValid(e, s.msgs);
      segment.dir.files := segment.dir.files[segment.baseOffset := files];
      r := Segment.NewSegment(segment.dir, segment.baseOffset, segment.codec);
      if r.Err? {
        return Err;
      }
      r.value.SetCompressed(compressed);
      r.value.nextOffset := nextOffset;
    }

    /**
     Replaces a segment's files by those of its survivors and reopens it with its old end.
     The index is read as it stood before the handles were closed.
     */
    static method RewriteSegment(segment: Segment, latestOffsets: map<bytes, nat>, ghost e: Encoding, ghost s: SegView)
        returns (r: Result<Segment>)
      requires segment.Rep(e, s) && WfSegment(s) && segment.Ready(e.compressed) && e.codec.Lawful()
      modifies segment`open, segment.dir
      ensures segment.baseOffset in segment.dir.files
      ensures segment.dir.files == old(segment.dir.files)[segment.baseOffset := segment.dir.files[segment.baseOffset]]
      ensures r.Ok? && fresh(r.value) && r.value.dir == segment.dir
      ensures r.value.Rep(e, CompactSegmentView(s, latestOffsets)) && r.value.Ready(e.compressed)
    {
      hide LogBytes, IndexBytes, Survivors, Increasing;
      var pair := segment.dir.files[segment.baseOffset];
      SurvivorsSize(e, s.msgs, latestOffsets);
      segment.Close();
      var kept := RewritePair(pair, segment.codec, segment.compressed, latestOffsets, e, s.msgs);
      if kept.Err? {
        return Err;
      }
      r := Reopen(segment, kept.value, segment.compressed, segment.nextOffset, e, CompactSegmentView(s, latestOffsets));
    }

    /** Rewrites sealed segment i; every other segment and its files stay as they are. */
    method RewriteAt(ghost e: Encoding, ghost v: LogView, i: nat, latestOffsets: map<bytes, nat>)
        returns (r: Result<Segment>)
      requires Rep(e, v) && Ready(e) && e.codec.Lawful() && i < |v| - 1
      modifies dir, segments[i]
      ensures r.Ok? && fresh(r.value) && r.value.dir == dir
      ensures r.value.Rep(e, CompactSegmentView(v[i], latestOffsets)) && r.value.Ready(e.compressed)
      ensures forall j :: 0 <= j < |v| && j != i ==> segments[j].Rep(e, v[j]) && segments[j].Ready(e.compressed)
      ensures dir.files.Keys == Bases(v)
    {
      hide Wf, Fits, PairHolds, Bases, WfSegment, Survivors, Codec.Lawful;
      RepSegment(e, v, i);
      BasesDistinct(v, i);
      r := RewriteSegment(segments[i], latestOffsets, e, v[i]);
    }

    /** Compacts sealed segment i; every other segment and its files stay as they are. */
    method CompactSegment(ghost e: Encoding, ghost v: LogView, i: nat, latestOffsets: map<bytes, nat>)
        returns (r: Result<()>)
      requires Rep(e, v) && Ready(e) && e.codec.Lawful() && i < |v| - 1
      modifies this`segments, dir, segments[i]
      ensures r.Ok? && Rep(e, v[i := CompactSegmentView(v[i], latestOffsets)]) && Ready(e)
      ensures forall i :: 0 <= i < |segments| ==> segments[i] in old(segments) || fresh(segments[i])
    {
      hide Wf, Fits, Bases, WfSegment, CompactSegmentView, Codec.Lawful, Segment.Rep, Segment.Ready;
      RepBases(e, v);
      RepSegment(e, v, i);
      CompactOneFacts(e, v, i, latestOffsets);
      var segment := segments[i];
      if segment.nextOffset > segment.baseOffset {
        var rewritten := RewriteAt(e, v, i, latestOffsets);
        if rewritten.Err? {
          return Err;
        }
        var index := SegmentIndex(BaseTable(v), segment.baseOffset);
        assert BaseTable(v)[i] in BaseTable(v);
        if index < 0 {
          return Err;
        }
        segments := segments[index := rewritten.value];
      }
      return Ok(());
    }

    /** The scan of Compact: newest sealed segment first. */
    method CollectAll(ghost e: Encoding, ghost v: LogView) returns (r: Result<map<bytes, nat>>)
      requires Rep(e, v) && Ready(e) && e.codec.Lawful()
      ensures r == Ok(Latest(Flat(Sealed(v))))
    {
      hide Rep, Ready, Flat, LatestOnto, Segment.Rep, Segment.Ready, WfSegment, Codec.Lawful;
      RepFacts(e, v);
      ghost var sealed := Sealed(v);
      var latestOffsets: map<bytes, nat> := map[];
      FlatEnd(sealed);
      for i := |segments| - 1 downto 0
        invariant latestOffsets == Latest(Flat(sealed[i..]))
      {
        RepSegment(e, v, i);
        var collected := CollectLatestOffsets(e, v[i], segments[i], latestOffsets);
        if collected.Err? {
          return Err;
        }
        FlatStep(sealed, i);
        LatestConcat(sealed[i].msgs, Flat(sealed[i + 1..]), map[]);
        latestOffsets := collected.value;
      }
      assert sealed[0..] == sealed;
      return Ok(latestOffsets);
    }

    /** Keeps the active segment and, of every key, the highest sealed message. */
    method Compact(ghost e: Encoding, ghost v: LogView) returns (r: Result<()>)
      requires Rep(e, v) && Ready(e) && e.codec.Lawful()
      modifies this`segments, dir, segments
      ensures r.Ok? && Rep(e, Compacted(v)) && Ready(e)
      ensures forall i :: 0 <= i < |segments| ==> segments[i] in old(segments) || fresh(segments[i])
    {
      hide Rep, Ready, Flat, LatestOnto, CompactSegmentView, Codec.Lawful;
      RepFacts(e, v);
      ghost var latest := Latest(Flat(Sealed(v)));
      assert CompactedUpTo(v, latest, 0) == v && CompactedUpTo(v, latest, |v| - 1) == Compacted(v);
      if |segments| <= 1 {
        return Ok(());
      }
      var collected := CollectAll(e, v);
      if collected.Err? {
        return Err;
      }
      var i := 0;
      while i < |segments| - 1
        invariant 0 <= i <= |v| - 1 && |segments| == |v|
        invariant Rep(e, CompactedUpTo(v, latest, i)) && Ready(e)
        invariant forall i :: 0 <= i < |segments| ==> segments[i] in old(segments) || fresh(segments[i])
      {
        ghost var w := CompactedUpTo(v, latest, i);
        assert w[i := CompactSegmentView(w[i], latest)] == CompactedUpTo(v, latest, i + 1);
        assert segments[i] in segments;
        var done := CompactSegment(e, w, i, collected.value);
        RepFacts(e, CompactedUpTo(v, latest, i + 1));
        if done.Err? {
          return Err;
        }
        i := i + 1;
      }
      return Ok(());
    }

    /**
     compactSegment in the order in which it is written: the handles are closed first, and the
     first index entry is then read through a closed handle.
     */
    method CompactSegmentAsWritten(ghost e: Encoding, ghost v: LogView, i: nat) returns (r: Result<()>)
      requires Rep(e, v) && Ready(e) && i < |v| - 1
      modifies this`segments, dir, segments[i]
      ensures Rep(e, v)
      ensures r.Ok? <==> v[i].msgs == []
      ensures r.Ok? ==> Ready(e)
      ensures r.Err? ==> !segments[i].open && forall j :: 0 <= j < |segments| && j != i ==> segments[j].Ready(e.compressed)
      ensures forall i :: 0 <= i < |segments| ==> segments[i] in old(segments) || fresh(segments[i])
    {
      hide Wf, Fits, Bases, WfSegment, LogBytes, IndexBytes;
      RepSegment(e, v, i);
      BasesDistinct(v, i);
      EmptyFiles(e, []);
      var segment := segments[i];
      if segment.nextOffset > segment.baseOffset {
        var entries := |dir.files[segment.baseOffset].index| / 16;
        segment.Close();
        if entries > 0 {
          var entry := segment.ReadIndexEntry(0);
          if entry.Err? {
            return Err;
          }
        }
        var rewritten := Reopen(segment, Files([], []), segment.compressed, segment.nextOffset, e, v[i]);
        segments := segments[i := rewritten.value];
      }
      return Ok(());
    }

    /** Segment k is closed, it is the first sealed one that holds a message, and all others are usable. */
    ghost predicate StuckAt(e: Encoding, v: LogView, k: nat)
      reads this, segments
    {
      && |segments| == |v| && k < |v| - 1
      && v[k].msgs != [] && !segments[k].open
      && (forall j :: 0 <= j < k ==> v[j].msgs == [])
      && (forall j :: 0 <= j < |segments| && j != k ==> segments[j].Ready(e.compressed))
    }

    /**
     Compact as it is written succeeds exactly when no sealed segment holds a message. Otherwise it
     fails on the first one that does and leaves that segment closed, so none of its offsets can be
     read, while the files still hold all of v.
     */
    method CompactAsWritten(ghost e: Encoding, ghost v: LogView) returns (r: Result<()>)
      requires Rep(e, v) && Ready(e) && e.codec.Lawful()
      modifies this`segments, dir, segments
      ensures Rep(e, v)
      ensures r.Ok? <==> forall i :: 0 <= i < |v| - 1 ==> v[i].msgs == []
      ensures r.Ok? ==> Ready(e)
      ensures r.Err? ==> exists k :: StuckAt(e, v, k)
      ensures forall i :: 0 <= i < |segments| ==> segments[i] in old(segments) || fresh(segments[i])
    {
      hide Rep, Ready, Flat, LatestOnto, Codec.Lawful;
      RepFacts(e, v);
      if |segments| <= 1 {
        return Ok(());
      }
      var collected := CollectAll(e, v);
      if collected.Err? {
        return Err;
      }
      var i := 0;
      while i < |segments| - 1
        invariant 0 <= i <= |v| - 1 && |segments| == |v| && Rep(e, v) && Ready(e)
        invariant forall j :: 0 <= j < i ==> v[j].msgs == []
        invariant forall i :: 0 <= i < |segments| ==> segments[i] in old(segments) || fresh(segments[i])
      {
        assert segments[i] in segments;
        var done := CompactSegmentAsWritten(e, v, i);
        RepFacts(e, v);
        if done.Err? {
          assert StuckAt(e, v, i);
          return Err;
        }
        i := i + 1;
      }
      return Ok(());
    }
  }
}
