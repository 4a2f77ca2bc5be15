/**
 The fast forms of the storage engine and the simple forms they stand for: batch and single
 appends, the direct index path and the index search.
 */
module Equivalences {
  import opened Format
  import opened Views
  import opened SegmentFile

  // ---------- Batch and single appends ----------

  /** Segment.Append, folded over the records. */
  function ExtendEach(s: SegView, rs: seq<Record>): SegView {
    if rs == [] then s else Extend(ExtendEach(s, rs[..|rs| - 1]), [rs[|rs| - 1]])
  }

  function SavedEach(e: Encoding, rs: seq<Record>): nat {
    if rs == [] then 0 else SavedEach(e, rs[..|rs| - 1]) + SavedBytes(e, rs[|rs| - 1])
  }

  /**
   A segment batch leaves the same segment as single appends, hence the same log bytes, index
   bytes, size, entry count and end, and it saves the same number of bytes.
   */
  lemma {:induction false} BatchIsEach(e: Encoding, s: SegView, rs: seq<Record>)
    ensures Extend(s, rs) == ExtendEach(s, rs)
    ensures TotalSaved(e, rs) == SavedEach(e, rs)
  {
    if rs == [] {
      assert s.msgs + Stamped(s.next, rs) == s.msgs;
    } else {
      hide Extend, TotalSaved, SavedBytes;
      BatchIsEach(e, s, rs[..|rs| - 1]);
      ExtendSnoc(s, rs);
      SavedSnoc(e, rs);
    }
  }

  lemma {:induction false} ExtendSnoc(s: SegView, rs: seq<Record>)
    requires rs != []
    ensures Extend(s, rs) == Extend(Extend(s, rs[..|rs| - 1]), [rs[|rs| - 1]])
  {
    assert Extend(s, rs).msgs == Extend(Extend(s, rs[..|rs| - 1]), [rs[|rs| - 1]]).msgs;
  }

  lemma {:induction false} SavedSnoc(e: Encoding, rs: seq<Record>)
    requires rs != []
    ensures TotalSaved(e, rs) == TotalSaved(e, rs[..|rs| - 1]) + SavedBytes(e, rs[|rs| - 1])
  {
    hide SavedBytes;
    assert PreparedBatch(e, rs)[..|rs| - 1] == PreparedBatch(e, rs[..|rs| - 1]);
  }

  /** The larger of the plain and the packed size of each record, with its header. */
  function LargerSize(e: Encoding, rs: seq<Record>): nat {
    if rs == [] then 0 else
      var r := rs[|rs| - 1];
      var plain, packed := |r.key| + |r.value|, |if e.compressed then e.codec.encode(r.key + r.value) else r.key + r.value|;
      LargerSize(e, rs[..|rs| - 1]) + 24 + (if packed < plain then plain else packed)
  }

  /** The bytes written and the bytes saved add up: nothing is counted as saved that would not have been written. */
  lemma {:induction false} SavedIsNotWritten(e: Encoding, s: SegView, rs: seq<Record>)
    ensures |LogBytes(e, Extend(s, rs).msgs)| + TotalSaved(e, rs) == |LogBytes(e, s.msgs)| + LargerSize(e, rs)
  {
    if rs == [] {
      assert s.msgs + Stamped(s.next, rs) == s.msgs;
    } else {
      hide LogBytes, Extend, TotalSaved, SavedBytes, MessageBytes;
      var init, r := rs[..|rs| - 1], rs[|rs| - 1];
      var t := Extend(s, init);
      SavedIsNotWritten(e, s, init);
      ExtendSnoc(s, rs);
      SavedSnoc(e, rs);
      ExtendLast(t, r);
      LogSnoc(e, t.msgs, Stamp(t.next, r));
      ImageAndSaved(e, t.next, r);
    }
  }

  lemma {:induction false} ExtendLast(s: SegView, r: Record)
    ensures Extend(s, [r]).msgs == s.msgs + [Stamp(s.next, r)]
  {
  }

  lemma {:induction false} ImageAndSaved(e: Encoding, offset: nat, r: Record)
    ensures
      var plain, packed := |r.key| + |r.value|, |if e.compressed then e.codec.encode(r.key + r.value) else r.key + r.value|;
      |MessageBytes(e, Stamp(offset, r))| + SavedBytes(e, r) == 24 + (if packed < plain then plain else packed)
  {
  }

  /** Log.Append, folded over the records. */
  function AppendEach(cfg: Config, v: LogView, rs: seq<Record>): (w: LogView)
    requires |v| > 0
    ensures |w| > 0
  {
    if rs == [] then v else Appended(cfg, AppendEach(cfg, v, rs[..|rs| - 1]), [rs[|rs| - 1]])
  }

  /** However the single appends roll, a log batch gives the same messages, end offset and assigned offsets. */
  lemma {:induction false} LogBatchIsEach(cfg: Config, v: LogView, rs: seq<Record>)
    requires Wf(v) && cfg.maxSegmentSize > 0 && AllAcceptable(rs)
    ensures Wf(AppendEach(cfg, v, rs)) && Wf(Appended(cfg, v, rs))
    ensures Flat(AppendEach(cfg, v, rs)) == Flat(Appended(cfg, v, rs))
    ensures End(AppendEach(cfg, v, rs)) == End(Appended(cfg, v, rs)) == End(v) + |rs|
    ensures forall i :: 0 <= i < |rs| ==> End(AppendEach(cfg, v, rs[..i])) == Offsets(End(v), |rs|)[i]
  {
    hide WfSegment, Tiled, Flat, Appended;
    AppendedWf(cfg, v, rs);
    FlatEach(cfg, v, rs);
    forall i | 0 <= i < |rs|
      ensures End(AppendEach(cfg, v, rs[..i])) == End(v) + i
    {
      FlatEach(cfg, v, rs[..i]);
    }
  }

  lemma {:induction false} FlatEach(cfg: Config, v: LogView, rs: seq<Record>)
    requires |v| > 0 && Wf(v) && cfg.maxSegmentSize > 0 && AllAcceptable(rs)
    ensures Wf(AppendEach(cfg, v, rs)) && End(AppendEach(cfg, v, rs)) == End(v) + |rs|
    ensures Flat(AppendEach(cfg, v, rs)) == Flat(v) + Stamped(End(v), rs)
  {
    hide Wf, Flat, Appended;
    if rs == [] {
      assert Flat(v) + Stamped(End(v), rs) == Flat(v);
    } else {
      var n := |rs| - 1;
      FlatEach(cfg, v, rs[..n]);
      assert [rs[n]][0] == rs[n];
      AppendedWf(cfg, AppendEach(cfg, v, rs[..n]), [rs[n]]);
      assert Stamped(End(v), rs) == Stamped(End(v), rs[..n]) + Stamped(End(v) + n, [rs[n]]);
    }
  }

  // ---------- Index lookups ----------

  /** The direct index path finds an offset exactly when nothing up to that offset was compacted away. */
  lemma {:induction false} DirectHitIff(s: SegView, offset: nat)
    requires WfSegment(s) && s.base <= offset
    ensures (offset - s.base < |s.msgs| && s.msgs[offset - s.base].offset == offset)
            <==> forall o :: s.base <= o <= offset ==> o in OffsetTable(s.msgs)
  {
    var d := offset - s.base;
    if d < |s.msgs| && s.msgs[d].offset == offset {
      forall o | s.base <= o <= offset
        ensures o in OffsetTable(s.msgs)
      {
        DenseBelow(s, d, o - s.base);
        assert OffsetTable(s.msgs)[o - s.base] == o;
      }
    }
    if forall o :: s.base <= o <= offset ==> o in OffsetTable(s.msgs) {
      PresentIsDirect(s, offset);
    }
  }

  lemma {:induction false} DenseBelow(s: SegView, d: nat, j: nat)
    requires WfSegment(s) && j <= d < |s.msgs| && s.msgs[d].offset == s.base + d
    ensures s.msgs[j].offset == s.base + j
    decreases d - j
  {
    hide Acceptable;
    OffsetsAtLeast(s, j);
    if j < d {
      DenseBelow(s, d, j + 1);
    }
  }

  lemma {:induction false} PresentIsDirect(s: SegView, offset: nat)
    requires WfSegment(s) && s.base <= offset
    requires forall o :: s.base <= o <= offset ==> o in OffsetTable(s.msgs)
    ensures offset - s.base < |s.msgs| && s.msgs[offset - s.base].offset == offset
    decreases offset
  {
    hide Acceptable;
    assert offset in OffsetTable(s.msgs);
    var i :| 0 <= i < |s.msgs| && OffsetTable(s.msgs)[i] == offset;
    OffsetsAtLeast(s, i);
    if offset > s.base {
      PresentIsDirect(s, offset - 1);
      assert s.msgs[offset - 1 - s.base].offset < s.msgs[i].offset;
    }
  }

  /** findEndPosition gives, for the start that findMessageBounds returns, the end that it returns. */
  lemma {:induction false} EndPositionAgrees(offsets: seq<nat>, positions: seq<nat>, offset: nat)
    requires |positions| == |offsets| + 1 && StrictlyIncreasing(positions)
    requires Bounds(positions, Scan(offsets, offset)).Ok?
    ensures
      var (start, end) := Bounds(positions, Scan(offsets, offset)).value;
      var at := Scan(positions[..|offsets|], start);
      at.Some? && positions[at.value + 1] == end
  {
    ScanFinds(positions[..|offsets|], Scan(offsets, offset).value);
  }
}
