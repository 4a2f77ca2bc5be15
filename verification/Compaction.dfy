/**
 Key compaction: the bytes that compactSegment writes, and what Compact keeps of a log
 (internal/log/log.go:321-545).
 */
module Compaction {
  import opened Bytes
  import opened Format
  import opened Views
  import opened SegmentFile

  // ---------- The rewrite of one segment ----------

  lemma {:induction false} SurvivorsSnoc(msgs: seq<Message>, i: nat, latest: map<bytes, nat>)
    requires i < |msgs|
    ensures Survivors(msgs[..i + 1], latest) ==
            if Survives(msgs[i], latest) then Survivors(msgs[..i], latest) + [msgs[i]] else Survivors(msgs[..i], latest)
  {
    assert msgs[..i + 1][..i] == msgs[..i];
  }

  lemma {:induction false} RecordFields(e: Encoding, m: Message)
    requires Storable(m)
    ensures
      var record := MessageBytes(e, m);
      && FromBigEndian(record[16..20]) == |m.key|
      && FromBigEndian(record[20..24]) == |m.value|
      && record[24..] == e.Pack(m.key + m.value)
  {
    hide U64, U32, ToUint64;
    var record := MessageBytes(e, m);
    assert record[16..20] == U32(|m.key|) && record[20..24] == U32(|m.value|);
    FieldRoundTrip(|m.key|);
    FieldRoundTrip(|m.value|);
  }

  /** The key in a record's bytes, as compactSegment extracts it. */
  method KeyOf(record: bytes, codec: Codec, compressed: bool, ghost e: Encoding, ghost m: Message) returns (r: Result<bytes>)
    requires record == MessageBytes(e, m) && Storable(m)
    requires e == Encoding(codec, compressed) && codec.Lawful()
    ensures r == Ok(m.key)
  {
    RecordFields(e, m);
    hide MessageBytes, FromBigEndian;
    var keySize := FromBigEndian(record[16..20]);
    var valueSize := FromBigEndian(record[20..24]);
    var payload := record[24..];
    if compressed {
      var decoded := codec.decode(payload);
      if decoded.Some? {
        payload := decoded.value;
      }
    }
    if |payload| != keySize + valueSize {
      return Err;
    }
    return Ok(payload[..keySize]);
  }

  /** Copies the surviving records, byte for byte and in order, into a new pair of files. */
  method RewritePair(pair: Files, codec: Codec, compressed: bool, latest: map<bytes, nat>,
                     ghost e: Encoding, ghost msgs: seq<Message>) returns (r: Result<Files>)
    requires pair == Files(LogBytes(e, msgs), IndexBytes(e, msgs)) && |pair.log| < TWO63
    requires e == Encoding(codec, compressed) && codec.Lawful()
    requires forall i :: 0 <= i < |msgs| ==> Storable(msgs[i])
    ensures
      var kept := Survivors(msgs, latest);
      r == Ok(Files(LogBytes(e, kept), IndexBytes(e, kept)))
  {
    hide LogBytes, IndexBytes, MessageBytes, Survivors, Position, DecodeEntry, Storable, IndexEntry;
    var entries := |pair.index| / 16;
    var tempLog: bytes, tempIndex: bytes := [], [];
    SurvivorsNone(msgs, latest);
    EmptyFiles(e, []);
    for i := 0 to entries
      invariant tempLog == LogBytes(e, Survivors(msgs[..i], latest))
      invariant tempIndex == IndexBytes(e, Survivors(msgs[..i], latest))
    {
      var m := RecordAt(pair, i, e, msgs);
      if m.Err? {
        return Err;
      }
      var offset, record := m.value.0, m.value.1;
      var key := KeyOf(record, codec, compressed, e, msgs[i]);
      if key.Err? {
        return Err;
      }
      SurvivorsSnoc(msgs, i, latest);
      if key.value !in latest || latest[key.value] != offset {
        continue;
      }
      FilesSnoc(e, Survivors(msgs[..i], latest), msgs[i]);
      tempIndex := tempIndex + IndexEntry(offset, |tempLog|);
      tempLog := tempLog + record;
    }
    assert msgs[..|msgs|] == msgs;
    return Ok(Files(tempLog, tempIndex));
  }

  lemma {:induction false} SurvivorsNone(msgs: seq<Message>, latest: map<bytes, nat>)
    ensures Survivors(msgs[..0], latest) == []
  {
  }

  /** Offset and bytes of record i, found through the index and bounded by the next entry or the file size. */
  method RecordAt(pair: Files, i: nat, ghost e: Encoding, ghost msgs: seq<Message>) returns (r: Result<(nat, bytes)>)
    requires pair == Files(LogBytes(e, msgs), IndexBytes(e, msgs)) && |pair.log| < TWO63
    requires i < |msgs| && forall j :: 0 <= j < |msgs| ==> Storable(msgs[j])
    ensures r == Ok((msgs[i].offset, MessageBytes(e, msgs[i])))
  {
    hide LogBytes, MessageBytes, DecodeEntry, Position;
    EntryAt(e, msgs, i);
    MessageAt(e, msgs, i);
    EndPosition(e, msgs);
    var entries := |pair.index| / 16;
    var entry := DecodeEntry(pair.index, i * 16);
    if entry.Err? {
      return Err;
    }
    var position, endPosition := entry.value.1, |pair.log|;
    if i + 1 < entries {
      EntryAt(e, msgs, i + 1);
      var next := DecodeEntry(pair.index, (i + 1) * 16);
      if next.Err? {
        return Err;
      }
      endPosition := next.value.1;
    }
    if endPosition < position || endPosition - position < 24 {
      return Err;
    }
    var record := ReadAt(pair.log, position, endPosition - position);
    if record.Err? {
      return Err;
    }
    return Ok((entry.value.0, record.value));
  }

  // ---------- What survives ----------

  /** The survivors are exactly the chosen messages, still in order. */
  lemma {:induction false} SurvivorsExactly(msgs: seq<Message>, latest: map<bytes, nat>)
    ensures forall m :: m in Survivors(msgs, latest) <==> m in msgs && Survives(m, latest)
    ensures Increasing(msgs) ==> Increasing(Survivors(msgs, latest))
  {
    if msgs != [] {
      var n := |msgs| - 1;
      SurvivorsExactly(msgs[..n], latest);
      assert msgs == msgs[..n] + [msgs[n]];
      if Increasing(msgs) {
        var init := Survivors(msgs[..n], latest);
        forall i | 0 <= i < |init|
          ensures init[i].offset < msgs[n].offset
        {
          assert init[i] in msgs[..n];
        }
      }
    }
  }

  lemma {:induction false} SurvivorsConcat(a: seq<Message>, b: seq<Message>, latest: map<bytes, nat>)
    ensures Survivors(a + b, latest) == Survivors(a, latest) + Survivors(b, latest)
  {
    if b == [] {
      assert a + b == a;
    } else {
      var n := |b| - 1;
      assert (a + b)[..|a| + n] == a + b[..n];
      SurvivorsConcat(a, b[..n], latest);
    }
  }

  lemma {:induction false} SurvivorsTwice(msgs: seq<Message>, latest: map<bytes, nat>)
    ensures Survivors(Survivors(msgs, latest), latest) == Survivors(msgs, latest)
  {
    if msgs != [] {
      var n := |msgs| - 1;
      var init := Survivors(msgs[..n], latest);
      SurvivorsTwice(msgs[..n], latest);
      if Survives(msgs[n], latest) {
        assert (init + [msgs[n]])[..|init|] == init;
      }
    }
  }

  lemma {:induction false} SurvivorsSize(e: Encoding, msgs: seq<Message>, latest: map<bytes, nat>)
    ensures |LogBytes(e, Survivors(msgs, latest))| <= |LogBytes(e, msgs)|
  {
    hide LogBytes, IndexBytes, MessageBytes;
    if msgs != [] {
      var n := |msgs| - 1;
      SurvivorsSize(e, msgs[..n], latest);
      assert msgs == msgs[..n] + [msgs[n]];
      FilesSnoc(e, msgs[..n], msgs[n]);
      FilesSnoc(e, Survivors(msgs[..n], latest), msgs[n]);
    }
  }

  lemma {:induction false} CompactSegmentWf(s: SegView, latest: map<bytes, nat>)
    requires WfSegment(s)
    ensures WfSegment(CompactSegmentView(s, latest))
  {
    hide Survivors;
    SurvivorsExactly(s.msgs, latest);
    var kept := Survivors(s.msgs, latest);
    forall i | 0 <= i < |kept|
      ensures s.base <= kept[i].offset < s.next && Acceptable(kept[i].Content())
    {
      assert kept[i] in s.msgs;
    }
  }

  /** Compacting one sealed segment keeps the log well formed and no larger. */
  lemma {:induction false} CompactOneWf(e: Encoding, v: LogView, i: nat, latest: map<bytes, nat>)
    requires Wf(v) && i < |v| - 1
    ensures
      var w := v[i := CompactSegmentView(v[i], latest)];
      Wf(w) && End(w) == End(v) && TotalSize(e, w) <= TotalSize(e, v)
  {
    hide WfSegment, LogBytes, Survivors, TotalSize;
    var s := CompactSegmentView(v[i], latest);
    var w := v[i := s];
    CompactSegmentWf(v[i], latest);
    assert forall j :: 0 <= j < |v| ==> w[j].base == v[j].base && w[j].next == v[j].next && (j != i ==> w[j] == v[j]);
    CompactOneSize(e, v, i, latest);
  }

  lemma {:induction false} CompactOneSize(e: Encoding, v: LogView, i: nat, latest: map<bytes, nat>)
    requires i < |v|
    ensures TotalSize(e, v[i := CompactSegmentView(v[i], latest)]) <= TotalSize(e, v)
  {
    hide LogBytes, Survivors, TotalSize;
    var w := v[i := CompactSegmentView(v[i], latest)];
    TotalSizeAt(e, v, i);
    TotalSizeAt(e, w, i);
    assert w[..i] == v[..i] && w[i + 1..] == v[i + 1..];
    SurvivorsSize(e, v[i].msgs, latest);
  }

  lemma {:induction false} TotalSizeAt(e: Encoding, v: LogView, i: nat)
    requires i < |v|
    ensures TotalSize(e, v) == TotalSize(e, v[..i]) + |LogBytes(e, v[i].msgs)| + TotalSize(e, v[i + 1..])
  {
    hide LogBytes;
    assert v == v[..i] + v[i..];
    TotalSizeConcat(e, v[..i], v[i..]);
    assert v[i..][1..] == v[i + 1..];
  }

  // ---------- The latest offset of every key ----------

  lemma {:induction false} LatestConcat(a: seq<Message>, b: seq<Message>, later: map<bytes, nat>)
    ensures LatestOnto(a + b, later) == LatestOnto(a, LatestOnto(b, later))
  {
    if a == [] {
      assert a + b == b;
    } else {
      assert (a + b)[1..] == a[1..] + b;
      LatestConcat(a[1..], b, later);
    }
  }

  /** Some message carries this key at this offset. */
  ghost predicate Carries(msgs: seq<Message>, key: bytes, offset: nat) {
    exists m :: m in msgs && m.key == key && m.offset == offset
  }

  lemma {:induction false} LatestCarried(msgs: seq<Message>)
    ensures forall k :: k in Latest(msgs) ==> Carries(msgs, k, Latest(msgs)[k])
  {
    if msgs != [] {
      hide LatestOnto;
      LatestCarried(msgs[1..]);
      LatestStep(msgs);
      var l := Latest(msgs);
      forall k | k in l
        ensures Carries(msgs, k, l[k])
      {
        if k in Latest(msgs[1..]) {
          var m :| m in msgs[1..] && m.key == k && m.offset == l[k];
          assert m in msgs;
        } else {
          assert msgs[0] in msgs;
        }
      }
    }
  }

  /** Latest maps exactly the keys that occur, each to its highest offset. */
  lemma {:induction false} LatestIsHighest(msgs: seq<Message>)
    requires Increasing(msgs)
    ensures forall m :: m in msgs ==> m.key in Latest(msgs) && m.offset <= Latest(msgs)[m.key]
    ensures forall k :: k in Latest(msgs) ==> Carries(msgs, k, Latest(msgs)[k])
  {
    LatestCarried(msgs);
    if msgs != [] {
      hide LatestOnto, Increasing, Carries;
      FirstIsLowest(msgs);
      LatestIsHighest(msgs[1..]);
      LatestStep(msgs);
      CarriedAbove(msgs);
    }
  }

  lemma {:induction false} CarriedAbove(msgs: seq<Message>)
    requires Increasing(msgs) && msgs != []
    ensures forall k, o :: Carries(msgs[1..], k, o) ==> msgs[0].offset < o
  {
    FirstIsLowest(msgs);
  }

  lemma {:induction false} LatestStep(msgs: seq<Message>)
    requires msgs != []
    ensures
      var h := Latest(msgs[1..]);
      Latest(msgs) == if msgs[0].key in h then h else h[msgs[0].key := msgs[0].offset]
  {
  }

  lemma {:induction false} FirstIsLowest(msgs: seq<Message>)
    requires Increasing(msgs) && msgs != []
    ensures Increasing(msgs[1..]) && forall m :: m in msgs[1..] ==> msgs[0].offset < m.offset
    ensures forall m :: m in msgs <==> m == msgs[0] || m in msgs[1..]
  {
    assert msgs == [msgs[0]] + msgs[1..];
  }

  /** A map with those two properties is Latest. */
  lemma {:induction false} LatestUnique(msgs: seq<Message>, l: map<bytes, nat>)
    requires Increasing(msgs)
    requires forall m :: m in msgs ==> m.key in l && m.offset <= l[m.key]
    requires forall k :: k in l ==> Carries(msgs, k, l[k])
    ensures l == Latest(msgs)
  {
    hide LatestOnto;
    LatestIsHighest(msgs);
    var h := Latest(msgs);
    forall k
      ensures k in l <==> k in h
      ensures k in l ==> l[k] == h[k]
    {
      if k in l { var m :| m in msgs && m.key == k && m.offset == l[k]; }
      if k in h { var m :| m in msgs && m.key == k && m.offset == h[k]; }
    }
  }

  /** Compacted messages have the same latest offsets. */
  lemma {:induction false} LatestOfSurvivors(msgs: seq<Message>)
    requires Increasing(msgs)
    ensures Latest(Survivors(msgs, Latest(msgs))) == Latest(msgs)
  {
    hide LatestOnto, Survivors;
    var l := Latest(msgs);
    var kept := Survivors(msgs, l);
    LatestIsHighest(msgs);
    SurvivorsExactly(msgs, l);
    forall k | k in l
      ensures Carries(kept, k, l[k])
    {
      var m :| m in msgs && m.key == k && m.offset == l[k];
      assert m in kept;
    }
    LatestUnique(kept, l);
  }

  // ---------- What Compact does to a whole log ----------

  function CompactAll(segs: LogView, latest: map<bytes, nat>): LogView {
    seq(|segs|, i requires 0 <= i < |segs| => CompactSegmentView(segs[i], latest))
  }

  lemma {:induction false} FlatCompactAll(segs: LogView, latest: map<bytes, nat>)
    ensures Flat(CompactAll(segs, latest)) == Survivors(Flat(segs), latest)
  {
    if segs != [] {
      FlatCompactAll(segs[1..], latest);
      assert CompactAll(segs, latest)[1..] == CompactAll(segs[1..], latest);
      SurvivorsConcat(segs[0].msgs, Flat(segs[1..]), latest);
    }
  }

  lemma {:induction false} CompactedShape(v: LogView)
    requires |v| > 0
    ensures Sealed(Compacted(v)) == CompactAll(Sealed(v), Latest(Flat(Sealed(v))))
    ensures Active(Compacted(v)) == Active(v)
    ensures Flat(Compacted(v)) == Survivors(Flat(Sealed(v)), Latest(Flat(Sealed(v)))) + Active(v).msgs
  {
    hide Flat, Latest, Survivors;
    var latest := Latest(Flat(Sealed(v)));
    assert Sealed(Compacted(v)) == CompactAll(Sealed(v), latest);
    FlatSplit(Compacted(v));
    FlatCompactAll(Sealed(v), latest);
  }

  lemma {:induction false} CompactedWf(v: LogView)
    requires Wf(v)
    ensures Wf(Compacted(v)) && End(Compacted(v)) == End(v) && Start(Compacted(v)) == Start(v)
  {
    hide WfSegment, Latest, Flat, Survivors;
    forall i | 0 <= i < |v|
      ensures WfSegment(Compacted(v)[i])
    {
      CompactSegmentWf(v[i], Latest(Flat(Sealed(v))));
    }
  }

  lemma {:induction false} SealedOrdered(v: LogView)
    requires Wf(v)
    ensures Increasing(Flat(Sealed(v)))
  {
    if |v| > 1 {
      FlatOrdered(Sealed(v));
    }
  }

  /** No sealed message carries this message's key at a higher offset. */
  ghost predicate HighestSealed(v: LogView, m: Message)
    requires |v| > 0
  {
    forall other :: other in Flat(Sealed(v)) && other.key == m.key ==> other.offset <= m.offset
  }

  /** The last message that carries a key. */
  function LastMessage(msgs: seq<Message>, key: bytes): Option<Message> {
    if msgs == [] then None
    else if msgs[|msgs| - 1].key == key then Some(msgs[|msgs| - 1])
    else LastMessage(msgs[..|msgs| - 1], key)
  }

  lemma {:induction false} LastMessageConcat(a: seq<Message>, b: seq<Message>, key: bytes)
    ensures LastMessage(a + b, key) == if LastMessage(b, key).Some? then LastMessage(b, key) else LastMessage(a, key)
  {
    if b == [] {
      assert a + b == a;
    } else {
      var n := |b| - 1;
      assert (a + b)[..|a| + n] == a + b[..n];
      LastMessageConcat(a, b[..n], key);
    }
  }

  lemma {:induction false} LastMessageIsHighest(msgs: seq<Message>, key: bytes)
    requires Increasing(msgs)
    ensures LastMessage(msgs, key).None? ==> forall m :: m in msgs ==> m.key != key
    ensures LastMessage(msgs, key).Some? ==>
      var last := LastMessage(msgs, key).value;
      last in msgs && last.key == key && forall m :: m in msgs && m.key == key ==> m.offset < last.offset || m == last
  {
    if msgs != [] {
      var n := |msgs| - 1;
      LastMessageIsHighest(msgs[..n], key);
      assert msgs == msgs[..n] + [msgs[n]];
      forall m | m in msgs
        ensures m == msgs[n] || m in msgs[..n]
        ensures m == msgs[n] || m.offset < msgs[n].offset
      {
      }
    }
  }

  lemma {:induction false} LastMessageSurvives(msgs: seq<Message>, key: bytes)
    requires Increasing(msgs)
    ensures LastMessage(Survivors(msgs, Latest(msgs)), key) == LastMessage(msgs, key)
  {
    hide LatestOnto, Survivors, LastMessage, Increasing;
    var l := Latest(msgs);
    var kept := Survivors(msgs, l);
    LatestIsHighest(msgs);
    SurvivorsExactly(msgs, l);
    LastMessageIsHighest(msgs, key);
    LastMessageIsHighest(kept, key);
    if LastMessage(msgs, key).Some? {
      var last := LastMessage(msgs, key).value;
      var m :| m in msgs && m.key == key && m.offset == l[key];
      assert Survives(last, l);
      assert last in kept;
    }
  }

  /** A sealed message survives exactly when no sealed message has its key at a higher offset. */
  lemma {:induction false} SurvivesIffHighest(v: LogView, m: Message)
    requires Wf(v) && m in Flat(Sealed(v))
    ensures Survives(m, Latest(Flat(Sealed(v)))) <==> HighestSealed(v, m)
  {
    hide LatestOnto, Flat, WfSegment, Tiled;
    SealedOrdered(v);
    var sealed := Flat(Sealed(v));
    LatestIsHighest(sealed);
    var l := Latest(sealed);
    var top :| top in sealed && top.key == m.key && top.offset == l[m.key];
  }

  /** Exactly the active messages and the highest sealed message of every key stay, verbatim and in order. */
  lemma {:induction false} CompactedExactly(v: LogView, m: Message)
    requires Wf(v)
    ensures Increasing(Flat(Compacted(v)))
    ensures m in Flat(Compacted(v)) <==> m in Active(v).msgs || (m in Flat(Sealed(v)) && HighestSealed(v, m))
  {
    hide LatestOnto, Flat, Survivors, HighestSealed, Survives, Compacted;
    CompactedWf(v);
    CompactedShape(v);
    FlatOrdered(Compacted(v));
    var l := Latest(Flat(Sealed(v)));
    SurvivorsExactly(Flat(Sealed(v)), l);
    if m in Flat(Sealed(v)) {
      SurvivesIffHighest(v, m);
    }
  }

  /** The last message of every key, over the whole log, is the same before and after. */
  lemma {:induction false} CompactedKeepsLast(v: LogView, key: bytes)
    requires Wf(v)
    ensures LastMessage(Flat(Compacted(v)), key) == LastMessage(Flat(v), key)
  {
    hide LatestOnto, Flat, Survivors, Compacted, LastMessage;
    var sealed := Flat(Sealed(v));
    SealedOrdered(v);
    CompactedShape(v);
    FlatSplit(v);
    LastMessageConcat(sealed, Active(v).msgs, key);
    LastMessageConcat(Survivors(sealed, Latest(sealed)), Active(v).msgs, key);
    LastMessageSurvives(sealed, key);
  }

  /** A second Compact changes nothing. */
  lemma {:induction false} CompactedTwice(v: LogView)
    requires Wf(v)
    ensures Compacted(Compacted(v)) == Compacted(v)
  {
    hide LatestOnto, Flat, Survivors;
    var w := Compacted(v);
    var sealed := Flat(Sealed(v));
    var l := Latest(sealed);
    SealedOrdered(v);
    CompactedShape(v);
    FlatCompactAll(Sealed(v), l);
    LatestOfSurvivors(sealed);
    forall i | 0 <= i < |v|
      ensures Compacted(w)[i] == w[i]
    {
      SurvivorsTwice(v[i].msgs, l);
    }
  }
}
