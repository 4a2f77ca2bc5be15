/**
 One .log/.index file pair and the counters kept in memory for it (internal/log/segment.go).
 The class works on bytes; its methods are proved against SegView.
 */
module SegmentFile {
  import opened Bytes
  import opened Format
  import opened Views

  datatype Files = Files(log: bytes, index: bytes)

  /** A partition directory: the file pair stored under each base offset. */
  class Directory {
    var files: map<nat, Files>

    constructor ()
      ensures files == map[]
    {
      files := map[];
    }
  }

  /** The pairs that NewSegment accepts. */
  predicate ValidPair(f: Files) {
    |f.index| % 16 == 0 && (f.log == [] <==> f.index == [])
  }

  /** The next offset that NewSegment derives from the index alone. */
  function IndexedEnd(base: nat, index: bytes): nat {
    if |index| < 16 then base else (DecodeEntry(index, |index| - 16).value.0 + 1) % 0x1_0000_0000_0000_0000
  }

  predicate StrictlyIncreasing(xs: seq<nat>) {
    forall i, j :: 0 <= i < j < |xs| ==> xs[i] < xs[j]
  }

  /** The index searched one entry at a time. */
  function Scan(xs: seq<nat>, x: nat): (r: Option<nat>)
    ensures r.Some? ==> r.value < |xs| && xs[r.value] == x
    ensures r.None? ==> forall i :: 0 <= i < |xs| ==> xs[i] != x
  {
    if xs == [] then None
    else if xs[|xs| - 1] == x then Some(|xs| - 1)
    else Scan(xs[..|xs| - 1], x)
  }

  lemma {:induction false} ScanFinds(xs: seq<nat>, i: nat)
    requires StrictlyIncreasing(xs) && i < |xs|
    ensures Scan(xs, xs[i]) == Some(i)
  {
    var j := Scan(xs, xs[i]).value;
    assert xs[j] == xs[i];
  }

  /** Where the message found by a scan begins and where the next one begins. */
  function Bounds(positions: seq<nat>, at: Option<nat>): Result<(nat, nat)>
    requires at.Some? ==> at.value + 1 < |positions|
  {
    if at.None? then Err else Ok((positions[at.value], positions[at.value + 1]))
  }

  function OffsetTable(msgs: seq<Message>): seq<nat> {
    seq(|msgs|, i requires 0 <= i < |msgs| => msgs[i].offset)
  }

  /** Every message's position, and the end of the file. */
  function PositionTable(e: Encoding, msgs: seq<Message>): seq<nat> {
    seq(|msgs| + 1, i requires 0 <= i <= |msgs| => Position(e, msgs, i))
  }

  function Lookup(msgs: seq<Message>, offset: nat): Result<Message> {
    if offset in Contents(msgs) then Ok(Contents(msgs)[offset]) else Err
  }

  /** Bytes that compression saves on one record, never counted below zero. */
  function SavedBytes(e: Encoding, r: Record): nat {
    var plain := |r.key + r.value|;
    var packed := |e.Pack(r.key + r.value)|;
    if packed < plain then plain - packed else 0
  }

  function Offsets(from: nat, n: nat): seq<nat> {
    seq(n, i => from + i)
  }

  /** A record of a batch, packed before any buffer is allocated. */
  datatype PreparedPayload = PreparedPayload(payload: bytes, keyLen: nat, valLen: nat, timestamp: int64, bytesSaved: nat)

  function Prepare(e: Encoding, r: Record): PreparedPayload {
    PreparedPayload(e.Pack(r.key + r.value), |r.key|, |r.value|, r.timestamp, SavedBytes(e, r))
  }

  /** Header and payload of a prepared record. */
  function Image(offset: nat, p: PreparedPayload): bytes {
    U64(offset) + U64(ToUint64(p.timestamp)) + U32(p.keyLen) + U32(p.valLen) + p.payload
  }

  function ImageTotal(prepared: seq<PreparedPayload>): nat {
    if prepared == [] then 0 else ImageTotal(prepared[..|prepared| - 1]) + 24 + |prepared[|prepared| - 1].payload|
  }

  function SumSaved(prepared: seq<PreparedPayload>): nat {
    if prepared == [] then 0 else SumSaved(prepared[..|prepared| - 1]) + prepared[|prepared| - 1].bytesSaved
  }

  function PreparedBatch(e: Encoding, rs: seq<Record>): seq<PreparedPayload> {
    seq(|rs|, i requires 0 <= i < |rs| => Prepare(e, rs[i]))
  }

  lemma {:induction false} PreparedNone(e: Encoding, rs: seq<Record>)
    ensures PreparedBatch(e, rs[..0]) == [] && SumSaved([]) == 0 && ImageTotal([]) == 0
  {
  }

  lemma {:induction false} PreparedSnoc(e: Encoding, rs: seq<Record>, i: nat)
    requires i < |rs|
    ensures PreparedBatch(e, rs[..i + 1]) == PreparedBatch(e, rs[..i]) + [Prepare(e, rs[i])]
  {
    hide Prepare;
  }

  /** Bytes that compression saves on a batch. */
  function TotalSaved(e: Encoding, rs: seq<Record>): nat { SumSaved(PreparedBatch(e, rs)) }

  function BatchImages(offset: nat, prepared: seq<PreparedPayload>): seq<bytes> {
    seq(|prepared|, i requires 0 <= i < |prepared| => Image(offset + i, prepared[i]))
  }

  /** Index entries for images written from position `start` on. */
  function BatchEntries(offset: nat, start: nat, images: seq<bytes>): seq<bytes> {
    seq(|images|, i requires 0 <= i < |images| => IndexEntry(offset + i, start + |Join(images[..i])|))
  }

  lemma {:induction false} ImageTotalIsJoin(offset: nat, prepared: seq<PreparedPayload>)
    ensures ImageTotal(prepared) == |Join(BatchImages(offset, prepared))|
  {
    if prepared != [] {
      var n := |prepared| - 1;
      hide Image;
      ImageTotalIsJoin(offset, prepared[..n]);
      assert BatchImages(offset, prepared)[..n] == BatchImages(offset, prepared[..n]);
      ImageLength(offset + n, prepared[n]);
    }
  }

  lemma {:induction false} SumsSnoc(prepared: seq<PreparedPayload>, p: PreparedPayload)
    ensures ImageTotal(prepared + [p]) == ImageTotal(prepared) + 24 + |p.payload|
    ensures SumSaved(prepared + [p]) == SumSaved(prepared) + p.bytesSaved
  {
    assert (prepared + [p])[..|prepared|] == prepared;
  }

  lemma {:induction false} ImageLength(offset: nat, p: PreparedPayload)
    ensures |Image(offset, p)| == 24 + |p.payload|
  {
  }

  /** A prepared batch is the messages it stands for, byte for byte. */
  lemma {:induction false} BatchIsMessages(e: Encoding, s: SegView, rs: seq<Record>)
    ensures
      var images := BatchImages(s.next, PreparedBatch(e, rs));
      && LogBytes(e, Extend(s, rs).msgs) == LogBytes(e, s.msgs) + Join(images)
      && IndexBytes(e, Extend(s, rs).msgs) == IndexBytes(e, s.msgs) + Join(BatchEntries(s.next, |LogBytes(e, s.msgs)|, images))
  {
    hide MessageBytes, Image, Images, IndexEntry, Join, Prepare, BatchImages;
    var msgs := Stamped(s.next, rs);
    ImagesOfBatch(e, s.next, rs);
    FilesConcat(e, s.msgs, msgs);
    EntriesOfBatch(e, s.next, |LogBytes(e, s.msgs)|, rs);
  }

  lemma {:induction false} EntriesOfBatch(e: Encoding, offset: nat, start: nat, rs: seq<Record>)
    ensures
      var msgs := Stamped(offset, rs);
      BatchEntries(offset, start, Images(e, msgs)) == EntriesFrom(e, start, msgs)
  {
    hide MessageBytes, IndexEntry, Join;
  }

  lemma {:induction false} ImagesOfBatch(e: Encoding, offset: nat, rs: seq<Record>)
    ensures BatchImages(offset, PreparedBatch(e, rs)) == Images(e, Stamped(offset, rs))
  {
    hide U64, U32, ToUint64;
    var prepared := PreparedBatch(e, rs);
    var images := Images(e, Stamped(offset, rs));
    forall i | 0 <= i < |rs|
      ensures BatchImages(offset, prepared)[i] == images[i]
    {
      assert Image(offset + i, prepared[i]) == MessageBytes(e, Stamp(offset + i, rs[i]));
    }
  }

  method PutImage(buf: array<byte>, at: nat, offset: nat, p: PreparedPayload)
    requires at + |Image(offset, p)| <= buf.Length
    modifies buf
    ensures buf[..at + |Image(offset, p)|] == old(buf[..at]) + Image(offset, p)
  {
    hide U64, U32, ToUint64;
    CopyInto(buf, at, U64(offset));
    CopyInto(buf, at + 8, U64(ToUint64(p.timestamp)));
    CopyInto(buf, at + 16, U32(p.keyLen));
    CopyInto(buf, at + 20, U32(p.valLen));
    CopyInto(buf, at + 24, p.payload);
  }

  /** Extending a segment by one record adds one message image and one index entry. */
  lemma {:induction false} ExtendOne(e: Encoding, s: SegView, r: Record)
    ensures
      var msgs := Extend(s, [r]).msgs;
      && LogBytes(e, msgs) == LogBytes(e, s.msgs)
           + (U64(s.next) + U64(ToUint64(r.timestamp)) + U32(|r.key|) + U32(|r.value|) + e.Pack(r.key + r.value))
      && IndexBytes(e, msgs) == IndexBytes(e, s.msgs) + IndexEntry(s.next, |LogBytes(e, s.msgs)|)
      && |msgs| == |s.msgs| + 1
    ensures Extend(s, [r]).base == s.base && Extend(s, [r]).next == s.next + 1
  {
    hide U64, U32, ToUint64, IndexEntry, LogBytes, IndexBytes;
    assert Extend(s, [r]).msgs == s.msgs + [Stamp(s.next, r)];
    FilesSnoc(e, s.msgs, Stamp(s.next, r));
  }

  /** A file pair and the counters cached for it represent s. */
  ghost predicate PairHolds(e: Encoding, s: SegView, pair: Files, size: nat, indexEntries: nat) {
    && pair == Files(LogBytes(e, s.msgs), IndexBytes(e, s.msgs))
    && size == |LogBytes(e, s.msgs)| && size < TWO63
    && indexEntries == |s.msgs|
    && s.next < TWO64
  }

  lemma {:induction false} EmptyPair(e: Encoding, base: nat)
    requires base < TWO64
    ensures PairHolds(e, SegView(base, base, []), Files([], []), 0, 0)
  {
    EmptyFiles(e, []);
  }

  /** What NewSegment derives from the files of a segment without gaps is the segment's own end. */
  lemma {:induction false} IndexedEndIsNext(e: Encoding, s: SegView)
    requires WfSegment(s) && |s.msgs| == s.next - s.base && s.next < TWO64 && |LogBytes(e, s.msgs)| < TWO63
    ensures IndexedEnd(s.base, IndexBytes(e, s.msgs)) == s.next
  {
    hide LogBytes, IndexBytes, DecodeEntry, Increasing;
    var n := |s.msgs|;
    if n > 0 {
      DenseOffsets(s, n - 1);
      EntryAt(e, s.msgs, n - 1);
    }
  }

  lemma {:induction false} PairIsValid(e: Encoding, msgs: seq<Message>)
    ensures ValidPair(Files(LogBytes(e, msgs), IndexBytes(e, msgs)))
  {
    hide LogBytes, IndexBytes;
    EmptyFiles(e, msgs);
  }

  class Segment {
    const dir: Directory
    const baseOffset: nat
    const codec: Codec
    var nextOffset: nat
    var size: nat
    var indexEntries: nat
    var compressed: bool
    /** Whether the four file handles are non-nil. */
    var open: bool

    constructor Attach(dir: Directory, baseOffset: nat, codec: Codec, nextOffset: nat, size: nat, indexEntries: nat)
      ensures this.dir == dir && this.baseOffset == baseOffset && this.codec == codec
      ensures this.nextOffset == nextOffset && this.size == size && this.indexEntries == indexEntries
      ensures !compressed && open
    {
      this.dir, this.baseOffset, this.codec := dir, baseOffset, codec;
      this.nextOffset, this.size, this.indexEntries := nextOffset, size, indexEntries;
      compressed, open := false, true;
    }

    /** The files and the cached counters are those of s, written in encoding e. */
    ghost predicate Holds(e: Encoding, s: SegView)
      reads this, dir
    {
      && baseOffset == s.base && baseOffset in dir.files
      && codec == e.codec
      && PairHolds(e, s, dir.files[baseOffset], size, indexEntries)
    }

    ghost predicate Rep(e: Encoding, s: SegView)
      reads this, dir
    {
      Holds(e, s) && nextOffset == s.next
    }

    /** The handles are open and the segment decodes what it wrote. */
    predicate Ready(flag: bool)
      reads this
    {
      open && compressed == flag
    }

    /** Creates or opens a segment; any pair of files is accepted or refused, never assumed. */
    static method NewSegment(dir: Directory, baseOffset: nat, codec: Codec) returns (r: Result<Segment>)
      modifies dir
      ensures dir.files == if baseOffset in old(dir.files) then old(dir.files) else old(dir.files)[baseOffset := Files([], [])]
      ensures r.Ok? <==> ValidPair(dir.files[baseOffset])
      ensures r.Err? <==>
        var pair := dir.files[baseOffset];
        |pair.index| % 16 != 0 || (|pair.log| > 0 && |pair.index| == 0) || (|pair.log| == 0 && |pair.index| > 0)
      ensures r.Ok? ==> (r.value.size == 0 <==> r.value.indexEntries == 0)
      ensures r.Ok? ==>
        && fresh(r.value) && r.value.dir == dir && r.value.baseOffset == baseOffset && r.value.codec == codec
        && r.value.nextOffset == IndexedEnd(baseOffset, dir.files[baseOffset].index)
        && r.value.size == |dir.files[baseOffset].log|
        && r.value.indexEntries == |dir.files[baseOffset].index| / 16
        && r.value.Ready(false)
    {
      if baseOffset !in dir.files {
        dir.files := dir.files[baseOffset := Files([], [])];
      }
      var pair := dir.files[baseOffset];
      if |pair.index| % 16 != 0 {
        return Err;
      }
      var numEntries := |pair.index| / 16;
      var segment := new Segment.Attach(dir, baseOffset, codec, baseOffset, |pair.log|, numEntries);
      if numEntries > 0 {
        var last := segment.ReadIndexEntry((numEntries - 1) * 16);
        if last.Err? {
          return Err;
        }
        segment.nextOffset := (last.value.0 + 1) % 0x1_0000_0000_0000_0000;
      }
      if |pair.log| == 0 && |pair.index| != 0 {
        return Err;
      }
      if |pair.log| != 0 && |pair.index| == 0 {
        return Err;
      }
      return Ok(segment);
    }

    function ReadIndexEntry(position: nat): Result<(nat, nat)>
      reads this, dir
    {
      if open && baseOffset in dir.files then DecodeEntry(dir.files[baseOffset].index, position) else Err
    }

    /** The index holds these offsets and positions; the last position is the segment size. */
    ghost predicate IndexIs(offsets: seq<nat>, positions: seq<nat>)
      reads this, dir
    {
      && |offsets| == indexEntries && |positions| == indexEntries + 1
      && positions[indexEntries] == size
      && baseOffset in dir.files
      && forall i :: 0 <= i < indexEntries ==>
                       DecodeEntry(dir.files[baseOffset].index, i * 16) == Ok((offsets[i], positions[i]))
    }

    lemma {:induction false} HoldsIndex(e: Encoding, s: SegView)
      requires Holds(e, s) && WfSegment(s)
      ensures IndexIs(OffsetTable(s.msgs), PositionTable(e, s.msgs))
      ensures StrictlyIncreasing(OffsetTable(s.msgs)) && StrictlyIncreasing(PositionTable(e, s.msgs))
    {
      EndPosition(e, s.msgs);
      forall i | 0 <= i < |s.msgs| {
        EntryAt(e, s.msgs, i);
      }
      forall i, j | 0 <= i < j <= |s.msgs|
        ensures Position(e, s.msgs, i) < Position(e, s.msgs, j)
      {
        PositionsIncrease(e, s.msgs, i, j);
      }
    }

    /** Index entry i, read at byte position 16 * i. */
    method ReadEntry(ghost offsets: seq<nat>, ghost positions: seq<nat>, i: nat) returns (r: Result<(nat, nat)>)
      requires IndexIs(offsets, positions) && i < indexEntries
      ensures r == if open then Ok((offsets[i], positions[i])) else Err
    {
      r := ReadIndexEntry(i * 16);
    }

    /** int64(offset - baseOffset), wrap-around included. */
    method DirectIndex(offset: nat) returns (i: int)
      requires offset < TWO64 && baseOffset < TWO64
      ensures baseOffset <= offset < baseOffset + TWO63 ==> i == offset - baseOffset
    {
      return ToInt64(offset - baseOffset + TWO64);
    }

    /**
     On every strictly increasing index, gaps included, equals the linear scan. `direct` tells whether
     the answer came from the direct path.
     */
    method FindMessageBounds(ghost offsets: seq<nat>, ghost positions: seq<nat>, offset: nat)
        returns (r: Result<(nat, nat)>, ghost direct: bool)
      requires IndexIs(offsets, positions) && StrictlyIncreasing(offsets)
      requires offset < TWO64 && baseOffset < TWO64
      ensures open ==> r == Bounds(positions, Scan(offsets, offset))
      ensures !open ==> r.Err?
      ensures baseOffset <= offset < baseOffset + TWO63 ==>
        (direct <==> open && offset - baseOffset < |offsets| && offsets[offset - baseOffset] == offset)
    {
      direct := false;
      var entries: int := indexEntries;
      if entries == 0 {
        r := Err;
        return;
      }
      var directIdx: int := DirectIndex(offset);
      if directIdx >= 0 && directIdx < entries {
        var entry := ReadEntry(offsets, positions, directIdx);
        if entry.Ok? && entry.value.0 == offset {
          ScanFinds(offsets, directIdx);
          var nextPos := NextPosition(offsets, positions, directIdx);
          direct := true;
          r := if nextPos.Err? then Err else Ok((entry.value.1, nextPos.value));
          return;
        }
      }
      r := SearchBounds(offsets, positions, offset);
    }

    /** The binary-search fallback of FindMessageBounds. */
    method SearchBounds(ghost offsets: seq<nat>, ghost positions: seq<nat>, offset: nat)
        returns (r: Result<(nat, nat)>)
      requires IndexIs(offsets, positions) && StrictlyIncreasing(offsets)
      ensures open ==> r == Bounds(positions, Scan(offsets, offset))
      ensures !open ==> r.Err?
    {
      var entries: int := indexEntries;
      var low: int, high: int := 0, entries - 1;
      while low <= high
        invariant 0 <= low <= high + 1 <= entries
        invariant forall i :: 0 <= i < low ==> offsets[i] < offset
        invariant forall i :: high < i < entries ==> offset < offsets[i]
      {
        var mid := low + (high - low) / 2;
        var entry := ReadEntry(offsets, positions, mid);
        if entry.Err? {
          return Err;
        }
        if entry.value.0 == offset {
          ScanFinds(offsets, mid);
          var nextPos := NextPosition(offsets, positions, mid);
          if nextPos.Err? {
            return Err;
          }
          return Ok((entry.value.1, nextPos.value));
        }
        if entry.value.0 < offset {
          low := mid + 1;
        } else {
          high := mid - 1;
        }
      }
      return Err;
    }

    /** The position in index entry i + 1, or the segment size after the last entry. */
    method NextPosition(ghost offsets: seq<nat>, ghost positions: seq<nat>, i: nat) returns (r: Result<nat>)
      requires IndexIs(offsets, positions) && i < indexEntries
      ensures open ==> r == Ok(positions[i + 1])
    {
      if i + 1 < indexEntries {
        var entry := ReadEntry(offsets, positions, i + 1);
        return if entry.Ok? then Ok(entry.value.1) else Err;
      }
      return Ok(size);
    }

    /** A scan fails where no message begins. */
    lemma {:induction false} EndScanned(offsets: seq<nat>, positions: seq<nat>, position: nat)
      requires IndexIs(offsets, positions)
      ensures (forall i :: 0 <= i < |offsets| ==> positions[i] != position) ==> Scan(positions[..|offsets|], position).None?
    {
      hide Scan, DecodeEntry;
      var at := Scan(positions[..|offsets|], position);
      if at.Some? { assert positions[at.value] == position; }
    }

    /** The end of the message that begins at a position, and an error for any other position. */
    method FindEndPosition(ghost offsets: seq<nat>, ghost positions: seq<nat>, position: nat) returns (r: Result<nat>)
      requires IndexIs(offsets, positions) && StrictlyIncreasing(positions)
      ensures open ==>
        var at := Scan(positions[..|offsets|], position);
        r == if at.Some? then Ok(positions[at.value + 1]) else Err
      ensures !open ==> r.Err?
    {
      hide Scan, DecodeEntry;
      EndScanned(offsets, positions, position);
      var entries: int := indexEntries;
      var low: int, high: int := 0, entries - 1;
      while low <= high
        invariant 0 <= low <= high + 1 <= entries
        invariant forall i :: 0 <= i < low ==> positions[i] < position
        invariant forall i :: high < i < entries ==> position < positions[i]
      {
        var mid := low + (high - low) / 2;
        var entry := ReadEntry(offsets, positions, mid);
        if entry.Err? {
          return Err;
        }
        if entry.value.1 == position {
          ScanFinds(positions[..|offsets|], mid);
          assert positions[..|offsets|][mid] == position;
          r := NextPosition(offsets, positions, mid);
          return;
        }
        if entry.value.1 < position {
          low := mid + 1;
        } else {
          high := mid - 1;
        }
      }
      return Err;
    }

    /** The index lookup of Read; i is the number of the entry found. */
    method Locate(ghost offsets: seq<nat>, ghost positions: seq<nat>, offset: nat)
        returns (r: Result<(nat, nat)>, ghost i: nat)
      requires IndexIs(offsets, positions) && StrictlyIncreasing(offsets)
      requires offset < TWO64 && baseOffset < TWO64
      requires forall j :: 0 <= j < |offsets| ==> baseOffset <= offsets[j] < nextOffset
      ensures r.Ok? ==> open && i < |offsets| && offsets[i] == offset && r.value == (positions[i], positions[i + 1])
      ensures open && r.Err? ==> forall j :: 0 <= j < |offsets| ==> offsets[j] != offset
    {
      i := 0;
      if offset < baseOffset || offset >= nextOffset {
        return Err, i;
      }
      var found, _ := FindMessageBounds(offsets, positions, offset);
      r := found;
      if r.Ok? {
        i := Scan(offsets, offset).value;
      }
    }

    /** The index lookup of Read, in terms of the messages. */
    method LocateMessage(ghost e: Encoding, ghost s: SegView, offset: nat)
        returns (r: Result<(nat, nat)>, ghost i: nat)
      requires Rep(e, s) && WfSegment(s) && offset < TWO64
      ensures r.Ok? ==> open && i < |s.msgs| && s.msgs[i].offset == offset
      ensures r.Ok? ==> r.value == (Position(e, s.msgs, i), Position(e, s.msgs, i + 1))
      ensures open && r.Err? ==> forall j :: 0 <= j < |s.msgs| ==> s.msgs[j].offset != offset
    {
      hide LogBytes, IndexBytes, Increasing, Position, DecodeEntry;
      HoldsIndex(e, s);
      ghost var offsets, positions := OffsetTable(s.msgs), PositionTable(e, s.msgs);
      assert forall j :: 0 <= j < |s.msgs| ==> offsets[j] == s.msgs[j].offset;
      assert forall j :: 0 <= j <= |s.msgs| ==> positions[j] == Position(e, s.msgs, j);
      r, i := Locate(offsets, positions, offset);
    }

    /** Returns exactly the message the segment holds at an offset, and an error where it holds none. */
    method Read(ghost e: Encoding, ghost s: SegView, offset: nat) returns (r: Result<Message>)
      requires Rep(e, s) && WfSegment(s) && e.codec.Lawful() && offset < TWO64
      ensures Ready(e.compressed) ==> r == Lookup(s.msgs, offset)
      ensures !open ==> r.Err?
    {
      ContentsIff(s.msgs, offset);
      var bounds, i := LocateMessage(e, s, offset);
      if bounds.Err? {
        return Err;
      }
      r := ReadMessage(e, s.msgs, i, offset, bounds.value.0, bounds.value.1);
    }

    /** The part of Read that follows the index lookup. */
    method ReadMessage(ghost e: Encoding, ghost msgs: seq<Message>, ghost i: nat,
                       offset: nat, position: nat, nextPosition: nat) returns (r: Result<Message>)
      requires baseOffset in dir.files && dir.files[baseOffset].log == LogBytes(e, msgs)
      requires i < |msgs| && Storable(msgs[i]) && e.codec.Lawful() && codec == e.codec
      requires position == Position(e, msgs, i) && nextPosition == Position(e, msgs, i + 1)
      ensures compressed == e.compressed ==> r == if msgs[i].offset == offset then Ok(msgs[i]) else Err
    {
      ReadBack(e, msgs, i);
      HeaderFields(msgs[i]);
      var logRead := dir.files[baseOffset].log;
      var header := ReadAt(logRead, position, 24).value;
      var messageOffset := FromBigEndian(header[0..8]);
      if messageOffset != offset {
        return Err;
      }
      var timestamp := ToInt64(FromBigEndian(header[8..16]));
      var keySize := FromBigEndian(header[16..20]);
      var valueSize := FromBigEndian(header[20..24]);
      var payload := ReadAt(logRead, position + 24, nextPosition - position - 24).value;
      if compressed {
        var decoded := codec.decode(payload);
        if decoded.None? {
          return Err;
        }
        payload := decoded.value;
      }
      if |payload| != keySize + valueSize {
        return Err;
      }
      return Ok(Message(messageOffset, timestamp, payload[..keySize], payload[keySize..]));
    }

    /** The timestamp of the last message, or an error when there is none. */
    method NewestTimestamp(ghost e: Encoding, ghost s: SegView) returns (r: Result<int64>)
      requires Rep(e, s) && WfSegment(s)
      ensures open ==> r == if s.msgs == [] then Err else Ok(s.msgs[|s.msgs| - 1].timestamp)
      ensures !open ==> r.Err?
    {
      if nextOffset <= baseOffset || indexEntries == 0 {
        return Err;
      }
      HoldsIndex(e, s);
      ghost var i := |s.msgs| - 1;
      var entry := ReadEntry(OffsetTable(s.msgs), PositionTable(e, s.msgs), indexEntries - 1);
      if entry.Err? {
        return Err;
      }
      ReadBack(e, s.msgs, i);
      HeaderFields(s.msgs[i]);
      var header := ReadAt(dir.files[baseOffset].log, entry.value.1, 24).value;
      return Ok(ToInt64(FromBigEndian(header[8..16])));
    }

    /**
     Writes one record at the end of both files. A segment whose handles are closed, and a
     key or value too large for its length field, change nothing.
     */
    method Append(ghost e: Encoding, ghost s: SegView, record: Record) returns (r: Result<(nat, nat)>)
      requires Rep(e, s) && compressed == e.compressed
      requires Acceptable(record) ==> s.next + 1 < TWO64 && |LogBytes(e, Extend(s, [record]).msgs)| < TWO63
      modifies this`nextOffset, this`size, this`indexEntries, dir
      ensures baseOffset in dir.files && dir.files == old(dir.files)[baseOffset := dir.files[baseOffset]]
      ensures open && Acceptable(record) ==> Rep(e, Extend(s, [record])) && r == Ok((s.next, SavedBytes(e, record)))
      ensures !open || !Acceptable(record) ==> r.Err? && unchanged(this) && dir.files == old(dir.files)
      // the bytes written, and the number of bytes that compression saved
      ensures r.Ok? ==>
        var payload := if compressed then codec.encode(record.key + record.value) else record.key + record.value;
        && dir.files[baseOffset].log == old(dir.files[baseOffset].log)
             + (U64(old(nextOffset)) + U64(record.timestamp % 0x1_0000_0000_0000_0000)
                + U32(|record.key|) + U32(|record.value|) + payload)
        && dir.files[baseOffset].index == old(dir.files[baseOffset].index) + (U64(old(nextOffset)) + U64(old(size)))
        && r.value.1 == (if |payload| < |record.key| + |record.value| then |record.key| + |record.value| - |payload| else 0)
    {
      hide LogBytes, IndexBytes, MessageBytes, Extend, U64, U32;
      if |record.key| > TWO32 - 1 {
        return Err;
      }
      if |record.value| > TWO32 - 1 {
        return Err;
      }
      var payload := record.key + record.value;
      var bytesSaved := 0;
      if compressed {
        var originalSize := |payload|;
        payload := codec.encode(payload);
        bytesSaved := originalSize - |payload|;
      }
      var offset, position := nextOffset, size;
      if !open {
        return Err;
      }
      var header := U64(offset) + U64(ToUint64(record.timestamp)) + U32(|record.key|) + U32(|record.value|);
      ExtendOne(e, s, record);
      var pair := dir.files[baseOffset];
      dir.files := dir.files[baseOffset := Files(pair.log + (header + payload), pair.index + IndexEntry(offset, position))];
      size := size + 24 + |payload|;
      nextOffset := nextOffset + 1;
      indexEntries := indexEntries + 1;
      if bytesSaved < 0 {
        bytesSaved := 0;
      }
      return Ok((offset, bytesSaved));
    }

    /** Checks and packs one record of a batch. */
    method PackRecord(ghost e: Encoding, r: Record) returns (p: Result<PreparedPayload>)
      requires codec == e.codec && compressed == e.compressed
      ensures p == if Acceptable(r) then Ok(Prepare(e, r)) else Err
    {
      if |r.key| > TWO32 - 1 {
        return Err;
      }
      if |r.value| > TWO32 - 1 {
        return Err;
      }
      var payload := r.key + r.value;
      var saved := 0;
      if compressed {
        var orig := |payload|;
        payload := codec.encode(payload);
        saved := orig - |payload|;
        if saved < 0 {
          saved := 0;
        }
      }
      return Ok(PreparedPayload(payload, |r.key|, |r.value|, r.timestamp, saved));
    }

    /** The first pass of AppendBatch. */
    method PrepareAll(ghost e: Encoding, records: seq<Record>)
        returns (r: Result<seq<PreparedPayload>>, totalSaved: nat, totalLogBytes: nat)
      requires codec == e.codec && compressed == e.compressed
      ensures r == if AllAcceptable(records) then Ok(PreparedBatch(e, records)) else Err
      ensures r.Ok? ==> totalSaved == SumSaved(r.value) && totalLogBytes == ImageTotal(r.value)
    {
      hide Acceptable, PreparedBatch, SumSaved, ImageTotal;
      var prepared := [];
      PreparedNone(e, records);
      totalSaved, totalLogBytes := 0, 0;
      for i := 0 to |records|
        invariant forall j :: 0 <= j < i ==> Acceptable(records[j])
        invariant prepared == PreparedBatch(e, records[..i])
        invariant totalSaved == SumSaved(prepared) && totalLogBytes == ImageTotal(prepared)
      {
        var p := PackRecord(e, records[i]);
        if p.Err? {
          return Err, totalSaved, totalLogBytes;
        }
        SumsSnoc(prepared, p.value);
        PreparedSnoc(e, records, i);
        prepared := prepared + [p.value];
        totalSaved := totalSaved + p.value.bytesSaved;
        totalLogBytes := totalLogBytes + 24 + |p.value.payload|;
      }
      assert records[..|records|] == records;
      r := Ok(prepared);
    }

    /** The second pass of AppendBatch: lay out both buffers with running cursors. */
    method FillBuffers(prepared: seq<PreparedPayload>, totalLogBytes: nat)
        returns (logBuf: array<byte>, indexBuf: array<byte>, offsets: seq<nat>)
      requires totalLogBytes == |Join(BatchImages(nextOffset, prepared))|
      ensures logBuf[..] == Join(BatchImages(nextOffset, prepared))
      ensures indexBuf[..] == Join(BatchEntries(nextOffset, size, BatchImages(nextOffset, prepared)))
      ensures offsets == Offsets(nextOffset, |prepared|)
    {
      hide Image, IndexEntry, Join;
      JoinEmpty();
      ghost var images := BatchImages(nextOffset, prepared);
      ghost var entries := BatchEntries(nextOffset, size, images);
      logBuf := new byte[totalLogBytes];
      indexBuf := new byte[|prepared| * 16];
      offsets := [];
      var logOffset, indexOffset, currentPos, currOffset := 0, 0, size, nextOffset;
      for i := 0 to |prepared|
        invariant logOffset == |Join(images[..i])| <= totalLogBytes && logBuf[..logOffset] == Join(images[..i])
        invariant indexOffset == i * 16 && indexBuf[..indexOffset] == Join(entries[..i])
        invariant currentPos == size + logOffset && currOffset == nextOffset + i
        invariant offsets == Offsets(nextOffset, i)
      {
        var p := prepared[i];
        JoinAt(images, i);
        assert images[..i + 1] == images[..i] + [images[i]] && entries[..i + 1] == entries[..i] + [entries[i]];
        JoinSnoc(images[..i], images[i]);
        JoinSnoc(entries[..i], entries[i]);
        ImageLength(currOffset, p);
        offsets := offsets + [currOffset];
        PutImage(logBuf, logOffset, currOffset, p);
        logOffset := logOffset + 24 + |p.payload|;
        CopyInto(indexBuf, indexOffset, IndexEntry(currOffset, currentPos));
        indexOffset := indexOffset + 16;
        currentPos := currentPos + 24 + |p.payload|;
        currOffset := currOffset + 1;
      }
      assert images[..|prepared|] == images && entries[..|prepared|] == entries;
    }

    /** Writes a batch in one go, exactly as appending its records one after the other would. */
    method AppendBatch(ghost e: Encoding, ghost s: SegView, records: seq<Record>) returns (r: Result<(seq<nat>, nat)>)
      requires Rep(e, s) && compressed == e.compressed
      requires AllAcceptable(records) ==> s.next + |records| < TWO64 && |LogBytes(e, Extend(s, records).msgs)| < TWO63
      modifies this`nextOffset, this`size, this`indexEntries, dir
      ensures baseOffset in dir.files && dir.files == old(dir.files)[baseOffset := dir.files[baseOffset]]
      ensures open && records != [] && AllAcceptable(records) ==>
        Rep(e, Extend(s, records)) && r == Ok((Offsets(s.next, |records|), TotalSaved(e, records)))
      ensures records == [] ==> r == Ok(([], 0)) && unchanged(this) && dir.files == old(dir.files)
      ensures records != [] && (!open || !AllAcceptable(records)) ==>
        r.Err? && unchanged(this) && dir.files == old(dir.files)
    {
      hide LogBytes, IndexBytes, BatchEntries, BatchImages, Join, SumSaved;
      if |records| == 0 {
        return Ok(([], 0));
      }
      var all, totalSaved, totalLogBytes := PrepareAll(e, records);
      if all.Err? {
        return Err;
      }
      var prepared := all.value;
      ImageTotalIsJoin(nextOffset, prepared);
      var logBuf, indexBuf, offsets := FillBuffers(prepared, totalLogBytes);
      if !open {
        return Err;
      }
      BatchIsMessages(e, s, records);
      var pair := dir.files[baseOffset];
      dir.files := dir.files[baseOffset := Files(pair.log + logBuf[..], pair.index + indexBuf[..])];
      size := size + totalLogBytes;
      nextOffset := nextOffset + |records|;
      indexEntries := indexEntries + |records|;
      return Ok((offsets, totalSaved));
    }

    method SetCompressed(flag: bool)
      modifies this`compressed
      ensures compressed == flag
    {
      compressed := flag;
    }

    method Close()
      modifies this`open
      ensures !open
    {
      open := false;
    }

    /** Closes the segment and removes both of its files. */
    method Delete()
      modifies this`open, dir
      ensures !open
      ensures dir.files == old(dir.files) - {baseOffset}
    {
      Close();
      dir.files := dir.files - {baseOffset};
    }
  }
}
