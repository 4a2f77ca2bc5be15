/**
 The bytes of a segment: the message wire format (a 24-byte header and a payload), the
 index wire format (16-byte entries), and what reading the index and the log file at the
 right places gives back.
 */
module Format {
  import opened Bytes

  /** What a producer hands over. */
  datatype Record = Record(timestamp: int64, key: bytes, value: bytes)

  /** What the log stores. */
  datatype Message = Message(offset: nat, timestamp: int64, key: bytes, value: bytes) {
    function Content(): Record { Record(timestamp, key, value) }
  }

  function Stamp(offset: nat, r: Record): Message {
    Message(offset, r.timestamp, r.key, r.value)
  }

  /** The compressor, as a pair of functions about which only Lawful is ever used. */
  datatype Codec = Codec(encode: bytes -> bytes, decode: bytes -> Option<bytes>) {
    ghost predicate Lawful() {
      forall p: bytes :: decode(encode(p)) == Some(p)
    }
  }

  /** How a segment's payloads are written. */
  datatype Encoding = Encoding(codec: Codec, compressed: bool) {
    function Pack(payload: bytes): bytes {
      if compressed then codec.encode(payload) else payload
    }
  }

  /** The sizes that Segment.Append accepts. */
  predicate Acceptable(r: Record) {
    |r.key| < TWO32 && |r.value| < TWO32
  }

  /** What fits the fields of the message header. */
  predicate Storable(m: Message) {
    m.offset < TWO64 && |m.key| < TWO32 && |m.value| < TWO32
  }

  function Header(m: Message): (h: bytes)
    ensures |h| == 24
  {
    U64(m.offset) + U64(ToUint64(m.timestamp)) + U32(|m.key|) + U32(|m.value|)
  }

  lemma {:induction false} HeaderFields(m: Message)
    requires Storable(m)
    ensures FromBigEndian(Header(m)[0..8]) == m.offset
    ensures ToInt64(FromBigEndian(Header(m)[8..16])) == m.timestamp
    ensures FromBigEndian(Header(m)[16..20]) == |m.key|
    ensures FromBigEndian(Header(m)[20..24]) == |m.value|
  {
    var h := Header(m);
    assert h[0..8] == U64(m.offset);
    assert h[8..16] == U64(ToUint64(m.timestamp));
    assert h[16..20] == U32(|m.key|);
    assert h[20..24] == U32(|m.value|);
    FieldRoundTrip(m.offset);
    FieldRoundTrip(ToUint64(m.timestamp));
    FieldRoundTrip(|m.key|);
    FieldRoundTrip(|m.value|);
  }

  function MessageBytes(e: Encoding, m: Message): (s: bytes)
    ensures |s| >= 24
  {
    Header(m) + e.Pack(m.key + m.value)
  }

  function Images(e: Encoding, msgs: seq<Message>): seq<bytes> {
    seq(|msgs|, i requires 0 <= i < |msgs| => MessageBytes(e, msgs[i]))
  }

  /** The .log file that holds these messages. */
  function LogBytes(e: Encoding, msgs: seq<Message>): bytes {
    Join(Images(e, msgs))
  }

  /** Where message `i` begins in the .log file; `i == |msgs|` gives the end of the file. */
  function Position(e: Encoding, msgs: seq<Message>, i: nat): nat
    requires i <= |msgs|
  {
    |Join(Images(e, msgs)[..i])|
  }

  function IndexEntry(offset: nat, position: nat): (s: bytes)
    ensures |s| == 16
  {
    U64(offset) + U64(position)
  }

  function Entries(e: Encoding, msgs: seq<Message>): seq<bytes> {
    seq(|msgs|, i requires 0 <= i < |msgs| => IndexEntry(msgs[i].offset, Position(e, msgs, i)))
  }

  /** The .index file that goes with LogBytes(e, msgs). */
  function IndexBytes(e: Encoding, msgs: seq<Message>): (s: bytes)
    ensures |s| == 16 * |msgs|
  {
    JoinLength(Entries(e, msgs), 16);
    Join(Entries(e, msgs))
  }

  /** os.File.ReadAt: all n bytes, or an error. */
  function ReadAt(file: bytes, position: nat, n: nat): Result<bytes> {
    if n == 0 then Ok([])
    else if position + n <= |file| then Ok(file[position..position + n])
    else Err
  }

  /** The (offset, position) pair in the index entry at a byte position. */
  function DecodeEntry(index: bytes, position: nat): Result<(nat, nat)> {
    var entry := ReadAt(index, position, 16);
    if entry.Err? then Err
    else Ok((FromBigEndian(entry.value[0..8]), FromBigEndian(entry.value[8..16])))
  }

  lemma {:induction false} EmptyFiles(e: Encoding, msgs: seq<Message>)
    ensures (LogBytes(e, msgs) == [] <==> msgs == []) && (IndexBytes(e, msgs) == [] <==> msgs == [])
  {
    if msgs != [] {
      JoinAt(Images(e, msgs), 0);
    }
  }

  /** Message `i` occupies exactly the bytes between its position and the next one. */
  lemma {:induction false} MessageAt(e: Encoding, msgs: seq<Message>, i: nat)
    requires i < |msgs|
    ensures Position(e, msgs, i) + |MessageBytes(e, msgs[i])| == Position(e, msgs, i + 1) <= |LogBytes(e, msgs)|
    ensures LogBytes(e, msgs)[Position(e, msgs, i)..Position(e, msgs, i + 1)] == MessageBytes(e, msgs[i])
  {
    JoinAt(Images(e, msgs), i);
  }

  lemma {:induction false} EndPosition(e: Encoding, msgs: seq<Message>)
    ensures Position(e, msgs, |msgs|) == |LogBytes(e, msgs)|
  {
    assert Images(e, msgs)[..|msgs|] == Images(e, msgs);
  }

  /** Positions grow by at least a header from one message to the next. */
  lemma {:induction false} PositionsIncrease(e: Encoding, msgs: seq<Message>, i: nat, j: nat)
    requires i < j <= |msgs|
    ensures Position(e, msgs, i) + 24 <= Position(e, msgs, j)
  {
    JoinGrows(Images(e, msgs), 24, i, j);
  }

  lemma {:induction false} EntryBytesAt(e: Encoding, msgs: seq<Message>, i: nat)
    requires i < |msgs|
    ensures IndexBytes(e, msgs)[i * 16..i * 16 + 16] == IndexEntry(msgs[i].offset, Position(e, msgs, i))
  {
    JoinFixedAt(Entries(e, msgs), 16, i);
  }

  lemma {:induction false} DecodeEntryBytes(index: bytes, at: nat, offset: nat, position: nat)
    requires at + 16 <= |index| && index[at..at + 16] == IndexEntry(offset, position)
    requires offset < TWO64 && position < TWO64
    ensures DecodeEntry(index, at) == Ok((offset, position))
  {
    var entry := index[at..at + 16];
    assert entry[0..8] == U64(offset) && entry[8..16] == U64(position);
    FieldRoundTrip(offset);
    FieldRoundTrip(position);
  }

  /** Index entry `i` decodes to the offset of message `i` and the place where it begins. */
  lemma {:induction false} EntryAt(e: Encoding, msgs: seq<Message>, i: nat)
    requires i < |msgs| && msgs[i].offset < TWO64 && |LogBytes(e, msgs)| < TWO63
    ensures DecodeEntry(IndexBytes(e, msgs), i * 16) == Ok((msgs[i].offset, Position(e, msgs, i)))
  {
    EntryBytesAt(e, msgs, i);
    assert Position(e, msgs, i) < TWO64 by { MessageAt(e, msgs, i); }
    DecodeEntryBytes(IndexBytes(e, msgs), i * 16, msgs[i].offset, Position(e, msgs, i));
  }

  lemma {:induction false} ImagesConcat(e: Encoding, a: seq<Message>, b: seq<Message>)
    ensures Images(e, a + b) == Images(e, a) + Images(e, b)
  {
  }

  lemma {:induction false} PositionConcat(e: Encoding, a: seq<Message>, b: seq<Message>, i: nat)
    requires i <= |a + b|
    ensures Position(e, a + b, i) == if i < |a| then Position(e, a, i) else |LogBytes(e, a)| + Position(e, b, i - |a|)
  {
    var x, y := Images(e, a), Images(e, b);
    ImagesConcat(e, a, b);
    if i < |a| {
      assert (x + y)[..i] == x[..i];
    } else {
      assert (x + y)[..i] == x + y[..i - |a|];
      JoinConcat(x, y[..i - |a|]);
    }
  }

  lemma {:induction false} EntriesConcat(e: Encoding, a: seq<Message>, b: seq<Message>)
    ensures Entries(e, a + b) == Entries(e, a) + EntriesFrom(e, |LogBytes(e, a)|, b)
  {
    hide Position, LogBytes, IndexEntry;
    var rest := EntriesFrom(e, |LogBytes(e, a)|, b);
    forall i | 0 <= i < |a + b|
      ensures Entries(e, a + b)[i] == (Entries(e, a) + rest)[i]
    {
      PositionConcat(e, a, b, i);
    }
  }

  /** The files of a longer log begin with the files of the shorter one. */
  lemma {:induction false} FilesConcat(e: Encoding, a: seq<Message>, b: seq<Message>)
    ensures LogBytes(e, a + b) == LogBytes(e, a) + LogBytes(e, b)
    ensures IndexBytes(e, a + b) == IndexBytes(e, a) + Join(EntriesFrom(e, |LogBytes(e, a)|, b))
  {
    ImagesConcat(e, a, b);
    JoinConcat(Images(e, a), Images(e, b));
    EntriesConcat(e, a, b);
    JoinConcat(Entries(e, a), EntriesFrom(e, |LogBytes(e, a)|, b));
  }

  lemma {:induction false} FilesSnoc(e: Encoding, msgs: seq<Message>, m: Message)
    ensures LogBytes(e, msgs + [m]) == LogBytes(e, msgs) + MessageBytes(e, m)
    ensures IndexBytes(e, msgs + [m]) == IndexBytes(e, msgs) + IndexEntry(m.offset, |LogBytes(e, msgs)|)
  {
    LogSnoc(e, msgs, m);
    IndexSnoc(e, msgs, m);
  }

  lemma {:induction false} LogSnoc(e: Encoding, msgs: seq<Message>, m: Message)
    ensures LogBytes(e, msgs + [m]) == LogBytes(e, msgs) + MessageBytes(e, m)
  {
    assert Images(e, msgs + [m]) == Images(e, msgs) + [MessageBytes(e, m)];
    JoinSnoc(Images(e, msgs), MessageBytes(e, m));
  }

  lemma {:induction false} IndexSnoc(e: Encoding, msgs: seq<Message>, m: Message)
    ensures IndexBytes(e, msgs + [m]) == IndexBytes(e, msgs) + IndexEntry(m.offset, |LogBytes(e, msgs)|)
  {
    hide LogBytes, IndexEntry, Join;
    var start := |LogBytes(e, msgs)|;
    EntriesConcat(e, msgs, [m]);
    FirstEntry(e, start, m);
    JoinSnoc(Entries(e, msgs), IndexEntry(m.offset, start));
  }

  lemma {:induction false} FirstEntry(e: Encoding, start: nat, m: Message)
    ensures EntriesFrom(e, start, [m]) == [IndexEntry(m.offset, start)]
  {
    hide IndexEntry, MessageBytes;
    assert Position(e, [m], 0) == 0;
  }

  /** Index entries of messages written after `start` bytes of log. */
  function EntriesFrom(e: Encoding, start: nat, msgs: seq<Message>): seq<bytes> {
    seq(|msgs|, i requires 0 <= i < |msgs| => IndexEntry(msgs[i].offset, start + Position(e, msgs, i)))
  }

  /** Header and payload of message `i`, as two reads of the .log file find them. */
  lemma {:induction false} ReadBack(e: Encoding, msgs: seq<Message>, i: nat)
    requires i < |msgs|
    ensures
      var log, p, q := LogBytes(e, msgs), Position(e, msgs, i), Position(e, msgs, i + 1);
      && p + 24 <= q
      && ReadAt(log, p, 24) == Ok(Header(msgs[i]))
      && ReadAt(log, p + 24, q - p - 24) == Ok(e.Pack(msgs[i].key + msgs[i].value))
  {
    var log, p, q := LogBytes(e, msgs), Position(e, msgs, i), Position(e, msgs, i + 1);
    MessageAt(e, msgs, i);
    SliceSplit(log, p, q, 24);
  }
}
