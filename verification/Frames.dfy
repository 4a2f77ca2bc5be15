/**
 The binary Raft command frame (internal/raft/fsm.go): the two encoders, which fill a buffer
 through a moving cursor, and the decoding that FSM.Apply performs.
 */
module Frames {
  import opened Bytes

  datatype KeyValue = KeyValue(key: bytes, value: bytes)

  datatype Body = Single(record: KeyValue) | Batch(records: seq<KeyValue>)

  /** A decoded command. */
  datatype Frame = Frame(topic: bytes, partition: nat, body: Body)

  const CMD_SINGLE: byte := 1
  const CMD_BATCH: byte := 2

  /** "default", the topic that stands for an empty name. */
  const DEFAULT_TOPIC: bytes := [100, 101, 102, 97, 117, 108, 116]

  function TopicOrDefault(topic: bytes): bytes { if topic == [] then DEFAULT_TOPIC else topic }

  // ---------- Encoding ----------

  /** Go's uint32(x) of an int. */
  function ToUint32(x: int): nat { x % 0x1_0000_0000 }

  function Field(s: bytes): bytes { U32(|s|) + s }

  function RecordImage(r: KeyValue): bytes { Field(r.key) + Field(r.value) }

  function RecordImages(rs: seq<KeyValue>): seq<bytes> {
    seq(|rs|, i requires 0 <= i < |rs| => RecordImage(rs[i]))
  }

  function Head(kind: byte, topic: bytes, partition: int): bytes {
    [kind] + U16(|topic|) + topic + U32(ToUint32(partition))
  }

  function SingleFrame(topic: bytes, partition: int, r: KeyValue): bytes {
    Head(CMD_SINGLE, topic, partition) + RecordImage(r)
  }

  function BatchFrame(topic: bytes, partition: int, rs: seq<KeyValue>): bytes {
    Head(CMD_BATCH, topic, partition) + U32(|rs|) + Join(RecordImages(rs))
  }

  method PutHead(buf: array<byte>, kind: byte, topic: bytes, partition: int)
    requires |Head(kind, topic, partition)| <= buf.Length
    modifies buf
    ensures buf[..7 + |topic|] == Head(kind, topic, partition)
  {
    hide U16, U32, ToUint32;
    CopyInto(buf, 0, [kind]);
    CopyInto(buf, 1, U16(|topic|));
    CopyInto(buf, 3, topic);
    CopyInto(buf, 3 + |topic|, U32(ToUint32(partition)));
  }

  method PutRecord(buf: array<byte>, at: nat, r: KeyValue)
    requires at + |RecordImage(r)| <= buf.Length
    modifies buf
    ensures buf[..at + |RecordImage(r)|] == old(buf[..at]) + RecordImage(r)
  {
    hide U32;
    CopyInto(buf, at, U32(|r.key|));
    CopyInto(buf, at + 4, r.key);
    CopyInto(buf, at + 4 + |r.key|, U32(|r.value|));
    CopyInto(buf, at + 8 + |r.key|, r.value);
  }

  /** Fills its buffer exactly. */
  method EncodeCommand(topic: bytes, partition: int, key: bytes, value: bytes) returns (buf: array<byte>)
    ensures buf[..] == SingleFrame(topic, partition, KeyValue(key, value))
    ensures buf[..] == [1] + U16(|topic|) + topic + U32(partition % 0x1_0000_0000)
                       + U32(|key|) + key + U32(|value|) + value
  {
    SingleLayout(topic, partition, key, value);
    hide U16, U32, ToUint32;
    var totalLen := 1 + 2 + |topic| + 4 + 4 + |key| + 4 + |value|;
    buf := new byte[totalLen];
    PutHead(buf, CMD_SINGLE, topic, partition);
    PutRecord(buf, 7 + |topic|, KeyValue(key, value));
    assert buf[..totalLen] == buf[..];
  }

  /** Fills its buffer exactly. */
  method EncodeBatchCommand(topic: bytes, partition: int, records: seq<KeyValue>) returns (buf: array<byte>)
    ensures buf[..] == BatchFrame(topic, partition, records)
    ensures buf[..] == [2] + U16(|topic|) + topic + U32(partition % 0x1_0000_0000) + U32(|records|)
                       + Join(seq(|records|, i requires 0 <= i < |records| =>
                           U32(|records[i].key|) + records[i].key + U32(|records[i].value|) + records[i].value))
  {
    BatchLayout(topic, partition, records);
    hide U16, U32, ToUint32, RecordImage, Join;
    ghost var images := RecordImages(records);
    var totalLen := BatchLength(topic, records);
    buf := new byte[totalLen];
    PutHead(buf, CMD_BATCH, topic, partition);
    CopyInto(buf, 7 + |topic|, U32(|records|));
    var offset := 11 + |topic|;
    ghost var prefix := Head(CMD_BATCH, topic, partition) + U32(|records|);
    JoinEmpty();
    assert buf[..offset] == prefix + Join(images[..0]);
    for i := 0 to |records|
      invariant offset == |prefix| + |Join(images[..i])| <= totalLen
      invariant buf[..offset] == prefix + Join(images[..i])
    {
      var r := records[i];
      JoinAt(images, i);
      assert images[..i + 1] == images[..i] + [images[i]];
      JoinSnoc(images[..i], images[i]);
      RecordImageLength(r);
      PutRecord(buf, offset, r);
      offset := offset + 8 + |r.key| + |r.value|;
    }
    assert images[..|records|] == images;
    assert buf[..totalLen] == buf[..];
  }

  /** The wire format of a single command. */
  lemma {:induction false} SingleLayout(topic: bytes, partition: int, key: bytes, value: bytes)
    ensures SingleFrame(topic, partition, KeyValue(key, value)) ==
            [1] + U16(|topic|) + topic + U32(partition % 0x1_0000_0000) + U32(|key|) + key + U32(|value|) + value
  {
    hide U16, U32;
    var head := [1] + U16(|topic|) + topic + U32(partition % 0x1_0000_0000);
    assert head + ((U32(|key|) + key) + (U32(|value|) + value)) == head + U32(|key|) + key + U32(|value|) + value;
  }

  /** The wire format of a batch command. */
  lemma {:induction false} BatchLayout(topic: bytes, partition: int, rs: seq<KeyValue>)
    ensures BatchFrame(topic, partition, rs) ==
            [2] + U16(|topic|) + topic + U32(partition % 0x1_0000_0000) + U32(|rs|)
            + Join(seq(|rs|, i requires 0 <= i < |rs| => U32(|rs[i].key|) + rs[i].key + U32(|rs[i].value|) + rs[i].value))
  {
    hide U16, U32, Join;
    var images := seq(|rs|, i requires 0 <= i < |rs| => U32(|rs[i].key|) + rs[i].key + U32(|rs[i].value|) + rs[i].value);
    forall i | 0 <= i < |rs|
      ensures RecordImages(rs)[i] == images[i]
    {
      var r := rs[i];
      assert (U32(|r.key|) + r.key) + (U32(|r.value|) + r.value) == U32(|r.key|) + r.key + U32(|r.value|) + r.value;
    }
    assert RecordImages(rs) == images;
  }

  lemma {:induction false} RecordImageLength(r: KeyValue)
    ensures |RecordImage(r)| == 8 + |r.key| + |r.value|
  {
  }

  method BatchLength(topic: bytes, records: seq<KeyValue>) returns (totalLen: nat)
    ensures totalLen == 11 + |topic| + |Join(RecordImages(records))|
  {
    hide RecordImage, Join;
    ghost var images := RecordImages(records);
    JoinEmpty();
    totalLen := 1 + 2 + |topic| + 4 + 4;
    for i := 0 to |records|
      invariant totalLen == 11 + |topic| + |Join(images[..i])|
    {
      assert images[..i + 1] == images[..i] + [images[i]];
      JoinSnoc(images[..i], images[i]);
      RecordImageLength(records[i]);
      totalLen := totalLen + 8 + |records[i].key| + |records[i].value|;
    }
    assert images[..|records|] == images;
  }

  // ---------- Decoding ----------

  /** A length-prefixed field at a position, and the position after it. */
  function TakeField(data: bytes, at: nat): Result<(bytes, nat)> {
    if at + 4 > |data| then Err else
      var n := FromBigEndian(data[at..at + 4]);
      if at + 4 + n > |data| then Err else Ok((data[at + 4..at + 4 + n], at + 4 + n))
  }

  function TakeRecord(data: bytes, at: nat): Result<(KeyValue, nat)> {
    var key := TakeField(data, at);
    if key.Err? then Err else
      var value := TakeField(data, key.value.1);
      if value.Err? then Err else Ok((KeyValue(key.value.0, value.value.0), value.value.1))
  }

  function TakeRecords(data: bytes, at: nat, count: nat): (r: Result<(seq<KeyValue>, nat)>)
    ensures r.Ok? ==> |r.value.0| == count
  {
    if count == 0 then Ok(([], at)) else
      var before := TakeRecords(data, at, count - 1);
      if before.Err? then Err else
        var last := TakeRecord(data, before.value.1);
        if last.Err? then Err else Ok((before.value.0 + [last.value.0], last.value.1))
  }

  /** Topic, partition and the position of the body. */
  function TakeTarget(data: bytes): Result<(bytes, nat, nat)> {
    if |data| < 7 then Err else
      var topicLen := FromBigEndian(data[1..3]);
      if |data| < 3 + topicLen + 4 then Err else
        Ok((TopicOrDefault(data[3..3 + topicLen]),
            FromBigEndian(data[3 + topicLen..7 + topicLen]),
            7 + topicLen))
  }

  function TakeBody(data: bytes, kind: byte, at: nat): Result<(Body, nat)> {
    if kind == CMD_SINGLE then
      var record := TakeRecord(data, at);
      if record.Err? then Err else Ok((Single(record.value.0), record.value.1))
    else if kind == CMD_BATCH then
      if at + 4 > |data| then Err else
        var records := TakeRecords(data, at + 4, FromBigEndian(data[at..at + 4]));
        if records.Err? then Err else Ok((Batch(records.value.0), records.value.1))
    else Err
  }

  /** The command a byte string stands for, and how many of its bytes were consumed. */
  function Decode(data: bytes): Result<(Frame, nat)> {
    var target := TakeTarget(data);
    if target.Err? then Err else
      var body := TakeBody(data, data[0], target.value.2);
      if body.Err? then Err
      else Ok((Frame(target.value.0, target.value.1, body.value.0), body.value.1))
  }

  /** The record decoding of Apply, check by check. */
  method DecodeRecord(data: bytes, at: nat) returns (r: Result<(KeyValue, nat)>)
    ensures r == TakeRecord(data, at)
  {
    hide FromBigEndian;
    var offset := at;
    if |data| < offset + 4 {
      return Err;
    }
    var keyLen := FromBigEndian(data[offset..offset + 4]);
    offset := offset + 4;
    if |data| < offset + keyLen + 4 {
      return Err;
    }
    var key := data[offset..offset + keyLen];
    offset := offset + keyLen;
    var valLen := FromBigEndian(data[offset..offset + 4]);
    offset := offset + 4;
    if |data| < offset + valLen {
      return Err;
    }
    var val := data[offset..offset + valLen];
    return Ok((KeyValue(key, val), offset + valLen));
  }

  lemma {:induction false} TakeRecordsFails(data: bytes, at: nat, i: nat, count: nat)
    requires i <= count && TakeRecords(data, at, i).Err?
    ensures TakeRecords(data, at, count).Err?
  {
    if i < count {
      TakeRecordsFails(data, at, i, count - 1);
    }
  }

  /** The decoding part of Apply; every slice it takes is in bounds, whatever the bytes. */
  method DecodeCommand(data: bytes) returns (r: Result<(Frame, nat)>)
    ensures r == Decode(data)
  {
    hide FromBigEndian, TakeRecord, TakeRecords;
    if |data| < 7 {
      return Err;
    }
    var cmdType := data[0];
    var topicLen := FromBigEndian(data[1..3]);
    if |data| < 3 + topicLen + 4 {
      return Err;
    }
    var topic := data[3..3 + topicLen];
    if topic == [] {
      topic := DEFAULT_TOPIC;
    }
    var offset := 3 + topicLen;
    var partition := FromBigEndian(data[offset..offset + 4]);
    offset := offset + 4;
    if cmdType == CMD_SINGLE {
      var record := DecodeRecord(data, offset);
      if record.Err? {
        return Err;
      }
      return Ok((Frame(topic, partition, Single(record.value.0)), record.value.1));
    } else if cmdType == CMD_BATCH {
      if |data| < offset + 4 {
        return Err;
      }
      var count := FromBigEndian(data[offset..offset + 4]);
      var records := DecodeRecords(data, offset + 4, count);
      if records.Err? {
        return Err;
      }
      return Ok((Frame(topic, partition, Batch(records.value.0)), records.value.1));
    }
    return Err;
  }

  method DecodeRecords(data: bytes, at: nat, count: nat) returns (r: Result<(seq<KeyValue>, nat)>)
    ensures r == TakeRecords(data, at, count)
  {
    hide TakeRecord;
    var offset := at;
    var records: seq<KeyValue> := [];
    for i := 0 to count
      invariant TakeRecords(data, at, i) == Ok((records, offset))
    {
      var record := DecodeRecord(data, offset);
      if record.Err? {
        TakeRecordsFails(data, at, i + 1, count);
        return Err;
      }
      records := records + [record.value.0];
      offset := record.value.1;
    }
    return Ok((records, offset));
  }

  // ---------- Round trip ----------

  predicate FitsFields(r: KeyValue) { |r.key| < TWO32 && |r.value| < TWO32 }

  predicate BodyFits(body: Body) {
    match body
    case Single(r) => FitsFields(r)
    case Batch(rs) => |rs| < TWO32 && forall i :: 0 <= i < |rs| ==> FitsFields(rs[i])
  }

  /** What the frame's length fields can express; an empty topic is not written as such. */
  predicate Encodable(topic: bytes, partition: int, body: Body) {
    0 < |topic| < TWO16 && 0 <= partition < TWO32 && BodyFits(body)
  }

  function Encode(topic: bytes, partition: int, body: Body): bytes {
    match body
    case Single(r) => SingleFrame(topic, partition, r)
    case Batch(rs) => BatchFrame(topic, partition, rs)
  }

  lemma {:induction false} TakeFieldAt(data: bytes, at: nat, s: bytes)
    requires at + 4 + |s| <= |data| && data[at..at + 4 + |s|] == Field(s) && |s| < TWO32
    ensures TakeField(data, at) == Ok((s, at + 4 + |s|))
  {
    hide U32, FromBigEndian;
    SliceSplit(data, at, at + 4 + |s|, 4);
    assert Field(s)[..4] == U32(|s|) && Field(s)[4..] == s;
    FieldRoundTrip(|s|);
  }

  lemma {:induction false} TakeRecordAt(data: bytes, at: nat, r: KeyValue)
    requires at + |RecordImage(r)| <= |data| && data[at..at + |RecordImage(r)|] == RecordImage(r) && FitsFields(r)
    ensures TakeRecord(data, at) == Ok((r, at + |RecordImage(r)|))
  {
    hide Field, TakeField;
    FieldLength(r.key);
    FieldLength(r.value);
    var k, end := 4 + |r.key|, at + |RecordImage(r)|;
    SliceSplit(data, at, end, k);
    assert RecordImage(r)[..k] == Field(r.key) && RecordImage(r)[k..] == Field(r.value);
    TakeFieldAt(data, at, r.key);
    TakeFieldAt(data, at + k, r.value);
  }

  lemma {:induction false} FieldLength(s: bytes)
    ensures |Field(s)| == 4 + |s|
  {
  }

  lemma {:induction false} TakeRecordsAt(data: bytes, at: nat, rs: seq<KeyValue>, i: nat)
    requires i <= |rs| && forall j :: 0 <= j < |rs| ==> FitsFields(rs[j])
    requires at + |Join(RecordImages(rs))| == |data| && data[at..] == Join(RecordImages(rs))
    ensures TakeRecords(data, at, i) == Ok((rs[..i], at + |Join(RecordImages(rs)[..i])|))
  {
    hide Join, RecordImage, TakeRecord, FitsFields;
    JoinEmpty();
    var images := RecordImages(rs);
    if i > 0 {
      TakeRecordsAt(data, at, rs, i - 1);
      JoinAt(images, i - 1);
      var p, q := |Join(images[..i - 1])|, |Join(images[..i])|;
      assert data[at + p..at + q] == data[at..][p..q];
      TakeRecordAt(data, at + p, rs[i - 1]);
      assert rs[..i] == rs[..i - 1] + [rs[i - 1]];
    }
  }

  lemma {:induction false} TakeTargetAt(data: bytes, kind: byte, topic: bytes, partition: int)
    requires |topic| < TWO16 && 0 <= partition < TWO32
    requires 7 + |topic| <= |data| && data[..7 + |topic|] == Head(kind, topic, partition)
    ensures data[0] == kind && TakeTarget(data) == Ok((TopicOrDefault(topic), partition, 7 + |topic|))
  {
    hide U16, U32, FromBigEndian;
    var head, t := Head(kind, topic, partition), 7 + |topic|;
    assert data[0] == data[..t][0] && data[1..3] == data[..t][1..3] && data[3..3 + |topic|] == data[..t][3..3 + |topic|];
    assert data[3 + |topic|..t] == data[..t][3 + |topic|..t];
    assert head[1..3] == U16(|topic|) && head[3..3 + |topic|] == topic && head[3 + |topic|..t] == U32(ToUint32(partition));
    FieldRoundTrip(|topic|);
    FieldRoundTrip(partition);
  }

  lemma {:induction false} SingleRoundTrip(topic: bytes, partition: int, r: KeyValue)
    requires |topic| < TWO16 && 0 <= partition < TWO32 && BodyFits(Single(r))
    ensures
      var data := SingleFrame(topic, partition, r);
      Decode(data) == Ok((Frame(TopicOrDefault(topic), partition, Single(r)), |data|))
  {
    hide Head, RecordImage, TakeRecord, TakeTarget;
    var data, t := SingleFrame(topic, partition, r), 7 + |topic|;
    HeadLength(CMD_SINGLE, topic, partition);
    assert data[..t] == Head(CMD_SINGLE, topic, partition) && data[t..|data|] == RecordImage(r);
    TakeTargetAt(data, CMD_SINGLE, topic, partition);
    TakeRecordAt(data, t, r);
  }

  lemma {:induction false} HeadLength(kind: byte, topic: bytes, partition: int)
    ensures |Head(kind, topic, partition)| == 7 + |topic|
  {
  }

  lemma {:induction false} BatchRoundTrip(topic: bytes, partition: int, rs: seq<KeyValue>)
    requires |topic| < TWO16 && 0 <= partition < TWO32 && BodyFits(Batch(rs))
    ensures
      var data := BatchFrame(topic, partition, rs);
      Decode(data) == Ok((Frame(TopicOrDefault(topic), partition, Batch(rs)), |data|))
  {
    hide Head, RecordImages, TakeRecords, TakeTarget, Join, U32, FromBigEndian;
    var data, t := BatchFrame(topic, partition, rs), 7 + |topic|;
    HeadLength(CMD_BATCH, topic, partition);
    assert data[..t] == Head(CMD_BATCH, topic, partition) && data[t..t + 4] == U32(|rs|);
    assert data[t + 4..] == Join(RecordImages(rs));
    TakeTargetAt(data, CMD_BATCH, topic, partition);
    FieldRoundTrip(|rs|);
    TakeRecordsAt(data, t + 4, rs, |rs|);
    ImagesWhole(rs);
  }

  lemma {:induction false} ImagesWhole(rs: seq<KeyValue>)
    ensures rs[..|rs|] == rs && RecordImages(rs)[..|rs|] == RecordImages(rs)
  {
  }

  // ---------- Topics too long for their length field ----------

  /** The frame of a long topic is read as one for a prefix of its name, with the next bytes as the partition. */
  lemma {:induction false} LongTopicTarget(topic: bytes, partition: int, body: Body)
    requires |topic| >= TWO16
    ensures
      var data, n := Encode(topic, partition, body), |topic| % 0x1_0000;
      && n + 4 <= |topic| && |data| > 7 + n
      && TakeTarget(data) == Ok((TopicOrDefault(topic[..n]), FromBigEndian(topic[n..n + 4]), 7 + n))
  {
    hide U16, U32, FromBigEndian, RecordImage, Join;
    var data, n := Encode(topic, partition, body), |topic| % 0x1_0000;
    var kind := if body.Single? then CMD_SINGLE else CMD_BATCH;
    var head := Head(kind, topic, partition);
    HeadLength(kind, topic, partition);
    U16Wraps(|topic|);
    assert head <= data && head[1..3] == U16(|topic|);
    assert data[1..3] == head[1..3];
    TopicBytes(data, kind, topic, partition, 0, n);
    TopicBytes(data, kind, topic, partition, n, n + 4);
  }

  /** Bytes i to j of the topic in a frame. */
  lemma {:induction false} TopicBytes(data: bytes, kind: byte, topic: bytes, partition: int, i: nat, j: nat)
    requires Head(kind, topic, partition) <= data && i <= j <= |topic|
    ensures |data| >= 7 + |topic| && data[0] == kind && data[3 + i..3 + j] == topic[i..j]
  {
    hide U16, U32;
    var head := Head(kind, topic, partition);
    assert data[3 + i..3 + j] == head[3 + i..3 + j] == topic[i..j];
  }

  /** 65536 zero bytes: whatever is published under that name decodes as an empty record for the default topic. */
  lemma {:induction false} LongTopicExample(topic: bytes, partition: int, r: KeyValue)
    requires topic == seq(0x1_0000, _ => 0)
    ensures
      var d := Decode(SingleFrame(topic, partition, r));
      d.Ok? && d.value.0 == Frame(DEFAULT_TOPIC, 0, Single(KeyValue([], [])))
  {
    hide U16, U32, RecordImage, Head, FromBigEndian;
    var data := SingleFrame(topic, partition, r);
    LongTopicTarget(topic, partition, Single(r));
    ZeroField(topic[0..4]);
    TopicBytes(data, CMD_SINGLE, topic, partition, 4, 8);
    ZeroField(data[7..11]);
    TopicBytes(data, CMD_SINGLE, topic, partition, 8, 12);
    ZeroField(data[11..15]);
    hide TakeTarget, SingleFrame;
    EmptyField(data, 7);
    EmptyField(data, 11);
  }

  lemma {:induction false} EmptyField(data: bytes, at: nat)
    requires at + 4 <= |data| && FromBigEndian(data[at..at + 4]) == 0
    ensures TakeField(data, at) == Ok(([], at + 4))
  {
    hide FromBigEndian;
    assert data[at + 4..at + 4] == [];
  }

  lemma {:induction false} ZeroField(s: bytes)
    requires s == [0, 0, 0, 0]
    ensures FromBigEndian(s) == 0
  {
    assert s[..3] == [0, 0, 0] && [0, 0, 0][..2] == [0, 0] && [0, 0][..1] == [0] && [0][..0] == [];
    assert FromBigEndian([0]) == 0 && FromBigEndian([0, 0]) == 0 && FromBigEndian([0, 0, 0]) == 0;
  }

  // ---------- Every byte string ----------

  lemma {:induction false} TakeFieldBounds(data: bytes, at: nat)
    ensures TakeField(data, at).Ok? ==>
      var (s, end) := TakeField(data, at).value;
      at < end <= |data| && |s| < TWO32
  {
    hide FromBigEndian;
    if at + 4 <= |data| { FieldBound(data[at..at + 4]); }
  }

  lemma {:induction false} TakeRecordBounds(data: bytes, at: nat)
    ensures TakeRecord(data, at).Ok? ==> at < TakeRecord(data, at).value.1 <= |data| && FitsFields(TakeRecord(data, at).value.0)
  {
    hide TakeField;
    TakeFieldBounds(data, at);
    if TakeField(data, at).Ok? { TakeFieldBounds(data, TakeField(data, at).value.1); }
  }

  lemma {:induction false} TakeRecordsBounds(data: bytes, at: nat, count: nat)
    requires at <= |data|
    ensures TakeRecords(data, at, count).Ok? ==>
      var (rs, end) := TakeRecords(data, at, count).value;
      at <= end <= |data| && forall i :: 0 <= i < |rs| ==> FitsFields(rs[i])
  {
    hide TakeRecord, FitsFields;
    if count > 0 {
      TakeRecordsBounds(data, at, count - 1);
      var before := TakeRecords(data, at, count - 1);
      if before.Ok? { TakeRecordBounds(data, before.value.1); }
    }
  }

  /** Whatever decodes is within the frame's own limits and within the data. */
  lemma {:induction false} DecodeBounds(data: bytes)
    ensures Decode(data).Ok? ==>
      var (f, consumed) := Decode(data).value;
      Encodable(f.topic, f.partition, f.body) && consumed <= |data|
  {
    hide FromBigEndian, TakeRecord, TakeRecords;
    var target := TakeTarget(data);
    if target.Ok? {
      var topicLen := FromBigEndian(data[1..3]);
      FieldBound(data[1..3]);
      FieldBound(data[3 + topicLen..7 + topicLen]);
      TakeRecordBounds(data, 7 + topicLen);
      if 11 + topicLen <= |data| {
        FieldBound(data[7 + topicLen..11 + topicLen]);
        TakeRecordsBounds(data, 11 + topicLen, FromBigEndian(data[7 + topicLen..11 + topicLen]));
      }
    }
  }

  predicate DecodesTo(data: bytes, topic: bytes, partition: int, body: Body) {
    Decode(data).Ok? && Decode(data).value.0.topic == topic
    && Decode(data).value.0.partition == partition && Decode(data).value.0.body == body
  }

  /** The decoding in Apply recovers a command exactly when the frame can express it. */
  lemma {:induction false} RoundTripIff(topic: bytes, partition: int, body: Body)
    ensures DecodesTo(Encode(topic, partition, body), topic, partition, body) <==> Encodable(topic, partition, body)
    ensures Encodable(topic, partition, body) ==>
      Decode(Encode(topic, partition, body)).value.1 == |Encode(topic, partition, body)|
  {
    hide Decode, SingleFrame, BatchFrame;
    DecodeBounds(Encode(topic, partition, body));
    if Encodable(topic, partition, body) {
      match body
      case Single(r) => SingleRoundTrip(topic, partition, r);
      case Batch(rs) => BatchRoundTrip(topic, partition, rs);
    }
  }

  lemma {:induction false} TakeFieldExtends(data: bytes, more: bytes, at: nat)
    ensures TakeField(data, at).Ok? ==> TakeField(data + more, at) == TakeField(data, at)
  {
    hide FromBigEndian;
    if TakeField(data, at).Ok? {
      assert (data + more)[at..at + 4] == data[at..at + 4];
      var n := FromBigEndian(data[at..at + 4]);
      assert (data + more)[at + 4..at + 4 + n] == data[at + 4..at + 4 + n];
    }
  }

  lemma {:induction false} TakeRecordExtends(data: bytes, more: bytes, at: nat)
    ensures TakeRecord(data, at).Ok? ==> TakeRecord(data + more, at) == TakeRecord(data, at)
  {
    hide TakeField;
    TakeFieldExtends(data, more, at);
    if TakeField(data, at).Ok? { TakeFieldExtends(data, more, TakeField(data, at).value.1); }
  }

  lemma {:induction false} TakeRecordsExtends(data: bytes, more: bytes, at: nat, count: nat)
    ensures TakeRecords(data, at, count).Ok? ==> TakeRecords(data + more, at, count) == TakeRecords(data, at, count)
  {
    hide TakeRecord;
    if count > 0 {
      TakeRecordsExtends(data, more, at, count - 1);
      var before := TakeRecords(data, at, count - 1);
      if before.Ok? { TakeRecordExtends(data, more, before.value.1); }
    }
  }

  /** Bytes after a complete frame are ignored. */
  lemma {:induction false} DecodeExtends(data: bytes, more: bytes)
    ensures Decode(data).Ok? ==> Decode(data + more) == Decode(data)
  {
    hide FromBigEndian, TakeRecord, TakeRecords;
    var target := TakeTarget(data);
    if target.Ok? {
      var all, topicLen := data + more, FromBigEndian(data[1..3]);
      assert all[0] == data[0] && all[1..3] == data[1..3] && all[3..3 + topicLen] == data[3..3 + topicLen];
      assert all[3 + topicLen..7 + topicLen] == data[3 + topicLen..7 + topicLen];
      TakeRecordExtends(data, more, 7 + topicLen);
      if 11 + topicLen <= |data| {
        assert all[7 + topicLen..11 + topicLen] == data[7 + topicLen..11 + topicLen];
        TakeRecordsExtends(data, more, 11 + topicLen, FromBigEndian(data[7 + topicLen..11 + topicLen]));
      }
    }
  }

  /** Nothing shorter than what a frame consumes decodes at all. */
  lemma {:induction false} PrefixRejected(data: bytes, k: nat)
    requires Decode(data).Ok? && k < Decode(data).value.1
    ensures k <= |data| && Decode(data[..k]).Err?
  {
    hide Decode;
    DecodeBounds(data);
    DecodeBounds(data[..k]);
    DecodeExtends(data[..k], data[k..]);
    assert data[..k] + data[k..] == data;
  }

  // ---------- Exactly the encodings decode ----------

  lemma {:induction false} TakeFieldInverse(data: bytes, at: nat)
    ensures TakeField(data, at).Ok? ==>
      var (s, end) := TakeField(data, at).value;
      at + 4 <= end <= |data| && data[at..end] == Field(s)
  {
    hide FromBigEndian, BigEndian;
    if TakeField(data, at).Ok? {
      var (s, end) := TakeField(data, at).value;
      BigEndianInverse(data[at..at + 4]);
      assert data[at..end] == data[at..at + 4] + data[at + 4..end];
    }
  }

  lemma {:induction false} TakeRecordInverse(data: bytes, at: nat)
    ensures TakeRecord(data, at).Ok? ==>
      var (r, end) := TakeRecord(data, at).value;
      at <= end <= |data| && data[at..end] == RecordImage(r)
  {
    hide TakeField, Field;
    var key := TakeField(data, at);
    if key.Ok? {
      TakeFieldInverse(data, at);
      TakeFieldInverse(data, key.value.1);
      var value := TakeField(data, key.value.1);
      if value.Ok? {
        assert data[at..value.value.1] == data[at..key.value.1] + data[key.value.1..value.value.1];
      }
    }
  }

  lemma {:induction false} TakeRecordsInverse(data: bytes, at: nat, count: nat)
    requires at <= |data|
    ensures TakeRecords(data, at, count).Ok? ==>
      var (rs, end) := TakeRecords(data, at, count).value;
      at <= end <= |data| && data[at..end] == Join(RecordImages(rs))
  {
    hide TakeRecord, RecordImage, Join;
    JoinEmpty();
    assert RecordImages([]) == [] && data[at..at] == [];
    if count > 0 {
      TakeRecordsInverse(data, at, count - 1);
      var before := TakeRecords(data, at, count - 1);
      if before.Ok? {
        var (rs, mid) := before.value;
        TakeRecordInverse(data, mid);
        var last := TakeRecord(data, mid);
        if last.Ok? {
          var (r, end) := last.value;
          assert data[at..end] == data[at..mid] + data[mid..end];
          assert RecordImages(rs + [r]) == RecordImages(rs) + [RecordImage(r)];
          JoinSnoc(RecordImages(rs), RecordImage(r));
        }
      }
    }
  }

  /** The topic name as it is written in the frame. */
  function WrittenTopic(data: bytes): bytes
    requires TakeTarget(data).Ok?
  {
    data[3..3 + FromBigEndian(data[1..3])]
  }

  lemma {:induction false} TakeTargetInverse(data: bytes)
    requires TakeTarget(data).Ok?
    ensures
      var (topic, partition, at) := TakeTarget(data).value;
      var written := WrittenTopic(data);
      && topic == TopicOrDefault(written) && |written| < TWO16 && partition < TWO32
      && at == 7 + |written| <= |data| && data[..at] == Head(data[0], written, partition)
  {
    hide FromBigEndian, BigEndian, TopicOrDefault;
    var (topic, partition, at) := TakeTarget(data).value;
    FieldBound(data[1..3]);
    BigEndianInverse(data[1..3]);
    FieldBound(data[at - 4..at]);
    BigEndianInverse(data[at - 4..at]);
    assert data[..at] == [data[0]] + data[1..3] + data[3..at - 4] + data[at - 4..at];
  }

  /** What decodes was encoded: the bytes consumed are the frame of what they decode to. */
  lemma {:induction false} DecodeInverse(data: bytes)
    requires Decode(data).Ok?
    ensures
      var (f, n) := Decode(data).value;
      && TakeTarget(data).Ok? && f.topic == TopicOrDefault(WrittenTopic(data)) && |WrittenTopic(data)| < TWO16
      && n <= |data| && data[..n] == Encode(WrittenTopic(data), f.partition, f.body)
  {
    hide TakeTarget, TakeRecord, TakeRecords, WrittenTopic, Head, RecordImages, RecordImage, Join, BigEndian, FromBigEndian, TopicOrDefault;
    TakeTargetInverse(data);
    var (topic, partition, at) := TakeTarget(data).value;
    var n := Decode(data).value.1;
    if data[0] == CMD_SINGLE {
      TakeRecordInverse(data, at);
      assert data[..n] == data[..at] + data[at..n];
    } else {
      BigEndianInverse(data[at..at + 4]);
      TakeRecordsInverse(data, at + 4, FromBigEndian(data[at..at + 4]));
      assert data[..n] == data[..at] + data[at..at + 4] + data[at + 4..n];
    }
  }

  /** A frame of these parts begins the data; an empty topic name stands for "default". */
  ghost predicate BeginsWith(data: bytes, topic: bytes, f: Frame, n: nat) {
    && |topic| < TWO16 && f.partition < TWO32 && BodyFits(f.body)
    && f.topic == (if topic == [] then [100, 101, 102, 97, 117, 108, 116] else topic)
    && n <= |data| && data[..n] == Encode(topic, f.partition, f.body)
  }

  /** Data decode to a command of n bytes exactly when their first n bytes are the encoding of that command. */
  lemma {:induction false} DecodesIff(data: bytes, f: Frame, n: nat)
    ensures Decode(data) == Ok((f, n)) <==> exists topic :: BeginsWith(data, topic, f, n)
  {
    hide Decode, Encode, TakeTarget, BodyFits, WrittenTopic;
    if Decode(data) == Ok((f, n)) {
      DecodeInverse(data);
      DecodeBounds(data);
      assert BeginsWith(data, WrittenTopic(data), f, n);
    }
    forall topic | BeginsWith(data, topic, f, n)
      ensures Decode(data) == Ok((f, n))
    {
      match f.body
      case Single(r) => SingleDecodes(data, topic, f.partition, r, n);
      case Batch(rs) => BatchDecodes(data, topic, f.partition, rs, n);
    }
  }

  lemma {:induction false} SingleDecodes(data: bytes, topic: bytes, partition: nat, r: KeyValue, n: nat)
    requires |topic| < TWO16 && partition < TWO32 && BodyFits(Single(r))
    requires n <= |data| && data[..n] == Encode(topic, partition, Single(r))
    ensures Decode(data) == Ok((Frame(TopicOrDefault(topic), partition, Single(r)), n))
  {
    hide Decode, SingleFrame;
    SingleRoundTrip(topic, partition, r);
    DecodeExtends(data[..n], data[n..]);
    assert data[..n] + data[n..] == data;
  }

  lemma {:induction false} BatchDecodes(data: bytes, topic: bytes, partition: nat, rs: seq<KeyValue>, n: nat)
    requires |topic| < TWO16 && partition < TWO32 && BodyFits(Batch(rs))
    requires n <= |data| && data[..n] == Encode(topic, partition, Batch(rs))
    ensures Decode(data) == Ok((Frame(TopicOrDefault(topic), partition, Batch(rs)), n))
  {
    hide Decode, BatchFrame;
    BatchRoundTrip(topic, partition, rs);
    DecodeExtends(data[..n], data[n..]);
    assert data[..n] + data[n..] == data;
  }
}
