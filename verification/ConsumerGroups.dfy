/**
 The consumer-group offset store (internal/broker/consumer_group.go): the key encoding and its
 parser, the cache over a persistent map, and the two separate steps in which a commit updates them.
 */
module ConsumerGroups {
  import opened Bytes
  import opened Frames

  type int32 = x: int | -0x8000_0000 <= x < 0x8000_0000

  function ToInt32(n: nat): int32
    requires n < 0x1_0000_0000
  {
    if n < 0x8000_0000 then n else n - 0x1_0000_0000
  }

  predicate NulFree(s: bytes) { 0 !in s }

  function OffsetKey(group: bytes, topic: bytes, partition: int32): bytes {
    group + [0] + topic + [0] + U32(ToUint32(partition))
  }

  /** strings.IndexByte(s, 0). */
  function IndexOfNul(s: bytes): (r: Option<nat>)
    ensures r.Some? ==> r.value < |s| && s[r.value] == 0 && NulFree(s[..r.value])
    ensures r.None? ==> NulFree(s)
  {
    if s == [] then None
    else if s[0] == 0 then Some(0)
    else
      var rest := IndexOfNul(s[1..]);
      if rest.None? then assert s == [s[0]] + s[1..]; None
      else assert s[..rest.value + 1] == [s[0]] + s[1..][..rest.value]; Some(rest.value + 1)
  }

  datatype Triple = Triple(group: bytes, topic: bytes, partition: int32)

  function KeyOf(t: Triple): bytes { OffsetKey(t.group, t.topic, t.partition) }

  /** The parse in Snapshot: split at the first two NUL bytes, then exactly four bytes. */
  function ParseKey(key: bytes): Option<Triple> {
    var first := IndexOfNul(key);
    if first.None? then None else
      var second := IndexOfNul(key[first.value + 1..]);
      if second.None? then None else
        var split := second.value + first.value + 1;
        var partitionBytes := key[split + 1..];
        if |partitionBytes| != 4 then None else
          FieldBound(partitionBytes);
          Some(Triple(key[..first.value], key[first.value + 1..split], ToInt32(FromBigEndian(partitionBytes))))
  }

  // ---------- The key codec ----------

  lemma {:induction false} IndexAfter(s: bytes, rest: bytes)
    requires NulFree(s)
    ensures IndexOfNul(s + [0] + rest) == Some(|s|)
  {
    var k := s + [0] + rest;
    var r := IndexOfNul(k);
    assert k[|s|] == 0;
    assert r.Some?;
    assert forall j :: 0 <= j < |s| ==> k[j] in s;
    assert forall n :: |s| < n <= |k| ==> k[..n][|s|] == 0;
  }

  lemma {:induction false} PartitionRoundTrip(p: int32)
    ensures FromBigEndian(U32(ToUint32(p))) == ToUint32(p) && ToInt32(ToUint32(p)) == p
  {
    hide U32, FromBigEndian;
    FieldRoundTrip(ToUint32(p));
  }

  /** Snapshot's parse inverts the key encoding, although the partition bytes may be zero. */
  lemma {:induction false} ParseInvertsKey(t: Triple)
    requires NulFree(t.group) && NulFree(t.topic)
    ensures ParseKey(KeyOf(t)) == Some(t)
  {
    hide U32, FromBigEndian, IndexOfNul, ToInt32, ToUint32;
    var tail := U32(ToUint32(t.partition));
    var key := KeyOf(t);
    assert key == t.group + [0] + (t.topic + [0] + tail);
    IndexAfter(t.group, t.topic + [0] + tail);
    assert key[|t.group| + 1..] == t.topic + [0] + tail;
    IndexAfter(t.topic, tail);
    assert key[|t.group| + 1 + |t.topic| + 1..] == tail;
    assert key[..|t.group|] == t.group && key[|t.group| + 1..|t.group| + 1 + |t.topic|] == t.topic;
    PartitionRoundTrip(t.partition);
  }

  lemma {:induction false} ParsedIsNulFree(key: bytes)
    ensures ParseKey(key).Some? ==> NulFree(ParseKey(key).value.group) && NulFree(ParseKey(key).value.topic)
  {
    hide FromBigEndian;
    var first := IndexOfNul(key);
    if first.Some? {
      var rest := key[first.value + 1..];
      var second := IndexOfNul(rest);
      if second.Some? {
        assert key[first.value + 1..second.value + first.value + 1] == rest[..second.value];
      }
    }
  }

  /** A key that parses is the key of what it parses to. */
  lemma {:induction false} ParseIsExact(key: bytes)
    ensures ParseKey(key).Some? ==> KeyOf(ParseKey(key).value) == key
  {
    hide FromBigEndian, U32, ToUint32, ToInt32, IndexOfNul, NulFree;
    if ParseKey(key).Some? {
      var first := IndexOfNul(key).value;
      var split := IndexOfNul(key[first + 1..]).value + first + 1;
      var tail := key[split + 1..];
      Rebuilt(key, first, split);
      PartitionBytesRoundTrip(tail);
    }
  }

  lemma {:induction false} Rebuilt(key: bytes, first: nat, split: nat)
    requires first < split < |key| && key[first] == 0 && key[split] == 0
    ensures key == key[..first] + [0] + key[first + 1..split] + [0] + key[split + 1..]
  {
  }

  lemma {:induction false} PartitionBytesRoundTrip(s: bytes)
    requires |s| == 4
    ensures FromBigEndian(s) < 0x1_0000_0000 && U32(ToUint32(ToInt32(FromBigEndian(s)))) == s
  {
    hide FromBigEndian, BigEndian;
    FieldBound(s);
    BigEndianInverse(s);
    assert ToUint32(ToInt32(FromBigEndian(s))) == FromBigEndian(s);
  }

  /** A triple is recovered from its key exactly when group and topic contain no NUL byte. */
  lemma {:induction false} KeyRoundTripIff(t: Triple)
    ensures ParseKey(KeyOf(t)) == Some(t) <==> NulFree(t.group) && NulFree(t.topic)
  {
    hide ParseKey, OffsetKey;
    ParsedIsNulFree(KeyOf(t));
    if NulFree(t.group) && NulFree(t.topic) { ParseInvertsKey(t); }
  }

  /** Only a NUL-free triple can have the key of a NUL-free triple, and then it is that triple. */
  lemma {:induction false} NoAlias(stored: Triple, asked: Triple)
    requires NulFree(stored.group) && NulFree(stored.topic) && KeyOf(stored) == KeyOf(asked)
    ensures asked == stored
  {
    hide U32, ToUint32;
    var k := KeyOf(stored);
    var body := stored.group + [0] + stored.topic;
    assert k[..|k| - 5] == body;
    assert k[..|k| - 5] == asked.group + [0] + asked.topic;
    var g := |asked.group|;
    assert body[g] == 0;
    assert forall j :: 0 <= j < |stored.group| ==> body[j] in stored.group;
    assert forall j :: |stored.group| < j < |body| ==> body[j] in stored.topic;
    assert g == |stored.group|;
    assert asked.group == body[..g] == stored.group;
    assert asked.topic == body[g + 1..] == stored.topic;
    assert U32(ToUint32(stored.partition)) == k[|k| - 4..] == U32(ToUint32(asked.partition));
    PartitionRoundTrip(stored.partition);
    PartitionRoundTrip(asked.partition);
  }

  // ---------- The store ----------

  datatype GroupOffset = GroupOffset(triple: Triple, offset: nat)

  /** The cache that load rebuilds; a stored value must be eight bytes. */
  predicate Loadable(db: map<bytes, bytes>) {
    forall k :: k in db ==> |db[k]| == 8
  }

  function Loaded(db: map<bytes, bytes>): map<bytes, nat> {
    map k | k in db :: FromBigEndian(db[k])
  }

  /** The listing that Snapshot gives of a cache: one entry for each key that parses. */
  ghost predicate Lists(result: seq<GroupOffset>, offsets: map<bytes, nat>) {
    && (forall x :: x in result <==>
          NulFree(x.triple.group) && NulFree(x.triple.topic)
          && KeyOf(x.triple) in offsets && offsets[KeyOf(x.triple)] == x.offset)
    && (forall i, j :: 0 <= i < j < |result| ==> result[i].triple != result[j].triple)
  }

  class Store {
    var db: map<bytes, bytes>
    var offsets: map<bytes, nat>

    constructor (db: map<bytes, bytes>)
      ensures this.db == db && offsets == map[]
    {
      this.db, offsets := db, map[];
    }

    /** Reads every persisted offset into the cache. */
    method Load() returns (ok: bool)
      requires offsets == map[]
      modifies this`offsets
      ensures ok <==> Loadable(db)
      ensures ok ==> offsets == Loaded(db)
    {
      hide FromBigEndian;
      var rest := db.Keys;
      while rest != {}
        invariant rest <= db.Keys && offsets.Keys == db.Keys - rest
        invariant forall k :: k in offsets ==> |db[k]| == 8 && offsets[k] == FromBigEndian(db[k])
        decreases |rest|
      {
        var k :| k in rest;
        if |db[k]| != 8 {
          return false;
        }
        offsets := offsets[k := FromBigEndian(db[k])];
        rest := rest - {k};
      }
      return true;
    }

    /** Persists, then publishes to the cache; a NUL byte in group or topic is refused. */
    method CommitOffset(t: Triple, offset: nat) returns (r: Result<()>)
      requires offset < TWO64
      modifies this
      ensures r.Ok? <==> NulFree(t.group) && NulFree(t.topic)
      ensures r.Ok? ==> db == old(db)[KeyOf(t) := U64(offset)] && offsets == old(offsets)[KeyOf(t) := offset]
      ensures r.Err? ==> db == old(db) && offsets == old(offsets)
    {
      if !NulFree(t.group) || !NulFree(t.topic) {
        return Err;
      }
      var key := OffsetKey(t.group, t.topic, t.partition);
      db := db[key := U64(offset)];
      offsets := offsets[key := offset];
      return Ok(());
    }

    /** The cached offset, or zero. */
    method FetchOffset(t: Triple) returns (offset: nat)
      ensures offset == if KeyOf(t) in offsets then offsets[KeyOf(t)] else 0
    {
      var key := OffsetKey(t.group, t.topic, t.partition);
      return if key in offsets then offsets[key] else 0;
    }

    /** Lists the cache, skipping keys that do not parse. */
    method Snapshot() returns (result: seq<GroupOffset>)
      ensures Lists(result, offsets)
    {
      hide ParseKey, OffsetKey;
      result := [];
      var rest := offsets.Keys;
      while rest != {}
        invariant rest <= offsets.Keys
        invariant forall x :: x in result <==> ParsedFrom(x, offsets) && KeyOf(x.triple) !in rest
        invariant forall i, j :: 0 <= i < j < |result| ==> result[i].triple != result[j].triple
        decreases |rest|
      {
        var key :| key in rest;
        rest := rest - {key};
        var t := ParseKey(key);
        ParsedOnly(key, offsets);
        if t.None? {
          continue;
        }
        forall i | 0 <= i < |result|
          ensures result[i].triple != t.value
        {
          assert result[i] in result;
        }
        result := result + [GroupOffset(t.value, offsets[key])];
      }
      ParsedIsListed(offsets);
    }
  }

  ghost predicate ParsedFrom(x: GroupOffset, offsets: map<bytes, nat>) {
    && KeyOf(x.triple) in offsets && offsets[KeyOf(x.triple)] == x.offset
    && ParseKey(KeyOf(x.triple)) == Some(x.triple)
  }

  lemma {:induction false} ParsedOnly(key: bytes, offsets: map<bytes, nat>)
    requires key in offsets
    ensures forall x :: ParsedFrom(x, offsets) && KeyOf(x.triple) == key ==> ParseKey(key) == Some(x.triple)
    ensures ParseKey(key).Some? ==> KeyOf(ParseKey(key).value) == key
    ensures ParseKey(key).Some? ==> ParsedFrom(GroupOffset(ParseKey(key).value, offsets[key]), offsets)
  {
    hide ParseKey, OffsetKey;
    ParseIsExact(key);
  }

  lemma {:induction false} ParsedIsListed(offsets: map<bytes, nat>)
    ensures forall x :: ParsedFrom(x, offsets) <==>
      NulFree(x.triple.group) && NulFree(x.triple.topic)
      && KeyOf(x.triple) in offsets && offsets[KeyOf(x.triple)] == x.offset
  {
    hide ParseKey, OffsetKey;
    forall x: GroupOffset
      ensures ParseKey(KeyOf(x.triple)) == Some(x.triple) <==> NulFree(x.triple.group) && NulFree(x.triple.topic)
    {
      KeyRoundTripIff(x.triple);
    }
  }

  // ---------- Commit histories ----------

  predicate Accepted(t: Triple) { NulFree(t.group) && NulFree(t.topic) }

  function CacheAfter(commits: seq<GroupOffset>): map<bytes, nat> {
    if commits == [] then map[] else
      var before, last := CacheAfter(commits[..|commits| - 1]), commits[|commits| - 1];
      if Accepted(last.triple) then before[KeyOf(last.triple) := last.offset] else before
  }

  /** The offset of the last accepted commit for a triple. */
  function LastCommit(commits: seq<GroupOffset>, t: Triple): Option<nat> {
    if commits == [] then None
    else if Accepted(t) && commits[|commits| - 1].triple == t then Some(commits[|commits| - 1].offset)
    else LastCommit(commits[..|commits| - 1], t)
  }

  /** A lookup finds the last commit of exactly the triple asked for; with a NUL byte it finds nothing. */
  lemma {:induction false} FetchIsLastCommit(commits: seq<GroupOffset>, t: Triple)
    ensures KeyOf(t) in CacheAfter(commits) <==> LastCommit(commits, t).Some?
    ensures KeyOf(t) in CacheAfter(commits) ==> LastCommit(commits, t) == Some(CacheAfter(commits)[KeyOf(t)])
    ensures !Accepted(t) ==> KeyOf(t) !in CacheAfter(commits)
  {
    hide OffsetKey, NulFree;
    if commits != [] {
      var n := |commits| - 1;
      FetchIsLastCommit(commits[..n], t);
      var last := commits[n].triple;
      if Accepted(last) && KeyOf(last) == KeyOf(t) {
        NoAlias(last, t);
      }
    }
  }

  /** After any history, a listing of the cache shows each committed triple once, with its last offset. */
  lemma {:induction false} SnapshotIsHistory(commits: seq<GroupOffset>, result: seq<GroupOffset>, x: GroupOffset)
    requires Lists(result, CacheAfter(commits))
    ensures x in result <==> LastCommit(commits, x.triple) == Some(x.offset)
  {
    hide OffsetKey, CacheAfter, LastCommit;
    FetchIsLastCommit(commits, x.triple);
  }

  /** A store after a list of commits: the cache is theirs, and load would rebuild it from the database. */
  method Replay(commits: seq<GroupOffset>) returns (store: Store)
    requires forall i :: 0 <= i < |commits| ==> commits[i].offset < TWO64
    ensures fresh(store) && store.offsets == CacheAfter(commits)
    ensures Loadable(store.db) && Loaded(store.db) == store.offsets
  {
    hide U64, FromBigEndian, OffsetKey, NulFree;
    store := new Store(map[]);
    for n := 0 to |commits|
      invariant fresh(store) && store.offsets == CacheAfter(commits[..n])
      invariant Loadable(store.db) && Loaded(store.db) == store.offsets
    {
      assert commits[..n + 1][..n] == commits[..n];
      FieldRoundTrip(commits[n].offset);
      var _ := store.CommitOffset(commits[n].triple, commits[n].offset);
    }
    assert commits[..|commits|] == commits;
  }

  /** A lookup gives the last accepted commit of the triple, or zero, after a restart as before it. */
  method ReplayThenFetch(commits: seq<GroupOffset>, t: Triple, restart: bool) returns (offset: nat)
    requires forall i :: 0 <= i < |commits| ==> commits[i].offset < TWO64
    ensures offset == if LastCommit(commits, t).Some? then LastCommit(commits, t).value else 0
  {
    hide OffsetKey, NulFree, CacheAfter, LastCommit;
    var store := Replay(commits);
    if restart {
      store := new Store(store.db);
      var _ := store.Load();
    }
    FetchIsLastCommit(commits, t);
    offset := store.FetchOffset(t);
  }

  // ---------- Interleaved commits ----------

  datatype Commit = Commit(key: bytes, offset: nat)

  /** Commits that have persisted but not yet published are in flight, each under its own number. */
  datatype State = State(db: map<bytes, bytes>, cache: map<bytes, nat>, inFlight: map<nat, Commit>, persisted: set<Commit>)

  datatype Action =
    | Persist(id: nat, commit: Commit)
    | Publish(id: nat)
    | Restart

  const INITIAL: State := State(map[], map[], map[], {})

  predicate Enabled(s: State, a: Action) {
    match a
    case Persist(id, c) => id !in s.inFlight && c.offset < TWO64
    case Publish(id) => id in s.inFlight
    case Restart => true
  }

  function Do(s: State, a: Action): State
    requires Enabled(s, a)
  {
    match a
    case Persist(id, c) =>
      s.(db := s.db[c.key := U64(c.offset)], inFlight := s.inFlight[id := c], persisted := s.persisted + {c})
    case Publish(id) =>
      var c := s.inFlight[id];
      s.(cache := s.cache[c.key := c.offset], inFlight := s.inFlight - {id})
    case Restart =>
      s.(cache := Loaded(s.db), inFlight := map[])
  }

  /** The states of a run, in order. */
  ghost predicate IsRun(states: seq<State>, actions: seq<Action>) {
    && |states| == |actions| + 1 && states[0] == INITIAL
    && forall i :: 0 <= i < |actions| ==> Enabled(states[i], actions[i]) && states[i + 1] == Do(states[i], actions[i])
  }

  /** No commit persists while another one for the same key is in flight. */
  ghost predicate NoOverlap(s: State, a: Action) {
    a.Persist? ==> forall id :: id in s.inFlight ==> s.inFlight[id].key != a.commit.key
  }

  predicate Busy(s: State, key: bytes) {
    exists id :: id in s.inFlight && s.inFlight[id].key == key
  }

  /** Every value anywhere in the store was persisted by some commit. */
  ghost predicate PersistedFirst(s: State) {
    && (forall k :: k in s.db ==> |s.db[k]| == 8 && Commit(k, FromBigEndian(s.db[k])) in s.persisted)
    && (forall k :: k in s.cache ==> Commit(k, s.cache[k]) in s.persisted)
    && (forall id :: id in s.inFlight ==> s.inFlight[id] in s.persisted)
  }

  lemma {:induction false} PersistedFirstStep(s: State, a: Action)
    requires PersistedFirst(s) && Enabled(s, a)
    ensures PersistedFirst(Do(s, a))
  {
    hide U64, FromBigEndian;
    if a.Persist? { FieldRoundTrip(a.commit.offset); }
  }

  /** In every reachable state, overlapping commits or not, every cached value was persisted first. */
  lemma {:induction false} CacheIsPersistedFirst(states: seq<State>, actions: seq<Action>, i: nat)
    requires IsRun(states, actions) && i < |states|
    ensures PersistedFirst(states[i])
  {
    hide Do, Enabled;
    if i > 0 {
      CacheIsPersistedFirst(states, actions, i - 1);
      PersistedFirstStep(states[i - 1], actions[i - 1]);
    } else {
      InitialIsPersistedFirst();
    }
  }

  lemma {:induction false} InitialIsPersistedFirst()
    ensures PersistedFirst(INITIAL) && InStep(INITIAL)
  {
  }

  /** Cache and database agree on a key. */
  ghost predicate Agree(s: State, k: bytes) {
    && (k in s.cache <==> k in s.db)
    && (k in s.db ==> s.db[k] == U64(s.cache[k]) && s.cache[k] == FromBigEndian(s.db[k]))
  }

  /** With at most one commit in flight per key, idle keys agree and a busy key's database value is its commit's. */
  ghost predicate InStep(s: State) {
    && (forall k :: !Busy(s, k) ==> Agree(s, k))
    && (forall id :: id in s.inFlight ==> s.inFlight[id].offset < TWO64 && s.inFlight[id].key in s.db)
    && (forall id :: id in s.inFlight ==> s.db[s.inFlight[id].key] == U64(s.inFlight[id].offset))
    && (forall i, j :: i in s.inFlight && j in s.inFlight && i != j ==> s.inFlight[i].key != s.inFlight[j].key)
  }

  lemma {:induction false} InStepStep(s: State, a: Action)
    requires PersistedFirst(s) && InStep(s) && Enabled(s, a) && NoOverlap(s, a)
    ensures InStep(Do(s, a))
  {
    hide U64, FromBigEndian;
    var t := Do(s, a);
    match a
    case Persist(id, c) =>
      forall k | !Busy(t, k)
        ensures Agree(t, k)
      {
        assert t.inFlight[id].key == c.key;
        assert !Busy(s, k) by {
          forall other | other in s.inFlight
            ensures s.inFlight[other].key != k
          {
            assert t.inFlight[other] == s.inFlight[other];
          }
        }
      }
    case Publish(id) =>
      var c := s.inFlight[id];
      FieldRoundTrip(c.offset);
      forall k | !Busy(t, k)
        ensures Agree(t, k)
      {
        if k != c.key {
          assert !Busy(s, k) by {
            forall other | other in s.inFlight
              ensures s.inFlight[other].key != k
            {
              if other != id { assert t.inFlight[other] == s.inFlight[other]; }
            }
          }
        }
      }
    case Restart =>
      forall k
        ensures Agree(t, k)
      {
        if k in s.db { StoredIsEncoded(s.db[k]); }
      }
  }

  lemma {:induction false} StoredIsEncoded(v: bytes)
    requires |v| == 8
    ensures v == U64(FromBigEndian(v))
  {
    BigEndianInverse(v);
  }

  /**
   In every run where commits to the same key do not overlap, cache and database agree on each key
   with no commit in flight, and with none in flight at all load would rebuild exactly the cache.
   */
  lemma {:induction false} CacheAgrees(states: seq<State>, actions: seq<Action>, i: nat)
    requires IsRun(states, actions) && i < |states|
    requires forall j :: 0 <= j < |actions| ==> NoOverlap(states[j], actions[j])
    ensures InStep(states[i])
    ensures states[i].inFlight == map[] ==> Loadable(states[i].db) && states[i].cache == Loaded(states[i].db)
  {
    hide Do, Enabled, NoOverlap, PersistedFirst, FromBigEndian, U64;
    if i > 0 {
      CacheAgrees(states, actions, i - 1);
      CacheIsPersistedFirst(states, actions, i - 1);
      InStepStep(states[i - 1], actions[i - 1]);
    } else {
      InitialIsPersistedFirst();
    }
    CacheIsPersistedFirst(states, actions, i);
    if states[i].inFlight == map[] { IdleIsLoaded(states[i]); }
  }

  lemma {:induction false} IdleIsLoaded(s: State)
    requires PersistedFirst(s) && InStep(s) && s.inFlight == map[]
    ensures Loadable(s.db) && s.cache == Loaded(s.db)
  {
    hide FromBigEndian, U64;
    forall k
      ensures k in s.cache <==> k in s.db
      ensures k in s.db ==> s.cache[k] == FromBigEndian(s.db[k])
    {
      assert Agree(s, k);
    }
  }

  // ---------- Overlapping commits ----------

  /** What reachable states know of commits in flight, overlapping or not. */
  ghost predicate InFlightStored(s: State) {
    forall id :: id in s.inFlight ==> s.inFlight[id].offset < TWO64 && s.inFlight[id].key in s.db
  }

  lemma {:induction false} ReachableStored(states: seq<State>, actions: seq<Action>, i: nat)
    requires IsRun(states, actions) && i < |states|
    ensures InFlightStored(states[i])
  {
    hide U64;
    if i > 0 { ReachableStored(states, actions, i - 1); }
  }

  /** The state after publishing these commits in this order, when each is in flight in its turn. */
  function AfterPublishes(s: State, ids: seq<nat>): Option<State>
    decreases ids
  {
    if ids == [] then Some(s)
    else if ids[0] in s.inFlight then AfterPublishes(Do(s, Publish(ids[0])), ids[1..])
    else None
  }

  /** An order of publishing that leaves no commit of the key in flight. */
  predicate Drains(s: State, ids: seq<nat>, key: bytes) {
    AfterPublishes(s, ids).Some? && !Busy(AfterPublishes(s, ids).value, key)
  }

  /** Whichever way the commits in flight are published, cache and database agree on the key in the end. */
  ghost predicate EndsInAgreement(s: State, key: bytes) {
    forall ids :: Drains(s, ids, key) ==> Agree(AfterPublishes(s, ids).value, key)
  }

  /** Every commit of the key in flight carries the value in the database. */
  ghost predicate AllCurrent(s: State, key: bytes) {
    forall id :: id in s.inFlight && s.inFlight[id].key == key ==>
      key in s.db && s.db[key] == U64(s.inFlight[id].offset)
  }

  /** While all commits of a key carry the database value, publishing any of them makes the key agree. */
  lemma {:induction false} PublishCurrent(s: State, id: nat, key: bytes)
    requires InFlightStored(s) && AllCurrent(s, key) && id in s.inFlight
    ensures
      var t := Do(s, Publish(id));
      && InFlightStored(t) && AllCurrent(t, key)
      && (Agree(s, key) || s.inFlight[id].key == key ==> Agree(t, key))
      && (s.inFlight[id].key != key ==> (Busy(t, key) <==> Busy(s, key)))
  {
    hide U64, FromBigEndian;
    var t := Do(s, Publish(id));
    FieldRoundTrip(s.inFlight[id].offset);
    if s.inFlight[id].key != key && Busy(s, key) {
      var other :| other in s.inFlight && s.inFlight[other].key == key;
      assert t.inFlight[other].key == key;
    }
    if Busy(t, key) {
      var other :| other in t.inFlight && t.inFlight[other].key == key;
      assert s.inFlight[other].key == key;
    }
  }

  lemma {:induction false} DrainCurrent(s: State, ids: seq<nat>, key: bytes)
    requires InFlightStored(s) && AllCurrent(s, key) && Drains(s, ids, key)
    requires Busy(s, key) || Agree(s, key)
    ensures Agree(AfterPublishes(s, ids).value, key)
    decreases ids
  {
    hide InFlightStored, AllCurrent, Agree, Busy, Do;
    if ids != [] {
      PublishCurrent(s, ids[0], key);
      DrainCurrent(Do(s, Publish(ids[0])), ids[1..], key);
    }
  }

  /** Publishing all other commits of its key first leaves this commit's offset in the cache. */
  lemma {:induction false} PublishedLast(s: State, id: nat) returns (ids: seq<nat>)
    requires id in s.inFlight
    ensures
      var c := s.inFlight[id];
      Drains(s, ids, c.key)
      && (var t := AfterPublishes(s, ids).value; t.db == s.db && c.key in t.cache && t.cache[c.key] == c.offset)
    decreases s.inFlight.Keys
  {
    var c := s.inFlight[id];
    if other :| other in s.inFlight && other != id && s.inFlight[other].key == c.key {
      var rest := PublishedLast(Do(s, Publish(other)), id);
      ids := [other] + rest;
    } else {
      ids := [id];
      assert ids[1..] == [];
    }
  }

  /**
   From every reachable state, overlapping commits or not: whatever the order in which the commits of
   a key are published, cache and database agree in the end, exactly when every one of them carries
   the value in the database, or, with none in flight, when they agree already.
   */
  lemma {:induction false} DrainAgreesIff(states: seq<State>, actions: seq<Action>, i: nat, key: bytes)
    requires IsRun(states, actions) && i < |states|
    ensures EndsInAgreement(states[i], key) <==>
      if Busy(states[i], key) then AllCurrent(states[i], key) else Agree(states[i], key)
  {
    hide Do, Enabled, Agree, Busy;
    var s := states[i];
    ReachableStored(states, actions, i);
    if EndsInAgreement(s, key) {
      if Busy(s, key) { AgreementNeedsCurrent(s, key); } else { assert Drains(s, [], key); }
    } else {
      var ids :| Drains(s, ids, key) && !Agree(AfterPublishes(s, ids).value, key);
      if AllCurrent(s, key) && (Busy(s, key) || Agree(s, key)) { DrainCurrent(s, ids, key); }
      if !Busy(s, key) { IdleIsCurrent(s, key); }
    }
  }

  lemma {:induction false} IdleIsCurrent(s: State, key: bytes)
    requires !Busy(s, key)
    ensures AllCurrent(s, key)
  {
  }

  lemma {:induction false} AgreementNeedsCurrent(s: State, key: bytes)
    requires EndsInAgreement(s, key)
    ensures AllCurrent(s, key)
  {
    hide Do, U64, FromBigEndian, Busy;
    forall id | id in s.inFlight && s.inFlight[id].key == key
      ensures key in s.db && s.db[key] == U64(s.inFlight[id].offset)
    {
      var ids := PublishedLast(s, id);
      assert Agree(AfterPublishes(s, ids).value, key);
    }
  }

  /**
   Whenever two commits of one key with different offsets are in flight, some order of publishing
   ends with nothing of the key in flight and a cache that differs from the database.
   */
  lemma {:induction false} OverlapCanDisagree(states: seq<State>, actions: seq<Action>, i: nat, x: nat, y: nat)
    requires IsRun(states, actions) && i < |states|
    requires x in states[i].inFlight && y in states[i].inFlight
    requires states[i].inFlight[x].key == states[i].inFlight[y].key
    requires states[i].inFlight[x].offset != states[i].inFlight[y].offset
    ensures
      var s, key := states[i], states[i].inFlight[x].key;
      exists ids :: Drains(s, ids, key) && !Agree(AfterPublishes(s, ids).value, key)
  {
    hide Do, Enabled, Agree, Drains, U64, FromBigEndian, IsRun;
    var s, key := states[i], states[i].inFlight[x].key;
    ReachableStored(states, actions, i);
    DrainAgreesIff(states, actions, i, key);
    FieldRoundTrip(s.inFlight[x].offset);
    FieldRoundTrip(s.inFlight[y].offset);
    assert Busy(s, key);
  }

  /** Such a state is reached by two commits, and published in reverse they end in disagreement. */
  lemma {:induction false} OverlapIsReachable(key: bytes)
    ensures
      var first, second := Persist(0, Commit(key, 1)), Persist(1, Commit(key, 2));
      var s1 := Do(INITIAL, first);
      var s2 := Do(s1, second);
      var end := State(map[key := U64(2)], map[key := 1], map[], {Commit(key, 1), Commit(key, 2)});
      && IsRun([INITIAL, s1, s2], [first, second])
      && s2.inFlight == map[0 := Commit(key, 1), 1 := Commit(key, 2)]
      && AfterPublishes(s2, [1, 0]) == Some(end) && !Agree(end, key)
  {
    hide U64, FromBigEndian, AfterPublishes;
    FieldRoundTrip(2);
    var s2 := Do(Do(INITIAL, Persist(0, Commit(key, 1))), Persist(1, Commit(key, 2)));
    PublishTwo(s2, 1, 0);
    var s3 := Do(s2, Publish(1));
    assert s3.inFlight == map[0 := Commit(key, 1)];
    var s4 := Do(s3, Publish(0));
    assert s4.inFlight == map[] && s4.db == map[key := U64(2)] && s4.cache == map[key := 1];
    assert s4.persisted == {Commit(key, 1), Commit(key, 2)};
  }

  lemma {:induction false} PublishTwo(s: State, x: nat, y: nat)
    requires x != y && x in s.inFlight && y in s.inFlight
    ensures AfterPublishes(s, [x, y]) == Some(Do(Do(s, Publish(x)), Publish(y)))
  {
    var t := Do(s, Publish(x));
    assert [x, y][1..] == [y] && [y][1..] == [];
    assert AfterPublishes(t, [y]) == AfterPublishes(Do(t, Publish(y)), []);
  }
}
