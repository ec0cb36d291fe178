/**
  The token denylist (internal/identity/revocation/store.go): a persisted bucket mirrored by an
  in-memory cache.
 */
module Revocation {
  import opened Hashing
  import opened Options

  datatype Entry = Entry(jti: string, reason: string, revokedAt: Option<int>, revokedBy: string, expiresAt: Option<int>) {
    /** Entries without an expiry are kept for ever. */
    predicate ExpiredBy(now: int) {
      expiresAt.Some? && expiresAt.value < now
    }
  }

  datatype Codec = Codec(encode: Entry -> Option<Bytes>, decode: Bytes -> Option<Entry>) {
    ghost predicate RoundTrips() {
      forall e {:trigger encode(e)} :: encode(e).Some? ==> decode(encode(e).value) == Some(e)
    }
  }

  type Bucket = map<string, Bytes>

  /** The bucket and, while the store is open, its cache. */
  datatype State = State(bucket: Bucket, cache: Option<set<string>>)

  /** Each transaction commits or fails; a failed open leaves no usable store. */
  datatype Op = Revoke(entry: Entry, clock: int, commits: bool) | Collect(now: int, scans: bool, commits: bool) | Reopen(commits: bool)

  function Stamped(e: Entry, clock: int): Entry {
    if e.revokedAt.Some? then e else e.(revokedAt := Some(clock))
  }

  ghost predicate Decodable(codec: Codec, bucket: Bucket) {
    forall k :: k in bucket ==> codec.decode(bucket[k]).Some?
  }

  /** The entries that a collection at this time removes. */
  ghost predicate Expired(codec: Codec, bucket: Bucket, k: string, now: int) {
    k in bucket && codec.decode(bucket[k]).Some? && codec.decode(bucket[k]).value.ExpiredBy(now)
  }

  ghost function ExpiredKeys(codec: Codec, bucket: Bucket, now: int): set<string> {
    set k | k in bucket && Expired(codec, bucket, k, now)
  }

  ghost predicate Step(codec: Codec, s: State, op: Op, s': State) {
    match op
    case Revoke(entry, clock, commits) =>
      var data := codec.encode(Stamped(entry, clock));
      && s.cache.Some?
      && s' == if entry.jti == "" || entry.jti in s.cache.value || data.None? || !commits then s
               else State(if entry.jti in s.bucket then s.bucket else s.bucket[entry.jti := data.value],
                          Some(s.cache.value + {entry.jti}))
    case Collect(now, scans, commits) =>
      && s.cache.Some?
      && s' == if !scans || !Decodable(codec, s.bucket) || !commits then s
               else var gone := ExpiredKeys(codec, s.bucket, now); State(s.bucket - gone, Some(s.cache.value - gone))
    case Reopen(commits) =>
      s' == State(s.bucket, if commits then Some(s.bucket.Keys) else None)
  }

  ghost predicate IsRun(codec: Codec, states: seq<State>, ops: seq<Op>) {
    && |states| == |ops| + 1 && states[0] == State(map[], None)
    && forall i :: 0 <= i < |ops| ==> Step(codec, states[i], ops[i], states[i + 1])
  }

  /** The cache mirrors the bucket, and every record is filed under its own token. */
  ghost predicate Mirrored(codec: Codec, s: State) {
    && (s.cache.Some? ==> s.cache.value == s.bucket.Keys)
    && forall k :: k in s.bucket ==> k != "" && codec.decode(s.bucket[k]).Some? && codec.decode(s.bucket[k]).value.jti == k
  }

  lemma {:induction false} StepMirrors(codec: Codec, s: State, op: Op, s': State)
    requires codec.RoundTrips() && Mirrored(codec, s) && Step(codec, s, op, s')
    ensures Mirrored(codec, s')
  {}

  lemma {:induction false} RunMirrors(codec: Codec, states: seq<State>, ops: seq<Op>, i: nat)
    requires codec.RoundTrips() && IsRun(codec, states, ops) && i < |states|
    ensures Mirrored(codec, states[i])
    decreases i
  {
    if i > 0 {
      RunMirrors(codec, states, ops, i - 1);
      assert Step(codec, states[i - 1], ops[i - 1], states[i]);
      hide Step, Mirrored;
      StepMirrors(codec, states[i - 1], ops[i - 1], states[i]);
    }
  }

  predicate IsRevoked(cache: set<string>, jti: string) {
    jti != "" && jti in cache
  }

  /** After every step the cache answers as the persisted bucket would. */
  lemma {:induction false} AnswersMatchBucket(codec: Codec, states: seq<State>, ops: seq<Op>, i: nat, jti: string)
    requires codec.RoundTrips() && IsRun(codec, states, ops) && i < |states| && states[i].cache.Some?
    ensures IsRevoked(states[i].cache.value, jti) <==> jti in states[i].bucket
  {
    RunMirrors(codec, states, ops, i);
  }

  /** One step drops a record only by a collection that finds it expired, and never rewrites one. */
  lemma {:induction false} StepKeepsRecord(codec: Codec, s: State, op: Op, s': State, jti: string)
    requires Mirrored(codec, s) && Step(codec, s, op, s') && jti in s.bucket
    ensures jti in s'.bucket ==> s'.bucket[jti] == s.bucket[jti]
    ensures jti !in s'.bucket <==>
            && op.Collect? && op.scans && op.commits
            && var end := codec.decode(s.bucket[jti]).value.expiresAt; end.Some? && end.value < op.now
  {}

  /** The record says what the caller said, and when it was said. */
  predicate Records(stored: Entry, e: Entry, clock: int) {
    && stored.jti == e.jti && stored.reason == e.reason && stored.revokedBy == e.revokedBy && stored.expiresAt == e.expiresAt
    && stored.revokedAt == Some(if e.revokedAt.Some? then e.revokedAt.value else clock)
  }

  /** A committed revocation of a new token puts its record on file. */
  lemma {:induction false} RevokedIsStored(codec: Codec, s: State, e: Entry, clock: int, s': State)
    requires codec.RoundTrips() && Mirrored(codec, s) && Step(codec, s, Revoke(e, clock, true), s')
    requires e.jti != "" && e.jti !in s.bucket && codec.encode(Stamped(e, clock)).Some?
    ensures e.jti in s'.bucket && s'.cache.Some? && IsRevoked(s'.cache.value, e.jti)
    ensures codec.decode(s'.bucket[e.jti]).Some? && Records(codec.decode(s'.bucket[e.jti]).value, e, clock)
    ensures forall k :: k != e.jti ==> (k in s'.bucket <==> k in s.bucket) && (k in s.bucket ==> s'.bucket[k] == s.bucket[k])
  {}

  /** A revoked token keeps its first record until a collection whose clock is past its expiry. */
  lemma {:induction false} StaysRevoked(codec: Codec, states: seq<State>, ops: seq<Op>, i: nat, j: nat, jti: string)
    requires codec.RoundTrips() && IsRun(codec, states, ops) && i <= j < |states|
    requires jti in states[i].bucket && codec.decode(states[i].bucket[jti]).Some?
    requires var end := codec.decode(states[i].bucket[jti]).value.expiresAt;
             forall k :: i <= k < j && ops[k].Collect? ==> end.None? || ops[k].now <= end.value
    ensures jti in states[j].bucket && states[j].bucket[jti] == states[i].bucket[jti]
    ensures states[j].cache.Some? ==> IsRevoked(states[j].cache.value, jti)
    decreases j
  {
    AnswersIfOpen(codec, states, ops, j, jti);
    if i < j {
      StaysRevoked(codec, states, ops, i, j - 1, jti);
      RunMirrors(codec, states, ops, j - 1);
      assert Step(codec, states[j - 1], ops[j - 1], states[j]);
      hide Step, Mirrored;
      StepKeepsRecord(codec, states[j - 1], ops[j - 1], states[j], jti);
    }
  }

  lemma {:induction false} AnswersIfOpen(codec: Codec, states: seq<State>, ops: seq<Op>, j: nat, jti: string)
    requires codec.RoundTrips() && IsRun(codec, states, ops) && j < |states|
    ensures states[j].cache.Some? ==> (IsRevoked(states[j].cache.value, jti) <==> jti in states[j].bucket)
  {
    if states[j].cache.Some? {
      AnswersMatchBucket(codec, states, ops, j, jti);
    }
  }

  // ---------------------------------------------------------------- the object

  class Database {
    var bucket: Bucket

    constructor ()
      ensures bucket == map[]
    {
      bucket := map[];
    }
  }

  class BoltStore {
    const codec: Codec
    const db: Database
    var cache: set<string>

    ghost function View(): State
      reads this, db
    {
      State(db.bucket, Some(cache))
    }

    constructor Attach(codec: Codec, db: Database)
      ensures this.codec == codec && this.db == db && cache == {}
    {
      this.codec, this.db, cache := codec, db, {};
    }

    /** Opens the store: one transaction creates the bucket and fills the cache from its keys. */
    static method Open(codec: Codec, db: Database?, commits: bool) returns (s: BoltStore?)
      ensures db != null ==> db.bucket == old(db.bucket)
      ensures s != null ==> fresh(s) && db != null && s.codec == codec && s.db == db
      ensures db == null ==> s == null
      ensures db != null ==> forall cache :: Step(codec, State(db.bucket, cache), Reopen(commits),
                                                  State(db.bucket, if s == null then None else Some(s.cache)))
    {
      if db == null {
        return null;
      }
      var store := new BoltStore.Attach(codec, db);
      var todo := db.bucket.Keys;
      while todo != {}
        invariant todo <= db.bucket.Keys && store.cache == db.bucket.Keys - todo
        invariant db.bucket == old(db.bucket) && fresh(store) && store.codec == codec && store.db == db
        decreases todo
      {
        var k :| k in todo;
        store.cache := store.cache + {k};
        todo := todo - {k};
      }
      assert store.cache == db.bucket.Keys;
      s := if commits then store else null;
    }

    method RevokeToken(e: Entry, clock: int, commits: bool) returns (ok: bool)
      modifies this, db
      ensures Step(codec, old(View()), Revoke(e, clock, commits), View())
      ensures ok ==> e.jti in cache
      ensures !ok ==> View() == old(View())
      ensures ok && e.jti in old(cache) ==> View() == old(View())
      ensures ok && e.jti !in old(cache) && e.jti !in old(db.bucket) && codec.RoundTrips() ==>
                && e.jti in db.bucket
                && var stored := codec.decode(db.bucket[e.jti]); stored.Some? && Records(stored.value, e, clock)
    {
      if e.jti == "" {
        return false;
      }
      var entry := Stamped(e, clock);
      if entry.jti in cache {
        return true;
      }
      var data := codec.encode(entry);
      if data.None? || !commits {
        return false;
      }
      if entry.jti !in db.bucket {
        db.bucket := db.bucket[entry.jti := data.value];
      }
      cache := cache + {entry.jti};
      return true;
    }

    /** Garbage collection: a read transaction finds the expired entries, a write removes them. */
    method GC(now: int, scans: bool, commits: bool) returns (removed: Option<nat>)
      modifies this, db
      ensures Step(codec, old(View()), Collect(now, scans, commits), View())
      ensures removed.Some? && commits ==> removed.value == |ExpiredKeys(codec, old(db.bucket), now)|
    {
      if !scans {
        return None;
      }
      var ok, toDelete := FindExpired(now);
      if !ok {
        return None;
      }
      if |toDelete| == 0 {
        assert db.bucket - {} == db.bucket && cache - {} == cache;
        return Some(0);
      }
      if !commits {
        return None;
      }
      db.bucket := db.bucket - toDelete;
      cache := cache - toDelete;
      return Some(|toDelete|);
    }

    method FindExpired(now: int) returns (ok: bool, keys: set<string>)
      ensures ok <==> Decodable(codec, db.bucket)
      ensures ok ==> keys == ExpiredKeys(codec, db.bucket, now)
    {
      keys := {};
      var todo := db.bucket.Keys;
      while todo != {}
        invariant todo <= db.bucket.Keys
        invariant forall k :: k in db.bucket && k !in todo ==> codec.decode(db.bucket[k]).Some?
        invariant keys == set k | k in db.bucket && k !in todo && Expired(codec, db.bucket, k, now)
        decreases todo
      {
        var k :| k in todo;
        match codec.decode(db.bucket[k]) {
          case None => return false, {};
          case Some(e) =>
            if e.ExpiredBy(now) {
              keys := keys + {k};
            }
        }
        todo := todo - {k};
      }
      return true, keys;
    }
  }
}
