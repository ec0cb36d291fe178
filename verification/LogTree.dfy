/**
  The persistent transparency log (internal/storage/transparency/tree.go): a cache of leaf hashes
  over a key-sorted bucket, which survives failed transactions and reopening.
 */
module LogTree {
  import opened Hashing
  import opened MerkleTree
  import opened Inclusion
  import opened Consistency
  import opened KeyOrder
  import Strings
  import opened Options

  datatype Leaf = Leaf(kind: string, timestamp: int, payload: Bytes)

  /** The JSON codec of leaves; only the payload has to survive the round trip. */
  datatype Codec = Codec(encode: Leaf -> Option<Bytes>, decode: Bytes -> Option<Leaf>) {
    ghost predicate RoundTrips() {
      forall leaf {:trigger encode(leaf)} :: encode(leaf).Some? ==>
        decode(encode(leaf).value).Some? && decode(encode(leaf).value).value.payload == leaf.payload
    }
  }

  /** The longest slice that fits a 64-bit signed length. */
  const MAX_LEAVES: nat := 0x7fff_ffff_ffff_ffff

  type Bucket = map<Key, Bytes>

  // ---------------------------------------------------------------- scanning the bucket

  /** The hashes of the stored leaves in the given key order; None if one does not decode. */
  function HashesOf(sha: Sha, codec: Codec, bucket: Bucket, keys: seq<Key>): Option<seq<Digest>>
    requires forall k :: k in keys ==> k in bucket
    decreases |keys|
  {
    if keys == [] then Some([])
    else
      match codec.decode(bucket[keys[0]])
      case None => None
      case Some(leaf) =>
        match HashesOf(sha, codec, bucket, keys[1..])
        case None => None
        case Some(rest) => Some([HashLeaf(sha, leaf.payload)] + rest)
  }

  lemma {:induction false} ScanInBucket(keys: set<Key>)
    ensures forall k :: k in Scan(keys) ==> k in keys
    decreases keys
  {
    if keys != {} {
      ScanInBucket(keys - {Least(keys)});
    }
  }

  ghost function Rehydrated(sha: Sha, codec: Codec, bucket: Bucket): Option<seq<Digest>> {
    ScanInBucket(bucket.Keys);
    HashesOf(sha, codec, bucket, Scan(bucket.Keys))
  }

  /** The bucket holds exactly the leaves 0..|hashes|, and they hash to the list. */
  ghost predicate Mirrors(sha: Sha, codec: Codec, bucket: Bucket, hashes: seq<Digest>) {
    && |hashes| <= MAX_LEAVES
    && bucket.Keys == IndexKeys(0, |hashes|)
    && forall i :: 0 <= i < |hashes| ==> Holds(sha, codec, bucket, i, hashes[i])
  }

  ghost predicate Holds(sha: Sha, codec: Codec, bucket: Bucket, i: nat, h: Digest) {
    && EncodeIndex(i) in bucket
    && codec.decode(bucket[EncodeIndex(i)]).Some?
    && HashLeaf(sha, codec.decode(bucket[EncodeIndex(i)]).value.payload) == h
  }

  lemma {:induction false} HashesFrom(sha: Sha, codec: Codec, bucket: Bucket, hashes: seq<Digest>, lo: nat)
    requires lo <= |hashes| && forall i :: 0 <= i < |hashes| ==> Holds(sha, codec, bucket, i, hashes[i])
    ensures forall k :: k in LeafOrder(lo, |hashes|) ==> k in bucket
    ensures HashesOf(sha, codec, bucket, LeafOrder(lo, |hashes|)) == Some(hashes[lo..])
    decreases |hashes| - lo
  {
    var keys := LeafOrder(lo, |hashes|);
    forall k | k in keys ensures k in bucket {
      var i :| 0 <= i < |keys| && keys[i] == k;
      assert Holds(sha, codec, bucket, lo + i, hashes[lo + i]);
    }
    if lo == |hashes| {
      assert keys == [] && hashes[lo..] == [];
    } else {
      HashesFrom(sha, codec, bucket, hashes, lo + 1);
      assert keys[0] == EncodeIndex(lo) && Holds(sha, codec, bucket, lo, hashes[lo]);
      LeafOrderCons(lo, |hashes|);
      hide EncodeIndex, LeafOrder, HashLeaf;
      assert hashes[lo..] == [hashes[lo]] + hashes[lo + 1..];
    }
  }

  /** A scan of a mirrored bucket recovers the list, in leaf order. */
  lemma {:induction false} RehydrateRecovers(sha: Sha, codec: Codec, bucket: Bucket, hashes: seq<Digest>)
    requires Mirrors(sha, codec, bucket, hashes)
    ensures Rehydrated(sha, codec, bucket) == Some(hashes)
  {
    ScanIndexKeys(0, |hashes|);
    HashesFrom(sha, codec, bucket, hashes, 0);
    assert hashes[0..] == hashes;
  }

  // ---------------------------------------------------------------- steps and runs

  /** The persisted bucket and, while the log is open, the cached hashes. */
  datatype State = State(bucket: Bucket, cache: Option<seq<Digest>>)

  /** Each transaction either commits or fails; a failed open leaves no usable log. */
  datatype Op = Append(leaf: Leaf, commits: bool) | Reopen(bootstraps: bool, scans: bool)

  ghost predicate Step(sha: Sha, codec: Codec, s: State, op: Op, s': State) {
    match op
    case Append(leaf, commits) =>
      && s.cache.Some? && |s.cache.value| < MAX_LEAVES
      && s' == if commits && codec.encode(leaf).Some?
               then State(s.bucket[EncodeIndex(|s.cache.value|) := codec.encode(leaf).value],
                          Some(s.cache.value + [HashLeaf(sha, leaf.payload)]))
               else s
    case Reopen(bootstraps, scans) =>
      s' == State(s.bucket, if bootstraps && scans then Rehydrated(sha, codec, s.bucket) else None)
  }

  ghost predicate IsRun(sha: Sha, codec: Codec, states: seq<State>, ops: seq<Op>) {
    && |states| == |ops| + 1
    && states[0] == State(map[], None)
    && forall i :: 0 <= i < |ops| ==> Step(sha, codec, states[i], ops[i], states[i + 1])
  }

  /** The log is intact and holds this list; the cache, when there is one, is the list. */
  ghost predicate Intact(sha: Sha, codec: Codec, s: State, hashes: seq<Digest>) {
    Mirrors(sha, codec, s.bucket, hashes) && (s.cache.None? || s.cache.value == hashes)
  }

  lemma {:induction false} IndexKeysGrow(n: nat)
    ensures IndexKeys(0, n + 1) == IndexKeys(0, n) + {EncodeIndex(n)}
  {
    hide EncodeIndex;
  }

  lemma {:induction false} AppendMirrors(sha: Sha, codec: Codec, bucket: Bucket, hashes: seq<Digest>, leaf: Leaf)
    requires codec.RoundTrips() && codec.encode(leaf).Some? && |hashes| < MAX_LEAVES
    requires Mirrors(sha, codec, bucket, hashes)
    ensures Mirrors(sha, codec, bucket[EncodeIndex(|hashes|) := codec.encode(leaf).value],
                    hashes + [HashLeaf(sha, leaf.payload)])
  {
    var n := |hashes|;
    var bucket' := bucket[EncodeIndex(n) := codec.encode(leaf).value];
    var hashes' := hashes + [HashLeaf(sha, leaf.payload)];
    IndexKeysGrow(n);
    hide EncodeIndex, HashLeaf, IndexKeys;
    forall i | 0 <= i < |hashes'| ensures Holds(sha, codec, bucket', i, hashes'[i]) {
      EncodeIndexOrder(i, n);
      if i < n {
        assert Holds(sha, codec, bucket, i, hashes[i]);
      }
    }
  }

  /** The payloads whose append was encodable and committed, in order. */
  function Appended(codec: Codec, ops: seq<Op>): seq<Bytes>
    decreases |ops|
  {
    if ops == [] then []
    else
      var last := ops[|ops| - 1];
      Appended(codec, ops[..|ops| - 1])
      + if last.Append? && last.commits && codec.encode(last.leaf).Some? then [last.leaf.payload] else []
  }

  /** A step adds the leaf of a committed append at the end of the log, and changes nothing else. */
  lemma {:induction false} StepKeeps(sha: Sha, codec: Codec, s: State, op: Op, s': State, hashes: seq<Digest>)
    requires codec.RoundTrips() && Intact(sha, codec, s, hashes) && Step(sha, codec, s, op, s')
    ensures Intact(sha, codec, s', hashes + LeafHashes(sha, Appended(codec, [op])))
  {
    assert [op][..0] == [] && Appended(codec, []) == [];
    var more := Appended(codec, [op]);
    if more == [] {
      assert hashes + LeafHashes(sha, more) == hashes;
      if op.Reopen? {
        RehydrateRecovers(sha, codec, s.bucket, hashes);
      }
    } else {
      AppendMirrors(sha, codec, s.bucket, hashes, op.leaf);
      assert LeafHashes(sha, more) == [HashLeaf(sha, op.leaf.payload)];
    }
  }

  lemma {:induction false} AppendedSnoc(sha: Sha, codec: Codec, ops: seq<Op>, op: Op)
    ensures Appended(codec, ops + [op]) == Appended(codec, ops) + Appended(codec, [op])
    ensures LeafHashes(sha, Appended(codec, ops + [op]))
            == LeafHashes(sha, Appended(codec, ops)) + LeafHashes(sha, Appended(codec, [op]))
  {
    assert (ops + [op])[..|ops|] == ops && [op][..0] == [] && Appended(codec, []) == [];
    hide HashLeaf;
  }

  /** Over every run the log holds exactly the payloads of the committed appends, in order. */
  lemma {:induction false} LogIsAppends(sha: Sha, codec: Codec, states: seq<State>, ops: seq<Op>, i: nat)
    requires codec.RoundTrips() && IsRun(sha, codec, states, ops) && i < |states|
    ensures Intact(sha, codec, states[i], LeafHashes(sha, Appended(codec, ops[..i])))
    decreases i
  {
    if i == 0 {
      assert IndexKeys(0, 0) == {};
    } else {
      LogIsAppends(sha, codec, states, ops, i - 1);
      assert Step(sha, codec, states[i - 1], ops[i - 1], states[i]);
      hide *;
      StepKeeps(sha, codec, states[i - 1], ops[i - 1], states[i], LeafHashes(sha, Appended(codec, ops[..i - 1])));
      AppendedSnoc(sha, codec, ops[..i - 1], ops[i - 1]);
      assert ops[..i - 1] + [ops[i - 1]] == ops[..i];
    }
  }

  lemma {:induction false} AppendedGrows(codec: Codec, ops: seq<Op>, i: nat, j: nat)
    requires i <= j <= |ops|
    ensures Appended(codec, ops[..i]) <= Appended(codec, ops[..j])
    decreases j
  {
    if i < j {
      AppendedGrows(codec, ops, i, j - 1);
      assert ops[..j][..j - 1] == ops[..j - 1];
    }
  }

  /** The contents of the log after each step of a run. */
  lemma {:induction false} RunLogs(sha: Sha, codec: Codec, states: seq<State>, ops: seq<Op>) returns (logs: seq<seq<Digest>>)
    requires codec.RoundTrips() && IsRun(sha, codec, states, ops)
    ensures |logs| == |states|
    ensures forall i :: 0 <= i < |states| ==> logs[i] == LeafHashes(sha, Appended(codec, ops[..i]))
    ensures forall i :: 0 <= i < |states| ==> Intact(sha, codec, states[i], logs[i])
    ensures forall i, j :: 0 <= i <= j < |states| ==> logs[i] <= logs[j]
  {
    logs := seq(|states|, i requires 0 <= i < |states| => LeafHashes(sha, Appended(codec, ops[..i])));
    forall i | 0 <= i < |states| ensures Intact(sha, codec, states[i], logs[i]) {
      LogIsAppends(sha, codec, states, ops, i);
    }
    hide Intact, Appended, HashLeaf;
    forall i, j | 0 <= i <= j < |states| ensures logs[i] <= logs[j] {
      AppendedGrows(codec, ops, i, j);
    }
  }

  /** After every step an open log caches exactly what a rescan of the bucket would give. */
  lemma {:induction false} CacheIsRescan(sha: Sha, codec: Codec, states: seq<State>, ops: seq<Op>, i: nat)
    requires codec.RoundTrips() && IsRun(sha, codec, states, ops) && i < |states|
    ensures Rehydrated(sha, codec, states[i].bucket).Some?
    ensures states[i].cache.Some? ==> states[i].cache == Rehydrated(sha, codec, states[i].bucket)
  {
    var logs := RunLogs(sha, codec, states, ops);
    RehydrateRecovers(sha, codec, states[i].bucket, logs[i]);
  }

  // ---------------------------------------------------------------- what clients see

  function RootAt(sha: Sha, hashes: seq<Digest>, size: nat): Option<Digest> {
    if size > |hashes| then None else Some(MerkleTreeHash(sha, hashes[..size]))
  }

  function ServedInclusion(sha: Sha, hashes: seq<Digest>, m: nat, n: nat): Option<Proof> {
    if n > |hashes| || m >= n then None else Some(InclusionProof(sha, m, hashes[..n]))
  }

  function ServedConsistency(sha: Sha, hashes: seq<Digest>, first: nat, second: nat): Option<Proof> {
    if second > |hashes| || first > second || first == 0 then None
    else Some(ConsistencyProof(sha, first, second, hashes[..second]))
  }

  /**
    Over every run of appends, failed transactions and reopens, a root once handed out stays the
    root of its size.
   */
  lemma {:induction false} RootsNeverChange(sha: Sha, codec: Codec, states: seq<State>, ops: seq<Op>,
                                            i: nat, j: nat, size: nat)
    requires codec.RoundTrips() && IsRun(sha, codec, states, ops) && i <= j < |states|
    requires states[i].cache.Some? && states[j].cache.Some? && size <= |states[i].cache.value|
    ensures RootAt(sha, states[j].cache.value, size) == RootAt(sha, states[i].cache.value, size)
    ensures RootAt(sha, states[i].cache.value, size).Some?
  {
    var logs := RunLogs(sha, codec, states, ops);
    assert logs[i] <= logs[j];
    assert Intact(sha, codec, states[i], logs[i]) && Intact(sha, codec, states[j], logs[j]);
    assert logs[i][..size] == logs[j][..size];
  }

  /** A leaf whose root was handed out earlier is proved against that root by the later log. */
  lemma {:induction false} LaterInclusionVerifies(sha: Sha, codec: Codec, states: seq<State>, ops: seq<Op>,
                                                  i: nat, j: nat, m: nat, n: nat)
    requires codec.RoundTrips() && IsRun(sha, codec, states, ops) && i <= j < |states|
    requires states[i].cache.Some? && states[j].cache.Some? && m < n <= |states[i].cache.value|
    ensures var proof := ServedInclusion(sha, states[j].cache.value, m, n);
            proof.Some? && RootAt(sha, states[i].cache.value, n)
                           == Some(RebuiltRoot(sha, states[i].cache.value[m], m, n, proof.value))
  {
    RootsNeverChange(sha, codec, states, ops, i, j, n);
    var logs := RunLogs(sha, codec, states, ops);
    assert logs[i] <= logs[j];
    assert Intact(sha, codec, states[i], logs[i]) && Intact(sha, codec, states[j], logs[j]);
    InclusionComplete(sha, m, states[j].cache.value[..n]);
  }

  /** A root handed out earlier is proved consistent with any larger later one. */
  lemma {:induction false} LaterConsistencyVerifies(sha: Sha, codec: Codec, states: seq<State>, ops: seq<Op>,
                                                    i: nat, j: nat, first: nat, second: nat)
    requires codec.RoundTrips() && IsRun(sha, codec, states, ops) && i <= j < |states|
    requires states[i].cache.Some? && states[j].cache.Some?
    requires 1 <= first <= |states[i].cache.value| && first <= second <= |states[j].cache.value|
    ensures var proof := ServedConsistency(sha, states[j].cache.value, first, second);
            var root1, root2 := RootAt(sha, states[i].cache.value, first), RootAt(sha, states[j].cache.value, second);
            && proof.Some? && root1.Some? && root2.Some?
            && Judge(sha, first, second, root1.value, proof.value) == Verdict(root2.value, true)
  {
    RootsNeverChange(sha, codec, states, ops, i, j, first);
    var d := states[j].cache.value[..second];
    ConsistencyComplete(sha, first, second, d);
    assert d[..first] == states[j].cache.value[..first] && d[..second] == d;
  }

  /** An open log holds one leaf for each committed append. */
  lemma {:induction false} CacheIsAppends(sha: Sha, codec: Codec, states: seq<State>, ops: seq<Op>, i: nat)
    requires codec.RoundTrips() && IsRun(sha, codec, states, ops) && i < |states| && states[i].cache.Some?
    ensures states[i].cache.value == LeafHashes(sha, Appended(codec, ops[..i]))
  {
    LogIsAppends(sha, codec, states, ops, i);
  }

  /**
    A committed append puts its payload at the index that was the size of the log, for ever: every
    later proof served for that index rebuilds the served root from the payload's hash.
   */
  lemma {:induction false} AppendedIsServed(sha: Sha, codec: Codec, states: seq<State>, ops: seq<Op>, k: nat, j: nat, size: nat)
    requires codec.RoundTrips() && IsRun(sha, codec, states, ops) && k < j < |states|
    requires ops[k].Append? && ops[k].commits && codec.encode(ops[k].leaf).Some? && states[j].cache.Some?
    ensures states[k].cache.Some?
    ensures var m, hashes := |states[k].cache.value|, states[j].cache.value;
            && m < |hashes| && hashes[m] == HashLeaf(sha, ops[k].leaf.payload)
            && (m < size <= |hashes| ==>
                  var proof := ServedInclusion(sha, hashes, m, size);
                  proof.Some? && RootAt(sha, hashes, size)
                                 == Some(RebuiltRoot(sha, HashLeaf(sha, ops[k].leaf.payload), m, size, proof.value)))
  {
    assert Step(sha, codec, states[k], ops[k], states[k + 1]);
    CacheIsAppends(sha, codec, states, ops, k);
    CacheIsAppends(sha, codec, states, ops, j);
    var m, hashes, payload := |states[k].cache.value|, states[j].cache.value, ops[k].leaf.payload;
    AppendedAt(codec, ops, k, j);
    hide IsRun, Step, HashLeaf, RebuiltRoot, InclusionProof, MerkleTreeHash;
    assert hashes[m] == HashLeaf(sha, payload);
    if m < size <= |hashes| {
      InclusionComplete(sha, m, hashes[..size]);
    }
  }

  lemma {:induction false} AppendedAt(codec: Codec, ops: seq<Op>, k: nat, j: nat)
    requires k < j <= |ops| && ops[k].Append? && ops[k].commits && codec.encode(ops[k].leaf).Some?
    ensures var m := |Appended(codec, ops[..k])|;
            m < |Appended(codec, ops[..j])| && Appended(codec, ops[..j])[m] == ops[k].leaf.payload
  {
    AppendedGrows(codec, ops, k + 1, j);
    assert ops[..k + 1][..k] == ops[..k];
  }

  /**
    What a client learns: a long enough proof accepted against a root that the log served shows
    that the payload was appended in the run, as the leaf of that index, or a computed pair collides.
   */
  lemma {:induction false} ProvedWasAppended(sha: Sha, codec: Codec, states: seq<State>, ops: seq<Op>, i: nat,
                                             payload: Bytes, m: nat, n: nat, proof: Proof)
    requires codec.RoundTrips() && IsRun(sha, codec, states, ops) && i < |states| && states[i].cache.Some?
    requires m < n && |proof| >= |Sides(m, n)|
    requires RootAt(sha, states[i].cache.value, n) == Some(RebuiltRoot(sha, HashLeaf(sha, payload), m, n, proof))
    ensures n <= |Appended(codec, ops[..i])|
    ensures var log := Appended(codec, ops[..i]);
            var d, used := LeafHashes(sha, log[..n]), Digests(proof)[..|Sides(m, n)|];
            || payload == log[m]
            || IsCollision(sha, PathCollision(sha, HashLeaf(sha, payload), m, d, used))
            || IsCollision(sha, LeafPair(payload, log[m]))
  {
    CacheIsAppends(sha, codec, states, ops, i);
    var log := Appended(codec, ops[..i]);
    hide IsRun, Appended, RebuiltRoot, MerkleTreeHash, IsCollision, PathCollision, HashLeaf, Sides, Digests;
    var d := LeafHashes(sha, log[..n]);
    assert states[i].cache.value[..n] == d;
    InclusionSound(sha, HashLeaf(sha, payload), m, d, proof);
    if HashLeaf(sha, payload) == d[m] {
      LeafOpenedTwice(sha, payload, log[m]);
    }
  }

  // ---------------------------------------------------------------- the object

  /** The bolt handle: only the leaves bucket matters here. */
  class Database {
    var leaves: Bucket

    constructor ()
      ensures leaves == map[]
    {
      leaves := map[];
    }
  }

  class Tree {
    const sha: Sha
    const codec: Codec
    const db: Database
    var hashes: seq<Digest>

    ghost function View(): State
      reads this, db
    {
      State(db.leaves, Some(hashes))
    }

    constructor Attach(sha: Sha, codec: Codec, db: Database)
      ensures this.sha == sha && this.codec == codec && this.db == db && hashes == []
    {
      this.sha, this.codec, this.db, hashes := sha, codec, db, [];
    }

    /** Opens the log: one write transaction to create the buckets, one read transaction to scan. */
    static method Open(sha: Sha, codec: Codec, db: Database, bootstraps: bool, scans: bool) returns (t: Tree?)
      ensures db.leaves == old(db.leaves)
      ensures t != null ==> fresh(t) && t.sha == sha && t.codec == codec && t.db == db
      ensures forall cache :: Step(sha, codec, State(db.leaves, cache), Reopen(bootstraps, scans),
                                   State(db.leaves, if t == null then None else Some(t.hashes)))
    {
      t := null;
      if bootstraps {
        var tree := new Tree.Attach(sha, codec, db);
        var ok := tree.Rehydrate(scans);
        if ok {
          t := tree;
        }
      }
    }

    /** Rebuilds the cache by scanning the bucket in key order. */
    method Rehydrate(scans: bool) returns (ok: bool)
      modifies this
      ensures ok <==> scans && Rehydrated(sha, codec, db.leaves).Some?
      ensures ok ==> Some(hashes) == Rehydrated(sha, codec, db.leaves)
    {
      hashes := [];
      if !scans {
        return false;
      }
      var bucket := db.leaves;
      var todo := bucket.Keys;
      ghost var goal := Rehydrated(sha, codec, bucket);
      hide Scan, HashesOf, Strings.Less, HashLeaf, Rehydrated;
      ScanStarts(sha, codec, bucket);
      while todo != {}
        invariant todo <= bucket.Keys
        invariant Prepend(hashes, Remaining(sha, codec, bucket, todo)) == goal
        decreases todo
      {
        ghost var least := LeastExists(todo);
        var key :| key in todo && forall o :: o in todo && o != key ==> Strings.Less(key, o);
        RemainingStep(sha, codec, bucket, todo, key);
        match codec.decode(bucket[key]) {
          case None =>
            return false;
          case Some(leaf) =>
            hashes := hashes + [HashLeaf(sha, leaf.payload)];
        }
        todo := todo - {key};
      }
      RemainingEnds(sha, codec, bucket);
      assert hashes + [] == hashes;
      return true;
    }

    /** Appends a leaf in one write transaction; the cache follows only if it commits. */
    method AppendLeaf(leaf: Leaf, commits: bool) returns (index: Option<nat>)
      requires |hashes| < MAX_LEAVES
      modifies this, db
      ensures Step(sha, codec, old(View()), Append(leaf, commits), View())
      ensures index == if commits && codec.encode(leaf).Some? then Some(old(|hashes|)) else None
      ensures index.None? ==> View() == old(View())
      ensures index.Some? ==> hashes == old(hashes) + [HashLeaf(sha, leaf.payload)]
      ensures index.Some? ==> EncodeIndex(index.value) in db.leaves && Some(db.leaves[EncodeIndex(index.value)]) == codec.encode(leaf)
      ensures index.Some? ==> db.leaves.Keys == old(db.leaves.Keys) + {EncodeIndex(index.value)}
                              && forall k :: k in old(db.leaves) && k != EncodeIndex(index.value) ==> db.leaves[k] == old(db.leaves[k])
      ensures index.Some? && codec.RoundTrips() ==>
                var stored := codec.decode(db.leaves[EncodeIndex(index.value)]);
                stored.Some? && stored.value.payload == leaf.payload
    {
      var idx := |hashes|;
      var key := EncodeIndex(idx);
      match codec.encode(leaf) {
        case None =>
          return None;
        case Some(data) =>
          if !commits {
            return None;
          }
          db.leaves := db.leaves[key := data];
      }
      hashes := hashes + [HashLeaf(sha, leaf.payload)];
      return Some(idx);
    }

    /** The root of the first size leaves; None stands for the size error. */
    method ServeRoot(size: nat) returns (root: Option<Digest>)
      ensures root.Some? <==> size <= |hashes|
      ensures root == RootAt(sha, hashes, size)
    {
      if size > |hashes| {
        return None;
      }
      if size == 0 {
        assert hashes[..0] == [];
        return Some(EmptyRoot(sha));
      }
      return Some(MerkleTreeHash(sha, hashes[..size]));
    }

    /** An audit path is served exactly for leaves of an existing size, and it verifies. */
    method ServeInclusion(m: nat, n: nat) returns (proof: Option<Proof>)
      ensures proof == ServedInclusion(sha, hashes, m, n)
      ensures proof.Some? <==> m < n <= |hashes|
      ensures proof.Some? ==> RootAt(sha, hashes, n) == Some(RebuiltRoot(sha, hashes[m], m, n, proof.value))
    {
      if n > |hashes| || m >= n {
        return None;
      }
      InclusionComplete(sha, m, hashes[..n]);
      return Some(InclusionProof(sha, m, hashes[..n]));
    }

    /** A consistency proof is served exactly for existing sizes in order, and it is accepted. */
    method ServeConsistency(first: nat, second: nat) returns (proof: Option<Proof>)
      ensures proof == ServedConsistency(sha, hashes, first, second)
      ensures proof.Some? <==> 1 <= first <= second <= |hashes|
      ensures proof.Some? ==>
                Judge(sha, first, second, MerkleTreeHash(sha, hashes[..first]), proof.value)
                == Verdict(MerkleTreeHash(sha, hashes[..second]), true)
    {
      if second > |hashes| || first > second || first == 0 {
        return None;
      }
      var d := hashes[..second];
      ConsistencyComplete(sha, first, second, d);
      assert d[..first] == hashes[..first] && d[..second] == d;
      return Some(ConsistencyProof(sha, first, second, d));
    }
  }

  ghost function Prepend(front: seq<Digest>, rest: Option<seq<Digest>>): Option<seq<Digest>> {
    if rest.None? then None else Some(front + rest.value)
  }

  /** What a scan of the keys still to come contributes. */
  ghost function Remaining(sha: Sha, codec: Codec, bucket: Bucket, todo: set<Key>): Option<seq<Digest>>
    requires todo <= bucket.Keys
  {
    ScanInBucket(todo);
    HashesOf(sha, codec, bucket, Scan(todo))
  }

  lemma {:induction false} ScanStarts(sha: Sha, codec: Codec, bucket: Bucket)
    ensures Prepend([], Remaining(sha, codec, bucket, bucket.Keys)) == Rehydrated(sha, codec, bucket)
  {
    hide HashesOf, Scan;
    var rest := Remaining(sha, codec, bucket, bucket.Keys);
    assert rest.Some? ==> [] + rest.value == rest.value;
  }

  lemma {:induction false} RemainingEnds(sha: Sha, codec: Codec, bucket: Bucket)
    ensures Remaining(sha, codec, bucket, {}) == Some([])
  {}

  lemma {:induction false} RemainingStep(sha: Sha, codec: Codec, bucket: Bucket, todo: set<Key>, key: Key)
    requires todo <= bucket.Keys && IsLeast(key, todo)
    ensures forall front ::
              Prepend(front, Remaining(sha, codec, bucket, todo))
              == match codec.decode(bucket[key])
                 case None => None
                 case Some(leaf) =>
                   Prepend(front + [HashLeaf(sha, leaf.payload)], Remaining(sha, codec, bucket, todo - {key}))
  {
    LeastUnique(key, Least(todo), todo);
    ScanInBucket(todo);
    ScanInBucket(todo - {key});
    assert Scan(todo) == [key] + Scan(todo - {key});
    assert Scan(todo)[1..] == Scan(todo - {key});
    hide Scan, HashLeaf, Strings.Less;
    forall front ensures
              Prepend(front, Remaining(sha, codec, bucket, todo))
              == match codec.decode(bucket[key])
                 case None => None
                 case Some(leaf) =>
                   Prepend(front + [HashLeaf(sha, leaf.payload)], Remaining(sha, codec, bucket, todo - {key}))
    {
      var rest := Remaining(sha, codec, bucket, todo - {key});
      var head := codec.decode(bucket[key]);
      if head.Some? && rest.Some? {
        var h := HashLeaf(sha, head.value.payload);
        assert front + ([h] + rest.value) == (front + [h]) + rest.value;
      }
    }
  }
}
