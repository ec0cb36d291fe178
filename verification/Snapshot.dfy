/**
  The snapshot Merkle tree (internal/storage/integrity/merkle.go): built bottom-up, level by
  level, repeating the last node of an odd level.
 */
module Snapshot {
  import opened Hashing
  import opened Options

  datatype Snapshot = Snapshot(leaves: seq<Digest>, nodes: seq<Digest>, root: Option<Digest>)

  function Leaves(sha: Sha, blocks: seq<Bytes>): (l: seq<Digest>)
    ensures |l| == |blocks|
  {
    seq(|blocks|, i requires 0 <= i < |blocks| => sha(blocks[i]))
  }

  /** The sizes a level can have before it is hashed. */
  predicate Paired(n: nat) {
    n == 1 || (n >= 2 && n % 2 == 0)
  }

  function PadLeaves(l: seq<Digest>): (p: seq<Digest>)
    requires l != []
    ensures |p| % 2 == 0 && Paired(|p|)
  {
    if |l| % 2 != 0 then l + [l[|l| - 1]] else l
  }

  function PadLevel(l: seq<Digest>): (p: seq<Digest>)
    requires l != []
    ensures Paired(|p|)
  {
    if |l| > 1 && |l| % 2 != 0 then l + [l[|l| - 1]] else l
  }

  function Pair(nodes: seq<Digest>, i: nat): Bytes
    requires 2 * i + 1 < |nodes|
  {
    var left: Bytes, right: Bytes := nodes[2 * i], nodes[2 * i + 1];
    left + right
  }

  function NodeHash(sha: Sha, nodes: seq<Digest>, i: nat): Digest
    requires 2 * i + 1 < |nodes|
  {
    sha(Pair(nodes, i))
  }

  function Level(sha: Sha, nodes: seq<Digest>): (l: seq<Digest>)
    requires |nodes| >= 2 && |nodes| % 2 == 0
    ensures |l| == |nodes| / 2
  {
    seq(|nodes| / 2, i requires 0 <= i < |nodes| / 2 => NodeHash(sha, nodes, i))
  }

  function Climb(sha: Sha, nodes: seq<Digest>): Digest
    requires Paired(|nodes|)
    decreases |nodes|
  {
    if |nodes| == 1 then nodes[0] else Climb(sha, PadLevel(Level(sha, nodes)))
  }

  /** The levels above a level, before padding. */
  function Above(sha: Sha, nodes: seq<Digest>): seq<Digest>
    requires Paired(|nodes|)
    decreases |nodes|
  {
    if |nodes| == 1 then [] else Level(sha, nodes) + Above(sha, PadLevel(Level(sha, nodes)))
  }

  function Root(sha: Sha, blocks: seq<Bytes>): Option<Digest> {
    if blocks == [] then None else Some(Climb(sha, PadLeaves(Leaves(sha, blocks))))
  }

  method BuildTree(sha: Sha, blocks: seq<Bytes>) returns (t: Snapshot)
    ensures t.root == Root(sha, blocks) && t.leaves == Leaves(sha, blocks)
    ensures blocks == [] ==> t.nodes == []
    ensures blocks != [] ==> var base := PadLeaves(t.leaves); t.nodes == base + Above(sha, base)
    ensures blocks != [] ==> t.leaves <= t.nodes && Some(t.nodes[|t.nodes| - 1]) == t.root
    ensures blocks != [] ==> forall x :: x in t.nodes ==> x in t.leaves || IsJoin(sha, x, t.nodes)
  {
    if |blocks| == 0 {
      return Snapshot([], [], None);
    }
    var leaves: seq<Digest> := [];
    for i := 0 to |blocks|
      invariant leaves == Leaves(sha, blocks)[..i]
    {
      leaves := leaves + [sha(blocks[i])];
    }
    assert leaves == Leaves(sha, blocks);
    var nodes := leaves;
    if |nodes| % 2 != 0 {
      nodes := nodes + [nodes[|nodes| - 1]];
    }
    ghost var base := nodes;
    var allNodes := nodes;
    assert base == PadLeaves(leaves);
    hide Climb, Above, Leaves;
    while |nodes| > 1
      invariant Paired(|nodes|) && Climb(sha, nodes) == Climb(sha, base)
      invariant allNodes + Above(sha, nodes) == base + Above(sha, base)
      decreases |nodes|
    {
      var level := HashLevel(sha, nodes);
      ClimbStep(sha, nodes, allNodes);
      allNodes := allNodes + level;
      if |level| > 1 && |level| % 2 != 0 {
        level := level + [level[|level| - 1]];
      }
      nodes := level;
    }
    ClimbEnds(sha, nodes, allNodes);
    PaddedNodes(leaves);
    AboveShape(sha, base);
    return Snapshot(leaves, allNodes, Some(nodes[0]));
  }

  /** The hash of two of the nodes, left before right. */
  ghost predicate IsJoin(sha: Sha, x: Digest, nodes: seq<Digest>) {
    exists l, r :: l in nodes && r in nodes && x == Joined(sha, l, r)
  }

  lemma PaddedNodes(l: seq<Digest>)
    requires l != []
    ensures l <= PadLeaves(l) && l <= PadLevel(l) && |PadLeaves(l)| >= 2
    ensures forall x :: x in PadLeaves(l) || x in PadLevel(l) ==> x in l
  {}

  /** The levels above end in the root, and each of their nodes is a hash of two nodes below. */
  lemma {:induction false} AboveShape(sha: Sha, nodes: seq<Digest>)
    requires Paired(|nodes|)
    ensures var all := nodes + Above(sha, nodes);
            && all[|all| - 1] == Climb(sha, nodes)
            && forall x :: x in Above(sha, nodes) ==> IsJoin(sha, x, all)
    decreases |nodes|
  {
    if |nodes| > 1 {
      var level := Level(sha, nodes);
      var up, above := PadLevel(level), Above(sha, PadLevel(level));
      AboveShape(sha, up);
      PaddedNodes(level);
      LevelJoins(sha, nodes);
      assert Above(sha, nodes) == level + above && Climb(sha, nodes) == Climb(sha, up);
      var all := nodes + (level + above);
      hide Level, Above, Climb, PadLevel;
      forall x | x in level + above ensures IsJoin(sha, x, all) {
        if x in level {
          JoinMore(sha, x, nodes, all);
        } else {
          JoinMore(sha, x, up + above, all);
        }
      }
      assert (up + above)[|up + above| - 1] == all[|all| - 1];
    }
  }

  lemma {:induction false} LevelJoins(sha: Sha, nodes: seq<Digest>)
    requires |nodes| >= 2 && |nodes| % 2 == 0
    ensures forall x :: x in Level(sha, nodes) ==> IsJoin(sha, x, nodes)
  {
    var level := Level(sha, nodes);
    forall x | x in level ensures IsJoin(sha, x, nodes) {
      var i :| 0 <= i < |level| && level[i] == x;
      assert x == Joined(sha, nodes[2 * i], nodes[2 * i + 1]);
    }
  }

  lemma JoinMore(sha: Sha, x: Digest, some: seq<Digest>, all: seq<Digest>)
    requires IsJoin(sha, x, some) && forall y :: y in some ==> y in all
    ensures IsJoin(sha, x, all)
  {
    var l, r :| l in some && r in some && x == Joined(sha, l, r);
  }

  /** The inner loop over adjacent nodes. */
  method HashLevel(sha: Sha, nodes: seq<Digest>) returns (level: seq<Digest>)
    requires |nodes| >= 2 && |nodes| % 2 == 0
    ensures level == Level(sha, nodes)
  {
    level := [];
    var i := 0;
    while i < |nodes|
      invariant i % 2 == 0 && 0 <= i <= |nodes|
      invariant level == Level(sha, nodes)[..i / 2]
    {
      var left: Bytes, right: Bytes := nodes[i], nodes[i + 1];
      assert Level(sha, nodes)[i / 2] == sha(Pair(nodes, i / 2));
      var combined: Bytes := left + right;
      level := level + [sha(combined)];
      i := i + 2;
    }
    assert Level(sha, nodes)[..|nodes| / 2] == Level(sha, nodes);
  }

  lemma {:induction false} ClimbStep(sha: Sha, nodes: seq<Digest>, front: seq<Digest>)
    requires Paired(|nodes|) && |nodes| > 1
    ensures Climb(sha, nodes) == Climb(sha, PadLevel(Level(sha, nodes)))
    ensures front + Above(sha, nodes) == (front + Level(sha, nodes)) + Above(sha, PadLevel(Level(sha, nodes)))
  {}

  lemma {:induction false} ClimbEnds(sha: Sha, nodes: seq<Digest>, front: seq<Digest>)
    requires |nodes| == 1
    ensures Climb(sha, nodes) == nodes[0] && front + Above(sha, nodes) == front
  {}

  // ---------------------------------------------------------------- the root binds its input

  function FirstPairDiff(a: seq<Digest>, b: seq<Digest>, i: nat): (k: nat)
    requires |a| == |b| && |a| >= 2 && |a| % 2 == 0 && 2 * i <= |a|
    ensures 2 * k <= |a|
    ensures 2 * k < |a| ==> Pair(a, k) != Pair(b, k)
    ensures i <= k && forall j :: i <= j < k ==> Pair(a, j) == Pair(b, j)
    decreases |a| - 2 * i
  {
    if 2 * i == |a| || Pair(a, i) != Pair(b, i) then i else FirstPairDiff(a, b, i + 1)
  }

  /** Where two levels of equal size first hash differently. */
  function ClimbCollision(sha: Sha, a: seq<Digest>, b: seq<Digest>): Collision
    requires |a| == |b| && Paired(|a|)
    decreases |a|
  {
    if |a| == 1 then Collision([], [])
    else if Level(sha, a) != Level(sha, b) then
      ClimbCollision(sha, PadLevel(Level(sha, a)), PadLevel(Level(sha, b)))
    else
      var k := FirstPairDiff(a, b, 0);
      if 2 * k == |a| then Collision([], []) else Collision(Pair(a, k), Pair(b, k))
  }

  lemma PairsDecide(a: seq<Digest>, b: seq<Digest>)
    requires |a| == |b| && |a| % 2 == 0
    requires forall j :: 0 <= j < |a| / 2 ==> Pair(a, j) == Pair(b, j)
    ensures a == b
  {
    forall i | 0 <= i < |a| ensures a[i] == b[i] {
      var j := i / 2;
      var x, y := Pair(a, j), Pair(b, j);
      assert a[2 * j] == x[..32] && b[2 * j] == y[..32];
      assert a[2 * j + 1] == x[32..] && b[2 * j + 1] == y[32..];
    }
  }

  lemma PadInjective(a: seq<Digest>, b: seq<Digest>)
    requires |a| == |b| && a != []
    ensures PadLevel(a) == PadLevel(b) ==> a == b
    ensures PadLeaves(a) == PadLeaves(b) ==> a == b
  {
    assert PadLevel(a)[..|a|] == a && PadLevel(b)[..|b|] == b;
    assert PadLeaves(a)[..|a|] == a && PadLeaves(b)[..|b|] == b;
  }

  lemma {:induction false} ClimbBinds(sha: Sha, a: seq<Digest>, b: seq<Digest>)
    requires |a| == |b| && Paired(|a|) && Climb(sha, a) == Climb(sha, b)
    ensures a == b || IsCollision(sha, ClimbCollision(sha, a, b))
    decreases |a|
  {
    if |a| > 1 {
      var la, lb := Level(sha, a), Level(sha, b);
      if la != lb {
        PadInjective(la, lb);
        ClimbBinds(sha, PadLevel(la), PadLevel(lb));
      } else {
        var k := FirstPairDiff(a, b, 0);
        hide Climb, FirstPairDiff;
        if 2 * k == |a| {
          PairsDecide(a, b);
        } else {
          assert la[k] == lb[k];
        }
      }
    }
  }

  function FirstDiff(a: seq<Bytes>, b: seq<Bytes>, i: nat): (k: nat)
    requires |a| == |b| && i <= |a|
    ensures i <= k <= |a| && (k < |a| ==> a[k] != b[k]) && forall j :: i <= j < k ==> a[j] == b[j]
    decreases |a| - i
  {
    if i == |a| || a[i] != b[i] then i else FirstDiff(a, b, i + 1)
  }

  /** Where two lists of blocks of equal size, already paired, first hash differently. */
  function ListCollision(sha: Sha, a: seq<Bytes>, b: seq<Bytes>): Collision
    requires |a| == |b| && Paired(|a|)
  {
    if Leaves(sha, a) != Leaves(sha, b) then ClimbCollision(sha, Leaves(sha, a), Leaves(sha, b))
    else
      var k := FirstDiff(a, b, 0);
      if k == |a| then Collision([], []) else Collision(a[k], b[k])
  }

  lemma {:induction false} LeavesBind(sha: Sha, a: seq<Bytes>, b: seq<Bytes>)
    requires |a| == |b| && Paired(|a|) && Climb(sha, Leaves(sha, a)) == Climb(sha, Leaves(sha, b))
    ensures a == b || IsCollision(sha, ListCollision(sha, a, b))
  {
    var la, lb := Leaves(sha, a), Leaves(sha, b);
    if la != lb {
      ClimbBinds(sha, la, lb);
    } else {
      var k := FirstDiff(a, b, 0);
      if k < |a| {
        assert la[k] == lb[k];
      }
    }
  }

  function PadBlocks(blocks: seq<Bytes>): (p: seq<Bytes>)
    requires blocks != []
    ensures Paired(|p|) && |p| % 2 == 0
  {
    if |blocks| % 2 != 0 then blocks + [blocks[|blocks| - 1]] else blocks
  }

  lemma LeavesOfPadded(sha: Sha, blocks: seq<Bytes>)
    requires blocks != []
    ensures Leaves(sha, PadBlocks(blocks)) == PadLeaves(Leaves(sha, blocks))
  {}

  /** Block lists of equal length with equal roots are equal, short of a collision. */
  lemma {:induction false} RootBinds(sha: Sha, a: seq<Bytes>, b: seq<Bytes>)
    requires |a| == |b| > 0 && Root(sha, a) == Root(sha, b)
    ensures a == b || IsCollision(sha, ListCollision(sha, PadBlocks(a), PadBlocks(b)))
  {
    LeavesOfPadded(sha, a);
    LeavesOfPadded(sha, b);
    LeavesBind(sha, PadBlocks(a), PadBlocks(b));
    if PadBlocks(a) == PadBlocks(b) {
      assert a == PadBlocks(a)[..|a|] && b == PadBlocks(b)[..|b|];
    }
  }

  // ---------------------------------------------------------------- lists of different lengths

  function Pow2(e: nat): (p: nat)
    ensures p >= 1 && (e > 0 ==> p >= 2 && p % 2 == 0)
  {
    if e == 0 then 1 else 2 * Pow2(e - 1)
  }

  function PadSize(n: nat): (p: nat)
    requires n >= 1
    ensures Paired(p) && n <= p <= n + 1
  {
    if n > 1 && n % 2 != 0 then n + 1 else n
  }

  /** How many levels lie above a level of n nodes. */
  function Height(n: nat): nat
    requires Paired(n)
  {
    if n == 1 then 0 else 1 + Height(PadSize(n / 2))
  }

  /** The node that stands at position i once every level is padded all the way down. */
  function NodeAt(n: nat, i: nat): (k: nat)
    requires Paired(n) && i < Pow2(Height(n))
    ensures k < n
  {
    if n == 1 then 0
    else
      var above := NodeAt(PadSize(n / 2), i / 2);
      2 * (if above < n / 2 then above else n / 2 - 1) + i % 2
  }

  /** The fully padded level: a perfect tree repeats a last node by repeating all that is under it. */
  function Spread<T>(l: seq<T>): (full: seq<T>)
    requires Paired(|l|)
    ensures |full| == Pow2(Height(|l|)) && Paired(|full|)
  {
    seq(Pow2(Height(|l|)), i requires 0 <= i < Pow2(Height(|l|)) => l[NodeAt(|l|, i)])
  }

  lemma {:induction false} NodesOfPair(n: nat, p: nat)
    requires Paired(n) && n > 1 && 2 * p + 1 < Pow2(Height(n)) && p < Pow2(Height(PadSize(n / 2)))
    ensures var above := NodeAt(PadSize(n / 2), p);
            var q := if above < n / 2 then above else n / 2 - 1;
            NodeAt(n, 2 * p) == 2 * q && NodeAt(n, 2 * p + 1) == 2 * q + 1
  {
    hide NodeAt, Height, Pow2;
    NodeBelow(n, 2 * p, p);
    NodeBelow(n, 2 * p + 1, p);
  }

  lemma {:induction false} NodeBelow(n: nat, i: nat, p: nat)
    requires Paired(n) && n > 1 && i < Pow2(Height(n)) && p == i / 2 && p < Pow2(Height(PadSize(n / 2)))
    ensures var above := NodeAt(PadSize(n / 2), p);
            NodeAt(n, i) == 2 * (if above < n / 2 then above else n / 2 - 1) + i % 2
  {}

  lemma {:induction false} SpreadLevel(sha: Sha, nodes: seq<Digest>)
    requires Paired(|nodes|) && |nodes| > 1
    ensures |Spread(nodes)| >= 2 && |Spread(nodes)| % 2 == 0
    ensures Level(sha, Spread(nodes)) == Spread(PadLevel(Level(sha, nodes)))
  {
    var n, full, up := |nodes|, Spread(nodes), PadLevel(Level(sha, nodes));
    assert |up| == PadSize(n / 2);
    forall p | 0 <= p < |full| / 2 ensures Level(sha, full)[p] == Spread(up)[p] {
      var above := NodeAt(PadSize(n / 2), p);
      var q := if above < n / 2 then above else n / 2 - 1;
      NodesOfPair(n, p);
      hide NodeAt;
      assert Pair(full, p) == Pair(nodes, q);
      assert up[above] == Level(sha, nodes)[q];
    }
  }

  lemma PadPow2(l: seq<Digest>, e: nat)
    requires |l| == Pow2(e)
    ensures PadLevel(l) == l
  {}

  /** Padding all the way down does not change the root. */
  lemma {:induction false} SpreadClimb(sha: Sha, nodes: seq<Digest>)
    requires Paired(|nodes|)
    ensures Climb(sha, Spread(nodes)) == Climb(sha, nodes)
    decreases |nodes|
  {
    if |nodes| > 1 {
      var up := PadLevel(Level(sha, nodes));
      SpreadLevel(sha, nodes);
      PadPow2(Spread(up), Height(|up|));
      SpreadClimb(sha, up);
      ClimbStep(sha, nodes, []);
      ClimbStep(sha, Spread(nodes), []);
    }
  }

  /** The nodes k levels up in a perfect tree. */
  function Ascend(sha: Sha, l: seq<Digest>, k: nat, e: nat): (up: seq<Digest>)
    requires |l| == Pow2(e) && k <= e
    ensures |up| == Pow2(e - k)
    decreases k
  {
    if k == 0 then l else Ascend(sha, Level(sha, l), k - 1, e - 1)
  }

  lemma PairedPow2(e: nat)
    ensures Paired(Pow2(e)) && (e > 0 ==> Pow2(e) / 2 == Pow2(e - 1))
  {}

  lemma {:induction false} AscendStep(sha: Sha, l: seq<Digest>, k: nat, e: nat)
    requires |l| == Pow2(e) && k <= e
    ensures k == 0 ==> Ascend(sha, l, k, e) == l
    ensures k > 0 ==> |Level(sha, l)| == Pow2(e - 1) && Ascend(sha, l, k, e) == Ascend(sha, Level(sha, l), k - 1, e - 1)
  {}

  lemma {:induction false} AscendClimb(sha: Sha, l: seq<Digest>, k: nat, e: nat)
    requires |l| == Pow2(e) && k <= e
    ensures Paired(|l|) && Paired(Pow2(e - k)) && Climb(sha, Ascend(sha, l, k, e)) == Climb(sha, l)
    decreases k
  {
    hide *;
    PairedPow2(e);
    PairedPow2(e - k);
    AscendStep(sha, l, k, e);
    if k > 0 {
      var up := Level(sha, l);
      AscendClimb(sha, up, k - 1, e - 1);
      PadPow2(up, e - 1);
      ClimbStep(sha, l, []);
    }
  }

  lemma {:induction false} AscendLast(sha: Sha, l: seq<Digest>, k: nat, e: nat)
    requires |l| == Pow2(e) && k < e
    ensures Ascend(sha, l, k + 1, e) == Level(sha, Ascend(sha, l, k, e))
    decreases k
  {
    if k > 0 {
      AscendLast(sha, Level(sha, l), k - 1, e - 1);
    }
  }

  function FullBlocks(blocks: seq<Bytes>): (full: seq<Bytes>)
    requires blocks != []
    ensures |full| == Pow2(Levels(blocks)) && Paired(|full|)
  {
    Spread(PadBlocks(blocks))
  }

  /** The number of levels above the leaves. */
  function Levels(blocks: seq<Bytes>): (h: nat)
    requires blocks != []
    ensures h >= 1
  {
    Height(|PadBlocks(blocks)|)
  }

  lemma {:induction false} RootOfFull(sha: Sha, blocks: seq<Bytes>)
    requires blocks != []
    ensures Root(sha, blocks) == Some(Climb(sha, Leaves(sha, FullBlocks(blocks))))
  {
    var padded := PadBlocks(blocks);
    LeavesOfPadded(sha, blocks);
    SpreadClimb(sha, Leaves(sha, padded));
    hide Climb, NodeAt;
    assert Leaves(sha, Spread(padded)) == Spread(Leaves(sha, padded));
  }

  /** The pairs of a level, as the byte strings that are hashed. */
  function PairBytes(l: seq<Digest>): (p: seq<Bytes>)
    requires |l| >= 2 && |l| % 2 == 0
    ensures |p| == |l| / 2
  {
    seq(|l| / 2, i requires 0 <= i < |l| / 2 => Pair(l, i))
  }

  lemma LeavesOfPairs(sha: Sha, l: seq<Digest>)
    requires |l| >= 2 && |l| % 2 == 0
    ensures Leaves(sha, PairBytes(l)) == Level(sha, l)
  {}

  /**
    The blocks, or what stands in their place, at a given number of levels below the root: at the
    full depth the fully padded blocks, higher up the concatenated pairs of hashes.
   */
  function BlocksAt(sha: Sha, blocks: seq<Bytes>, depth: nat): (p: seq<Bytes>)
    requires blocks != [] && 1 <= depth <= Levels(blocks)
    ensures |p| == Pow2(depth) && Paired(|p|)
  {
    var h := Levels(blocks);
    if depth == h then FullBlocks(blocks)
    else PairBytes(Ascend(sha, Leaves(sha, FullBlocks(blocks)), h - depth - 1, h))
  }

  lemma {:induction false} RootAtDepth(sha: Sha, blocks: seq<Bytes>, depth: nat)
    requires blocks != [] && 1 <= depth <= Levels(blocks)
    ensures Root(sha, blocks) == Some(Climb(sha, Leaves(sha, BlocksAt(sha, blocks, depth))))
  {
    hide *;
    RootOfFull(sha, blocks);
    var h := Levels(blocks);
    var l := Leaves(sha, FullBlocks(blocks));
    BlocksAtIs(sha, blocks, depth, h, l);
    if depth < h {
      AscendClimb(sha, l, h - depth, h);
    }
  }

  lemma {:induction false} BlocksAtIs(sha: Sha, blocks: seq<Bytes>, depth: nat, h: nat, l: seq<Digest>)
    requires blocks != [] && 1 <= depth <= Levels(blocks) == h && l == Leaves(sha, FullBlocks(blocks))
    ensures depth == h ==> Leaves(sha, BlocksAt(sha, blocks, depth)) == l
    ensures depth < h ==> Leaves(sha, BlocksAt(sha, blocks, depth)) == Ascend(sha, l, h - depth, h)
  {
    hide Ascend, FullBlocks, Leaves, Levels, Level, PairBytes;
    if depth < h {
      AscendLast(sha, l, h - depth - 1, h);
      LeavesOfPairs(sha, Ascend(sha, l, h - depth - 1, h));
    }
  }

  function MinLevels(a: seq<Bytes>, b: seq<Bytes>): nat
    requires a != [] && b != []
  {
    if Levels(a) <= Levels(b) then Levels(a) else Levels(b)
  }

  /**
    Exactly when two block lists, of any lengths, share a root: at the depth of the shallower tree
    they are the same list, or a computed pair collides.
   */
  lemma {:induction false} SameRootIff(sha: Sha, a: seq<Bytes>, b: seq<Bytes>)
    requires a != [] && b != []
    ensures var depth := MinLevels(a, b);
            var p, q := BlocksAt(sha, a, depth), BlocksAt(sha, b, depth);
            && (p == q ==> Root(sha, a) == Root(sha, b))
            && (Root(sha, a) == Root(sha, b) ==> p == q || IsCollision(sha, ListCollision(sha, p, q)))
  {
    var depth := MinLevels(a, b);
    var p, q := BlocksAt(sha, a, depth), BlocksAt(sha, b, depth);
    RootAtDepth(sha, a, depth);
    RootAtDepth(sha, b, depth);
    hide Climb, BlocksAt, Leaves, ListCollision;
    if Root(sha, a) == Root(sha, b) {
      LeavesBind(sha, p, q);
    }
  }

  /** The base level: an odd list and the list with its last block repeated share a root. */
  lemma {:induction false} RepeatedBlockSameRoot(sha: Sha, blocks: seq<Bytes>)
    requires |blocks| % 2 == 1
    ensures Root(sha, blocks) == Root(sha, blocks + [blocks[|blocks| - 1]])
  {
    var longer := blocks + [blocks[|blocks| - 1]];
    assert PadLeaves(Leaves(sha, blocks)) == Leaves(sha, longer);
  }

  /** An inner level: six blocks, and the same with the last two repeated. */
  lemma {:induction false} RepeatedPairSameRoot(sha: Sha, blocks: seq<Bytes>)
    requires |blocks| == 6
    ensures Root(sha, blocks) == Root(sha, blocks + blocks[4..])
  {
    var longer := blocks + blocks[4..];
    var l, l' := Leaves(sha, blocks), Leaves(sha, longer);
    var up, up' := Level(sha, l), Level(sha, l');
    forall i | 0 <= i < 4 ensures PadLevel(up)[i] == up'[i] {
      var k := if i < 3 then i else 2;
      assert Pair(l', i) == Pair(l, k);
    }
    hide Level, Leaves;
    assert PadLevel(up) == up' == PadLevel(up');
  }

  /** No prefix separates leaves from inner nodes: four blocks, and their two concatenated pairs of hashes. */
  lemma {:induction false} LevelShiftSameRoot(sha: Sha, blocks: seq<Bytes>)
    requires |blocks| == 4
    ensures Root(sha, blocks) == Root(sha, PairBytes(Leaves(sha, blocks)))
  {
    var l := Leaves(sha, blocks);
    LeavesOfPairs(sha, l);
    hide Level, Leaves;
    assert PadLevel(Level(sha, l)) == Level(sha, l);
  }

  // ---------------------------------------------------------------- halves

  lemma {:induction false} LevelHalves(sha: Sha, l: seq<Digest>, r: seq<Digest>)
    requires |l| >= 2 && |l| % 2 == 0 && |r| >= 2 && |r| % 2 == 0
    ensures Level(sha, l + r) == Level(sha, l) + Level(sha, r)
  {
    var n := |l| / 2;
    forall i | 0 <= i < |l + r| / 2 ensures Level(sha, l + r)[i] == (Level(sha, l) + Level(sha, r))[i] {
      if i < n {
        assert Pair(l + r, i) == Pair(l, i);
      } else {
        assert Pair(l + r, i) == Pair(r, i - n);
      }
    }
  }

  /** The hash of two children, left before right. */
  function Joined(sha: Sha, left: Bytes, right: Bytes): Digest {
    sha(left + right)
  }

  lemma {:induction false} ClimbHalves(sha: Sha, l: seq<Digest>, r: seq<Digest>, h: nat)
    requires |l| == |r| == Pow2(h)
    ensures Paired(|l|) && Paired(|l + r|) && Climb(sha, l + r) == Joined(sha, Climb(sha, l), Climb(sha, r))
    decreases h
  {
    PairedPow2(h);
    PairedPow2(h + 1);
    if h == 0 {
      assert Level(sha, l + r) == [sha(Pair(l + r, 0))];
    } else {
      PairedPow2(h - 1);
      LevelHalves(sha, l, r);
      hide Level;
      assert PadLevel(Level(sha, l)) == Level(sha, l) && PadLevel(Level(sha, r)) == Level(sha, r);
      assert PadLevel(Level(sha, l + r)) == Level(sha, l + r);
      ClimbHalves(sha, Level(sha, l), Level(sha, r), h - 1);
    }
  }

  /**
    The shape of the tree on lists whose length is a power of two: two blocks hash in order, and
    equal halves combine left before right.
   */
  lemma {:induction false} RootOfHalves(sha: Sha, x: seq<Bytes>, y: seq<Bytes>, h: nat)
    requires |x| == |y| == Pow2(h)
    ensures h == 0 ==> Root(sha, x + y) == Some(Joined(sha, sha(x[0]), sha(y[0])))
    ensures h > 0 ==> Root(sha, x).Some? && Root(sha, y).Some?
                      && Root(sha, x + y) == Some(Joined(sha, Root(sha, x).value, Root(sha, y).value))
  {
    var l, r := Leaves(sha, x), Leaves(sha, y);
    assert Leaves(sha, x + y) == l + r;
    PairedPow2(h);
    PairedPow2(h + 1);
    ClimbHalves(sha, l, r, h);
  }
}
