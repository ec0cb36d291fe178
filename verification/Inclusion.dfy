/**
  Audit paths (internal/storage/transparency/proofs.go, sections 2.1.1 of RFC 6962 and 2.1.3.2 of
  RFC 9162).

  Paths are generated top-down by recursion on the tree and checked bottom-up by a walk over the
  bits of the leaf index and of the last index.  The two meet in the list of sides on which the
  siblings lie: Sides reads it off the tree, Levels reads it off the bits, and SidesAreLevels says
  that they agree for every size.
 */
module Inclusion {
  import opened Hashing
  import opened MerkleTree
  import opened Options

  type Proof = seq<Bytes>

  /** The side on which the sibling lies. */
  datatype Side = Left | Right

  function InclusionPath(sha: Sha, m: nat, d: seq<Digest>): (path: seq<Digest>)
    requires m < |d|
    ensures |path| == |Sides(m, |d|)|
    decreases |d|
  {
    if |d| == 1 then []
    else
      var k := SplitPoint(|d|);
      if m < k then InclusionPath(sha, m, d[..k]) + [MerkleTreeHash(sha, d[k..])]
      else InclusionPath(sha, m - k, d[k..]) + [MerkleTreeHash(sha, d[..k])]
  }

  /** The exported generator: the nil proof when the leaf is not in the tree. */
  function InclusionProof(sha: Sha, m: nat, d: seq<Digest>): Proof {
    if m >= |d| then [] else InclusionPath(sha, m, d)
  }

  // ---------------------------------------------------------------- directions

  /** The sides of the siblings of leaf m in a tree of n leaves, read off the tree, deepest first. */
  function Sides(m: nat, n: nat): seq<Side>
    requires m < n
    decreases n
  {
    if n == 1 then []
    else
      var k := SplitPoint(n);
      if m < k then Sides(m, k) + [Right] else Sides(m - k, n - k) + [Left]
  }

  /** The sibling of node fn among nodes 0..sn of one level, if it has one. */
  function LevelSide(fn: nat, sn: nat): seq<Side> {
    if fn % 2 == 1 then [Left] else if fn < sn then [Right] else []
  }

  /** The same list read off the bits of the leaf index and of the last index, level by level. */
  function Levels(fn: nat, sn: nat): seq<Side>
    requires fn <= sn
  {
    if sn == 0 then [] else LevelSide(fn, sn) + Levels(fn / 2, sn / 2)
  }

  lemma {:induction false} SidesSplit(m: nat, n: nat, k: nat)
    requires m < n && n >= 2 && k == SplitPoint(n)
    ensures Sides(m, n) == if m < k then Sides(m, k) + [Right] else Sides(m - k, n - k) + [Left]
  {}

  lemma {:induction false} SidesInLeft(m: nat, half: nat, n: nat, up: nat, h: nat, level: seq<Side>)
    requires n >= 2 && up >= 2 && h == SplitPoint(up) && 2 * h == SplitPoint(n) && m < 2 * h && half < h
    requires Sides(m, 2 * h) == level + Sides(half, h)
    ensures Sides(m, n) == level + Sides(half, up)
  {
    hide *;
    SidesSplit(m, n, 2 * h);
    SidesSplit(half, up, h);
  }

  lemma {:induction false} SidesInRight(m: nat, half: nat, n: nat, up: nat, h: nat, level: seq<Side>)
    requires n >= 2 && up >= 2 && h == SplitPoint(up) && 2 * h == SplitPoint(n) && 2 * h <= m < n && h <= half < up
    requires Sides(m - 2 * h, n - 2 * h) == level + Sides(half - h, up - h)
    ensures Sides(m, n) == level + Sides(half, up)
  {
    hide *;
    SidesSplit(m, n, 2 * h);
    SidesSplit(half, up, h);
  }

  lemma {:induction false} HalveLeft(m: nat, n: nat, h: nat)
    requires m < 2 * h < n
    ensures Up(2 * h) == h && m / 2 < h < Up(n) && LevelSide(m, 2 * h - 1) == LevelSide(m, n - 1)
  {}

  lemma {:induction false} HalveRight(m: nat, n: nat, h: nat)
    requires 2 * h <= m < n
    ensures (m - 2 * h) / 2 == m / 2 - h && Up(n - 2 * h) == Up(n) - h && m / 2 < Up(n)
    ensures LevelSide(m - 2 * h, n - 2 * h - 1) == LevelSide(m, n - 1)
  {}

  lemma {:induction false} SplitHalves(n: nat)
    requires n > 2
    ensures 2 <= Up(n) && SplitPoint(n) == 2 * SplitPoint(Up(n)) < n
  {}

  lemma {:induction false} SidesOfFew(m: nat, n: nat)
    requires m < n <= 2
    ensures m / 2 < Up(n) && Sides(m, n) == LevelSide(m, n - 1) + Sides(m / 2, Up(n))
  {
    assert Sides(0, 1) == [];
  }

  /** A tree of n leaves is a tree of Up(n) nodes over pairs of leaves. */
  lemma {:induction false} SidesHalve(m: nat, n: nat)
    requires m < n
    ensures m / 2 < Up(n) && Sides(m, n) == LevelSide(m, n - 1) + Sides(m / 2, Up(n))
    decreases n
  {
    hide *;
    if n <= 2 {
      SidesOfFew(m, n);
    } else {
      SplitHalves(n);
      var h := SplitPoint(Up(n));
      if m < 2 * h {
        SidesHalve(m, 2 * h);
        HalveLeft(m, n, h);
        SidesInLeft(m, m / 2, n, Up(n), h, LevelSide(m, n - 1));
      } else {
        SidesHalve(m - 2 * h, n - 2 * h);
        HalveRight(m, n, h);
        SidesInRight(m, m / 2, n, Up(n), h, LevelSide(m, n - 1));
      }
    }
  }

  lemma {:induction false} SidesAreLevels(m: nat, n: nat)
    requires m < n
    ensures Sides(m, n) == Levels(m, n - 1)
    decreases n
  {
    if n > 1 {
      SidesHalve(m, n);
      SidesAreLevels(m / 2, Up(n));
    }
  }

  /** No audit path is longer than the logarithm of the size, rounded up. */
  function CeilLog2(n: nat): nat
    requires n >= 1
  {
    if n == 1 then 0 else 1 + CeilLog2(Up(n))
  }

  lemma {:induction false} PathLength(m: nat, n: nat)
    requires m < n
    ensures |Sides(m, n)| <= CeilLog2(n)
    ensures Sides(0, n) == seq(CeilLog2(n), _ => Right)
  {
    if n > 1 {
      PathLength(m / 2, Up(n));
      SidesHalve(m, n);
      SidesHalve(0, n);
    }
  }

  // ---------------------------------------------------------------- folding

  function Absorb(sha: Sha, side: Side, current: Digest, p: Digest): Digest {
    match side
    case Left => HashChildren(sha, p, current)
    case Right => HashChildren(sha, current, p)
  }

  lemma {:induction false} AbsorbSides(sha: Sha, current: Digest, p: Digest)
    ensures Absorb(sha, Left, current, p) == HashChildren(sha, p, current)
    ensures Absorb(sha, Right, current, p) == HashChildren(sha, current, p)
  {}

  /** Absorbs siblings until either list runs out. */
  function Fold(sha: Sha, h: Digest, sides: seq<Side>, path: seq<Digest>): Digest
    decreases |sides|
  {
    if sides == [] || path == [] then h
    else Fold(sha, Absorb(sha, sides[0], h, path[0]), sides[1..], path[1..])
  }

  lemma {:induction false} FoldSnoc(sha: Sha, h: Digest, sides: seq<Side>, path: seq<Digest>, side: Side, p: Digest)
    requires |sides| == |path|
    ensures Fold(sha, h, sides + [side], path + [p]) == Absorb(sha, side, Fold(sha, h, sides, path), p)
    decreases |sides|
  {
    if sides == [] {
      assert (sides + [side])[1..] == [];
    } else {
      assert (sides + [side])[1..] == sides[1..] + [side];
      assert (path + [p])[1..] == path[1..] + [p];
      FoldSnoc(sha, Absorb(sha, sides[0], h, path[0]), sides[1..], path[1..], side, p);
    }
  }

  lemma {:induction false} FoldTruncates(sha: Sha, h: Digest, sides: seq<Side>, path: seq<Digest>)
    requires |path| >= |sides|
    ensures Fold(sha, h, sides, path) == Fold(sha, h, sides, path[..|sides|])
    decreases |sides|
  {
    if sides != [] {
      assert path[..|sides|][1..] == path[1..][..|sides| - 1];
      FoldTruncates(sha, Absorb(sha, sides[0], h, path[0]), sides[1..], path[1..]);
    }
  }

  lemma {:induction false} PathSplit(sha: Sha, m: nat, d: seq<Digest>, k: nat)
    requires m < |d| && |d| >= 2 && k == SplitPoint(|d|)
    ensures InclusionPath(sha, m, d)
            == if m < k then InclusionPath(sha, m, d[..k]) + [MerkleTreeHash(sha, d[k..])]
               else InclusionPath(sha, m - k, d[k..]) + [MerkleTreeHash(sha, d[..k])]
  {}

  lemma {:induction false} FoldPath(sha: Sha, m: nat, d: seq<Digest>)
    requires m < |d|
    ensures Fold(sha, d[m], Sides(m, |d|), InclusionPath(sha, m, d)) == MerkleTreeHash(sha, d)
    decreases |d|
  {
    if |d| > 1 {
      var k := SplitPoint(|d|);
      var left, right := d[..k], d[k..];
      hide *;
      PathSplit(sha, m, d, k);
      SidesSplit(m, |d|, k);
      TreeSplit(sha, d, k);
      var l, r := MerkleTreeHash(sha, left), MerkleTreeHash(sha, right);
      if m < k {
        FoldPath(sha, m, left);
        FoldSnoc(sha, d[m], Sides(m, k), InclusionPath(sha, m, left), Right, r);
        AbsorbSides(sha, l, r);
      } else {
        FoldPath(sha, m - k, right);
        FoldSnoc(sha, d[m], Sides(m - k, |right|), InclusionPath(sha, m - k, right), Left, l);
        AbsorbSides(sha, r, l);
      }
    }
  }

  // ---------------------------------------------------------------- the verifier

  function Digests(proof: Proof): (r: seq<Digest>)
    ensures |r| == |proof|
  {
    seq(|proof|, i requires 0 <= i < |proof| => ToDigest(proof[i]))
  }

  lemma {:induction false} DigestAt(proof: Proof, i: nat)
    requires i < |proof|
    ensures Digests(proof)[i] == ToDigest(proof[i])
  {}

  lemma {:induction false} DigestsUnchanged(path: seq<Digest>)
    ensures Digests(path) == path
  {
    forall i | 0 <= i < |path| ensures Digests(path)[i] == path[i] {
      DigestUnchanged(path[i]);
    }
  }

  /** The root that the bit walk rebuilds. */
  function RebuiltRoot(sha: Sha, leafHash: Digest, m: nat, n: nat, proof: Proof): Digest {
    if m >= n then ZeroDigest() else Fold(sha, leafHash, Sides(m, n), Digests(proof))
  }

  /** What one level contributes; a node with no sibling first climbs until it is a right child. */
  lemma {:induction false} LevelsStep(fn: nat, sn: nat)
    requires 0 < sn && fn <= sn
    ensures fn % 2 == 1 ==> Levels(fn, sn) == [Left] + Levels(fn / 2, sn / 2)
    ensures fn % 2 == 0 && fn < sn ==> Levels(fn, sn) == [Right] + Levels(fn / 2, sn / 2)
    ensures fn % 2 == 0 && fn == sn ==> Levels(fn, sn) == Levels(fn / 2, sn / 2)
    ensures fn == sn ==> Levels(fn, sn) != [] && Levels(fn, sn)[0] == Left
  {
    if fn == sn && fn % 2 == 0 {
      LevelsStep(fn / 2, sn / 2);
    }
  }

  lemma {:induction false} LevelsSilent(fn: nat)
    requires fn > 0 && fn % 2 == 0
    ensures Levels(fn, fn) == Levels(fn / 2, fn / 2)
  {}

  /** What is left of a walk still leads to the given root. */
  ghost predicate Walking(sha: Sha, current: Digest, fn: nat, sn: nat, digests: seq<Digest>, i: nat, goal: Digest) {
    fn <= sn && i <= |digests| && Fold(sha, current, Levels(fn, sn), digests[i..]) == goal
  }

  /** A right child, or a node that first climbs to (fn', sn') to become one, takes a left sibling. */
  lemma {:induction false} WalkLeft(sha: Sha, current: Digest, fn: nat, sn: nat, digests: seq<Digest>, i: nat, goal: Digest,
                                    fn': nat, sn': nat)
    requires Walking(sha, current, fn, sn, digests, i, goal) && i < |digests|
    requires fn' <= sn' && fn' % 2 == 1 && Levels(fn', sn') == Levels(fn, sn)
    ensures Walking(sha, HashChildren(sha, digests[i], current), fn' / 2, sn' / 2, digests, i + 1, goal)
    ensures |Levels(fn, sn)| == 1 + |Levels(fn' / 2, sn' / 2)|
  {
    LevelsStep(fn', sn');
    hide Levels;
    assert digests[i..][1..] == digests[i + 1..];
  }

  /** A left child with a sibling takes it on the right. */
  lemma {:induction false} WalkRight(sha: Sha, current: Digest, fn: nat, sn: nat, digests: seq<Digest>, i: nat, goal: Digest)
    requires Walking(sha, current, fn, sn, digests, i, goal) && i < |digests| && fn < sn && fn % 2 == 0
    ensures Walking(sha, HashChildren(sha, current, digests[i]), fn / 2, sn / 2, digests, i + 1, goal)
    ensures |Levels(fn, sn)| == 1 + |Levels(fn / 2, sn / 2)|
  {
    LevelsStep(fn, sn);
    hide Levels;
    assert digests[i..][1..] == digests[i + 1..];
  }

  lemma {:induction false} WalkBounds(sha: Sha, current: Digest, fn: nat, sn: nat, digests: seq<Digest>, i: nat, goal: Digest)
    requires Walking(sha, current, fn, sn, digests, i, goal)
    ensures fn <= sn && i <= |digests|
    ensures sn == 0 || i == |digests| ==> current == goal
    ensures sn == 0 <==> |Levels(fn, sn)| == 0
  {
    if sn > 0 {
      LevelsStep(fn, sn);
    }
  }

  lemma {:induction false} RebuiltFromLevels(sha: Sha, h: Digest, m: nat, n: nat, proof: Proof)
    requires m < n
    ensures Walking(sha, h, m, n - 1, Digests(proof), 0, RebuiltRoot(sha, h, m, n, proof))
    ensures |Levels(m, n - 1)| == |Sides(m, n)|
  {
    SidesAreLevels(m, n);
    assert Digests(proof)[0..] == Digests(proof);
  }

  /** used counts the entries the walk looks at, top is where it leaves the last index. */
  method VerifyInclusion(sha: Sha, leafHash: Digest, leafIndex: nat, treeSize: nat, proof: Proof)
    returns (root: Digest, ghost used: nat, ghost top: nat)
    ensures root == RebuiltRoot(sha, leafHash, leafIndex, treeSize, proof)
    ensures leafIndex >= treeSize ==> root == ZeroDigest()
    ensures leafIndex < treeSize ==> used == Used(|Sides(leafIndex, treeSize)|, |proof|)
    ensures leafIndex < treeSize ==> (top == 0 <==> |proof| >= |Sides(leafIndex, treeSize)|)
  {
    if treeSize == 0 || leafIndex >= treeSize {
      return ZeroDigest(), 0, 0;
    }
    if treeSize == 1 {
      return leafHash, 0, 0;
    }
    var fn: nat, sn: nat, current := leafIndex, treeSize - 1, leafHash;
    ghost var goal, digests := RebuiltRoot(sha, leafHash, leafIndex, treeSize, proof), Digests(proof);
    ghost var length := |Sides(leafIndex, treeSize)|;
    RebuiltFromLevels(sha, leafHash, leafIndex, treeSize, proof);
    hide *;
    var i := 0;
    while i < |proof|
      invariant i <= |proof| && Walking(sha, current, fn, sn, digests, i, goal)
      invariant fn <= sn && i + |Levels(fn, sn)| == length
    {
      WalkBounds(sha, current, fn, sn, digests, i, goal);
      if sn == 0 {
        break;
      }
      var p := ToDigest(proof[i]);
      DigestAt(proof, i);
      if fn % 2 == 1 || fn == sn {
        ghost var before, fn0, sn0 := current, fn, sn;
        current := HashChildren(sha, p, current);
        while fn != 0 && fn % 2 == 0
          invariant 0 < fn <= sn && (fn % 2 == 1 || fn == sn)
          invariant Levels(fn, sn) == Levels(fn0, sn0)
        {
          LevelsSilent(fn);
          fn, sn := fn / 2, sn / 2;
        }
        WalkLeft(sha, before, fn0, sn0, digests, i, goal, fn, sn);
      } else {
        WalkRight(sha, current, fn, sn, digests, i, goal);
        current := HashChildren(sha, current, p);
      }
      fn, sn := fn / 2, sn / 2;
      i := i + 1;
    }
    WalkBounds(sha, current, fn, sn, digests, i, goal);
    UsedIs(length, |proof|);
    root, used, top := current, i, sn;
  }

  /** The shorter of the two lists decides. */
  function Used(sides: nat, entries: nat): nat {
    if sides <= entries then sides else entries
  }

  lemma UsedIs(sides: nat, entries: nat)
    ensures Used(sides, entries) == if sides <= entries then sides else entries
  {}

  // ---------------------------------------------------------------- completeness and soundness

  /** Every generated proof rebuilds the root. */
  lemma {:induction false} InclusionComplete(sha: Sha, m: nat, d: seq<Digest>)
    requires m < |d|
    ensures RebuiltRoot(sha, d[m], m, |d|, InclusionProof(sha, m, d)) == MerkleTreeHash(sha, d)
    ensures |InclusionProof(sha, m, d)| == |Sides(m, |d|)| == |Levels(m, |d| - 1)| <= CeilLog2(|d|)
  {
    hide InclusionPath, Sides, Levels, Fold, MerkleTreeHash, Digests, CeilLog2;
    FoldPath(sha, m, d);
    DigestsUnchanged(InclusionPath(sha, m, d));
    SidesAreLevels(m, |d|);
    PathLength(m, |d|);
  }

  /** Entries past the length of the path are never looked at. */
  lemma {:induction false} SurplusIgnored(sha: Sha, h: Digest, m: nat, n: nat, proof: Proof)
    requires m < n && |proof| >= |Sides(m, n)|
    ensures RebuiltRoot(sha, h, m, n, proof) == RebuiltRoot(sha, h, m, n, proof[..|Sides(m, n)|])
  {
    var sides := Sides(m, n);
    FoldTruncates(sha, h, sides, Digests(proof));
    assert Digests(proof)[..|sides|] == Digests(proof[..|sides|]);
  }

  /** The first node at which a forged path leaves the tree opens an inner hash in two ways. */
  function PathCollision(sha: Sha, h: Digest, m: nat, d: seq<Digest>, path: seq<Digest>): Collision
    requires m < |d| && |path| == |Sides(m, |d|)|
    decreases |d|
  {
    if |d| == 1 then Collision([], [])
    else
      var k, front := SplitPoint(|d|), path[..|path| - 1];
      var l, r, p := MerkleTreeHash(sha, d[..k]), MerkleTreeHash(sha, d[k..]), path[|path| - 1];
      if m < k then
        var below := Fold(sha, h, Sides(m, k), front);
        if below == l && p == r then PathCollision(sha, h, m, d[..k], front) else ChildrenPair(below, p, l, r)
      else
        var below := Fold(sha, h, Sides(m - k, |d| - k), front);
        if p == l && below == r then PathCollision(sha, h, m - k, d[k..], front) else ChildrenPair(p, below, l, r)
  }

  lemma {:induction false} PathCollisionLeft(sha: Sha, h: Digest, m: nat, d: seq<Digest>, path: seq<Digest>, k: nat)
    requires m < k < |d| && k == SplitPoint(|d|) && |path| == |Sides(m, |d|)| == |Sides(m, k)| + 1
    ensures var l, r, p := MerkleTreeHash(sha, d[..k]), MerkleTreeHash(sha, d[k..]), path[|path| - 1];
            var below := Fold(sha, h, Sides(m, k), path[..|path| - 1]);
            PathCollision(sha, h, m, d, path)
            == if below == l && p == r then PathCollision(sha, h, m, d[..k], path[..|path| - 1])
               else ChildrenPair(below, p, l, r)
  {
    hide Sides, Fold, MerkleTreeHash, ChildrenPair, SplitPoint;
  }

  lemma {:induction false} PathCollisionRight(sha: Sha, h: Digest, m: nat, d: seq<Digest>, path: seq<Digest>, k: nat)
    requires 1 <= k <= m < |d| && k == SplitPoint(|d|) && |path| == |Sides(m, |d|)| == |Sides(m - k, |d| - k)| + 1
    ensures var l, r, p := MerkleTreeHash(sha, d[..k]), MerkleTreeHash(sha, d[k..]), path[|path| - 1];
            var below := Fold(sha, h, Sides(m - k, |d| - k), path[..|path| - 1]);
            PathCollision(sha, h, m, d, path)
            == if p == l && below == r then PathCollision(sha, h, m - k, d[k..], path[..|path| - 1])
               else ChildrenPair(p, below, l, r)
  {
    hide Sides, Fold, MerkleTreeHash, ChildrenPair, SplitPoint;
  }

  lemma {:induction false} PathOfOne(sha: Sha, h: Digest, d: seq<Digest>)
    requires |d| == 1
    ensures Sides(0, 1) == [] && InclusionPath(sha, 0, d) == [] && MerkleTreeHash(sha, d) == d[0]
    ensures Fold(sha, h, [], []) == h
  {}

  lemma {:induction false} PathSound(sha: Sha, h: Digest, m: nat, d: seq<Digest>, path: seq<Digest>)
    requires m < |d| && |path| == |Sides(m, |d|)|
    requires Fold(sha, h, Sides(m, |d|), path) == MerkleTreeHash(sha, d)
    ensures (h == d[m] && path == InclusionPath(sha, m, d)) || IsCollision(sha, PathCollision(sha, h, m, d, path))
    decreases |d|
  {
    hide *;
    if |d| == 1 {
      PathOfOne(sha, h, d);
      assert path == [];
    } else {
      var k := SplitPoint(|d|);
      SidesSplit(m, |d|, k);
      var front, p := path[..|path| - 1], path[|path| - 1];
      var left, right := d[..k], d[k..];
      var l, r := MerkleTreeHash(sha, left), MerkleTreeHash(sha, right);
      assert path == front + [p];
      PathSplit(sha, m, d, k);
      TreeSplit(sha, d, k);
      if m < k {
        var below := Fold(sha, h, Sides(m, k), front);
        FoldSnoc(sha, h, Sides(m, k), front, Right, p);
        AbsorbSides(sha, below, p);
        OpenedTwice(sha, below, p, l, r);
        PathCollisionLeft(sha, h, m, d, path, k);
        if below == l && p == r {
          PathSound(sha, h, m, left, front);
        }
      } else {
        var below := Fold(sha, h, Sides(m - k, |right|), front);
        FoldSnoc(sha, h, Sides(m - k, |right|), front, Left, p);
        AbsorbSides(sha, below, p);
        OpenedTwice(sha, p, below, l, r);
        PathCollisionRight(sha, h, m, d, path, k);
        if p == l && below == r {
          PathSound(sha, h, m - k, right, front);
        }
      }
    }
  }

  /** A proof that is long enough binds the leaf, its index and every sibling. */
  lemma {:induction false} InclusionSound(sha: Sha, h: Digest, m: nat, d: seq<Digest>, proof: Proof)
    requires m < |d| && |proof| >= |Sides(m, |d|)|
    requires RebuiltRoot(sha, h, m, |d|, proof) == MerkleTreeHash(sha, d)
    ensures var used := Digests(proof)[..|Sides(m, |d|)|];
            (h == d[m] && used == InclusionPath(sha, m, d)) || IsCollision(sha, PathCollision(sha, h, m, d, used))
  {
    FoldTruncates(sha, h, Sides(m, |d|), Digests(proof));
    PathSound(sha, h, m, d, Digests(proof)[..|Sides(m, |d|)|]);
  }

  // ---------------------------------------------------------------- short proofs

  /** The leaf hashes of a list of payloads. */
  function LeafHashes(sha: Sha, payloads: seq<Bytes>): (d: seq<Digest>)
    ensures |d| == |payloads|
  {
    seq(|payloads|, i requires 0 <= i < |payloads| => HashLeaf(sha, payloads[i]))
  }

  /** A node of the tree: the leaves below it, and its siblings on the way to the root. */
  datatype Node = Node(leaves: seq<Bytes>, siblings: seq<Digest>)

  function TreeOf(sha: Sha, payloads: seq<Bytes>): Digest {
    MerkleTreeHash(sha, LeafHashes(sha, payloads))
  }

  /** The node reached from the root by turning away from each sibling, last side first. */
  function Reached(sha: Sha, payloads: seq<Bytes>, sides: seq<Side>): (r: Option<Node>)
    ensures r.Some? ==> |r.value.siblings| == |sides| && forall p :: p in r.value.leaves ==> p in payloads
    decreases |sides|
  {
    if sides == [] then Some(Node(payloads, []))
    else if |payloads| < 2 then None
    else
      var last, k := |sides| - 1, SplitPoint(|payloads|);
      var right := sides[last].Left?;
      match Reached(sha, if right then payloads[k..] else payloads[..k], sides[..last])
      case None => None
      case Some(node) =>
        Some(Node(node.leaves, node.siblings + [TreeOf(sha, if right then payloads[..k] else payloads[k..])]))
  }

  /** The given hash and entries are those of the node that the sides lead to. */
  predicate Opens(sha: Sha, h: Digest, payloads: seq<Bytes>, sides: seq<Side>, path: seq<Digest>) {
    var node := Reached(sha, payloads, sides);
    node.Some? && h == TreeOf(sha, node.value.leaves) && path == node.value.siblings
  }

  /** Where a path that leaves the tree breaks the hash. */
  function ReachCollision(sha: Sha, h: Digest, payloads: seq<Bytes>, sides: seq<Side>, path: seq<Digest>): Collision
    requires |sides| == |path|
    decreases |sides|
  {
    if sides == [] then Collision([], [])
    else
      var last, n := |sides| - 1, |payloads|;
      var p, below := path[last], Fold(sha, h, sides[..last], path[..last]);
      var x, y := if sides[last].Left? then p else below, if sides[last].Left? then below else p;
      if n == 0 then Collision([INNER_PREFIX] + x + y, [])
      else if n == 1 then LeafInnerPair(payloads[0], x, y)
      else
        var k := SplitPoint(n);
        var l, r := TreeOf(sha, payloads[..k]), TreeOf(sha, payloads[k..]);
        if x != l || y != r then ChildrenPair(x, y, l, r)
        else ReachCollision(sha, h, if sides[last].Left? then payloads[k..] else payloads[..k], sides[..last], path[..last])
  }

  lemma {:induction false} TreeOfPayloads(sha: Sha, payloads: seq<Bytes>, k: nat)
    requires |payloads| >= 2 && k == SplitPoint(|payloads|)
    ensures TreeOf(sha, payloads) == HashChildren(sha, TreeOf(sha, payloads[..k]), TreeOf(sha, payloads[k..]))
  {
    var d := LeafHashes(sha, payloads);
    assert d[..k] == LeafHashes(sha, payloads[..k]);
    assert d[k..] == LeafHashes(sha, payloads[k..]);
  }

  /** The tree hash as section 2.1 of RFC 6962 writes it, for whichever power of two splits the list. */
  lemma {:induction false} TreeHashRfc(sha: Sha, payloads: seq<Bytes>, k: nat)
    ensures payloads == [] ==> TreeOf(sha, payloads) == sha([])
    ensures |payloads| == 1 ==> TreeOf(sha, payloads) == sha([0x00] + payloads[0])
    ensures IsPow2(k) && k < |payloads| <= 2 * k ==>
              var left: Bytes, right: Bytes := TreeOf(sha, payloads[..k]), TreeOf(sha, payloads[k..]);
              TreeOf(sha, payloads) == sha([0x01] + left + right)
  {
    TreeOfFew(sha, payloads);
    if IsPow2(k) && k < |payloads| <= 2 * k {
      if |payloads| >= 2 {
        SplitPointUnique(|payloads|, k);
        TreeOfPayloads(sha, payloads, k);
      }
      hide TreeOf, IsPow2;
    }
  }

  lemma {:induction false} TreeOfFew(sha: Sha, payloads: seq<Bytes>)
    ensures |payloads| == 0 ==> TreeOf(sha, payloads) == EmptyRoot(sha)
    ensures |payloads| == 1 ==> TreeOf(sha, payloads) == HashLeaf(sha, payloads[0])
  {}

  lemma {:induction false} FoldLast(sha: Sha, h: Digest, sides: seq<Side>, path: seq<Digest>, last: nat)
    requires |sides| == |path| == last + 1
    ensures Fold(sha, h, sides, path) == Absorb(sha, sides[last], Fold(sha, h, sides[..last], path[..last]), path[last])
  {
    FoldSnoc(sha, h, sides[..last], path[..last], sides[last], path[last]);
    assert sides[..last] + [sides[last]] == sides && path[..last] + [path[last]] == path;
  }

  /** What the last side and entry say about the tree. */
  lemma {:induction false} LastStep(sha: Sha, h: Digest, payloads: seq<Bytes>, sides: seq<Side>, path: seq<Digest>, last: nat, k: nat)
    requires |sides| == |path| == last + 1 && |payloads| >= 2 && k == SplitPoint(|payloads|)
    ensures var right := sides[last].Left?;
            var side, other := if right then payloads[k..] else payloads[..k], if right then payloads[..k] else payloads[k..];
            var below := Fold(sha, h, sides[..last], path[..last]);
            && (below == TreeOf(sha, side) && path[last] == TreeOf(sha, other) ==> Fold(sha, h, sides, path) == TreeOf(sha, payloads))
            && (Opens(sha, h, payloads, sides, path) <==>
                  Opens(sha, h, side, sides[..last], path[..last]) && path[last] == TreeOf(sha, other))
  {
    FoldLast(sha, h, sides, path, last);
    TreeOfPayloads(sha, payloads, k);
    hide Fold, TreeOf, LeafHashes, HashChildren;
    assert path == path[..last] + [path[last]];
  }

  lemma {:induction false} FoldOpens(sha: Sha, h: Digest, payloads: seq<Bytes>, sides: seq<Side>, path: seq<Digest>)
    requires |sides| == |path| && Opens(sha, h, payloads, sides, path)
    ensures Fold(sha, h, sides, path) == TreeOf(sha, payloads)
    decreases |sides|
  {
    if sides != [] {
      var last, k := |sides| - 1, SplitPoint(|payloads|);
      LastStep(sha, h, payloads, sides, path, last, k);
      hide Fold, TreeOf, Opens;
      FoldOpens(sha, h, if sides[last].Left? then payloads[k..] else payloads[..k], sides[..last], path[..last]);
    }
  }

  lemma {:induction false} FoldSound(sha: Sha, h: Digest, payloads: seq<Bytes>, sides: seq<Side>, path: seq<Digest>)
    requires |sides| == |path| && Fold(sha, h, sides, path) == TreeOf(sha, payloads)
    ensures Opens(sha, h, payloads, sides, path) || IsCollision(sha, ReachCollision(sha, h, payloads, sides, path))
    decreases |sides|
  {
    if sides != [] {
      var last, n := |sides| - 1, |payloads|;
      FoldLast(sha, h, sides, path, last);
      TreeOfFew(sha, payloads);
      var p, below := path[last], Fold(sha, h, sides[..last], path[..last]);
      var x, y := if sides[last].Left? then p else below, if sides[last].Left? then below else p;
      assert HashChildren(sha, x, y) == TreeOf(sha, payloads);
      if n == 1 {
        LeafIsNotInner(sha, payloads[0], x, y);
      } else if n >= 2 {
        var k := SplitPoint(n);
        TreeOfPayloads(sha, payloads, k);
        OpenedTwice(sha, x, y, TreeOf(sha, payloads[..k]), TreeOf(sha, payloads[k..]));
        LastStep(sha, h, payloads, sides, path, last, k);
        hide Fold, TreeOf, Opens, HashChildren, HashLeaf, LeafHashes, IsCollision;
        if x == TreeOf(sha, payloads[..k]) && y == TreeOf(sha, payloads[k..]) {
          FoldSound(sha, h, if sides[last].Left? then payloads[k..] else payloads[..k], sides[..last], path[..last]);
        }
      }
    }
  }

  lemma {:induction false} FoldCommon(sha: Sha, h: Digest, sides: seq<Side>, path: seq<Digest>)
    ensures var used := Used(|sides|, |path|);
            Fold(sha, h, sides, path) == Fold(sha, h, sides[..used], path[..used])
    decreases |sides|
  {
    if sides != [] && path != [] {
      var used := Used(|sides|, |path|);
      FoldCommon(sha, Absorb(sha, sides[0], h, path[0]), sides[1..], path[1..]);
      assert sides[..used][1..] == sides[1..][..used - 1] && path[..used][1..] == path[1..][..used - 1];
    }
  }

  /** The sides and the entries that a proof makes the walk use. */
  function UsedSides(m: nat, n: nat, proof: Proof): seq<Side>
    requires m < n
  {
    Sides(m, n)[..Used(|Sides(m, n)|, |proof|)]
  }

  function UsedEntries(m: nat, n: nat, proof: Proof): seq<Digest>
    requires m < n
  {
    Digests(proof)[..Used(|Sides(m, n)|, |proof|)]
  }

  /**
    Exactly what a proof of any length shows, the empty one included: the hash is that of the node
    which the used sides lead to from the root, and the used entries are its siblings.
   */
  lemma {:induction false} AcceptedIffOpens(sha: Sha, h: Digest, m: nat, payloads: seq<Bytes>, proof: Proof)
    requires m < |payloads|
    ensures var sides, entries := UsedSides(m, |payloads|, proof), UsedEntries(m, |payloads|, proof);
            var accepted := RebuiltRoot(sha, h, m, |payloads|, proof) == TreeOf(sha, payloads);
            && (Opens(sha, h, payloads, sides, entries) ==> accepted)
            && (accepted ==> Opens(sha, h, payloads, sides, entries)
                             || IsCollision(sha, ReachCollision(sha, h, payloads, sides, entries)))
  {
    var sides, entries := UsedSides(m, |payloads|, proof), UsedEntries(m, |payloads|, proof);
    FoldCommon(sha, h, Sides(m, |payloads|), Digests(proof));
    hide Fold, Opens, TreeOf, IsCollision, Digests, Sides;
    if Opens(sha, h, payloads, sides, entries) {
      FoldOpens(sha, h, payloads, sides, entries);
    }
    if Fold(sha, h, sides, entries) == TreeOf(sha, payloads) {
      FoldSound(sha, h, payloads, sides, entries);
    }
  }

  /** The two preimages of a payload's hash that is not the hash of a leaf of this subtree. */
  function LeafCollision(sha: Sha, payload: Bytes, leaves: seq<Bytes>): Collision {
    if |leaves| == 0 then Collision([LEAF_PREFIX] + payload, [])
    else if |leaves| == 1 then LeafPair(payload, leaves[0])
    else
      var k := SplitPoint(|leaves|);
      LeafInnerPair(payload, TreeOf(sha, leaves[..k]), TreeOf(sha, leaves[k..]))
  }

  lemma {:induction false} LeafIsMember(sha: Sha, payload: Bytes, leaves: seq<Bytes>)
    requires HashLeaf(sha, payload) == TreeOf(sha, leaves)
    ensures payload in leaves || IsCollision(sha, LeafCollision(sha, payload, leaves))
  {
    TreeOfFew(sha, leaves);
    if |leaves| == 1 {
      LeafOpenedTwice(sha, payload, leaves[0]);
    } else if |leaves| >= 2 {
      var k := SplitPoint(|leaves|);
      TreeOfPayloads(sha, leaves, k);
      LeafIsNotInner(sha, payload, TreeOf(sha, leaves[..k]), TreeOf(sha, leaves[k..]));
    }
  }

  function MemberCollision(sha: Sha, payload: Bytes, payloads: seq<Bytes>, sides: seq<Side>, path: seq<Digest>): Collision
    requires |sides| == |path|
  {
    var h := HashLeaf(sha, payload);
    if Opens(sha, h, payloads, sides, path) then LeafCollision(sha, payload, Reached(sha, payloads, sides).value.leaves)
    else ReachCollision(sha, h, payloads, sides, path)
  }

  /**
    For the hash of a payload: a proof of any length, truncated ones included, shows that the
    payload is somewhere in the tree.  Only the index needs the full length: see
    ShortProofMovesLeaf.
   */
  lemma {:induction false} MembershipSound(sha: Sha, payload: Bytes, m: nat, payloads: seq<Bytes>, proof: Proof)
    requires m < |payloads|
    requires RebuiltRoot(sha, HashLeaf(sha, payload), m, |payloads|, proof)
             == MerkleTreeHash(sha, LeafHashes(sha, payloads))
    ensures payload in payloads
            || IsCollision(sha, MemberCollision(sha, payload, payloads, UsedSides(m, |payloads|, proof),
                                                UsedEntries(m, |payloads|, proof)))
  {
    var h, sides, entries := HashLeaf(sha, payload), UsedSides(m, |payloads|, proof), UsedEntries(m, |payloads|, proof);
    AcceptedIffOpens(sha, h, m, payloads, proof);
    hide HashLeaf, RebuiltRoot, MerkleTreeHash, IsCollision, Reached, ReachCollision, LeafCollision;
    if Opens(sha, h, payloads, sides, entries) {
      LeafIsMember(sha, payload, Reached(sha, payloads, sides).value.leaves);
    }
  }

  /** With one entry instead of three, the last of five leaves passes for the second. */
  lemma {:induction false} ShortProofMovesLeaf(sha: Sha, d: seq<Digest>)
    requires |d| == 5
    ensures |Sides(1, 5)| == 3
    ensures RebuiltRoot(sha, d[4], 1, 5, [MerkleTreeHash(sha, d[..4])]) == MerkleTreeHash(sha, d)
  {
    var p := MerkleTreeHash(sha, d[..4]);
    DigestsUnchanged([p]);
    assert SplitPoint(3) == 2 && SplitPoint(5) == 4;
    SidesAreLevels(1, 5);
    assert Levels(1, 4) == [Left] + Levels(0, 2);
    assert d[4..] == [d[4]];
  }
}
