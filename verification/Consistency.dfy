/**
  Consistency proofs (internal/storage/transparency/proofs.go, sections 2.1.2 of RFC 6962 and
  2.1.4.2 of RFC 9162).

  The last node of the smaller tree is followed up the larger one.  A sibling on the left belongs
  to both trees, a sibling on the right to the larger one only.  Seam reads the sides off the
  tree; SeamIsLevels says that, once the trailing one bits are dropped, they are the audit path
  sides of the remaining node.
 */
module Consistency {
  import opened Hashing
  import opened MerkleTree
  import opened Inclusion

  function SubProof(sha: Sha, m: nat, d: seq<Digest>, b: bool): seq<Digest>
    requires 1 <= m <= |d|
    decreases |d|
  {
    if m == |d| then (if b then [] else [MerkleTreeHash(sha, d)])
    else
      var k := SplitPoint(|d|);
      if m <= k then SubProof(sha, m, d[..k], b) + [MerkleTreeHash(sha, d[k..])]
      else SubProof(sha, m - k, d[k..], false) + [MerkleTreeHash(sha, d[..k])]
  }

  function ConsistencyProof(sha: Sha, n1: nat, n2: nat, leafHashes: seq<Digest>): Proof {
    if n1 == 0 || n1 > n2 || n2 > |leafHashes| then []
    else if n1 == n2 then []
    else SubProof(sha, n1, leafHashes[..n2], true)
  }

  // ---------------------------------------------------------------- the seam

  function Seam(m: nat, n: nat): seq<Side>
    requires 1 <= m <= n
    decreases n
  {
    if m == n then []
    else
      var k := SplitPoint(n);
      if m <= k then Seam(m, k) + [Right] else Seam(m - k, n - k) + [Left]
  }

  /** The siblings along the seam, deepest first. */
  function Siblings(sha: Sha, m: nat, d: seq<Digest>): (s: seq<Digest>)
    requires 1 <= m <= |d|
    ensures |s| == |Seam(m, |d|)|
    decreases |d|
  {
    if m == |d| then []
    else
      var k := SplitPoint(|d|);
      if m <= k then Siblings(sha, m, d[..k]) + [MerkleTreeHash(sha, d[k..])]
      else Siblings(sha, m - k, d[k..]) + [MerkleTreeHash(sha, d[..k])]
  }

  /** The node at the bottom of the seam: the last maximal subtree shared by both trees. */
  function Seed(sha: Sha, m: nat, d: seq<Digest>): Digest
    requires 1 <= m <= |d|
    decreases |d|
  {
    if m == |d| then MerkleTreeHash(sha, d)
    else
      var k := SplitPoint(|d|);
      if m <= k then Seed(sha, m, d[..k]) else Seed(sha, m - k, d[k..])
  }

  lemma {:induction false} SeamSplit(m: nat, n: nat, k: nat)
    requires 1 <= m < n && k == SplitPoint(n)
    ensures Seam(m, n) == if m <= k then Seam(m, k) + [Right] else Seam(m - k, n - k) + [Left]
  {}

  lemma {:induction false} SeamFull(n: nat)
    requires n >= 1
    ensures Seam(n, n) == []
  {}

  lemma {:induction false} SeamEvenLeft(j: nat, n: nat, h: nat)
    requires n > 2 && h == SplitPoint(Up(n)) && 1 <= j <= h
    requires Seam(2 * j, 2 * h) == Seam(j, h)
    ensures Seam(2 * j, n) == Seam(j, Up(n))
  {
    SeamSplit(2 * j, n, 2 * h);
    SeamSplit(j, Up(n), h);
    hide *;
  }

  lemma {:induction false} SeamEvenRight(j: nat, n: nat, h: nat)
    requires n > 2 && h == SplitPoint(Up(n)) && h < j && 2 * j < n
    requires Seam(2 * (j - h), n - 2 * h) == Seam(j - h, Up(n) - h)
    ensures Seam(2 * j, n) == Seam(j, Up(n))
  {
    SeamSplit(2 * j, n, 2 * h);
    SeamSplit(j, Up(n), h);
    hide *;
  }

  /** An even boundary leaves no trace at the lowest level. */
  lemma {:induction false} SeamEven(j: nat, n: nat)
    requires 1 <= j && 2 * j < n
    ensures Seam(2 * j, n) == Seam(j, Up(n))
    decreases n
  {
    hide Seam, SplitPoint;
    var h := SplitPoint(Up(n));
    if j <= h {
      if j < h {
        SeamEven(j, 2 * h);
      } else {
        SeamFull(2 * j);
        SeamFull(j);
      }
      HalveLeft(2 * j - 1, n, h);
      SeamEvenLeft(j, n, h);
    } else {
      SeamEven(j - h, n - 2 * h);
      HalveRight(2 * j, n, h);
      SeamEvenRight(j, n, h);
    }
  }

  lemma {:induction false} SeamOfFew(n: nat)
    requires 1 <= n <= 2
    ensures Seam(1, n) == Sides(0, n)
  {
    assert Seam(1, 1) == Sides(0, 1) == [];
  }

  /** An odd boundary is the right end of a single leaf. */
  lemma {:induction false} SeamOdd(j: nat, n: nat)
    requires 2 * j + 1 < n || (j == 0 && n == 1)
    ensures Seam(2 * j + 1, n) == Sides(2 * j, n)
    decreases n
  {
    hide *;
    if n <= 2 {
      SeamOfFew(n);
    } else {
      SplitHalves(n);
      var h := SplitPoint(Up(n));
      SeamSplit(2 * j + 1, n, 2 * h);
      SidesSplit(2 * j, n, 2 * h);
      if j < h {
        SeamOdd(j, 2 * h);
      } else {
        SeamOdd(j - h, n - 2 * h);
      }
    }
  }

  /** Dropping the trailing one bits of node, and as many bits of last. */
  function Strip(node: nat, last: nat): (nat, nat) {
    if node % 2 == 1 then Strip(node / 2, last / 2) else (node, last)
  }

  lemma {:induction false} SeamIsLevels(m: nat, n: nat)
    requires 1 <= m < n
    ensures var (node, last) := Strip(m - 1, n - 1);
            node <= last && Seam(m, n) == Levels(node, last) && (node == 0 <==> IsPow2(m))
    decreases m
  {
    hide Seam, Sides, Levels;
    if m % 2 == 1 {
      SeamOdd(m / 2, n);
      SidesAreLevels(m - 1, n);
    } else {
      SeamEven(m / 2, n);
      SeamIsLevels(m / 2, Up(n));
      assert (m - 1) / 2 == m / 2 - 1 && (n - 1) / 2 == Up(n) - 1;
    }
  }

  // ---------------------------------------------------------------- the two roots

  /** The root of the smaller tree: only siblings on the left are absorbed. */
  function FoldSmall(sha: Sha, h: Digest, sides: seq<Side>, path: seq<Digest>): Digest
    decreases |sides|
  {
    if sides == [] || path == [] then h
    else FoldSmall(sha, if sides[0].Left? then HashChildren(sha, path[0], h) else h, sides[1..], path[1..])
  }

  lemma {:induction false} FoldSmallSnoc(sha: Sha, h: Digest, sides: seq<Side>, path: seq<Digest>, side: Side, p: Digest)
    requires |sides| == |path|
    ensures FoldSmall(sha, h, sides + [side], path + [p])
            == var below := FoldSmall(sha, h, sides, path); if side.Left? then HashChildren(sha, p, below) else below
    decreases |sides|
  {
    if sides == [] {
      assert (sides + [side])[1..] == [];
    } else {
      assert (sides + [side])[1..] == sides[1..] + [side];
      assert (path + [p])[1..] == path[1..] + [p];
      FoldSmallSnoc(sha, if sides[0].Left? then HashChildren(sha, path[0], h) else h, sides[1..], path[1..], side, p);
    }
  }

  /** What the larger tree's split says about the smaller tree. */
  lemma {:induction false} SmallerSplit(sha: Sha, m: nat, d: seq<Digest>, k: nat)
    requires 1 <= m < |d| && k == SplitPoint(|d|)
    ensures m <= k ==> d[..k][..m] == d[..m]
    ensures m > k ==> MerkleTreeHash(sha, d[..m])
                      == HashChildren(sha, MerkleTreeHash(sha, d[..k]), MerkleTreeHash(sha, d[k..][..m - k]))
  {
    if m > k {
      SplitPointIsPow2(|d|);
      SplitPointUnique(m, k);
      TreeSplit(sha, d[..m], k);
      assert d[..m][..k] == d[..k] && d[..m][k..] == d[k..][..m - k];
    }
  }

  lemma {:induction false} SiblingsSplit(sha: Sha, m: nat, d: seq<Digest>, k: nat)
    requires 1 <= m < |d| && k == SplitPoint(|d|)
    ensures Siblings(sha, m, d) == if m <= k then Siblings(sha, m, d[..k]) + [MerkleTreeHash(sha, d[k..])]
                                   else Siblings(sha, m - k, d[k..]) + [MerkleTreeHash(sha, d[..k])]
    ensures Seed(sha, m, d) == if m <= k then Seed(sha, m, d[..k]) else Seed(sha, m - k, d[k..])
  {}

  lemma {:induction false} SeamAtTop(sha: Sha, d: seq<Digest>)
    requires |d| >= 1
    ensures Seam(|d|, |d|) == [] && Siblings(sha, |d|, d) == [] && Seed(sha, |d|, d) == MerkleTreeHash(sha, d)
    ensures d[..|d|] == d
  {}

  lemma {:induction false} FoldNothing(sha: Sha, h: Digest)
    ensures Fold(sha, h, [], []) == h && FoldSmall(sha, h, [], []) == h
  {}

  lemma {:induction false} FoldSeam(sha: Sha, m: nat, d: seq<Digest>)
    requires 1 <= m <= |d|
    ensures Fold(sha, Seed(sha, m, d), Seam(m, |d|), Siblings(sha, m, d)) == MerkleTreeHash(sha, d)
    decreases |d|
  {
    hide *;
    if m == |d| {
      SeamAtTop(sha, d);
      FoldNothing(sha, MerkleTreeHash(sha, d));
    } else {
      var k := SplitPoint(|d|);
      var left, right := d[..k], d[k..];
      SiblingsSplit(sha, m, d, k);
      SeamSplit(m, |d|, k);
      TreeSplit(sha, d, k);
      var seed, l, r := Seed(sha, m, d), MerkleTreeHash(sha, left), MerkleTreeHash(sha, right);
      if m <= k {
        FoldSeam(sha, m, left);
        FoldSnoc(sha, seed, Seam(m, k), Siblings(sha, m, left), Right, r);
        AbsorbSides(sha, l, r);
      } else {
        FoldSeam(sha, m - k, right);
        FoldSnoc(sha, seed, Seam(m - k, |right|), Siblings(sha, m - k, right), Left, l);
        AbsorbSides(sha, r, l);
      }
    }
  }

  lemma {:induction false} FoldSmallSeam(sha: Sha, m: nat, d: seq<Digest>)
    requires 1 <= m <= |d|
    ensures FoldSmall(sha, Seed(sha, m, d), Seam(m, |d|), Siblings(sha, m, d)) == MerkleTreeHash(sha, d[..m])
    decreases |d|
  {
    hide *;
    if m == |d| {
      SeamAtTop(sha, d);
      FoldNothing(sha, MerkleTreeHash(sha, d));
    } else {
      var k := SplitPoint(|d|);
      var left, right := d[..k], d[k..];
      SiblingsSplit(sha, m, d, k);
      SeamSplit(m, |d|, k);
      SmallerSplit(sha, m, d, k);
      var seed, l, r := Seed(sha, m, d), MerkleTreeHash(sha, left), MerkleTreeHash(sha, right);
      if m <= k {
        FoldSmallSeam(sha, m, left);
        FoldSmallSnoc(sha, seed, Seam(m, k), Siblings(sha, m, left), Right, r);
      } else {
        FoldSmallSeam(sha, m - k, right);
        FoldSmallSnoc(sha, seed, Seam(m - k, |right|), Siblings(sha, m - k, right), Left, l);
      }
    }
  }

  lemma {:induction false} SubProofSplit(sha: Sha, m: nat, d: seq<Digest>, b: bool, k: nat)
    requires 1 <= m < |d| && k == SplitPoint(|d|)
    ensures SubProof(sha, m, d, b) == if m <= k then SubProof(sha, m, d[..k], b) + [MerkleTreeHash(sha, d[k..])]
                                      else SubProof(sha, m - k, d[k..], false) + [MerkleTreeHash(sha, d[..k])]
  {}

  lemma {:induction false} SubProofTop(sha: Sha, d: seq<Digest>, b: bool)
    requires |d| >= 1
    ensures SubProof(sha, |d|, d, b) == if b then [] else [MerkleTreeHash(sha, d)]
  {}

  lemma AppendLast(a: seq<Digest>, b: seq<Digest>, x: Digest)
    ensures (a + b) + [x] == a + (b + [x])
  {}

  lemma {:induction false} Pow2InLeft(m: nat, n: nat)
    requires 1 <= m < n
    ensures IsPow2(m) ==> m <= SplitPoint(n)
    ensures IsPow2(SplitPoint(n))
  {
    var k := SplitPoint(n);
    SplitPointIsPow2(n);
    if IsPow2(m) && m > k {
      Pow2Gap(k, m);
    }
  }

  /** A generated proof is the seed, unless the smaller root itself is the seed, then the siblings. */
  lemma {:induction false} SubProofParts(sha: Sha, m: nat, d: seq<Digest>, b: bool)
    requires 1 <= m <= |d| && (b ==> m < |d| || IsPow2(m))
    ensures SubProof(sha, m, d, b) == (if b && IsPow2(m) then [] else [Seed(sha, m, d)]) + Siblings(sha, m, d)
    ensures b && IsPow2(m) ==> Seed(sha, m, d) == MerkleTreeHash(sha, d[..m])
    decreases |d|
  {
    hide *;
    if m == |d| {
      SeamAtTop(sha, d);
      SubProofTop(sha, d, b);
    } else {
      var k := SplitPoint(|d|);
      SiblingsSplit(sha, m, d, k);
      SubProofSplit(sha, m, d, b, k);
      Pow2InLeft(m, |d|);
      if m <= k {
        assert d[..k][..m] == d[..m];
        SubProofParts(sha, m, d[..k], b);
        AppendLast(if b && IsPow2(m) then [] else [Seed(sha, m, d)], Siblings(sha, m, d[..k]), MerkleTreeHash(sha, d[k..]));
      } else {
        SubProofParts(sha, m - k, d[k..], false);
        AppendLast([Seed(sha, m, d)], Siblings(sha, m - k, d[k..]), MerkleTreeHash(sha, d[..k]));
      }
    }
  }

  // ---------------------------------------------------------------- the verifier

  datatype Verdict = Verdict(root2: Digest, ok: bool)

  /** Where the siblings start: after the seed, which is absent when n1 is a power of two. */
  function FirstSibling(n1: nat): nat {
    if IsPow2(n1) then 0 else 1
  }

  /** The verdict, from the tree shape alone. */
  function Judge(sha: Sha, n1: nat, n2: nat, root1: Digest, proof: Proof): Verdict {
    if n1 == 0 || n1 > n2 then Verdict(ZeroDigest(), false)
    else if n1 == n2 then (if |proof| == 0 then Verdict(root1, true) else Verdict(ZeroDigest(), false))
    else
      var start, sides, digests := FirstSibling(n1), Seam(n1, n2), Digests(proof);
      if |proof| != start + |sides| then Verdict(ZeroDigest(), false)
      else
        var seed := if IsPow2(n1) then root1 else digests[0];
        if FoldSmall(sha, seed, sides, digests[start..]) != root1 then Verdict(ZeroDigest(), false)
        else Verdict(Fold(sha, seed, sides, digests[start..]), true)
  }

  lemma {:induction false} LevelsNonempty(node: nat, last: nat)
    requires 0 < node <= last
    ensures |Levels(node, last)| >= 1
  {
    LevelsStep(node, last);
    if node == last && node % 2 == 0 {
      LevelsNonempty(node / 2, last / 2);
    }
  }

  /** What is left of a climb still leads to the two given roots, with the given number of entries. */
  ghost predicate Climbing(sha: Sha, h1: Digest, h2: Digest, node: nat, last: nat, digests: seq<Digest>, i: nat,
                           total: nat, small: Digest, large: Digest) {
    && node <= last && i <= |digests|
    && i + |Levels(node, last)| == total
    && FoldSmall(sha, h1, Levels(node, last), digests[i..]) == small
    && Fold(sha, h2, Levels(node, last), digests[i..]) == large
  }

  /** A right child takes its left sibling in both trees. */
  lemma {:induction false} ClimbLeft(sha: Sha, h1: Digest, h2: Digest, node: nat, last: nat, digests: seq<Digest>, i: nat,
                                     total: nat, small: Digest, large: Digest)
    requires Climbing(sha, h1, h2, node, last, digests, i, total, small, large) && node % 2 == 1 && i < |digests|
    ensures Climbing(sha, HashChildren(sha, digests[i], h1), HashChildren(sha, digests[i], h2), node / 2, last / 2,
                     digests, i + 1, total, small, large)
  {
    LevelsStep(node, last);
    hide Levels;
    assert digests[i..][1..] == digests[i + 1..];
  }

  /** A left child takes a right sibling in the larger tree only. */
  lemma {:induction false} ClimbRight(sha: Sha, h1: Digest, h2: Digest, node: nat, last: nat, digests: seq<Digest>, i: nat,
                                      total: nat, small: Digest, large: Digest)
    requires Climbing(sha, h1, h2, node, last, digests, i, total, small, large)
    requires node < last && node % 2 == 0 && i < |digests|
    ensures Climbing(sha, h1, HashChildren(sha, h2, digests[i]), node / 2, last / 2, digests, i + 1, total, small, large)
  {
    LevelsStep(node, last);
    hide Levels;
    assert digests[i..][1..] == digests[i + 1..];
  }

  /** A left child with no sibling climbs silently. */
  lemma {:induction false} ClimbSilent(sha: Sha, h1: Digest, h2: Digest, node: nat, digests: seq<Digest>, i: nat,
                                       total: nat, small: Digest, large: Digest)
    requires Climbing(sha, h1, h2, node, node, digests, i, total, small, large) && node > 0 && node % 2 == 0
    ensures Climbing(sha, h1, h2, node / 2, node / 2, digests, i, total, small, large)
  {
    LevelsSilent(node);
    hide Levels, Fold, FoldSmall;
  }

  /** Below the top some entry is still needed; at the top both roots are reached. */
  lemma {:induction false} ClimbNeeds(sha: Sha, h1: Digest, h2: Digest, node: nat, last: nat, digests: seq<Digest>, i: nat,
                                      total: nat, small: Digest, large: Digest)
    requires Climbing(sha, h1, h2, node, last, digests, i, total, small, large)
    ensures node <= last && i <= |digests|
    ensures last > 0 ==> i < total
    ensures last == 0 ==> i == total && h1 == small && h2 == large
  {
    if node > 0 {
      LevelsNonempty(node, last);
    } else if last > 0 {
      LevelsStep(0, last);
    } else {
      FoldsEnd(sha, h1, h2, digests[i..]);
    }
  }

  lemma {:induction false} ClimbStarts(sha: Sha, h: Digest, node: nat, last: nat, digests: seq<Digest>, i: nat)
    requires node <= last && i <= |digests|
    ensures Climbing(sha, h, h, node, last, digests, i, i + |Levels(node, last)|,
                     FoldSmall(sha, h, Levels(node, last), digests[i..]), Fold(sha, h, Levels(node, last), digests[i..]))
  {}

  lemma {:induction false} JudgeFromLevels(sha: Sha, n1: nat, n2: nat, root1: Digest, proof: Proof, node: nat, last: nat, seed: Digest)
    requires 1 <= n1 < n2 && Strip(n1 - 1, n2 - 1) == (node, last)
    requires node > 0 ==> |proof| >= 1
    requires seed == if node > 0 then Digests(proof)[0] else root1
    ensures node <= last
    ensures var start := if node > 0 then 1 else 0;
            var rest := Digests(proof)[start..];
            var accepts := |proof| == start + |Levels(node, last)| && FoldSmall(sha, seed, Levels(node, last), rest) == root1;
            Judge(sha, n1, n2, root1, proof)
            == if accepts then Verdict(Fold(sha, seed, Levels(node, last), rest), true) else Verdict(ZeroDigest(), false)
  {
    SeamIsLevels(n1, n2);
    hide Levels, Seam, Fold, FoldSmall, Strip, IsPow2;
  }

  lemma {:induction false} JudgeNoSeed(sha: Sha, n1: nat, n2: nat, root1: Digest, proof: Proof, node: nat, last: nat)
    requires 1 <= n1 < n2 && Strip(n1 - 1, n2 - 1) == (node, last) && node > 0 && |proof| == 0
    ensures Judge(sha, n1, n2, root1, proof) == Verdict(ZeroDigest(), false)
  {
    SeamIsLevels(n1, n2);
  }

  lemma {:induction false} FoldsEnd(sha: Sha, h1: Digest, h2: Digest, rest: seq<Digest>)
    ensures Levels(0, 0) == []
    ensures FoldSmall(sha, h1, Levels(0, 0), rest) == h1
    ensures Fold(sha, h2, Levels(0, 0), rest) == h2
  {}

  lemma {:induction false} JudgeTrivial(sha: Sha, n1: nat, n2: nat, root1: Digest, proof: Proof)
    ensures n1 == 0 || n1 > n2 ==> Judge(sha, n1, n2, root1, proof) == Verdict(ZeroDigest(), false)
    ensures n1 == n2 > 0 ==>
              Judge(sha, n1, n2, root1, proof) == if |proof| == 0 then Verdict(root1, true) else Verdict(ZeroDigest(), false)
  {}

  /** The pre-walk: drops the trailing one bits of node, and as many bits of last. */
  method DropOnes(n: nat, l: nat) returns (node: nat, last: nat)
    ensures (node, last) == Strip(n, l)
  {
    node, last := n, l;
    while node % 2 == 1
      invariant Strip(node, last) == Strip(n, l)
      decreases node
    {
      node, last := node / 2, last / 2;
    }
  }

  method VerifyConsistency(sha: Sha, n1: nat, n2: nat, root1: Digest, proof: Proof) returns (root2: Digest, ok: bool)
    ensures Verdict(root2, ok) == Judge(sha, n1, n2, root1, proof)
  {
    hide *;
    JudgeTrivial(sha, n1, n2, root1, proof);
    if n1 == 0 || n1 > n2 {
      return ZeroDigest(), false;
    }
    if n1 == n2 {
      if |proof| != 0 {
        return ZeroDigest(), false;
      }
      return root1, true;
    }
    var node, last := DropOnes(n1 - 1, n2 - 1);
    var hash1, hash2, proofIdx := root1, root1, 0;
    if node > 0 {
      if proofIdx >= |proof| {
        JudgeNoSeed(sha, n1, n2, root1, proof, node, last);
        return ZeroDigest(), false;
      }
      DigestAt(proof, 0);
      hash1, hash2 := ToDigest(proof[proofIdx]), ToDigest(proof[proofIdx]);
      proofIdx := 1;
    }
    ghost var digests, start, seed := Digests(proof), proofIdx, hash1;
    JudgeFromLevels(sha, n1, n2, root1, proof, node, last, seed);
    ghost var total := start + |Levels(node, last)|;
    ghost var small := FoldSmall(sha, seed, Levels(node, last), digests[start..]);
    ghost var large := Fold(sha, seed, Levels(node, last), digests[start..]);
    ClimbStarts(sha, seed, node, last, digests, start);
    while node > 0
      invariant Climbing(sha, hash1, hash2, node, last, digests, proofIdx, total, small, large)
    {
      ClimbNeeds(sha, hash1, hash2, node, last, digests, proofIdx, total, small, large);
      if proofIdx >= |proof| {
        return ZeroDigest(), false;
      }
      var p := ToDigest(proof[proofIdx]);
      DigestAt(proof, proofIdx);
      if node % 2 == 1 {
        ClimbLeft(sha, hash1, hash2, node, last, digests, proofIdx, total, small, large);
        hash1, hash2 := HashChildren(sha, p, hash1), HashChildren(sha, p, hash2);
        proofIdx := proofIdx + 1;
      } else if node < last {
        ClimbRight(sha, hash1, hash2, node, last, digests, proofIdx, total, small, large);
        hash2 := HashChildren(sha, hash2, p);
        proofIdx := proofIdx + 1;
      } else {
        ClimbSilent(sha, hash1, hash2, node, digests, proofIdx, total, small, large);
      }
      node, last := node / 2, last / 2;
    }
    while last > 0
      invariant Climbing(sha, hash1, hash2, 0, last, digests, proofIdx, total, small, large)
    {
      ClimbNeeds(sha, hash1, hash2, 0, last, digests, proofIdx, total, small, large);
      if proofIdx >= |proof| {
        return ZeroDigest(), false;
      }
      var p := ToDigest(proof[proofIdx]);
      DigestAt(proof, proofIdx);
      ClimbRight(sha, hash1, hash2, 0, last, digests, proofIdx, total, small, large);
      hash2 := HashChildren(sha, hash2, p);
      proofIdx := proofIdx + 1;
      last := last / 2;
    }
    ClimbNeeds(sha, hash1, hash2, 0, last, digests, proofIdx, total, small, large);
    if proofIdx != |proof| {
      return ZeroDigest(), false;
    }
    if hash1 != root1 {
      return ZeroDigest(), false;
    }
    return hash2, true;
  }

  // ---------------------------------------------------------------- completeness and soundness

  /** Every generated proof is accepted in full and rebuilds the larger root. */
  lemma {:induction false} ConsistencyComplete(sha: Sha, n1: nat, n2: nat, d: seq<Digest>)
    requires 1 <= n1 <= n2 <= |d|
    ensures Judge(sha, n1, n2, MerkleTreeHash(sha, d[..n1]), ConsistencyProof(sha, n1, n2, d))
            == Verdict(MerkleTreeHash(sha, d[..n2]), true)
  {
    if n1 < n2 {
      var large, proof := d[..n2], ConsistencyProof(sha, n1, n2, d);
      assert large[..n1] == d[..n1];
      SubProofParts(sha, n1, large, true);
      DigestsUnchanged(proof);
      FoldSeam(sha, n1, large);
      FoldSmallSeam(sha, n1, large);
      ConsistencyParts(sha, n1, large, proof);
      hide Fold, FoldSmall, Seam, Siblings, Seed, MerkleTreeHash, SubProof, Digests, IsPow2;
    }
  }

  lemma {:induction false} ConsistencyParts(sha: Sha, n1: nat, d: seq<Digest>, proof: seq<Digest>)
    requires 1 <= n1 < |d|
    requires proof == (if IsPow2(n1) then [] else [Seed(sha, n1, d)]) + Siblings(sha, n1, d)
    ensures proof[FirstSibling(n1)..] == Siblings(sha, n1, d)
    ensures !IsPow2(n1) ==> proof[0] == Seed(sha, n1, d)
  {
    hide Seam, Siblings, Seed, IsPow2;
  }

  /** The first node at which a forged proof leaves the larger tree. */
  function SeamCollision(sha: Sha, h: Digest, m: nat, d: seq<Digest>, path: seq<Digest>): Collision
    requires 1 <= m <= |d| && |path| == |Seam(m, |d|)|
    decreases |d|
  {
    if m == |d| then Collision([], [])
    else
      var k, front := SplitPoint(|d|), path[..|path| - 1];
      var l, r, p := MerkleTreeHash(sha, d[..k]), MerkleTreeHash(sha, d[k..]), path[|path| - 1];
      if m <= k then
        var below := Fold(sha, h, Seam(m, k), front);
        if below == l && p == r then SeamCollision(sha, h, m, d[..k], front) else ChildrenPair(below, p, l, r)
      else
        var below := Fold(sha, h, Seam(m - k, |d| - k), front);
        if p == l && below == r then SeamCollision(sha, h, m - k, d[k..], front) else ChildrenPair(p, below, l, r)
  }

  lemma {:induction false} SeamCollisionLeft(sha: Sha, h: Digest, m: nat, d: seq<Digest>, path: seq<Digest>, k: nat)
    requires 1 <= m < |d| && m <= k == SplitPoint(|d|) && |path| == |Seam(m, |d|)| == |Seam(m, k)| + 1
    ensures var l, r, p := MerkleTreeHash(sha, d[..k]), MerkleTreeHash(sha, d[k..]), path[|path| - 1];
            var below := Fold(sha, h, Seam(m, k), path[..|path| - 1]);
            SeamCollision(sha, h, m, d, path)
            == if below == l && p == r then SeamCollision(sha, h, m, d[..k], path[..|path| - 1])
               else ChildrenPair(below, p, l, r)
  {
    hide Seam, Fold, MerkleTreeHash, ChildrenPair, SplitPoint;
  }

  lemma {:induction false} SeamCollisionRight(sha: Sha, h: Digest, m: nat, d: seq<Digest>, path: seq<Digest>, k: nat)
    requires 1 <= k < m < |d| && k == SplitPoint(|d|) && |path| == |Seam(m, |d|)| == |Seam(m - k, |d| - k)| + 1
    ensures var l, r, p := MerkleTreeHash(sha, d[..k]), MerkleTreeHash(sha, d[k..]), path[|path| - 1];
            var below := Fold(sha, h, Seam(m - k, |d| - k), path[..|path| - 1]);
            SeamCollision(sha, h, m, d, path)
            == if p == l && below == r then SeamCollision(sha, h, m - k, d[k..], path[..|path| - 1])
               else ChildrenPair(p, below, l, r)
  {
    hide Seam, Fold, MerkleTreeHash, ChildrenPair, SplitPoint;
  }

  lemma {:induction false} SeamSound(sha: Sha, h: Digest, m: nat, d: seq<Digest>, path: seq<Digest>)
    requires 1 <= m <= |d| && |path| == |Seam(m, |d|)|
    requires Fold(sha, h, Seam(m, |d|), path) == MerkleTreeHash(sha, d)
    ensures || (h == Seed(sha, m, d) && path == Siblings(sha, m, d))
            || IsCollision(sha, SeamCollision(sha, h, m, d, path))
    decreases |d|
  {
    hide *;
    if m == |d| {
      SeamAtTop(sha, d);
      FoldNothing(sha, h);
      assert path == [];
    } else {
      var k := SplitPoint(|d|);
      SeamSplit(m, |d|, k);
      var front, p := path[..|path| - 1], path[|path| - 1];
      var left, right := d[..k], d[k..];
      var l, r := MerkleTreeHash(sha, left), MerkleTreeHash(sha, right);
      assert path == front + [p];
      SiblingsSplit(sha, m, d, k);
      TreeSplit(sha, d, k);
      if m <= k {
        var below := Fold(sha, h, Seam(m, k), front);
        FoldSnoc(sha, h, Seam(m, k), front, Right, p);
        AbsorbSides(sha, below, p);
        OpenedTwice(sha, below, p, l, r);
        SeamCollisionLeft(sha, h, m, d, path, k);
        if below == l && p == r {
          SeamSound(sha, h, m, left, front);
        }
      } else {
        var below := Fold(sha, h, Seam(m - k, |right|), front);
        FoldSnoc(sha, h, Seam(m - k, |right|), front, Left, p);
        AbsorbSides(sha, below, p);
        OpenedTwice(sha, p, below, l, r);
        SeamCollisionRight(sha, h, m, d, path, k);
        if p == l && below == r {
          SeamSound(sha, h, m - k, right, front);
        }
      }
    }
  }

  /** The collision that an accepted, dishonest proof exhibits. */
  function ForgeryCollision(sha: Sha, n1: nat, d: seq<Digest>, root1: Digest, proof: Proof): Collision
    requires 1 <= n1 < |d| && |proof| == FirstSibling(n1) + |Seam(n1, |d|)|
  {
    var digests := Digests(proof);
    SeamCollision(sha, if IsPow2(n1) then root1 else digests[0], n1, d, digests[FirstSibling(n1)..])
  }

  /**
    An accepted proof that leads to the root of d shows that root1 is the root of the first n1
    leaves of d; moreover the proof is the honest one, entry by entry.
   */
  lemma {:induction false} ConsistencySound(sha: Sha, n1: nat, d: seq<Digest>, root1: Digest, proof: Proof)
    requires Judge(sha, n1, |d|, root1, proof) == Verdict(MerkleTreeHash(sha, d), true)
    ensures 1 <= n1 <= |d|
    ensures n1 == |d| ==> root1 == MerkleTreeHash(sha, d[..n1])
    ensures n1 < |d| ==> |proof| == FirstSibling(n1) + |Seam(n1, |d|)|
    ensures n1 < |d| ==>
              || (root1 == MerkleTreeHash(sha, d[..n1]) && Digests(proof) == ConsistencyProof(sha, n1, |d|, d))
              || IsCollision(sha, ForgeryCollision(sha, n1, d, root1, proof))
  {
    if n1 == |d| {
      assert d[..n1] == d;
    } else {
      var digests, start := Digests(proof), FirstSibling(n1);
      var seed, rest := if IsPow2(n1) then root1 else digests[0], digests[start..];
      SeamSound(sha, seed, n1, d, rest);
      if !IsCollision(sha, ForgeryCollision(sha, n1, d, root1, proof)) {
        FoldSmallSeam(sha, n1, d);
        SubProofParts(sha, n1, d, true);
        assert d[..|d|] == d;
        hide Fold, FoldSmall, Seam, Siblings, Seed, MerkleTreeHash, SubProof, Digests, IsPow2;
        assert digests == (if IsPow2(n1) then [] else [seed]) + rest;
      }
    }
  }
}
