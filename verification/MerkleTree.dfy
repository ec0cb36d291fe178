/**
  The Merkle tree hash of section 2.1 of RFC 6962
  (internal/storage/transparency/hash.go).
 */
module MerkleTree {
  import opened Hashing

  predicate IsPow2(k: nat) {
    if k <= 1 then k == 1 else k % 2 == 0 && IsPow2(k / 2)
  }

  lemma {:induction false} Pow2Twice(p: nat)
    requires IsPow2(p)
    ensures IsPow2(2 * p)
  {
    assert (2 * p) / 2 == p;
  }

  lemma {:induction false} Pow2Product(a: nat, b: nat)
    requires IsPow2(a) && IsPow2(b)
    ensures IsPow2(a * b)
  {
    if a == 1 {
      assert a * b == b;
    } else {
      var half := a / 2;
      Pow2Product(half, b);
      Pow2Twice(half * b);
      assert a == 2 * half;
      assert 2 * (half * b) == a * b;
    }
  }

  /** Halving a number of nodes: the number of nodes one level up. */
  function Up(n: nat): nat {
    (n + 1) / 2
  }

  /** The largest power of two below n, stated so that it halves along with the tree. */
  function SplitPoint(n: nat): (k: nat)
    requires n >= 2
    ensures 1 <= k < n <= 2 * k
  {
    if n == 2 then 1 else 2 * SplitPoint(Up(n))
  }

  lemma {:induction false} SplitPointIsPow2(n: nat)
    requires n >= 2
    ensures IsPow2(SplitPoint(n))
  {
    if n > 2 {
      SplitPointIsPow2(Up(n));
      Pow2Twice(SplitPoint(Up(n)));
    }
  }

  lemma {:induction false} SplitPointUnique(n: nat, k: nat)
    requires n >= 2 && IsPow2(k) && k < n <= 2 * k
    ensures k == SplitPoint(n)
  {
    if n > 2 {
      assert k > 1;
      SplitPointUnique(Up(n), k / 2);
    }
  }

  const TWO_63: nat := 0x8000_0000_0000_0000
  const TWO_64: nat := 0x1_0000_0000_0000_0000

  /** Doubling a 64-bit unsigned integer. */
  function Double64(k: nat): nat {
    (k * 2) % TWO_64
  }

  /** The doubling loop on 64-bit words.  The bound is exact: see DoublingDiverges. */
  method LargestPowerOfTwoLessThan(n: nat) returns (k: nat)
    requires n <= TWO_63
    ensures n <= 1 ==> k == 0
    ensures n >= 2 ==> k == SplitPoint(n)
  {
    if n <= 1 {
      return 0;
    }
    k := 1;
    while Double64(k) < n
      invariant IsPow2(k) && k < n
      decreases n - k
    {
      k := Double64(k);
    }
    SplitPointUnique(n, k);
  }

  /** The value of k after some number of doublings. */
  function Doublings(steps: nat): nat {
    if steps == 0 then 1 else Double64(Doublings(steps - 1))
  }

  lemma {:induction false} Pow2Gap(a: nat, b: nat)
    requires IsPow2(a) && IsPow2(b) && a < b
    ensures 2 * a <= b
  {
    if a > 1 {
      Pow2Gap(a / 2, b / 2);
    }
  }

  lemma {:induction false} Two63IsPow2()
    ensures IsPow2(TWO_63)
  {
    assert IsPow2(0x2) && IsPow2(0x4) && IsPow2(0x10);
    Pow2Product(0x10, 0x10);
    Pow2Product(0x100, 0x100);
    Pow2Product(0x1_0000, 0x1_0000);
    Pow2Product(0x8000_0000, 0x1_0000_0000);
  }

  ghost predicate Wrapped(k: nat) {
    k == 0 || (IsPow2(k) && k <= TWO_63)
  }

  lemma DoubleSmall(k: nat)
    requires k < TWO_63
    ensures Double64(k) == 2 * k
  {}

  lemma {:induction false} DoubleWraps(k: nat)
    requires Wrapped(k)
    ensures Wrapped(Double64(k))
  {
    if 0 < k < TWO_63 {
      Two63IsPow2();
      Pow2Gap(k, TWO_63);
      Pow2Twice(k);
      DoubleSmall(k);
      hide IsPow2, Double64;
    } else if k == TWO_63 {
      assert Double64(k) == 0;
    }
  }

  lemma {:induction false} DoublingsSmall(steps: nat)
    ensures Wrapped(Doublings(steps))
  {
    if steps > 0 {
      DoublingsSmall(steps - 1);
      DoubleWraps(Doublings(steps - 1));
    }
  }

  /** Above 2^63 the product wraps to zero and the loop guard holds for ever. */
  lemma {:induction false} DoublingDiverges(n: nat, steps: nat)
    requires TWO_63 < n < TWO_64
    ensures Double64(Doublings(steps)) < n
  {
    DoublingsSmall(steps + 1);
  }

  /** MTH(D[n]) over leaf hashes. */
  function MerkleTreeHash(sha: Sha, d: seq<Digest>): Digest
    decreases |d|
  {
    if |d| == 0 then EmptyRoot(sha)
    else if |d| == 1 then d[0]
    else
      var k := SplitPoint(|d|);
      HashChildren(sha, MerkleTreeHash(sha, d[..k]), MerkleTreeHash(sha, d[k..]))
  }

  lemma {:induction false} TreeSplit(sha: Sha, d: seq<Digest>, k: nat)
    requires |d| >= 2 && k == SplitPoint(|d|)
    ensures MerkleTreeHash(sha, d) == HashChildren(sha, MerkleTreeHash(sha, d[..k]), MerkleTreeHash(sha, d[k..]))
  {}
}
