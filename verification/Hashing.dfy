/**
  Byte strings, SHA-256 digests and collisions.

  SHA-256 itself is a parameter: every definition takes the hash function as an argument, so every
  theorem of the project holds for every function from byte strings to 32-byte digests.  Such a
  function always has collisions somewhere; soundness results therefore never speak of the
  existence of a collision, they say that a particular pair, computed from the forged input,
  is one.
 */
module Hashing {

  newtype Byte = b: int | 0 <= b < 256

  type Bytes = seq<Byte>

  type Digest = d: Bytes | |d| == 32 witness seq(32, _ => 0)

  type Sha = Bytes -> Digest

  const LEAF_PREFIX: Byte := 0x00
  const INNER_PREFIX: Byte := 0x01

  /** The zero value of a 32-byte array. */
  function ZeroDigest(): Digest {
    seq(32, _ => 0)
  }

  function HashLeaf(sha: Sha, payload: Bytes): Digest {
    sha([LEAF_PREFIX] + payload)
  }

  function HashChildren(sha: Sha, left: Digest, right: Digest): Digest {
    sha([INNER_PREFIX] + left + right)
  }

  function EmptyRoot(sha: Sha): Digest {
    sha([])
  }

  /** Copying a byte slice of any length into a zeroed 32-byte array. */
  function ToDigest(raw: Bytes): Digest {
    seq(32, i requires 0 <= i < 32 => if i < |raw| then raw[i] else 0)
  }

  lemma DigestUnchanged(d: Digest)
    ensures ToDigest(d) == d
  {}

  datatype Collision = Collision(first: Bytes, second: Bytes)

  predicate IsCollision(sha: Sha, c: Collision) {
    c.first != c.second && sha(c.first) == sha(c.second)
  }

  /** The two preimages of an inner node that was opened in two ways. */
  function ChildrenPair(l: Digest, r: Digest, x: Digest, y: Digest): Collision {
    Collision([INNER_PREFIX] + l + r, [INNER_PREFIX] + x + y)
  }

  function LeafPair(p: Bytes, q: Bytes): Collision {
    Collision([LEAF_PREFIX] + p, [LEAF_PREFIX] + q)
  }

  /** The preimages of a value that is both a leaf hash and an inner hash. */
  function LeafInnerPair(p: Bytes, l: Digest, r: Digest): Collision {
    Collision([LEAF_PREFIX] + p, [INNER_PREFIX] + l + r)
  }

  lemma OpenedTwice(sha: Sha, l: Digest, r: Digest, x: Digest, y: Digest)
    requires HashChildren(sha, l, r) == HashChildren(sha, x, y)
    ensures (l == x && r == y) || IsCollision(sha, ChildrenPair(l, r, x, y))
  {
    var a, b := [INNER_PREFIX] + l + r, [INNER_PREFIX] + x + y;
    if a == b {
      assert l == a[1..33] && x == b[1..33];
      assert r == a[33..] && y == b[33..];
    }
  }

  lemma LeafOpenedTwice(sha: Sha, p: Bytes, q: Bytes)
    requires HashLeaf(sha, p) == HashLeaf(sha, q)
    ensures p == q || IsCollision(sha, LeafPair(p, q))
  {
    var a, b := [LEAF_PREFIX] + p, [LEAF_PREFIX] + q;
    if a == b {
      assert p == a[1..] && q == b[1..];
    }
  }

  /** Domain separation: no value is a leaf hash and an inner hash, short of a collision. */
  lemma LeafIsNotInner(sha: Sha, p: Bytes, l: Digest, r: Digest)
    requires HashLeaf(sha, p) == HashChildren(sha, l, r)
    ensures IsCollision(sha, LeafInnerPair(p, l, r))
  {
    var c := LeafInnerPair(p, l, r);
    assert c.first[0] != c.second[0];
  }
}
