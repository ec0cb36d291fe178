/**
  Byte-wise key order, the order in which a bucket is scanned, and big-endian index keys
  (internal/storage/transparency/tree.go, encodeIndex).
 */
module KeyOrder {
  import opened Strings

  /** A bucket key: a byte string, one character per byte. */
  type Key = string

  ghost predicate IsLeast(k: Key, keys: set<Key>) {
    k in keys && forall o :: o in keys && o != k ==> Less(k, o)
  }

  lemma {:induction false} LeastExists(keys: set<Key>) returns (least: Key)
    requires keys != {}
    ensures IsLeast(least, keys)
    decreases keys
  {
    var k :| k in keys;
    var rest := keys - {k};
    assert forall o :: o in keys ==> o == k || o in rest;
    least := k;
    if rest != {} {
      var r := LeastExists(rest);
      LessTotal(k, r);
      if Less(r, k) {
        least := r;
      } else {
        forall o | o in keys && o != k ensures Less(k, o) {
          if o != r {
            LessTransitive(k, r, o);
          }
        }
      }
    }
  }

  lemma LeastUnique(a: Key, b: Key, keys: set<Key>)
    requires IsLeast(a, keys) && IsLeast(b, keys)
    ensures a == b
  {
    LessTotal(a, b);
  }

  ghost function Least(keys: set<Key>): (k: Key)
    requires keys != {}
    ensures IsLeast(k, keys)
  {
    assert exists k :: IsLeast(k, keys) by { var k := LeastExists(keys); }
    var k :| IsLeast(k, keys);
    k
  }

  /** The keys of a bucket in the order in which it is scanned. */
  ghost function Scan(keys: set<Key>): seq<Key>
    decreases keys
  {
    if keys == {} then [] else [Least(keys)] + Scan(keys - {Least(keys)})
  }

  // ---------------------------------------------------------------- big-endian indices

  function Pow256(width: nat): nat {
    if width == 0 then 1 else 256 * Pow256(width - 1)
  }

  function BigEndian(i: nat, width: nat): (b: Key)
    ensures |b| == width
  {
    if width == 0 then [] else BigEndian(i / 256, width - 1) + [(i % 256) as char]
  }

  lemma {:induction false} LessSnoc(a: Key, b: Key, x: char, y: char)
    requires |a| == |b|
    ensures Less(a + [x], b + [y]) <==> (Less(a, b) || (a == b && x < y))
    decreases |a|
  {
    if a == [] {
      assert !Less([], []);
    } else {
      assert (a + [x])[1..] == a[1..] + [x] && (b + [y])[1..] == b[1..] + [y];
      assert a == [a[0]] + a[1..] && b == [b[0]] + b[1..];
      LessSnoc(a[1..], b[1..], x, y);
    }
  }

  /** Keys compare as the indices they encode. */
  lemma {:induction false} BigEndianOrder(i: nat, j: nat, width: nat)
    requires i < Pow256(width) && j < Pow256(width)
    ensures Less(BigEndian(i, width), BigEndian(j, width)) <==> i < j
    ensures BigEndian(i, width) == BigEndian(j, width) <==> i == j
  {
    if width > 0 {
      BigEndianOrder(i / 256, j / 256, width - 1);
      var a, b := BigEndian(i / 256, width - 1), BigEndian(j / 256, width - 1);
      var x, y := (i % 256) as char, (j % 256) as char;
      LessSnoc(a, b, x, y);
      assert (a + [x])[..width - 1] == a && (b + [y])[..width - 1] == b;
      assert (a + [x])[width - 1] == x && (b + [y])[width - 1] == y;
    }
  }

  function EncodeIndex(i: nat): Key {
    BigEndian(i, 8)
  }

  lemma EncodeIndexOrder(i: nat, j: nat)
    requires i < 0x1_0000_0000_0000_0000 && j < 0x1_0000_0000_0000_0000
    ensures Less(EncodeIndex(i), EncodeIndex(j)) <==> i < j
    ensures EncodeIndex(i) == EncodeIndex(j) <==> i == j
  {
    assert Pow256(4) == 0x1_0000_0000;
    assert Pow256(8) == 0x1_0000_0000_0000_0000;
    BigEndianOrder(i, j, 8);
  }

  /** The keys of leaves lo, lo + 1, ..., hi - 1. */
  ghost function IndexKeys(lo: nat, hi: nat): set<Key> {
    set i | lo <= i < hi :: EncodeIndex(i)
  }

  /** The same keys in leaf order. */
  ghost function LeafOrder(lo: nat, hi: nat): (keys: seq<Key>)
    requires lo <= hi
    ensures |keys| == hi - lo
  {
    seq(hi - lo, i requires 0 <= i < hi - lo => EncodeIndex(lo + i))
  }

  lemma LeafOrderCons(lo: nat, hi: nat)
    requires lo < hi
    ensures LeafOrder(lo, hi) == [EncodeIndex(lo)] + LeafOrder(lo + 1, hi)
    ensures LeafOrder(lo, hi)[1..] == LeafOrder(lo + 1, hi)
  {
    hide EncodeIndex;
  }

  lemma FirstKey(lo: nat, hi: nat)
    requires lo < hi <= 0x1_0000_0000_0000_0000
    ensures IsLeast(EncodeIndex(lo), IndexKeys(lo, hi))
  {
    hide EncodeIndex, Less;
    forall o | o in IndexKeys(lo, hi) && o != EncodeIndex(lo) ensures Less(EncodeIndex(lo), o) {
      var i :| lo <= i < hi && o == EncodeIndex(i);
      EncodeIndexOrder(lo, i);
    }
  }

  lemma {:induction false} ScanCons(keys: set<Key>, first: Key)
    requires IsLeast(first, keys)
    ensures Scan(keys) == [first] + Scan(keys - {first})
  {
    LeastUnique(first, Least(keys), keys);
  }

  /** A bucket that holds leaves lo..hi is scanned in leaf order. */
  lemma {:induction false} ScanIndexKeys(lo: nat, hi: nat)
    requires lo <= hi <= 0x1_0000_0000_0000_0000
    ensures Scan(IndexKeys(lo, hi)) == LeafOrder(lo, hi)
    decreases hi - lo
  {
    if lo == hi {
      assert IndexKeys(lo, hi) == {};
    } else {
      hide *;
      FirstKey(lo, hi);
      ScanCons(IndexKeys(lo, hi), EncodeIndex(lo));
      RestOfKeys(lo, hi);
      ScanIndexKeys(lo + 1, hi);
      LeafOrderCons(lo, hi);
    }
  }

  lemma {:induction false} RestOfKeys(lo: nat, hi: nat)
    requires lo < hi <= 0x1_0000_0000_0000_0000
    ensures IndexKeys(lo, hi) - {EncodeIndex(lo)} == IndexKeys(lo + 1, hi)
  {
    hide EncodeIndex;
    forall i | lo < i < hi ensures EncodeIndex(i) != EncodeIndex(lo) {
      EncodeIndexOrder(lo, i);
    }
  }
}
