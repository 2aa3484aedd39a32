/** Go strings as byte sequences: their lexicographic order and big-endian integers. */
module Bytes {

  type byte = x: int | 0 <= x < 256
  type bytes = seq<byte>

  type int32 = x: int | -0x8000_0000 <= x < 0x8000_0000
  type int64 = x: int | -0x8000_0000_0000_0000 <= x < 0x8000_0000_0000_0000

  /** Go's `<` on strings. */
  predicate Less(a: bytes, b: bytes)
    decreases |a|
  {
    if |b| == 0 then false
    else if |a| == 0 then true
    else if a[0] != b[0] then a[0] < b[0]
    else Less(a[1..], b[1..])
  }

  /** The strings agree up to `k`, where `a` ends or has the smaller byte. */
  ghost predicate SmallerAt(a: bytes, b: bytes, k: nat) {
    k <= |a| && k < |b| && a[..k] == b[..k] && (k == |a| || a[k] < b[k])
  }

  /** The first difference decides, and a proper prefix is smaller. */
  lemma {:induction false} LessMeans(a: bytes, b: bytes)
    ensures Less(a, b) <==> exists k :: SmallerAt(a, b, k)
    decreases |a|
  {
    if |a| > 0 && |b| > 0 && a[0] == b[0] {
      LessMeans(a[1..], b[1..]);
      if Less(a, b) {
        var k: nat :| SmallerAt(a[1..], b[1..], k);
        assert a[..k + 1] == [a[0]] + a[1..][..k] && b[..k + 1] == [b[0]] + b[1..][..k];
        assert SmallerAt(a, b, k + 1);
      }
      if k: nat :| SmallerAt(a, b, k) {
        assert k > 0;
        assert a[1..][..k - 1] == a[..k][1..] && b[1..][..k - 1] == b[..k][1..];
        assert SmallerAt(a[1..], b[1..], k - 1);
      }
    } else if Less(a, b) {
      assert SmallerAt(a, b, 0);
    } else if k: nat :| SmallerAt(a, b, k) {
      AgreeAtHead(a, b, k);
    }
  }

  lemma AgreeAtHead(a: bytes, b: bytes, k: nat)
    requires SmallerAt(a, b, k)
    ensures k > 0 ==> |a| > 0 && |b| > 0 && a[0] == b[0]
  {
    if k > 0 {
      assert a[..k][0] == a[0] && b[..k][0] == b[0];
    }
  }

  lemma {:induction false} LessIrreflexive(a: bytes)
    ensures !Less(a, a)
    decreases |a|
  {
    if |a| > 0 {
      LessIrreflexive(a[1..]);
    }
  }

  lemma {:induction false} LessTotal(a: bytes, b: bytes)
    ensures a != b ==> Less(a, b) || Less(b, a)
    decreases |a|
  {
    if |a| > 0 && |b| > 0 && a[0] == b[0] {
      assert a == [a[0]] + a[1..] && b == [b[0]] + b[1..];
      LessTotal(a[1..], b[1..]);
    }
  }

  lemma {:induction false} LessTransitive(a: bytes, b: bytes, c: bytes)
    requires Less(a, b) && Less(b, c)
    ensures Less(a, c)
    decreases |a|
  {
    if |a| > 0 && a[0] == b[0] == c[0] {
      LessTransitive(a[1..], b[1..], c[1..]);
    }
  }

  lemma LessAsymmetric(a: bytes, b: bytes)
    requires Less(a, b)
    ensures !Less(b, a)
  {
    if Less(b, a) {
      LessTransitive(a, b, a);
      LessIrreflexive(a);
    }
  }

  /** A strict comparison of equal-length prefixes decides, whatever follows them. */
  lemma {:induction false} LessExtends(a: bytes, b: bytes, x: bytes, y: bytes)
    requires |a| == |b| && Less(a, b)
    ensures Less(a + x, b + y)
    decreases |a|
  {
    assert (a + x)[0] == a[0] && (b + y)[0] == b[0];
    if a[0] == b[0] {
      LessExtends(a[1..], b[1..], x, y);
      assert (a + x)[1..] == a[1..] + x && (b + y)[1..] == b[1..] + y;
    }
  }

  lemma {:induction false} LessCommonPrefix(p: bytes, a: bytes, b: bytes)
    ensures Less(p + a, p + b) <==> Less(a, b)
    decreases |p|
  {
    if |p| == 0 {
      assert p + a == a && p + b == b;
    } else {
      LessCommonPrefix(p[1..], a, b);
      assert (p + a)[1..] == p[1..] + a && (p + b)[1..] == p[1..] + b;
    }
  }

  // ---------- big-endian unsigned integers ----------

  function Pow256(k: nat): (r: nat)
    ensures r > 0
  {
    if k == 0 then 1 else 256 * Pow256(k - 1)
  }

  /** The low `k` bytes of `v`, most significant first (`binary.BigEndian`). */
  function BigEndian(k: nat, v: nat): (r: bytes)
    ensures |r| == k
  {
    if k == 0 then [] else BigEndian(k - 1, v / 256) + [v % 256]
  }

  function FromBigEndian(s: bytes): nat {
    if |s| == 0 then 0 else 256 * FromBigEndian(s[..|s| - 1]) + s[|s| - 1]
  }

  lemma {:induction false} BigEndianRoundTrip(k: nat, v: nat)
    requires v < Pow256(k)
    ensures FromBigEndian(BigEndian(k, v)) == v
  {
    if k > 0 {
      BigEndianRoundTrip(k - 1, v / 256);
      var s := BigEndian(k, v);
      assert s[..|s| - 1] == BigEndian(k - 1, v / 256);
    }
  }

  lemma {:induction false} FromBigEndianRoundTrip(s: bytes)
    ensures FromBigEndian(s) < Pow256(|s|)
    ensures BigEndian(|s|, FromBigEndian(s)) == s
  {
    if |s| > 0 {
      var init := s[..|s| - 1];
      FromBigEndianRoundTrip(init);
      assert FromBigEndian(s) / 256 == FromBigEndian(init);
      assert s == init + [s[|s| - 1]];
    }
  }

  /** Most significant byte first. */
  lemma FourBytes(v: nat)
    ensures BigEndian(4, v) == [v / 0x100_0000 % 256, v / 0x1_0000 % 256, v / 0x100 % 256, v % 256]
  {
    assert BigEndian(1, v / 0x100_0000) == [v / 0x100_0000 % 256];
    assert BigEndian(2, v / 0x1_0000) == [v / 0x100_0000 % 256, v / 0x1_0000 % 256];
    assert BigEndian(3, v / 0x100) == [v / 0x100_0000 % 256, v / 0x1_0000 % 256, v / 0x100 % 256];
  }

  /** The upper four bytes, then the lower four. */
  lemma EightBytes(v: nat)
    ensures BigEndian(8, v) == BigEndian(4, v / 0x1_0000_0000) + BigEndian(4, v)
  {
    FourBytes(v);
    var x, y, z := v / 0x100, v / 0x1_0000, v / 0x100_0000;
    assert x / 0x100 == y && y / 0x100 == z && z / 0x100 == v / 0x1_0000_0000;
    assert BigEndian(8, v) == BigEndian(7, x) + [v % 256];
    assert BigEndian(7, x) == BigEndian(6, y) + [x % 256];
    assert BigEndian(6, y) == BigEndian(5, z) + [y % 256];
    assert BigEndian(5, z) == BigEndian(4, v / 0x1_0000_0000) + [z % 256];
  }

  lemma Powers()
    ensures Pow256(4) == 0x1_0000_0000
    ensures Pow256(8) == 0x1_0000_0000_0000_0000
  {
    assert Pow256(1) == 256;
    assert Pow256(2) == 0x1_0000;
    assert Pow256(3) == 0x100_0000;
    assert Pow256(4) == 0x1_0000_0000;
    assert Pow256(5) == 0x100_0000_0000;
    assert Pow256(6) == 0x1_0000_0000_0000;
    assert Pow256(7) == 0x100_0000_0000_0000;
  }
}
