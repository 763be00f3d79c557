/** Byte strings, little-endian words and the boot filesystem checksum. */
module Bytes {
  import opened Bits

  type byte = x: int | 0 <= x < 256
  type bytes = seq<byte>

  const ERASED: byte := 0xFF

  function Erased(n: nat): (b: bytes)
    ensures |b| == n && forall i :: 0 <= i < n ==> b[i] == ERASED
  {
    seq(n, i => ERASED)
  }

  lemma SliceAt(b: bytes, lo: nat, hi: nat, k: nat)
    requires lo <= k < hi <= |b|
    ensures b[lo..hi][k - lo] == b[k]
  {
  }

  // Python's data[lo:hi], which clamps to the length.
  function Slice(b: bytes, lo: nat, hi: nat): bytes
    requires lo <= hi
  {
    var h := if hi < |b| then hi else |b|;
    if lo <= h then b[lo..h] else []
  }

  function Le32(x: nat): (b: bytes)
    ensures |b| == 4
  {
    [x % 256, x / 0x100 % 256, x / 0x1_0000 % 256, x / 0x100_0000 % 256]
  }

  function U32(b: bytes): nat
    requires |b| == 4
  {
    b[0] as int + 0x100 * (b[1] as int) + 0x1_0000 * (b[2] as int) + 0x100_0000 * (b[3] as int)
  }

  lemma U32Le32(x: nat)
    requires x < TWO32
    ensures U32(Le32(x)) == x
  {
    assert x / 0x1_0000 == x / 0x100 / 0x100;
    assert x / 0x100_0000 == x / 0x1_0000 / 0x100;
  }

  // int.from_bytes(b, "little")
  function LeValue(b: bytes): nat {
    if b == [] then 0 else b[0] + 256 * LeValue(b[1..])
  }

  function WordLen(data: bytes): (n: nat)
    ensures n <= |data| && (data != [] ==> 0 < n)
  {
    if |data| < 4 then |data| else 4
  }

  function WordSum(data: bytes): nat {
    if data == [] then 0
    else LeValue(data[..WordLen(data)]) + WordSum(data[WordLen(data)..])
  }

  function Checksum(data: bytes): (c: nat)
    ensures c < TWO32
  {
    if |data| < 4 then 0 else WordSum(data) % TWO32
  }

  // What a byte at position i counts in a sum of little-endian words.
  function Weight(i: nat): nat {
    if i % 4 == 0 then 1 else if i % 4 == 1 then 0x100 else if i % 4 == 2 then 0x1_0000 else 0x100_0000
  }

  // The first n bytes, each with its weight.
  function PositionSum(data: bytes, n: nat): nat
    requires n <= |data|
  {
    if n == 0 then 0 else PositionSum(data, n - 1) + data[n - 1] * Weight(n - 1)
  }

  lemma {:induction false} PositionSumSplit(data: bytes, n: nat)
    requires 4 <= n <= |data|
    ensures PositionSum(data, n) == PositionSum(data[..4], 4) + PositionSum(data[4..], n - 4)
  {
    if n == 4 {
      PositionSumPrefix(data, 4);
    } else {
      PositionSumSplit(data, n - 1);
      assert data[4..][n - 5] == data[n - 1] && Weight(n - 5) == Weight(n - 1);
    }
  }

  lemma {:induction false} PositionSumPrefix(data: bytes, n: nat)
    requires n <= |data| && n <= 4
    ensures PositionSum(data, n) == PositionSum(if |data| < 4 then data else data[..4], n)
  {
    if n > 0 {
      PositionSumPrefix(data, n - 1);
    }
  }

  lemma WordByPosition(b: bytes)
    requires |b| <= 4
    ensures LeValue(b) == PositionSum(b, |b|)
    ensures |b| == 4 ==> LeValue(b) == U32(b)
  {
    assert Weight(0) == 1 && Weight(1) == 0x100 && Weight(2) == 0x1_0000 && Weight(3) == 0x100_0000;
    if |b| >= 1 {
      assert PositionSum(b, 1) == b[0];
      assert LeValue(b) == b[0] + 256 * LeValue(b[1..]);
    }
    if |b| >= 2 {
      assert PositionSum(b, 2) == PositionSum(b, 1) + b[1] as int * 0x100;
      assert LeValue(b[1..]) == b[1] + 256 * LeValue(b[1..][1..]);
      assert b[1..][1..] == b[2..];
    }
    if |b| >= 3 {
      assert PositionSum(b, 3) == PositionSum(b, 2) + b[2] as int * 0x1_0000;
      assert LeValue(b[2..]) == b[2] + 256 * LeValue(b[2..][1..]);
      assert b[2..][1..] == b[3..];
    }
    if |b| == 4 {
      assert PositionSum(b, 4) == PositionSum(b, 3) + b[3] as int * 0x100_0000;
      assert LeValue(b[3..]) == b[3] + 256 * LeValue(b[3..][1..]);
      assert b[3..][1..] == [];
    }
  }

  /** The word sum counts every byte with the weight of its place in its word. */
  lemma {:induction false} WordSumByPosition(data: bytes)
    ensures WordSum(data) == PositionSum(data, |data|)
  {
    var k := WordLen(data);
    if 0 < |data| < 4 {
      assert data[..k] == data && data[k..] == [];
      WordByPosition(data);
    } else if |data| >= 4 {
      WordByPosition(data[..4]);
      WordSumByPosition(data[4..]);
      PositionSumSplit(data, |data|);
    }
  }

  // cksum
  method Cksum(data: bytes) returns (c: nat)
    ensures c == Checksum(data)
    ensures c == if |data| < 4 then 0 else PositionSum(data, |data|) % TWO32
  {
    WordSumByPosition(data);
    c := 0;
    if |data| < 4 {
      return 0;
    }
    var i := 0;
    while i < |data|
      invariant 0 <= i && (i < |data| || c == WordSum(data))
      invariant i < |data| ==> c + WordSum(data[i..]) == WordSum(data)
      decreases |data| - i
    {
      var rest := data[i..];
      var value := LeValue(rest[..WordLen(rest)]);
      c := c + value;
      assert i + 4 < |data| ==> rest[4..] == data[i + 4..];
      assert i + 4 >= |data| ==> rest[WordLen(rest)..] == [];
      i := i + 4;
    }
    c := c % TWO32;
  }

  lemma {:induction false} LeValueInjective(a: bytes, b: bytes)
    requires |a| == |b| && LeValue(a) == LeValue(b)
    ensures a == b
  {
    if a != [] {
      LeValueInjective(a[1..], b[1..]);
      assert a == [a[0]] + a[1..] && b == [b[0]] + b[1..];
    }
  }

  lemma LeValueBound(b: bytes)
    requires |b| <= 4
    ensures LeValue(b) < TWO32
  {
    if |b| > 0 {
      LeValueBound(b[1..]);
      assert |b| == 4 ==> LeValue(b[1..]) < 0x100_0000 by {
        if |b| == 4 {
          ThreeBytes(b[1..]);
        }
      }
      if |b| <= 3 {
        ThreeBytes(b);
      }
    }
  }

  lemma ThreeBytes(b: bytes)
    requires |b| <= 3
    ensures LeValue(b) < 0x100_0000
  {
    if |b| > 0 {
      assert |b[1..]| > 0 ==> LeValue(b[1..]) == b[1] + 256 * LeValue(b[1..][1..]);
      assert |b| == 3 ==> LeValue(b[1..][1..]) == b[2] + 256 * LeValue(b[1..][1..][1..]);
    }
  }

  lemma WordSumFirst(w: bytes, rest: bytes)
    requires 0 < |w| <= 4 && (|w| < 4 ==> rest == [])
    ensures WordSum(w + rest) == LeValue(w) + WordSum(rest)
  {
    var x := w + rest;
    assert x[..WordLen(x)] == w && x[WordLen(x)..] == rest;
  }

  lemma Regroup(pre: bytes, w: bytes, post: bytes)
    requires |pre| >= 4
    ensures pre + w + post == pre[..4] + (pre[4..] + w + post)
  {
    assert pre == pre[..4] + pre[4..];
  }

  // Replacing one word changes the sum by the difference of the two words.
  lemma {:induction false} WordSumUpdate(pre: bytes, w: bytes, v: bytes, post: bytes)
    requires |pre| % 4 == 0 && 0 < |w| == |v| <= 4 && (|w| < 4 ==> post == [])
    ensures WordSum(pre + w + post) + LeValue(v) == WordSum(pre + v + post) + LeValue(w)
    decreases |pre|
  {
    if pre == [] {
      WordSumFirst(w, post);
      WordSumFirst(v, post);
      assert pre + w == w && pre + v == v;
    } else {
      var first, rest := pre[..4], pre[4..];
      WordSumUpdate(rest, w, v, post);
      WordSumFirst(first, rest + w + post);
      WordSumFirst(first, rest + v + post);
      Regroup(pre, w, post);
      Regroup(pre, v, post);
    }
  }

  lemma DistinctResidues(a: nat, b: nat, m: nat)
    requires m > 0 && a < b < a + m
    ensures a % m != b % m
  {
    if a % m == b % m {
      var k := b / m - a / m;
      assert k * m == b - a by {
        assert a == a / m * m + a % m && b == b / m * m + b % m;
      }
      if k >= 1 {
        MulAtLeast(k, m);
      } else {
        assert false;
      }
    }
  }

  /** A checksummed string of at least four bytes with exactly one of its
      words changed has another checksum. */
  lemma ChecksumDetects(pre: bytes, w: bytes, v: bytes, post: bytes)
    requires |pre| % 4 == 0 && 0 < |w| == |v| <= 4 && (|w| < 4 ==> post == [])
    requires w != v && |pre + w + post| >= 4
    ensures Checksum(pre + w + post) != Checksum(pre + v + post)
  {
    WordSumUpdate(pre, w, v, post);
    LeValueBound(w);
    LeValueBound(v);
    var a, b := WordSum(pre + w + post), WordSum(pre + v + post);
    if LeValue(w) == LeValue(v) {
      LeValueInjective(w, v);
      assert false;
    } else if a < b {
      DistinctResidues(a, b, TWO32);
    } else {
      DistinctResidues(b, a, TWO32);
    }
  }
}
