/**
 Fixed-width unsigned words as naturals, and their bits as sequences of
 booleans, least significant bit first, with the shifts and masks that are about
 single bits. Where only the number matters, other modules divide and take remainders.
 */
module Bits {

  const TWO32: nat := 0x1_0000_0000
  const TWO64: nat := 0x1_0000_0000_0000_0000

  function Pow2(n: nat): (p: nat)
    ensures p > 0
  {
    if n == 0 then 1 else 2 * Pow2(n - 1)
  }

  lemma {:induction false} Pow2Add(m: nat, n: nat)
    ensures Pow2(m + n) == Pow2(m) * Pow2(n)
  {
    if m > 0 {
      Pow2Add(m - 1, n);
      assert Pow2(m + n) == 2 * (Pow2(m - 1) * Pow2(n));
    }
  }

  lemma Pow2Values()
    ensures Pow2(4) == 16 && Pow2(8) == 256 && Pow2(16) == 0x1_0000
    ensures Pow2(32) == TWO32
    ensures Pow2(64) == TWO64
  {
    assert Pow2(4) == 16;
    Pow2Add(4, 4);
    Pow2Add(8, 8);
    Pow2Add(16, 16);
    Pow2Add(32, 32);
  }

  // The low n bits of x.
  function ToBits(n: nat, x: nat): (b: seq<bool>)
    ensures |b| == n
  {
    if n == 0 then [] else [x % 2 == 1] + ToBits(n - 1, x / 2)
  }

  function FromBits(b: seq<bool>): nat {
    if b == [] then 0 else (if b[0] then 1 else 0) + 2 * FromBits(b[1..])
  }

  function Reverse<T>(s: seq<T>): (r: seq<T>)
    ensures |r| == |s|
    ensures forall i :: 0 <= i < |s| ==> r[i] == s[|s| - 1 - i]
  {
    seq(|s|, i requires 0 <= i < |s| => s[|s| - 1 - i])
  }

  lemma ReverseConcat<T>(a: seq<T>, b: seq<T>)
    ensures Reverse(a + b) == Reverse(b) + Reverse(a)
  {
  }

  lemma ReverseReverse<T>(a: seq<T>)
    ensures Reverse(Reverse(a)) == a
  {
  }

  lemma {:induction false} FromBitsBound(b: seq<bool>)
    ensures FromBits(b) < Pow2(|b|)
  {
    if b != [] {
      FromBitsBound(b[1..]);
    }
  }

  lemma {:induction false} ToBitsFromBits(b: seq<bool>)
    ensures ToBits(|b|, FromBits(b)) == b
  {
    if b != [] {
      ToBitsFromBits(b[1..]);
      assert FromBits(b) / 2 == FromBits(b[1..]);
    }
  }

  lemma {:induction false} FromBitsToBits(n: nat, x: nat)
    ensures FromBits(ToBits(n, x)) == x % Pow2(n)
  {
    if n > 0 {
      FromBitsToBits(n - 1, x / 2);
      var b := ToBits(n, x);
      assert b[1..] == ToBits(n - 1, x / 2);
      ModTwice(x, Pow2(n - 1));
    }
  }

  lemma FromToSmall(n: nat, x: nat)
    requires x < Pow2(n)
    ensures FromBits(ToBits(n, x)) == x
  {
    FromBitsToBits(n, x);
    DivModUnique(x, Pow2(n), 0, x);
  }

  lemma SmallMod(x: int, m: int)
    requires 0 <= x < m
    ensures x % m == x
  {
  }

  // Splitting off the lowest bit commutes with a power-of-two modulus.
  lemma ModTwice(x: nat, m: nat)
    requires m > 0
    ensures x % (2 * m) == x % 2 + 2 * ((x / 2) % m)
  {
    var y := x / 2;
    var q, r := y / m, y % m;
    assert x == 2 * (q * m + r) + x % 2;
    assert x == q * (2 * m) + (2 * r + x % 2);
    DivModUnique(x, 2 * m, q, 2 * r + x % 2);
  }

  lemma MulAtLeast(k: int, d: int)
    requires d > 0 && k >= 1
    ensures k * d >= d
  {
  }

  lemma DivModUnique(x: int, d: int, q: int, r: int)
    requires d > 0 && 0 <= r < d && x == q * d + r
    ensures x / d == q && x % d == r
  {
    var k := x / d - q;
    assert k * d == r - x % d by {
      assert x == (x / d) * d + x % d;
      assert k * d == (x / d) * d - q * d;
    }
    if k > 0 {
      MulAtLeast(k, d);
      assert false;
    } else if k < 0 {
      MulAtLeast(-k, d);
      assert false;
    }
  }

  lemma ToBitsMod(n: nat, x: nat)
    ensures ToBits(n, x % Pow2(n)) == ToBits(n, x)
  {
    FromBitsToBits(n, x);
    ToBitsFromBits(ToBits(n, x));
  }

  // Shift left.
  function Shl(x: nat, n: nat): nat {
    if n == 0 then x else 2 * Shl(x, n - 1)
  }

  lemma {:induction false} FromBitsConcat(a: seq<bool>, b: seq<bool>)
    ensures FromBits(a + b) == FromBits(a) + Shl(FromBits(b), |a|)
  {
    if a == [] {
      assert a + b == b;
    } else {
      assert (a + b)[1..] == a[1..] + b;
      FromBitsConcat(a[1..], b);
    }
  }

  // Logical shift right.
  function Shr(x: nat, m: nat): nat
    decreases m
  {
    if m == 0 then x else Shr(x / 2, m - 1)
  }

  lemma {:induction false} ToBitsSplit(m: nat, n: nat, x: nat)
    ensures ToBits(m + n, x) == ToBits(m, x) + ToBits(n, Shr(x, m))
    decreases m
  {
    if m > 0 {
      ToBitsSplit(m - 1, n, x / 2);
      assert ToBits(m + n, x) == [x % 2 == 1] + ToBits(m - 1 + n, x / 2);
    }
  }

  lemma {:induction false} ShrStep(x: nat, i: nat)
    ensures Shr(x, i + 1) == Shr(x, i) / 2
    decreases i
  {
    if i > 0 {
      ShrStep(x / 2, i - 1);
    }
  }

  lemma {:induction false} BitAt(n: nat, x: nat, i: nat)
    requires i < n
    ensures ToBits(n, x)[i] == (Shr(x, i) % 2 == 1)
    decreases i
  {
    if i > 0 {
      BitAt(n - 1, x / 2, i - 1);
    }
  }

  lemma {:induction false} ShrBound(x: nat, a: nat, b: nat)
    requires x < Pow2(a + b)
    ensures Shr(x, a) < Pow2(b)
    decreases a
  {
    if a > 0 {
      ShrBound(x / 2, a - 1, b);
    }
  }

  // A prefix of the bits of x is the bits of x at a smaller width.
  lemma ToBitsPrefix(k: nat, n: nat, x: nat)
    requires k <= n
    ensures ToBits(n, x)[..k] == ToBits(k, x)
    ensures ToBits(n, x)[k..] == ToBits(n - k, Shr(x, k))
  {
    ToBitsSplit(k, n - k, x);
  }

  function Zeros(n: nat): (z: seq<bool>)
    ensures |z| == n && forall i :: 0 <= i < n ==> !z[i]
  {
    if n == 0 then [] else [false] + Zeros(n - 1)
  }

  lemma {:induction false} FromBitsZeros(n: nat)
    ensures FromBits(Zeros(n)) == 0
  {
    if n > 0 {
      FromBitsZeros(n - 1);
      assert Zeros(n)[1..] == Zeros(n - 1);
    }
  }

  lemma ReverseZeros(n: nat)
    ensures Reverse(Zeros(n)) == Zeros(n)
  {
    var r, z := Reverse(Zeros(n)), Zeros(n);
    forall i | 0 <= i < n ensures r[i] == z[i] {
      assert r[i] == z[n - 1 - i];
    }
  }

  lemma {:induction false} ShlZero(n: nat)
    ensures Shl(0, n) == 0
  {
    if n > 0 {
      ShlZero(n - 1);
    }
  }

  // Bitwise AND of two naturals, and AND with a complement.
  function BitAnd(x: nat, y: nat): nat {
    if x == 0 || y == 0 then 0
    else 2 * BitAnd(x / 2, y / 2) + (if x % 2 == 1 && y % 2 == 1 then 1 else 0)
  }

  function BitAndNot(x: nat, y: nat): nat {
    if x == 0 then 0
    else 2 * BitAndNot(x / 2, y / 2) + (if x % 2 == 1 && y % 2 == 0 then 1 else 0)
  }

  lemma HalfMask(k: nat)
    requires k > 0
    ensures (Pow2(k) - 1) / 2 == Pow2(k - 1) - 1 && (Pow2(k) - 1) % 2 == 1
  {
    assert Pow2(k) == 2 * Pow2(k - 1);
  }

  lemma {:induction false} BitAndLowMask(x: nat, k: nat)
    ensures BitAnd(x, Pow2(k) - 1) == x % Pow2(k)
  {
    if k == 0 {
      assert Pow2(0) == 1;
    } else if x == 0 {
      SmallMod(0, Pow2(k));
    } else {
      var y, z := Pow2(k) - 1, Pow2(k - 1) - 1;
      HalfMask(k);
      BitAndLowMask(x / 2, k - 1);
      ModTwice(x, Pow2(k - 1));
      assert y / 2 == z;
      assert BitAnd(x, y) == 2 * BitAnd(x / 2, z) + x % 2;
    }
  }

  lemma {:induction false} BitAndNotLowMask(x: nat, k: nat)
    ensures BitAndNot(x, Pow2(k) - 1) == x - x % Pow2(k)
    decreases k, x
  {
    if x == 0 {
      SmallMod(0, Pow2(k));
    } else if k == 0 {
      BitAndNotLowMask(x / 2, 0);
      assert Pow2(0) == 1;
    } else {
      var y, z := Pow2(k) - 1, Pow2(k - 1) - 1;
      HalfMask(k);
      BitAndNotLowMask(x / 2, k - 1);
      ModTwice(x, Pow2(k - 1));
      assert y / 2 == z;
      assert BitAndNot(x, y) == 2 * BitAndNot(x / 2, z);
    }
  }
}
