/**
 The nested bit reversals of include/tenstorrent/bitrev.h. The or of two
 disjoint fields is written as a sum. The C casts to narrower words need no
 counterpart, because the table lookup masks its index to four bits.
 */
module BitReverse {
  import opened Bits

  function Bitrev4(nibble: nat): nat {
    [0x0, 0x8, 0x4, 0xc, 0x2, 0xa, 0x6, 0xe,
     0x1, 0x9, 0x5, 0xd, 0x3, 0xb, 0x7, 0xf][nibble % 16]
  }

  function Bitrev8(b: nat): nat {
    Shl(Bitrev4(b), 4) + Bitrev4(Shr(b, 4))
  }

  function Bitrev16(hword: nat): nat {
    Shl(Bitrev8(hword), 8) + Bitrev8(Shr(hword, 8))
  }

  function Bitrev32(word: nat): nat {
    Shl(Bitrev16(word), 16) + Bitrev16(Shr(word, 16))
  }

  function Bitrev64(dword: nat): nat {
    Shl(Bitrev32(dword), 32) + Bitrev32(Shr(dword, 32))
  }

  // r is the n-bit reversal of the low n bits of x.
  ghost predicate Reverses(n: nat, x: nat, r: nat) {
    r < Pow2(n) && ToBits(n, r) == Reverse(ToBits(n, x))
  }

  // Reversing each half and swapping the halves reverses the whole.
  lemma JoinHalves(n: nat, x: nat, low: nat, high: nat)
    requires Reverses(n, x, low) && Reverses(n, Shr(x, n), high)
    ensures Reverses(2 * n, x, Shl(low, n) + high)
  {
    var a, b := ToBits(n, high), ToBits(n, low);
    assert FromBits(a + b) == Shl(low, n) + high by {
      FromToSmall(n, high);
      FromToSmall(n, low);
      FromBitsConcat(a, b);
    }
    ToBitsFromBits(a + b);
    FromBitsBound(a + b);
    assert Reverse(ToBits(2 * n, x)) == a + b by {
      ToBitsSplit(n, n, x);
      ReverseConcat(ToBits(n, x), ToBits(n, Shr(x, n)));
    }
  }

  lemma FourBits(x: nat)
    ensures ToBits(4, x) == [x % 2 == 1, x / 2 % 2 == 1, x / 2 / 2 % 2 == 1, x / 2 / 2 / 2 % 2 == 1]
  {
    assert ToBits(1, x / 2 / 2 / 2) == [x / 2 / 2 / 2 % 2 == 1];
    assert ToBits(2, x / 2 / 2) == [x / 2 / 2 % 2 == 1, x / 2 / 2 / 2 % 2 == 1];
    assert ToBits(3, x / 2) == [x / 2 % 2 == 1, x / 2 / 2 % 2 == 1, x / 2 / 2 / 2 % 2 == 1];
  }

  lemma Bitrev4OfBits(a: nat, b: nat, c: nat, d: nat)
    requires a <= 1 && b <= 1 && c <= 1 && d <= 1
    ensures Bitrev4(8 * a + 4 * b + 2 * c + d) == 8 * d + 4 * c + 2 * b + a
  {
    SmallMod(8 * a + 4 * b + 2 * c + d, 16);
    if a == 0 {
      if b == 0 {
        if c == 0 { } else { }
      } else {
        if c == 0 { } else { }
      }
    } else {
      if b == 0 {
        if c == 0 { } else { }
      } else {
        if c == 0 { } else { }
      }
    }
  }

  lemma Bitrev4Table(y: nat)
    requires y < 16
    ensures var r := Bitrev4(y);
      && r < 16
      && r % 2 == y / 2 / 2 / 2 % 2 && r / 2 % 2 == y / 2 / 2 % 2
      && r / 2 / 2 % 2 == y / 2 % 2 && r / 2 / 2 / 2 % 2 == y % 2
  {
    var a, b, c, d := y / 2 / 2 / 2 % 2, y / 2 / 2 % 2, y / 2 % 2, y % 2;
    assert y == 8 * a + 4 * b + 2 * c + d;
    Bitrev4OfBits(a, b, c, d);
    BitsOfSum(a, b, c, d);
  }

  lemma BitsOfSum(a: nat, b: nat, c: nat, d: nat)
    requires a <= 1 && b <= 1 && c <= 1 && d <= 1
    ensures var r := 8 * d + 4 * c + 2 * b + a;
      && r < 16 && r % 2 == a && r / 2 % 2 == b && r / 2 / 2 % 2 == c && r / 2 / 2 / 2 % 2 == d
  {
    var r := 8 * d + 4 * c + 2 * b + a;
    assert r / 2 == 4 * d + 2 * c + b;
    assert r / 2 / 2 == 2 * d + c;
    assert r / 2 / 2 / 2 == d;
  }

  lemma MirroredNibble(y: nat, r: nat)
    requires r % 2 == y / 2 / 2 / 2 % 2 && r / 2 % 2 == y / 2 / 2 % 2
    requires r / 2 / 2 % 2 == y / 2 % 2 && r / 2 / 2 / 2 % 2 == y % 2
    ensures ToBits(4, r) == Reverse(ToBits(4, y))
  {
    FourBits(y);
    FourBits(r);
  }

  lemma Bitrev4Reverses(x: nat)
    ensures Reverses(4, x, Bitrev4(x))
  {
    var y, r := x % 16, Bitrev4(x);
    assert y % 16 == y;
    assert r == Bitrev4(y) && r < Pow2(4) by {
      Bitrev4Table(y);
    }
    assert ToBits(4, r) == Reverse(ToBits(4, y)) by {
      Bitrev4Table(y);
      MirroredNibble(y, r);
    }
    assert ToBits(4, x) == ToBits(4, y) by {
      assert Pow2(4) == 16;
      ToBitsMod(4, x);
    }
  }

  lemma Bitrev8Reverses(x: nat)
    ensures Reverses(8, x, Bitrev8(x))
  {
    Bitrev4Reverses(x);
    Bitrev4Reverses(Shr(x, 4));
    JoinHalves(4, x, Bitrev4(x), Bitrev4(Shr(x, 4)));
  }

  lemma Bitrev16Reverses(x: nat)
    ensures Reverses(16, x, Bitrev16(x))
  {
    Bitrev8Reverses(x);
    Bitrev8Reverses(Shr(x, 8));
    JoinHalves(8, x, Bitrev8(x), Bitrev8(Shr(x, 8)));
  }

  lemma Joined(n: nat, width: nat, x: nat, low: nat, high: nat, r: nat)
    requires width == 2 * n && Reverses(n, x, low) && Reverses(n, Shr(x, n), high) && r == Shl(low, n) + high
    ensures Reverses(width, x, r)
  {
    JoinHalves(n, x, low, high);
  }

  /** bitrev32 returns the 32 bits of its argument in the opposite order. */
  lemma Bitrev32Reverses(x: nat)
    ensures Reverses(32, x, Bitrev32(x))
  {
    var lo, hi := Bitrev16(x), Bitrev16(Shr(x, 16));
    Bitrev16Reverses(x);
    Bitrev16Reverses(Shr(x, 16));
    Joined(16, 32, x, lo, hi, Bitrev32(x));
  }

  /** bitrev64 returns the 64 bits of its argument in the opposite order. */
  lemma Bitrev64Reverses(x: nat)
    ensures Reverses(64, x, Bitrev64(x))
  {
    var lo, hi := Bitrev32(x), Bitrev32(Shr(x, 32));
    Bitrev32Reverses(x);
    Bitrev32Reverses(Shr(x, 32));
    Joined(32, 64, x, lo, hi, Bitrev64(x));
  }

  // The reversal of a word is determined by its bits.
  lemma ReversesTwice(n: nat, x: nat, y: nat, z: nat)
    requires x < Pow2(n) && Reverses(n, x, y) && Reverses(n, y, z)
    ensures z == x
  {
    ReverseReverse(ToBits(n, x));
    FromToSmall(n, x);
    FromToSmall(n, z);
  }

  /** Reversing twice is the identity on 64-bit words. */
  lemma Bitrev64Involution(x: nat)
    requires x < Pow2(64)
    ensures Bitrev64(Bitrev64(x)) == x
  {
    Bitrev64Reverses(x);
    Bitrev64Reverses(Bitrev64(x));
    ReversesTwice(64, x, Bitrev64(x), Bitrev64(Bitrev64(x)));
  }
}
