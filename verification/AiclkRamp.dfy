/**
 The AICLK of the Blackhole PLL driver drivers/clock_control/clock_control_tt_bh.c:
 the feedback divider for a target frequency, the ramp that walks the register to it
 one step at a time, and the frequency read back. Register arithmetic is 32 bits wide,
 the feedback divider a 16-bit field.
 */
module AiclkRamp {
  import opened Bits
  import opened Division

  const FBDIVS: nat := 0x1_0000

  datatype Cntl1 = Cntl1(refdiv: nat, postdiv: nat, fbdiv: nat)

  predicate Fields(c: Cntl1) {
    c.refdiv < 256 && c.postdiv < 256 && c.fbdiv < FBDIVS
  }

  // clock_control_tt_bh_get_ext_postdiv for output 0; 0 means the clock is off
  function ExtPostdiv(postdiv0: nat, use: bool): (e: nat)
    requires postdiv0 < 256
    ensures e <= 512 && (e == 0 <==> use && postdiv0 == 0)
  {
    if !use then 1
    else if postdiv0 == 0 then 0
    else if postdiv0 <= 16 then postdiv0 + 1
    else (postdiv0 + 1) * 2
  }

  /** An enabled divider grows with its register value, in steps of 1 up to 16 and of 2 from
      17 on, with a jump between; a bypassed one divides by 1. */
  lemma ExtPostdivSteps(p: nat)
    requires p < 256
    ensures ExtPostdiv(p, false) == 1
    ensures ExtPostdiv(0, true) == 0 && ExtPostdiv(1, true) == 2
    ensures ExtPostdiv(16, true) == 17 && ExtPostdiv(17, true) == 36 && ExtPostdiv(255, true) == 512
    ensures 0 < p < 16 ==> ExtPostdiv(p + 1, true) == ExtPostdiv(p, true) + 1
    ensures 16 < p < 255 ==> ExtPostdiv(p + 1, true) == ExtPostdiv(p, true) + 2
  {
  }

  // clock_control_tt_bh_calculate_fbdiv
  function CalculateFbdiv(refclk: nat, target: nat, refdiv: nat, eff: nat): (f: nat)
    requires refclk > 0
    ensures eff == 0 ==> f == 0
  {
    if eff == 0 then 0 else target * refdiv % TWO32 * eff % TWO32 / refclk
  }

  // clock_control_tt_bh_get_freq
  function GetFreq(refclk: nat, c: Cntl1, eff: nat): (f: nat)
    requires c.refdiv > 0
    ensures eff == 0 ==> f == 0
  {
    if eff == 0 then 0 else MulPositive(c.refdiv, eff); refclk * c.fbdiv % TWO32 / (c.refdiv * eff)
  }

  lemma MulPositive(a: nat, b: nat)
    requires a > 0 && b > 0
    ensures a * b > 0
  {
  }

  // ---- The ramp ---------------------------------------------------------------------------------

  // One round of the loop on the 16-bit field.
  function RampStep(fbdiv: nat, target: nat): (f: nat)
    requires fbdiv < FBDIVS
    ensures f < FBDIVS
  {
    if target == fbdiv then fbdiv
    else if target > fbdiv then (fbdiv + 1) % FBDIVS
    else fbdiv - 1
  }

  function Ramp(fbdiv: nat, target: nat, n: nat): (f: nat)
    requires fbdiv < FBDIVS
    ensures f < FBDIVS
  {
    if n == 0 then fbdiv else RampStep(Ramp(fbdiv, target, n - 1), target)
  }

  // How far the ramp has to go.
  function Distance(a: nat, b: nat): (d: nat) {
    if a < b then b - a else a - b
  }

  lemma {:induction false} RampAt(fbdiv: nat, target: nat, n: nat)
    requires fbdiv < FBDIVS && target < FBDIVS && n <= Distance(fbdiv, target)
    ensures Ramp(fbdiv, target, n) == if fbdiv < target then fbdiv + n else fbdiv - n
  {
    if n > 0 {
      RampAt(fbdiv, target, n - 1);
      if fbdiv < target {
        SmallMod(fbdiv + n, FBDIVS);
      }
    }
  }

  /** The ramp arrives exactly when the target fits the field. */
  lemma RampArrivesExact(fbdiv: nat, target: nat)
    requires fbdiv < FBDIVS
    ensures (exists n: nat :: Ramp(fbdiv, target, n) == target) <==> target < FBDIVS
  {
    if target < FBDIVS {
      RampAt(fbdiv, target, Distance(fbdiv, target));
      assert Ramp(fbdiv, target, Distance(fbdiv, target)) == target;
    }
  }

  // The target fits the field exactly when the 32-bit product is below 2^16 reference clocks.
  lemma FbdivFitsExact(refclk: nat, target: nat, refdiv: nat, eff: nat)
    requires refclk > 0 && eff > 0
    ensures CalculateFbdiv(refclk, target, refdiv, eff) < FBDIVS
       <==> target * (refdiv * eff) % TWO32 < refclk * FBDIVS
  {
    var d := refdiv * eff;
    FbdivIs(refclk, target, refdiv, eff, d, target * d);
    DivLess(target * d % TWO32, refclk, FBDIVS);
  }

  /** Setting a rate ends exactly when the product of rate, refdiv and post divider,
      cut to 32 bits, is below 2^16 reference clocks. */
  lemma SetAiclkEndsExact(refclk: nat, rate: nat, refdiv: nat, eff: nat, fbdiv: nat)
    requires refclk > 0 && eff > 0 && fbdiv < FBDIVS
    ensures var target := CalculateFbdiv(refclk, rate, refdiv, eff);
      (exists n: nat :: Ramp(fbdiv, target, n) == target) <==> rate * (refdiv * eff) % TWO32 < refclk * FBDIVS
  {
    RampArrivesExact(fbdiv, CalculateFbdiv(refclk, rate, refdiv, eff));
    FbdivFitsExact(refclk, rate, refdiv, eff);
  }

  /** A rate the driver takes and never reaches: 3276800 on a 50 MHz reference with
      both dividers at 1 asks for a feedback divider of 2^16. */
  lemma RampNeverEnds(fbdiv: nat, n: nat)
    requires fbdiv < FBDIVS
    ensures CalculateFbdiv(50, 3276800, 1, 1) == FBDIVS && Ramp(fbdiv, FBDIVS, n) != FBDIVS
  {
    assert 3276800 == FBDIVS * 50;
  }

  class Pll {
    const refclk: nat
    var cntl1: Cntl1
    var postdiv0: nat
    var usePostdiv0: bool
    // values written to PLL_CNTL_1, in order
    var writes: seq<Cntl1>

    ghost predicate Valid()
      reads this
    {
      0 < refclk < TWO32 && Fields(cntl1) && postdiv0 < 256
    }

    function Eff(): (e: nat)
      requires postdiv0 < 256
      reads this
    {
      ExtPostdiv(postdiv0, usePostdiv0)
    }

    // The AICLK branch of clock_control_tt_bh_set_rate
    method SetAiclk(rate: nat)
      requires Valid() && rate < TWO32
      requires CalculateFbdiv(refclk, rate, cntl1.refdiv, Eff()) < FBDIVS
      modifies `cntl1, `writes
      ensures Valid()
      ensures var target := CalculateFbdiv(refclk, rate, old(cntl1).refdiv, Eff());
        var start := old(cntl1).fbdiv;
        && cntl1 == old(cntl1).(fbdiv := target)
        && writes == old(writes) + Trace(old(cntl1), target, Distance(start, target))
    {
      RampTo(CalculateFbdiv(refclk, rate, cntl1.refdiv, Eff()));
    }

    method RampTo(target: nat)
      requires Valid() && target < FBDIVS
      modifies `cntl1, `writes
      ensures Valid() && cntl1 == old(cntl1).(fbdiv := target)
      ensures writes == old(writes) + Trace(old(cntl1), target, Distance(old(cntl1).fbdiv, target))
    {
      var reg := cntl1;
      ghost var was, log, n := cntl1, writes, 0;
      while reg.fbdiv != target
        invariant n <= Distance(was.fbdiv, target) && reg == Written(was, target, n)
        invariant cntl1 == reg && Fields(reg)
        invariant writes == log + Trace(was, target, n)
        decreases Distance(was.fbdiv, target) - n
      {
        if target > reg.fbdiv {
          reg := reg.(fbdiv := (reg.fbdiv + 1) % FBDIVS);
        } else {
          reg := reg.(fbdiv := reg.fbdiv - 1);
        }
        n := n + 1;
        assert reg == Written(was, target, n);
        cntl1 := reg;
        writes := writes + [reg];
      }
    }
  }

  // The register n steps into a ramp: only the feedback divider moves, by one a step.
  function Written(c: Cntl1, target: nat, n: nat): (w: Cntl1)
    requires n <= Distance(c.fbdiv, target)
    ensures w.refdiv == c.refdiv && w.postdiv == c.postdiv
    ensures Distance(w.fbdiv, target) == Distance(c.fbdiv, target) - n && Distance(c.fbdiv, w.fbdiv) == n
  {
    c.(fbdiv := if c.fbdiv < target then c.fbdiv + n else c.fbdiv - n)
  }

  // The register values of the first n steps.
  function Trace(c: Cntl1, target: nat, n: nat): (t: seq<Cntl1>)
    requires n <= Distance(c.fbdiv, target)
    ensures |t| == n && forall i :: 0 <= i < n ==> t[i] == Written(c, target, i + 1)
  {
    if n == 0 then [] else Trace(c, target, n - 1) + [Written(c, target, n)]
  }

  // ---- The frequency read back ------------------------------------------------------------------

  lemma ModProduct(a: nat, b: nat)
    ensures a % TWO32 * b % TWO32 == a * b % TWO32
  {
    var q, r := a / TWO32, a % TWO32;
    assert a * b == (q * b) * TWO32 + r * b by {
      assert a == q * TWO32 + r;
    }
    var s, t := r * b / TWO32, r * b % TWO32;
    DivModUnique(a * b, TWO32, q * b + s, t) by {
      assert (q * b + s) * TWO32 == (q * b) * TWO32 + s * TWO32;
    }
  }

  lemma WrappedQuotient(x: nat, d: nat)
    requires 0 < d <= TWO32
    ensures x % TWO32 / d == x / d <==> x < TWO32
  {
    var q, r := x / TWO32, x % TWO32;
    if q == 0 {
      assert x == r;
    } else {
      var lo, m := r / d, r % d;
      assert x >= r + d && r == lo * d + m;
      assert (lo + 1) * d <= x by {
        assert (lo + 1) * d == lo * d + d;
      }
      DivLess(x, d, lo + 1);
    }
  }

  /** The reported frequency is the one the registers make exactly when the product of the
      reference clock and the feedback divider fits 32 bits. */
  lemma ReportedExact(refclk: nat, c: Cntl1, eff: nat)
    requires 0 < c.refdiv < 256 && 0 < eff <= 512
    ensures c.refdiv * eff > 0
    ensures GetFreq(refclk, c, eff) == refclk * c.fbdiv / (c.refdiv * eff) <==> refclk * c.fbdiv < TWO32
  {
    DividerBounds(c.refdiv, eff);
    WrappedQuotient(refclk * c.fbdiv, c.refdiv * eff);
  }

  // No more than asked for, and less than one unit plus one step of the divider below.
  predicate Close(refclk: nat, target: nat, divider: nat, g: nat) {
    g <= target && (target - g - 1) * divider < refclk
  }

  /** The frequency read back after a ramp is close to the target exactly when the
      product of target, refdiv and post divider fits 32 bits. */
  lemma ReadBackExact(refclk: nat, target: nat, c: Cntl1, eff: nat)
    requires 0 < refclk <= TWO32 - c.refdiv * eff && 0 < c.refdiv < 256 && 0 < eff <= 512
    requires c.fbdiv == CalculateFbdiv(refclk, target, c.refdiv, eff)
    ensures Close(refclk, target, c.refdiv * eff, GetFreq(refclk, c, eff)) <==> target * (c.refdiv * eff) < TWO32
  {
    var d := c.refdiv * eff;
    DividerBounds(c.refdiv, eff);
    var p := target * d;
    FbdivIs(refclk, target, c.refdiv, eff, d, p);
    RoundedTwice(refclk, target, d, p, c.fbdiv);
  }

  lemma FbdivIs(refclk: nat, target: nat, refdiv: nat, eff: nat, d: nat, p: nat)
    requires refclk > 0 && eff > 0 && d == refdiv * eff && p == target * d
    ensures CalculateFbdiv(refclk, target, refdiv, eff) == p % TWO32 / refclk
  {
    var q := target * refdiv;
    MulAssociates(target, refdiv, eff);
    ModProduct(q, eff);
  }

  lemma MulAssociates(a: nat, b: nat, c: nat)
    ensures a * b * c == a * (b * c)
  {
  }

  lemma DividerBounds(refdiv: nat, eff: nat)
    requires 0 < refdiv < 256 && 0 < eff <= 512
    ensures 0 < refdiv * eff < 0x2_0000
  {
    MulPositive(refdiv, eff);
    MulMonotone(refdiv, eff, 512);
  }

  lemma RoundedTwice(refclk: nat, target: nat, d: nat, p: nat, f: nat)
    requires 0 < refclk <= TWO32 - d && 0 < d < 0x2_0000 && p == target * d && f == p % TWO32 / refclk
    ensures Close(refclk, target, d, refclk * f % TWO32 / d) <==> p < TWO32
  {
    var w, x := p % TWO32, refclk * f;
    DivBounds(w, refclk);
    SmallMod(x, TWO32);
    var g := x / d;
    DivBounds(x, d);
    if p < TWO32 {
      SmallMod(p, TWO32);
      CloseFrom(target, refclk, d, x, g);
    } else {
      assert w + TWO32 <= p;
      WrappedIsFar(target, refclk, d, p, w, g);
    }
  }

  lemma WrappedIsFar(target: nat, refclk: nat, d: nat, p: nat, w: nat, g: nat)
    requires 0 < d < 0x2_0000 && refclk <= TWO32 - d && p == target * d && w + TWO32 <= p && d * g <= w
    ensures !Close(refclk, target, d, g)
  {
    if g <= target {
      assert (target - g - 1) * d == target * d - d * g - d;
    }
  }
}
