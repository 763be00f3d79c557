/**
 Rate setting of the Grendel clock driver
 drivers/clock_control/clock_control_tt_grendel.c: the search for a post divider and
 a fixed-point frequency control word, and the rate read back from the registers.
 */
module GrendelClock {
  import opened Bits
  import opened Division
  import opened Wrappers

  const FRAC: nat := 16384       // 2^FCW_FRAC_BITS
  const FCW_INT_MIN: nat := 16
  const OUTPUTS: nat := 4

  const EINVAL := 22
  const EAGAIN := 11
  const ETIMEDOUT := 116

  // 2^postdiv, written out for the dividers set_rate uses
  function Scale(pd: nat): (s: nat)
    ensures s == Pow2(pd) && (1 <= pd <= 4 ==> 2 <= s <= 16)
  {
    assert Pow2(1) == 2 && Pow2(2) == 4 && Pow2(3) == 8 && Pow2(4) == 16;
    if pd == 1 then 2 else if pd == 2 then 4 else if pd == 3 then 8 else if pd == 4 then 16 else Pow2(pd)
  }

  function FcwFixed(rate: nat, ref: nat, pd: nat): (f: nat)
    requires ref > 0 && 1 <= pd <= 4
  {
    rate * (Scale(pd) * FRAC) / ref
  }

  datatype Fcw = Fcw(pd: nat, int_: nat, frac: nat)

  // The integer part is cut to eight bits.
  function FcwAt(rate: nat, ref: nat, pd: nat): (c: Fcw)
    requires ref > 0 && 1 <= pd <= 4
    ensures c.pd == pd && c.int_ < 256 && c.frac < FRAC
  {
    var f := FcwFixed(rate, ref, pd);
    Fcw(pd, f / FRAC % 256, f % FRAC)
  }

  // The first divider from pd on whose integer part is large enough.
  function Choose(rate: nat, ref: nat, pd: nat): (c: Option<Fcw>)
    requires ref > 0 && 1 <= pd <= 5
    ensures c.Some? ==> pd <= c.value.pd <= 4 && c.value == FcwAt(rate, ref, c.value.pd) && c.value.int_ >= FCW_INT_MIN
    ensures c.Some? ==> forall p :: pd <= p < c.value.pd ==> FcwAt(rate, ref, p).int_ < FCW_INT_MIN
    ensures c.None? ==> forall p :: pd <= p <= 4 ==> FcwAt(rate, ref, p).int_ < FCW_INT_MIN
    decreases 5 - pd
  {
    if pd == 5 then None
    else if FcwAt(rate, ref, pd).int_ >= FCW_INT_MIN then Some(FcwAt(rate, ref, pd))
    else Choose(rate, ref, pd + 1)
  }

  // clock_control_tt_grendel_get_rate on an output that is neither gated nor bypassed
  function Readback(ref: nat, c: Fcw): (g: nat) {
    ref * (c.int_ * FRAC + c.frac) / (Scale(c.pd) * FRAC) % TWO32
  }

  // ---- Arithmetic -------------------------------------------------------------------------

  // The integer part before it is cut.
  function Quot(rate: nat, ref: nat, pd: nat): (q: nat)
    requires ref > 0 && 1 <= pd <= 4
  {
    rate * Scale(pd) / ref
  }

  lemma ScaledDiv(x: nat, d: nat)
    requires d > 0
    ensures x * FRAC / d / FRAC == x / d
  {
    var q, f := x / d, x * FRAC / d;
    DivBounds(x, d);
    ScaledProduct(d, q);
    ScaledProduct(d, q + 1);
    assert d * (q + 1) == d * q + d;
    DivLess(x * FRAC, d, FRAC * q);
    DivLess(x * FRAC, d, FRAC * (q + 1));
    assert FRAC * q <= f < FRAC * q + FRAC;
  }

  lemma ScaledProduct(d: nat, q: nat)
    ensures d * (FRAC * q) == FRAC * (d * q)
  {
  }

  lemma IntegerPart(rate: nat, ref: nat, pd: nat)
    requires ref > 0 && 1 <= pd <= 4
    ensures FcwFixed(rate, ref, pd) / FRAC == Quot(rate, ref, pd)
  {
    ScaledDiv(rate * Scale(pd), ref);
    assert rate * (Scale(pd) * FRAC) == rate * Scale(pd) * FRAC;
  }

  lemma QuotBound(rate: nat, ref: nat, pd: nat, k: nat)
    requires ref > 0 && 1 <= pd <= 4
    ensures Quot(rate, ref, pd) < k <==> rate * Scale(pd) < ref * k
  {
    DivLess(rate * Scale(pd), ref, k);
  }

  // ---- What the search finds -----------------------------------------------------------------

  // Where the integer part fits eight bits at divider 1, the search never loses a bit.
  lemma {:induction false} ChosenIsWhole(rate: nat, ref: nat, pd: nat)
    requires ref > 0 && 1 <= pd <= 5 && rate < 128 * ref
    requires pd > 1 && pd <= 5 ==> Quot(rate, ref, pd - 1) < FCW_INT_MIN
    ensures Choose(rate, ref, pd).Some? ==> Quot(rate, ref, Choose(rate, ref, pd).value.pd) < 256
    ensures pd <= 4 ==> (Choose(rate, ref, pd).Some? <==> rate >= ref)
    decreases 5 - pd
  {
    if pd <= 4 {
      var q := Quot(rate, ref, pd);
      IntegerPart(rate, ref, pd);
      QuotBound(rate, ref, pd, 256);
      QuotBound(rate, ref, pd, FCW_INT_MIN);
      if pd > 1 {
        QuotBound(rate, ref, pd - 1, FCW_INT_MIN);
      }
      assert q < 256;
      SmallMod(q, 256);
      assert FcwAt(rate, ref, pd).int_ == q;
      if q < FCW_INT_MIN {
        ChosenIsWhole(rate, ref, pd + 1);
      }
    }
  }

  // The rate read back is no higher than asked for and less than one hertz plus one
  // step of the control word below.
  predicate Close(rate: nat, ref: nat, pd: nat, g: nat)
    requires 1 <= pd <= 4
  {
    g <= rate && (rate - g - 1) * (Scale(pd) * FRAC) < ref
  }

  lemma WholeReadsBackClose(rate: nat, ref: nat, pd: nat)
    requires 0 < ref < TWO32 && rate < TWO32 && 1 <= pd <= 4 && Quot(rate, ref, pd) < 256
    ensures Close(rate, ref, pd, Readback(ref, FcwAt(rate, ref, pd)))
  {
    var f, s := FcwFixed(rate, ref, pd), Scale(pd) * FRAC;
    IntegerPart(rate, ref, pd);
    SmallMod(f / FRAC, 256);
    assert f / FRAC * FRAC + f % FRAC == f;
    DivBounds(rate * s, ref);
    var x := ref * f;
    DivBounds(x, s);
    var g := x / s;
    assert g <= rate && (rate - g - 1) * s < ref by {
      CloseFrom(rate, ref, s, x, g);
    }
    SmallMod(g, TWO32);
  }

  // Cutting an integer part of 256 or more takes at least 256 from the control word.
  lemma CutLoses(f: nat)
    requires f / FRAC >= 256
    ensures (f / FRAC % 256) * FRAC + f % FRAC + 256 * FRAC <= f
  {
  }

  // Where it does not fit, every choice is at least 16 reference clocks off.
  lemma LostBitsReadBackFar(rate: nat, ref: nat, pd: nat)
    requires 0 < ref < TWO32 && 128 * ref <= rate < TWO32 && 1 <= pd <= 4
    ensures !Close(rate, ref, pd, Readback(ref, FcwAt(rate, ref, pd)))
  {
    var f, s := FcwFixed(rate, ref, pd), Scale(pd) * FRAC;
    var c := FcwAt(rate, ref, pd);
    var w := c.int_ * FRAC + c.frac;
    assert w + 256 * FRAC <= f by {
      IntegerPart(rate, ref, pd);
      QuotBound(rate, ref, pd, 256);
      CutLoses(f);
    }
    var x := ref * w;
    CutProduct(rate, ref, s, f, w, 256 * FRAC);
    DivBounds(x, s);
    FarFrom(rate, ref, s, x, x / s);
    assert x / s % TWO32 <= x / s;
    FarApart(rate, ref, s, x / s % TWO32);
  }

  lemma CutProduct(rate: nat, ref: nat, s: nat, f: nat, w: nat, cut: nat)
    requires ref > 0 && f == rate * s / ref && w + cut <= f
    ensures ref * w + ref * cut <= s * rate
  {
    DivBounds(rate * s, ref);
    MulMonotone(ref, w + cut, f);
    assert ref * (w + cut) == ref * w + ref * cut;
  }

  lemma FarFrom(rate: nat, ref: nat, s: nat, x: nat, g: nat)
    requires 0 < s <= 16 * FRAC && s * g <= x && x + ref * (256 * FRAC) <= s * rate
    ensures g + 16 * ref <= rate
  {
    assert s * (16 * ref) <= ref * (256 * FRAC) by {
      MulMonotone(16 * ref, s, 16 * FRAC);
    }
    assert s * (g + 16 * ref) == s * g + s * (16 * ref);
    Cancel(s, g + 16 * ref, rate);
  }

  lemma FarApart(rate: nat, ref: nat, s: nat, g: nat)
    requires ref > 0 && s > 0 && g + 16 * ref <= rate
    ensures (rate - g - 1) * s >= ref
  {
    MulMonotone(rate - g - 1, 1, s);
  }

  /** A rate is accepted and read back closely exactly when it lies between the
      reference clock and 128 times the reference clock. */
  lemma RateRoundTripExact(rate: nat, ref: nat)
    requires 0 < ref < TWO32 && rate < TWO32
    ensures var c := Choose(rate, ref, 1);
      (c.Some? && Close(rate, ref, c.value.pd, Readback(ref, c.value))) <==> ref <= rate < 128 * ref
  {
    var c := Choose(rate, ref, 1);
    if rate < 128 * ref {
      ChosenIsWhole(rate, ref, 1);
      if c.Some? {
        WholeReadsBackClose(rate, ref, c.value.pd);
      }
    } else if c.Some? {
      LostBitsReadBackFar(rate, ref, c.value.pd);
    }
  }

  /** A rate above that range can be accepted and come out far too low: with every
      reference clock, 136 times the reference is accepted and read back as 8 times it. */
  lemma AcceptedButWrong(ref: nat)
    requires ref > 0 && 136 * ref < TWO32
    ensures Choose(136 * ref, ref, 1) == Some(Fcw(1, 16, 0)) && Readback(ref, Fcw(1, 16, 0)) == 8 * ref
  {
    assert 136 * ref * (Scale(1) * FRAC) == ref * (272 * FRAC);
    assert FcwFixed(136 * ref, ref, 1) == 272 * FRAC by {
      DivModUnique(ref * (272 * FRAC), ref, 272 * FRAC, 0);
    }
    assert ref * (16 * FRAC + 0) == 2 * FRAC * (8 * ref);
    DivModUnique(2 * FRAC * (8 * ref), 2 * FRAC, 8 * ref, 0);
    SmallMod(8 * ref, TWO32);
  }

  // ---- What an output answers ----------------------------------------------------------------

  // POSTDIV_CONFIG values
  const BYPASS_THEN_SWITCH: nat := 0
  const FORCE_BYPASS: nat := 2
  const FORCE_GATE: nat := 3

  // What get_rate tells its caller about an output.
  datatype Answer = Gated | Hz(rate: nat)

  function AnswerOf(config: nat, ref: nat, c: Fcw): Answer {
    if config == FORCE_GATE then Gated
    else if config == FORCE_BYPASS then Hz(ref)
    else Hz(Readback(ref, c))
  }

  // ---- One control word for all outputs ----------------------------------------------------------

  predicate Word(c: Fcw) {
    c.int_ < 256 && c.frac < FRAC
  }

  // The divider is so large that every control word reads back as 0.
  predicate AlwaysZero(ref: nat, pd: nat) {
    ref * (256 * FRAC - 1) < Scale(pd) * FRAC
  }

  function FcwOf(pd: nat, w: nat): (c: Fcw)
    requires w < 256 * FRAC
    ensures Word(c) && c.pd == pd && c.int_ * FRAC + c.frac == w
  {
    Fcw(pd, w / FRAC, w % FRAC)
  }

  lemma ZeroWord(ref: nat, pd: nat)
    ensures Readback(ref, FcwOf(pd, 0)) == 0
  {
    DivModUnique(0, Scale(pd) * FRAC, 0, 0);
  }

  // The lowest word with a quotient above 0.
  lemma LowestWord(ref: nat, d: nat) returns (w: nat)
    requires 0 < ref < TWO32 && 0 < d <= ref * (256 * FRAC - 1)
    ensures w < 256 * FRAC && 0 < ref * w / d < TWO32
  {
    w := (d + ref - 1) / ref;
    DivBounds(d + ref - 1, ref);
    assert ref * w >= d && ref * w < d + ref;
    DivLess(d + ref - 1, ref, 256 * FRAC);
    DivLess(ref * w, d, 1);
    DivLess(ref * w, d, TWO32);
    MulMonotone(TWO32, 1, d);
  }

  lemma NonzeroWord(ref: nat, pd: nat) returns (c: Fcw)
    requires 0 < ref < TWO32 && !AlwaysZero(ref, pd)
    ensures Word(c) && c.pd == pd && Readback(ref, c) > 0
  {
    var w := LowestWord(ref, Scale(pd) * FRAC);
    c := FcwOf(pd, w);
    SmallMod(ref * w / (Scale(pd) * FRAC), TWO32);
  }

  lemma AllZero(ref: nat, c: Fcw)
    requires Word(c) && AlwaysZero(ref, c.pd)
    ensures Readback(ref, c) == 0
  {
    SmallQuotient(ref, c.int_ * FRAC + c.frac, 256 * FRAC - 1, Scale(c.pd) * FRAC);
  }

  lemma SmallQuotient(ref: nat, w: nat, top: nat, d: nat)
    requires w <= top && ref * top < d
    ensures ref * w / d == 0
  {
    MulMonotone(ref, w, top);
    DivLess(ref * w, d, 1);
  }

  /** Whatever the control word was before, an output answers after a rate has been set
      on another output what it answered before exactly when it is gated or bypassed, or
      its divider makes every rate 0. */
  lemma KeepsAnswerExact(config: nat, ref: nat, pd: nat, new_: Fcw)
    requires 0 < ref < TWO32 && config < 4 && Word(new_) && new_.pd == pd
    ensures (forall c: Fcw :: Word(c) && c.pd == pd ==> AnswerOf(config, ref, c) == AnswerOf(config, ref, new_))
       <==> config >= FORCE_BYPASS || AlwaysZero(ref, pd)
  {
    if config < FORCE_BYPASS && AlwaysZero(ref, pd) {
      forall c: Fcw | Word(c) && c.pd == pd ensures AnswerOf(config, ref, c) == AnswerOf(config, ref, new_) {
        AllZero(ref, c);
        AllZero(ref, new_);
      }
    } else if config < FORCE_BYPASS {
      ZeroWord(ref, pd);
      var c := NonzeroWord(ref, pd);
      assert AnswerOf(config, ref, FcwOf(pd, 0)) != AnswerOf(config, ref, c);
    }
  }

  // The dividers set_rate writes never do that.
  lemma SetDividersCount(ref: nat, pd: nat)
    requires ref > 0 && 1 <= pd <= 4
    ensures !AlwaysZero(ref, pd)
  {
    MulMonotone(256 * FRAC - 1, 1, ref);
  }

  /** One output at 4 reference clocks, then another set to 10: the control word of the
      second moves the first to 5. */
  lemma OneMovesAnother(ref: nat)
    requires ref > 0 && 10 * ref < TWO32
    ensures Choose(4 * ref, ref, 1) == Some(Fcw(2, 16, 0)) && Readback(ref, Fcw(2, 16, 0)) == 4 * ref
    ensures Choose(10 * ref, ref, 1) == Some(Fcw(1, 20, 0)) && Readback(ref, Fcw(2, 20, 0)) == 5 * ref
  {
    ExactWord(4 * ref, ref, 1, 8);
    ExactWord(4 * ref, ref, 2, 16);
    ExactWord(10 * ref, ref, 1, 20);
    ExactReadback(ref, 2, 16, 4);
    ExactReadback(ref, 2, 20, 5);
  }

  lemma ExactWord(rate: nat, ref: nat, pd: nat, k: nat)
    requires ref > 0 && 1 <= pd <= 4 && k < 256 && rate * Scale(pd) == ref * k
    ensures FcwAt(rate, ref, pd) == Fcw(pd, k, 0)
  {
    assert rate * (Scale(pd) * FRAC) == ref * k * FRAC;
    DivModUnique(ref * k * FRAC, ref, k * FRAC, 0);
  }

  lemma ExactReadback(ref: nat, pd: nat, k: nat, m: nat)
    requires k == m * Scale(pd) && m * ref < TWO32
    ensures Readback(ref, Fcw(pd, k, 0)) == m * ref
  {
    var d := Scale(pd) * FRAC;
    assert ref * (k * FRAC + 0) == (m * ref) * d;
    DivModUnique(ref * (k * FRAC), d, m * ref, 0);
    SmallMod(m * ref, TWO32);
  }

  // ---- The driver on its registers -------------------------------------------------------------

  class Cgm {
    const refClk: nat
    var enabled: bool
    var freqAcq: bool
    var fcwInt: nat
    var fcwFrac: nat
    var postdiv: seq<nat>
    var postdivConfig: seq<nat>

    ghost predicate Valid()
      reads this
    {
      && refClk < TWO32 && |postdiv| == OUTPUTS && |postdivConfig| == OUTPUTS
      && fcwInt < 256 && fcwFrac < FRAC
      && forall i :: 0 <= i < OUTPUTS ==> postdivConfig[i] < 4
    }

    constructor (refClk: nat)
      requires refClk < TWO32
      ensures Valid() && this.refClk == refClk
    {
      this.refClk := refClk;
      enabled, freqAcq, fcwInt, fcwFrac := false, false, 0, 0;
      postdiv, postdivConfig := [0, 0, 0, 0], [0, 0, 0, 0];
    }

    ghost function AnswerFor(output: nat): Answer
      requires Valid() && output < OUTPUTS
      reads this
    {
      AnswerOf(postdivConfig[output], refClk, Fcw(postdiv[output], fcwInt, fcwFrac))
    }

    // A gated or bypassed output does not depend on the control word.
    ghost predicate Unclocked(output: nat)
      requires Valid() && output < OUTPUTS
      reads this
    {
      postdivConfig[output] >= FORCE_BYPASS
    }

    // clock_control_tt_grendel_on; locks says whether the lock bit comes in time
    method On(output: nat, locks: bool) returns (rc: int)
      requires Valid()
      modifies `enabled, `freqAcq, `postdivConfig
      ensures Valid()
      ensures output >= OUTPUTS ==> rc == -EINVAL && unchanged(this)
      ensures output < OUTPUTS ==> (
                && rc == (if locks then 0 else -ETIMEDOUT) && enabled
                && postdivConfig == old(postdivConfig)[output := BYPASS_THEN_SWITCH]
                && AnswerFor(output) == Hz(Readback(refClk, Fcw(postdiv[output], fcwInt, fcwFrac))))
      ensures forall p :: 0 <= p < OUTPUTS && p != output ==> AnswerFor(p) == old(AnswerFor(p))
    {
      if output >= OUTPUTS {
        return -EINVAL;
      }
      if !enabled {
        enabled, freqAcq := true, true;
      }
      postdivConfig := postdivConfig[output := BYPASS_THEN_SWITCH];
      return if locks then 0 else -ETIMEDOUT;
    }

    // clock_control_tt_grendel_off
    method Off(output: nat) returns (rc: int)
      requires Valid()
      modifies `postdivConfig
      ensures Valid()
      ensures output >= OUTPUTS ==> rc == -EINVAL && unchanged(this)
      ensures output < OUTPUTS ==> rc == 0 && AnswerFor(output) == Gated
      ensures output < OUTPUTS ==> postdivConfig == old(postdivConfig)[output := FORCE_GATE]
      ensures forall p :: 0 <= p < OUTPUTS && p != output ==> AnswerFor(p) == old(AnswerFor(p))
    {
      if output >= OUTPUTS {
        return -EINVAL;
      }
      postdivConfig := postdivConfig[output := FORCE_GATE];
      return 0;
    }

    // clock_control_tt_grendel_set_rate
    method SetRate(output: nat, rate: nat, locks: bool) returns (rc: int)
      requires Valid() && rate < TWO32
      modifies `fcwInt, `fcwFrac, `postdiv, `freqAcq
      ensures Valid()
      ensures (output >= OUTPUTS || rate == 0 || refClk == 0 || Choose(rate, refClk, 1).None?)
        ==> rc == -EINVAL && unchanged(this)
      ensures (output < OUTPUTS && rate > 0 && refClk > 0 && Choose(rate, refClk, 1).Some?) ==> (
                var c := Choose(rate, refClk, 1).value;
                && rc == (if locks then 0 else -ETIMEDOUT) && freqAcq
                && fcwInt == c.int_ && fcwFrac == c.frac && postdiv == old(postdiv)[output := c.pd])
      ensures forall p :: 0 <= p < OUTPUTS && old(Unclocked(p)) ==> AnswerFor(p) == old(AnswerFor(p))
    {
      if output >= OUTPUTS {
        return -EINVAL;
      }
      if rate == 0 || refClk == 0 {
        return -EINVAL;
      }
      var pd := 1;
      var found := false;
      var int_: nat, frac: nat := 0, 0;
      while pd <= 4 && !found
        invariant 1 <= pd <= 5
        invariant !found ==> Choose(rate, refClk, 1) == Choose(rate, refClk, pd)
        invariant found ==> pd <= 4 && Choose(rate, refClk, 1) == Some(Fcw(pd, int_, frac))
        decreases 5 - pd, !found
      {
        var fixed := rate * (Scale(pd) * FRAC) / refClk;
        int_ := fixed / FRAC % 256;
        frac := fixed % FRAC;
        if FCW_INT_MIN <= int_ <= 255 {
          found := true;
        } else {
          pd := pd + 1;
        }
      }
      if !found {
        return -EINVAL;
      }
      freqAcq := false;
      fcwInt := int_;
      fcwFrac := frac;
      postdiv := postdiv[output := pd];
      freqAcq := true;
      return if locks then 0 else -ETIMEDOUT;
    }

    // clock_control_tt_grendel_get_rate
    method GetRate(output: nat) returns (rc: int, rate: nat)
      requires Valid()
      ensures rc == (if output >= OUTPUTS then -EINVAL else if AnswerFor(output) == Gated then -EAGAIN else 0)
      ensures rc == 0 ==> AnswerFor(output) == Hz(rate)
    {
      rate := 0;
      if output >= OUTPUTS {
        return -EINVAL, 0;
      }
      rc := 0;
      if postdivConfig[output] == FORCE_GATE {
        rc := -EAGAIN;
      } else if postdivConfig[output] == FORCE_BYPASS {
        rate := refClk;
      } else {
        var combined := fcwInt * FRAC + fcwFrac;
        rate := refClk * combined / (Scale(postdiv[output]) * FRAC) % TWO32;
      }
    }

    /** Whatever the output was doing, a rate set after turning it on comes back closely
        exactly when it lies between the reference clock and 128 times that clock. */
    method OnSetGet(output: nat, rate: nat) returns (rc: int, g: nat)
      requires Valid() && output < OUTPUTS && rate < TWO32
      modifies this
      ensures Valid() && (rc == 0 ==> 1 <= postdiv[output] <= 4 && AnswerFor(output) == Hz(g))
      ensures (rc == 0 && Close(rate, refClk, postdiv[output], g)) <==> refClk <= rate < 128 * refClk
    {
      if refClk > 0 {
        RateRoundTripExact(rate, refClk);
      }
      rc := On(output, true);
      rc := SetRate(output, rate, true);
      var ok;
      ok, g := GetRate(output);
    }

    /** Gating an output hides its rate and turning it on again brings the same rate back. */
    method GateCycle(output: nat) returns (gated: int, rc: int, again: nat)
      requires Valid() && output < OUTPUTS
      modifies this
      ensures Valid() && gated == -EAGAIN && rc == 0
      ensures !old(Unclocked(output)) ==> Hz(again) == old(AnswerFor(output))
      ensures forall p :: 0 <= p < OUTPUTS && p != output ==> AnswerFor(p) == old(AnswerFor(p))
    {
      var unused: nat;
      var off := Off(output);
      gated, unused := GetRate(output);
      var on := On(output, true);
      rc, again := GetRate(output);
    }

    /** All outputs share one control word: after an accepted rate every running output,
        whatever its divider, answers the rate of the new word, and a refused rate changes
        no answer. */
    method SharedWord(output: nat, rate: nat) returns (rc: int)
      requires Valid() && output < OUTPUTS && rate < TWO32
      modifies this
      ensures Valid() && (rc == 0 <==> rate > 0 && refClk > 0 && Choose(rate, refClk, 1).Some?)
      ensures forall p :: 0 <= p < OUTPUTS ==> Unclocked(p) == old(Unclocked(p))
      ensures forall p :: 0 <= p < OUTPUTS && (rc != 0 || old(Unclocked(p))) ==> AnswerFor(p) == old(AnswerFor(p))
      ensures rc == 0 ==> (
                var c := Choose(rate, refClk, 1).value;
                && postdiv == old(postdiv)[output := c.pd]
                && forall p :: 0 <= p < OUTPUTS && !Unclocked(p) ==>
                     AnswerFor(p) == Hz(Readback(refClk, Fcw(postdiv[p], c.int_, c.frac))))
    {
      rc := SetRate(output, rate, true);
    }

    /** The run of OneMovesAnother on the registers. */
    method SetTwo(first: nat, second: nat) returns (before: nat, after: nat)
      requires Valid() && first < OUTPUTS && second < OUTPUTS && first != second
      requires refClk > 0 && 10 * refClk < TWO32
      modifies this
      ensures Valid() && before == 4 * refClk && after == 5 * refClk
    {
      OneMovesAnother(refClk);
      var rc := On(first, true);
      rc := SetRate(first, 4 * refClk, true);
      rc, before := GetRate(first);
      rc := SetRate(second, 10 * refClk, true);
      rc, after := GetRate(first);
    }
  }
}
