/**
 The bit-bang JTAG driver of drivers/jtag/jtag_bitbang.c wired to the emulator
 of drivers/jtag/jtag_emul.c. TDO is not driven by the emulator, so its level
 after k clocks is an arbitrary function of k. The link records the levels of TMS
 and TDI at every clock.
 */
module JtagDriver {
  import opened Bits
  import opened BitReverse
  import opened JtagTap

  const AXI_CNTL_READ: word := 0x8000_0000
  const AXI_CNTL_WRITE: word := 0x8000_010F
  const TENSIX_SM_RTAP: nat := 0x19e

  function Clocks(t: Tap, n: nat, tms: bool, tdi: bool): (u: Tap)
    ensures |u.buf| == |t.buf|
  {
    if n == 0 then t else Clock(Clocks(t, n - 1, tms, tdi), tms, tdi)
  }

  // None of n clocks with TMS held enters PAUSE or EXIT2.
  ghost predicate AvoidsPause(t: Tap, n: nat, tms: bool, tdi: bool) {
    n > 0 ==> AvoidsPause(t, n - 1, tms, tdi) && !Paused(Clocks(t, n, tms, tdi).emul.state)
  }

  lemma ClocksOnce(t: Tap, n: nat, tms: bool, tdi: bool)
    ensures Clocks(t, n + 1, tms, tdi) == Clock(Clocks(t, n, tms, tdi), tms, tdi)
    ensures AvoidsPause(t, n + 1, tms, tdi)
       <==> AvoidsPause(t, n, tms, tdi) && !Paused(Clocks(t, n + 1, tms, tdi).emul.state)
  {
  }

  // With TMS high, only PAUSE and EXIT2 lead to PAUSE or EXIT2.
  lemma {:induction false} HighClocksStayClean(t: Tap, n: nat, tdi: bool)
    requires !Paused(t.emul.state)
    ensures !Paused(Clocks(t, n, true, tdi).emul.state)
    ensures AvoidsPause(t, n, true, tdi)
  {
    if n > 0 {
      HighClocksStayClean(t, n - 1, tdi);
    }
  }

  lemma {:induction false} HighClocksState(t: Tap, n: nat, tdi: bool)
    ensures Clocks(t, n, true, tdi).emul.state == HighClocks(n, t.emul.state)
  {
    if n > 0 {
      HighClocksState(t, n - 1, tdi);
      HighClocksLast(n - 1, t.emul.state);
    }
  }

  lemma {:induction false} HighClocksLast(n: nat, s: State)
    ensures HighClocks(n + 1, s) == NextState(true, HighClocks(n, s))
  {
    if n > 0 {
      HighClocksLast(n - 1, NextState(true, s));
    }
  }

  // Where five and six high clocks lead: a low clock then reaches IDLE only from reset.
  lemma HighClocksFrom(s: State)
    ensures NextState(false, HighClocks(5, s)).Idle? <==> !Paused(s)
    ensures NextState(false, HighClocks(6, s)).Idle? <==> !Paused(s) || s.Exit2Dr? || s.Exit2Ir?
    ensures !Paused(s) ==> HighClocks(5, s).JtagReset? && HighClocks(6, s).JtagReset?
  {
    FiveHighClocksReset(s);
    HighClocksLast(5, s);
    HighClocksLast(4, s);
    HighClocksLast(3, s);
    HighClocksLast(2, s);
    HighClocksLast(1, s);
    HighClocksLast(0, s);
  }

  // From IDLE, high clocks move no register: the AXI latch is untouched.
  lemma {:induction false} HighClocksFromIdle(t: Tap, n: nat, tdi: bool)
    requires t.emul.state.Idle?
    ensures Port(Clocks(t, n, true, tdi)) == Port(t)
    ensures n >= 3 ==> Clocks(t, n, true, tdi).emul.state.JtagReset?
    ensures n < 3 ==> Clocks(t, n, true, tdi).emul.state == [Idle, ScanDr, ScanIr][n]
  {
    if n > 0 {
      HighClocksFromIdle(t, n - 1, tdi);
    }
  }

  lemma ShiftDrClock(t: Tap, bits: seq<bool>, b: bool)
    requires |bits| < 255
    ensures Clock(DrShifted(t, bits), false, b) == DrShifted(t, bits + [b])
  {
    assert (bits + [b])[..|bits|] == bits;
  }

  lemma ShiftIrClock(t: Tap, bits: seq<bool>, b: bool)
    requires |bits| < 255
    ensures Clock(IrShifted(t, bits), false, b) == IrShifted(t, bits + [b])
  {
    assert (bits + [b])[..|bits|] == bits;
  }

  // The three clocks that end a data scan.
  lemma DrScanEnds(t: Tap, bits: seq<bool>, idle: bool, b: bool)
    requires bits != []
    ensures Clock(Clock(Clock(DrShifted(t, bits[..|bits| - 1]), true, b), true, b), !idle, b) == DrScan(t, bits, idle)
  {
  }

  // An instruction scan after k of its bits went out: the emulator ignores the first.
  ghost function IrFed(t: Tap, bits: seq<bool>, k: nat): Tap
    requires k <= |bits|
  {
    if k == 0 then IrCaptured(t) else IrShifted(t, bits[1..k])
  }

  lemma PaddedSamples(s: seq<bool>, n: nat)
    ensures FromBits(s + Zeros(n)) == FromBits(s)
  {
    FromBitsConcat(s, Zeros(n));
    FromBitsZeros(n);
    ShlZero(|s|);
  }

  lemma ReversedPadding(s: seq<bool>, n: nat)
    ensures Reverse(Zeros(n) + Reverse(s)) == s + Zeros(n)
  {
    ReverseConcat(Zeros(n), Reverse(s));
    ReverseReverse(s);
    ReverseZeros(n);
  }

  // A reversal of the bits w of x is the number with bits Reverse(w).
  lemma ReversedValue(w: seq<bool>, x: nat, r: nat)
    requires x == FromBits(w) && Reverses(|w|, x, r)
    ensures r == FromBits(Reverse(w))
  {
    ToBitsFromBits(w);
    FromToSmall(|w|, r);
  }

  // Any reversal of the left-aligned capture has sample i in bit i.
  lemma CapturedWord(width: nat, s: seq<bool>, x: nat, r: nat)
    requires |s| <= width && x == Shl(FromBits(Reverse(s)), width - |s|) && Reverses(width, x, r)
    ensures r == FromBits(s)
  {
    var n := width - |s|;
    assert x == FromBits(Zeros(n) + Reverse(s)) by {
      FromBitsZeros(n);
      FromBitsConcat(Zeros(n), Reverse(s));
    }
    ReversedValue(Zeros(n) + Reverse(s), x, r);
    ReversedPadding(s, n);
    PaddedSamples(s, n);
  }

  // The closing lines of jtag_bitbang_xfer_dr: left-align, then reverse.
  method Realign(dataOut: nat, count: nat, ghost s: seq<bool>) returns (r: nat)
    requires |s| == count <= 64 && dataOut == FromBits(Reverse(s))
    ensures r == FromBits(s)
  {
    var x := Shl(dataOut, 64 - count);
    r := Bitrev64(x);
    Bitrev64Reverses(x);
    CapturedWord(64, s, x, r);
  }

  lemma AppendSample(s: seq<bool>, b: bool)
    ensures FromBits(Reverse(s + [b])) == 2 * FromBits(Reverse(s)) + (if b then 1 else 0)
  {
    ReverseConcat(s, [b]);
    assert Reverse(s + [b]) == [b] + Reverse(s);
  }

  // Four low zero bits are shifted through, the word itself stays.
  lemma PayloadBits(v: word)
    ensures FromBits(ToBits(37, 16 * v)[..36][4..]) == v
  {
    ToBitsPrefix(36, 37, 16 * v);
    ToBitsPrefix(4, 36, 16 * v);
    assert 16 * v / 2 / 2 / 2 / 2 == v;
    assert Shr(16 * v, 4) == v by {
      assert Shr(2 * v, 1) == v;
      assert Shr(4 * v, 2) == v;
      assert Shr(8 * v, 3) == v;
    }
    Pow2Values();
    FromToSmall(32, v);
  }

  lemma SelectorBits(x: nat)
    requires x < 16
    ensures FromBits(ToBits(5, x)[..4]) == x
  {
    ToBitsPrefix(4, 5, x);
    Pow2Values();
    FromToSmall(4, x);
  }

  /** Scanning a selector or a payload hands exactly that number to the latch. */
  lemma SelectorScan(t: Tap, x: nat)
    requires x < 16
    ensures Port(DrScan(t, ToBits(5, x), false)) == Receive(Port(t), x)
  {
    DrScanDelivers(t, ToBits(5, x), false);
    SelectorBits(x);
    assert ToBits(5, x)[..4][0..] == ToBits(5, x)[..4];
  }

  lemma PayloadScan(t: Tap, v: word, idle: bool)
    ensures Port(DrScan(t, ToBits(37, 16 * v), idle)) == Receive(Port(t), v)
  {
    DrScanDelivers(t, ToBits(37, 16 * v), idle);
    PayloadBits(v);
  }

  // What one driver write does to the emulated memory. A data word that looks
  // like a selector is not stored: 4 is replaced by the next selector, 3 sends
  // the control word to the address made of that selector. An address of 3 looks
  // like a selector too: the data selector behind it becomes the address, and the
  // data word is dropped, unless it is a data selector itself.
  function EmulWrite(buf: seq<word>, addr: word, v: word): (b: seq<word>)
    ensures |b| == |buf|
  {
    if addr == 3 then (if v == 4 then Store(buf, 4, 5) else buf)
    else if v == 3 then Store(buf, 5, AXI_CNTL_WRITE)
    else if v == 4 then Store(buf, addr, 5)
    else Store(buf, addr, v)
  }

  predicate Quiet(p: AxiPort) {
    !p.haveAddr && !p.haveData
  }

  // The TDO levels seen by n consecutive samples.
  ghost function Samples(tdo: nat -> bool, first: nat, n: nat): (s: seq<bool>)
    ensures |s| == n
    ensures forall i :: 0 <= i < n ==> s[i] == tdo(first + i)
  {
    seq(n, i requires 0 <= i < n => tdo(first + i))
  }

  // The levels a clock presents to the target.
  datatype Pins = Pins(tms: bool, tdi: bool)

  function Run(n: nat, p: Pins): (r: seq<Pins>)
    ensures |r| == n
  {
    seq(n, _ => p)
  }

  function Presented(bits: seq<bool>): (r: seq<Pins>)
    ensures |r| == |bits|
  {
    seq(|bits|, i requires 0 <= i < |bits| => Pins(false, bits[i]))
  }

  // Every clock of an instruction scan from IDLE to SCAN-DR, TDI having been at `was`:
  // the data bits in order, the last of them with TMS already high.
  function IrClocks(was: bool, bits: seq<bool>): (r: seq<Pins>)
    requires bits != []
    ensures |r| == |bits| + 5
  {
    var last := bits[|bits| - 1];
    [Pins(true, was), Pins(true, was), Pins(false, was)] + Presented(bits[..|bits| - 1]) + Run(3, Pins(true, last))
  }

  // Every clock of a data scan from SCAN-DR back to SCAN-DR or to IDLE.
  function DrClocks(was: bool, bits: seq<bool>, idle: bool): (r: seq<Pins>)
    requires bits != []
    ensures |r| == |bits| + 4
  {
    var last := bits[|bits| - 1];
    [Pins(false, was), Pins(false, was)] + Presented(bits[..|bits| - 1])
    + [Pins(true, last), Pins(true, last), Pins(!idle, last)]
  }

  lemma RunMore(n: nat, p: Pins)
    ensures Run(n + 1, p) == Run(n, p) + [p]
  {
  }

  lemma PresentedMore(bits: seq<bool>, k: nat)
    requires k < |bits|
    ensures Presented(bits[..k + 1]) == Presented(bits[..k]) + [Pins(false, bits[k])]
  {
  }

  lemma IrClocksParts(log: seq<Pins>, was: bool, bits: seq<bool>)
    requires bits != []
    ensures log + IrClocks(was, bits)
         == log + [Pins(true, was), Pins(true, was), Pins(false, was)] + Presented(bits[..|bits| - 1])
          + Run(3, Pins(true, bits[|bits| - 1]))
  {
  }

  lemma DrClocksParts(log: seq<Pins>, was: bool, bits: seq<bool>, idle: bool)
    requires bits != []
    ensures log + DrClocks(was, bits, idle)
         == log + [Pins(false, was), Pins(false, was)] + Presented(bits[..|bits| - 1])
          + [Pins(true, bits[|bits| - 1]), Pins(true, bits[|bits| - 1]), Pins(!idle, bits[|bits| - 1])]
  {
  }

  class JtagLink {
    // levels driven on the GPIO outputs
    var tck: bool
    var tms: bool
    var tdi: bool
    // emulator
    var tckOld: bool
    var emul: Emul
    const buf: array<word>
    // environment: what the target has been clocked with, and the TDO level by clock
    var log: seq<Pins>
    const tdo: nat -> bool
    // no PAUSE or EXIT2 state has been entered so far
    ghost var clean: bool

    ghost function View(): Tap
      reads this, buf
    {
      Tap(emul, buf[..])
    }

    // Between driver operations TCK is low and the emulator knows it.
    ghost predicate Ready()
      reads this
    {
      !tck && !tckOld && clean
    }

    // jtag_emul_setup; the pins may be at any level.
    constructor (buf: array<word>, tdo: nat -> bool, tck: bool)
      ensures this.buf == buf && this.tdo == tdo && this.tck == tck
      ensures tckOld && emul.state.Idle? && Quiet(Port(View())) && buf[..] == old(buf[..])
      ensures clean
    {
      this.buf := buf;
      this.tdo := tdo;
      this.tck := tck;
      tms, tdi, tckOld, log := false, false, true, [];
      emul := Emul(Idle, BR, PerReg(0, 0, 0), PerReg(0, 0, 0), PerReg(0, 0, 0), false, 0, false, 0);
      clean := true;
    }

    method OnUpdateReg()
      modifies this`emul, buf
      ensures View() == UpdateReg(old(View()))
    {
      match emul.selected {
        case DR =>
          emul := emul.(shiftBits := emul.shiftBits.(dr := Clamp(emul.shiftBits.dr)));
          emul := emul.(holdReg := emul.holdReg.(dr := Held(emul.shiftReg.dr, emul.shiftBits.dr)));
          var v := emul.holdReg.dr;
          if v == ARC_AXI_ADDR_TDR + 1 {
            emul := emul.(haveAddr := true);
          } else if emul.haveAddr {
            emul := emul.(haveAddr := false, addr := v);
          } else if v == ARC_AXI_DATA_TDR + 1 {
            emul := emul.(haveData := true);
          } else if emul.haveData {
            emul := emul.(haveData := false, data := v);
            var i := emul.addr / 4;
            if i < buf.Length {
              buf[i] := emul.data;
            }
          }
        case IR =>
          var n := if emul.shiftBits.ir + 1 <= REG_BITS then emul.shiftBits.ir + 1 else REG_BITS;
          emul := emul.(holdReg := emul.holdReg.(ir := Held(emul.shiftReg.ir, n)));
        case BR =>
      }
    }

    method OnTckFalling()
      modifies this`emul, buf
      ensures View() == FallingEdge(old(View()), tms, tdi)
    {
      var r := emul.selected;
      match emul.state {
        case ScanDr => emul := emul.(selected := DR);
        case ScanIr => emul := emul.(selected := IR);
        case CaptureDr => emul := emul.(shiftBits := emul.shiftBits.Put(r, 0));
        case CaptureIr => emul := emul.(shiftBits := emul.shiftBits.Put(r, 0));
        case ShiftDr => if !tms { emul := ShiftSelected(Tap(emul, []), tdi).emul; }
        case ShiftIr => if !tms { emul := ShiftSelected(Tap(emul, []), tdi).emul; }
        case UpdateDr => OnUpdateReg();
        case UpdateIr => OnUpdateReg();
        case _ =>
      }
    }

    // gpio_emul_callback, run when the TCK level changes.
    method GpioEmulCallback()
      modifies this`emul, this`tckOld, this`clean, this`log, buf
      ensures tckOld == tck
      ensures View() == if old(tckOld) && !tck then Clock(old(View()), tms, tdi) else old(View())
      ensures clean == (old(clean) && (old(tckOld) && !tck ==> !Paused(emul.state)))
      ensures log == if old(tckOld) && !tck then old(log) + [Pins(tms, tdi)] else old(log)
    {
      if tck != tckOld {
        tckOld := tck;
        if !tck {
          log := log + [Pins(tms, tdi)];
          var s := emul.state;
          OnTckFalling();
          emul := emul.(state := NextState(tms, s));
          clean := clean && !Paused(emul.state);
        }
      }
    }

    // After setup the emulator remembers TCK as high whatever the pin is.
    method SetTck(level: bool)
      requires tck ==> tckOld
      modifies this`tck, this`emul, this`tckOld, this`clean, this`log, buf
      ensures tck == level && (tck ==> tckOld)
      ensures old(tck) != level ==> tckOld == level
      ensures old(tck) == level ==> tckOld == old(tckOld)
      ensures View() == if old(tck) && !level then Clock(old(View()), tms, tdi) else old(View())
      ensures clean == (old(clean) && (old(tck) && !level ==> !Paused(emul.state)))
      ensures log == if old(tck) && !level then old(log) + [Pins(tms, tdi)] else old(log)
    {
      if tck != level {
        tck := level;
        GpioEmulCallback();
      }
    }

    method Pulse()
      requires tck ==> tckOld
      modifies this`tck, this`emul, this`tckOld, this`clean, this`log, buf
      ensures tck && tckOld
      ensures View() == if old(tck) then Clock(old(View()), tms, tdi) else old(View())
      ensures clean == (old(clean) && (old(tck) ==> !Paused(emul.state)))
      ensures log == if old(tck) then old(log) + [Pins(tms, tdi)] else old(log)
    {
      SetTck(false);
      SetTck(true);
    }

    method Pulses(count: nat) returns (ghost n: nat)
      requires tck ==> tckOld
      modifies this`tck, this`emul, this`tckOld, this`clean, this`log, buf
      ensures tck == if count == 0 then old(tck) else true
      ensures tckOld == if count == 0 then old(tckOld) else true
      ensures n == if count == 0 then 0 else if old(tck) then count else count - 1
      ensures View() == Clocks(old(View()), n, tms, tdi)
      ensures clean == (old(clean) && AvoidsPause(old(View()), n, tms, tdi))
      ensures log == old(log) + Run(n, Pins(tms, tdi))
    {
      ghost var t := View();
      n := 0;
      var i := 0;
      while i < count
        invariant 0 <= i <= count
        invariant tck == if i == 0 then old(tck) else true
        invariant tckOld == if i == 0 then old(tckOld) else true
        invariant n == if i == 0 then 0 else if old(tck) then i else i - 1
        invariant View() == Clocks(t, n, tms, tdi)
        invariant clean == (old(clean) && AvoidsPause(t, n, tms, tdi))
        invariant log == old(log) + Run(n, Pins(tms, tdi))
      {
        ClocksOnce(t, n, tms, tdi);
        RunMore(n, Pins(tms, tdi));
        n := if tck then n + 1 else n;
        Pulse();
        i := i + 1;
      }
    }

    // jtag_bitbang_tick: count clocks, plus one if TCK was left high.
    method Tick(count: nat)
      requires tck ==> tckOld
      modifies this`tck, this`emul, this`tckOld, this`clean, this`log, buf
      ensures !tck && (count > 0 ==> !tckOld)
      ensures View() == Clocks(old(View()), if old(tck) then count + 1 else count, tms, tdi)
      ensures clean == (old(clean) && AvoidsPause(old(View()), if old(tck) then count + 1 else count, tms, tdi))
      ensures log == old(log) + Run(if old(tck) then count + 1 else count, Pins(tms, tdi))
    {
      ghost var t := View();
      ghost var total := if tck then count + 1 else count;
      ghost var n := Pulses(count);
      assert total == if tck then n + 1 else n;
      ClocksOnce(t, n, tms, tdi);
      RunMore(n, Pins(tms, tdi));
      SetTck(false);
      assert View() == Clocks(t, total, tms, tdi);
    }

    // One tick with TCK low is one clock.
    method TickOnce()
      requires Ready() && !Paused(NextState(tms, emul.state))
      modifies this`tck, this`emul, this`tckOld, this`clean, this`log, buf
      ensures Ready()
      ensures View() == Clock(old(View()), tms, tdi)
      ensures log == old(log) + [Pins(tms, tdi)]
    {
      ghost var t := View();
      Tick(1);
      assert Clocks(t, 0, tms, tdi) == t;
      assert AvoidsPause(t, 0, tms, tdi);
    }

    /** jtag_bitbang_reset: the controller ends in IDLE from every state outside PAUSE and
        EXIT2, and from EXIT2 only with the extra clock of a TCK left high; from IDLE the
        AXI latch does not change. Five clocks go out with TMS high, six after a TCK left
        high, and one with TMS low. */
    method Reset()
      requires tck ==> tckOld
      modifies this, buf
      ensures !tck && !tckOld
      ensures log == old(log) + Run(if old(tck) then 6 else 5, Pins(true, false)) + [Pins(false, false)]
      ensures emul.state.Idle? <==> (
                || !Paused(old(emul.state))
                || (old(tck) && (old(emul.state).Exit2Dr? || old(emul.state).Exit2Ir?)))
      ensures old(clean) && !Paused(old(emul.state)) ==> Ready()
      ensures old(emul.state).Idle? ==> Port(View()) == old(Port(View()))
    {
      tdi := false;
      tms := true;
      ghost var t := View();
      ghost var n := if tck then 6 else 5;
      Tick(5);
      HighClocksState(t, n, tdi);
      HighClocksFrom(t.emul.state);
      if !Paused(t.emul.state) {
        HighClocksStayClean(t, n, tdi);
      }
      if t.emul.state.Idle? {
        HighClocksFromIdle(t, n, tdi);
      }
      tms := false;
      ghost var u := View();
      Tick(1);
      ClocksOnce(u, 0, tms, tdi);
    }

    // Steps shared by the scans below; t is the port before the scan and
    // bits what has been shifted so far.
    method EnterIr()
      requires Ready() && emul.state.Idle?
      modifies this`tck, this`emul, this`tckOld, this`clean, this`log, this`tms, buf
      ensures Ready() && !tms && View() == IrCaptured(old(View()))
      ensures log == old(log) + [Pins(true, tdi), Pins(true, tdi), Pins(false, tdi)]
    {
      tms := true;
      TickOnce();
      TickOnce();
      tms := false;
      TickOnce();
    }

    method ExitIr(ghost t: Tap, ghost bits: seq<bool>)
      requires Ready() && tms && |bits| >= 2 && View() == IrShifted(t, bits[1..|bits| - 1])
      modifies this`tck, this`emul, this`tckOld, this`clean, this`log, buf
      ensures Ready() && View() == IrScan(t, bits) && log == old(log) + Run(3, Pins(true, tdi))
    {
      TickOnce();
      TickOnce();
      TickOnce();
    }

    // One round of the shift loop of jtag_bitbang_update_ir, on the bit in place k.
    method ShiftIrRound(d: nat, ghost t: Tap, ghost bits: seq<bool>, ghost k: nat)
      requires k < |bits| - 1 < 256 && bits[k] == (d % 2 == 1)
      requires Ready() && !tms && View() == IrFed(t, bits, k)
      modifies this, buf
      ensures Ready() && !tms && View() == IrFed(t, bits, k + 1)
      ensures log == old(log) + [Pins(false, bits[k])]
    {
      tdi := d % 2 == 1;
      TickOnce();
      if k == 0 {
        assert bits[1..1] == [];
      } else {
        ShiftIrClock(t, bits[1..k], tdi);
        assert bits[1..k] + [bits[k]] == bits[1..k + 1];
      }
    }

    // The shift loop of jtag_bitbang_update_ir, up to the bit before the last.
    method ShiftIrBits(count: nat, data: nat, ghost t: Tap) returns (d: nat)
      requires Ready() && !tms && 1 <= count <= 256 && View() == IrCaptured(t)
      modifies this, buf
      ensures Ready() && d == Shr(data, count - 1)
      ensures View() == IrFed(t, ToBits(count, data), count - 1)
      ensures log == old(log) + Presented(ToBits(count, data)[..count - 1])
    {
      ghost var bits := ToBits(count, data);
      var n := count;
      d := data;
      while n > 1
        invariant 1 <= n <= count && Ready() && !tms
        invariant d == Shr(data, count - n)
        invariant View() == IrFed(t, bits, count - n)
        invariant log == old(log) + Presented(bits[..count - n])
      {
        ghost var k := count - n;
        BitAt(count, data, k);
        ShrStep(data, k);
        PresentedMore(bits, k);
        ShiftIrRound(d, t, bits, k);
        n, d := n - 1, d / 2;
      }
    }

    /** jtag_bitbang_update_ir: the instruction goes out low bit first, one bit a clock. */
    method UpdateIr(count: nat, data: nat)
      requires Ready() && emul.state.Idle? && 2 <= count <= 256
      modifies this, buf
      ensures Ready()
      ensures View() == IrScan(old(View()), ToBits(count, data))
      ensures log == old(log) + IrClocks(old(tdi), ToBits(count, data)) && tdi == ToBits(count, data)[count - 1]
    {
      ghost var t := View();
      ghost var bits := ToBits(count, data);
      EnterIr();
      var d := ShiftIrBits(count, data, t);
      tms := true;
      tdi := d % 2 == 1;
      BitAt(count, data, count - 1);
      ExitIr(t, bits);
      IrClocksParts(old(log), old(tdi), bits);
    }

    method EnterDr()
      requires Ready() && !tms && emul.state.ScanDr?
      modifies this`tck, this`emul, this`tckOld, this`clean, this`log, buf
      ensures Ready() && View() == DrShifted(old(View()), []) && log == old(log) + [Pins(false, tdi), Pins(false, tdi)]
    {
      TickOnce();
      TickOnce();
    }

    method ShiftDrBit(ghost t: Tap, ghost bits: seq<bool>)
      requires Ready() && !tms && |bits| < 255 && View() == DrShifted(t, bits)
      modifies this`tck, this`emul, this`tckOld, this`clean, this`log, buf
      ensures Ready() && View() == DrShifted(t, bits + [tdi]) && log == old(log) + [Pins(false, tdi)]
    {
      TickOnce();
      ShiftDrClock(t, bits, tdi);
    }

    // From SHIFT to UPDATE.
    method TickTwice()
      requires Ready() && tms && emul.state.ShiftDr?
      modifies this`tck, this`emul, this`tckOld, this`clean, this`log, buf
      ensures Ready() && View() == Clock(Clock(old(View()), true, tdi), true, tdi)
      ensures log == old(log) + [Pins(true, tdi), Pins(true, tdi)]
    {
      TickOnce();
      TickOnce();
    }

    method ExitDr(idle: bool, ghost t: Tap, ghost bits: seq<bool>)
      requires Ready() && tms && bits != [] && View() == DrShifted(t, bits[..|bits| - 1])
      modifies this`tck, this`emul, this`tckOld, this`clean, this`log, this`tms, buf
      ensures Ready() && View() == DrScan(t, bits, idle)
      ensures log == old(log) + [Pins(true, tdi), Pins(true, tdi), Pins(!idle, tdi)]
    {
      DrScanEnds(t, bits, idle, tdi);
      TickTwice();
      if idle {
        tms := false;
      }
      TickOnce();
    }

    method GetTdo() returns (level: bool)
      ensures level == tdo(|log|)
    {
      level := tdo(|log|);
    }

    // One sampled bit: the accumulator takes TDO and moves up one place.
    method SampleAndShift(acc: nat, capture: bool, ghost first: nat, ghost k: nat) returns (r: nat)
      requires k < 63 && |log| == first + k
      requires acc == if capture then 2 * FromBits(Reverse(Samples(tdo, first, k))) else 0
      ensures r == if capture then 2 * FromBits(Reverse(Samples(tdo, first, k + 1))) else 0
    {
      r := acc;
      if capture {
        var level := GetTdo();
        r := r + if level then 1 else 0;
        Accumulate(first, k, level, r);
        r := r * 2 % TWO64;
      }
    }

    method SampleLast(acc: nat, capture: bool, ghost first: nat, ghost k: nat) returns (r: nat)
      requires |log| == first + k
      requires acc == if capture then 2 * FromBits(Reverse(Samples(tdo, first, k))) else 0
      ensures r == if capture then FromBits(Reverse(Samples(tdo, first, k + 1))) else 0
    {
      r := acc;
      if capture {
        var level := GetTdo();
        r := r + if level then 1 else 0;
        AppendSample(Samples(tdo, first, k), level);
        assert Samples(tdo, first, k) + [level] == Samples(tdo, first, k + 1);
      }
    }

    // One round of the shift loop of jtag_bitbang_xfer_dr, on the bit in place k.
    method ShiftDrRound(d: nat, acc: nat, capture: bool, ghost t: Tap, ghost bits: seq<bool>, ghost first: nat,
            ghost k: nat)
      returns (r: nat)
      requires k < |bits| - 1 < 64 && bits[k] == (d % 2 == 1)
      requires Ready() && !tms && View() == DrShifted(t, bits[..k])
      requires |log| == first + k
      requires acc == if capture then 2 * FromBits(Reverse(Samples(tdo, first, k))) else 0
      modifies this, buf
      ensures Ready() && !tms && View() == DrShifted(t, bits[..k + 1])
      ensures log == old(log) + [Pins(false, bits[k])]
      ensures r == if capture then 2 * FromBits(Reverse(Samples(tdo, first, k + 1))) else 0
    {
      tdi := d % 2 == 1;
      r := SampleAndShift(acc, capture, first, k);
      ShiftDrBit(t, bits[..k]);
      assert bits[..k] + [bits[k]] == bits[..k + 1];
    }

    // The shift loop of jtag_bitbang_xfer_dr, up to the bit before the last.
    method ShiftDrBits(count: nat, dataIn: nat, capture: bool, ghost t: Tap) returns (d: nat, dataOut: nat)
      requires 1 <= count <= 64 && Ready() && !tms && View() == DrShifted(t, [])
      modifies this, buf
      ensures Ready() && d == Shr(dataIn, count - 1)
      ensures View() == DrShifted(t, ToBits(count, dataIn)[..count - 1])
      ensures log == old(log) + Presented(ToBits(count, dataIn)[..count - 1])
      ensures dataOut == if capture then 2 * FromBits(Reverse(Samples(tdo, |old(log)|, count - 1))) else 0
    {
      ghost var bits := ToBits(count, dataIn);
      ghost var first := |log|;
      dataOut := 0;
      assert bits[..0] == [];
      assert Reverse(Samples(tdo, first, 0)) == [];
      ghost var k := 0;
      var n := count;
      d := dataIn;
      while n > 1
        invariant 1 <= n <= count && k == count - n && Ready() && !tms
        invariant d == Shr(dataIn, k)
        invariant View() == DrShifted(t, bits[..k])
        invariant log == old(log) + Presented(bits[..k])
        invariant dataOut == if capture then 2 * FromBits(Reverse(Samples(tdo, first, k))) else 0
      {
        BitAt(count, dataIn, k);
        ShrStep(dataIn, k);
        PresentedMore(bits, k);
        dataOut := ShiftDrRound(d, dataOut, capture, t, bits, first, k);
        k := k + 1;
        n, d := n - 1, d / 2;
      }
    }

    // The part of jtag_bitbang_xfer_dr between entering SHIFT and the realignment.
    method ScanBits(count: nat, dataIn: nat, idle: bool, capture: bool, ghost t: Tap) returns (dataOut: nat)
      requires 1 <= count <= 64 && Ready() && !tms && View() == DrShifted(t, [])
      modifies this, buf
      ensures Ready() && View() == DrScan(t, ToBits(count, dataIn), idle) && tdi == ToBits(count, dataIn)[count - 1]
      ensures log == old(log) + Presented(ToBits(count, dataIn)[..count - 1])
                     + [Pins(true, tdi), Pins(true, tdi), Pins(!idle, tdi)]
      ensures dataOut == if capture then FromBits(Reverse(Samples(tdo, |old(log)|, count))) else 0
    {
      var d;
      d, dataOut := ShiftDrBits(count, dataIn, capture, t);
      tms := true;
      tdi := d % 2 == 1;
      BitAt(count, dataIn, count - 1);
      dataOut := SampleLast(dataOut, capture, |old(log)|, count - 1);
      ExitDr(idle, t, ToBits(count, dataIn));
    }

    /** jtag_bitbang_xfer_dr: scans the low `count` bits of `dataIn` and, when
        capturing, returns the word whose bit i is TDO as it was just before bit i
        was clocked in. */
    method XferDr(count: nat, dataIn: nat, idle: bool, capture: bool) returns (r: nat)
      requires Ready() && count <= 64 && (count > 0 ==> emul.state.ScanDr?)
      modifies this, buf
      ensures Ready()
      ensures count == 0 ==> r == 0 && View() == old(View())
      ensures count > 0 ==> View() == DrScan(old(View()), ToBits(count, dataIn), idle)
      ensures r == if capture then FromBits(Samples(tdo, |old(log)| + 2, count)) else 0
      ensures count == 0 ==> log == old(log) && tdi == old(tdi)
      ensures count > 0 ==> (
        && log == old(log) + DrClocks(old(tdi), ToBits(count, dataIn), idle)
        && tdi == ToBits(count, dataIn)[count - 1])
    {
      if count == 0 {
        return 0;
      }
      ghost var t := View();
      tms := false;
      EnterDr();
      var dataOut := ScanBits(count, dataIn, idle, capture, t);
      DrClocksParts(old(log), old(tdi), ToBits(count, dataIn), idle);
      if capture {
        dataOut := Realign(dataOut, count, Samples(tdo, |old(log)| + 2, count));
      }
      r := dataOut;
    }

    // The accumulator never reaches 64 bits before the last sample.
    lemma Accumulate(first: nat, k: nat, level: bool, acc: nat)
      requires k < 63 && level == tdo(first + k)
      requires acc == 2 * FromBits(Reverse(Samples(tdo, first, k))) + (if level then 1 else 0)
      ensures acc == FromBits(Reverse(Samples(tdo, first, k + 1)))
      ensures 2 * acc % TWO64 == 2 * acc
    {
      AppendSample(Samples(tdo, first, k), level);
      assert Samples(tdo, first, k) + [level] == Samples(tdo, first, k + 1);
      FromBitsBound(Reverse(Samples(tdo, first, k + 1)));
      Pow2Monotone(k + 1, 63);
      assert Pow2(64) == 2 * Pow2(63);
      Pow2Values();
      SmallMod(2 * acc, TWO64);
    }
  }
}
