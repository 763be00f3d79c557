/**
 The test access port emulator of drivers/jtag/jtag_emul.c as a function of
 its clocked inputs: the 16-state controller of clause 6.1 of IEEE 1149.1, the
 shift and hold registers, and the AXI address/data latch behind them.
 */
module JtagTap {
  import opened Bits
  import opened BitReverse

  type word = x: nat | x < TWO32

  const ARC_AXI_ADDR_TDR: nat := 2
  const ARC_AXI_DATA_TDR: nat := 3
  const ARC_AXI_CONTROL_STATUS_TDR: nat := 4
  const REG_BITS: nat := 32

  datatype State =
    | JtagReset | Idle
    | ScanDr | ScanIr | CaptureDr | CaptureIr | ShiftDr | ShiftIr
    | Exit1Dr | Exit1Ir | PauseDr | PauseIr | Exit2Dr | Exit2Ir
    | UpdateDr | UpdateIr

  // The next_state table, row selected by TMS.
  function NextState(tms: bool, s: State): State {
    if !tms then
      match s
      case JtagReset => Idle
      case Idle => Idle
      case ScanDr => CaptureDr
      case ScanIr => CaptureIr
      case CaptureDr => ShiftDr
      case CaptureIr => ShiftIr
      case ShiftDr => ShiftDr
      case ShiftIr => ShiftIr
      case Exit1Dr => PauseDr
      case Exit1Ir => PauseIr
      case PauseDr => PauseDr
      case PauseIr => PauseIr
      case Exit2Dr => ShiftDr
      case Exit2Ir => ShiftIr
      case UpdateDr => Idle
      case UpdateIr => Idle
    else
      match s
      case JtagReset => JtagReset
      case Idle => ScanDr
      case ScanDr => ScanIr
      case ScanIr => JtagReset
      case CaptureDr => Exit1Dr
      case CaptureIr => Exit1Ir
      case ShiftDr => Exit1Dr
      case ShiftIr => Exit1Ir
      case Exit1Dr => UpdateDr
      case Exit1Ir => UpdateIr
      case PauseDr => Exit2Dr
      case PauseIr => Exit2Ir
      case Exit2Dr => ShiftDr
      case Exit2Ir => ShiftIr
      case UpdateDr => ScanDr
      case UpdateIr => ScanDr
  }

  predicate Paused(s: State) {
    s.PauseDr? || s.PauseIr? || s.Exit2Dr? || s.Exit2Ir?
  }

  function HighClocks(n: nat, s: State): State {
    if n == 0 then s else HighClocks(n - 1, NextState(true, s))
  }

  // The controller of IEEE 1149.1, state by state.
  function StandardNext(tms: bool, s: State): State {
    match s
    case JtagReset => if tms then JtagReset else Idle
    case Idle => if tms then ScanDr else Idle
    case ScanDr => if tms then ScanIr else CaptureDr
    case CaptureDr => if tms then Exit1Dr else ShiftDr
    case ShiftDr => if tms then Exit1Dr else ShiftDr
    case Exit1Dr => if tms then UpdateDr else PauseDr
    case PauseDr => if tms then Exit2Dr else PauseDr
    case Exit2Dr => if tms then UpdateDr else ShiftDr
    case UpdateDr => if tms then ScanDr else Idle
    case ScanIr => if tms then JtagReset else CaptureIr
    case CaptureIr => if tms then Exit1Ir else ShiftIr
    case ShiftIr => if tms then Exit1Ir else ShiftIr
    case Exit1Ir => if tms then UpdateIr else PauseIr
    case PauseIr => if tms then Exit2Ir else PauseIr
    case Exit2Ir => if tms then UpdateIr else ShiftIr
    case UpdateIr => if tms then ScanDr else Idle
  }

  /** The emulated controller is that of the standard, except on leaving EXIT2 with TMS high. */
  lemma StandardExact(tms: bool, s: State)
    ensures NextState(tms, s) == StandardNext(tms, s) <==> !(tms && (s.Exit2Dr? || s.Exit2Ir?))
  {
  }

  /** Five clocks with TMS high reach Test-Logic-Reset exactly from the states
      outside PAUSE and EXIT2. IEEE 1149.1 promises it from every state; this
      table sends EXIT2 with TMS high back to SHIFT instead of to UPDATE. */
  lemma FiveHighClocksReset(s: State)
    ensures HighClocks(5, s).JtagReset? <==> !Paused(s)
  {
    var s1 := NextState(true, s);
    var s2 := NextState(true, s1);
    var s3 := NextState(true, s2);
    var s4 := NextState(true, s3);
    var s5 := NextState(true, s4);
    assert HighClocks(1, s4) == s5;
    assert HighClocks(2, s3) == s5;
    assert HighClocks(3, s2) == s5;
    assert HighClocks(4, s1) == s5;
    assert HighClocks(5, s) == s5;
  }

  datatype Reg = BR | IR | DR

  datatype PerReg<T> = PerReg(br: T, ir: T, dr: T) {
    function Get(r: Reg): T {
      match r case BR => br case IR => ir case DR => dr
    }
    function Put(r: Reg, v: T): PerReg<T> {
      match r case BR => this.(br := v) case IR => this.(ir := v) case DR => this.(dr := v)
    }
  }

  // struct jtag_emul_data, without the clock-edge memory and the log counter.
  datatype Emul = Emul(
    state: State,
    selected: Reg,
    shiftReg: PerReg<word>,
    shiftBits: PerReg<nat>,
    holdReg: PerReg<word>,
    haveAddr: bool,
    addr: word,
    haveData: bool,
    data: word)

  datatype Tap = Tap(emul: Emul, buf: seq<word>)

  // The AXI latch: what a value arriving in the data register can change.
  datatype AxiPort = AxiPort(haveAddr: bool, addr: word, haveData: bool, data: word, buf: seq<word>)

  function Port(t: Tap): AxiPort {
    AxiPort(t.emul.haveAddr, t.emul.addr, t.emul.haveData, t.emul.data, t.buf)
  }

  function WithPort(t: Tap, p: AxiPort): Tap {
    Tap(t.emul.(haveAddr := p.haveAddr, addr := p.addr, haveData := p.haveData, data := p.data), p.buf)
  }

  function Store(buf: seq<word>, addr: word, v: word): (b: seq<word>)
    ensures |b| == |buf|
  {
    if addr / 4 < |buf| then buf[addr / 4 := v] else buf
  }

  // The data-register branch of on_update_reg, after the hold register is set.
  function Receive(p: AxiPort, v: word): (q: AxiPort)
    ensures |q.buf| == |p.buf|
  {
    if v == ARC_AXI_ADDR_TDR + 1 then p.(haveAddr := true)
    else if p.haveAddr then p.(haveAddr := false, addr := v)
    else if v == ARC_AXI_DATA_TDR + 1 then p.(haveData := true)
    else if p.haveData then p.(haveData := false, data := v, buf := Store(p.buf, p.addr, v))
    else p
  }

  function Clamp(x: nat): (n: nat)
    ensures 1 <= n <= REG_BITS
  {
    if x < 1 then 1 else if x > REG_BITS then REG_BITS else x
  }

  // The n most recently shifted bits as a word, oldest in bit 0.
  function Held(r: word, n: nat): word
    requires n <= REG_BITS
  {
    Bitrev32Reverses(r);
    ShrBound(Bitrev32(r), REG_BITS - n, n);
    Pow2Monotone(n, 32);
    Pow2Values();
    Shr(Bitrev32(r), REG_BITS - n)
  }

  lemma {:induction false} Pow2Monotone(a: nat, b: nat)
    requires a <= b
    ensures Pow2(a) <= Pow2(b)
  {
    if a < b {
      Pow2Monotone(a, b - 1);
    }
  }

  // on_update_reg
  function UpdateReg(t: Tap): (u: Tap)
    ensures |u.buf| == |t.buf|
  {
    match t.emul.selected
    case DR =>
      var n := Clamp(t.emul.shiftBits.dr);
      var v := Held(t.emul.shiftReg.dr, n);
      WithPort(Tap(t.emul.(shiftBits := t.emul.shiftBits.(dr := n), holdReg := t.emul.holdReg.(dr := v)), t.buf),
               Receive(Port(t), v))
    case IR =>
      // shifting by a negative amount is undefined in C; no driver operation gets there
      var n := if t.emul.shiftBits.ir + 1 <= REG_BITS then t.emul.shiftBits.ir + 1 else REG_BITS;
      Tap(t.emul.(holdReg := t.emul.holdReg.(ir := Held(t.emul.shiftReg.ir, n))), t.buf)
    case BR => t
  }

  function ShiftOne(r: nat, tdi: bool): word {
    (2 * r + (if tdi then 1 else 0)) % TWO32
  }

  // on_tck_falling
  function FallingEdge(t: Tap, tms: bool, tdi: bool): (u: Tap)
    ensures |u.buf| == |t.buf|
  {
    var e := t.emul;
    var r := e.selected;
    match e.state
    case ScanDr => t.(emul := e.(selected := DR))
    case ScanIr => t.(emul := e.(selected := IR))
    case CaptureDr => t.(emul := e.(shiftBits := e.shiftBits.Put(r, 0)))
    case CaptureIr => t.(emul := e.(shiftBits := e.shiftBits.Put(r, 0)))
    case ShiftDr => if tms then t else ShiftSelected(t, tdi)
    case ShiftIr => if tms then t else ShiftSelected(t, tdi)
    case UpdateDr => UpdateReg(t)
    case UpdateIr => UpdateReg(t)
    case _ => t
  }

  function ShiftSelected(t: Tap, tdi: bool): Tap {
    var e := t.emul;
    var r := e.selected;
    t.(emul := e.(shiftReg := e.shiftReg.Put(r, ShiftOne(e.shiftReg.Get(r), tdi)),
                  shiftBits := e.shiftBits.Put(r, (e.shiftBits.Get(r) + 1) % 256)))
  }

  // One falling TCK edge: act on the old state, then move.
  function Clock(t: Tap, tms: bool, tdi: bool): (u: Tap)
    ensures |u.buf| == |t.buf|
    ensures u.emul.state == NextState(tms, t.emul.state)
  {
    var u := FallingEdge(t, tms, tdi);
    u.(emul := u.emul.(state := NextState(tms, t.emul.state)))
  }

  // The register after shifting in a sequence of bits, first bit first.
  function ShiftIn(r: word, bits: seq<bool>): word {
    if bits == [] then r
    else ShiftOne(ShiftIn(r, bits[..|bits| - 1]), bits[|bits| - 1])
  }

  lemma ShiftOneBits(k: nat, r: nat, tdi: bool)
    requires 1 <= k <= 32
    ensures ToBits(k, ShiftOne(r, tdi)) == [tdi] + ToBits(k - 1, r)
  {
    var x := 2 * r + (if tdi then 1 else 0);
    Pow2Values();
    ToBitsMod(32, x);
    ToBitsPrefix(k, 32, x);
    ToBitsPrefix(k, 32, x % TWO32);
    assert x / 2 == r;
  }

  // The k newest bits sit in the low end of the register, newest lowest.
  lemma {:induction false} ShiftInBits(r: word, bits: seq<bool>, k: nat)
    requires k <= |bits| && k <= 32
    ensures ToBits(k, ShiftIn(r, bits)) == Reverse(bits[|bits| - k..])
  {
    if k > 0 {
      var n := |bits| - 1;
      ShiftInBits(r, bits[..n], k - 1);
      ShiftOneBits(k, ShiftIn(r, bits[..n]), bits[n]);
      assert bits[|bits| - k..] == bits[..n][n - (k - 1)..] + [bits[n]];
      ReverseConcat(bits[..n][n - (k - 1)..], [bits[n]]);
    }
  }

  lemma ReversedTail(r: nat, y: nat, k: nat)
    requires k <= 32 && Reverses(32, r, y)
    ensures Shr(y, 32 - k) == FromBits(Reverse(ToBits(k, r)))
  {
    ToBitsPrefix(32 - k, 32, y);
    ToBitsPrefix(k, 32, r);
    assert ToBits(k, Shr(y, 32 - k)) == Reverse(ToBits(k, r));
    ShrBound(y, 32 - k, k);
    FromToSmall(k, Shr(y, 32 - k));
  }

  lemma HeldBits(r: word, k: nat)
    requires k <= 32
    ensures Held(r, k) == FromBits(Reverse(ToBits(k, r)))
  {
    Bitrev32Reverses(r);
    ReversedTail(r, Bitrev32(r), k);
  }

  /** The hold register gets back, as a number, the last bits scanned in. */
  lemma HeldAfterShift(r: word, bits: seq<bool>, k: nat)
    requires k <= |bits| && k <= 32
    ensures Held(ShiftIn(r, bits), k) == FromBits(bits[|bits| - k..])
  {
    ShiftInBits(r, bits, k);
    HeldBits(ShiftIn(r, bits), k);
    ReverseReverse(bits[|bits| - k..]);
  }

  // A whole data-register scan from SCAN_DR. The emulator drops the bit that
  // is presented together with the exit edge.
  function DrShifted(t: Tap, bits: seq<bool>): Tap {
    t.(emul := t.emul.(state := ShiftDr, selected := DR,
                       shiftReg := t.emul.shiftReg.(dr := ShiftIn(t.emul.shiftReg.dr, bits)),
                       shiftBits := t.emul.shiftBits.(dr := |bits|)))
  }

  function DrScan(t: Tap, bits: seq<bool>, idle: bool): (u: Tap)
    requires bits != []
    ensures |u.buf| == |t.buf|
  {
    var u := UpdateReg(DrShifted(t, bits[..|bits| - 1]));
    u.(emul := u.emul.(state := if idle then Idle else ScanDr))
  }

  // A whole instruction scan from IDLE to SCAN_DR. The first bit is presented
  // while the controller is still in CAPTURE_IR and is dropped as well.
  function IrCaptured(t: Tap): Tap {
    t.(emul := t.emul.(state := CaptureIr, selected := IR))
  }

  function IrShifted(t: Tap, bits: seq<bool>): Tap {
    t.(emul := t.emul.(state := ShiftIr, selected := IR,
                       shiftReg := t.emul.shiftReg.(ir := ShiftIn(t.emul.shiftReg.ir, bits)),
                       shiftBits := t.emul.shiftBits.(ir := |bits|)))
  }

  function IrScan(t: Tap, bits: seq<bool>): (u: Tap)
    requires |bits| >= 2
    ensures |u.buf| == |t.buf|
  {
    var u := UpdateReg(IrShifted(t, bits[1..|bits| - 1]));
    u.(emul := u.emul.(state := ScanDr))
  }

  /** A data scan hands the AXI latch the number formed by its shifted bits. */
  lemma DrScanDelivers(t: Tap, bits: seq<bool>, idle: bool)
    requires |bits| >= 2
    ensures var s := bits[..|bits| - 1];
      var k := Clamp(|s|);
      && FromBits(s[|s| - k..]) < TWO32
      && Port(DrScan(t, bits, idle)) == Receive(Port(t), FromBits(s[|s| - k..]))
  {
    var s := bits[..|bits| - 1];
    HeldAfterShift(t.emul.shiftReg.dr, s, Clamp(|s|));
  }

  lemma IrScanKeepsPort(t: Tap, bits: seq<bool>)
    requires |bits| >= 2
    ensures Port(IrScan(t, bits)) == Port(t)
  {
  }

  /** The emulated instruction register holds the shifted bits above one stale
      bit, the newest bit left over from the previous instruction scan. */
  lemma IrScanHolds(t: Tap, bits: seq<bool>)
    requires 2 <= |bits| <= 33
    ensures var s := bits[1..|bits| - 1];
      IrScan(t, bits).emul.holdReg.ir == FromBits([t.emul.shiftReg.ir % 2 == 1] + s)
  {
    var s := bits[1..|bits| - 1];
    var stale := t.emul.shiftReg.ir % 2 == 1;
    var r := ShiftIn(t.emul.shiftReg.ir, s);
    StaleBelow(t.emul.shiftReg.ir, s);
    HeldBits(r, |s| + 1);
    ReverseReverse([stale] + s);
  }

  lemma ShiftOneBelow(x: nat, bits: seq<bool>, b: bool)
    requires |bits| < 32 && ToBits(|bits|, x) == Reverse(bits)
    ensures ToBits(|bits| + 1, ShiftOne(x, b)) == Reverse(bits + [b])
  {
    ShiftOneBits(|bits| + 1, x, b);
    ReverseConcat(bits, [b]);
  }

  lemma {:induction false} StaleBelow(r: word, bits: seq<bool>)
    requires |bits| < 32
    ensures ToBits(|bits| + 1, ShiftIn(r, bits)) == Reverse([r % 2 == 1] + bits)
  {
    var n := |bits|;
    if n == 0 {
      assert bits == [];
      assert ToBits(1, r) == [r % 2 == 1];
    } else {
      StaleBelow(r, bits[..n - 1]);
      assert [r % 2 == 1] + bits == ([r % 2 == 1] + bits[..n - 1]) + [bits[n - 1]];
      ShiftOneBelow(ShiftIn(r, bits[..n - 1]), [r % 2 == 1] + bits[..n - 1], bits[n - 1]);
    }
  }
}
