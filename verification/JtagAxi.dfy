/**
 AXI accesses over JTAG: drivers/jtag/jtag_bitbang.c composed with the
 emulated memory of drivers/jtag/jtag_emul.c.
 */
module JtagAxi {
  import opened Bits
  import opened JtagTap
  import opened JtagDriver

  // jtag_setup_access packs the op code and the two bank-select fields.
  function SetupInstruction(rtap: nat): nat {
    2 + rtap % 8 * 0x80 + rtap / 8 % 64 * 0x2_0000
  }

  // The fields of jtag_instr_u, low bit first: op, three reserved or select fields, and
  // the one reserved bit that still goes out in a 24-bit scan.
  function InstructionBits(rtap: nat): (b: seq<bool>)
    ensures |b| == 24
  {
    [false, true, false] + Zeros(4) + ToBits(3, rtap) + Zeros(7) + ToBits(6, rtap / 8) + Zeros(1)
  }

  lemma PrefixedZeros(n: nat, b: seq<bool>)
    ensures FromBits(Zeros(n) + b) == Shl(FromBits(b), n)
  {
    FromBitsConcat(Zeros(n), b);
    FromBitsZeros(n);
  }

  lemma ShlSmall(x: nat)
    ensures Shl(x, 3) == 8 * x && Shl(x, 4) == 16 * x && Shl(x, 7) == 128 * x
  {
    assert Shl(x, 1) == 2 * x;
    assert Shl(x, 2) == 4 * x;
    assert Shl(x, 3) == 8 * x;
    assert Shl(x, 4) == 16 * x;
    assert Shl(x, 5) == 32 * x;
    assert Shl(x, 6) == 64 * x;
  }

  lemma HighFields(rtap: nat)
    ensures FromBits(Zeros(7) + (ToBits(6, rtap / 8) + Zeros(1))) == rtap / 8 % 64 * 0x80
  {
    PaddedSamples(ToBits(6, rtap / 8), 1);
    FromBitsToBits(6, rtap / 8);
    PrefixedZeros(7, ToBits(6, rtap / 8) + Zeros(1));
    Pow2Values();
    ShlSmall(rtap / 8 % 64);
  }

  lemma LowFields(rtap: nat, high: seq<bool>)
    ensures FromBits(Zeros(4) + (ToBits(3, rtap) + high)) == 16 * (rtap % 8) + 128 * FromBits(high)
  {
    FromBitsConcat(ToBits(3, rtap), high);
    FromBitsToBits(3, rtap);
    PrefixedZeros(4, ToBits(3, rtap) + high);
    Pow2Values();
    ShlSmall(FromBits(high));
    ShlSmall(rtap % 8 + 8 * FromBits(high));
  }

  lemma OpField(low: seq<bool>)
    ensures FromBits([false, true, false] + low) == 2 + 8 * FromBits(low)
  {
    FromBitsConcat([false, true, false], low);
    assert FromBits([true, false]) == 1;
    ShlSmall(FromBits(low));
  }

  /** The instruction word is the concatenation of its bit fields: the op code in bits 0 to 2,
      bits 0 to 2 of the RTAP address in bits 7 to 9, its bits 3 to 8 in bits 17 to 22. */
  lemma SetupBits(rtap: nat)
    ensures ToBits(24, SetupInstruction(rtap)) == InstructionBits(rtap)
  {
    var high := Zeros(7) + (ToBits(6, rtap / 8) + Zeros(1));
    var low := Zeros(4) + (ToBits(3, rtap) + high);
    HighFields(rtap);
    LowFields(rtap, high);
    OpField(low);
    assert [false, true, false] + low == InstructionBits(rtap);
    ToBitsFromBits(InstructionBits(rtap));
  }

  // The clocks from `before` on start with the instruction that selects an RTAP.
  ghost predicate Selects(rtap: nat, before: seq<Pins>, was: bool, log: seq<Pins>) {
    before + IrClocks(was, InstructionBits(rtap)) <= log
  }

  lemma SibShift(s: seq<bool>)
    requires |s| == 37
    ensures Shr(FromBits(s), 4) % TWO32 == FromBits(s[4..36])
  {
    var x := FromBits(s);
    ToBitsFromBits(s);
    ToBitsPrefix(4, 37, x);
    ToBitsPrefix(32, 33, Shr(x, 4));
    assert s[4..][..32] == s[4..36];
    FromBitsToBits(32, Shr(x, 4));
    Pow2Values();
  }

  lemma StatusBit(s: seq<bool>, i: nat)
    requires i < |s|
    ensures (Shr(FromBits(s), i) % 2 == 1) == s[i]
  {
    ToBitsFromBits(s);
    BitAt(|s|, FromBits(s), i);
  }

  method ScanSelector(dev: JtagLink, tdr: nat)
    requires dev.Ready() && dev.emul.state.ScanDr? && tdr < 15
    modifies dev, dev.buf
    ensures dev.Ready() && dev.emul.state.ScanDr?
    ensures Port(dev.View()) == Receive(old(Port(dev.View())), tdr + 1)
    ensures old(dev.log) <= dev.log && |dev.log| == |old(dev.log)| + 9
  {
    SelectorScan(dev.View(), tdr + 1);
    var _ := dev.XferDr(5, tdr + 1, false, false);
  }

  method ScanPayload(dev: JtagLink, v: word, idle: bool, capture: bool) returns (r: word)
    requires dev.Ready() && dev.emul.state.ScanDr?
    modifies dev, dev.buf
    ensures dev.Ready() && dev.emul.state == (if idle then Idle else ScanDr)
    ensures Port(dev.View()) == Receive(old(Port(dev.View())), v)
    ensures old(dev.log) <= dev.log && |dev.log| == |old(dev.log)| + 41
    ensures capture ==> r == FromBits(Samples(dev.tdo, |old(dev.log)| + 2, 37)[4..36])
  {
    PayloadScan(dev.View(), v, idle);
    var x := dev.XferDr(37, 16 * v, idle, capture);
    r := Shr(x, 4) % TWO32;
    if capture {
      SibShift(Samples(dev.tdo, |old(dev.log)| + 2, 37));
    }
  }

  // The TDR helpers: select a register, then scan its payload.
  method AccessTdr(dev: JtagLink, tdr: nat, v: word, idle: bool, capture: bool) returns (r: word)
    requires dev.Ready() && dev.emul.state.ScanDr? && tdr < 15
    modifies dev, dev.buf
    ensures dev.Ready() && dev.emul.state == (if idle then Idle else ScanDr)
    ensures Port(dev.View()) == Receive(Receive(old(Port(dev.View())), tdr + 1), v)
    ensures old(dev.log) <= dev.log && |dev.log| == |old(dev.log)| + 50
    ensures capture ==> r == FromBits(Samples(dev.tdo, |old(dev.log)| + 11, 37)[4..36])
  {
    ScanSelector(dev, tdr);
    r := ScanPayload(dev, v, idle, capture);
  }

  /** jtag_setup_access: the fields of the instruction go out on TDI, in their places. */
  method SetupAccess(dev: JtagLink, rtap: nat)
    requires dev.Ready() && dev.emul.state.Idle?
    modifies dev, dev.buf
    ensures dev.Ready() && dev.emul.state.ScanDr?
    ensures Port(dev.View()) == old(Port(dev.View()))
    ensures !dev.tdi && dev.log == old(dev.log) + IrClocks(old(dev.tdi), InstructionBits(rtap))
  {
    ghost var t := dev.View();
    SetupBits(rtap);
    dev.UpdateIr(24, SetupInstruction(rtap));
    IrScanKeepsPort(t, ToBits(24, SetupInstruction(rtap)));
  }

  lemma BitsOf(b: seq<bool>, n: nat, x: nat)
    requires |b| == n && FromBits(b) == x
    ensures ToBits(n, x) == b
  {
    ToBitsFromBits(b);
  }

  lemma SixBits(m: nat)
    ensures FromBits([false, true, true] + Zeros(m)) == 6
  {
    FromBitsConcat([false, true, true], Zeros(m));
    FromBitsZeros(m);
    ShlZero(3);
    assert FromBits([true]) == 1;
    assert FromBits([true, true]) == 3;
  }

  // The bits of the identification instruction, and of the zeros scanned through.
  lemma IdBits(m: nat)
    ensures ToBits(m + 3, 6) == [false, true, true] + Zeros(m)
  {
    SixBits(m);
    BitsOf([false, true, true] + Zeros(m), m + 3, 6);
  }

  lemma ZeroBits(n: nat)
    ensures ToBits(n, 0) == Zeros(n)
  {
    FromBitsZeros(n);
    BitsOf(Zeros(n), n, 0);
  }

  /** jtag_bitbang_read_id: IDLE to IDLE, presenting the instruction 6 and 32 zeros, and
      returning TDO as it was before each of the 32 bits. */
  method ReadId(dev: JtagLink) returns (id: nat)
    requires dev.Ready() && dev.emul.state.Idle?
    modifies dev, dev.buf
    ensures dev.Ready() && dev.emul.state.Idle?
    ensures dev.log
         == old(dev.log) + IrClocks(old(dev.tdi), [false, true, true] + Zeros(21)) + DrClocks(false, Zeros(32), true)
    ensures id == FromBits(Samples(dev.tdo, |old(dev.log)| + 31, 32))
  {
    IdBits(21);
    ZeroBits(32);
    dev.UpdateIr(24, 6);
    id := dev.XferDr(32, 0, true, true);
  }

  // jtag_req_clear
  method ReqClear(dev: JtagLink)
    requires dev.Ready() && dev.emul.state.Idle?
    modifies dev, dev.buf
    ensures dev.Ready() && dev.emul.state.Idle?
    ensures Port(dev.View()) == Receive(Receive(old(Port(dev.View())), 3), 0)
    ensures Selects(TENSIX_SM_RTAP, old(dev.log), old(dev.tdi), dev.log) && |dev.log| == |old(dev.log)| + 79
  {
    SetupAccess(dev, TENSIX_SM_RTAP);
    var _ := AccessTdr(dev, 2, 0, true, false);
  }

  // The values one register write after another hands to the latch.
  function WritePort(p: AxiPort, addr: word, v: word): AxiPort {
    Receive(Receive(Receive(Receive(Receive(Receive(Receive(Receive(
      p, 3), addr), 4), v), 5), AXI_CNTL_WRITE), 5), 0)
  }

  /** Through a quiet latch a driver write leaves the latch quiet and changes the
      memory as EmulWrite says, for every address and word. */
  lemma WriteEffect(p: AxiPort, addr: word, v: word)
    requires Quiet(p)
    ensures Quiet(WritePort(p, addr, v))
    ensures WritePort(p, addr, v).buf == EmulWrite(p.buf, addr, v)
  {
    var q := Receive(Receive(Receive(p, 3), addr), 4);
    assert q == if addr == 3 then p.(addr := 4) else p.(addr := addr, haveData := true);
  }

  // A write that starts after `from` clocks fails: TDO was high at bit 16 of the status
  // word, which comes 4 bits into a scan that starts 190 clocks into the write.
  ghost predicate Refused(tdo: nat -> bool, from: nat) {
    tdo(from + 190 + 4 + 16)
  }

  // The register accesses of jtag_axiwrite.
  method WriteScans(dev: JtagLink, addr: word, value: word) returns (status: word)
    requires dev.Ready() && dev.emul.state.ScanDr?
    modifies dev, dev.buf
    ensures dev.Ready() && dev.emul.state.Idle?
    ensures Port(dev.View()) == WritePort(old(Port(dev.View())), addr, value)
    ensures old(dev.log) <= dev.log && |dev.log| == |old(dev.log)| + 200
    ensures status == FromBits(Samples(dev.tdo, |old(dev.log)| + 161, 37)[4..36])
  {
    var _ := AccessTdr(dev, ARC_AXI_ADDR_TDR, addr, false, false);
    var _ := AccessTdr(dev, ARC_AXI_DATA_TDR, value, false, false);
    var _ := AccessTdr(dev, ARC_AXI_CONTROL_STATUS_TDR, AXI_CNTL_WRITE, false, false);
    status := AccessTdr(dev, ARC_AXI_CONTROL_STATUS_TDR, 0, true, true);
  }

  method AxiWrite(dev: JtagLink, addr: word, value: word) returns (rc: int)
    requires dev.Ready() && dev.emul.state.Idle?
    modifies dev, dev.buf
    ensures dev.Ready() && dev.emul.state.Idle?
    ensures Port(dev.View()) == WritePort(old(Port(dev.View())), addr, value)
    ensures old(Quiet(Port(dev.View())))
      ==> Quiet(Port(dev.View())) && dev.buf[..] == EmulWrite(old(dev.buf[..]), addr, value)
    ensures Selects(TENSIX_SM_RTAP, old(dev.log), old(dev.tdi), dev.log) && |dev.log| == |old(dev.log)| + 229
    ensures rc == if Refused(dev.tdo, |old(dev.log)|) then -1 else 0
  {
    ghost var p := Port(dev.View());
    SetupAccess(dev, TENSIX_SM_RTAP);
    var status := WriteScans(dev, addr, value);
    if Quiet(p) {
      WriteEffect(p, addr, value);
    }
    ghost var s := Samples(dev.tdo, |old(dev.log)| + 190, 37);
    StatusBit(s[4..36], 16);
    rc := if Shr(status, 16) % 2 != 1 then 0 else -1;
  }

  // The driver loop as a function of the emulated memory.
  function WriteWords(buf: seq<word>, addr: word, vs: seq<word>): (b: seq<word>)
    ensures |b| == |buf|
    decreases |vs|
  {
    if vs == [] then buf
    else EmulWrite(WriteWords(buf, addr, vs[..|vs| - 1]), (addr + 4 * (|vs| - 1)) % TWO32, vs[|vs| - 1])
  }

  // A buffer with a run of its words replaced.
  function Overlay(buf: seq<word>, i: nat, vs: seq<word>): (b: seq<word>)
    requires i + |vs| <= |buf|
    ensures |b| == |buf|
  {
    buf[..i] + vs + buf[i + |vs|..]
  }

  predicate NoSelector(vs: seq<word>) {
    forall i :: 0 <= i < |vs| ==> vs[i] != 3 && vs[i] != 4
  }

  /** With no word equal to a selector, a block write off address 3 is exactly an overlay. */
  lemma {:induction false} BlockWriteOverlays(buf: seq<word>, addr: word, vs: seq<word>)
    requires addr != 3 && addr / 4 + |vs| <= |buf| <= 0x4000_0000
    requires NoSelector(vs)
    ensures WriteWords(buf, addr, vs) == Overlay(buf, addr / 4, vs)
    decreases |vs|
  {
    if vs != [] {
      var n := |vs| - 1;
      BlockWriteOverlays(buf, addr, vs[..n]);
      SmallMod(addr + 4 * n, TWO32);
      assert (addr + 4 * n) / 4 == addr / 4 + n;
      OverlayMore(buf, addr / 4, vs);
    }
  }

  lemma OverlayMore(buf: seq<word>, i: nat, vs: seq<word>)
    requires vs != [] && i + |vs| <= |buf|
    ensures Overlay(buf, i, vs[..|vs| - 1])[i + |vs| - 1 := vs[|vs| - 1]] == Overlay(buf, i, vs)
  {
  }

  // A word equal to a selector is missing from the memory afterwards, when
  // the memory held zeros before.
  lemma {:induction false} SelectorIsLost(buf: seq<word>, addr: word, vs: seq<word>, k: nat)
    requires addr != 3 && addr / 4 + |vs| <= |buf| <= 0x4000_0000
    requires k < |vs| && (vs[k] == 3 || vs[k] == 4)
    requires forall i :: 0 <= i < |buf| ==> buf[i] == 0
    ensures WriteWords(buf, addr, vs)[addr / 4 + k] in {0, 5, AXI_CNTL_WRITE}
    decreases |vs|
  {
    var n := |vs| - 1;
    SmallMod(addr + 4 * n, TWO32);
    assert (addr + 4 * n) / 4 == addr / 4 + n;
    if k < n {
      SelectorIsLost(buf, addr, vs[..n], k);
    } else {
      UnwrittenTail(buf, addr, vs[..n], addr / 4 + k);
    }
  }

  lemma {:induction false} UnwrittenTail(buf: seq<word>, addr: word, vs: seq<word>, j: nat)
    requires addr != 3 && addr / 4 + |vs| <= j < |buf| <= 0x4000_0000
    requires forall i :: 0 <= i < |buf| ==> buf[i] == 0
    ensures WriteWords(buf, addr, vs)[j] in {0, AXI_CNTL_WRITE}
    decreases |vs|
  {
    if vs != [] {
      var n := |vs| - 1;
      UnwrittenTail(buf, addr, vs[..n], j);
      SmallMod(addr + 4 * n, TWO32);
      assert (addr + 4 * n) / 4 == addr / 4 + n;
    }
  }

  lemma SelectorBreaksOverlay(size: nat, addr: word, vs: seq<word>, k: nat) returns (zeros: seq<word>)
    requires addr != 3 && addr / 4 + |vs| <= size <= 0x4000_0000
    requires k < |vs| && (vs[k] == 3 || vs[k] == 4)
    ensures |zeros| == size && WriteWords(zeros, addr, vs) != Overlay(zeros, addr / 4, vs)
  {
    zeros := seq(size, i => 0);
    SelectorIsLost(zeros, addr, vs, k);
    assert Overlay(zeros, addr / 4, vs)[addr / 4 + k] == vs[k];
  }

  // A block write to address 3 never reaches the word that holds address 3.
  lemma {:induction false} FirstWordStays(buf: seq<word>, vs: seq<word>)
    requires 0 < |buf| && |vs| <= |buf| <= 0x4000_0000
    ensures WriteWords(buf, 3, vs)[0] == buf[0]
    decreases |vs|
  {
    if vs != [] {
      var n := |vs| - 1;
      FirstWordStays(buf, vs[..n]);
      SmallMod(3 + 4 * n, TWO32);
    }
  }

  lemma ThreeBreaksOverlay(size: nat, vs: seq<word>) returns (buf: seq<word>)
    requires 0 < |vs| <= size <= 0x4000_0000
    ensures |buf| == size && WriteWords(buf, 3, vs) != Overlay(buf, 0, vs)
  {
    var other: word := if vs[0] == 0 then 1 else 0;
    buf := seq(size, i => other);
    FirstWordStays(buf, vs);
    assert Overlay(buf, 0, vs)[0] == vs[0];
  }

  // A block write as a function of the latch and the memory behind it.
  function WritePorts(p: AxiPort, addr: word, vs: seq<word>): (q: AxiPort)
    decreases |vs|
  {
    if vs == [] then p
    else WritePort(WritePorts(p, addr, vs[..|vs| - 1]), (addr + 4 * (|vs| - 1)) % TWO32, vs[|vs| - 1])
  }

  lemma WritePortsMore(p: AxiPort, addr: word, vs: seq<word>, i: nat)
    requires i < |vs|
    ensures WritePorts(p, addr, vs[..i + 1]) == WritePort(WritePorts(p, addr, vs[..i]), (addr + 4 * i) % TWO32, vs[i])
  {
    assert vs[..i + 1][..i] == vs[..i];
  }

  // The status of each of the first n words shows no failure.
  ghost predicate AllAccepted(tdo: nat -> bool, from: nat, n: nat) {
    forall i :: 0 <= i < n ==> !Refused(tdo, from + 229 * i)
  }

  lemma AcceptedMore(tdo: nat -> bool, from: nat, n: nat)
    ensures AllAccepted(tdo, from, n + 1) <==> AllAccepted(tdo, from, n) && !Refused(tdo, from + 229 * n)
  {
  }

  /** Through a quiet latch a block write changes the memory word by word and leaves the
      latch quiet. */
  lemma {:induction false} BlockWriteEffect(p: AxiPort, addr: word, vs: seq<word>)
    requires Quiet(p)
    ensures Quiet(WritePorts(p, addr, vs)) && WritePorts(p, addr, vs).buf == WriteWords(p.buf, addr, vs)
    decreases |vs|
  {
    if vs != [] {
      var n := |vs| - 1;
      BlockWriteEffect(p, addr, vs[..n]);
      WriteEffect(WritePorts(p, addr, vs[..n]), (addr + 4 * n) % TWO32, vs[n]);
    }
  }

  // What a block write promises: the memory overlaid with the words.
  ghost predicate WritesOverlay(p: AxiPort, buf: seq<word>, addr: word, vs: seq<word>)
    requires addr / 4 + |vs| <= |buf|
  {
    WritePorts(p.(buf := buf), addr, vs).buf == Overlay(buf, addr / 4, vs)
  }

  lemma PortOverlays(p: AxiPort, buf: seq<word>, addr: word, vs: seq<word>)
    requires Quiet(p) && addr / 4 + |vs| <= |buf|
    ensures WritesOverlay(p, buf, addr, vs) <==> WriteWords(buf, addr, vs) == Overlay(buf, addr / 4, vs)
  {
    BlockWriteEffect(p.(buf := buf), addr, vs);
  }

  // A memory that is not overlaid, when the address or a word is taken for a selector.
  lemma NotOverlaid(size: nat, addr: word, vs: seq<word>) returns (buf: seq<word>)
    requires addr / 4 + |vs| <= size <= 0x4000_0000 && vs != [] && (addr == 3 || !NoSelector(vs))
    ensures |buf| == size && WriteWords(buf, addr, vs) != Overlay(buf, addr / 4, vs)
  {
    if addr == 3 {
      buf := ThreeBreaksOverlay(size, vs);
    } else {
      var k :| 0 <= k < |vs| && (vs[k] == 3 || vs[k] == 4);
      buf := SelectorBreaksOverlay(size, addr, vs, k);
    }
  }

  lemma Overlaid(buf: seq<word>, addr: word, vs: seq<word>)
    requires addr / 4 + |vs| <= |buf| <= 0x4000_0000 && (vs == [] || (addr != 3 && NoSelector(vs)))
    ensures WriteWords(buf, addr, vs) == Overlay(buf, addr / 4, vs)
  {
    if vs == [] {
      assert Overlay(buf, addr / 4, vs) == buf;
    } else {
      BlockWriteOverlays(buf, addr, vs);
    }
  }

  /** Through a quiet latch a block write overlays its words on every memory exactly when
      there are none, or the address is not 3 and no word equals a selector value. */
  lemma BlockWriteExact(p: AxiPort, size: nat, addr: word, vs: seq<word>)
    requires Quiet(p) && addr / 4 + |vs| <= size <= 0x4000_0000
    ensures (forall buf: seq<word> :: |buf| == size ==> WritesOverlay(p, buf, addr, vs))
       <==> vs == [] || (addr != 3 && NoSelector(vs))
  {
    if vs == [] || (addr != 3 && NoSelector(vs)) {
      forall buf: seq<word> | |buf| == size ensures WritesOverlay(p, buf, addr, vs) {
        Overlaid(buf, addr, vs);
        PortOverlays(p, buf, addr, vs);
      }
    } else {
      var buf := NotOverlaid(size, addr, vs);
      PortOverlays(p, buf, addr, vs);
    }
  }

  // The result so far of a block write that started after `from` clocks, n words into it.
  ghost predicate ResultAfter(tdo: nat -> bool, from: nat, n: nat, result: int) {
    result == if AllAccepted(tdo, from, n) then 0 else -1
  }

  // One round of the loop below.
  method WriteWord(dev: JtagLink, addr: word, value: word, result: int, ghost from: nat, ghost n: nat)
    returns (r: int)
    requires dev.Ready() && dev.emul.state.Idle?
    requires |dev.log| == from + 229 * n && ResultAfter(dev.tdo, from, n, result)
    modifies dev, dev.buf
    ensures dev.Ready() && dev.emul.state.Idle?
    ensures Port(dev.View()) == WritePort(old(Port(dev.View())), addr, value)
    ensures |dev.log| == from + 229 * (n + 1) && ResultAfter(dev.tdo, from, n + 1, r)
  {
    var one := AxiWrite(dev, addr, value);
    AcceptedMore(dev.tdo, from, n);
    r := if result == 0 then one else -1;
  }

  // The loop of jtag_axi_blockwrite.
  method WriteEach(dev: JtagLink, addr: word, values: seq<word>) returns (result: int)
    requires dev.Ready() && dev.emul.state.Idle?
    modifies dev, dev.buf
    ensures dev.Ready() && dev.emul.state.Idle?
    ensures Port(dev.View()) == WritePorts(old(Port(dev.View())), addr, values)
    ensures |dev.log| == |old(dev.log)| + 229 * |values|
    ensures result == (if AllAccepted(dev.tdo, |old(dev.log)|, |values|) then 0 else -1)
  {
    ghost var before := Port(dev.View());
    ghost var from := |dev.log|;
    result := 0;
    var i := 0;
    while i < |values|
      invariant 0 <= i <= |values|
      invariant dev.Ready() && dev.emul.state.Idle?
      invariant Port(dev.View()) == WritePorts(before, addr, values[..i])
      invariant |dev.log| == from + 229 * i && ResultAfter(dev.tdo, from, i, result)
    {
      WritePortsMore(before, addr, values, i);
      result := WriteWord(dev, (addr + 4 * i) % TWO32, values[i], result, from, i);
      i := i + 1;
    }
    assert values[..i] == values;
  }

  /** jtag_axi_blockwrite: through a quiet latch the words go to the emulated memory in
      order, as an overlay off address 3 where no word is a selector; the controller ends
      in IDLE and the latch stays quiet. */
  method AxiBlockWrite(dev: JtagLink, addr: word, values: seq<word>) returns (rc: int)
    requires dev.Ready() && dev.emul.state.Idle?
    modifies dev, dev.buf
    ensures dev.Ready() && dev.emul.state.Idle?
    ensures Port(dev.View()) == WritePorts(old(Port(dev.View())), addr, values)
    ensures old(Quiet(Port(dev.View())))
      ==> Quiet(Port(dev.View())) && dev.buf[..] == WriteWords(old(dev.buf[..]), addr, values)
    ensures (old(Quiet(Port(dev.View()))) && addr != 3
             && NoSelector(values) && addr / 4 + |values| <= dev.buf.Length <= 0x4000_0000)
      ==> dev.buf[..] == Overlay(old(dev.buf[..]), addr / 4, values)
    ensures rc == (if AllAccepted(dev.tdo, |old(dev.log)|, |values|) then 0 else -1)
  {
    ghost var before := Port(dev.View());
    rc := WriteEach(dev, addr, values);
    BlockWriteMeans(before, addr, values);
  }

  lemma BlockWriteMeans(p: AxiPort, addr: word, vs: seq<word>)
    ensures Quiet(p)
      ==> Quiet(WritePorts(p, addr, vs)) && WritePorts(p, addr, vs).buf == WriteWords(p.buf, addr, vs)
    ensures Quiet(p) && addr != 3 && NoSelector(vs) && addr / 4 + |vs| <= |p.buf| <= 0x4000_0000
      ==> WritePorts(p, addr, vs).buf == Overlay(p.buf, addr / 4, vs)
  {
    if Quiet(p) {
      BlockWriteEffect(p, addr, vs);
    }
    if Quiet(p) && addr != 3 && NoSelector(vs) && addr / 4 + |vs| <= |p.buf| <= 0x4000_0000 {
      BlockWriteOverlays(p.buf, addr, vs);
    }
  }

  // n status polls hand the latch this much.
  function Polled(p: AxiPort, n: nat): (q: AxiPort) {
    if n == 0 then p else Receive(Receive(Polled(p, n - 1), 5), 0)
  }

  lemma {:induction false} PollsKeepQuiet(p: AxiPort, n: nat)
    requires Quiet(p)
    ensures Polled(p, n) == p
  {
    if n > 0 {
      PollsKeepQuiet(p, n - 1);
    }
  }

  // The status word of the i-th poll after `first`.
  ghost function StatusAt(tdo: nat -> bool, from: nat, i: nat): nat {
    FromBits(Samples(tdo, from + 50 * i + 11, 37)[4..36])
  }

  ghost predicate AllBusy(tdo: nat -> bool, from: nat, n: nat) {
    forall i: nat :: i < n ==> StatusAt(tdo, from, i) % 16 == 0
  }

  lemma BusyMore(tdo: nat -> bool, from: nat, n: nat)
    ensures AllBusy(tdo, from, n + 1) <==> AllBusy(tdo, from, n) && StatusAt(tdo, from, n) % 16 == 0
  {
  }

  method PollOnce(dev: JtagLink, ghost from: nat, ghost n: nat) returns (status: word)
    requires dev.Ready() && dev.emul.state.ScanDr? && |dev.log| == from + 50 * n
    modifies dev, dev.buf
    ensures dev.Ready() && dev.emul.state.ScanDr?
    ensures old(dev.log) <= dev.log && |dev.log| == |old(dev.log)| + 50
    ensures Port(dev.View()) == Polled(old(Port(dev.View())), 1)
    ensures status == StatusAt(dev.tdo, from, n)
    ensures AllBusy(dev.tdo, from, n + 1) <==> AllBusy(dev.tdo, from, n) && status % 16 == 0
  {
    BusyMore(dev.tdo, from, n);
    status := AccessTdr(dev, ARC_AXI_CONTROL_STATUS_TDR, 0, false, true);
  }

  // Status polls of jtag_axiread: until a nonzero low nibble, at most 1000.
  method PollStatus(dev: JtagLink) returns (status: word, ghost n: nat)
    requires dev.Ready() && dev.emul.state.ScanDr?
    modifies dev, dev.buf
    ensures dev.Ready() && dev.emul.state.ScanDr?
    ensures old(dev.log) <= dev.log
    ensures 1 <= n <= 1000 && |dev.log| == |old(dev.log)| + 50 * n
    ensures Port(dev.View()) == Polled(old(Port(dev.View())), n)
    ensures AllBusy(dev.tdo, |old(dev.log)|, n - 1)
    ensures status == StatusAt(dev.tdo, |old(dev.log)|, n - 1) && (n < 1000 ==> status % 16 != 0)
  {
    ghost var p := Port(dev.View());
    ghost var from := |dev.log|;
    status := 1;
    n := 0;
    var i := 0;
    while i < 1000
      invariant 0 <= i <= 1000 && n == i
      invariant dev.Ready() && dev.emul.state.ScanDr? && Port(dev.View()) == Polled(p, n)
      invariant old(dev.log) <= dev.log && |dev.log| == from + 50 * n
      invariant AllBusy(dev.tdo, from, n)
      invariant n > 0 ==> status == StatusAt(dev.tdo, from, n - 1)
    {
      status := PollOnce(dev, from, n);
      n := n + 1;
      i := i + 1;
      if status % 16 != 0 {
        break;
      }
    }
  }

  // What a read hands to the latch when it polls n times.
  function ReadPort(p: AxiPort, addr: word, n: nat): (q: AxiPort) {
    Receive(Receive(Polled(Receive(Receive(Receive(Receive(p, 3), addr), 5), AXI_CNTL_READ), n), 4), 0)
  }

  // The address a read leaves in the latch: behind an address of 3, which is taken for a
  // selector, that of the control selector.
  function ReadTarget(addr: word): word {
    if addr == 3 then 5 else addr
  }

  lemma ReadEffect(p: AxiPort, addr: word, n: nat)
    requires Quiet(p)
    ensures Quiet(ReadPort(p, addr, n)) && ReadPort(p, addr, n).buf == Store(p.buf, ReadTarget(addr), 0)
  {
    var q := Receive(Receive(Receive(Receive(p, 3), addr), 5), AXI_CNTL_READ);
    assert q == p.(addr := ReadTarget(addr));
    PollsKeepQuiet(q, n);
  }

  // The register accesses of jtag_axiread.
  method ReadScans(dev: JtagLink, addr: word) returns (status: word, result: word, ghost n: nat)
    requires dev.Ready() && dev.emul.state.ScanDr?
    modifies dev, dev.buf
    ensures dev.Ready() && dev.emul.state.Idle? && 1 <= n <= 1000
    ensures Port(dev.View()) == ReadPort(old(Port(dev.View())), addr, n)
    ensures old(dev.log) <= dev.log && |dev.log| == |old(dev.log)| + 150 + 50 * n
    ensures AllBusy(dev.tdo, |old(dev.log)| + 100, n - 1)
    ensures status == StatusAt(dev.tdo, |old(dev.log)| + 100, n - 1) && (n < 1000 ==> status % 16 != 0)
    ensures result == StatusAt(dev.tdo, |old(dev.log)| + 100, n)
  {
    var _ := AccessTdr(dev, ARC_AXI_ADDR_TDR, addr, false, false);
    var _ := AccessTdr(dev, ARC_AXI_CONTROL_STATUS_TDR, AXI_CNTL_READ, false, false);
    status, n := PollStatus(dev);
    result := AccessTdr(dev, ARC_AXI_DATA_TDR, 0, true, true);
  }

  /** jtag_axiread against the emulator: the returned word is what TDO showed after the
      last status poll, and the emulator takes the zero scanned in for the read as a
      write. */
  method AxiRead(dev: JtagLink, addr: word) returns (rc: int, result: word, ghost n: nat)
    requires dev.Ready() && dev.emul.state.Idle?
    modifies dev, dev.buf
    ensures dev.Ready() && dev.emul.state.Idle? && 1 <= n <= 1000
    ensures Port(dev.View()) == ReadPort(old(Port(dev.View())), addr, n)
    ensures old(Quiet(Port(dev.View())))
      ==> Quiet(Port(dev.View())) && dev.buf[..] == Store(old(dev.buf[..]), ReadTarget(addr), 0)
    ensures AllBusy(dev.tdo, |old(dev.log)| + 129, n - 1)
    ensures result == StatusAt(dev.tdo, |old(dev.log)| + 129, n)
    ensures rc == if StatusAt(dev.tdo, |old(dev.log)| + 129, n - 1) % 16 != 0 then 0 else -1
    ensures n < 1000 ==> rc == 0
    ensures Selects(TENSIX_SM_RTAP, old(dev.log), old(dev.tdi), dev.log)
    ensures |dev.log| == |old(dev.log)| + 179 + 50 * n
  {
    ghost var p := Port(dev.View());
    SetupAccess(dev, TENSIX_SM_RTAP);
    var status;
    status, result, n := ReadScans(dev, addr);
    rc := if status % 16 != 0 then 0 else -1;
    if Quiet(p) {
      ReadEffect(p, addr, n);
    }
  }

  /** Through a quiet latch a driver read keeps the emulated memory exactly when the word
      it clears is outside the memory or already zero: the addressed word, or word 1 for
      address 3. */
  lemma ReadPreservesExactly(p: AxiPort, addr: word, n: nat)
    requires Quiet(p)
    ensures var i := if addr == 3 then 1 else addr / 4;
      ReadPort(p, addr, n).buf == p.buf <==> (i < |p.buf| ==> p.buf[i] == 0)
  {
    ReadEffect(p, addr, n);
    var i := if addr == 3 then 1 else addr / 4;
    if i < |p.buf| && p.buf[i] != 0 {
      assert Store(p.buf, ReadTarget(addr), 0)[i] == 0;
    }
  }

  /** End to end: set up, reset, write a block of any length. */
  method ResetAndWrite(buf: array<word>, tdo: nat -> bool, tck: bool, addr: word, values: seq<word>) returns (rc: int)
    requires addr != 3 && addr / 4 + |values| <= buf.Length <= 0x4000_0000
    requires NoSelector(values)
    modifies buf
    ensures buf[..] == Overlay(old(buf[..]), addr / 4, values)
  {
    var dev := new JtagLink(buf, tdo, tck);
    dev.Reset();
    rc := AxiBlockWrite(dev, addr, values);
  }
}
