/**
 BootFs.to_b16 of scripts/tt_boot_fs.py and its reader in
 scripts/smc_spi_flash.py: "@offset" lines followed by base-16 lines, one pair
 for every maximal run of used addresses.
 */
module Base16 {
  import opened Bytes
  import opened Wrappers
  import opened BootFs
  import opened IntelHex
  import opened HexPrinter

  // ---- Text ----------------------------------------------------------------------

  function DecDigit(d: nat): char
    requires d < 10
  {
    "0123456789"[d]
  }

  function Dec(n: nat): (s: string)
    ensures s != ""
  {
    if n < 10 then [DecDigit(n)] else Dec(n / 10) + [DecDigit(n % 10)]
  }

  // Decimal digits come highest first.
  lemma DecText(d: nat, e: nat)
    requires 0 < d < 10 && e < 10
    ensures Dec(10 * d + e) == [('0' as int + d) as char, ('0' as int + e) as char]
  {
    assert (10 * d + e) / 10 == d && (10 * d + e) % 10 == e;
    assert Dec(d) == [DecDigit(d)];
  }

  function DecValue(c: char): Option<nat> {
    if '0' <= c <= '9' then Some(c as int - '0' as int) else None
  }

  // int(s, 10) on plain digits
  function ParseDec(s: string): Option<nat> {
    if s == "" then None
    else if |s| == 1 then DecValue(s[0])
    else
      match (ParseDec(s[..|s| - 1]), DecValue(s[|s| - 1]))
      case (Some(x), Some(d)) => Some(10 * x + d)
      case _ => None
  }

  lemma DecDigitReadsBack(d: nat)
    requires d < 10
    ensures DecValue(DecDigit(d)) == Some(d) && DecDigit(d) != '\n' && !IsSpace(DecDigit(d))
  {
  }

  lemma {:induction false} DecReadsBack(n: nat)
    ensures ParseDec(Dec(n)) == Some(n)
    ensures forall i :: 0 <= i < |Dec(n)| ==> !IsSpace(Dec(n)[i])
  {
    DecDigitReadsBack(n % 10);
    if n >= 10 {
      DecReadsBack(n / 10);
      assert Dec(n)[..|Dec(n)| - 1] == Dec(n / 10);
    }
  }

  predicate IsSpace(c: char) {
    c == ' ' || c == '\t' || c == '\n' || c == '\r'
  }

  // str.strip
  function Strip(s: string): string {
    if s != "" && IsSpace(s[0]) then Strip(s[1..])
    else if s != "" && IsSpace(s[|s| - 1]) then Strip(s[..|s| - 1])
    else s
  }

  // base64.b16decode: upper-case digits only
  function DecodeUpper(s: string): Option<bytes> {
    if exists i :: 0 <= i < |s| && 'a' <= s[i] <= 'f' then None else ParseHex(s)
  }

  lemma {:induction false} HexIsUpper(b: bytes)
    ensures forall i :: 0 <= i < |Hex(b)| ==> !('a' <= Hex(b)[i] <= 'f') && !IsSpace(Hex(b)[i]) && Hex(b)[i] != '@'
  {
    if b != [] {
      HexIsUpper(b[1..]);
      UpperIsPlain(b[0] / 16);
      UpperIsPlain(b[0] % 16);
    }
  }

  lemma UpperIsPlain(d: nat)
    requires d < 16
    ensures var c := UpperDigit(d); !('a' <= c <= 'f') && !IsSpace(c) && c != '@'
  {
  }

  lemma Base16ReadsBack(b: bytes)
    ensures DecodeUpper(Hex(b)) == Some(b)
  {
    HexIsUpper(b);
    HexReadsBack(b, "");
    assert Hex(b) + "" == Hex(b) && b + [] == b;
  }

  // ---- Reader --------------------------------------------------------------------

  // One line of the reader's loop.
  function ReadLine(data: bytes, line: string): Result<bytes> {
    var s := Strip(line);
    if s == "" then Ok(data)
    else if s[0] == '@' then
      match ParseDec(s[1..])
      case None => Err("bad offset")
      case Some(offset) => Ok(data + Erased(if offset > |data| then offset - |data| else 0))
    else
      match DecodeUpper(s)
      case None => Err("bad base16")
      case Some(b) => Ok(data + b)
  }

  function ReadLines(lines: seq<string>): Result<bytes> {
    if lines == [] then Ok([])
    else
      var data :- ReadLines(lines[..|lines| - 1]);
      ReadLine(data, lines[|lines| - 1])
  }

  lemma {:induction false} ReadFails(lines: seq<string>, k: nat)
    requires k <= |lines| && ReadLines(lines[..k]).Err?
    ensures ReadLines(lines) == ReadLines(lines[..k])
    decreases |lines|
  {
    if k == |lines| {
      assert lines[..k] == lines;
    } else {
      assert lines[..|lines| - 1][..k] == lines[..k];
      ReadFails(lines[..|lines| - 1], k);
    }
  }

  // _read_bootfs_raw_from_b16
  method ReadBootfsRawFromB16(lines: seq<string>) returns (r: Result<bytes>)
    ensures r == ReadLines(lines)
  {
    var data: bytes := [];
    var i := 0;
    while i < |lines|
      invariant 0 <= i <= |lines| && ReadLines(lines[..i]) == Ok(data)
    {
      assert lines[..i + 1][..i] == lines[..i];
      var line := Strip(lines[i]);
      if line != "" {
        if line[0] == '@' {
          var offset := ParseDec(line[1..]);
          if offset.None? {
            ReadFails(lines, i + 1);
            return Err("bad offset");
          }
          if offset.value > |data| {
            data := data + Erased(offset.value - |data|);
          } else {
            assert data + Erased(0) == data;
          }
        } else {
          var b := DecodeUpper(line);
          if b.None? {
            ReadFails(lines, i + 1);
            return Err("bad base16");
          }
          data := data + b.value;
        }
      }
      i := i + 1;
    }
    assert lines[..i] == lines;
    r := Ok(data);
  }

  // ---- Printer -------------------------------------------------------------------

  datatype Run = Run(start: nat, end: nat)

  // rs lists, in order and with a gap between any two, exactly the runs of
  // addresses below n that mem uses.
  ghost predicate MaximalRuns(mem: map<nat, byte>, rs: seq<Run>, n: nat) {
    InOrder(rs, n) && forall k: nat :: k < n ==> (k in mem <==> InRuns(rs, k))
  }

  ghost predicate InOrder(rs: seq<Run>, n: nat) {
    && (forall i :: 0 <= i < |rs| ==> rs[i].start < rs[i].end <= n)
    && (forall i, j :: 0 <= i < j < |rs| ==> rs[i].end < rs[j].start)
  }

  ghost predicate InRuns(rs: seq<Run>, k: nat) {
    exists i :: 0 <= i < |rs| && rs[i].start <= k < rs[i].end
  }

  lemma InRunsLast(rs: seq<Run>, a: nat)
    requires rs != []
    ensures InRuns(rs, a) <==> InRuns(rs[..|rs| - 1], a) || rs[|rs| - 1].start <= a < rs[|rs| - 1].end
  {
    var init := rs[..|rs| - 1];
    if InRuns(init, a) {
      var i :| 0 <= i < |init| && init[i].start <= a < init[i].end;
      assert rs[i].start <= a < rs[i].end;
    }
    if InRuns(rs, a) {
      var i :| 0 <= i < |rs| && rs[i].start <= a < rs[i].end;
      assert i == |init| || init[i].start <= a < init[i].end;
    }
  }

  lemma GrownRuns(mem: map<nat, byte>, prev: seq<Run>, n: nat)
    requires n > 0 && MaximalRuns(mem, prev, n - 1) && n - 1 in mem && prev != [] && prev[|prev| - 1].end == n - 1
    ensures MaximalRuns(mem, prev[..|prev| - 1] + [Run(prev[|prev| - 1].start, n)], n)
  {
    var init, last := prev[..|prev| - 1], prev[|prev| - 1];
    var rs := init + [Run(last.start, n)];
    assert rs[..|rs| - 1] == init;
    forall k: nat | k < n ensures k in mem <==> InRuns(rs, k) {
      InRunsLast(rs, k);
      InRunsLast(prev, k);
    }
  }

  lemma InRunsMore(prev: seq<Run>, r: Run, k: nat)
    ensures InRuns(prev + [r], k) <==> InRuns(prev, k) || r.start <= k < r.end
  {
    var rs := prev + [r];
    assert rs[..|rs| - 1] == prev;
    InRunsLast(rs, k);
  }

  lemma AddedInOrder(prev: seq<Run>, n: nat)
    requires n > 0 && InOrder(prev, n - 1) && (prev == [] || prev[|prev| - 1].end < n - 1)
    ensures InOrder(prev + [Run(n - 1, n)], n)
  {
    forall i | 0 <= i < |prev| ensures prev[i].end < n - 1 {
      assert i < |prev| - 1 ==> prev[i].end < prev[|prev| - 1].start;
    }
  }

  lemma AddedRun(mem: map<nat, byte>, prev: seq<Run>, n: nat)
    requires n > 0 && MaximalRuns(mem, prev, n - 1) && n - 1 in mem && (prev == [] || prev[|prev| - 1].end < n - 1)
    ensures MaximalRuns(mem, prev + [Run(n - 1, n)], n)
  {
    var rs := prev + [Run(n - 1, n)];
    AddedInOrder(prev, n);
    forall k: nat | k < n ensures k in mem <==> InRuns(rs, k) {
      InRunsMore(prev, Run(n - 1, n), k);
    }
  }

  lemma SkippedAddress(mem: map<nat, byte>, rs: seq<Run>, n: nat)
    requires n > 0 && MaximalRuns(mem, rs, n - 1) && n - 1 !in mem
    ensures MaximalRuns(mem, rs, n)
  {
  }

  // The runs below n, from those below n - 1.
  function Extended(mem: map<nat, byte>, rs: seq<Run>, n: nat): seq<Run>
    requires n > 0
  {
    if n - 1 !in mem then rs
    else if rs != [] && rs[|rs| - 1].end == n - 1 then rs[..|rs| - 1] + [Run(rs[|rs| - 1].start, n)]
    else rs + [Run(n - 1, n)]
  }

  function Segments(mem: map<nat, byte>, n: nat): seq<Run> {
    if n == 0 then [] else Extended(mem, Segments(mem, n - 1), n)
  }

  /** IntelHex.segments(): the maximal runs of used addresses below n. */
  lemma {:induction false} SegmentsMaximal(mem: map<nat, byte>, n: nat)
    ensures MaximalRuns(mem, Segments(mem, n), n)
  {
    if n > 0 {
      SegmentsMaximal(mem, n - 1);
      var rs := Segments(mem, n - 1);
      if n - 1 !in mem {
        SkippedAddress(mem, rs, n);
      } else if rs != [] && rs[|rs| - 1].end == n - 1 {
        GrownRuns(mem, rs, n);
      } else {
        AddedRun(mem, rs, n);
      }
    }
  }

  function RunBytes(mem: map<nat, byte>, r: Run): (b: bytes)
    ensures |b| == if r.start < r.end then r.end - r.start else 0
  {
    seq(if r.start < r.end then r.end - r.start else 0,
        i requires 0 <= i => if r.start + i in mem then mem[r.start + i] else ERASED)
  }

  function RunLines(mem: map<nat, byte>, rs: seq<Run>): (lines: seq<string>)
    ensures |lines| == 2 * |rs|
  {
    if rs == [] then []
    else
      var r := rs[|rs| - 1];
      RunLines(mem, rs[..|rs| - 1]) + ["@" + Dec(r.start), Hex(RunBytes(mem, r))]
  }

  // The loop of BootFs.to_b16 over the segments.
  method PrintRuns(mem: map<nat, byte>, rs: seq<Run>) returns (lines: seq<string>)
    ensures lines == RunLines(mem, rs)
  {
    lines := [];
    var i := 0;
    while i < |rs|
      invariant 0 <= i <= |rs| && lines == RunLines(mem, rs[..i])
    {
      assert rs[..i + 1][..i] == rs[..i];
      lines := lines + ["@" + Dec(rs[i].start)];
      lines := lines + [Hex(RunBytes(mem, rs[i]))];
      i := i + 1;
    }
    assert rs[..i] == rs;
  }

  /** The two lines of a run: its start in decimal after an at-sign, then its bytes. */
  lemma {:induction false} RunText(mem: map<nat, byte>, rs: seq<Run>, i: nat)
    requires i < |rs|
    ensures RunLines(mem, rs)[2 * i] == "@" + Dec(rs[i].start)
    ensures RunLines(mem, rs)[2 * i + 1] == Hex(RunBytes(mem, rs[i]))
    decreases |rs|
  {
    var n := |rs| - 1;
    if i < n {
      RunText(mem, rs[..n], i);
    }
  }

  function RunsEnd(rs: seq<Run>): nat {
    if rs == [] then 0 else rs[|rs| - 1].end
  }

  lemma StripPlain(s: string)
    requires s != "" && !IsSpace(s[0]) && !IsSpace(s[|s| - 1])
    ensures Strip(s) == s
  {
  }

  lemma ReadOffset(data: bytes, start: nat)
    requires start >= |data|
    ensures ReadLine(data, "@" + Dec(start)) == Ok(data + Erased(start - |data|))
  {
    var s := "@" + Dec(start);
    DecReadsBack(start);
    assert s[|s| - 1] == Dec(start)[|Dec(start)| - 1];
    StripPlain(s);
    assert s[1..] == Dec(start);
    assert start == |data| ==> Erased(0) == [];
  }

  lemma ReadData(data: bytes, b: bytes)
    requires b != []
    ensures ReadLine(data, Hex(b)) == Ok(data + b)
  {
    HexIsUpper(b);
    StripPlain(Hex(b));
    Base16ReadsBack(b);
  }

  lemma ReadRun(lines: seq<string>, data: bytes, start: nat, b: bytes)
    requires ReadLines(lines) == Ok(data) && start >= |data| && b != []
    ensures ReadLines(lines + ["@" + Dec(start), Hex(b)]) == Ok(data + Erased(start - |data|) + b)
  {
    var x, y := lines + ["@" + Dec(start)], lines + ["@" + Dec(start), Hex(b)];
    assert x[..|lines|] == lines && y[..|lines| + 1] == x;
    ReadOffset(data, start);
    ReadData(data + Erased(start - |data|), b);
  }

  lemma FillRun(mem: map<nat, byte>, e: nat, r: Run)
    requires e <= r.start < r.end
    requires forall k: nat :: e <= k < r.start ==> k !in mem
    ensures Filled(mem, r.end) == Filled(mem, e) + Erased(r.start - e) + RunBytes(mem, r)
  {
  }

  // Leaving out the last run leaves the runs below it.
  lemma FewerRuns(mem: map<nat, byte>, rs: seq<Run>, n: nat)
    requires MaximalRuns(mem, rs, n) && rs != []
    ensures var m := |rs| - 1; var e := RunsEnd(rs[..m]);
      && MaximalRuns(mem, rs[..m], e) && e <= rs[m].start
      && (forall k: nat :: e <= k < rs[m].start ==> k !in mem)
  {
    var m := |rs| - 1;
    var e := RunsEnd(rs[..m]);
    assert forall i :: 0 <= i < m ==> rs[i].end <= e;
    forall k: nat | k < rs[m].start && k in mem ensures InRuns(rs[..m], k) && k < e {
      assert InRuns(rs, k);
      var i :| 0 <= i < |rs| && rs[i].start <= k < rs[i].end;
      assert rs[..m][i] == rs[i];
    }
  }

  /** Reading the printed lines rebuilds the memory with its gaps erased. */
  lemma {:induction false} RunsReadBack(mem: map<nat, byte>, rs: seq<Run>, n: nat)
    requires MaximalRuns(mem, rs, n)
    ensures ReadLines(RunLines(mem, rs)) == Ok(Filled(mem, RunsEnd(rs)))
  {
    if rs != [] {
      var m := |rs| - 1;
      var r, e := rs[m], RunsEnd(rs[..m]);
      FewerRuns(mem, rs, n);
      RunsReadBack(mem, rs[..m], e);
      ReadRun(RunLines(mem, rs[..m]), Filled(mem, e), r.start, RunBytes(mem, r));
      FillRun(mem, e, r);
    }
  }

  lemma BlankLineIgnored(lines: seq<string>)
    requires ReadLines(lines).Ok?
    ensures ReadLines(lines + [""]) == ReadLines(lines)
  {
    assert (lines + [""])[..|lines|] == lines;
  }

  // The text of to_b16 and its reader, line splitting included.
  lemma B16ReadsBack(mem: map<nat, byte>, rs: seq<Run>, n: nat)
    requires MaximalRuns(mem, rs, n)
    ensures ReadLines(Split(Join(RunLines(mem, rs)) + "")) == Ok(Filled(mem, RunsEnd(rs)))
  {
    var lines := RunLines(mem, rs);
    RunsReadBack(mem, rs, n);
    assert Split(Join(lines) + "") == lines + [""] by {
      RunLinesPlain(mem, rs);
      SplitJoin(lines, "");
    }
    BlankLineIgnored(lines);
  }

  lemma {:induction false} RunLinesPlain(mem: map<nat, byte>, rs: seq<Run>)
    ensures forall i :: 0 <= i < |RunLines(mem, rs)| ==> '\n' !in RunLines(mem, rs)[i]
  {
    if rs != [] {
      var r := rs[|rs| - 1];
      RunLinesPlain(mem, rs[..|rs| - 1]);
      DecReadsBack(r.start);
      HexHasNoNewline(RunBytes(mem, r));
    }
  }

  // The used addresses end where the last non-empty write ends.
  lemma RunsReach(rs: seq<Run>, n: nat)
    requires n > 0 && InOrder(rs, n) && InRuns(rs, n - 1)
    ensures RunsEnd(rs) == n
  {
    var i :| 0 <= i < |rs| && rs[i].start <= n - 1 < rs[i].end;
    assert rs[i].end == n;
  }

  lemma RunsEndAtLastWrite(ws: seq<Write>, rs: seq<Run>)
    requires Ordered(ws) && ws != [] && ws[|ws| - 1].data != []
    requires MaximalRuns(Memory(ws), rs, |Image(ws)|)
    ensures RunsEnd(rs) == |Image(ws)|
  {
    var w := ws[|ws| - 1];
    ImageLength(ws);
    assert Covers(w, w.End() - 1);
    MemoryValue(ws, |ws| - 1, w.End() - 1);
    RunsReach(rs, |Image(ws)|);
  }

  lemma RunsEndBelow(ws: seq<Write>, rs: seq<Run>)
    requires Ascending(ws) && NoHits(ws) && ws != [] && ws[|ws| - 1].data == [] && ws[|ws| - 1].addr > 0
    requires MaximalRuns(Memory(ws), rs, |Image(ws)|)
    ensures RunsEnd(rs) < |Image(ws)|
  {
    var n := |ws| - 1;
    RecheckExact(ws);
    ImageLength(ws);
    var k := ws[n].addr - 1;
    forall i | 0 <= i < |ws| ensures !Covers(ws[i], k) {
      assert i < n ==> ws[i].End() <= ws[n].addr;
    }
    MemoryKeys(ws, k);
    assert rs != [] ==> rs[|rs| - 1].end != k + 1;
  }

  // The text of to_b16 for a memory whose addresses lie below n.
  function B16Text(mem: map<nat, byte>, n: nat): string {
    Join(RunLines(mem, Segments(mem, n)))
  }

  // Looking further than the last address changes nothing.
  ghost predicate UsedBelow(mem: map<nat, byte>, n: nat) {
    forall k :: k in mem ==> k < n
  }

  lemma {:induction false} SegmentsBeyond(mem: map<nat, byte>, n: nat, m: nat)
    requires n <= m && UsedBelow(mem, n)
    ensures Segments(mem, m) == Segments(mem, n)
    decreases m
  {
    if n < m {
      SegmentsBeyond(mem, n, m - 1);
    }
  }

  // The end of the last address.
  method Top(mem: map<nat, byte>) returns (n: nat)
    ensures forall k :: k in mem ==> k < n
  {
    n := 0;
    var keys := mem.Keys;
    while keys != {}
      invariant forall k :: k in mem ==> k in keys || k < n
      decreases |keys|
    {
      var k :| k in keys;
      keys := keys - {k};
      if k >= n {
        n := k + 1;
      }
    }
  }

  // BootFs.to_b16: print the HEX file, load it again, print its segments.
  method ToB16(fs: FileSystem) returns (r: Result<string>)
    ensures r.Ok? <==> HexPrints(fs, true)
    ensures r.Ok? ==> var ws := SortByAddr(RawWrites(fs)); r.value == B16Text(Memory(ws), |Image(ws)|)
  {
    var hex := ToIntelHex(fs, true);
    if hex.Err? {
      return Err(hex.error);
    }
    ghost var ws := SortByAddr(RawWrites(fs));
    IncludedAll(ws);
    SortByAddrSorts(RawWrites(fs));
    RecheckExact(ws);
    HexAgreesWithBinary(ws);
    var mem := Decode(hex.value).value;
    var n := Top(mem);
    var lines := PrintRuns(mem, Segments(mem, n));
    SameSegments(mem, n, |Image(ws)|);
    r := Ok(Join(lines));
  }

  lemma SameSegments(mem: map<nat, byte>, n: nat, m: nat)
    requires UsedBelow(mem, n) && UsedBelow(mem, m)
    ensures Segments(mem, n) == Segments(mem, m)
  {
    if n <= m {
      SegmentsBeyond(mem, n, m);
    } else {
      SegmentsBeyond(mem, m, n);
    }
  }

  lemma B16AgreesWithBinary(ws: seq<Write>)
    requires Ascending(ws) && NoHits(ws) && ws != [] && ws[|ws| - 1].addr > 0
    ensures var mem := Memory(ws);
      var end := RunsEnd(Segments(mem, |Image(ws)|));
      && ReadLines(Split(B16Text(mem, |Image(ws)|))) == Ok(Filled(mem, end))
      && (Filled(mem, end) == Image(ws) <==> ws[|ws| - 1].data != [])
  {
    var mem := Memory(ws);
    var rs := Segments(mem, |Image(ws)|);
    SegmentsMaximal(mem, |Image(ws)|);
    RecheckExact(ws);
    B16ReadsBack(mem, rs, |Image(ws)|);
    assert Join(RunLines(mem, rs)) + "" == Join(RunLines(mem, rs));
    if ws[|ws| - 1].data != [] {
      RunsEndAtLastWrite(ws, rs);
      FilledIsImage(ws);
    } else {
      RunsEndBelow(ws, rs);
    }
  }

  lemma TrainingIsWritten(fs: FileSystem)
    requires Keyed(fs)
    ensures var ws := SortByAddr(RawWrites(fs)); ws != [] && ws[|ws| - 1].addr > 0
  {
    var t := Write(true, SPI_RX_ADDR, Le32(SPI_RX_VALUE));
    assert t in RawWrites(fs);
    LastIsHighest(RawWrites(fs), t);
  }

  lemma LastIsHighest(raw: seq<Write>, t: Write)
    requires t in raw
    ensures var ws := SortByAddr(raw); ws != [] && ws[|ws| - 1].addr >= t.addr
  {
    var ws := SortByAddr(raw);
    SortByAddrSorts(raw);
    assert t in multiset(raw);
    assert t in multiset(ws);
    var i :| 0 <= i < |ws| && ws[i] == t;
  }

  /** The three printers agree on every file system they all print: the HEX file decodes
      to the memory of its writes; filling the gaps of that memory with erased bytes
      gives the flat binary; and the base-16 text reads back as that same memory up to
      its last byte, which is the flat binary exactly when the last write is not empty. */
  lemma PrintersAgree(fs: FileSystem)
    requires HexPrints(fs, true)
    ensures var ws := SortByAddr(RawWrites(fs));
      var mem, end := Memory(ws), RunsEnd(Segments(Memory(ws), |Image(ws)|));
      && Decode(HexText(ws)) == Some(mem) && Filled(mem, |Image(ws)|) == Image(ws)
      && ReadLines(Split(B16Text(mem, |Image(ws)|))) == Ok(Filled(mem, end))
      && (Filled(mem, end) == Image(ws) <==> ws[|ws| - 1].data != [])
  {
    var ws := SortByAddr(RawWrites(fs));
    IncludedAll(ws);
    SortByAddrSorts(RawWrites(fs));
    RecheckExact(ws);
    HexAgreesWithBinary(ws);
    TrainingIsWritten(fs);
    B16AgreesWithBinary(ws);
  }

  lemma FilledIsImage(ws: seq<Write>)
    requires Ordered(ws)
    ensures Filled(Memory(ws), |Image(ws)|) == Image(ws)
  {
    forall k | 0 <= k < |Image(ws)| ensures Filled(Memory(ws), |Image(ws)|)[k] == Image(ws)[k] {
      MemoryAt(ws, k);
    }
  }
}
