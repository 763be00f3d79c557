/**
 The printing loops of BootFs.to_intel_hex in scripts/tt_boot_fs.py, and the
 agreement of the HEX file with the flat binary.
 */
module HexPrinter {
  import opened Bits
  import opened Bytes
  import opened Wrappers
  import opened BootFs
  import opened IntelHex

  // int(pair, 16) summed over the record text
  method SumPairs(record: string, ghost body: bytes) returns (checksum: int)
    requires ParseHex(record) == Some(body)
    ensures checksum == Sum(body)
  {
    checksum := 0;
    var i := 0;
    ghost var rest := body;
    while i < |record|
      invariant 0 <= i <= |record| && ParseHex(record[i..]) == Some(rest)
      invariant checksum + Sum(rest) == Sum(body)
    {
      NextPair(record, i, rest);
      checksum := checksum + PairValue(record[i], record[i + 1]);
      rest := rest[1..];
      i := i + 2;
    }
    assert record[i..] == "";
  }

  // ... then negated modulo 256.
  method RecordChecksum(record: string, ghost body: bytes) returns (c: byte)
    requires ParseHex(record) == Some(body)
    ensures c == CheckByte(body)
  {
    var checksum := SumPairs(record, body);
    c := Complement(checksum);
  }

  function PairValue(hi: char, lo: char): int
    requires Digit(hi).Some? && Digit(lo).Some?
  {
    16 * Digit(hi).value + Digit(lo).value
  }

  lemma NextPair(record: string, i: nat, rest: bytes)
    requires i < |record| && ParseHex(record[i..]) == Some(rest)
    ensures i + 2 <= |record| && Digit(record[i]).Some? && Digit(record[i + 1]).Some? && rest != []
    ensures ParseHex(record[i + 2..]) == Some(rest[1..])
    ensures Sum(rest) == PairValue(record[i], record[i + 1]) + Sum(rest[1..])
  {
    FirstPair(record[i..], rest);
    assert record[i..][2..] == record[i + 2..];
  }

  lemma FirstPair(s: string, b: bytes)
    requires s != "" && ParseHex(s) == Some(b)
    ensures 2 <= |s| && Digit(s[0]).Some? && Digit(s[1]).Some? && b != []
    ensures ParseHex(s[2..]) == Some(b[1..]) && b[0] as int == PairValue(s[0], s[1])
  {
    DigitBound(s[0]);
    if |s| > 1 {
      DigitBound(s[1]);
    }
  }

  lemma DigitBound(c: char)
    ensures Digit(c).Some? ==> 0 <= Digit(c).value < 16
  {
  }

  method EmitLine(record: string, ghost r: Record) returns (line: string)
    requires record == BodyText(r)
    ensures line == Line(r)
  {
    BodyTextReadsBack(r);
    var checksum := RecordChecksum(record, Body(r));
    assert Hex([checksum]) == HexPair(checksum) by {
      assert [checksum][1..] == [];
    }
    line := ":" + record + HexPair(checksum);
  }

  lemma BodyTextReadsBack(r: Record)
    ensures ParseHex(BodyText(r)) == Some(Body(r))
  {
    assert ParseHex("") == Some([]);
    if r.ExtLinear? {
      var u: bytes := [r.upper / 256 % 256, r.upper % 256];
      LowerHexReadsBack(u, "");
      HexReadsBack(Head(2, 0, 4), LowerHex(u));
      assert LowerHex(u) + "" == LowerHex(u) && u + [] == u;
    } else {
      HexReadsBack(Body(r), "");
      assert Hex(Body(r)) + "" == Hex(Body(r)) && Body(r) + [] == Body(r);
    }
  }

  lemma HexCons(b: byte, s: bytes)
    ensures Hex([b] + s) == HexPair(b) + Hex(s)
  {
    assert ([b] + s)[1..] == s;
  }

  lemma HexFour(a: byte, b: byte, c: byte, d: byte)
    ensures Hex([a, b, c, d]) == HexPair(a) + HexPair(b) + HexPair(c) + HexPair(d)
  {
    HexCons(d, []);
    HexCons(c, [d]);
    HexCons(b, [c, d]);
    HexCons(a, [b, c, d]);
    assert [d] + [] == [d] && [c] + [d] == [c, d] && [b] + [c, d] == [b, c, d] && [a] + [b, c, d] == [a, b, c, d];
  }

  lemma HexHead(n: nat, offset: nat, kind: nat)
    requires n < 256 && offset < 0x1_0000 && kind < 256
    ensures Hex(Head(n, offset, kind)) == HexPair(n) + HexPair(offset / 256) + HexPair(offset % 256) + HexPair(kind)
  {
    HexFour(n, offset / 256, offset % 256, kind);
    SmallMod(n, 256);
    SmallMod(kind, 256);
    SmallMod(offset / 256, 256);
  }

  lemma {:induction false} HexConcat(a: bytes, b: bytes)
    ensures Hex(a + b) == Hex(a) + Hex(b)
  {
    if a == [] {
      assert a + b == b && Hex(a) + Hex(b) == Hex(b);
    } else {
      HexConcat(a[1..], b);
      assert (a + b)[1..] == a[1..] + b;
      assert HexPair(a[0]) + (Hex(a[1..]) + Hex(b)) == (HexPair(a[0]) + Hex(a[1..])) + Hex(b);
    }
  }

  // ---- The text of a record, character by character --------------------------------------

  // Capital or small digits, by their place in the character set.
  function DigitChar(d: nat, upper: bool): char
    requires d < 16
  {
    if d < 10 then ('0' as int + d) as char
    else if upper then ('A' as int + d - 10) as char
    else ('a' as int + d - 10) as char
  }

  // The lowest two and four hexadecimal digits of x, highest first.
  function Two(x: nat, upper: bool): (s: string) {
    [DigitChar(x / 0x10 % 16, upper), DigitChar(x % 16, upper)]
  }

  function Four(x: nat, upper: bool): (s: string) {
    Two(x / 0x100, upper) + Two(x, upper)
  }

  lemma PairIsTwo(b: byte)
    ensures HexPair(b) == Two(b, true) && LowerHexPair(b) == Two(b, false)
  {
  }

  lemma LowTwo(x: nat, upper: bool)
    ensures Two(x % 256, upper) == Two(x, upper)
  {
    var q, y := x / 256, x % 256;
    DivModUnique(x, 16, 16 * q + y / 16, y % 16);
    DivModUnique(16 * q + y / 16, 16, q + y / 16 / 16, y / 16 % 16);
  }

  // The two digits that bring the sum of a record to zero.
  ghost predicate Closes(c: nat, sum: nat) {
    c < 256 && (sum + c) % 256 == 0
  }

  // A line made of some digits and the byte that closes a sum.
  ghost predicate Closed(line: string, digits: string, sum: nat) {
    exists c: nat :: Closes(c, sum) && line == ":" + digits + Two(c, true)
  }

  lemma HeadText(n: nat, offset: nat, kind: nat)
    requires n < 256 && offset < 0x1_0000 && kind < 256
    ensures Hex(Head(n, offset, kind)) == Two(n, true) + Four(offset, true) + Two(kind, true)
  {
    HexHead(n, offset, kind);
    PairIsTwo(n);
    PairIsTwo(offset / 256);
    PairIsTwo(offset % 256);
    PairIsTwo(kind);
    LowTwo(offset, true);
    assert Two(offset / 256, true) + Two(offset, true) == Four(offset, true);
  }

  lemma SumFour(a: byte, b: byte, c: byte, d: byte)
    ensures Sum([a, b, c, d]) == a as int + b as int + c as int + d as int
  {
    assert [a, b, c, d][1..] == [b, c, d] && [b, c, d][1..] == [c, d] && [c, d][1..] == [d] && [d][1..] == [];
    assert Sum([d]) == d as int;
    assert Sum([c, d]) == c as int + d as int;
    assert Sum([b, c, d]) == b as int + c as int + d as int;
  }

  lemma HeadSum(n: nat, offset: nat, kind: nat, rest: bytes)
    requires n < 256 && offset < 0x1_0000 && kind < 256
    ensures Sum(Head(n, offset, kind) + rest) == n + offset / 256 + offset % 256 + kind + Sum(rest)
  {
    SumConcat(Head(n, offset, kind), rest);
    SumFour(n % 256, offset / 256 % 256, offset % 256, kind % 256);
    SmallMod(n, 256);
    SmallMod(kind, 256);
    SmallMod(offset / 256, 256);
  }

  lemma CheckCloses(sum: nat)
    ensures Closes(Complement(sum), sum)
  {
    var m := sum % 256;
    DivModUnique(sum + (256 - m), 256, sum / 256 + 1, 0);
    if m != 0 {
      SmallMod(256 - m, 256);
    }
  }

  lemma CheckText(c: byte)
    ensures Hex([c]) == Two(c, true)
  {
    HexCons(c, []);
    assert [c] + [] == [c] && HexPair(c) + "" == HexPair(c);
    PairIsTwo(c);
  }

  lemma ClosedLine(r: Record, sum: nat)
    requires Sum(Body(r)) == sum
    ensures Closed(Line(r), BodyText(r), sum)
  {
    CheckCloses(sum);
    CheckText(Complement(sum));
  }

  /** The text of a data record: the byte count, the offset with its high digits first, the
      kind 0, the data, and two digits that bring the sum of all bytes to zero. */
  lemma DataText(offset: nat, data: bytes)
    requires RecordOk(Data(offset, data))
    ensures Closed(Line(Data(offset, data)), Two(|data|, true) + Four(offset, true) + Two(0, true) + Hex(data),
                   |data| + offset / 256 + offset % 256 + Sum(data))
  {
    HeadText(|data|, offset, 0);
    HexConcat(Head(|data|, offset, 0), data);
    HeadSum(|data|, offset, 0, data);
    ClosedLine(Data(offset, data), |data| + offset / 256 + offset % 256 + Sum(data));
  }

  lemma LowerTwo(upper: nat)
    requires upper < 0x1_0000
    ensures LowerHex([upper / 256 % 256, upper % 256]) == Four(upper, false)
    ensures Sum([upper / 256 % 256, upper % 256]) == upper / 256 + upper % 256
  {
    var b := [upper / 256 % 256, upper % 256];
    SmallMod(upper / 256, 256);
    assert b[1..][1..] == [];
    assert LowerHex(b[1..]) == LowerHexPair(upper % 256) + "" && Sum(b[1..]) == upper % 256;
    PairIsTwo(upper / 256);
    PairIsTwo(upper % 256);
    LowTwo(upper, false);
  }

  /** The text of a segment record: two bytes at offset 0, the kind 4, the upper half of the
      address in small digits, and the closing digits. */
  lemma SegmentText(upper: nat)
    requires upper < 0x1_0000
    ensures Closed(Line(ExtLinear(upper)), Two(2, true) + Four(0, true) + Two(4, true) + Four(upper, false),
                   6 + upper / 256 + upper % 256)
  {
    HeadText(2, 0, 4);
    LowerTwo(upper);
    HeadSum(2, 0, 4, [upper / 256 % 256, upper % 256]);
    ClosedLine(ExtLinear(upper), 6 + upper / 256 + upper % 256);
  }

  // "02" "0000" "04" and the segment bytes
  method SegmentLine(segment: nat) returns (line: string)
    requires segment < 0x1_0000
    ensures line == Line(ExtLinear(segment))
  {
    var bytes := [segment / 256, segment % 256];
    assert segment / 256 % 256 == segment / 256;
    var record := Hex(Head(2, 0, 4)) + LowerHex(bytes);
    line := EmitLine(record, ExtLinear(segment));
  }

  // byte count, offset, "00" and the data
  method DataLine(offset: nat, chunk: bytes) returns (line: string)
    requires 1 <= |chunk| <= 16 && offset < 0x1_0000
    ensures line == Line(Data(offset, chunk))
  {
    HexHead(|chunk|, offset, 0);
    HexConcat(Head(|chunk|, offset, 0), chunk);
    var record := HexPair(|chunk|) + HexPair(offset / 256) + HexPair(offset % 256) + HexPair(0) + Hex(chunk);
    line := EmitLine(record, Data(offset, chunk));
  }

  function FirstRecords(seg: Segment, a: nat, d: bytes): seq<Record> {
    Prefix(seg, a) + [Data(a % 0x1_0000, d[..ChunkSize(a, |d|)])]
  }

  lemma ChunkLines(seg: Segment, a: nat, d: bytes)
    ensures LinesOf(FirstRecords(seg, a, d)) ==
      LinesOf(Prefix(seg, a)) + [Line(Data(a % 0x1_0000, d[..ChunkSize(a, |d|)]))]
  {
    MapConcat(Line, Prefix(seg, a), [Data(a % 0x1_0000, d[..ChunkSize(a, |d|)])]);
  }

  // The lines of one chunk, with a segment line when the segment changed.
  method PrintChunk(segment: Segment, a: nat, d: bytes) returns (lines: seq<string>)
    requires d != [] && a < TWO32
    ensures lines == LinesOf(FirstRecords(segment, a, d))
  {
    var chunk := d[..ChunkSize(a, |d|)];
    var line := DataLine(a % 0x1_0000, chunk);
    ChunkLines(segment, a, d);
    lines := [line];
    if segment != Some(a / 0x1_0000) {
      var first := SegmentLine(a / 0x1_0000);
      lines := [first] + lines;
    }
  }

  lemma RecordsStep(seg: Segment, a: nat, d: bytes)
    requires d != []
    ensures var k := ChunkSize(a, |d|);
      WriteRecords(seg, a, d) == FirstRecords(seg, a, d) + WriteRecords(Some(a / 0x1_0000), a + k, d[k..])
  {
  }

  // What is left to print from address a completes the lines of the whole
  // write and leaves the printer in the final segment.
  ghost predicate Remaining(seg: Segment, a: nat, d: bytes, output: seq<string>, whole: seq<Record>, final: Segment) {
    output + LinesOf(WriteRecords(seg, a, d)) == LinesOf(whole) && LastSegment(seg, a, d) == final
  }

  lemma LinesSplit(output: seq<string>, whole: seq<Record>, front: seq<Record>, rest: seq<Record>)
    requires whole == front + rest
    ensures output + LinesOf(whole) == (output + LinesOf(front)) + LinesOf(rest)
  {
    MapConcat(Line, front, rest);
  }

  lemma RemainingStep(seg: Segment, a: nat, d: bytes, output: seq<string>, whole: seq<Record>, final: Segment)
    requires d != [] && Remaining(seg, a, d, output, whole, final)
    ensures var k := ChunkSize(a, |d|);
      Remaining(Some(a / 0x1_0000), a + k, d[k..], output + LinesOf(FirstRecords(seg, a, d)), whole, final)
  {
    var k := ChunkSize(a, |d|);
    var front, rest := FirstRecords(seg, a, d), WriteRecords(Some(a / 0x1_0000), a + k, d[k..]);
    assert WriteRecords(seg, a, d) == front + rest by {
      RecordsStep(seg, a, d);
    }
    LinesSplit(output, WriteRecords(seg, a, d), front, rest);
    LastSegmentStep(seg, a, d);
  }

  // The while loop over one write: chunks of at most 16 bytes that stay inside
  // a 64 KiB segment. It raises once the address passes 4 GiB.
  method PrintWrite(current: Segment, address: nat, data: bytes) returns (r: Result<seq<string>>, segment: Segment)
    ensures r.Ok? <==> data == [] || address + |data| <= TWO32
    ensures r.Ok? ==> r.value == LinesOf(WriteRecords(current, address, data))
    ensures r.Ok? ==> segment == LastSegment(current, address, data)
  {
    var output: seq<string>, a, d := [], address, data;
    segment := current;
    ghost var whole, final := WriteRecords(current, address, data), LastSegment(current, address, data);
    assert [] + LinesOf(whole) == LinesOf(whole);
    var end := address + |data|;
    while a < end
      invariant a + |d| == end && address <= a
      invariant Remaining(segment, a, d, output, whole, final)
      invariant a == address || a <= TWO32
    {
      if a >= TWO32 {
        return Err("past 4G"), segment;
      }
      var k := ChunkSize(a, |d|);
      var lines := PrintChunk(segment, a, d);
      RemainingStep(segment, a, d, output, whole, final);
      ChunkBelow4G(a, k);
      output, segment, a, d := output + lines, Some(a / 0x1_0000), a + k, d[k..];
    }
    assert d == [] && output + [] == output;
    r := Ok(output);
  }

  lemma ChunkBelow4G(a: nat, k: nat)
    requires a < TWO32 && a % 0x1_0000 + k <= 0x1_0000
    ensures a + k <= TWO32
  {
  }

  lemma AppendRecords(ws: seq<Write>, w: Write)
    ensures LinesOf(AllRecords(ws + [w])) ==
      LinesOf(AllRecords(ws)) + LinesOf(WriteRecords(SegmentAfter(ws), w.addr, w.data))
    ensures SegmentAfter(ws + [w]) == LastSegment(SegmentAfter(ws), w.addr, w.data)
  {
    assert (ws + [w])[..|ws|] == ws;
    MapConcat(Line, AllRecords(ws), WriteRecords(SegmentAfter(ws), w.addr, w.data));
  }

  // A write past 4 GiB that is looked at shows in the selection.
  lemma TooHigh(ws: seq<Write>, i: nat, all: bool)
    requires i < |ws| && (ws[i].always || all) && ws[i].data != [] && ws[i].End() > TWO32
    ensures !Below4G(Included(ws, all))
  {
    IncludedPrefix(ws, i, all);
    var s := Included(ws, all);
    var j :| 0 <= j < |s| && s[j] == ws[i];
  }

  // What the loop has printed once `done` has been selected.
  ghost predicate PrintedSoFar(done: seq<Write>, output: seq<string>, current: Segment) {
    Below4G(done) && output == LinesOf(AllRecords(done)) && current == SegmentAfter(done)
  }

  lemma PrintedMore(done: seq<Write>, output: seq<string>, current: Segment, w: Write)
    requires PrintedSoFar(done, output, current) && (w.data == [] || w.End() <= TWO32)
    ensures PrintedSoFar(done + [w], output + LinesOf(WriteRecords(current, w.addr, w.data)),
                         LastSegment(current, w.addr, w.data))
  {
    AppendRecords(done, w);
  }

  method PrintWrites(ws: seq<Write>, allSections: bool) returns (r: Result<seq<string>>)
    ensures r.Ok? <==> Below4G(Included(ws, allSections))
    ensures r.Ok? ==> r.value == LinesOf(AllRecords(Included(ws, allSections)))
  {
    var output: seq<string> := [];
    var current: Segment := None;
    var i := 0;
    ghost var done: seq<Write> := [];
    while i < |ws|
      invariant 0 <= i <= |ws|
      invariant done == Included(ws[..i], allSections) && PrintedSoFar(done, output, current)
    {
      IncludedStep(ws, i, allSections);
      if ws[i].always || allSections {
        var piece, segment := PrintWrite(current, ws[i].addr, ws[i].data);
        if piece.Err? {
          TooHigh(ws, i, allSections);
          return Err(piece.error);
        }
        PrintedMore(done, output, current, ws[i]);
        done := done + [ws[i]];
        output, current := output + piece.value, segment;
      }
      i := i + 1;
    }
    assert ws[..i] == ws;
    r := Ok(output);
  }

  /** BootFs.to_intel_hex on the checked writes. */
  method PrintHex(ws: seq<Write>, allSections: bool) returns (r: Result<string>)
    ensures r.Ok? <==> Below4G(Included(ws, allSections))
    ensures r.Ok? ==> r.value == HexText(Included(ws, allSections))
  {
    var lines := PrintWrites(ws, allSections);
    if lines.Err? {
      return Err(lines.error);
    }
    EofText();
    r := Ok(Join(lines.value) + ":00000001FF");
  }

  // BootFs.to_intel_hex
  method ToIntelHex(fs: FileSystem, allSections: bool) returns (r: Result<string>)
    ensures r.Ok? <==> HexPrints(fs, allSections)
    ensures r.Ok? ==> r.value == HexText(Included(SortByAddr(RawWrites(fs)), allSections))
  {
    var ws := Writes(fs);
    if ws.Err? {
      return Err(ws.error);
    }
    r := PrintHex(ws.value, allSections);
  }

  // writes() accepts the file system, and nothing lies past 4 GiB.
  ghost predicate HexPrints(fs: FileSystem, allSections: bool) {
    && Keyed(fs) && TagsFit(fs) && NoHits(SortByAddr(RawWrites(fs)))
    && Below4G(Included(SortByAddr(RawWrites(fs)), allSections))
  }

  lemma EofText()
    ensures Line(Eof) == ":00000001FF"
  {
    assert Body(Eof) == [0, 0, 0, 1];
    assert Sum([0, 0, 0, 1]) == 1 by {
      assert [0, 0, 0, 1][1..] == [0, 0, 1] && [0, 0, 1][1..] == [0, 1] && [0, 1][1..] == [1] && [1][1..] == [];
      assert Sum([1]) == 1 && Sum([0, 1]) == 1 && Sum([0, 0, 1]) == 1;
    }
    HexHead(0, 0, 1);
    assert Hex([255]) == HexPair(255) + Hex([]) by {
      assert [255][1..] == [];
    }
  }

  lemma {:induction false} IncludedPrefix(ws: seq<Write>, i: nat, all: bool)
    requires i < |ws| && (ws[i].always || all)
    ensures ws[i] in Included(ws, all)
    decreases |ws|
  {
    if i < |ws| - 1 {
      IncludedPrefix(ws[..|ws| - 1], i, all);
    }
  }

  // ---- Agreement with the flat binary --------------------------------------------

  // Memory with its gaps filled, as a byte string of length n.
  function Filled(mem: map<nat, byte>, n: nat): (b: bytes)
    ensures |b| == n
  {
    seq(n, k requires 0 <= k < n => if k in mem then mem[k] else ERASED)
  }

  lemma {:induction false} MemoryKeys(ws: seq<Write>, k: nat)
    ensures k in Memory(ws) <==> Covered(ws, k)
  {
    if ws != [] {
      var n := |ws| - 1;
      MemoryKeys(ws[..n], k);
      if Covered(ws[..n], k) {
        var i :| 0 <= i < n && Covers(ws[..n][i], k);
        assert Covers(ws[i], k);
      }
      if Covered(ws, k) && !Covers(ws[n], k) {
        var i :| 0 <= i < |ws| && Covers(ws[i], k);
        assert Covers(ws[..n][i], k);
      }
      assert Covers(ws[n], k) <==> k in MemOf(ws[n].addr, ws[n].data);
    }
  }

  lemma {:induction false} MemoryValue(ws: seq<Write>, i: nat, k: nat)
    requires Ordered(ws) && i < |ws| && Covers(ws[i], k)
    ensures k in Memory(ws) && Memory(ws)[k] == ws[i].data[k - ws[i].addr]
  {
    var n := |ws| - 1;
    if i < n {
      MemoryValue(ws[..n], i, k);
      assert k !in MemOf(ws[n].addr, ws[n].data);
    }
  }

  lemma MemoryAt(ws: seq<Write>, k: nat)
    requires Ordered(ws)
    ensures k in Memory(ws) ==> k < |Image(ws)| && Memory(ws)[k] == Image(ws)[k]
    ensures k !in Memory(ws) && k < |Image(ws)| ==> Image(ws)[k] == ERASED
  {
    MemoryKeys(ws, k);
    if Covered(ws, k) {
      var i :| 0 <= i < |ws| && Covers(ws[i], k);
      MemoryValue(ws, i, k);
      ImageHolds(ws, i);
      SliceAt(Image(ws), ws[i].addr, ws[i].End(), k);
    } else if k < |Image(ws)| {
      ImageErased(ws, k);
    }
  }

  /** The HEX file and the flat binary denote the same memory: decoding one and
      filling its gaps with erased bytes gives the other. */
  lemma HexAgreesWithBinary(ws: seq<Write>)
    requires Ordered(ws) && Below4G(ws)
    ensures Decode(HexText(ws)) == Some(Memory(ws))
    ensures Filled(Memory(ws), |Image(ws)|) == Image(ws)
    ensures forall k :: k in Memory(ws) ==> k < |Image(ws)|
  {
    HexDenotesMemory(ws);
    forall k: nat ensures k in Memory(ws) ==> k < |Image(ws)| && Memory(ws)[k] == Image(ws)[k] {
      MemoryAt(ws, k);
    }
    forall k | 0 <= k < |Image(ws)| ensures Filled(Memory(ws), |Image(ws)|)[k] == Image(ws)[k] {
      MemoryAt(ws, k);
    }
  }
}
