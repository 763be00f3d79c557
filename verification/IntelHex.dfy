/**
 BootFs.to_intel_hex of scripts/tt_boot_fs.py against a decoder written from the
 Intel Hexadecimal Object File Format Specification, Revision A (General Record
 Format, Extended Linear Address Record, Data Record, End of File Record).
 */
module IntelHex {
  import opened Bits
  import opened Bytes
  import opened Wrappers
  import opened BootFs

  // ---- Hexadecimal text ------------------------------------------------------

  function UpperDigit(d: nat): char
    requires d < 16
  {
    "0123456789ABCDEF"[d]
  }

  function LowerDigit(d: nat): char
    requires d < 16
  {
    "0123456789abcdef"[d]
  }

  function Digit(c: char): Option<nat> {
    if '0' <= c <= '9' then Some(c as int - '0' as int)
    else if 'A' <= c <= 'F' then Some(c as int - 'A' as int + 10)
    else if 'a' <= c <= 'f' then Some(c as int - 'a' as int + 10)
    else None
  }

  lemma DigitReadsBack(d: nat)
    requires d < 16
    ensures Digit(UpperDigit(d)) == Some(d) && Digit(LowerDigit(d)) == Some(d)
    ensures UpperDigit(d) != '\n' && LowerDigit(d) != '\n'
    ensures !('a' <= UpperDigit(d) <= 'f')
  {
  }

  function HexPair(b: byte): (s: string)
    ensures |s| == 2
  {
    [UpperDigit(b / 16), UpperDigit(b % 16)]
  }

  function LowerHexPair(b: byte): (s: string)
    ensures |s| == 2
  {
    [LowerDigit(b / 16), LowerDigit(b % 16)]
  }

  function Hex(b: bytes): (s: string)
    ensures |s| == 2 * |b|
  {
    if b == [] then "" else HexPair(b[0]) + Hex(b[1..])
  }

  function LowerHex(b: bytes): (s: string)
    ensures |s| == 2 * |b|
  {
    if b == [] then "" else LowerHexPair(b[0]) + LowerHex(b[1..])
  }

  function ParseHex(s: string): Option<bytes> {
    if s == "" then Some([])
    else if |s| == 1 then None
    else
      match (Digit(s[0]), Digit(s[1]), ParseHex(s[2..]))
      case (Some(h), Some(l), Some(rest)) => Some([ByteOf(h, l)] + rest)
      case _ => None
  }

  function ByteOf(h: nat, l: nat): byte {
    (16 * h + l) % 256
  }

  lemma ByteOfHalves(b: byte)
    ensures ByteOf(b / 16, b % 16) == b
  {
  }

  // The parser takes two digits and goes on.
  lemma PairReadsBack(p: string, b: byte, s: string)
    requires |p| == 2 && Digit(p[0]) == Some(b / 16) && Digit(p[1]) == Some(b % 16)
    ensures ParseHex(p + s) == Prepend([b], ParseHex(s))
  {
    ByteOfHalves(b);
    assert (p + s)[2..] == s && (p + s)[0] == p[0] && (p + s)[1] == p[1];
  }

  lemma PairsReadBack(b: byte, s: string)
    ensures ParseHex(HexPair(b) + s) == Prepend([b], ParseHex(s))
    ensures ParseHex(LowerHexPair(b) + s) == Prepend([b], ParseHex(s))
    ensures '\n' !in HexPair(b) && '\n' !in LowerHexPair(b)
  {
    DigitReadsBack(b / 16);
    DigitReadsBack(b % 16);
    PairReadsBack(HexPair(b), b, s);
    PairReadsBack(LowerHexPair(b), b, s);
  }

  function Prepend(b: bytes, t: Option<bytes>): Option<bytes> {
    match t case Some(v) => Some(b + v) case None => None
  }

  lemma PrependStep(b: bytes, t: Option<bytes>)
    requires b != []
    ensures Prepend([b[0]], Prepend(b[1..], t)) == Prepend(b, t)
  {
    if t.Some? {
      assert [b[0]] + (b[1..] + t.value) == b + t.value;
    }
  }

  lemma PrependNone(t: Option<bytes>)
    ensures Prepend([], t) == t
  {
    if t.Some? {
      assert [] + t.value == t.value;
    }
  }

  lemma {:induction false} HexReadsBack(b: bytes, tail: string)
    ensures ParseHex(Hex(b) + tail) == Prepend(b, ParseHex(tail))
  {
    if b == [] {
      assert Hex(b) + tail == tail;
      PrependNone(ParseHex(tail));
    } else {
      HexReadsBack(b[1..], tail);
      var p, rest := HexPair(b[0]), Hex(b[1..]) + tail;
      PairsReadBack(b[0], rest);
      assert Hex(b) + tail == p + rest;
      PrependStep(b, ParseHex(tail));
    }
  }

  lemma {:induction false} LowerHexReadsBack(b: bytes, tail: string)
    ensures ParseHex(LowerHex(b) + tail) == Prepend(b, ParseHex(tail))
  {
    if b == [] {
      assert LowerHex(b) + tail == tail;
      PrependNone(ParseHex(tail));
    } else {
      LowerHexReadsBack(b[1..], tail);
      var p, rest := LowerHexPair(b[0]), LowerHex(b[1..]) + tail;
      PairsReadBack(b[0], rest);
      assert LowerHex(b) + tail == p + rest;
      PrependStep(b, ParseHex(tail));
    }
  }

  lemma {:induction false} HexHasNoNewline(b: bytes)
    ensures '\n' !in Hex(b) && '\n' !in LowerHex(b)
  {
    if b != [] {
      HexHasNoNewline(b[1..]);
      PairsReadBack(b[0], "");
    }
  }

  // ---- Records ----------------------------------------------------------------

  datatype Record = Data(offset: nat, data: bytes) | ExtLinear(upper: nat) | Eof

  // At most 16 bytes, inside one 64 KiB segment.
  predicate RecordOk(r: Record) {
    match r
    case Data(offset, data) => 1 <= |data| <= 16 && offset + |data| <= 0x1_0000
    case ExtLinear(upper) => upper < 0x1_0000
    case Eof => true
  }

  function Head(n: nat, offset: nat, kind: nat): bytes {
    [n % 256, offset / 256 % 256, offset % 256, kind % 256]
  }

  function Body(r: Record): bytes {
    match r
    case Data(offset, data) => Head(|data|, offset, 0) + data
    case ExtLinear(upper) => Head(2, 0, 4) + [upper / 256 % 256, upper % 256]
    case Eof => Head(0, 0, 1)
  }

  function Sum(b: bytes): nat {
    if b == [] then 0 else b[0] + Sum(b[1..])
  }

  function CheckByte(b: bytes): byte {
    Complement(Sum(b))
  }

  // What brings a sum to a multiple of 256.
  function Complement(sum: int): byte {
    (256 - sum % 256) % 256
  }

  lemma {:induction false} SumConcat(a: bytes, b: bytes)
    ensures Sum(a + b) == Sum(a) + Sum(b)
  {
    if a == [] {
      assert a + b == b;
    } else {
      SumConcat(a[1..], b);
      assert (a + b)[1..] == a[1..] + b;
    }
  }

  /** Every record, checksum included, sums to zero modulo 256. */
  lemma RecordSumsToZero(r: Record)
    ensures Sum(Body(r) + [CheckByte(Body(r))]) % 256 == 0
  {
    SumConcat(Body(r), [CheckByte(Body(r))]);
    assert Sum([CheckByte(Body(r))]) == CheckByte(Body(r)) + Sum([]);
  }

  // The line printed for a record: the segment number in lower case, the rest
  // in upper case.
  function BodyText(r: Record): string {
    if r.ExtLinear? then Hex(Head(2, 0, 4)) + LowerHex([r.upper / 256 % 256, r.upper % 256])
    else Hex(Body(r))
  }

  function Line(r: Record): string {
    ":" + BodyText(r) + Hex([CheckByte(Body(r))])
  }

  // General record format: ':' length offset type data checksum.
  function ParseLine(s: string): Option<Record> {
    if s == "" || s[0] != ':' then None
    else
      match ParseHex(s[1..])
      case None => None
      case Some(b) => ParseRecord(b)
  }

  function ParseRecord(b: bytes): Option<Record> {
    if |b| < 5 || |b| != b[0] as int + 5 || Sum(b) % 256 != 0 then None
    else if b[3] == 0 then Some(Data(256 * (b[1] as int) + b[2], b[4..|b| - 1]))
    else if b[3] == 4 && b[0] == 2 then Some(ExtLinear(256 * (b[4] as int) + b[5]))
    else if b[3] == 1 && b[0] == 0 then Some(Eof)
    else None
  }

  lemma TextReadsBack(r: Record)
    ensures ParseHex(BodyText(r) + Hex([CheckByte(Body(r))])) == Some(Body(r) + [CheckByte(Body(r))])
  {
    var c := [CheckByte(Body(r))];
    HexReadsBack(c, "");
    assert Hex(c) + "" == Hex(c) && c + [] == c;
    if r.ExtLinear? {
      var u: bytes := [r.upper / 256 % 256, r.upper % 256];
      LowerHexReadsBack(u, Hex(c));
      HexReadsBack(Head(2, 0, 4), LowerHex(u) + Hex(c));
      assert BodyText(r) + Hex(c) == Hex(Head(2, 0, 4)) + (LowerHex(u) + Hex(c));
      assert Body(r) + c == Head(2, 0, 4) + (u + c);
    } else {
      HexReadsBack(Body(r), Hex(c));
    }
  }

  lemma BytesReadBack(r: Record)
    requires RecordOk(r)
    ensures ParseRecord(Body(r) + [CheckByte(Body(r))]) == Some(r)
  {
    RecordSumsToZero(r);
    var b := Body(r) + [CheckByte(Body(r))];
    match r {
      case Data(offset, data) =>
        assert b[4..|b| - 1] == data;
        assert 256 * (offset / 256 % 256) + offset % 256 == offset;
      case ExtLinear(upper) =>
        assert b[4] == upper / 256 % 256 && b[5] == upper % 256;
      case Eof =>
    }
  }

  lemma LineIsOneLine(r: Record)
    ensures '\n' !in Line(r)
  {
    HexHasNoNewline([CheckByte(Body(r))]);
    if r.ExtLinear? {
      HexHasNoNewline(Head(2, 0, 4));
      HexHasNoNewline([r.upper / 256 % 256, r.upper % 256]);
    } else {
      HexHasNoNewline(Body(r));
    }
  }

  lemma AfterColon(a: string, b: string)
    ensures var s := ":" + a + b; s != "" && s[0] == ':' && s[1..] == a + b
  {
  }

  lemma ParsedLine(line: string, text: string, b: bytes, r: Record)
    requires line != "" && line[0] == ':' && line[1..] == text && ParseHex(text) == Some(b) && ParseRecord(b) == Some(r)
    ensures ParseLine(line) == Some(r)
  {
  }

  /** A printed record is decoded to itself. */
  lemma LineReadsBack(r: Record)
    requires RecordOk(r)
    ensures ParseLine(Line(r)) == Some(r) && '\n' !in Line(r)
  {
    TextReadsBack(r);
    BytesReadBack(r);
    LineIsOneLine(r);
    var text, check := BodyText(r), Hex([CheckByte(Body(r))]);
    AfterColon(text, check);
    ParsedLine(Line(r), text + check, Body(r) + [CheckByte(Body(r))], r);
  }

  // ---- Files -------------------------------------------------------------------

  function Split(s: string): (lines: seq<string>)
    ensures lines != []
  {
    if s == "" then [""]
    else
      var rest := Split(s[1..]);
      if s[0] == '\n' then [""] + rest else [[s[0]] + rest[0]] + rest[1..]
  }

  lemma {:induction false} SplitLine(a: string, b: string)
    requires '\n' !in a
    ensures Split(a + "\n" + b) == [a] + Split(b)
  {
    var s := a + "\n" + b;
    if a == "" {
      assert s[1..] == b;
    } else {
      SplitLine(a[1..], b);
      assert s[1..] == a[1..] + "\n" + b;
      assert a == [a[0]] + a[1..];
    }
  }

  lemma {:induction false} SplitLast(a: string)
    requires '\n' !in a
    ensures Split(a) == [a]
  {
    if a != "" {
      SplitLast(a[1..]);
      assert a == [a[0]] + a[1..];
    }
  }

  function Join(lines: seq<string>): string {
    if lines == [] then "" else lines[0] + "\n" + Join(lines[1..])
  }

  lemma {:induction false} SplitJoin(lines: seq<string>, last: string)
    requires '\n' !in last && forall i :: 0 <= i < |lines| ==> '\n' !in lines[i]
    ensures Split(Join(lines) + last) == lines + [last]
  {
    if lines == [] {
      SplitLast(last);
      assert Join(lines) + last == last;
    } else {
      var rest := Join(lines[1..]) + last;
      SplitJoin(lines[1..], last);
      SplitLine(lines[0], rest);
      assert Join(lines) + last == lines[0] + "\n" + rest;
      assert lines + [last] == [lines[0]] + (lines[1..] + [last]);
    }
  }

  function Map<A, B>(f: A -> B, s: seq<A>): (t: seq<B>)
    ensures |t| == |s| && forall i :: 0 <= i < |s| ==> t[i] == f(s[i])
  {
    seq(|s|, i requires 0 <= i < |s| => f(s[i]))
  }

  lemma MapConcat<A, B>(f: A -> B, a: seq<A>, b: seq<A>)
    ensures Map(f, a + b) == Map(f, a) + Map(f, b)
  {
  }

  function LinesOf(recs: seq<Record>): (s: seq<string>)
    ensures |s| == |recs|
  {
    Map(Line, recs)
  }

  function ParseLines(lines: seq<string>): Option<seq<Record>> {
    if lines == [] then Some([])
    else
      match (ParseLines(lines[..|lines| - 1]), ParseLine(lines[|lines| - 1]))
      case (Some(recs), Some(r)) => Some(recs + [r])
      case _ => None
  }

  lemma {:induction false} LinesReadBack(lines: seq<string>, recs: seq<Record>)
    requires |lines| == |recs| && forall i :: 0 <= i < |recs| ==> ParseLine(lines[i]) == Some(recs[i])
    ensures ParseLines(lines) == Some(recs)
  {
    if recs != [] {
      var n := |recs| - 1;
      LinesReadBack(lines[..n], recs[..n]);
      assert recs == recs[..n] + [recs[n]];
    }
  }

  lemma FileReadsBack(recs: seq<Record>)
    requires forall i :: 0 <= i < |recs| ==> RecordOk(recs[i])
    ensures ParseLines(Split(Join(LinesOf(recs)) + Line(Eof))) == Some(recs + [Eof])
  {
    var lines := LinesOf(recs);
    forall i | 0 <= i < |recs| ensures ParseLine(lines[i]) == Some(recs[i]) && '\n' !in lines[i] {
      LineReadsBack(recs[i]);
    }
    LineReadsBack(Eof);
    SplitJoin(lines, Line(Eof));
    LinesReadBack(lines + [Line(Eof)], recs + [Eof]);
  }

  // The memory described so far and the current upper linear base address.
  datatype Loader = Loader(base: nat, mem: map<nat, byte>)

  function ByteAt(addr: nat, data: bytes, k: nat): byte
    requires addr <= k < addr + |data|
  {
    data[k - addr]
  }

  function MemOf(addr: nat, data: bytes): map<nat, byte> {
    map k: nat | addr <= k < addr + |data| :: ByteAt(addr, data, k)
  }

  function Load(st: Loader, r: Record): Loader {
    match r
    case Data(offset, data) => st.(mem := st.mem + MemOf(st.base + offset, data))
    case ExtLinear(upper) => st.(base := upper * 0x1_0000)
    case Eof => st
  }

  function LoadAll(st: Loader, recs: seq<Record>): Loader
    decreases |recs|
  {
    if recs == [] then st else LoadAll(Load(st, recs[0]), recs[1..])
  }

  // A whole file: records up to an end-of-file record, which must come last.
  function Decode(text: string): Option<map<nat, byte>> {
    match ParseLines(Split(text))
    case None => None
    case Some(recs) =>
      if recs == [] || !recs[|recs| - 1].Eof? || exists i :: 0 <= i < |recs| - 1 && recs[i].Eof? then None
      else Some(LoadAll(Loader(0, map[]), recs).mem)
  }

  lemma {:induction false} LoadConcat(st: Loader, a: seq<Record>, b: seq<Record>)
    ensures LoadAll(st, a + b) == LoadAll(LoadAll(st, a), b)
    decreases |a|
  {
    if a == [] {
      assert a + b == b;
    } else {
      LoadConcat(Load(st, a[0]), a[1..], b);
      assert (a + b)[1..] == a[1..] + b;
    }
  }

  // ---- The printer -------------------------------------------------------------

  // Upper half of the address printed last; none before the first record.
  type Segment = Option<nat>

  function ChunkSize(addr: nat, n: nat): (k: nat)
    ensures k <= n && k <= 16 && addr % 0x1_0000 + k <= 0x1_0000 && (n > 0 ==> k > 0)
    ensures k == n || k == 16 || addr % 0x1_0000 + k == 0x1_0000
  {
    var room := 0x1_0000 - addr % 0x1_0000;
    var k := if n < 16 then n else 16;
    if k < room then k else room
  }

  function Prefix(seg: Segment, addr: nat): seq<Record> {
    if seg == Some(addr / 0x1_0000) then [] else [ExtLinear(addr / 0x1_0000)]
  }

  function WriteRecords(seg: Segment, addr: nat, data: bytes): seq<Record>
    decreases |data|
  {
    if data == [] then []
    else
      var k := ChunkSize(addr, |data|);
      Prefix(seg, addr) + [Data(addr % 0x1_0000, data[..k])]
      + WriteRecords(Some(addr / 0x1_0000), addr + k, data[k..])
  }

  function LastSegment(seg: Segment, addr: nat, data: bytes): Segment {
    if data == [] then seg else Some((addr + |data| - 1) / 0x1_0000)
  }

  predicate BaseMatches(st: Loader, seg: Segment) {
    seg.Some? ==> st.base == seg.value * 0x1_0000
  }

  lemma JoinMem(m: map<nat, byte>, addr: nat, data: bytes, k: nat)
    requires k <= |data|
    ensures m + MemOf(addr, data[..k]) + MemOf(addr + k, data[k..]) == m + MemOf(addr, data)
  {
  }

  lemma LoadOne(st: Loader, r: Record)
    ensures LoadAll(st, [r]) == Load(st, r)
  {
    assert [r][1..] == [];
  }

  lemma ChunkLoads(st: Loader, seg: Segment, addr: nat, chunk: bytes)
    requires BaseMatches(st, seg)
    ensures LoadAll(st, Prefix(seg, addr) + [Data(addr % 0x1_0000, chunk)])
      == Loader(addr / 0x1_0000 * 0x1_0000, st.mem + MemOf(addr, chunk))
  {
    var d := Data(addr % 0x1_0000, chunk);
    LoadConcat(st, Prefix(seg, addr), [d]);
    var st' := LoadAll(st, Prefix(seg, addr));
    assert st' == Loader(addr / 0x1_0000 * 0x1_0000, st.mem) by {
      if Prefix(seg, addr) != [] {
        LoadOne(st, ExtLinear(addr / 0x1_0000));
      }
    }
    LoadOne(st', d);
    assert addr / 0x1_0000 * 0x1_0000 + addr % 0x1_0000 == addr;
  }

  // The first chunk of a write and the rest of it.
  lemma WriteRecordsStep(st: Loader, seg: Segment, addr: nat, data: bytes)
    requires data != [] && BaseMatches(st, seg)
    ensures var k := ChunkSize(addr, |data|);
      LoadAll(st, WriteRecords(seg, addr, data)) ==
      LoadAll(Loader(addr / 0x1_0000 * 0x1_0000, st.mem + MemOf(addr, data[..k])),
              WriteRecords(Some(addr / 0x1_0000), addr + k, data[k..]))
  {
    var k := ChunkSize(addr, |data|);
    var front := Prefix(seg, addr) + [Data(addr % 0x1_0000, data[..k])];
    var rest := WriteRecords(Some(addr / 0x1_0000), addr + k, data[k..]);
    assert WriteRecords(seg, addr, data) == front + rest;
    ChunkLoads(st, seg, addr, data[..k]);
    LoadConcat(st, front, rest);
  }

  lemma LastSegmentStep(seg: Segment, a: nat, d: bytes)
    requires d != []
    ensures var k := ChunkSize(a, |d|);
      LastSegment(Some(a / 0x1_0000), a + k, d[k..]) == LastSegment(seg, a, d)
  {
    var k := ChunkSize(a, |d|);
    if k == |d| {
      LastInChunk(a, k);
    } else {
      assert a + k + |d[k..]| - 1 == a + |d| - 1;
    }
  }

  /** Loading the records of one write adds exactly that write to the memory. */
  lemma {:induction false} LoadWrite(st: Loader, seg: Segment, addr: nat, data: bytes) returns (end: Loader)
    requires BaseMatches(st, seg)
    ensures end == LoadAll(st, WriteRecords(seg, addr, data))
    ensures end.mem == st.mem + MemOf(addr, data) && BaseMatches(end, LastSegment(seg, addr, data))
    decreases |data|
  {
    if data == [] {
      assert MemOf(addr, data) == map[];
      end := st;
    } else {
      var k := ChunkSize(addr, |data|);
      var st' := Loader(addr / 0x1_0000 * 0x1_0000, st.mem + MemOf(addr, data[..k]));
      WriteRecordsStep(st, seg, addr, data);
      end := LoadWrite(st', Some(addr / 0x1_0000), addr + k, data[k..]);
      JoinMem(st.mem, addr, data, k);
      LastSegmentStep(seg, addr, data);
    }
  }

  lemma WriteLoads(st: Loader, seg: Segment, addr: nat, data: bytes)
    requires BaseMatches(st, seg)
    ensures LoadAll(st, WriteRecords(seg, addr, data)).mem == st.mem + MemOf(addr, data)
    ensures BaseMatches(LoadAll(st, WriteRecords(seg, addr, data)), LastSegment(seg, addr, data))
  {
    var end := LoadWrite(st, seg, addr, data);
  }

  lemma LastInChunk(addr: nat, k: nat)
    requires 0 < k && addr % 0x1_0000 + k <= 0x1_0000
    ensures (addr + k - 1) / 0x1_0000 == addr / 0x1_0000
  {
  }

  lemma {:induction false} WriteRecordsOk(seg: Segment, addr: nat, data: bytes)
    requires data == [] || addr + |data| <= TWO32
    ensures forall i :: 0 <= i < |WriteRecords(seg, addr, data)| ==>
      RecordOk(WriteRecords(seg, addr, data)[i]) && !WriteRecords(seg, addr, data)[i].Eof?
    decreases |data|
  {
    if data != [] {
      var k := ChunkSize(addr, |data|);
      WriteRecordsOk(Some(addr / 0x1_0000), addr + k, data[k..]);
    }
  }

  function AllRecords(ws: seq<Write>): seq<Record> {
    if ws == [] then []
    else AllRecords(ws[..|ws| - 1]) + WriteRecords(SegmentAfter(ws[..|ws| - 1]), ws[|ws| - 1].addr, ws[|ws| - 1].data)
  }

  function SegmentAfter(ws: seq<Write>): Segment {
    if ws == [] then None
    else LastSegment(SegmentAfter(ws[..|ws| - 1]), ws[|ws| - 1].addr, ws[|ws| - 1].data)
  }

  // What a list of writes puts into memory.
  function Memory(ws: seq<Write>): map<nat, byte> {
    if ws == [] then map[]
    else Memory(ws[..|ws| - 1]) + MemOf(ws[|ws| - 1].addr, ws[|ws| - 1].data)
  }

  lemma {:induction false} RecordsLoad(ws: seq<Write>)
    ensures var st := LoadAll(Loader(0, map[]), AllRecords(ws));
      st.mem == Memory(ws) && BaseMatches(st, SegmentAfter(ws))
  {
    if ws != [] {
      var n := |ws| - 1;
      RecordsLoad(ws[..n]);
      var st := LoadAll(Loader(0, map[]), AllRecords(ws[..n]));
      WriteLoads(st, SegmentAfter(ws[..n]), ws[n].addr, ws[n].data);
      LoadConcat(Loader(0, map[]), AllRecords(ws[..n]), WriteRecords(SegmentAfter(ws[..n]), ws[n].addr, ws[n].data));
    }
  }

  predicate Below4G(ws: seq<Write>) {
    forall i :: 0 <= i < |ws| ==> ws[i].data == [] || ws[i].End() <= TWO32
  }

  /** No record crosses a 64 KiB boundary or carries more than 16 bytes. */
  lemma {:induction false} AllRecordsOk(ws: seq<Write>)
    requires Below4G(ws)
    ensures forall i :: 0 <= i < |AllRecords(ws)| ==> RecordOk(AllRecords(ws)[i]) && !AllRecords(ws)[i].Eof?
  {
    if ws != [] {
      var n := |ws| - 1;
      AllRecordsOk(ws[..n]);
      WriteRecordsOk(SegmentAfter(ws[..n]), ws[n].addr, ws[n].data);
    }
  }

  function HexText(ws: seq<Write>): string {
    Join(LinesOf(AllRecords(ws))) + Line(Eof)
  }

  lemma DecodeRecords(text: string, recs: seq<Record>)
    requires ParseLines(Split(text)) == Some(recs + [Eof])
    requires forall i :: 0 <= i < |recs| ==> !recs[i].Eof?
    ensures Decode(text) == Some(LoadAll(Loader(0, map[]), recs).mem)
  {
    LoadConcat(Loader(0, map[]), recs, [Eof]);
    LoadOne(LoadAll(Loader(0, map[]), recs), Eof);
  }

  /** Decoding the printed file by the standard gives back the written memory. */
  lemma HexDenotesMemory(ws: seq<Write>)
    requires Below4G(ws)
    ensures Decode(HexText(ws)) == Some(Memory(ws))
  {
    AllRecordsOk(ws);
    FileReadsBack(AllRecords(ws));
    DecodeRecords(HexText(ws), AllRecords(ws));
    RecordsLoad(ws);
  }
}
