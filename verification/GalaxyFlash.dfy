/**
 The Galaxy flasher scripts/galaxy_flash.py over a NOR flash: erasing sets a 4 KiB
 block to 0xFF, programming can only clear bits. Every IPMI command may fail, before
 or after it took effect; what becomes of the k-th command is an arbitrary function of k.
 */
module GalaxyFlash {
  import opened Bits
  import opened Bytes
  import opened Wrappers
  import opened BootFs
  import opened IntelHex
  import opened HexPrinter
  import opened Base16
  import opened BootFsBuild
  import opened BootFsRoundTrip

  // addresses are sent as three bytes
  const SIZE: nat := 0x100_0000
  // SPI_BLOCK_SIZE
  const BLOCK: nat := 4096

  datatype Outcome = Done | ValueError | CommandFailed

  // What becomes of a command: it succeeds, or it fails before or after it took effect.
  datatype Reply = Fine | FailedBefore | FailedAfter

  // ---- Contents as values --------------------------------------------------------------------

  function Overlay(f: bytes, at: nat, data: bytes): (g: bytes)
    requires at + |data| <= |f|
    ensures |g| == |f|
    ensures forall a :: 0 <= a < |f| ==> g[a] == (if at <= a < at + |data| then data[a - at] else f[a])
  {
    f[..at] + data + f[at + |data|..]
  }

  // Programming a byte clears the bits that are 0 in the data.
  function Programmed(cell: byte, data: byte): (c: byte) {
    BitAndBound(cell as nat, data as nat);
    BitAnd(cell as nat, data as nat) as byte
  }

  lemma BitAndBound(x: nat, y: nat)
    ensures BitAnd(x, y) <= y
  {
  }

  lemma ErasedTakesData(data: byte)
    ensures Programmed(255, data) == data
  {
    Pow2Values();
    BitAndCommutes(255, data as nat);
    BitAndLowMask(data as nat, 8);
    SmallMod(data as nat, 256);
  }

  // The contents after data has been programmed at an address.
  function Burned(f: bytes, at: nat, data: bytes): (g: bytes)
    requires at + |data| <= |f|
    ensures |g| == |f|
    ensures forall a :: 0 <= a < |f| ==> g[a] == if at <= a < at + |data| then Programmed(f[a], data[a - at]) else f[a]
  {
    seq(|f|, a requires 0 <= a < |f| => if at <= a < at + |data| then Programmed(f[a], data[a - at]) else f[a])
  }

  lemma BurnedErased(f: bytes, at: nat, data: bytes)
    requires at + |data| <= |f| && f[at..at + |data|] == Erased(|data|)
    ensures Burned(f, at, data) == Overlay(f, at, data)
  {
    forall a | at <= a < at + |data| ensures Programmed(f[a], data[a - at]) == data[a - at] {
      assert f[at..at + |data|][a - at] == 255;
      ErasedTakesData(data[a - at]);
    }
  }

  lemma BitAndCommutes(x: nat, y: nat)
    ensures BitAnd(x, y) == BitAnd(y, x)
  {
  }

  lemma OverlayTwice(f: bytes, at: nat, a: bytes, b: bytes)
    requires at + |a| + |b| <= |f|
    ensures Overlay(Overlay(f, at, a), at + |a|, b) == Overlay(f, at, a + b)
  {
  }

  // Rewriting a block with its own head in front of the data changes only the data's range.
  lemma HeadKept(f: bytes, base: nat, at: nat, data: bytes)
    requires base <= at && at + |data| <= |f|
    ensures Overlay(f, base, f[base..at] + data) == Overlay(f, at, data)
  {
  }

  lemma TailKept(f: bytes, at: nat, data: bytes, end: nat)
    requires at + |data| <= end <= |f|
    ensures Overlay(f, at, data + f[at + |data|..end]) == Overlay(f, at, data)
  {
  }

  ghost predicate SameOutside(f: bytes, g: bytes, lo: nat, hi: nat) {
    |f| == |g| && forall a :: 0 <= a < |f| && !(lo <= a < hi) ==> f[a] == g[a]
  }

  // ---- The device and the script ---------------------------------------------------------------

  class Flash {
    const cells: array<byte>
    const replies: nat -> Reply
    // commands sent so far
    var issued: nat

    constructor (cells: array<byte>, replies: nat -> Reply)
      ensures this.cells == cells && this.replies == replies && issued == 0
    {
      this.cells, this.replies, issued := cells, replies, 0;
    }

    ghost predicate Valid() {
      cells.Length == SIZE
    }

    // All commands sent since there were n succeeded.
    ghost predicate FineSince(n: nat)
      reads this
    {
      n <= issued && forall k :: n <= k < issued ==> replies(k) == Fine
    }

    // The last command failed, and it was the first since there were n.
    ghost predicate FailedSince(n: nat)
      reads this
    {
      n < issued && replies(issued - 1) != Fine && forall k :: n <= k < issued - 1 ==> replies(k) == Fine
    }

    method Send() returns (r: Reply)
      modifies `issued
      ensures issued == old(issued) + 1 && r == replies(old(issued))
    {
      r := replies(issued);
      issued := issued + 1;
    }

    // CMD_ERASE_FLASH
    method Erase(addr: nat) returns (ok: bool)
      requires Valid() && addr % BLOCK == 0 && addr + BLOCK <= SIZE
      modifies `issued, cells
      ensures issued == old(issued) + 1 && ok == (replies(old(issued)) == Fine)
      ensures cells[..] == if replies(old(issued)) == FailedBefore then old(cells[..])
        else Overlay(old(cells[..]), addr, Erased(BLOCK))
    {
      var reply := Send();
      if reply == FailedBefore {
        return false;
      }
      ghost var f := cells[..];
      for i := 0 to BLOCK
        invariant issued == old(issued) + 1
        invariant cells[..] == Overlay(f, addr, Erased(i))
      {
        cells[addr + i] := ERASED;
      }
      ok := reply == Fine;
    }

    // CMD_WRITE_FLASH
    method Program(addr: nat, data: bytes) returns (ok: bool)
      requires Valid() && addr + |data| <= SIZE
      modifies `issued, cells
      ensures issued == old(issued) + 1 && ok == (replies(old(issued)) == Fine)
      ensures cells[..] == if replies(old(issued)) == FailedBefore then old(cells[..])
        else Burned(old(cells[..]), addr, data)
    {
      var reply := Send();
      if reply != FailedBefore {
        Burn(addr, data);
      }
      ok := reply == Fine;
    }

    method Burn(addr: nat, data: bytes)
      requires Valid() && addr + |data| <= SIZE
      modifies cells
      ensures cells[..] == Burned(old(cells[..]), addr, data)
    {
      ghost var f := cells[..];
      for i := 0 to |data|
        invariant forall a :: 0 <= a < SIZE ==>
          cells[a] == if addr <= a < addr + i then Programmed(f[a], data[a - addr]) else f[a]
      {
        cells[addr + i] := Programmed(cells[addr + i], data[i]);
      }
    }

    // CMD_READ_FLASH of 256 bytes
    method Fetch(addr: nat) returns (r: Option<bytes>)
      requires Valid() && addr + 256 <= SIZE
      modifies `issued
      ensures issued == old(issued) + 1
      ensures r == if replies(old(issued)) == Fine then Some(cells[addr..addr + 256]) else None
    {
      var reply := Send();
      if reply == Fine {
        r := Some(cells[addr..addr + 256]);
      } else {
        r := None;
      }
    }

    // read_flash
    method ReadFlash(address: nat, length: nat) returns (r: Result<bytes>)
      requires Valid() && address + (length + 255) / 256 * 256 <= SIZE
      modifies `issued
      ensures address % 256 != 0 ==> r == Err("ValueError") && issued == old(issued)
      ensures r.Ok? <==> address % 256 == 0 && FineSince(old(issued))
      ensures address % 256 == 0 && r.Err? ==> r == Err("RuntimeError") && FailedSince(old(issued))
      ensures r.Ok? ==> r.value == cells[address..address + length]
      ensures r.Ok? ==> issued == old(issued) + (length + 255) / 256
    {
      if address % 256 != 0 {
        return Err("ValueError");
      }
      var data: bytes := [];
      var readLen := length as int;
      while readLen > 0
        invariant |data| == length - readLen && |data| % 256 == 0 && |data| <= (length + 255) / 256 * 256
        invariant data == cells[address..address + |data|]
        invariant FineSince(old(issued)) && issued == old(issued) + |data| / 256
      {
        var chunk := Fetch(address + |data|);
        if chunk.None? {
          return Err("RuntimeError");
        }
        data := data + chunk.value;
        readLen := readLen - 256;
      }
      r := Ok(data[..length]);
    }

    // One chunk of program_flash_block, on a block that held f before it was erased.
    method ProgramChunk(addr: nat, data: bytes, offset: nat, ghost f: bytes) returns (ok: bool)
      requires Valid() && addr + BLOCK <= SIZE == |f| && |data| == BLOCK && offset + 128 <= BLOCK
      requires cells[..] == Overlay(f, addr, data[..offset] + Erased(BLOCK - offset))
      modifies `issued, cells
      ensures issued == old(issued) + 1 && ok == (replies(old(issued)) == Fine)
      ensures SameOutside(f, cells[..], addr, addr + BLOCK)
      ensures ok ==> cells[..] == Overlay(f, addr, data[..offset + 128] + Erased(BLOCK - (offset + 128)))
    {
      ghost var g := cells[..];
      StillErased(f, g, addr, data, offset);
      ok := Program(addr + offset, data[offset..offset + 128]);
      BurnedErased(g, addr + offset, data[offset..offset + 128]);
      ProgramNext(f, g, addr, data, offset);
    }

    // program_flash_block
    method ProgramBlock(addr: nat, data: bytes) returns (r: Outcome)
      requires Valid() && addr % BLOCK == 0 && addr + BLOCK <= SIZE
      modifies `issued, cells
      ensures r == ValueError <==> |data| != BLOCK
      ensures r == ValueError ==> cells[..] == old(cells[..]) && issued == old(issued)
      ensures r == Done <==> |data| == BLOCK && FineSince(old(issued))
      ensures r == CommandFailed <==> |data| == BLOCK && FailedSince(old(issued))
      ensures r == Done ==> cells[..] == Overlay(old(cells[..]), addr, data) && issued == old(issued) + 33
      ensures SameOutside(old(cells[..]), cells[..], addr, addr + BLOCK)
    {
      if |data| != BLOCK {
        return ValueError;
      }
      ghost var f := cells[..];
      var ok := Erase(addr);
      if !ok {
        return CommandFailed;
      }
      var offset := 0;
      for i := 0 to 32
        invariant offset == 128 * i
        invariant FineSince(old(issued)) && issued == old(issued) + 1 + i
        invariant cells[..] == Overlay(f, addr, data[..offset] + Erased(BLOCK - offset))
      {
        ok := ProgramChunk(addr, data, offset, f);
        if !ok {
          return CommandFailed;
        }
        offset := offset + 128;
      }
      assert data[..BLOCK] + Erased(0) == data;
      return Done;
    }

    // The block at base is rewritten with its first bytes kept and data behind them.
    method RewriteHead(base: nat, start: nat, data: bytes) returns (o: Outcome)
      requires Valid() && base % BLOCK == 0 && base % 256 == 0 && base + BLOCK <= SIZE
      requires base <= start && start + |data| <= base + BLOCK
      modifies `issued, cells
      ensures SameOutside(old(cells[..]), cells[..], base, base + BLOCK)
      ensures o == CommandFailed <==> FailedSince(old(issued))
      ensures o == ValueError <==> FineSince(old(issued)) && start + |data| < base + BLOCK
      ensures start + |data| < base + BLOCK ==> o != Done && cells[..] == old(cells[..])
      ensures o == Done ==> FineSince(old(issued))
      ensures o == Done ==> cells[..] == Overlay(old(cells[..]), start, data)
    {
      var flash := ReadFlash(base, BLOCK);
      if flash.Err? {
        return CommandFailed;
      }
      ghost var f := cells[..];
      SliceOfSlice(f, base, base + BLOCK, 0, start - base);
      o := ProgramBlock(base, flash.value[0..start - base] + data);
      if o == Done {
        HeadKept(f, base, start, data);
      }
    }

    // Phase 1 of write_flash: rewrite the block that holds an unaligned start.
    method WriteHead(mem: map<nat, byte>, r: Run) returns (o: Outcome, addr: nat)
      requires Valid() && r.start < r.end <= SIZE && r.start % BLOCK != 0
      modifies `issued, cells
      ensures o == CommandFailed <==> FailedSince(old(issued))
      ensures o == ValueError <==> FineSince(old(issued)) && Short(r)
      ensures o == Done <==> FineSince(old(issued)) && !Short(r)
      ensures Short(r) ==> cells[..] == old(cells[..])
      ensures SameOutside(old(cells[..]), cells[..], Floor(r.start), Ceil(r.end))
      ensures o == Done ==> (
                && addr == Ceil(r.start) <= r.end
                && cells[..] == Overlay(old(cells[..]), r.start, RunBytes(mem, Run(r.start, addr))))
    {
      var boundary := Ceil(r.start);
      var len := if r.end - r.start < boundary - r.start then r.end - r.start else boundary - r.start;
      HeadBounds(r, boundary, len);
      addr := boundary;
      o := RewriteHead(boundary - BLOCK, r.start, RunBytes(mem, Run(r.start, r.start + len)));
    }

    method RewriteTail(addr: nat, data: bytes) returns (o: Outcome)
      requires Valid() && addr % BLOCK == 0 && addr % 256 == 0 && addr + BLOCK <= SIZE && |data| < BLOCK
      modifies `issued, cells
      ensures o != ValueError && (o == CommandFailed <==> FailedSince(old(issued)))
      ensures o == Done <==> FineSince(old(issued))
      ensures SameOutside(old(cells[..]), cells[..], addr, addr + BLOCK)
      ensures o == Done ==> cells[..] == Overlay(old(cells[..]), addr, data)
    {
      var flash := ReadFlash(addr, BLOCK);
      if flash.Err? {
        return CommandFailed;
      }
      ghost var f := cells[..];
      SliceOfSlice(f, addr, addr + BLOCK, |data|, BLOCK);
      o := ProgramBlock(addr, data + flash.value[|data|..BLOCK]);
      if o == Done {
        TailKept(f, addr, data, addr + BLOCK);
      }
    }

    // Phase 3 of write_flash: rewrite the block that holds an unaligned end.
    method WriteTail(mem: map<nat, byte>, addr: nat, end: nat) returns (o: Outcome)
      requires Valid() && addr % BLOCK == 0 && addr < end <= SIZE && end - addr < BLOCK
      modifies `issued, cells
      ensures o != ValueError && (o == CommandFailed <==> FailedSince(old(issued)))
      ensures o == Done <==> FineSince(old(issued))
      ensures SameOutside(old(cells[..]), cells[..], addr, Ceil(end))
      ensures o == Done ==> cells[..] == Overlay(old(cells[..]), addr, RunBytes(mem, Run(addr, end)))
    {
      TailBounds(addr, end);
      o := RewriteTail(addr, RunBytes(mem, Run(addr, end)));
    }

    // Phase 2 of write_flash: whole blocks from an aligned address on.
    method WriteBlocks(mem: map<nat, byte>, from: nat, end: nat) returns (o: Outcome, addr: nat)
      requires Valid() && from % BLOCK == 0 && from <= end <= SIZE
      modifies `issued, cells
      ensures o != ValueError && (o == CommandFailed <==> FailedSince(old(issued)))
      ensures o == Done <==> FineSince(old(issued))
      ensures SameOutside(old(cells[..]), cells[..], from, end)
      ensures o == Done ==> (
                && from <= addr <= end && addr % BLOCK == 0 && end - addr < BLOCK
                && cells[..] == Overlay(old(cells[..]), from, RunBytes(mem, Run(from, addr))))
    {
      ghost var f := cells[..];
      addr := from;
      while addr < end / BLOCK * BLOCK && end - addr >= BLOCK
        invariant from <= addr <= end && addr % BLOCK == 0 && FineSince(old(issued))
        invariant cells[..] == Overlay(f, from, RunBytes(mem, Run(from, addr)))
      {
        var data := RunBytes(mem, Run(addr, addr + BLOCK));
        o := ProgramBlock(addr, data);
        if o != Done {
          return;
        }
        RunJoin(f, mem, from, addr, addr + BLOCK);
        addr := addr + BLOCK;
      }
      LastBlock(addr, end);
      o := Done;
    }

    // write_flash for one segment
    method WriteSegment(mem: map<nat, byte>, r: Run) returns (o: Outcome)
      requires Valid() && r.start < r.end <= SIZE
      modifies `issued, cells
      ensures o == CommandFailed <==> FailedSince(old(issued))
      ensures o == ValueError <==> FineSince(old(issued)) && Short(r)
      ensures o == Done <==> FineSince(old(issued)) && !Short(r)
      ensures Short(r) ==> cells[..] == old(cells[..])
      ensures SameOutside(old(cells[..]), cells[..], Floor(r.start), Ceil(r.end))
      ensures o == Done ==> cells[..] == Overlay(old(cells[..]), r.start, RunBytes(mem, r))
    {
      BlockBounds(r);
      ghost var f := cells[..];
      var addr := r.start;
      if addr % BLOCK != 0 {
        o, addr := WriteHead(mem, r);
        if o != Done {
          return;
        }
      }
      assert cells[..] == Overlay(f, r.start, RunBytes(mem, Run(r.start, addr)));
      o := WriteRest(mem, r, addr, f);
    }

    // Phases 2 and 3, with the segment written up to an aligned address over f.
    method WriteRest(mem: map<nat, byte>, r: Run, from: nat, ghost f: bytes) returns (o: Outcome)
      requires Valid() && r.start <= from <= r.end <= SIZE == |f| && from % BLOCK == 0
      requires cells[..] == Overlay(f, r.start, RunBytes(mem, Run(r.start, from)))
      modifies `issued, cells
      ensures o != ValueError && (o == CommandFailed <==> FailedSince(old(issued)))
      ensures o == Done <==> FineSince(old(issued))
      ensures SameOutside(old(cells[..]), cells[..], from, Ceil(r.end))
      ensures o == Done ==> cells[..] == Overlay(f, r.start, RunBytes(mem, r))
    {
      var addr: nat;
      o, addr := WriteBlocks(mem, from, r.end);
      EndBelowCeil(r.end);
      if o != Done {
        return;
      }
      RunJoin(f, mem, r.start, from, addr);
      if addr < r.end {
        o := WriteTail(mem, addr, r.end);
        if o != Done {
          return;
        }
        RunJoin(f, mem, r.start, addr, r.end);
      }
      assert Run(r.start, r.end) == r;
    }

    // write_flash. done counts the segments fully written.
    method WriteFlash(mem: map<nat, byte>, rs: seq<Run>) returns (o: Outcome, ghost done: nat)
      requires Valid() && MaximalRuns(mem, rs, SIZE)
      modifies `issued, cells
      ensures done <= |rs| && NoneShort(rs[..done])
      ensures o == Done <==> done == |rs|
      ensures o == CommandFailed <==> FailedSince(old(issued))
      ensures o == ValueError <==> FineSince(old(issued)) && !NoneShort(rs)
      ensures o == Done <==> FineSince(old(issued)) && NoneShort(rs)
      ensures done == |rs| || Short(rs[done]) ==> cells[..] == Overlays(old(cells[..]), mem, rs[..done])
      ensures o == ValueError ==> Short(rs[done])
      ensures o == CommandFailed
        ==> SameOutside(Overlays(old(cells[..]), mem, rs[..done]), cells[..], Floor(rs[done].start), Ceil(rs[done].end))
    {
      ghost var f := cells[..];
      var i := 0;
      while i < |rs|
        invariant i <= |rs| && NoneShort(rs[..i]) && FineSince(old(issued))
        invariant cells[..] == Overlays(f, mem, rs[..i])
      {
        OverlaysMore(f, mem, rs, i);
        o := WriteSegment(mem, rs[i]);
        if o != Done {
          return o, i;
        }
        i := i + 1;
      }
      return Done, i;
    }
  }

  predicate NoneShort(rs: seq<Run>) {
    forall i :: 0 <= i < |rs| ==> !Short(rs[i])
  }

  // The contents after the runs of mem have been laid over f, in order.
  function Overlays(f: bytes, mem: map<nat, byte>, rs: seq<Run>): (g: bytes)
    requires forall i :: 0 <= i < |rs| ==> rs[i].start < rs[i].end <= |f|
    ensures |g| == |f|
  {
    if rs == [] then f
    else
      var r := rs[|rs| - 1];
      Overlay(Overlays(f, mem, rs[..|rs| - 1]), r.start, RunBytes(mem, r))
  }

  lemma OverlaysMore(f: bytes, mem: map<nat, byte>, rs: seq<Run>, i: nat)
    requires i < |rs| && forall j :: 0 <= j < |rs| ==> rs[j].start < rs[j].end <= |f|
    ensures Overlays(f, mem, rs[..i + 1]) == Overlay(Overlays(f, mem, rs[..i]), rs[i].start, RunBytes(mem, rs[i]))
    ensures NoneShort(rs[..i + 1]) <==> NoneShort(rs[..i]) && !Short(rs[i])
  {
    assert rs[..i + 1][..i] == rs[..i];
    assert rs[..i + 1] == rs[..i] + [rs[i]];
  }

  lemma OverlayRun(g: bytes, mem: map<nat, byte>, r: Run, a: nat)
    requires r.start < r.end <= |g| && a < |g| && forall k: nat :: r.start <= k < r.end ==> k in mem
    ensures Overlay(g, r.start, RunBytes(mem, r))[a] == if r.start <= a < r.end then mem[a] else g[a]
  {
    if r.start <= a < r.end {
      assert r.start + (a - r.start) == a;
      assert RunBytes(mem, r)[a - r.start] == mem[a];
    }
  }

  lemma {:induction false} OverlaysAt(f: bytes, mem: map<nat, byte>, rs: seq<Run>, a: nat)
    requires forall i :: 0 <= i < |rs| ==> rs[i].start < rs[i].end <= |f|
    requires forall i, k: nat :: 0 <= i < |rs| && rs[i].start <= k < rs[i].end ==> k in mem
    requires a < |f|
    ensures InRuns(rs, a) ==> a in mem && Overlays(f, mem, rs)[a] == mem[a]
    ensures !InRuns(rs, a) ==> Overlays(f, mem, rs)[a] == f[a]
  {
    if rs != [] {
      var m := |rs| - 1;
      var init := rs[..m];
      InRunsLast(rs, a);
      OverlaysAt(f, mem, init, a);
      OverlayRun(Overlays(f, mem, init), mem, rs[m], a);
    }
  }

  /** After a complete write every address of the hex file holds its byte and every
      other address what it held before. */
  lemma FlashedExactly(f: bytes, mem: map<nat, byte>, rs: seq<Run>, a: nat)
    requires |f| == SIZE && MaximalRuns(mem, rs, SIZE) && a < SIZE
    ensures Overlays(f, mem, rs)[a] == if a in mem then mem[a] else f[a]
  {
    OverlaysAt(f, mem, rs, a);
  }

  /** Flashing the hex file of a boot file system onto an erased device gives the
      flat binary of the same file system. */
  lemma FlashedImage(ws: seq<Write>, rs: seq<Run>)
    requires Ordered(ws) && Below4G(ws) && |Image(ws)| <= SIZE && MaximalRuns(Memory(ws), rs, SIZE)
    ensures Overlays(Erased(SIZE), Memory(ws), rs)[..|Image(ws)|] == Image(ws)
  {
    var g := Overlays(Erased(SIZE), Memory(ws), rs)[..|Image(ws)|];
    forall k | 0 <= k < |Image(ws)| ensures g[k] == Image(ws)[k] {
      FlashedExactly(Erased(SIZE), Memory(ws), rs, k);
      MemoryAt(ws, k);
    }
  }

  // ---- Boot file systems are never refused ---------------------------------------------------------

  lemma BeforeRun(mem: map<nat, byte>, rs: seq<Run>, i: nat)
    requires MaximalRuns(mem, rs, SIZE) && i < |rs| && rs[i].start > 0
    ensures rs[i].start in mem && rs[i].start - 1 !in mem
  {
    assert InRuns(rs, rs[i].start);
    forall j | 0 <= j < |rs| ensures !(rs[j].start <= rs[i].start - 1 < rs[j].end) {
      assert j < i ==> rs[j].end < rs[i].start;
      assert i < j ==> rs[i].end < rs[j].start;
    }
  }

  lemma AfterRun(mem: map<nat, byte>, rs: seq<Run>, i: nat)
    requires MaximalRuns(mem, rs, SIZE) && i < |rs| && rs[i].end < SIZE
    ensures rs[i].end !in mem
  {
    forall j | 0 <= j < |rs| ensures !(rs[j].start <= rs[i].end < rs[j].end) {
      assert j < i ==> rs[j].end < rs[i].start;
      assert i < j ==> rs[i].end < rs[j].start;
    }
  }

  // A run starts where one of the writes starts.
  lemma RunStartsAtWrite(ws: seq<Write>, rs: seq<Run>, i: nat) returns (w: Write)
    requires MaximalRuns(Memory(ws), rs, SIZE) && i < |rs|
    ensures w in ws && w.addr == rs[i].start && w.data != []
    ensures rs[i].start > 0 ==> rs[i].start - 1 !in Memory(ws)
  {
    var k := rs[i].start;
    assert InRuns(rs, k);
    MemoryKeys(ws, k);
    var j :| 0 <= j < |ws| && Covers(ws[j], k);
    w := ws[j];
    if k > 0 {
      BeforeRun(Memory(ws), rs, i);
      MemoryKeys(ws, k - 1);
      assert !Covers(ws[j], k - 1);
    }
  }

  // Sorting and selecting keeps every write that is always included ...
  lemma SelectionKeeps(ws: seq<Write>, w: Write, all: bool)
    requires w in ws && w.always
    ensures w in Included(SortByAddr(ws), all)
  {
    SortByAddrSorts(ws);
    assert w in multiset(ws);
    assert w in multiset(SortByAddr(ws));
    var i :| 0 <= i < |SortByAddr(ws)| && SortByAddr(ws)[i] == w;
    IncludedPrefix(SortByAddr(ws), i, all);
  }

  // ... and adds none.
  lemma SelectionAddsNone(ws: seq<Write>, w: Write, all: bool)
    requires w in Included(SortByAddr(ws), all)
    ensures w in ws
  {
    IncludedSubset(SortByAddr(ws), w, all);
    SortByAddrSorts(ws);
    assert w in multiset(SortByAddr(ws));
    assert w in multiset(ws);
  }

  lemma {:induction false} IncludedSubset(ws: seq<Write>, w: Write, all: bool)
    requires w in Included(ws, all)
    ensures w in ws
    decreases |ws|
  {
    var n := |ws| - 1;
    if w != ws[n] {
      IncludedSubset(ws[..n], w, all);
    }
  }

  lemma CoveredIsInMemory(ws: seq<Write>, w: Write, k: nat)
    requires w in ws && Covers(w, k)
    ensures k in Memory(ws)
  {
    var j :| 0 <= j < |ws| && ws[j] == w;
    assert Covers(ws[j], k);
    MemoryKeys(ws, k);
  }

  // A file system whose payloads, the failover image included, start at 4 KiB blocks.
  ghost predicate BlockAligned(fs: FileSystem) {
    ImagesAligned(fs, BLOCK) && fs.entries[FAILOVER].spiAddr % BLOCK == 0
  }

  lemma AlwaysInMemory(ws: seq<Write>, w: Write, all: bool, k: nat)
    requires w in ws && w.always && Covers(w, k)
    ensures k in Memory(Included(SortByAddr(ws), all))
  {
    SelectionKeeps(ws, w, all);
    CoveredIsInMemory(Included(SortByAddr(ws), all), w, k);
  }

  lemma SlotWrite(fs: FileSystem, i: nat) returns (d: Write)
    requires Keyed(fs) && i < |fs.order|
    ensures d in RawWrites(fs) && d.always && d.addr == FD_SIZE * i && d.End() == FD_SIZE * i + FD_SIZE
  {
    EntryWrites(fs, i);
    d := Write(true, FD_SIZE * i, Descriptor(fs.entries[fs.order[i]]));
  }

  lemma TrainingRunIsLong(ws: seq<Write>, rs: seq<Run>, i: nat)
    requires MaximalRuns(Memory(ws), rs, SIZE) && i < |rs| && Training in ws && rs[i].start == SPI_RX_ADDR
    ensures !Short(rs[i])
  {
    var e := rs[i].end;
    if e < SPI_RX_ADDR + 4 {
      AfterRun(Memory(ws), rs, i);
      CoveredIsInMemory(ws, Training, e);
      assert false;
    }
  }

  ghost predicate AtBlock(w: Write) { w.addr % BLOCK == 0 }

  lemma OtherWrites(fs: FileSystem, w: Write)
    requires Keyed(fs) && fs.entries[FAILOVER].spiAddr % BLOCK == 0
    requires w in RawWrites(fs) && w !in ImageWrites(fs, |fs.order|)
    ensures AtBlock(w) || w == Training
  {
    var n := |ImageWrites(fs, |fs.order|)|;
    var i :| 0 <= i < |RawWrites(fs)| && RawWrites(fs)[i] == w;
    assert i >= n;
  }

  lemma ImageWriteStarts(fs: FileSystem, w: Write) returns (k: nat)
    requires ImagesAligned(fs, BLOCK) && w in ImageWrites(fs, |fs.order|)
    ensures AtBlock(w) || (k < |fs.order| && w.addr == FD_SIZE * k)
  {
    ImageWritesOnly(fs, |fs.order|, w);
    k :| 0 <= k < |fs.order| && WrittenFor(fs, k, w);
    assert Payload(fs, k).addr % BLOCK == 0;
  }

  // Every write starts at a block, is a descriptor behind the first, or is the training value.
  lemma WriteStarts(fs: FileSystem, w: Write) returns (k: nat)
    requires BlockAligned(fs) && w in RawWrites(fs)
    ensures AtBlock(w) || w == Training || (0 < k < |fs.order| && w.addr == FD_SIZE * k)
  {
    k := 0;
    if w in ImageWrites(fs, |fs.order|) {
      k := ImageWriteStarts(fs, w);
    } else {
      OtherWrites(fs, w);
    }
  }

  // Another write, always included, ends where w starts.
  ghost predicate Follows(raw: seq<Write>, w: Write) {
    exists d :: d in raw && d.always && d.data != [] && d.End() == w.addr
  }

  ghost predicate StartsWell(raw: seq<Write>, w: Write) {
    AtBlock(w) || w == Training || Follows(raw, w)
  }

  lemma EveryWriteStartsWell(fs: FileSystem, w: Write)
    requires BlockAligned(fs) && w in RawWrites(fs)
    ensures StartsWell(RawWrites(fs), w)
  {
    var k := WriteStarts(fs, w);
    if !AtBlock(w) && w != Training {
      var d := SlotWrite(fs, k - 1);
      assert d.End() == w.addr;
    }
  }

  lemma RunIsNotShort(raw: seq<Write>, all: bool, rs: seq<Run>, i: nat)
    requires i < |rs| && forall w :: w in raw ==> StartsWell(raw, w)
    requires MaximalRuns(Memory(Included(SortByAddr(raw), all)), rs, SIZE)
    ensures !Short(rs[i])
  {
    var w := RunStartsAtWrite(Included(SortByAddr(raw), all), rs, i);
    SelectionAddsNone(raw, w, all);
    assert StartsWell(raw, w);
    if w == Training {
      TrainingRunIsLong(Included(SortByAddr(raw), all), rs, i);
    } else if !AtBlock(w) {
      var d :| d in raw && d.always && d.data != [] && d.End() == w.addr;
      AlwaysInMemory(raw, d, all, w.addr - 1);
    }
  }

  /** A file system with 4 KiB blocks has no short segment, whatever sections are
      included: flashing its HEX file is never refused. */
  lemma NeverRefused(fs: FileSystem, all: bool, rs: seq<Run>)
    requires BlockAligned(fs)
    requires MaximalRuns(Memory(Included(SortByAddr(RawWrites(fs)), all)), rs, SIZE)
    ensures NoneShort(rs)
  {
    var raw := RawWrites(fs);
    forall w | w in raw ensures StartsWell(raw, w) {
      EveryWriteStartsWell(fs, w);
    }
    forall i | 0 <= i < |rs| ensures !Short(rs[i]) {
      RunIsNotShort(raw, all, rs, i);
    }
  }

  /** A write refused at a short segment leaves the earlier segments and nothing else. */
  lemma EarlierSegmentsOnly(f: bytes, mem: map<nat, byte>, rs: seq<Run>, done: nat, a: nat)
    requires |f| == SIZE && MaximalRuns(mem, rs, SIZE) && done < |rs| && a < SIZE
    ensures Overlays(f, mem, rs[..done])[a] == if a in mem && a < rs[done].start then mem[a] else f[a]
  {
    OverlaysAt(f, mem, rs[..done], a);
    if a in mem && a < rs[done].start {
      assert InRuns(rs, a);
      var i :| 0 <= i < |rs| && rs[i].start <= a < rs[i].end;
      assert i < done;
      assert rs[..done][i].start <= a < rs[..done][i].end;
    }
  }

  function Floor(a: nat): nat { a / BLOCK * BLOCK }

  function Ceil(a: nat): nat { (a + 4095) / BLOCK * BLOCK }

  // A segment that starts inside a block and ends before that block does.
  predicate Short(r: Run) {
    r.start % BLOCK != 0 && r.end < Ceil(r.start)
  }

  lemma BlockBounds(r: Run)
    requires r.start < r.end <= SIZE
    ensures Floor(r.start) <= r.start && r.end <= Ceil(r.end) <= SIZE && Ceil(r.start) <= Ceil(r.end)
    ensures Floor(r.start) % BLOCK == 0 && Ceil(r.start) % BLOCK == 0
    ensures r.start % BLOCK != 0 ==> Ceil(r.start) == Floor(r.start) + BLOCK
  {
  }

  lemma EndBelowCeil(a: nat)
    ensures a <= Ceil(a)
  {
  }

  lemma HeadBounds(r: Run, boundary: nat, len: int)
    requires r.start < r.end <= SIZE && r.start % BLOCK != 0 && boundary == Ceil(r.start)
    requires len == if r.end - r.start < boundary - r.start then r.end - r.start else boundary - r.start
    ensures boundary == Floor(r.start) + BLOCK && boundary % BLOCK == 0 && boundary <= SIZE
    ensures Floor(r.start) % BLOCK == 0 && Floor(r.start) % 256 == 0
    ensures Floor(r.start) <= r.start < boundary <= Ceil(r.end)
    ensures 0 < len && r.start + len <= boundary
    ensures if Short(r) then r.start + len < boundary else r.start + len == boundary <= r.end
  {
    BlockBounds(r);
  }

  lemma TailBounds(addr: nat, end: nat)
    requires addr % BLOCK == 0 && addr < end <= SIZE && end - addr < BLOCK
    ensures addr + BLOCK == Ceil(end) <= SIZE
  {
  }

  lemma LastBlock(addr: nat, end: nat)
    requires addr <= end && addr % BLOCK == 0 && !(addr < end / BLOCK * BLOCK && end - addr >= BLOCK)
    ensures end - addr < BLOCK
  {
  }

  lemma RunJoin(f: bytes, mem: map<nat, byte>, a: nat, b: nat, c: nat)
    requires a <= b <= c <= |f|
    ensures Overlay(Overlay(f, a, RunBytes(mem, Run(a, b))), b, RunBytes(mem, Run(b, c)))
      == Overlay(f, a, RunBytes(mem, Run(a, c)))
  {
    OverlayTwice(f, a, RunBytes(mem, Run(a, b)), RunBytes(mem, Run(b, c)));
    assert RunBytes(mem, Run(a, b)) + RunBytes(mem, Run(b, c)) == RunBytes(mem, Run(a, c));
  }

  lemma StillErased(f: bytes, g: bytes, addr: nat, data: bytes, offset: nat)
    requires |data| == BLOCK && addr + BLOCK <= |f| && offset + 128 <= BLOCK
    requires g == Overlay(f, addr, data[..offset] + Erased(BLOCK - offset))
    ensures g[addr + offset..addr + offset + 128] == Erased(128)
  {
    var s := g[addr + offset..addr + offset + 128];
    forall i | 0 <= i < 128 ensures s[i] == ERASED {
      assert s[i] == g[addr + offset + i];
    }
  }

  lemma SliceOfSlice(f: bytes, lo: nat, hi: nat, a: nat, b: nat)
    requires lo <= hi <= |f| && a <= b <= hi - lo
    ensures f[lo..hi][a..b] == f[lo + a..lo + b]
  {
    var s, t := f[lo..hi][a..b], f[lo + a..lo + b];
    forall i | 0 <= i < b - a ensures s[i] == t[i] {
    }
  }

  lemma ProgramNext(f: bytes, g: bytes, addr: nat, data: bytes, offset: nat)
    requires |data| == BLOCK && addr + BLOCK <= |f| && offset + 128 <= BLOCK
    requires g == Overlay(f, addr, data[..offset] + Erased(BLOCK - offset))
    ensures Overlay(g, addr + offset, data[offset..offset + 128])
         == Overlay(f, addr, data[..offset + 128] + Erased(BLOCK - (offset + 128)))
  {
  }
}
