/**
 One changed word in an image printed by scripts/tt_boot_fs.py: when from_binary
 notices it.
 */
module BootFsDamage {
  import opened Bits
  import opened Bytes
  import opened Wrappers
  import opened BootFs
  import opened BootFsParse
  import opened BootFsRoundTrip
  import opened BootFsBuild

  // The image with some bytes from `at` on replaced.
  function Corrupt(data: bytes, at: nat, v: bytes): (r: bytes)
    requires at + |v| <= |data|
    ensures |r| == |data|
  {
    data[..at] + v + data[at + |v|..]
  }

  // A slice that the replaced bytes do not touch stays as it was.
  lemma CorruptKeeps(data: bytes, at: nat, v: bytes, lo: nat, hi: nat)
    requires at + |v| <= |data| && lo <= hi <= |data| && (hi <= at || at + |v| <= lo)
    ensures Corrupt(data, at, v)[lo..hi] == data[lo..hi]
  {
  }

  // Changing one word changes the checksum.
  lemma DamageChangesChecksum(payload: bytes, k: nat, v: bytes)
    requires |payload| >= 4 && OneWord(payload, k, v) && v != payload[4 * k..4 * k + |v|]
    ensures Checksum(payload[..4 * k] + v + payload[4 * k + |v|..]) != Checksum(payload)
  {
    var pre, w, post := payload[..4 * k], payload[4 * k..4 * k + |v|], payload[4 * k + |v|..];
    assert pre + w + post == payload;
    ChecksumDetects(pre, w, v, post);
  }

  // check_entry refuses a payload whose checksum no longer matches.
  lemma WrongChecksumFails(tag: string, e: FsEntry, fd: Fd, data: bytes, alignment: nat)
    requires alignment > 0 && |e.data| < MAX_IMAGE && Describes(fd, e) && !ChecksumExempt(tag)
    requires e.spiAddr + |e.data| <= |data| && Checksum(data[e.spiAddr..e.spiAddr + |e.data|]) != Checksum(e.data)
    ensures CheckEntry(tag, fd, data, alignment).Err?
  {
    SmallMod(|e.data|, MAX_IMAGE);
  }

  lemma CorruptEntryFails(tag: string, e: FsEntry, fd: Fd, data: bytes, alignment: nat, k: nat, v: bytes)
    requires alignment > 0 && 4 <= |e.data| < MAX_IMAGE && Holds(data, e) && Describes(fd, e)
    requires OneWord(e.data, k, v) && v != e.data[4 * k..4 * k + |v|]
    requires !ChecksumExempt(tag)
    ensures CheckEntry(tag, fd, Corrupt(data, e.spiAddr + 4 * k, v), alignment).Err?
  {
    var bad := Corrupt(data, e.spiAddr + 4 * k, v);
    var x := bad[e.spiAddr..e.spiAddr + |e.data|];
    assert Checksum(x) != Checksum(e.data) by {
      CorruptPayload(data, e.spiAddr, e.data, 4 * k, v);
      DamageChangesChecksum(e.data, k, v);
    }
    WrongChecksumFails(tag, e, fd, bad, alignment);
  }

  /** For an aligned printed entry the check refuses the changed word exactly
      when the payload is checksummed: four bytes or more, and not exempt. */
  lemma CorruptEntryExact(tag: string, e: FsEntry, fd: Fd, data: bytes, alignment: nat, k: nat, v: bytes)
    requires alignment > 0 && GoodEntry(e, alignment) && |e.data| < MAX_IMAGE && Describes(fd, e) && Holds(data, e)
    requires |data| >= |e.data| + 4 && OneWord(e.data, k, v) && v != e.data[4 * k..4 * k + |v|]
    ensures CheckEntry(tag, fd, Corrupt(data, e.spiAddr + 4 * k, v), alignment).Err?
       <==> |e.data| >= 4 && !ChecksumExempt(tag)
  {
    if |e.data| >= 4 && !ChecksumExempt(tag) {
      CorruptEntryFails(tag, e, fd, data, alignment, k, v);
    } else {
      assert |e.data| % MAX_IMAGE == |e.data|;
    }
  }

  lemma CorruptPayload(data: bytes, addr: nat, payload: bytes, at: nat, v: bytes)
    requires addr + |payload| <= |data| && data[addr..addr + |payload|] == payload && at + |v| <= |payload|
    ensures Corrupt(data, addr + at, v)[addr..addr + |payload|] == payload[..at] + v + payload[at + |v|..]
  {
    var c := Corrupt(data, addr + at, v);
    var x, y := c[addr..addr + |payload|], payload[..at] + v + payload[at + |v|..];
    assert |x| == |y|;
    forall i | 0 <= i < |x| ensures x[i] == y[i] {
      assert x[i] == c[addr + i];
      assert payload[i] == data[addr + i];
    }
  }

  // v replaces the whole of the k-th 4-byte word of the payload, which is
  // shorter than four bytes only at the end.
  predicate OneWord(payload: bytes, k: nat, v: bytes) {
    4 * k < |payload| && |v| == if 4 * k + 4 <= |payload| then 4 else |payload| - 4 * k
  }

  // ---- What a payload shares with the other writes ------------------------------------------------

  lemma TwoAt(ws: seq<Write>, a: nat, b: nat)
    requires a < b < |ws|
    ensures multiset{ws[a], ws[b]} <= multiset(ws)
  {
    var pre, post := ws[..b], ws[b + 1..];
    assert ws == pre + [ws[b]] + post;
    assert pre[a] in multiset(pre);
    assert multiset(ws) == multiset(pre) + multiset{ws[b]} + multiset(post);
  }

  // Writes that pass the second check are disjoint.
  lemma WritesApart(ws: seq<Write>, a: nat, b: nat)
    requires NoHits(SortByAddr(ws)) && a < |ws| && b < |ws| && a != b && ws[a].data != [] && ws[b].data != []
    ensures ws[a].End() <= ws[b].addr || ws[b].End() <= ws[a].addr
  {
    if a < b {
      TwoAt(ws, a, b);
      PassedApart(ws, ws[a], ws[b]);
    } else {
      TwoAt(ws, b, a);
      PassedApart(ws, ws[b], ws[a]);
    }
  }

  lemma PassedApart(ws: seq<Write>, x: Write, y: Write)
    requires NoHits(SortByAddr(ws)) && multiset{x, y} <= multiset(ws) && x.data != [] && y.data != []
    ensures x.End() <= y.addr || y.End() <= x.addr
  {
    SortByAddrSorts(ws);
    if x.addr < y.End() && y.addr < x.End() {
      OverlapHits(SortByAddr(ws), x, y);
    }
  }

  lemma {:induction false} ImageWritesAt(fs: FileSystem, n: nat, j: nat)
    requires Keyed(fs) && n <= |fs.order|
    ensures |ImageWrites(fs, n)| == 2 * n
    ensures j < n ==>
      var e := fs.entries[fs.order[j]];
      && ImageWrites(fs, n)[2 * j] == Write(true, FD_SIZE * j, Descriptor(e))
      && ImageWrites(fs, n)[2 * j + 1] == Write(!e.provisioningOnly, e.spiAddr, e.data)
  {
    if n > 0 {
      ImageWritesAt(fs, n - 1, j);
    }
  }

  // Where each write is in the list of raw writes.
  lemma RawAt(fs: FileSystem, j: nat)
    requires Keyed(fs)
    ensures var raw, n, f := RawWrites(fs), |fs.order|, fs.entries[FAILOVER];
      && |raw| == 2 * n + 3
      && raw[2 * n] == Write(true, FAILOVER_HEAD_ADDR, Descriptor(f))
      && raw[2 * n + 1] == Write(true, f.spiAddr, f.data)
      && raw[2 * n + 2] == Write(true, SPI_RX_ADDR, Le32(SPI_RX_VALUE))
    ensures j < |fs.order| ==>
      var e := fs.entries[fs.order[j]];
      && RawWrites(fs)[2 * j] == Write(true, FD_SIZE * j, Descriptor(e))
      && RawWrites(fs)[2 * j + 1] == Write(!e.provisioningOnly, e.spiAddr, e.data)
  {
    ImageWritesAt(fs, |fs.order|, j);
  }

  // The bytes from at on, |v| of them, are part of the payload of e.
  predicate Inside(e: FsEntry, at: nat, v: bytes) {
    v != [] && e.spiAddr <= at && at + |v| <= e.spiAddr + |e.data|
  }

  // A change inside one payload leaves every other write in the image.
  lemma KeepsWrite(fs: FileSystem, i: nat, b: nat, at: nat, v: bytes)
    requires Keyed(fs) && NoHits(SortByAddr(RawWrites(fs))) && i < |fs.order| && Inside(fs.entries[fs.order[i]], at, v)
    requires b < |RawWrites(fs)| && b != 2 * i + 1
    ensures at + |v| <= |Printed(fs)| && RawWrites(fs)[b].End() <= |Printed(fs)|
    ensures var x := RawWrites(fs)[b]; Corrupt(Printed(fs), at, v)[x.addr..x.End()] == x.data
  {
    RawAt(fs, i);
    PrintedHolds(fs, RawWrites(fs)[2 * i + 1]);
    PrintedHolds(fs, RawWrites(fs)[b]);
    KeepsOther(RawWrites(fs), Printed(fs), 2 * i + 1, b, at, v);
  }

  lemma KeepsOther(ws: seq<Write>, data: bytes, a: nat, b: nat, at: nat, v: bytes)
    requires NoHits(SortByAddr(ws)) && a < |ws| && b < |ws| && a != b && v != []
    requires ws[a].addr <= at && at + |v| <= ws[a].End() <= |data| && ws[b].End() <= |data|
    requires data[ws[b].addr..ws[b].End()] == ws[b].data
    ensures Corrupt(data, at, v)[ws[b].addr..ws[b].End()] == ws[b].data
  {
    if ws[b].data != [] {
      WritesApart(ws, a, b);
    }
    KeepsBytes(data, ws[a], ws[b], at, v);
  }

  lemma KeepsBytes(data: bytes, w: Write, x: Write, at: nat, v: bytes)
    requires w.addr <= at && at + |v| <= w.End() <= |data| && x.End() <= |data| && data[x.addr..x.End()] == x.data
    requires x.data == [] || w.End() <= x.addr || x.End() <= w.addr
    ensures Corrupt(data, at, v)[x.addr..x.End()] == x.data
  {
    if x.data != [] {
      CorruptKeeps(data, at, v, x.addr, x.End());
    }
  }

  // bad stores fs, apart from the payload of its i-th entry.
  ghost predicate StoresBut(bad: bytes, fs: FileSystem, i: nat) {
    && Tabled(bad, fs) && |fs.order| <= 512
    && |bad| >= SPI_RX_ADDR + 4
    && U32(bad[SPI_RX_ADDR..SPI_RX_ADDR + 4]) == SPI_RX_VALUE
    && Describes(SlotFd(bad, 512), fs.entries[FAILOVER])
    && Holds(bad, fs.entries[FAILOVER]) && Room(bad, fs.entries[FAILOVER])
    && forall j :: 0 <= j < |fs.order| && j != i ==>
         Holds(bad, fs.entries[fs.order[j]]) && Room(bad, fs.entries[fs.order[j]])
  }

  lemma SlotKept(fs: FileSystem, i: nat, j: nat, at: nat, v: bytes)
    requires Keyed(fs) && NoHits(SortByAddr(RawWrites(fs))) && i < |fs.order| && Inside(fs.entries[fs.order[i]], at, v)
    requires j < |fs.order|
    requires fs.entries[fs.order[j]].spiAddr < TWO32 && fs.entries[fs.order[j]].loadAddr < TWO32
    ensures at + |v| <= |Printed(fs)| && FD_SIZE * (j + 1) <= |Printed(fs)|
    ensures Describes(SlotFd(Corrupt(Printed(fs), at, v), j), fs.entries[fs.order[j]])
  {
    RawAt(fs, j);
    KeepsWrite(fs, i, 2 * j, at, v);
    SlotField(Corrupt(Printed(fs), at, v), j, fs.entries[fs.order[j]]);
  }

  lemma PayloadKept(fs: FileSystem, i: nat, j: nat, at: nat, v: bytes)
    requires Keyed(fs) && NoHits(SortByAddr(RawWrites(fs))) && i < |fs.order| && Inside(fs.entries[fs.order[i]], at, v)
    requires j < |fs.order| && j != i
    ensures at + |v| <= |Printed(fs)|
    ensures var bad := Corrupt(Printed(fs), at, v);
      Holds(bad, fs.entries[fs.order[j]]) && Room(bad, fs.entries[fs.order[j]])
  {
    HoldsKept(fs, i, 2 * j + 1, at, v, fs.entries[fs.order[j]]) by {
      RawAt(fs, j);
    }
    EntryRoom(fs, j);
    RoomKept(Printed(fs), at, v, fs.entries[fs.order[j]]);
  }

  lemma RoomKept(data: bytes, at: nat, v: bytes, e: FsEntry)
    requires at + |v| <= |data| && Room(data, e)
    ensures Room(Corrupt(data, at, v), e)
  {
  }

  lemma HoldsKept(fs: FileSystem, i: nat, b: nat, at: nat, v: bytes, e: FsEntry)
    requires Keyed(fs) && NoHits(SortByAddr(RawWrites(fs))) && i < |fs.order| && Inside(fs.entries[fs.order[i]], at, v)
    requires b < |RawWrites(fs)| && b != 2 * i + 1
    requires RawWrites(fs)[b].addr == e.spiAddr && RawWrites(fs)[b].data == e.data
    ensures at + |v| <= |Printed(fs)| && Holds(Corrupt(Printed(fs), at, v), e)
  {
    KeepsWrite(fs, i, b, at, v);
    HoldsWritten(Corrupt(Printed(fs), at, v), RawWrites(fs)[b], e);
  }

  lemma FixedKept(fs: FileSystem, i: nat, at: nat, v: bytes)
    requires Keyed(fs) && NoHits(SortByAddr(RawWrites(fs))) && i < |fs.order| && Inside(fs.entries[fs.order[i]], at, v)
    requires fs.entries[FAILOVER].spiAddr < TWO32 && fs.entries[FAILOVER].loadAddr < TWO32
    ensures at + |v| <= |Printed(fs)| && |Printed(fs)| >= SPI_RX_ADDR + 4
    ensures var bad, f := Corrupt(Printed(fs), at, v), fs.entries[FAILOVER];
      && U32(bad[SPI_RX_ADDR..SPI_RX_ADDR + 4]) == SPI_RX_VALUE
      && Describes(SlotFd(bad, 512), f) && Holds(bad, f) && Room(bad, f)
  {
    var n, f := |fs.order|, fs.entries[FAILOVER];
    RawAt(fs, i);
    KeepsWrite(fs, i, 2 * n, at, v);
    KeepsWrite(fs, i, 2 * n + 1, at, v);
    KeepsWrite(fs, i, 2 * n + 2, at, v);
    U32Le32(SPI_RX_VALUE);
    FailoverRoom(fs);
    var bad := Corrupt(Printed(fs), at, v);
    SlotField(bad, 512, f);
    HoldsWritten(bad, RawWrites(fs)[2 * n + 1], f);
  }

  lemma DamagedStores(fs: FileSystem, alignment: nat, i: nat, at: nat, v: bytes)
    requires alignment > 0 && Printable(fs, alignment) && i < |fs.order| && Inside(fs.entries[fs.order[i]], at, v)
    ensures at + |v| <= |Printed(fs)| && StoresBut(Corrupt(Printed(fs), at, v), fs, i)
  {
    TableLimit(fs);
    FixedKept(fs, i, at, v);
    var bad := Corrupt(Printed(fs), at, v);
    forall j | 0 <= j < |fs.order| ensures Describes(SlotFd(bad, j), fs.entries[fs.order[j]]) {
      SlotKept(fs, i, j, at, v);
    }
    forall j | 0 <= j < |fs.order| && j != i
      ensures Holds(bad, fs.entries[fs.order[j]]) && Room(bad, fs.entries[fs.order[j]])
    {
      PayloadKept(fs, i, j, at, v);
    }
  }

  // ---- What the parser reads behind the table ------------------------------------------------------

  // The descriptors from_binary reads behind a table of n.
  function Behind(data: bytes, n: nat): Result<seq<Fd>> {
    ScanFds(data, FD_SIZE * n)
  }

  lemma {:induction false} ScanPast(data: bytes, n: nat, i: nat)
    requires i <= n && FD_SIZE * n <= |data| && forall j :: 0 <= j < n ==> !SlotFd(data, j).Invalid()
    ensures Behind(data, n).Err? ==> ScanFds(data, FD_SIZE * i).Err?
    ensures Behind(data, n).Ok? ==> ScanFds(data, FD_SIZE * i) == Ok(SlotFds(data, i, n) + Behind(data, n).value)
    decreases n - i
  {
    if i == n {
      assert SlotFds(data, i, n) == [];
      assert Behind(data, n).Ok? ==> [] + Behind(data, n).value == Behind(data, n).value;
    } else {
      assert !SlotFd(data, i).Invalid();
      ScanPast(data, n, i + 1);
      assert FD_SIZE * (i + 1) == FD_SIZE * i + FD_SIZE;
      SlotFdsFirst(data, i, n);
      if Behind(data, n).Ok? {
        ScanStep(data, i, FD_SIZE * i, SlotFds(data, i + 1, n) + Behind(data, n).value);
        assert [SlotFd(data, i)] + (SlotFds(data, i + 1, n) + Behind(data, n).value)
            == ([SlotFd(data, i)] + SlotFds(data, i + 1, n)) + Behind(data, n).value;
      }
    }
  }

  // A later descriptor with the same tag wins.
  lemma {:induction false} FdMapConcat(a: seq<Fd>, b: seq<Fd>)
    ensures FdMap(a + b) == FdMap(a) + FdMap(b)
    decreases |b|
  {
    if b == [] {
      assert a + b == a;
    } else {
      var n := |b| - 1;
      FdMapConcat(a, b[..n]);
      assert (a + b)[..|a + b| - 1] == a + b[..n];
    }
  }

  // Every descriptor that wins passes check_entry.
  ghost predicate AllPass(fds: seq<Fd>, data: bytes, alignment: nat)
    requires alignment > 0
  {
    forall t :: t in FdMap(fds) ==> CheckEntry(t, FdMap(fds)[t], data, alignment).Ok?
  }

  // The descriptors of a that win against b pass.
  ghost predicate RestPass(a: seq<Fd>, b: seq<Fd>, data: bytes, alignment: nat)
    requires alignment > 0
  {
    forall t :: t in FdMap(a) && t !in FdMap(b) ==> CheckEntry(t, FdMap(a)[t], data, alignment).Ok?
  }

  lemma PassSplit(a: seq<Fd>, b: seq<Fd>, data: bytes, alignment: nat)
    requires alignment > 0
    ensures AllPass(a + b, data, alignment) <==> RestPass(a, b, data, alignment) && AllPass(b, data, alignment)
  {
    FdMapConcat(a, b);
    if AllPass(a + b, data, alignment) {
      forall t | t in FdMap(b) ensures CheckEntry(t, FdMap(b)[t], data, alignment).Ok? {
        assert t in FdMap(a + b);
      }
      forall t | t in FdMap(a) && t !in FdMap(b) ensures CheckEntry(t, FdMap(a)[t], data, alignment).Ok? {
        assert t in FdMap(a + b);
      }
    }
  }

  /** The damage goes unnoticed: the descriptors read behind the table of n carry the tag,
      and each of them that wins passes its check. */
  ghost predicate Hidden(bad: bytes, n: nat, tag: string, alignment: nat)
    requires alignment > 0
  {
    && Behind(bad, n).Ok?
    && tag in Tags(Behind(bad, n).value)
    && AllPass(Behind(bad, n).value, bad, alignment)
  }

  lemma ParseExact(data: bytes, alignment: nat, fds: seq<Fd>)
    requires alignment > 0 && ScanFds(data, 0) == Ok(fds) && |data| >= SPI_RX_ADDR + 4
    requires U32(data[SPI_RX_ADDR..SPI_RX_ADDR + 4]) == SPI_RX_VALUE
    ensures Parse(data, alignment).Ok?
       <==> AllPass(fds, data, alignment) && CheckEntry(FAILOVER, SlotFd(data, 512), data, alignment).Ok?
  {
    var m := FdMap(fds);
    CheckAllExact(Tags(fds), m, data, alignment);
    forall t ensures t in m <==> t in Tags(fds) {
      FdMapKeys(fds, t);
    }
    assert CheckAll(Tags(fds), m, data, alignment).Ok? <==> AllPass(fds, data, alignment);
  }

  lemma DamagedTable(fs: FileSystem, alignment: nat, bad: bytes, i: nat)
    requires alignment > 0 && Shaped(fs, alignment) && StoresBut(bad, fs, i)
    ensures Behind(bad, |fs.order|).Err? ==> ScanFds(bad, 0).Err?
    ensures Behind(bad, |fs.order|).Ok?
      ==> ScanFds(bad, 0) == Ok(SlotFds(bad, 0, |fs.order|) + Behind(bad, |fs.order|).value)
    ensures Tags(SlotFds(bad, 0, |fs.order|)) == fs.order
  {
    forall j | 0 <= j < |fs.order| ensures !SlotFd(bad, j).Invalid() {
      assert Describes(SlotFd(bad, j), fs.entries[fs.order[j]]);
    }
    ScanPast(bad, |fs.order|, 0);
    TagsReadBack(fs, alignment, bad);
  }

  // The entries of the table that win pass, and the i-th does not.
  lemma RestExact(fs: FileSystem, alignment: nat, bad: bytes, i: nat, b: seq<Fd>)
    requires alignment > 0 && Shaped(fs, alignment) && StoresBut(bad, fs, i) && i < |fs.order|
    requires CheckEntry(fs.order[i], SlotFd(bad, i), bad, alignment).Err?
    ensures RestPass(SlotFds(bad, 0, |fs.order|), b, bad, alignment) ==> fs.order[i] in FdMap(b)
    ensures SizesFit(fs) && fs.order[i] in FdMap(b) ==> RestPass(SlotFds(bad, 0, |fs.order|), b, bad, alignment)
  {
    var a := SlotFds(bad, 0, |fs.order|);
    LookupSlot(fs, alignment, bad, i);
    if SizesFit(fs) && fs.order[i] in FdMap(b) {
      forall t | t in FdMap(a) && t !in FdMap(b) ensures CheckEntry(t, FdMap(a)[t], bad, alignment).Ok? {
        EntryPasses(fs, alignment, bad, i, t);
      }
    }
  }

  lemma EntryPasses(fs: FileSystem, alignment: nat, bad: bytes, i: nat, t: string)
    requires alignment > 0 && Shaped(fs, alignment) && StoresBut(bad, fs, i) && i < |fs.order|
    requires SizesFit(fs) && t in FdMap(SlotFds(bad, 0, |fs.order|)) && t != fs.order[i]
    ensures CheckEntry(t, FdMap(SlotFds(bad, 0, |fs.order|))[t], bad, alignment).Ok?
  {
    FdMapKeys(SlotFds(bad, 0, |fs.order|), t);
    TagsReadBack(fs, alignment, bad);
    var j :| 0 <= j < |fs.order| && fs.order[j] == t;
    LookupSlot(fs, alignment, bad, j);
    EntryReadsBack(t, fs.entries[t], SlotFd(bad, j), bad, alignment);
  }

  lemma FailoverPasses(fs: FileSystem, alignment: nat, bad: bytes, i: nat)
    requires alignment > 0 && Shaped(fs, alignment) && StoresBut(bad, fs, i) && SizesFit(fs)
    ensures CheckEntry(FAILOVER, SlotFd(bad, 512), bad, alignment).Ok?
  {
    EntryReadsBack(FAILOVER, fs.entries[FAILOVER], SlotFd(bad, 512), bad, alignment);
  }

  lemma DamagedParse(fs: FileSystem, alignment: nat, bad: bytes, i: nat)
    requires alignment > 0 && Shaped(fs, alignment) && StoresBut(bad, fs, i) && i < |fs.order|
    requires CheckEntry(fs.order[i], SlotFd(bad, i), bad, alignment).Err?
    ensures Parse(bad, alignment).Ok? ==> Hidden(bad, |fs.order|, fs.order[i], alignment)
    ensures SizesFit(fs) && Hidden(bad, |fs.order|, fs.order[i], alignment) ==> Parse(bad, alignment).Ok?
  {
    DamagedTable(fs, alignment, bad, i);
    if Behind(bad, |fs.order|).Ok? {
      var a, b := SlotFds(bad, 0, |fs.order|), Behind(bad, |fs.order|).value;
      ParseExact(bad, alignment, a + b);
      PassSplit(a, b, bad, alignment);
      RestExact(fs, alignment, bad, i, b);
      FdMapKeys(b, fs.order[i]);
      if SizesFit(fs) {
        FailoverPasses(fs, alignment, bad, i);
      }
    }
  }

  // ---- One changed word --------------------------------------------------------------------------------

  // The i-th entry of fs has its k-th word replaced by v.
  ghost predicate Damages(fs: FileSystem, i: nat, k: nat, v: bytes)
    requires Keyed(fs)
  {
    && i < |fs.order| && !ChecksumExempt(fs.order[i])
    && var e := fs.entries[fs.order[i]];
       && 4 <= |e.data| < MAX_IMAGE && OneWord(e.data, k, v) && v != e.data[4 * k..4 * k + |v|]
  }

  function DamagedAt(fs: FileSystem, i: nat, k: nat): nat
    requires Keyed(fs) && i < |fs.order|
  {
    fs.entries[fs.order[i]].spiAddr + 4 * k
  }

  // The damaged image stores everything else, and the damaged entry fails its check.
  lemma DamagedEntry(fs: FileSystem, alignment: nat, i: nat, k: nat, v: bytes)
    requires alignment > 0 && Printable(fs, alignment) && Damages(fs, i, k, v)
    ensures DamagedAt(fs, i, k) + |v| <= |Printed(fs)|
    ensures var bad := Corrupt(Printed(fs), DamagedAt(fs, i, k), v);
      && StoresBut(bad, fs, i)
      && CheckEntry(fs.order[i], SlotFd(bad, i), bad, alignment).Err?
  {
    DamagedStores(fs, alignment, i, DamagedAt(fs, i, k), v);
    PrintedEntry(fs, i);
    DamagedCheck(fs, alignment, i, k, v, Printed(fs), Corrupt(Printed(fs), DamagedAt(fs, i, k), v));
  }

  lemma DamagedCheck(fs: FileSystem, alignment: nat, i: nat, k: nat, v: bytes, data: bytes, bad: bytes)
    requires alignment > 0 && Keyed(fs) && Damages(fs, i, k, v) && Holds(data, fs.entries[fs.order[i]])
    requires DamagedAt(fs, i, k) + |v| <= |data| && bad == Corrupt(data, DamagedAt(fs, i, k), v)
    requires StoresBut(bad, fs, i)
    ensures CheckEntry(fs.order[i], SlotFd(bad, i), bad, alignment).Err?
  {
    CorruptEntryFails(fs.order[i], fs.entries[fs.order[i]], SlotFd(bad, i), data, alignment, k, v);
  }

  /** With one word of a checksummed payload of at least four bytes changed, the printed
      image is accepted exactly when the damage is hidden by descriptors behind the table. */
  lemma AcceptedExact(fs: FileSystem, alignment: nat, i: nat, k: nat, v: bytes)
    requires alignment > 0 && Printable(fs, alignment) && SizesFit(fs) && Damages(fs, i, k, v)
    ensures DamagedAt(fs, i, k) + |v| <= |Printed(fs)|
    ensures var bad := Corrupt(Printed(fs), DamagedAt(fs, i, k), v);
      Parse(bad, alignment).Ok? <==> Hidden(bad, |fs.order|, fs.order[i], alignment)
  {
    DamagedEntry(fs, alignment, i, k, v);
    DamagedParse(fs, alignment, Corrupt(Printed(fs), DamagedAt(fs, i, k), v), i);
  }

  // The changed word leaves the flag that ends the table of n alone, or odd.
  predicate KeepsEnd(n: nat, at: nat, v: bytes) {
    at <= EndByte(n) < at + |v| ==> v[EndByte(n) - at] % 2 == 1
  }

  lemma StillEnds(data: bytes, n: nat, at: nat, v: bytes)
    requires FD_SIZE * (n + 1) <= |data| && at + |v| <= |data| && SlotFd(data, n).Invalid() && KeepsEnd(n, at, v)
    ensures Behind(Corrupt(data, at, v), n) == Ok([])
  {
    var bad := Corrupt(data, at, v);
    InvalidFlag(data, n);
    InvalidFlag(bad, n);
    ScanStops(bad, n, FD_SIZE * n);
  }

  /** Changing any one word of a checksummed payload of at least four bytes makes the parser
      reject the printed image, if the word leaves the end of the table in place. */
  lemma CorruptionDetected(fs: FileSystem, alignment: nat, i: nat, k: nat, v: bytes)
    requires alignment > 0 && Printable(fs, alignment) && |fs.order| < 512 && TableEnds(fs) && Damages(fs, i, k, v)
    requires KeepsEnd(|fs.order|, DamagedAt(fs, i, k), v)
    ensures DamagedAt(fs, i, k) + |v| <= |Printed(fs)|
    ensures Parse(Corrupt(Printed(fs), DamagedAt(fs, i, k), v), alignment).Err?
  {
    DamagedEntry(fs, alignment, i, k, v);
    var bad := Corrupt(Printed(fs), DamagedAt(fs, i, k), v);
    PrintedTerminator(fs);
    StillEnds(Printed(fs), |fs.order|, DamagedAt(fs, i, k), v);
    DamagedParse(fs, alignment, bad, i);
  }

  /** If the word removes the end of the table, the image is still rejected unless a
      descriptor read behind the table carries the tag of the damaged entry. */
  lemma RemovedEndDetected(fs: FileSystem, alignment: nat, i: nat, k: nat, v: bytes)
    requires alignment > 0 && Printable(fs, alignment) && Damages(fs, i, k, v)
    ensures DamagedAt(fs, i, k) + |v| <= |Printed(fs)|
    ensures var bad := Corrupt(Printed(fs), DamagedAt(fs, i, k), v);
      Parse(bad, alignment).Ok? ==>
        Behind(bad, |fs.order|).Ok? && fs.order[i] in Tags(Behind(bad, |fs.order|).value)
  {
    DamagedEntry(fs, alignment, i, k, v);
    var bad := Corrupt(Printed(fs), DamagedAt(fs, i, k), v);
    DamagedParse(fs, alignment, bad, i);
  }

  // ---- A change that goes unnoticed -----------------------------------------------------------------

  // A descriptor of an empty image with tag "a", ending the table or not.
  function Mimic(ends: bool): (p: bytes)
    ensures |p| == 32
  {
    seq(32, i => if i == 11 && ends then 1 else if i == 20 then 97 else 0)
  }

  // One image, "a", in the slot behind the table, and a failover image out of its way.
  ghost predicate Mimics(fs: FileSystem) {
    && Keyed(fs) && fs.order == ["a"] && "a" in fs.entries
    && (var e := fs.entries["a"];
        e.tag == "a" && e.data == Mimic(true) && e.spiAddr == 32 && e.loadAddr < TWO32)
    && (var f := fs.entries[FAILOVER];
        f.tag == FAILOVER && |f.data| == 4 && f.spiAddr == 0x5000 && f.loadAddr < TWO32)
  }

  // The extents of the five writes.
  ghost predicate MimicList(ws: seq<Write>) {
    && |ws| == 5
    && ws[0].addr == 0 && |ws[0].data| == 32
    && ws[1].addr == 32 && ws[1].data == Mimic(true)
    && ws[2].addr == FAILOVER_HEAD_ADDR && |ws[2].data| == 32
    && ws[3].addr == 0x5000 && |ws[3].data| == 4
    && ws[4].addr == SPI_RX_ADDR && |ws[4].data| == 4
  }

  lemma MimicWrites(fs: FileSystem)
    requires Mimics(fs)
    ensures MimicList(RawWrites(fs))
  {
    RawAt(fs, 0);
  }

  lemma MimicApart(ws: seq<Write>)
    requires MimicList(ws)
    ensures NoHits(SortByAddr(ws))
  {
    DisjointPasses(ws);
  }

  lemma MimicOdd(ws: seq<Write>)
    requires MimicList(ws)
    ensures OddAt(ws, 43)
  {
    forall w | w in ws && Covers(w, 43) ensures w.data[43 - w.addr] % 2 == 1 {
      assert w == ws[1];
    }
  }

  lemma MimicErased(ws: seq<Write>, k: nat)
    requires MimicList(ws) && 64 <= k < 96
    ensures forall w :: w in ws ==> !Covers(w, k)
  {
  }

  lemma MimicPrintable(fs: FileSystem)
    requires Mimics(fs)
    ensures Printable(fs, 32) && SizesFit(fs) && TableEnds(fs)
  {
    MimicWrites(fs);
    MimicApart(RawWrites(fs));
    MimicOdd(RawWrites(fs));
  }

  lemma MimicSlots(bad: bytes)
    requires 96 <= |bad| && bad[32..64] == Mimic(false) && forall j :: 64 <= j < 96 ==> bad[j] == ERASED
    ensures Behind(bad, 1) == Ok([FdOf(Mimic(false))])
  {
    InvalidFlag(bad, 2);
    ScanStops(bad, 2, 64);
    assert SlotFd(bad, 1) == FdOf(Mimic(false));
    MimicFd();
    ScanStep(bad, 1, 32, []);
    assert [SlotFd(bad, 1)] + [] == [SlotFd(bad, 1)];
  }

  lemma MimicFd()
    ensures var fd := FdOf(Mimic(false));
      !fd.Invalid() && fd.spiAddr == 0 && fd.ImageSize() == 0 && fd.dataCrc == 0 && TagStr(fd.imageTag) == "a"
  {
    var p := Mimic(false);
    assert p[0..4] == [0, 0, 0, 0] && p[8..12] == [0, 0, 0, 0] && p[12..16] == [0, 0, 0, 0];
    assert p[20..28] == [97, 0, 0, 0, 0, 0, 0, 0];
    assert TagStr([97, 0, 0, 0, 0, 0, 0, 0][1..]) == "";
  }

  lemma MimicHides(bad: bytes)
    requires 96 <= |bad| && Behind(bad, 1) == Ok([FdOf(Mimic(false))])
    ensures Hidden(bad, 1, "a", 32)
  {
    var fd := FdOf(Mimic(false));
    MimicFd();
    assert Tags([fd]) == ["a"];
    assert [fd][..0] == [];
    assert FdMap([fd]) == map["a" := fd];
    assert Slice(bad, 0, 0) == [];
  }

  lemma MimicBad(data: bytes)
    requires 96 <= |data| && data[32..64] == Mimic(true) && forall j :: 64 <= j < 96 ==> data[j] == ERASED
    ensures var bad := Corrupt(data, 40, [0, 0, 0, 0]);
      bad[32..64] == Mimic(false) && forall j :: 64 <= j < 96 ==> bad[j] == ERASED
  {
    CorruptPayload(data, 32, Mimic(true), 8, [0, 0, 0, 0]);
    assert Mimic(true)[..8] + [0, 0, 0, 0] + Mimic(true)[12..] == Mimic(false);
  }

  lemma MimicPrinted(fs: FileSystem)
    requires Mimics(fs) && NoHits(SortByAddr(RawWrites(fs)))
    ensures |Printed(fs)| >= 96 && Printed(fs)[32..64] == Mimic(true)
    ensures forall j :: 64 <= j < 96 ==> Printed(fs)[j] == ERASED
  {
    MimicWrites(fs);
    PrintedTraining(fs);
    PrintedHolds(fs, RawWrites(fs)[1]);
    forall j | 64 <= j < 96 ensures Printed(fs)[j] == ERASED {
      MimicErased(RawWrites(fs), j);
      PrintedErased(fs, j);
    }
  }

  lemma MimicDamaged(fs: FileSystem)
    requires Mimics(fs)
    ensures Damages(fs, 0, 2, [0, 0, 0, 0]) && DamagedAt(fs, 0, 2) == 40
  {
    assert Mimic(true)[8..12][3] == 1;
  }

  /** A changed word that is not noticed: the payload lies in the slot behind the table, the
      change removes the end of the table, and the payload is then read as a descriptor with
      the tag of the entry it belongs to. */
  lemma HiddenDamage(fs: FileSystem)
    requires Mimics(fs)
    ensures Printable(fs, 32) && Parse(Printed(fs), 32) == Ok(NormalisedFs(fs))
    ensures Damages(fs, 0, 2, [0, 0, 0, 0]) && DamagedAt(fs, 0, 2) + 4 <= |Printed(fs)|
    ensures Parse(Corrupt(Printed(fs), DamagedAt(fs, 0, 2), [0, 0, 0, 0]), 32).Ok?
  {
    MimicPrintable(fs);
    RoundTripExact(fs, 32);
    MimicPrinted(fs);
    MimicDamaged(fs);
    MimicBad(Printed(fs));
    var bad := Corrupt(Printed(fs), 40, [0, 0, 0, 0]);
    MimicSlots(bad);
    MimicHides(bad);
    AcceptedExact(fs, 32, 0, 2, [0, 0, 0, 0]);
  }

  // Such a file system.
  lemma SomeMimic() returns (fs: FileSystem)
    ensures Mimics(fs)
  {
    var e := FsEntry(false, "a", Mimic(true), 32, 0, false);
    var f := FsEntry(false, FAILOVER, [0, 0, 0, 0], 0x5000, 0, true);
    fs := FileSystem(["a"], map["a" := e, FAILOVER := f]);
  }

  // The failover payload has its k-th word replaced by v.
  ghost predicate DamagesFailover(e: FsEntry, alignment: nat, k: nat, v: bytes)
    requires alignment > 0
  {
    && GoodEntry(e, alignment) && 4 <= |e.data| < MAX_IMAGE
    && OneWord(e.data, k, v) && v != e.data[4 * k..4 * k + |v|]
  }

  ghost predicate ApartFromHead(e: FsEntry) {
    e.spiAddr + |e.data| <= FAILOVER_HEAD_ADDR || e.spiAddr >= FAILOVER_HEAD_ADDR + FD_SIZE
  }

  // What prints does not overlap the failover descriptor.
  lemma FailoverApart(fs: FileSystem)
    requires Keyed(fs) && NoHits(SortByAddr(RawWrites(fs))) && fs.entries[FAILOVER].data != []
    ensures ApartFromHead(fs.entries[FAILOVER])
  {
    RawAt(fs, 0);
    WritesApart(RawWrites(fs), 2 * |fs.order|, 2 * |fs.order| + 1);
  }

  lemma DamagedFailoverFails(data: bytes, e: FsEntry, alignment: nat, k: nat, v: bytes)
    requires alignment > 0 && |data| >= FD_SIZE * 513 && Describes(SlotFd(data, 512), e) && Holds(data, e)
    requires DamagesFailover(e, alignment, k, v) && ApartFromHead(e)
    ensures |data| >= e.spiAddr + 4 * k + |v|
    ensures Parse(Corrupt(data, e.spiAddr + 4 * k, v), alignment).Err?
  {
    var at := e.spiAddr + 4 * k;
    CorruptEntryFails(FAILOVER, e, SlotFd(data, 512), data, alignment, k, v);
    CorruptKeeps(data, at, v, FAILOVER_HEAD_ADDR, FAILOVER_HEAD_ADDR + FD_SIZE);
    BadFailoverFailsParse(Corrupt(data, at, v), alignment);
  }

  /** The same for the failover payload, wherever it lies. */
  lemma FailoverCorruptionDetected(fs: FileSystem, alignment: nat, k: nat, v: bytes)
    requires alignment > 0 && Keyed(fs) && NoHits(SortByAddr(RawWrites(fs)))
    requires DamagesFailover(fs.entries[FAILOVER], alignment, k, v)
    ensures |Printed(fs)| >= fs.entries[FAILOVER].spiAddr + 4 * k + |v|
    ensures Parse(Corrupt(Printed(fs), fs.entries[FAILOVER].spiAddr + 4 * k, v), alignment).Err?
  {
    FailoverStored(fs);
    FailoverApart(fs);
    DamagedFailoverFails(Printed(fs), fs.entries[FAILOVER], alignment, k, v);
  }
}
