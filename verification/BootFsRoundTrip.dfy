/**
 from_binary(to_binary(True)) for scripts/tt_boot_fs.py: when it returns the
 filesystem it was given.
 */
module BootFsRoundTrip {
  import opened Bits
  import opened Bytes
  import opened Wrappers
  import opened BootFs
  import opened BootFsParse

  // A tag the descriptor stores without loss.
  predicate GoodTag(t: string) {
    |t| <= MAX_TAG_LEN && forall i :: 0 <= i < |t| ==> 0 < t[i] as int < 256
  }

  predicate GoodEntry(e: FsEntry, alignment: nat)
    requires alignment > 0
  {
    e.spiAddr < TWO32 && e.loadAddr < TWO32 && e.spiAddr % alignment == 0
  }

  // Distinct storable tags, aligned payloads, and no entry competing for the failover key.
  ghost predicate Shaped(fs: FileSystem, alignment: nat)
    requires alignment > 0
  {
    && Keyed(fs)
    && (forall i, j :: 0 <= i < j < |fs.order| ==> fs.order[i] != fs.order[j])
    && (forall i :: 0 <= i < |fs.order| ==>
          && GoodTag(fs.order[i]) && fs.order[i] != FAILOVER
          && fs.entries[fs.order[i]].tag == fs.order[i]
          && GoodEntry(fs.entries[fs.order[i]], alignment))
    && GoodEntry(fs.entries[FAILOVER], alignment)
  }

  // writes() accepts it as well.
  ghost predicate Printable(fs: FileSystem, alignment: nat)
    requires alignment > 0
  {
    Shaped(fs, alignment) && TagsFit(fs) && NoHits(SortByAddr(RawWrites(fs)))
  }

  predicate SizesFit(fs: FileSystem)
    requires Keyed(fs)
  {
    && |fs.entries[FAILOVER].data| < MAX_IMAGE
    && forall i :: 0 <= i < |fs.order| ==> |fs.entries[fs.order[i]].data| < MAX_IMAGE
  }

  // What the image does not record: provisioning_only and the failover tag.
  function Normalised(e: FsEntry, tag: string): FsEntry {
    e.(provisioningOnly := false, tag := tag)
  }

  function NormalisedFs(fs: FileSystem): FileSystem
    requires Keyed(fs)
  {
    FileSystem(fs.order,
      NormalisedEntries(fs.order, fs.entries)[FAILOVER := Normalised(fs.entries[FAILOVER], FAILOVER)])
  }

  // to_binary(True)
  function Printed(fs: FileSystem): bytes
    requires Keyed(fs)
  {
    Image(SortByAddr(RawWrites(fs)))
  }

  lemma TagByteAt(t: string, i: nat)
    requires GoodTag(t) && i < MAX_TAG_LEN
    ensures i < |t| ==> TagBytes(t)[i] != 0 && TagBytes(t)[i] as char == t[i]
    ensures i >= |t| ==> TagBytes(t)[i] == 0
  {
    if i < |t| {
      SmallMod(t[i] as int, 256);
    }
  }

  lemma TagStrStep(b: bytes, i: nat)
    requires i < |b|
    ensures TagStr(b[i..]) == if b[i] == 0 then "" else [b[i] as char] + TagStr(b[i + 1..])
  {
    assert b[i..][1..] == b[i + 1..];
  }

  lemma {:induction false} TagSuffix(t: string, i: nat)
    requires GoodTag(t) && i <= MAX_TAG_LEN
    ensures TagStr(TagBytes(t)[i..]) == if i < |t| then t[i..] else ""
    decreases MAX_TAG_LEN - i
  {
    if i < MAX_TAG_LEN {
      TagByteAt(t, i);
      TagStrStep(TagBytes(t), i);
      if i < |t| {
        TagSuffix(t, i + 1);
        assert t[i..] == [t[i]] + t[i + 1..];
      }
    }
  }

  lemma TagRoundTrip(t: string)
    requires GoodTag(t)
    ensures TagStr(TagBytes(t)) == t
  {
    TagSuffix(t, 0);
    assert TagBytes(t)[0..] == TagBytes(t) && t[0..] == t;
  }

  lemma DescriptorFields(e: FsEntry)
    ensures var b := Descriptor(e);
      && b[0..4] == Le32(e.spiAddr) && b[4..8] == Le32(e.loadAddr)
      && b[8..12] == Le32(Flags(e)) && b[12..16] == Le32(Checksum(e.data))
      && b[20..28] == TagBytes(e.tag)
  {
    var h := DescriptorHead(e);
    var b := Descriptor(e);
    assert b[..28] == h;
    assert h[0..4] == Le32(e.spiAddr) && h[4..8] == Le32(e.loadAddr);
    assert h[8..12] == Le32(Flags(e)) && h[12..16] == Le32(Checksum(e.data));
    assert h[20..28] == TagBytes(e.tag);
    assert b[0..4] == h[0..4] && b[4..8] == h[4..8] && b[8..12] == h[8..12];
    assert b[12..16] == h[12..16] && b[20..28] == h[20..28];
  }

  // fd records everything check_entry needs about e.
  ghost predicate Describes(fd: Fd, e: FsEntry) {
    && fd.spiAddr == e.spiAddr && fd.copyDest == e.loadAddr
    && fd.ImageSize() == |e.data| % MAX_IMAGE && !fd.Invalid()
    && fd.Executable() == e.executable
    && fd.dataCrc == Checksum(e.data) && fd.imageTag == TagBytes(e.tag)
  }

  /** A descriptor read back gives the entry's addresses, size, flag and tag. */
  lemma DescriptorReadsBack(e: FsEntry)
    requires e.spiAddr < TWO32 && e.loadAddr < TWO32
    ensures Describes(FdOf(Descriptor(e)), e)
  {
    DescriptorFields(e);
    U32Le32(e.spiAddr);
    U32Le32(e.loadAddr);
    U32Le32(Flags(e));
    U32Le32(Checksum(e.data));
    FlagFields(|e.data|, e.executable);
  }

  lemma FlagFields(n: nat, executable: bool)
    ensures var f := n % MAX_IMAGE + if executable then 0x200_0000 else 0;
      f % MAX_IMAGE == n % MAX_IMAGE && f / MAX_IMAGE % 2 == 0 && (f / 0x200_0000 % 2 == 1 <==> executable)
  {
  }

  lemma {:induction false} ImageWritesHas(fs: FileSystem, n: nat, i: nat)
    requires Keyed(fs) && i < n <= |fs.order|
    ensures var e := fs.entries[fs.order[i]];
      && Write(true, FD_SIZE * i, Descriptor(e)) in ImageWrites(fs, n)
      && Write(!e.provisioningOnly, e.spiAddr, e.data) in ImageWrites(fs, n)
  {
    if i < n - 1 {
      ImageWritesHas(fs, n - 1, i);
    }
  }

  ghost predicate WrittenFor(fs: FileSystem, i: nat, w: Write)
    requires Keyed(fs) && i < |fs.order|
  {
    || w == Write(true, FD_SIZE * i, Descriptor(fs.entries[fs.order[i]]))
    || w.addr == fs.entries[fs.order[i]].spiAddr
  }

  lemma {:induction false} ImageWritesOnly(fs: FileSystem, n: nat, w: Write)
    requires Keyed(fs) && n <= |fs.order| && w in ImageWrites(fs, n)
    ensures exists i :: 0 <= i < n && WrittenFor(fs, i, w)
  {
    var e := fs.entries[fs.order[n - 1]];
    if w == Write(true, FD_SIZE * (n - 1), Descriptor(e)) || w == Write(!e.provisioningOnly, e.spiAddr, e.data) {
      assert WrittenFor(fs, n - 1, w);
    } else {
      ImageWritesOnly(fs, n - 1, w);
    }
  }

  /** Every raw write is found in the image at its address. */
  lemma PrintedHolds(fs: FileSystem, w: Write)
    requires Keyed(fs) && NoHits(SortByAddr(RawWrites(fs))) && w in RawWrites(fs)
    ensures |Printed(fs)| >= w.End() && Printed(fs)[w.addr..w.End()] == w.data
  {
    var ws := SortByAddr(RawWrites(fs));
    SortByAddrSorts(RawWrites(fs));
    RecheckExact(ws);
    assert w in multiset(ws);
    var i :| 0 <= i < |ws| && ws[i] == w;
    ImageHolds(ws, i);
  }

  predicate Holds(data: bytes, e: FsEntry) {
    |data| >= e.spiAddr + |e.data| && data[e.spiAddr..e.spiAddr + |e.data|] == e.data
  }

  // The test of check_entry for four bytes more than the payload.
  predicate Room(data: bytes, e: FsEntry) {
    |data| >= |e.data| + 4
  }

  function SlotFd(data: bytes, i: nat): Fd
    requires FD_SIZE * (i + 1) <= |data|
  {
    FdOf(data[FD_SIZE * i..FD_SIZE * (i + 1)])
  }

  // data is an image from which every descriptor and payload of fs can be read.
  ghost predicate Stores(data: bytes, fs: FileSystem) {
    && Keyed(fs) && |fs.order| <= 512
    && |data| >= SPI_RX_ADDR + 4
    && U32(data[SPI_RX_ADDR..SPI_RX_ADDR + 4]) == SPI_RX_VALUE
    && Describes(SlotFd(data, 512), fs.entries[FAILOVER])
    && Holds(data, fs.entries[FAILOVER]) && Room(data, fs.entries[FAILOVER])
    && forall i :: 0 <= i < |fs.order| ==>
         && Describes(SlotFd(data, i), fs.entries[fs.order[i]])
         && Holds(data, fs.entries[fs.order[i]]) && Room(data, fs.entries[fs.order[i]])
  }

  lemma EntryWrites(fs: FileSystem, i: nat)
    requires Keyed(fs) && i < |fs.order|
    ensures var e := fs.entries[fs.order[i]];
      && Write(true, FD_SIZE * i, Descriptor(e)) in RawWrites(fs)
      && Write(!e.provisioningOnly, e.spiAddr, e.data) in RawWrites(fs)
  {
    ImageWritesHas(fs, |fs.order|, i);
  }

  lemma SlotField(data: bytes, i: nat, e: FsEntry)
    requires e.spiAddr < TWO32 && e.loadAddr < TWO32 && FD_SIZE * (i + 1) <= |data|
    requires data[FD_SIZE * i..FD_SIZE * i + FD_SIZE] == Descriptor(e)
    ensures Describes(SlotFd(data, i), e)
  {
    DescriptorReadsBack(e);
    assert FD_SIZE * i + FD_SIZE == FD_SIZE * (i + 1);
  }

  lemma PrintedSlot(fs: FileSystem, i: nat, e: FsEntry)
    requires Keyed(fs) && NoHits(SortByAddr(RawWrites(fs))) && Write(true, FD_SIZE * i, Descriptor(e)) in RawWrites(fs)
    requires e.spiAddr < TWO32 && e.loadAddr < TWO32
    ensures FD_SIZE * (i + 1) <= |Printed(fs)| && Describes(SlotFd(Printed(fs), i), e)
  {
    PrintedHolds(fs, Write(true, FD_SIZE * i, Descriptor(e)));
    assert FD_SIZE * (i + 1) == FD_SIZE * i + FD_SIZE;
    SlotField(Printed(fs), i, e);
  }

  lemma PrintedEntry(fs: FileSystem, i: nat)
    requires Keyed(fs) && NoHits(SortByAddr(RawWrites(fs))) && i < |fs.order|
    requires var e := fs.entries[fs.order[i]]; e.spiAddr < TWO32 && e.loadAddr < TWO32
    ensures FD_SIZE * (i + 1) <= |Printed(fs)|
    ensures var e := fs.entries[fs.order[i]];
      Describes(SlotFd(Printed(fs), i), e) && Holds(Printed(fs), e)
  {
    var e := fs.entries[fs.order[i]];
    EntryWrites(fs, i);
    PrintedSlot(fs, i, e);
    PrintedPayload(fs, Write(!e.provisioningOnly, e.spiAddr, e.data), e);
  }

  lemma FixedWrites(fs: FileSystem)
    requires Keyed(fs)
    ensures var f := fs.entries[FAILOVER];
      && Write(true, FAILOVER_HEAD_ADDR, Descriptor(f)) in RawWrites(fs)
      && Write(true, f.spiAddr, f.data) in RawWrites(fs)
      && Write(true, SPI_RX_ADDR, Le32(SPI_RX_VALUE)) in RawWrites(fs)
  {
    var raw, n := RawWrites(fs), |ImageWrites(fs, |fs.order|)|;
    var f := fs.entries[FAILOVER];
    assert raw[n] == Write(true, FAILOVER_HEAD_ADDR, Descriptor(f));
    assert raw[n + 1] == Write(true, f.spiAddr, f.data);
    assert raw[n + 2] == Write(true, SPI_RX_ADDR, Le32(SPI_RX_VALUE));
  }

  lemma PrintedFailoverSlot(fs: FileSystem)
    requires Keyed(fs) && NoHits(SortByAddr(RawWrites(fs)))
    requires var f := fs.entries[FAILOVER]; f.spiAddr < TWO32 && f.loadAddr < TWO32
    ensures |Printed(fs)| >= FD_SIZE * 513 && Describes(SlotFd(Printed(fs), 512), fs.entries[FAILOVER])
  {
    var f := fs.entries[FAILOVER];
    FixedWrites(fs);
    PrintedHolds(fs, Write(true, FAILOVER_HEAD_ADDR, Descriptor(f)));
    SlotField(Printed(fs), 512, f);
  }

  // The slot at address a describes e byte by byte: the word fields with a security word
  // of 0, a flag byte of 2 for an executable, the tag, and last the checksum of the slot
  // with that field zeroed.
  ghost predicate Laid(data: bytes, a: nat, e: FsEntry) {
    a + 32 <= |data| && WordsLaid(data, a, e) && FlagsLaid(data, a, e) && TagLaid(data, a, e) && Sealed(data, a)
  }

  ghost predicate WordsLaid(data: bytes, a: nat, e: FsEntry)
    requires a + 32 <= |data|
  {
    && WordAt(data, a) == e.spiAddr % TWO32 && WordAt(data, a + 4) == e.loadAddr % TWO32
    && WordAt(data, a + 12) == Checksum(e.data) && WordAt(data, a + 16) == 0
  }

  ghost predicate FlagsLaid(data: bytes, a: nat, e: FsEntry)
    requires a + 32 <= |data|
  {
    SizeAt(data, a) == |e.data| % 0x100_0000 && data[a + 11] == if e.executable then 2 else 0
  }

  ghost predicate TagLaid(data: bytes, a: nat, e: FsEntry)
    requires a + 32 <= |data|
  {
    forall i :: 0 <= i < 8 ==> data[a + 20 + i] == if i < |e.tag| then e.tag[i] as int % 256 else 0
  }

  ghost predicate Sealed(data: bytes, a: nat)
    requires a + 32 <= |data|
  {
    WordAt(data, a + 28) == Checksum(data[a..a + 28] + [0, 0, 0, 0])
  }

  lemma WordReads(data: bytes, a: nat, x: nat)
    requires a + 4 <= |data| && data[a..a + 4] == Le32(x)
    ensures WordAt(data, a) == x % TWO32
  {
    var b := data[a..a + 4];
    assert b[0] == data[a] && b[1] == data[a + 1] && b[2] == data[a + 2] && b[3] == data[a + 3];
    U32Le32(x % TWO32);
    Le32Wraps(x);
  }

  lemma ByteWraps(q: nat, r: nat, k: nat, m: nat)
    requires k > 0
    ensures (k * (256 * (m * q)) + r) / k % 256 == r / k % 256
  {
    var n := m * q;
    DivModUnique(k * (256 * n) + r, k, 256 * n + r / k, r % k);
    DivModUnique(256 * n + r / k, 256, n + r / k / 256, r / k % 256);
  }

  lemma Le32Wraps(x: nat)
    ensures Le32(x) == Le32(x % TWO32)
  {
    var q, r := x / TWO32, x % TWO32;
    ByteWraps(q, r, 1, 0x100_0000);
    ByteWraps(q, r, 0x100, 0x1_0000);
    ByteWraps(q, r, 0x1_0000, 0x100);
    ByteWraps(q, r, 0x100_0000, 1);
  }

  lemma Within(data: bytes, a: nat, b: bytes, i: nat, j: nat)
    requires i <= j <= |b| && a + |b| <= |data| && data[a..a + |b|] == b
    ensures data[a + i..a + j] == b[i..j]
  {
    forall k | 0 <= k < j - i ensures data[a + i..a + j][k] == b[i..j][k] {
      assert data[a..a + |b|][i + k] == data[a + i + k];
    }
  }

  // The two parts of the flag word: the size in three bytes, then the flag byte.
  lemma FlagBytes(data: bytes, a: nat, e: FsEntry)
    requires a + 32 <= |data| && data[a + 8..a + 12] == Le32(Flags(e))
    ensures FlagsLaid(data, a, e)
  {
    WordReads(data, a + 8, Flags(e));
    var x, d := SizeAt(data, a), data[a + 11] as int;
    assert x + 0x100_0000 * d == Flags(e);
    assert x == (x + 0x100_0000 * d) % 0x100_0000;
  }

  lemma WordFields(data: bytes, a: nat, e: FsEntry)
    requires a + 32 <= |data|
    requires data[a..a + 4] == Le32(e.spiAddr) && data[a + 4..a + 8] == Le32(e.loadAddr)
    requires data[a + 12..a + 16] == Le32(Checksum(e.data)) && data[a + 16..a + 20] == Le32(0)
    ensures WordsLaid(data, a, e)
  {
    WordReads(data, a, e.spiAddr);
    WordReads(data, a + 4, e.loadAddr);
    WordReads(data, a + 12, Checksum(e.data));
    WordReads(data, a + 16, 0);
  }

  lemma TagField(data: bytes, a: nat, e: FsEntry)
    requires a + 32 <= |data| && data[a + 20..a + 28] == TagBytes(e.tag)
    ensures TagLaid(data, a, e)
  {
    forall i | 0 <= i < 8 ensures data[a + 20 + i] == TagBytes(e.tag)[i] {
      assert data[a + 20 + i] == data[a + 20..a + 28][i];
    }
  }

  lemma SlotLaid(data: bytes, a: nat, e: FsEntry)
    requires a + 32 <= |data| && data[a..a + 32] == Descriptor(e)
    ensures Laid(data, a, e)
  {
    SlotFields(data, a, e);
    WordFields(data, a, e);
    FlagBytes(data, a, e);
    TagField(data, a, e);
    SealReads(data, a, DescriptorHead(e));
  }

  lemma SlotFields(data: bytes, a: nat, e: FsEntry)
    requires a + 32 <= |data| && data[a..a + 32] == Descriptor(e)
    ensures data[a..a + 28] == DescriptorHead(e)
    ensures data[a..a + 4] == Le32(e.spiAddr) && data[a + 4..a + 8] == Le32(e.loadAddr)
    ensures data[a + 8..a + 12] == Le32(Flags(e)) && data[a + 12..a + 16] == Le32(Checksum(e.data))
    ensures data[a + 16..a + 20] == Le32(0) && data[a + 20..a + 28] == TagBytes(e.tag)
  {
    var b, h := Descriptor(e), DescriptorHead(e);
    DescriptorFields(e);
    assert b[0..28] == h && b[16..20] == h[16..20] == Le32(0);
    Within(data, a, b, 0, 28);
    Within(data, a, b, 0, 4);
    Within(data, a, b, 4, 8);
    Within(data, a, b, 8, 12);
    Within(data, a, b, 12, 16);
    Within(data, a, b, 16, 20);
    Within(data, a, b, 20, 28);
  }

  lemma SealReads(data: bytes, a: nat, h: bytes)
    requires a + 32 <= |data| && |h| == 28 && data[a..a + 28] == h
    requires data[a..a + 32] == h + Le32(Checksum(h + Le32(0)))
    ensures Sealed(data, a)
  {
    assert data[a + 28..a + 32] == data[a..a + 32][28..];
    assert Le32(0) == [0, 0, 0, 0];
    WordReads(data, a + 28, Checksum(h + Le32(0)));
  }

  /** Every slot of a printed image describes its entry byte by byte, its own checksum
      included, and so does the failover slot. */
  lemma PrintedLayout(fs: FileSystem)
    requires Keyed(fs) && NoHits(SortByAddr(RawWrites(fs)))
    ensures forall i :: 0 <= i < |fs.order| ==> Laid(Printed(fs), 32 * i, fs.entries[fs.order[i]])
    ensures Laid(Printed(fs), 0x4000, fs.entries[FAILOVER])
  {
    forall i | 0 <= i < |fs.order| ensures Laid(Printed(fs), 32 * i, fs.entries[fs.order[i]]) {
      EntryWrites(fs, i);
      PrintedHolds(fs, Write(true, FD_SIZE * i, Descriptor(fs.entries[fs.order[i]])));
      SlotLaid(Printed(fs), 32 * i, fs.entries[fs.order[i]]);
    }
    FixedWrites(fs);
    PrintedHolds(fs, Write(true, FAILOVER_HEAD_ADDR, Descriptor(fs.entries[FAILOVER])));
    SlotLaid(Printed(fs), 0x4000, fs.entries[FAILOVER]);
  }

  lemma PrintedFailoverPayload(fs: FileSystem)
    requires Keyed(fs) && NoHits(SortByAddr(RawWrites(fs)))
    ensures Holds(Printed(fs), fs.entries[FAILOVER])
  {
    var f := fs.entries[FAILOVER];
    FixedWrites(fs);
    PrintedPayload(fs, Write(true, f.spiAddr, f.data), f);
  }

  lemma PrintedPayload(fs: FileSystem, w: Write, e: FsEntry)
    requires Keyed(fs) && NoHits(SortByAddr(RawWrites(fs))) && w in RawWrites(fs)
    requires w.addr == e.spiAddr && w.data == e.data
    ensures Holds(Printed(fs), e)
  {
    PrintedHolds(fs, w);
    HoldsWritten(Printed(fs), w, e);
  }

  lemma HoldsWritten(b: bytes, w: Write, e: FsEntry)
    requires |b| >= w.End() && b[w.addr..w.End()] == w.data && w.addr == e.spiAddr && w.data == e.data
    ensures Holds(b, e)
  {
  }

  lemma PrintedTraining(fs: FileSystem)
    requires Keyed(fs) && NoHits(SortByAddr(RawWrites(fs)))
    ensures |Printed(fs)| >= SPI_RX_ADDR + 4
    ensures U32(Printed(fs)[SPI_RX_ADDR..SPI_RX_ADDR + 4]) == SPI_RX_VALUE
  {
    FixedWrites(fs);
    PrintedHolds(fs, Write(true, SPI_RX_ADDR, Le32(SPI_RX_VALUE)));
    U32Le32(SPI_RX_VALUE);
  }

  // Where no write is, the image is erased.
  lemma PrintedErased(fs: FileSystem, k: nat)
    requires Keyed(fs) && NoHits(SortByAddr(RawWrites(fs))) && k < |Printed(fs)|
    requires forall w :: w in RawWrites(fs) ==> !Covers(w, k)
    ensures Printed(fs)[k] == ERASED
  {
    var raw := RawWrites(fs);
    var ws := SortByAddr(raw);
    SortByAddrSorts(raw);
    RecheckExact(ws);
    forall i | 0 <= i < |ws| ensures !Covers(ws[i], k) {
      assert ws[i] in multiset(ws) && ws[i] in multiset(raw);
    }
    ImageErased(ws, k);
  }

  lemma PrintedByte(fs: FileSystem, w: Write, k: nat)
    requires Keyed(fs) && NoHits(SortByAddr(RawWrites(fs))) && w in RawWrites(fs) && Covers(w, k)
    ensures k < |Printed(fs)| && Printed(fs)[k] == w.data[k - w.addr]
  {
    PrintedHolds(fs, w);
    HeldByte(Printed(fs), w, k);
  }

  lemma HeldByte(b: bytes, w: Write, k: nat)
    requires |b| >= w.End() && b[w.addr..w.End()] == w.data && Covers(w, k)
    ensures b[k] == w.data[k - w.addr]
  {
    SliceAt(b, w.addr, w.End(), k);
  }

  // The byte with the invalid flag of the slot behind the table of n descriptors.
  function EndByte(n: nat): nat {
    FD_SIZE * n + 11
  }

  // Whatever is written to address k is odd.
  ghost predicate OddAt(ws: seq<Write>, k: nat) {
    forall w :: w in ws && Covers(w, k) ==> w.data[k - w.addr] % 2 == 1
  }

  // Nothing hides the end of the table.
  ghost predicate TableEnds(fs: FileSystem)
    requires Keyed(fs)
  {
    OddAt(RawWrites(fs), EndByte(|fs.order|))
  }

  lemma OddByte(ws: seq<Write>, k: nat, b: byte)
    requires forall w :: w in ws && Covers(w, k) ==> w.data[k - w.addr] == b
    requires (forall w :: w in ws ==> !Covers(w, k)) ==> b == ERASED
    ensures b % 2 == 1 <==> OddAt(ws, k)
  {
  }

  lemma InvalidFlag(data: bytes, n: nat)
    requires FD_SIZE * (n + 1) <= |data|
    ensures SlotFd(data, n).Invalid() <==> data[EndByte(n)] % 2 == 1
  {
    var slot := data[FD_SIZE * n..FD_SIZE * (n + 1)];
    assert slot[8..12] == [slot[8], slot[9], slot[10], slot[11]];
    assert slot[11] == data[EndByte(n)];
    FlagByte(slot[8], slot[9], slot[10], slot[11]);
  }

  lemma FlagByte(a: byte, b: byte, c: byte, d: byte)
    ensures U32([a, b, c, d]) / MAX_IMAGE % 2 == d % 2
  {
    var low := a + 0x100 * b + 0x1_0000 * c;
    assert U32([a, b, c, d]) == low + MAX_IMAGE * d && 0 <= low < MAX_IMAGE;
  }

  /** The slot behind the table ends it exactly when nothing, or an odd value, is written
      to the byte with its invalid flag. */
  lemma PrintedTerminator(fs: FileSystem)
    requires Keyed(fs) && NoHits(SortByAddr(RawWrites(fs))) && |fs.order| < 512
    ensures |Printed(fs)| >= FD_SIZE * (|fs.order| + 1)
    ensures SlotFd(Printed(fs), |fs.order|).Invalid() <==> TableEnds(fs)
  {
    var k := EndByte(|fs.order|);
    PrintedTraining(fs);
    InvalidFlag(Printed(fs), |fs.order|);
    forall w | w in RawWrites(fs) && Covers(w, k) ensures Printed(fs)[k] == w.data[k - w.addr] {
      PrintedByte(fs, w, k);
    }
    if forall w :: w in RawWrites(fs) ==> !Covers(w, k) {
      PrintedErased(fs, k);
    }
    OddByte(RawWrites(fs), k, Printed(fs)[k]);
  }

  function Without(ws: seq<Write>, i: nat): seq<Write>
    requires i < |ws|
  {
    ws[..i] + ws[i + 1..]
  }

  lemma WithoutAt(ws: seq<Write>, i: nat, k: nat)
    requires i < |ws| && k < |ws| - 1
    ensures Without(ws, i)[k] == ws[if k < i then k else k + 1]
  {
  }

  lemma WithoutOne(ws: seq<Write>, i: nat)
    requires i < |ws|
    ensures multiset(ws) == multiset(Without(ws, i)) + multiset{ws[i]}
  {
    assert ws == ws[..i] + [ws[i]] + ws[i + 1..];
  }

  lemma TwoIndices(ws: seq<Write>, a: Write, b: Write) returns (i: nat, j: nat)
    requires multiset{a, b} <= multiset(ws)
    ensures i < |ws| && j < |ws| && i != j && ws[i] == a && ws[j] == b
  {
    assert a in multiset(ws);
    i :| 0 <= i < |ws| && ws[i] == a;
    WithoutOne(ws, i);
    assert b in multiset(Without(ws, i));
    var k :| 0 <= k < |ws| - 1 && Without(ws, i)[k] == b;
    WithoutAt(ws, i, k);
    j := if k < i then k else k + 1;
  }

  lemma BothWritten(fs: FileSystem)
    requires Keyed(fs) && |fs.order| > 512
    ensures multiset{Write(true, FD_SIZE * 512, Descriptor(fs.entries[fs.order[512]])),
                     Write(true, FAILOVER_HEAD_ADDR, Descriptor(fs.entries[FAILOVER]))} <= multiset(RawWrites(fs))
  {
    var f := fs.entries[FAILOVER];
    var pre := ImageWrites(fs, |fs.order|);
    ImageWritesHas(fs, |fs.order|, 512);
    var a := Write(true, FD_SIZE * 512, Descriptor(fs.entries[fs.order[512]]));
    var b := Write(true, FAILOVER_HEAD_ADDR, Descriptor(f));
    var post := [Write(true, f.spiAddr, f.data), Write(true, SPI_RX_ADDR, Le32(SPI_RX_VALUE))];
    assert RawWrites(fs) == pre + [b] + post;
    assert a in multiset(pre);
  }

  /** At most 512 descriptors fit below the failover descriptor. */
  lemma TableLimit(fs: FileSystem)
    requires Keyed(fs) && NoHits(SortByAddr(RawWrites(fs)))
    ensures |fs.order| <= 512
  {
    if |fs.order| > 512 {
      BothWritten(fs);
      SortByAddrSorts(RawWrites(fs));
      OverlapHits(SortByAddr(RawWrites(fs)),
        Write(true, FD_SIZE * 512, Descriptor(fs.entries[fs.order[512]])),
        Write(true, FAILOVER_HEAD_ADDR, Descriptor(fs.entries[FAILOVER])));
    }
  }

  // Two non-empty writes that overlap are noticed.
  lemma OverlapHits(ws: seq<Write>, a: Write, b: Write)
    requires Ascending(ws) && multiset{a, b} <= multiset(ws) && a.data != [] && b.data != []
    requires a.addr < b.End() && b.addr < a.End()
    ensures !NoHits(ws)
  {
    RecheckExact(ws);
    var i, j := TwoIndices(ws, a, b);
    assert ws[i].End() > ws[j].addr && ws[j].End() > ws[i].addr;
  }

  lemma BeforeLast(ws: seq<Write>, w: Write)
    requires ws != [] && NoHits(SortByAddr(ws)) && w in ws[..|ws| - 1] && w.data != []
    requires ws[|ws| - 1].data != [] && w.addr < ws[|ws| - 1].End()
    ensures w.End() <= ws[|ws| - 1].addr
  {
    WithLast(ws, w);
    SortByAddrSorts(ws);
    if w.End() > ws[|ws| - 1].addr {
      OverlapHits(SortByAddr(ws), w, ws[|ws| - 1]);
    }
  }

  lemma WithLast(ws: seq<Write>, w: Write)
    requires ws != [] && w in ws[..|ws| - 1]
    ensures multiset{w, ws[|ws| - 1]} <= multiset(ws)
  {
    var pre, t := ws[..|ws| - 1], ws[|ws| - 1];
    assert ws == pre + [t];
    assert w in multiset(pre);
    assert multiset(ws) == multiset(pre) + multiset{t};
  }

  lemma LastRaw(fs: FileSystem)
    requires Keyed(fs)
    ensures RawWrites(fs) != []
    ensures RawWrites(fs)[|RawWrites(fs)| - 1] == Write(true, SPI_RX_ADDR, Le32(SPI_RX_VALUE))
  {
  }

  // A payload is followed by at least the training value, or starts at 4 or later.
  lemma PrintedRoom(fs: FileSystem, w: Write, e: FsEntry)
    requires Keyed(fs) && NoHits(SortByAddr(RawWrites(fs))) && w in RawWrites(fs)[..|RawWrites(fs)| - 1]
    requires w.addr == e.spiAddr && w.data == e.data
    ensures Room(Printed(fs), e)
  {
    PrintedTraining(fs);
    PrintedHolds(fs, w);
    if w.addr < 4 && w.data != [] {
      LastRaw(fs);
      BeforeLast(RawWrites(fs), w);
    }
  }

  lemma EntryRoom(fs: FileSystem, i: nat)
    requires Keyed(fs) && NoHits(SortByAddr(RawWrites(fs))) && i < |fs.order|
    ensures Room(Printed(fs), fs.entries[fs.order[i]])
  {
    var e, pre := fs.entries[fs.order[i]], ImageWrites(fs, |fs.order|);
    var w := Write(!e.provisioningOnly, e.spiAddr, e.data);
    ImageWritesHas(fs, |fs.order|, i);
    var j :| 0 <= j < |pre| && pre[j] == w;
    assert RawWrites(fs)[..|RawWrites(fs)| - 1][j] == w;
    PrintedRoom(fs, w, e);
  }

  lemma FailoverRoom(fs: FileSystem)
    requires Keyed(fs) && NoHits(SortByAddr(RawWrites(fs)))
    ensures Room(Printed(fs), fs.entries[FAILOVER])
  {
    var f, n := fs.entries[FAILOVER], |ImageWrites(fs, |fs.order|)|;
    assert RawWrites(fs)[..|RawWrites(fs)| - 1][n + 1] == Write(true, f.spiAddr, f.data);
    PrintedRoom(fs, Write(true, f.spiAddr, f.data), f);
  }

  /** The printed image stores the whole filesystem, and the slot behind the table ends it
      exactly when its flag byte is left alone or odd. */
  lemma PrintedStores(fs: FileSystem, alignment: nat)
    requires alignment > 0 && Printable(fs, alignment)
    ensures Stores(Printed(fs), fs)
    ensures |fs.order| < 512 ==> (SlotFd(Printed(fs), |fs.order|).Invalid() <==> TableEnds(fs))
  {
    TableLimit(fs);
    PrintedFailoverSlot(fs);
    PrintedFailoverPayload(fs);
    FailoverRoom(fs);
    PrintedTraining(fs);
    forall i | 0 <= i < |fs.order|
      ensures Describes(SlotFd(Printed(fs), i), fs.entries[fs.order[i]])
      ensures Holds(Printed(fs), fs.entries[fs.order[i]]) && Room(Printed(fs), fs.entries[fs.order[i]])
    {
      PrintedEntry(fs, i);
      EntryRoom(fs, i);
    }
    if |fs.order| < 512 {
      PrintedTerminator(fs);
    }
  }

  function SlotFds(data: bytes, i: nat, n: nat): (s: seq<Fd>)
    requires i <= n && FD_SIZE * n <= |data|
    ensures |s| == n - i && forall j :: 0 <= j < |s| ==> s[j] == SlotFd(data, i + j)
  {
    seq(n - i, j requires 0 <= j < n - i => SlotFd(data, i + j))
  }

  lemma ScanStep(data: bytes, i: nat, addr: nat, rest: seq<Fd>)
    requires addr == FD_SIZE * i && FD_SIZE * (i + 1) <= |data| && !SlotFd(data, i).Invalid()
    requires ScanFds(data, FD_SIZE * (i + 1)) == Ok(rest)
    ensures ScanFds(data, addr) == Ok([SlotFd(data, i)] + rest)
  {
    assert FD_SIZE * (i + 1) == addr + FD_SIZE;
  }

  lemma ScanStops(data: bytes, i: nat, addr: nat)
    requires addr == FD_SIZE * i && FD_SIZE * (i + 1) <= |data| && SlotFd(data, i).Invalid()
    ensures ScanFds(data, addr) == Ok([])
  {
    assert FD_SIZE * (i + 1) == addr + FD_SIZE;
  }

  lemma SlotFdsFirst(data: bytes, i: nat, n: nat)
    requires i < n && FD_SIZE * n <= |data|
    ensures SlotFds(data, i, n) == [SlotFd(data, i)] + SlotFds(data, i + 1, n)
  {
    var s, t := SlotFds(data, i, n), [SlotFd(data, i)] + SlotFds(data, i + 1, n);
    forall j | 0 <= j < |s| ensures s[j] == t[j] {
      assert j > 0 ==> t[j] == SlotFds(data, i + 1, n)[j - 1];
    }
  }

  lemma {:induction false} TableReadsBack(data: bytes, n: nat, i: nat)
    requires i <= n && FD_SIZE * (n + 1) <= |data|
    requires forall j :: 0 <= j < n ==> !SlotFd(data, j).Invalid()
    requires SlotFd(data, n).Invalid()
    ensures ScanFds(data, FD_SIZE * i) == Ok(SlotFds(data, i, n))
    decreases n - i
  {
    if i == n {
      ScanStops(data, i, FD_SIZE * i);
      assert SlotFds(data, i, n) == [];
    } else {
      assert !SlotFd(data, i).Invalid();
      TableReadsBack(data, n, i + 1);
      ScanStep(data, i, FD_SIZE * i, SlotFds(data, i + 1, n));
      SlotFdsFirst(data, i, n);
    }
  }

  // The first slots of data describe the entries of fs.
  ghost predicate Tabled(data: bytes, fs: FileSystem) {
    && Keyed(fs) && FD_SIZE * |fs.order| <= |data|
    && forall i :: 0 <= i < |fs.order| ==> Describes(SlotFd(data, i), fs.entries[fs.order[i]])
  }

  lemma TagsReadBack(fs: FileSystem, alignment: nat, data: bytes)
    requires alignment > 0 && Shaped(fs, alignment) && Tabled(data, fs)
    ensures Tags(SlotFds(data, 0, |fs.order|)) == fs.order
  {
    forall i | 0 <= i < |fs.order| ensures TagStr(SlotFd(data, i).imageTag) == fs.order[i] {
      TagRoundTrip(fs.order[i]);
      assert Describes(SlotFd(data, i), fs.entries[fs.order[i]]);
    }
  }

  lemma {:induction false} FdMapLookup(fds: seq<Fd>, i: nat)
    requires i < |fds|
    requires forall j, k :: 0 <= j < k < |fds| ==> TagStr(fds[j].imageTag) != TagStr(fds[k].imageTag)
    ensures FdMap(fds)[TagStr(fds[i].imageTag)] == fds[i]
  {
    if i < |fds| - 1 {
      FdMapLookup(fds[..|fds| - 1], i);
    }
  }

  // Looking a tag up in the parsed table finds its slot.
  lemma LookupSlot(fs: FileSystem, alignment: nat, data: bytes, i: nat)
    requires alignment > 0 && Shaped(fs, alignment) && Tabled(data, fs) && i < |fs.order|
    ensures var m := FdMap(SlotFds(data, 0, |fs.order|));
      fs.order[i] in m && m[fs.order[i]] == SlotFd(data, i)
  {
    var fds := SlotFds(data, 0, |fs.order|);
    TagsReadBack(fs, alignment, data);
    forall j | 0 <= j < |fds| ensures TagStr(fds[j].imageTag) == fs.order[j] {
      assert Tags(fds)[j] == fs.order[j];
    }
    FdMapLookup(fds, i);
  }

  // check_entry gives back the entry that was printed.
  lemma EntryReadsBack(tag: string, e: FsEntry, fd: Fd, data: bytes, alignment: nat)
    requires alignment > 0 && GoodEntry(e, alignment) && |e.data| < MAX_IMAGE && Describes(fd, e)
    requires Holds(data, e) && Room(data, e)
    ensures CheckEntry(tag, fd, data, alignment) == Ok(Normalised(e, tag))
  {
    assert |e.data| % MAX_IMAGE == |e.data|;
  }

  function NormalisedEntries(order: seq<string>, entries: map<string, FsEntry>): map<string, FsEntry>
    requires forall i :: 0 <= i < |order| ==> order[i] in entries
  {
    map t | t in order :: Normalised(entries[t], t)
  }

  lemma NormalisedEntriesStep(order: seq<string>, entries: map<string, FsEntry>)
    requires order != [] && forall i :: 0 <= i < |order| ==> order[i] in entries
    ensures var n := |order| - 1;
      NormalisedEntries(order, entries) ==
        NormalisedEntries(order[..n], entries)[order[n] := Normalised(entries[order[n]], order[n])]
  {
    var n := |order| - 1;
    assert order == order[..n] + [order[n]];
  }

  lemma {:induction false} EntriesReadBack(order: seq<string>, entries: map<string, FsEntry>, alignment: nat,
          data: bytes, m: map<string, Fd>)
    requires alignment > 0
    requires forall i :: 0 <= i < |order| ==> order[i] in entries && order[i] in m
    requires forall i :: 0 <= i < |order| ==>
      var e := entries[order[i]];
      && GoodEntry(e, alignment) && |e.data| < MAX_IMAGE
      && Describes(m[order[i]], e) && Holds(data, e) && Room(data, e)
    ensures CheckAll(order, m, data, alignment) == Ok(NormalisedEntries(order, entries))
  {
    if order != [] {
      var n := |order| - 1;
      var t := order[n];
      EntriesReadBack(order[..n], entries, alignment, data, m);
      EntryReadsBack(t, entries[t], m[t], data, alignment);
      NormalisedEntriesStep(order, entries);
    }
  }

  lemma StoredTable(fs: FileSystem, alignment: nat, data: bytes)
    requires alignment > 0 && Shaped(fs, alignment) && Stores(data, fs)
    requires |fs.order| < 512 && SlotFd(data, |fs.order|).Invalid()
    ensures ScanFds(data, 0) == Ok(SlotFds(data, 0, |fs.order|))
    ensures Tags(SlotFds(data, 0, |fs.order|)) == fs.order
  {
    forall j | 0 <= j < |fs.order| ensures !SlotFd(data, j).Invalid() {
      assert Describes(SlotFd(data, j), fs.entries[fs.order[j]]);
    }
    TableReadsBack(data, |fs.order|, 0);
    TagsReadBack(fs, alignment, data);
  }

  lemma StoredReadsBack(fs: FileSystem, alignment: nat, data: bytes)
    requires alignment > 0 && Shaped(fs, alignment) && SizesFit(fs) && Stores(data, fs)
    requires |fs.order| < 512 && SlotFd(data, |fs.order|).Invalid()
    ensures Parse(data, alignment) == Ok(NormalisedFs(fs))
  {
    var n := |fs.order|;
    var fds := SlotFds(data, 0, n);
    StoredTable(fs, alignment, data);
    forall i | 0 <= i < n ensures fs.order[i] in FdMap(fds) && FdMap(fds)[fs.order[i]] == SlotFd(data, i) {
      LookupSlot(fs, alignment, data, i);
    }
    EntriesReadBack(fs.order, fs.entries, alignment, data, FdMap(fds));
    EntryReadsBack(FAILOVER, fs.entries[FAILOVER], SlotFd(data, 512), data, alignment);
  }

  /** Round trip: a printable filesystem with fewer than 512 entries, each
      under 2^24 bytes, whose table ends, comes back with the same order, payloads,
      addresses and flags. */
  lemma RoundTrip(fs: FileSystem, alignment: nat)
    requires alignment > 0 && Printable(fs, alignment) && |fs.order| < 512 && SizesFit(fs) && TableEnds(fs)
    ensures Parse(Printed(fs), alignment) == Ok(NormalisedFs(fs))
  {
    PrintedStores(fs, alignment);
    StoredReadsBack(fs, alignment, Printed(fs));
  }

  // A table of n descriptors that is not ended by the slot behind it is read past it.
  lemma {:induction false} TableRunsOn(data: bytes, n: nat, i: nat)
    requires i <= n && FD_SIZE * (n + 1) <= |data|
    requires forall j :: 0 <= j <= n ==> !SlotFd(data, j).Invalid()
    ensures ScanFds(data, FD_SIZE * i).Err? || |ScanFds(data, FD_SIZE * i).value| > n - i
    decreases n - i
  {
    assert !SlotFd(data, i).Invalid();
    if i < n {
      TableRunsOn(data, n, i + 1);
    }
  }

  lemma {:induction false} ParsedSizes(order: seq<string>, fds: map<string, Fd>, data: bytes, alignment: nat)
    requires alignment > 0 && forall i :: 0 <= i < |order| ==> order[i] in fds
    ensures var r := CheckAll(order, fds, data, alignment);
      r.Ok? ==> forall t :: t in r.value ==> |r.value[t].data| < MAX_IMAGE
  {
    if order != [] {
      ParsedSizes(order[..|order| - 1], fds, data, alignment);
    }
  }

  lemma OpenTableFails(fs: FileSystem, alignment: nat, data: bytes)
    requires alignment > 0 && Stores(data, fs) && !SlotFd(data, |fs.order|).Invalid()
    ensures Parse(data, alignment) != Ok(NormalisedFs(fs))
  {
    forall j | 0 <= j <= |fs.order| ensures !SlotFd(data, j).Invalid() {
      if j < |fs.order| {
        assert Describes(SlotFd(data, j), fs.entries[fs.order[j]]);
      }
    }
    TableRunsOn(data, |fs.order|, 0);
  }

  lemma OversizeFails(fs: FileSystem, alignment: nat, data: bytes)
    requires alignment > 0 && Keyed(fs) && !SizesFit(fs)
    requires forall i :: 0 <= i < |fs.order| ==> fs.order[i] != FAILOVER
    ensures Parse(data, alignment) != Ok(NormalisedFs(fs))
  {
    if Parse(data, alignment).Ok? {
      var fds := ScanFds(data, 0).value;
      ParsedSizes(Tags(fds), FdMap(fds), data, alignment);
      OversizedEntry(fs, Parse(data, alignment).value);
    }
  }

  /** For a printable filesystem the round trip holds exactly when the table has a free
      slot, nothing hides the end of the table in it, and every payload size fits its
      24-bit field. */
  lemma RoundTripExact(fs: FileSystem, alignment: nat)
    requires alignment > 0 && Printable(fs, alignment)
    ensures Parse(Printed(fs), alignment) == Ok(NormalisedFs(fs))
       <==> |fs.order| < 512 && TableEnds(fs) && SizesFit(fs)
  {
    PrintedStores(fs, alignment);
    if |fs.order| == 512 || !TableEnds(fs) {
      OpenTableFails(fs, alignment, Printed(fs));
    } else if SizesFit(fs) {
      RoundTrip(fs, alignment);
    } else {
      OversizeFails(fs, alignment, Printed(fs));
    }
  }

  lemma OversizedEntry(fs: FileSystem, r: FileSystem)
    requires Keyed(fs) && !SizesFit(fs)
    requires forall i :: 0 <= i < |fs.order| ==> fs.order[i] != FAILOVER
    requires forall t :: t in r.entries ==> |r.entries[t].data| < MAX_IMAGE
    ensures r != NormalisedFs(fs)
  {
    var m := NormalisedFs(fs).entries;
    if |fs.entries[FAILOVER].data| >= MAX_IMAGE {
      assert FAILOVER in m && |m[FAILOVER].data| >= MAX_IMAGE;
    } else {
      var i :| 0 <= i < |fs.order| && |fs.entries[fs.order[i]].data| >= MAX_IMAGE;
      assert fs.order[i] in m && |m[fs.order[i]].data| >= MAX_IMAGE;
    }
  }

  lemma FailoverStored(fs: FileSystem)
    requires Keyed(fs) && NoHits(SortByAddr(RawWrites(fs)))
    requires fs.entries[FAILOVER].spiAddr < TWO32 && fs.entries[FAILOVER].loadAddr < TWO32
    ensures |Printed(fs)| >= FD_SIZE * 513
    ensures Describes(SlotFd(Printed(fs), 512), fs.entries[FAILOVER]) && Holds(Printed(fs), fs.entries[FAILOVER])
  {
    PrintedFailoverSlot(fs);
    PrintedFailoverPayload(fs);
  }

  lemma BadFailoverFailsParse(bad: bytes, alignment: nat)
    requires alignment > 0 && |bad| >= FD_SIZE * 513 && CheckEntry(FAILOVER, SlotFd(bad, 512), bad, alignment).Err?
    ensures Parse(bad, alignment).Err?
  {
  }
}
