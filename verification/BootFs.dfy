/**
 The boot filesystem of scripts/tt_boot_fs.py: entries, descriptors, the sorted
 list of flash writes with its overlap check, and the flat binary image.
 */
module BootFs {
  import opened Bytes
  import opened Wrappers
  import opened RangeTracker

  const FAILOVER_HEAD_ADDR: nat := 0x4000
  const SPI_RX_ADDR: nat := 0x13FFC
  const SPI_RX_VALUE: nat := 0xA5A5_5A5A
  const MAX_TAG_LEN: nat := 8
  const FD_SIZE: nat := 32
  const MAX_IMAGE: nat := 0x100_0000
  const FAILOVER: string := "failover"

  datatype FsEntry = FsEntry(
    provisioningOnly: bool,
    tag: string,
    data: bytes,
    spiAddr: nat,
    loadAddr: nat,
    executable: bool)

  // The failover entry is stored under its own key among the entries.
  datatype FileSystem = FileSystem(order: seq<string>, entries: map<string, FsEntry>)

  predicate Keyed(fs: FileSystem) {
    FAILOVER in fs.entries && forall i :: 0 <= i < |fs.order| ==> fs.order[i] in fs.entries
  }

  predicate TagsFit(fs: FileSystem)
    requires Keyed(fs)
  {
    && |fs.entries[FAILOVER].tag| <= MAX_TAG_LEN
    && forall i :: 0 <= i < |fs.order| ==> |fs.entries[fs.order[i]].tag| <= MAX_TAG_LEN
  }

  // ord() of each character, stored in an 8-bit field, zero padded.
  function TagBytes(tag: string): (b: bytes)
    ensures |b| == MAX_TAG_LEN
  {
    seq(MAX_TAG_LEN, i requires 0 <= i < MAX_TAG_LEN => if i < |tag| then tag[i] as int % 256 else 0)
  }

  // image_size: 24 bits, invalid: bit 24, executable: bit 25
  function Flags(e: FsEntry): nat {
    |e.data| % MAX_IMAGE + if e.executable then 0x200_0000 else 0
  }

  function DescriptorHead(e: FsEntry): (b: bytes)
    ensures |b| == 28
  {
    Le32(e.spiAddr) + Le32(e.loadAddr) + Le32(Flags(e)) + Le32(Checksum(e.data)) + Le32(0) + TagBytes(e.tag)
  }

  // FsEntry.descriptor
  function Descriptor(e: FsEntry): (b: bytes)
    ensures |b| == FD_SIZE
  {
    DescriptorHead(e) + Le32(Checksum(DescriptorHead(e) + Le32(0)))
  }

  datatype Write = Write(always: bool, addr: nat, data: bytes) {
    function End(): nat {
      addr + |data|
    }
  }

  function ImageWrites(fs: FileSystem, n: nat): seq<Write>
    requires Keyed(fs) && n <= |fs.order|
  {
    if n == 0 then []
    else
      var e := fs.entries[fs.order[n - 1]];
      ImageWrites(fs, n - 1) + EntryWritesAt(FD_SIZE * (n - 1), e)
  }

  // The descriptor, at addr, and the payload of one entry.
  function EntryWritesAt(addr: nat, e: FsEntry): seq<Write> {
    [Write(true, addr, Descriptor(e)), Write(!e.provisioningOnly, e.spiAddr, e.data)]
  }

  function RawWrites(fs: FileSystem): seq<Write>
    requires Keyed(fs)
  {
    var f := fs.entries[FAILOVER];
    ImageWrites(fs, |fs.order|)
    + [Write(true, FAILOVER_HEAD_ADDR, Descriptor(f)),
       Write(true, f.spiAddr, f.data),
       Write(true, SPI_RX_ADDR, Le32(SPI_RX_VALUE))]
  }

  // Python's stable sort by address.
  function InsertByAddr(ws: seq<Write>, w: Write): seq<Write> {
    if ws == [] || ws[|ws| - 1].addr <= w.addr then ws + [w]
    else InsertByAddr(ws[..|ws| - 1], w) + [ws[|ws| - 1]]
  }

  function SortByAddr(ws: seq<Write>): seq<Write> {
    if ws == [] then [] else InsertByAddr(SortByAddr(ws[..|ws| - 1]), ws[|ws| - 1])
  }

  ghost predicate Ascending(ws: seq<Write>) {
    forall i, j :: 0 <= i < j < |ws| ==> ws[i].addr <= ws[j].addr
  }

  lemma AscendingMore(ws: seq<Write>, w: Write)
    requires Ascending(ws) && forall i :: 0 <= i < |ws| ==> ws[i].addr <= w.addr
    ensures Ascending(ws + [w])
  {
  }

  lemma {:induction false} InsertByAddrSorts(ws: seq<Write>, w: Write)
    requires Ascending(ws)
    ensures Ascending(InsertByAddr(ws, w))
    ensures multiset(InsertByAddr(ws, w)) == multiset(ws) + multiset{w}
  {
    if ws == [] || ws[|ws| - 1].addr <= w.addr {
      AscendingMore(ws, w);
    } else {
      var n := |ws| - 1;
      InsertByAddrSorts(ws[..n], w);
      var s := InsertByAddr(ws[..n], w);
      assert ws == ws[..n] + [ws[n]];
      forall i | 0 <= i < |s| ensures s[i].addr <= ws[n].addr {
        assert s[i] in multiset(s);
      }
      AscendingMore(s, ws[n]);
    }
  }

  /** The sorted list is ascending and has the same writes. */
  lemma {:induction false} SortByAddrSorts(ws: seq<Write>)
    ensures Ascending(SortByAddr(ws))
    ensures multiset(SortByAddr(ws)) == multiset(ws)
  {
    if ws != [] {
      var n := |ws| - 1;
      SortByAddrSorts(ws[..n]);
      InsertByAddrSorts(SortByAddr(ws[..n]), ws[n]);
      assert ws == ws[..n] + [ws[n]];
    }
  }

  // The writes at one address, in list order.
  function AtAddr(ws: seq<Write>, a: nat): seq<Write> {
    if ws == [] then []
    else AtAddr(ws[..|ws| - 1], a) + if ws[|ws| - 1].addr == a then [ws[|ws| - 1]] else []
  }

  lemma {:induction false} InsertByAddrStable(ws: seq<Write>, w: Write, a: nat)
    requires Ascending(ws)
    ensures AtAddr(InsertByAddr(ws, w), a) == AtAddr(ws, a) + if w.addr == a then [w] else []
  {
    var r := InsertByAddr(ws, w);
    var n := |ws| - 1;
    if ws == [] || ws[n].addr <= w.addr {
      assert r[..|r| - 1] == ws;
    } else {
      InsertByAddrStable(ws[..n], w, a);
      assert r[..|r| - 1] == InsertByAddr(ws[..n], w);
      if ws[n].addr == a {
        assert w.addr != a;
      }
    }
  }

  /** Writes at the same address keep their relative order. */
  lemma {:induction false} SortByAddrStable(ws: seq<Write>, a: nat)
    ensures AtAddr(SortByAddr(ws), a) == AtAddr(ws, a)
  {
    if ws != [] {
      var n := |ws| - 1;
      SortByAddrStable(ws[..n], a);
      SortByAddrSorts(ws[..n]);
      InsertByAddrStable(SortByAddr(ws[..n]), ws[n], a);
    }
  }

  // Each write ends before the next ones begin.
  ghost predicate Ordered(ws: seq<Write>) {
    forall i, j :: 0 <= i < j < |ws| ==> ws[i].End() <= ws[j].addr
  }

  function AsRange(w: Write): Range<()> {
    Range(w.addr, w.End(), None)
  }

  function AsRanges(ws: seq<Write>): (r: seq<Range<()>>)
    ensures |r| == |ws| && forall i :: 0 <= i < |ws| ==> r[i] == AsRange(ws[i])
  {
    seq(|ws|, i requires 0 <= i < |ws| => AsRange(ws[i]))
  }

  // What the re-check in writes() tests: no earlier write is hit.
  ghost predicate NoHits(ws: seq<Write>) {
    forall i, j :: 0 <= i < j < |ws| ==> !Hits(AsRange(ws[i]), ws[j].addr, ws[j].End())
  }

  // When nothing begins after start, add() looks at every range.
  lemma {:induction false} ScanAll<D>(ranges: seq<Range<D>>, start: nat, end: nat, i: nat)
    requires i <= |ranges| && forall j :: i <= j < |ranges| ==> ranges[j].start <= start
    ensures Scan(ranges, start, end, i) ==
      if exists j :: i <= j < |ranges| && Hits(ranges[j], start, end) then None else Some(|ranges|)
    decreases |ranges| - i
  {
    if i < |ranges| && !Hits(ranges[i], start, end) {
      ScanAll(ranges, start, end, i + 1);
    }
  }

  /** The re-check accepts an address-sorted list exactly when the writes are
      pairwise disjoint and in order, and no empty write sits right at the end
      of a non-empty one. */
  lemma RecheckExact(ws: seq<Write>)
    requires Ascending(ws)
    ensures NoHits(ws) <==>
      && Ordered(ws)
      && forall i, j :: 0 <= i < j < |ws| && ws[j].data == [] && ws[i].data != [] ==> ws[i].End() != ws[j].addr
  {
    if NoHits(ws) {
      forall i, j | 0 <= i < j < |ws| ensures ws[i].End() <= ws[j].addr {
        assert !Hits(AsRange(ws[i]), ws[j].addr, ws[j].End());
      }
      forall i, j | 0 <= i < j < |ws| && ws[j].data == [] && ws[i].data != [] ensures ws[i].End() != ws[j].addr {
        assert !Hits(AsRange(ws[i]), ws[j].addr, ws[j].End());
      }
    }
  }

  // The descriptor and payload writes, in table order.
  method CollectWrites(fs: FileSystem) returns (r: Result<seq<Write>>)
    ensures r.Ok? <==> Keyed(fs) && TagsFit(fs)
    ensures r.Ok? ==> r.value == RawWrites(fs)
  {
    if FAILOVER !in fs.entries || exists i :: 0 <= i < |fs.order| && fs.order[i] !in fs.entries {
      return Err("KeyError");
    }
    var ws: seq<Write> := [];
    var descriptorAddr := 0;
    var n := 0;
    while n < |fs.order|
      invariant 0 <= n <= |fs.order| && descriptorAddr == FD_SIZE * n
      invariant ws == ImageWrites(fs, n)
      invariant forall i :: 0 <= i < n ==> |fs.entries[fs.order[i]].tag| <= MAX_TAG_LEN
    {
      var e := fs.entries[fs.order[n]];
      if |e.tag| > MAX_TAG_LEN {
        return Err("IndexError");
      }
      ws := ws + EntryWritesAt(descriptorAddr, e);
      descriptorAddr := descriptorAddr + FD_SIZE;
      n := n + 1;
    }
    var f := fs.entries[FAILOVER];
    if |f.tag| > MAX_TAG_LEN {
      return Err("IndexError");
    }
    r := Ok(ws + [Write(true, FAILOVER_HEAD_ADDR, Descriptor(f)),
                  Write(true, f.spiAddr, f.data),
                  Write(true, SPI_RX_ADDR, Le32(SPI_RX_VALUE))]);
  }

  /** BootFs.writes: the sorted writes, or an error for a missing entry, a tag
      that is too long, or an overlap. Whenever it returns, the writes are
      pairwise disjoint and in ascending order. */
  method Writes(fs: FileSystem) returns (r: Result<seq<Write>>)
    ensures r.Ok? <==> Keyed(fs) && TagsFit(fs) && NoHits(SortByAddr(RawWrites(fs)))
    ensures r.Ok? ==> r.value == SortByAddr(RawWrites(fs)) && Ascending(r.value) && Ordered(r.value)
  {
    r := CollectWrites(fs);
    if r.Ok? {
      SortByAddrSorts(r.value);
      var ws := SortByAddr(r.value);
      var ok := CheckOverlap(ws);
      RecheckExact(ws);
      r := if ok then Ok(ws) else Err("overlap");
    }
  }

  // check_overlap: feed the sorted writes to a fresh tracker.
  method CheckOverlap(ws: seq<Write>) returns (ok: bool)
    requires Ascending(ws)
    ensures ok <==> NoHits(ws)
  {
    var tracker := new Tracker<()>(1);
    var i := 0;
    while i < |ws|
      invariant 0 <= i <= |ws|
      invariant fresh(tracker) && tracker.alignment == 1
      invariant tracker.ranges == AsRanges(ws[..i])
      invariant NoHits(ws[..i])
    {
      ScanAll(tracker.ranges, ws[i].addr, ws[i].End(), 0);
      ghost var before := tracker.ranges;
      var r := tracker.Add(ws[i].addr, ws[i].End(), None);
      if r.Err? {
        ghost var j :| 0 <= j < |before| && Hits(before[j], ws[i].addr, ws[i].End());
        assert Hits(AsRange(ws[j]), ws[i].addr, ws[i].End());
        return false;
      }
      assert tracker.ranges == AsRanges(ws[..i + 1]);
      forall j | 0 <= j < i ensures !Hits(AsRange(ws[j]), ws[i].addr, ws[i].End()) {
        assert before[j] == AsRange(ws[j]);
      }
      i := i + 1;
    }
    assert ws[..i] == ws;
    ok := true;
  }

  // The writes kept by to_binary and to_intel_hex.
  function Included(ws: seq<Write>, all: bool): seq<Write> {
    if ws == [] then []
    else Included(ws[..|ws| - 1], all) + if ws[|ws| - 1].always || all then [ws[|ws| - 1]] else []
  }

  lemma {:induction false} IncludedAll(ws: seq<Write>)
    ensures Included(ws, true) == ws
  {
    if ws != [] {
      IncludedAll(ws[..|ws| - 1]);
    }
  }

  lemma {:induction false} IncludedOrdered(ws: seq<Write>, all: bool)
    requires Ordered(ws)
    ensures Ordered(Included(ws, all))
    ensures forall i :: 0 <= i < |Included(ws, all)| ==> Included(ws, all)[i] in ws
  {
    if ws != [] {
      var n := |ws| - 1;
      IncludedOrdered(ws[..n], all);
      var s := Included(ws[..n], all);
      forall i | 0 <= i < |s| ensures s[i].End() <= ws[n].addr {
        assert s[i] in ws[..n];
      }
    }
  }

  // The flat image: gaps filled with erased bytes.
  function Image(ws: seq<Write>): bytes {
    if ws == [] then []
    else
      var b := Image(ws[..|ws| - 1]);
      var w := ws[|ws| - 1];
      b + Erased(if w.addr > |b| then w.addr - |b| else 0) + w.data
  }

  function LastEnd(ws: seq<Write>): nat {
    if ws == [] then 0 else ws[|ws| - 1].End()
  }

  ghost predicate Covers(w: Write, k: nat) {
    w.addr <= k < w.End()
  }

  ghost predicate Covered(ws: seq<Write>, k: nat) {
    exists i :: 0 <= i < |ws| && Covers(ws[i], k)
  }

  lemma {:induction false} ImageLength(ws: seq<Write>)
    requires Ordered(ws)
    ensures |Image(ws)| == LastEnd(ws)
  {
    if ws != [] {
      ImageLength(ws[..|ws| - 1]);
    }
  }

  lemma SliceOfFront(front: bytes, gap: bytes, data: bytes, lo: nat, hi: nat)
    requires lo <= hi <= |front|
    ensures (front + gap + data)[lo..hi] == front[lo..hi]
  {
  }

  lemma SliceOfEnd(front: bytes, gap: bytes, data: bytes, lo: nat)
    requires lo == |front| + |gap|
    ensures (front + gap + data)[lo..lo + |data|] == data
  {
  }

  /** Every write can be read back from the image at its address. */
  lemma {:induction false} ImageHolds(ws: seq<Write>, i: nat)
    requires Ordered(ws) && i < |ws|
    ensures |Image(ws)| >= ws[i].End()
    ensures Image(ws)[ws[i].addr..ws[i].End()] == ws[i].data
  {
    var n := |ws| - 1;
    var front, w := Image(ws[..n]), ws[n];
    ImageLength(ws[..n]);
    var gap := Erased(if w.addr > |front| then w.addr - |front| else 0);
    assert Image(ws) == front + gap + w.data;
    if i < n {
      ImageHolds(ws[..n], i);
      SliceOfFront(front, gap, w.data, ws[i].addr, ws[i].End());
    } else {
      SliceOfEnd(front, gap, w.data, w.addr);
    }
  }

  /** Every other byte of the image reads as erased flash. */
  lemma {:induction false} ImageErased(ws: seq<Write>, k: nat)
    requires Ordered(ws) && k < |Image(ws)| && !Covered(ws, k)
    ensures Image(ws)[k] == ERASED
  {
    var n := |ws| - 1;
    ImageLength(ws);
    ImageLength(ws[..n]);
    if k < |Image(ws[..n])| {
      assert !Covered(ws[..n], k) by {
        forall i | 0 <= i < n ensures !Covers(ws[..n][i], k) {
          assert !Covers(ws[i], k);
        }
      }
      ImageErased(ws[..n], k);
    } else {
      assert !Covers(ws[n], k);
    }
  }

  // Appending a write pads up to its address and adds its bytes.
  lemma ImageAppend(s: seq<Write>, w: Write)
    requires |Image(s)| <= w.addr
    ensures Image(s + [w]) == Image(s) + Erased(w.addr - |Image(s)|) + w.data
  {
    assert (s + [w])[..|s|] == s;
  }

  lemma IncludedStep(ws: seq<Write>, i: nat, all: bool)
    requires i < |ws|
    ensures Included(ws[..i + 1], all) ==
      if ws[i].always || all then Included(ws[..i], all) + [ws[i]] else Included(ws[..i], all)
  {
    assert ws[..i + 1][..i] == ws[..i];
    assert Included(ws[..i], all) + [] == Included(ws[..i], all);
  }

  lemma ImageBelow(ws: seq<Write>, i: nat, all: bool)
    requires Ordered(ws) && i < |ws|
    ensures |Image(Included(ws[..i], all))| <= ws[i].addr
  {
    var s := Included(ws[..i], all);
    IncludedOrdered(ws[..i], all);
    ImageLength(s);
    assert s != [] ==> s[|s| - 1] in ws[..i];
  }

  // The image after one more write has been looked at.
  lemma FlattenStep(ws: seq<Write>, i: nat, all: bool, image: bytes)
    requires Ordered(ws) && i < |ws| && image == Image(Included(ws[..i], all))
    ensures |image| <= ws[i].addr
    ensures Image(Included(ws[..i + 1], all)) ==
      if ws[i].always || all then image + Erased(ws[i].addr - |image|) + ws[i].data else image
  {
    IncludedStep(ws, i, all);
    ImageBelow(ws, i, all);
    ImageAppend(Included(ws[..i], all), ws[i]);
  }

  // The loop of to_binary.
  method Flatten(ws: seq<Write>, allSections: bool) returns (image: bytes)
    requires Ordered(ws)
    ensures image == Image(Included(ws, allSections))
  {
    image := [];
    var lastAddr := 0;
    var i := 0;
    while i < |ws|
      invariant 0 <= i <= |ws|
      invariant image == Image(Included(ws[..i], allSections)) && lastAddr == |image|
    {
      FlattenStep(ws, i, allSections, image);
      if ws[i].always || allSections {
        image := image + Erased(ws[i].addr - lastAddr);
        image := image + ws[i].data;
        lastAddr := ws[i].addr + |ws[i].data|;
      }
      i := i + 1;
    }
    assert ws[..i] == ws;
  }

  // BootFs.to_binary
  method ToBinary(fs: FileSystem, allSections: bool) returns (r: Result<bytes>)
    ensures r.Ok? <==> Keyed(fs) && TagsFit(fs) && NoHits(SortByAddr(RawWrites(fs)))
    ensures r.Ok? ==> r.value == Image(Included(SortByAddr(RawWrites(fs)), allSections))
  {
    var list := Writes(fs);
    if list.Err? {
      return Err(list.error);
    }
    var image := Flatten(list.value, allSections);
    r := Ok(image);
  }
}
