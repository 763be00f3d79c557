/**
 FileImage.to_boot_fs of scripts/tt_boot_fs.py: placing images in flash, and why
 the result of a sound specification always passes the overlap check.
 */
module BootFsBuild {
  import opened Bytes
  import opened Wrappers
  import opened RangeTracker
  import opened BootFs

  const IMAGE_ADDR: nat := 0x14000

  datatype BootImage = BootImage(
    provisioningOnly: bool,
    tag: string,
    binary: bytes,
    executable: bool,
    spiAddr: Option<nat>,
    loadAddr: nat)

  function EntryOf(im: BootImage, addr: nat): FsEntry {
    FsEntry(im.provisioningOnly, im.tag, im.binary, addr, im.loadAddr, im.executable)
  }

  ghost predicate DistinctTags(images: seq<BootImage>) {
    forall i, j :: 0 <= i < j < |images| ==> images[i].tag != images[j].tag
  }

  // The tracker holds exactly one range for each placed image.
  ghost predicate Tracks(ranges: seq<Range<BootImage>>, placed: set<BootImage>) {
    && (forall i :: 0 <= i < |ranges| && ranges[i].data.Some? ==>
      HoldsImage(ranges[i]) && ranges[i].data.value in placed)
    && (forall im :: im in placed ==> exists i :: 0 <= i < |ranges| && ranges[i].data == Some(im))
    && (forall i, j :: 0 <= i < j < |ranges| && ranges[i].data.Some? ==> ranges[i].data != ranges[j].data)
  }

  // The range has the image's size, and its address if it asked for one.
  predicate HoldsImage(r: Range<BootImage>)
    requires r.data.Some?
  {
    var im := r.data.value;
    r.end == r.start + |im.binary| && (im.spiAddr.Some? ==> r.start == im.spiAddr.value)
  }

  lemma TracksInsert(ranges: seq<Range<BootImage>>, placed: set<BootImage>, k: nat, r: Range<BootImage>)
    requires Tracks(ranges, placed) && k <= |ranges| && r.data.Some? && HoldsImage(r) && r.data.value !in placed
    ensures Tracks(InsertAt(ranges, k, r), placed + {r.data.value})
  {
    var s := InsertAt(ranges, k, r);
    assert s[k] == r;
    assert forall i :: 0 <= i < k ==> s[i] == ranges[i];
    assert forall i :: k < i < |s| ==> s[i] == ranges[i - 1];
    forall im | im in placed + {r.data.value} ensures exists i :: 0 <= i < |s| && s[i].data == Some(im) {
      if im == r.data.value {
        assert s[k].data == Some(im);
      } else {
        var i :| 0 <= i < |ranges| && ranges[i].data == Some(im);
        assert s[if i < k then i else i + 1].data == Some(im);
      }
    }
  }

  // The reserved region stays in the tracker.
  ghost predicate Reserved(ranges: seq<Range<BootImage>>) {
    exists i :: 0 <= i < |ranges| && ranges[i] == Range(0, IMAGE_ADDR, None)
  }

  lemma ReservedInsert(ranges: seq<Range<BootImage>>, k: nat, r: Range<BootImage>)
    requires Reserved(ranges) && k <= |ranges|
    ensures Reserved(InsertAt(ranges, k, r))
  {
    var i :| 0 <= i < |ranges| && ranges[i] == Range(0, IMAGE_ADDR, None);
    assert InsertAt(ranges, k, r)[if i < k then i else i + 1] == ranges[i];
  }

  // A specification that asks for nothing impossible.
  ghost predicate SoundSpec(images: seq<BootImage>, blockSize: nat) {
    && PowerOfTwo(blockSize)
    && (forall i :: 0 <= i < |images| ==> images[i].binary != [])
    && (forall i :: 0 <= i < |images| && images[i].spiAddr.Some? ==>
          images[i].spiAddr.value % blockSize == 0 && images[i].spiAddr.value >= IMAGE_ADDR)
    && (forall i, j :: 0 <= i < j < |images| && images[i].spiAddr.Some? && images[j].spiAddr.Some? ==>
          Apart(images[i], images[j]))
  }

  predicate Apart(a: BootImage, b: BootImage)
    requires a.spiAddr.Some? && b.spiAddr.Some?
  {
    a.spiAddr.value + |a.binary| <= b.spiAddr.value || b.spiAddr.value + |b.binary| <= a.spiAddr.value
  }

  ghost function Fixed(images: seq<BootImage>, n: nat): set<BootImage>
    requires n <= |images|
  {
    set i | 0 <= i < n && images[i].spiAddr.Some? :: images[i]
  }

  // Everything fixed, and the first n of the rest.
  ghost function PlacedBy(images: seq<BootImage>, n: nat): set<BootImage>
    requires n <= |images|
  {
    set i | 0 <= i < |images| && (images[i].spiAddr.Some? || i < n) :: images[i]
  }

  // A fixed image of a sound specification finds its place free.
  lemma FixedIsFree(ranges: seq<Range<BootImage>>, images: seq<BootImage>, n: nat, blockSize: nat)
    requires n < |images| && DistinctTags(images) && SoundSpec(images, blockSize) && images[n].spiAddr.Some?
    requires Tracks(ranges, Fixed(images, n))
    requires OnlyReserved(ranges)
    ensures Free(ranges, images[n].spiAddr.value, images[n].spiAddr.value + |images[n].binary|)
  {
    forall i | 0 <= i < |ranges|
      ensures !Meets(ranges[i], images[n].spiAddr.value, images[n].spiAddr.value + |images[n].binary|)
    {
      if ranges[i].data.Some? {
        var im := ranges[i].data.value;
        var j :| 0 <= j < n && images[j].spiAddr.Some? && images[j] == im;
        assert Apart(images[j], images[n]);
      }
    }
  }

  // The reserved region is the only range without an image.
  ghost predicate OnlyReserved(ranges: seq<Range<BootImage>>) {
    && Reserved(ranges)
    && forall i :: 0 <= i < |ranges| && ranges[i].data.None? ==> ranges[i].end <= IMAGE_ADDR
  }

  lemma OnlyReservedInsert(ranges: seq<Range<BootImage>>, k: nat, r: Range<BootImage>)
    requires OnlyReserved(ranges) && k <= |ranges| && r.data.Some?
    ensures OnlyReserved(InsertAt(ranges, k, r))
  {
    var s := InsertAt(ranges, k, r);
    ReservedInsert(ranges, k, r);
    assert forall i :: 0 <= i < k ==> s[i] == ranges[i];
    assert forall i :: k < i < |s| ==> s[i] == ranges[i - 1];
  }

  lemma FixedFits(before: seq<Range<BootImage>>, images: seq<BootImage>, n: nat, alignment: nat,
          range: Range<BootImage>)
    requires DistinctTags(images) && n < |images| && images[n].spiAddr.Some?
    requires Tracks(before, Fixed(images, n)) && OnlyReserved(before)
    requires alignment > 0 && SoundSpec(images, alignment) && Valid(before, alignment)
    requires var start := images[n].spiAddr.value; range == Range(start, start + |images[n].binary|, Some(images[n]))
    ensures Scan(before, range.start, range.end, 0).Some?
    ensures Valid(InsertAt(before, Scan(before, range.start, range.end, 0).value, range), alignment)
  {
    FixedIsFree(before, images, n, alignment);
    ScanExact(before, alignment, range.start, range.end);
    AddKeepsValid(before, alignment, range);
  }

  lemma FixedAdded(before: seq<Range<BootImage>>, images: seq<BootImage>, n: nat, k: nat, range: Range<BootImage>)
    requires DistinctTags(images) && n < |images| && images[n].spiAddr.Some? && k <= |before|
    requires Tracks(before, Fixed(images, n)) && OnlyReserved(before)
    requires var start := images[n].spiAddr.value; range == Range(start, start + |images[n].binary|, Some(images[n]))
    ensures Tracks(InsertAt(before, k, range), Fixed(images, n + 1)) && OnlyReserved(InsertAt(before, k, range))
  {
    assert images[n] !in Fixed(images, n);
    TracksInsert(before, Fixed(images, n), k, range);
    OnlyReservedInsert(before, k, range);
    assert Fixed(images, n + 1) == Fixed(images, n) + {images[n]};
  }

  // The ranges after the fixed images among the first n, unless one is refused.
  function FixedRanges(images: seq<BootImage>, alignment: nat, n: nat): Option<seq<Range<BootImage>>>
    requires alignment > 0 && n <= |images|
  {
    if n == 0 then Some([Range(0, IMAGE_ADDR, None)])
    else WithFixed(FixedRanges(images, alignment, n - 1), alignment, images[n - 1])
  }

  function WithFixed(before: Option<seq<Range<BootImage>>>, alignment: nat, im: BootImage)
    : Option<seq<Range<BootImage>>>
    requires alignment > 0
  {
    if before.None? || im.spiAddr.None? then before else Adding(before.value, alignment, FixedRange(im))
  }

  function FixedRange(im: BootImage): Range<BootImage>
    requires im.spiAddr.Some?
  {
    Range(im.spiAddr.value, im.spiAddr.value + |im.binary|, Some(im))
  }

  // The ranges after all fixed images and the first n of the others.
  function AllRanges(images: seq<BootImage>, alignment: nat, n: nat): Option<seq<Range<BootImage>>>
    requires alignment > 0 && n <= |images|
  {
    if n == 0 then FixedRanges(images, alignment, |images|)
    else WithRest(AllRanges(images, alignment, n - 1), alignment, images[n - 1])
  }

  function WithRest(before: Option<seq<Range<BootImage>>>, alignment: nat, im: BootImage)
    : Option<seq<Range<BootImage>>>
    requires alignment > 0
  {
    if before.None? || im.spiAddr.Some? then before
    else Adding(before.value, alignment, GapRange(before.value, alignment, |im.binary|, im))
  }

  ghost predicate StartsFree(ranges: seq<Range<BootImage>>, start: nat) {
    forall k :: 0 <= k < |ranges| ==> !(ranges[k].start <= start < ranges[k].end)
  }

  ghost predicate SortedStarts(ranges: seq<Range<BootImage>>) {
    forall i, j :: 0 <= i < j < |ranges| ==> ranges[i].start <= ranges[j].start
  }

  lemma {:induction false} ScanSorted(ranges: seq<Range<BootImage>>, start: nat, end: nat, i: nat)
    requires i <= |ranges| && SortedStarts(ranges) && Scan(ranges, start, end, i).Some?
    ensures var k := Scan(ranges, start, end, i).value;
      && (forall j :: i <= j < k ==> ranges[j].start <= start) && (k < |ranges| ==> start < ranges[k].start)
    ensures forall j :: i <= j < |ranges| ==> !(ranges[j].start <= start < ranges[j].end)
    decreases |ranges| - i
  {
    if i < |ranges| && ranges[i].start <= start {
      ScanSorted(ranges, start, end, i + 1);
    }
  }

  // Adding keeps the ranges in the order of their starts, and accepts no start inside one.
  lemma AddingMeans(ranges: seq<Range<BootImage>>, alignment: nat, r: Range<BootImage>)
    requires alignment > 0 && SortedStarts(ranges) && Adding(ranges, alignment, r).Some?
    ensures SortedStarts(Adding(ranges, alignment, r).value)
    ensures r.start % alignment == 0 && StartsFree(ranges, r.start)
    ensures forall x :: x in ranges || x == r ==> x in Adding(ranges, alignment, r).value
  {
    ScanSorted(ranges, r.start, r.end, 0);
  }

  // A fixed image is aligned, and starts outside the reserved area and the images before it.
  ghost predicate FixedWell(images: seq<BootImage>, alignment: nat, i: nat)
    requires i < |images| && images[i].spiAddr.Some? && alignment > 0
  {
    var a := images[i].spiAddr.value;
    && a % alignment == 0 && a >= IMAGE_ADDR
    && forall j :: 0 <= j < i && images[j].spiAddr.Some? ==>
         !(images[j].spiAddr.value <= a < images[j].spiAddr.value + |images[j].binary|)
  }

  ghost predicate HasFixed(ranges: seq<Range<BootImage>>, images: seq<BootImage>, n: nat)
    requires n <= |images|
  {
    && SortedStarts(ranges) && Range(0, IMAGE_ADDR, None) in ranges
    && forall i :: 0 <= i < n && images[i].spiAddr.Some? ==> FixedRange(images[i]) in ranges
  }

  lemma FixedStep(before: Option<seq<Range<BootImage>>>, images: seq<BootImage>, alignment: nat, n: nat)
    requires alignment > 0 && n < |images| && (before.Some? ==> HasFixed(before.value, images, n))
    requires WithFixed(before, alignment, images[n]).Some? && AllWell(images, alignment, n)
    ensures HasFixed(WithFixed(before, alignment, images[n]).value, images, n + 1) && AllWell(images, alignment, n + 1)
  {
    if images[n].spiAddr.Some? {
      AddingMeans(before.value, alignment, FixedRange(images[n]));
      OutsideFixed(before.value, images, alignment, n);
    }
  }

  lemma OutsideFixed(ranges: seq<Range<BootImage>>, images: seq<BootImage>, alignment: nat, n: nat)
    requires alignment > 0 && n < |images| && images[n].spiAddr.Some? && HasFixed(ranges, images, n)
    requires images[n].spiAddr.value % alignment == 0 && StartsFree(ranges, images[n].spiAddr.value)
    ensures FixedWell(images, alignment, n)
  {
    var a := images[n].spiAddr.value;
    OutsideAll(ranges, a);
    assert !(0 <= a < IMAGE_ADDR);
    forall j | 0 <= j < n && images[j].spiAddr.Some?
      ensures !(images[j].spiAddr.value <= a < images[j].spiAddr.value + |images[j].binary|)
    {
      assert FixedRange(images[j]) in ranges;
    }
  }

  lemma OutsideAll(ranges: seq<Range<BootImage>>, start: nat)
    requires StartsFree(ranges, start)
    ensures forall x :: x in ranges ==> !(x.start <= start < x.end)
  {
  }

  lemma {:induction false} FixedMeans(images: seq<BootImage>, alignment: nat, n: nat)
    requires alignment > 0 && n <= |images| && FixedRanges(images, alignment, n).Some?
    ensures HasFixed(FixedRanges(images, alignment, n).value, images, n) && AllWell(images, alignment, n)
  {
    if n > 0 {
      var before := FixedRanges(images, alignment, n - 1);
      if before.Some? {
        FixedMeans(images, alignment, n - 1);
        FixedStep(before, images, alignment, n - 1);
      }
    }
  }

  ghost predicate AllWell(images: seq<BootImage>, alignment: nat, n: nat)
    requires alignment > 0 && n <= |images|
  {
    forall i :: 0 <= i < n && images[i].spiAddr.Some? ==> FixedWell(images, alignment, i)
  }

  /** Whatever the block size, a specification is refused as soon as a fixed image is not
      aligned, or starts in the reserved area or in a fixed image before it. */
  lemma BadFixedRefused(images: seq<BootImage>, blockSize: nat, i: nat)
    requires blockSize > 0 && i < |images| && images[i].spiAddr.Some? && !FixedWell(images, blockSize, i)
    ensures AllRanges(images, blockSize, |images|).None?
  {
    if FixedRanges(images, blockSize, |images|).Some? {
      FixedMeans(images, blockSize, |images|);
      assert false;
    } else {
      RefusedRest(images, blockSize, 0, |images|);
    }
  }

  // What a failed placement of one image means for the whole.
  lemma {:induction false} RefusedFixed(images: seq<BootImage>, alignment: nat, n: nat, m: nat)
    requires alignment > 0 && n <= m <= |images| && FixedRanges(images, alignment, n).None?
    ensures FixedRanges(images, alignment, m).None?
    decreases m
  {
    if n < m {
      RefusedFixed(images, alignment, n, m - 1);
    }
  }

  lemma {:induction false} RefusedRest(images: seq<BootImage>, alignment: nat, n: nat, m: nat)
    requires alignment > 0 && n <= m <= |images| && AllRanges(images, alignment, n).None?
    ensures AllRanges(images, alignment, m).None?
    decreases m
  {
    if n < m {
      RefusedRest(images, alignment, n, m - 1);
    }
  }

  // The checks and the insertion of one image with an address.
  method TryAdd(tracker: Tracker<BootImage>, im: BootImage) returns (r: Result<()>)
    requires tracker.alignment > 0 && im.spiAddr.Some?
    modifies tracker
    ensures Became(r, old(tracker.ranges), tracker.alignment, FixedRange(im), tracker.ranges)
  {
    var start := im.spiAddr.value;
    if start % tracker.alignment != 0 {
      return Err("not aligned");
    }
    r := tracker.Add(start, start + |im.binary|, Some(im));
  }

  // One image that names its address.
  method AddFixed(tracker: Tracker<BootImage>, images: seq<BootImage>, n: nat) returns (r: Result<()>)
    requires tracker.alignment > 0 && DistinctTags(images) && n < |images| && images[n].spiAddr.Some?
    requires Tracks(tracker.ranges, Fixed(images, n)) && OnlyReserved(tracker.ranges)
    modifies tracker
    ensures Became(r, old(tracker.ranges), tracker.alignment, FixedRange(images[n]), tracker.ranges)
    ensures r.Ok? ==> Tracks(tracker.ranges, Fixed(images, n + 1)) && OnlyReserved(tracker.ranges)
    ensures SoundSpec(images, tracker.alignment) && old(Valid(tracker.ranges, tracker.alignment)) ==>
      r.Ok? && Valid(tracker.ranges, tracker.alignment)
  {
    ghost var before := tracker.ranges;
    if SoundSpec(images, tracker.alignment) && Valid(before, tracker.alignment) {
      FixedFits(before, images, n, tracker.alignment, FixedRange(images[n]));
    }
    r := TryAdd(tracker, images[n]);
    if r.Ok? {
      ghost var k := Scan(before, FixedRange(images[n]).start, FixedRange(images[n]).end, 0).value;
      FixedAdded(before, images, n, k, FixedRange(images[n]));
    }
  }

  lemma InitialRanges(images: seq<BootImage>, ranges: seq<Range<BootImage>>, alignment: nat)
    requires alignment > 0 && ranges == [Range(0, IMAGE_ADDR, None)]
    ensures Tracks(ranges, Fixed(images, 0)) && OnlyReserved(ranges) && Valid(ranges, alignment)
  {
    assert ranges[0] == Range(0, IMAGE_ADDR, None);
    assert 0 % alignment == 0;
  }

  // Place the images that name their address.
  method PlaceFixed(tracker: Tracker<BootImage>, images: seq<BootImage>) returns (r: Result<()>)
    requires tracker.alignment > 0 && DistinctTags(images)
    requires tracker.ranges == [Range(0, IMAGE_ADDR, None)]
    modifies tracker
    ensures r.Ok? <==> FixedRanges(images, tracker.alignment, |images|).Some?
    ensures r.Ok? ==> FixedRanges(images, tracker.alignment, |images|) == Some(tracker.ranges)
    ensures r.Ok? ==> Tracks(tracker.ranges, Fixed(images, |images|)) && OnlyReserved(tracker.ranges)
    ensures SoundSpec(images, tracker.alignment) ==> r.Ok? && Valid(tracker.ranges, tracker.alignment)
  {
    var n := 0;
    InitialRanges(images, tracker.ranges, tracker.alignment);
    while n < |images|
      invariant 0 <= n <= |images| && FixedRanges(images, tracker.alignment, n) == Some(tracker.ranges)
      invariant Tracks(tracker.ranges, Fixed(images, n)) && OnlyReserved(tracker.ranges)
      invariant SoundSpec(images, tracker.alignment) ==> Valid(tracker.ranges, tracker.alignment)
    {
      if images[n].spiAddr.Some? {
        r := AddFixed(tracker, images, n);
        if r.Err? {
          RefusedFixed(images, tracker.alignment, n + 1, |images|);
          return r;
        }
      } else {
        assert Fixed(images, n + 1) == Fixed(images, n);
      }
      n := n + 1;
    }
    r := Ok(());
  }

  function ExecutableTags(images: seq<BootImage>): seq<string> {
    if images == [] then []
    else
      var im := images[|images| - 1];
      ExecutableTags(images[..|images| - 1]) + if im.executable then [im.tag] else []
  }

  // ---- Where the images end up ------------------------------------------------------------------

  // n bytes at a and m bytes at b do not overlap.
  predicate ApartAt(a: nat, n: nat, b: nat, m: nat) {
    a + n <= b || b + m <= a
  }

  // Image i would be clear at a of everything that is placed before it.
  ghost predicate ClearAt(images: seq<BootImage>, at: seq<nat>, i: nat, a: nat)
    requires |at| == |images| && i < |images|
  {
    forall j :: 0 <= j < |images| && j != i && (images[j].spiAddr.Some? || j < i) ==>
      ApartAt(a, |images[i].binary|, at[j], |images[j].binary|)
  }

  // Image i is at the lowest aligned address past the reserved region that is clear.
  ghost predicate LowestHole(images: seq<BootImage>, at: seq<nat>, i: nat, blockSize: nat)
    requires |at| == |images| && i < |images| && blockSize > 0
  {
    && at[i] % blockSize == 0 && at[i] >= IMAGE_ADDR && ClearAt(images, at, i, at[i])
    && forall a: nat :: IMAGE_ADDR <= a < at[i] && a % blockSize == 0 ==> !ClearAt(images, at, i, a)
  }

  // The addresses of the images: their own, or else the first fit in file order.
  ghost predicate PlacedUpTo(images: seq<BootImage>, blockSize: nat, at: seq<nat>, n: nat)
    requires blockSize > 0 && n <= |images|
  {
    && |at| == |images|
    && (forall i :: 0 <= i < |images| && images[i].spiAddr.Some? ==> at[i] == images[i].spiAddr.value)
    && (forall i :: 0 <= i < n && images[i].spiAddr.None? ==> LowestHole(images, at, i, blockSize))
  }

  ghost predicate Placement(images: seq<BootImage>, blockSize: nat, at: seq<nat>)
    requires blockSize > 0
  {
    PlacedUpTo(images, blockSize, at, |images|)
  }

  lemma SameClear(images: seq<BootImage>, at: seq<nat>, bt: seq<nat>, i: nat, a: nat)
    requires |at| == |bt| == |images| && i < |images|
    requires forall j :: 0 <= j < |images| && j != i && (images[j].spiAddr.Some? || j < i) ==> at[j] == bt[j]
    ensures ClearAt(images, at, i, a) <==> ClearAt(images, bt, i, a)
  {
  }

  /** The specification determines the addresses. */
  lemma {:induction false} PlacementUnique(images: seq<BootImage>, blockSize: nat, at: seq<nat>, bt: seq<nat>, n: nat)
    requires blockSize > 0 && n <= |images|
    requires Placement(images, blockSize, at) && Placement(images, blockSize, bt)
    ensures forall j :: 0 <= j < |images| && (images[j].spiAddr.Some? || j < n) ==> at[j] == bt[j]
  {
    if n > 0 {
      var i := n - 1;
      PlacementUnique(images, blockSize, at, bt, i);
      if images[i].spiAddr.None? {
        assert LowestHole(images, at, i, blockSize) && LowestHole(images, bt, i, blockSize);
        SameClear(images, at, bt, i, at[i]);
        SameClear(images, at, bt, i, bt[i]);
      }
    }
  }

  // The tracker holds every placed image at its address.
  ghost predicate Sited(ranges: seq<Range<BootImage>>, images: seq<BootImage>, at: seq<nat>, n: nat)
    requires |at| == |images|
  {
    forall k, i :: 0 <= k < |ranges| && 0 <= i < |images| && ranges[k].data == Some(images[i]) ==>
      images[i].spiAddr.Some? || i < n ==> ranges[k].start == at[i]
  }

  lemma PlacedRange(ranges: seq<Range<BootImage>>, images: seq<BootImage>, n: nat, i: nat) returns (k: nat)
    requires n <= |images| && i < |images| && (images[i].spiAddr.Some? || i < n) && Tracks(ranges, PlacedBy(images, n))
    ensures k < |ranges| && ranges[k].data == Some(images[i]) && HoldsImage(ranges[k])
  {
    assert images[i] in PlacedBy(images, n);
    k :| 0 <= k < |ranges| && ranges[k].data == Some(images[i]);
  }

  lemma PlacedImage(ranges: seq<Range<BootImage>>, images: seq<BootImage>, n: nat, k: nat) returns (i: nat)
    requires n <= |images| && k < |ranges| && ranges[k].data.Some? && Tracks(ranges, PlacedBy(images, n))
    ensures i < |images| && (images[i].spiAddr.Some? || i < n) && ranges[k].data == Some(images[i])
  {
    assert ranges[k].data.value in PlacedBy(images, n);
    i :| 0 <= i < |images| && (images[i].spiAddr.Some? || i < n) && images[i] == ranges[k].data.value;
  }

  // Past the reserved region, what the tracker calls free is what is clear.
  lemma FreeIsClear(ranges: seq<Range<BootImage>>, images: seq<BootImage>, at: seq<nat>, n: nat, a: nat)
    requires |at| == |images| && n < |images| && images[n].spiAddr.None? && images[n].binary != [] && a >= IMAGE_ADDR
    requires Tracks(ranges, PlacedBy(images, n)) && OnlyReserved(ranges) && Sited(ranges, images, at, n)
    requires forall i :: 0 <= i < |images| ==> images[i].binary != []
    ensures Free(ranges, a, a + |images[n].binary|) <==> ClearAt(images, at, n, a)
  {
    var size := |images[n].binary|;
    if Free(ranges, a, a + size) {
      forall j | 0 <= j < |images| && j != n && (images[j].spiAddr.Some? || j < n)
        ensures ApartAt(a, size, at[j], |images[j].binary|)
      {
        var k := PlacedRange(ranges, images, n, j);
        assert !Meets(ranges[k], a, a + size);
      }
    }
    if ClearAt(images, at, n, a) {
      forall k | 0 <= k < |ranges| ensures !Meets(ranges[k], a, a + size) {
        if ranges[k].data.Some? {
          var j := PlacedImage(ranges, images, n, k);
          assert ApartAt(a, size, at[j], |images[j].binary|);
        }
      }
    }
  }

  // The reserved region comes first in the tracker.
  lemma ReservedFirst(ranges: seq<Range<BootImage>>, alignment: nat)
    requires Valid(ranges, alignment) && Reserved(ranges)
    ensures ranges != [] && ranges[0] == Range(0, IMAGE_ADDR, None)
  {
    var r :| 0 <= r < |ranges| && ranges[r] == Range(0, IMAGE_ADDR, None);
    assert ranges[0].start < ranges[0].end;
  }

  // First fit over the tracker's ranges is the lowest hole among the images.
  lemma FitIsLowest(ranges: seq<Range<BootImage>>, images: seq<BootImage>, at: seq<nat>, n: nat, blockSize: nat,
          start: nat)
    requires |at| == |images| && n < |images| && images[n].spiAddr.None? && at[n] == start && blockSize > 0
    requires Tracks(ranges, PlacedBy(images, n)) && OnlyReserved(ranges) && Sited(ranges, images, at, n)
    requires forall i :: 0 <= i < |images| ==> images[i].binary != []
    requires Valid(ranges, blockSize) && FirstFit(ranges, blockSize, |images[n].binary|, start)
    ensures LowestHole(images, at, n, blockSize)
  {
    ReservedFirst(ranges, blockSize);
    FreeIsClear(ranges, images, at, n, start);
    forall a: nat | IMAGE_ADDR <= a < start && a % blockSize == 0 ensures !ClearAt(images, at, n, a) {
      FreeIsClear(ranges, images, at, n, a);
    }
  }

  lemma RestAdded(before: seq<Range<BootImage>>, images: seq<BootImage>, n: nat, k: nat, range: Range<BootImage>)
    requires DistinctTags(images) && n < |images| && images[n].spiAddr.None? && k <= |before|
    requires Tracks(before, PlacedBy(images, n)) && OnlyReserved(before)
    requires range == Range(range.start, range.start + |images[n].binary|, Some(images[n]))
    ensures Tracks(InsertAt(before, k, range), PlacedBy(images, n + 1)) && OnlyReserved(InsertAt(before, k, range))
  {
    assert images[n] !in PlacedBy(images, n);
    TracksInsert(before, PlacedBy(images, n), k, range);
    OnlyReservedInsert(before, k, range);
    assert PlacedBy(images, n + 1) == PlacedBy(images, n) + {images[n]};
  }

  lemma SitedAdded(before: seq<Range<BootImage>>, images: seq<BootImage>, at: seq<nat>, n: nat, k: nat,
          range: Range<BootImage>)
    requires DistinctTags(images) && |at| == |images| && n < |images| && images[n].spiAddr.None? && k <= |before|
    requires Sited(before, images, at, n) && Tracks(before, PlacedBy(images, n)) && range.data == Some(images[n])
    ensures Sited(InsertAt(before, k, range), images, at[n := range.start], n + 1)
  {
    var s := InsertAt(before, k, range);
    assert images[n] !in PlacedBy(images, n);
    forall l, i | (0 <= l < |s| && 0 <= i < |images|
                && (images[i].spiAddr.Some? || i < n + 1) && s[l].data == Some(images[i]))
      ensures s[l].start == at[n := range.start][i]
    {
      if l != k {
        assert s[l] == before[if l < k then l else l - 1];
      }
    }
  }

  lemma PlacedOneMore(images: seq<BootImage>, blockSize: nat, at: seq<nat>, n: nat, start: nat)
    requires blockSize > 0 && n < |images| && images[n].spiAddr.None? && PlacedUpTo(images, blockSize, at, n)
    requires LowestHole(images, at[n := start], n, blockSize)
    ensures PlacedUpTo(images, blockSize, at[n := start], n + 1)
  {
    var bt := at[n := start];
    forall i | 0 <= i < n + 1 && images[i].spiAddr.None? ensures LowestHole(images, bt, i, blockSize) {
      if i < n {
        assert LowestHole(images, at, i, blockSize);
        forall a: nat ensures ClearAt(images, at, i, a) <==> ClearAt(images, bt, i, a) {
          SameClear(images, at, bt, i, a);
        }
      }
    }
  }

  // The first n images are placed, those that name an address all of them.
  ghost predicate Going(ranges: seq<Range<BootImage>>, images: seq<BootImage>, alignment: nat, at: seq<nat>, n: nat)
    requires alignment > 0
  {
    && n <= |images| == |at| && AllRanges(images, alignment, n) == Some(ranges)
    && Tracks(ranges, PlacedBy(images, n)) && OnlyReserved(ranges) && Sited(ranges, images, at, n)
    && (SoundSpec(images, alignment) ==> Valid(ranges, alignment) && PlacedUpTo(images, alignment, at, n))
  }

  lemma OneMoreFits(before: seq<Range<BootImage>>, images: seq<BootImage>, at: seq<nat>, n: nat, blockSize: nat,
          start: nat)
    requires |at| == |images| && n < |images| && images[n].spiAddr.None? && blockSize > 0
    requires Tracks(before, PlacedBy(images, n)) && OnlyReserved(before) && Sited(before, images, at, n)
    requires forall i :: 0 <= i < |images| ==> images[i].binary != []
    requires Valid(before, blockSize) && FirstFit(before, blockSize, |images[n].binary|, start)
    requires PlacedUpTo(images, blockSize, at, n)
    ensures PlacedUpTo(images, blockSize, at[n := start], n + 1)
  {
    SitedKept(before, images, at, at[n := start], n);
    FitIsLowest(before, images, at[n := start], n, blockSize, start);
    PlacedOneMore(images, blockSize, at, n, start);
  }

  lemma SitedKept(ranges: seq<Range<BootImage>>, images: seq<BootImage>, at: seq<nat>, bt: seq<nat>, n: nat)
    requires |at| == |images| && n < |images| && images[n].spiAddr.None? && Sited(ranges, images, at, n)
    requires |bt| == |at| && bt == at[n := bt[n]]
    ensures Sited(ranges, images, bt, n)
  {
  }

  // Place image n first-fit unless it has an address.
  method PlaceOne(tracker: Tracker<BootImage>, images: seq<BootImage>, n: nat, ghost at: seq<nat>)
    returns (r: Result<()>, ghost bt: seq<nat>)
    requires tracker.alignment > 0 && DistinctTags(images) && n < |images|
    requires Going(tracker.ranges, images, tracker.alignment, at, n)
    modifies tracker
    ensures |bt| == |images| && (SoundSpec(images, tracker.alignment) ==> r.Ok?)
    ensures r.Ok? ==> Going(tracker.ranges, images, tracker.alignment, bt, n + 1)
    ensures r.Err? ==> AllRanges(images, tracker.alignment, n + 1).None?
  {
    var im := images[n];
    bt := at;
    if im.spiAddr.None? {
      ghost var before := tracker.ranges;
      ghost var start, k;
      r, start, k := tracker.Insert(|im.binary|, im);
      if r.Ok? {
        bt := at[n := start];
        PlacedNext(before, tracker.ranges, images, tracker.alignment, at, n, start, k);
      }
    } else {
      SkippedNext(tracker.ranges, images, tracker.alignment, at, n);
      r := Ok(());
    }
  }

  lemma SkippedNext(ranges: seq<Range<BootImage>>, images: seq<BootImage>, alignment: nat, at: seq<nat>, n: nat)
    requires alignment > 0 && n < |images| && images[n].spiAddr.Some? && Going(ranges, images, alignment, at, n)
    ensures Going(ranges, images, alignment, at, n + 1)
  {
    assert PlacedBy(images, n + 1) == PlacedBy(images, n);
  }

  lemma PlacedNext(before: seq<Range<BootImage>>, after: seq<Range<BootImage>>, images: seq<BootImage>,
          alignment: nat, at: seq<nat>, n: nat, start: nat, k: nat)
    requires alignment > 0 && DistinctTags(images) && n < |images| && images[n].spiAddr.None?
    requires Going(before, images, alignment, at, n) && k <= |before|
    requires after == InsertAt(before, k, Range(start, start + |images[n].binary|, Some(images[n])))
    requires WithRest(Some(before), alignment, images[n]) == Some(after)
    requires SoundSpec(images, alignment) ==>
      Valid(after, alignment) && FirstFit(before, alignment, |images[n].binary|, start)
    ensures Going(after, images, alignment, at[n := start], n + 1)
  {
    var range := Range(start, start + |images[n].binary|, Some(images[n]));
    RestAdded(before, images, n, k, range);
    SitedAdded(before, images, at, n, k, range);
    if SoundSpec(images, alignment) {
      OneMoreFits(before, images, at, n, alignment, start);
    }
  }

  // Place the others first-fit, and list the executable ones.
  method PlaceRest(tracker: Tracker<BootImage>, images: seq<BootImage>)
    returns (r: Result<()>, tagOrder: seq<string>, ghost at: seq<nat>)
    requires tracker.alignment > 0 && DistinctTags(images)
    requires Tracks(tracker.ranges, Fixed(images, |images|)) && OnlyReserved(tracker.ranges)
    requires SoundSpec(images, tracker.alignment) ==> Valid(tracker.ranges, tracker.alignment)
    requires FixedRanges(images, tracker.alignment, |images|) == Some(tracker.ranges)
    modifies tracker
    ensures |at| == |images| && (SoundSpec(images, tracker.alignment) ==> r.Ok?)
    ensures r.Err? ==> AllRanges(images, tracker.alignment, |images|).None?
    ensures r.Ok? ==>
      tagOrder == ExecutableTags(images) && Going(tracker.ranges, images, tracker.alignment, at, |images|)
  {
    tagOrder := [];
    at := GivenAddresses(images);
    var n := 0;
    StartGoing(tracker.ranges, images, tracker.alignment);
    while n < |images|
      invariant 0 <= n <= |images| && |at| == |images| && tagOrder == ExecutableTags(images[..n])
      invariant Going(tracker.ranges, images, tracker.alignment, at, n)
    {
      r, at := PlaceOne(tracker, images, n, at);
      if r.Err? {
        RefusedRest(images, tracker.alignment, n + 1, |images|);
        return r, tagOrder, at;
      }
      tagOrder := Listed(images, n, tagOrder);
      n := n + 1;
    }
    assert images[..n] == images;
    r := Ok(());
  }

  // The tag of an executable goes to the front of the order.
  method Listed(images: seq<BootImage>, n: nat, tagOrder: seq<string>) returns (order: seq<string>)
    requires n < |images| && tagOrder == ExecutableTags(images[..n])
    ensures order == ExecutableTags(images[..n + 1])
  {
    ExecutableNext(images, n);
    order := tagOrder;
    if images[n].executable {
      order := order + [images[n].tag];
    }
  }

  lemma ExecutableNext(images: seq<BootImage>, n: nat)
    requires n < |images|
    ensures ExecutableTags(images[..n + 1])
         == ExecutableTags(images[..n]) + if images[n].executable then [images[n].tag] else []
  {
    assert images[..n + 1][..n] == images[..n];
  }

  lemma StartGoing(ranges: seq<Range<BootImage>>, images: seq<BootImage>, alignment: nat)
    requires alignment > 0 && FixedRanges(images, alignment, |images|) == Some(ranges)
    requires Tracks(ranges, Fixed(images, |images|)) && OnlyReserved(ranges)
    requires SoundSpec(images, alignment) ==> Valid(ranges, alignment)
    ensures Going(ranges, images, alignment, GivenAddresses(images), 0)
  {
    assert PlacedBy(images, 0) == Fixed(images, |images|);
  }

  // The addresses the specification gives, 0 for the images without one.
  ghost function GivenAddresses(images: seq<BootImage>): (at: seq<nat>)
    ensures |at| == |images|
    ensures forall i :: 0 <= i < |images| && images[i].spiAddr.Some? ==> at[i] == images[i].spiAddr.value
  {
    seq(|images|, i requires 0 <= i < |images| => if images[i].spiAddr.Some? then images[i].spiAddr.value else 0)
  }

  // The tags of the image ranges among the first n, each with its entry.
  ghost predicate Collected(ranges: seq<Range<BootImage>>, n: nat, entries: map<string, FsEntry>)
    requires n <= |ranges|
  {
    && (forall i :: 0 <= i < n && ranges[i].data.Some? ==>
          var im := ranges[i].data.value;
          im.tag in entries && entries[im.tag] == EntryOf(im, ranges[i].start))
    && (forall t :: t in entries ==> exists i :: 0 <= i < n && ranges[i].data.Some? && ranges[i].data.value.tag == t)
  }

  ghost predicate TagsDiffer(ranges: seq<Range<BootImage>>) {
    forall i, j :: 0 <= i < j < |ranges| && ranges[i].data.Some? && ranges[j].data.Some? ==>
      ranges[i].data.value.tag != ranges[j].data.value.tag
  }

  ghost predicate NoRepeats(order: seq<string>) {
    forall i, j :: 0 <= i < j < |order| ==> order[i] != order[j]
  }

  // The tags of the first n ranges, in their order, without the listed ones.
  function Unlisted(ranges: seq<Range<BootImage>>, n: nat, listed: seq<string>): (u: seq<string>)
    requires n <= |ranges|
  {
    if n == 0 then []
    else
      var u := Unlisted(ranges, n - 1, listed);
      var d := ranges[n - 1].data;
      if d.Some? && d.value.tag !in listed then u + [d.value.tag] else u
  }

  // Walk the tracker in address order, filling the entries and the order.
  method Collect(ranges: seq<Range<BootImage>>, tagOrder: seq<string>)
    returns (order: seq<string>, entries: map<string, FsEntry>)
    requires TagsDiffer(ranges) && NoRepeats(tagOrder)
    ensures Collected(ranges, |ranges|, entries)
    ensures order == tagOrder + Unlisted(ranges, |ranges|, tagOrder) && NoRepeats(order)
    ensures forall t :: t in order <==> t in tagOrder || t in entries
  {
    order, entries := tagOrder, map[];
    var i := 0;
    while i < |ranges|
      invariant 0 <= i <= |ranges| && Collected(ranges, i, entries)
      invariant order == tagOrder + Unlisted(ranges, i, tagOrder) && NoRepeats(order)
      invariant forall t :: t in order <==> t in tagOrder || t in entries
    {
      if ranges[i].data.Some? {
        var im := ranges[i].data.value;
        ghost var before := entries;
        entries := entries[im.tag := EntryOf(im, ranges[i].start)];
        forall t | t in entries
          ensures exists j :: 0 <= j < i + 1 && ranges[j].data.Some? && ranges[j].data.value.tag == t
        {
          if t == im.tag {
            assert ranges[i].data.value.tag == t;
          } else {
            assert t in before;
          }
        }
        if im.tag !in order {
          order := order + [im.tag];
        }
      }
      i := i + 1;
    }
  }

  // What the builder promises about every image, whatever the specification.
  ghost predicate Represents(fs: FileSystem, images: seq<BootImage>) {
    && NoRepeats(fs.order)
    && ExecutableTags(images) <= fs.order
    && (forall i :: 0 <= i < |images| ==> images[i].tag in fs.order && images[i].tag in fs.entries)
    && (forall t :: t in fs.order ==> exists i :: 0 <= i < |images| && images[i].tag == t)
    && (forall t :: t in fs.entries ==> t == FAILOVER || t in fs.order)
    && (forall i :: 0 <= i < |images| && images[i].tag != FAILOVER ==>
          Matches(fs.entries[images[i].tag], images[i]))
  }

  // The entry carries the image, at its address if it asked for one.
  predicate Matches(e: FsEntry, im: BootImage) {
    && e.provisioningOnly == im.provisioningOnly && e.executable == im.executable && e.tag == im.tag
    && e.data == im.binary && e.loadAddr == im.loadAddr && (im.spiAddr.Some? ==> e.spiAddr == im.spiAddr.value)
  }

  // The images' payloads lie above the reserved region, non-empty and pairwise disjoint.
  ghost predicate ImagesClear(fs: FileSystem) {
    && Keyed(fs)
    && (forall i :: 0 <= i < |fs.order| ==> Payload(fs, i).addr >= IMAGE_ADDR && Payload(fs, i).data != [])
    && (forall i, j :: 0 <= i < j < |fs.order| ==> Disjoint(Payload(fs, i), Payload(fs, j)))
  }

  // The failover image as well.
  ghost predicate PayloadsClear(fs: FileSystem) {
    && ImagesClear(fs)
    && FailoverPayload(fs).addr >= IMAGE_ADDR && FailoverPayload(fs).data != []
    && (forall i :: 0 <= i < |fs.order| ==> Disjoint(Payload(fs, i), FailoverPayload(fs)))
  }

  // The failover image may lie anywhere that nothing else is written to.
  ghost predicate FailoverClear(fs: FileSystem)
    requires Keyed(fs)
  {
    var f := FailoverPayload(fs);
    && Beside(fs, |fs.order|, f)
    && Disjoint(FailoverHead(fs), f) && Disjoint(Training, f)
  }

  function FailoverHead(fs: FileSystem): Write
    requires Keyed(fs)
  {
    Write(true, FAILOVER_HEAD_ADDR, Descriptor(fs.entries[FAILOVER]))
  }

  const Training := Write(true, SPI_RX_ADDR, Le32(SPI_RX_VALUE))

  function Payload(fs: FileSystem, i: nat): Write
    requires Keyed(fs) && i < |fs.order|
  {
    var e := fs.entries[fs.order[i]];
    Write(!e.provisioningOnly, e.spiAddr, e.data)
  }

  function FailoverPayload(fs: FileSystem): Write
    requires Keyed(fs)
  {
    Write(true, fs.entries[FAILOVER].spiAddr, fs.entries[FAILOVER].data)
  }

  predicate Disjoint(a: Write, b: Write) {
    a.End() <= b.addr || b.End() <= a.addr
  }

  ghost predicate AllDisjoint(ws: seq<Write>) {
    forall i, j :: 0 <= i < j < |ws| ==> Disjoint(ws[i], ws[j])
  }

  ghost predicate ApartFrom(ws: seq<Write>, w: Write) {
    forall i :: 0 <= i < |ws| ==> Disjoint(ws[i], w)
  }

  lemma {:induction false} InsertStaysDisjoint(ws: seq<Write>, w: Write)
    requires AllDisjoint(ws) && ApartFrom(ws, w)
    ensures AllDisjoint(InsertByAddr(ws, w))
    ensures forall x: Write :: ApartFrom(ws, x) && Disjoint(w, x) ==> ApartFrom(InsertByAddr(ws, w), x)
  {
    if ws != [] && ws[|ws| - 1].addr > w.addr {
      var n := |ws| - 1;
      InsertStaysDisjoint(ws[..n], w);
      assert ApartFrom(ws[..n], ws[n]);
    }
  }

  lemma {:induction false} SortStaysDisjoint(ws: seq<Write>)
    requires AllDisjoint(ws)
    ensures AllDisjoint(SortByAddr(ws))
    ensures forall x: Write :: ApartFrom(ws, x) ==> ApartFrom(SortByAddr(ws), x)
  {
    if ws != [] {
      var n := |ws| - 1;
      SortStaysDisjoint(ws[..n]);
      assert ApartFrom(ws[..n], ws[n]);
      InsertStaysDisjoint(SortByAddr(ws[..n]), ws[n]);
      forall x: Write | ApartFrom(ws, x) ensures ApartFrom(SortByAddr(ws), x) {
        assert ApartFrom(ws[..n], x);
      }
    }
  }

  /** Disjoint non-empty writes always pass the re-check of writes(). */
  lemma DisjointPasses(ws: seq<Write>)
    requires AllDisjoint(ws) && forall i :: 0 <= i < |ws| ==> ws[i].data != []
    ensures NoHits(SortByAddr(ws))
  {
    var s := SortByAddr(ws);
    SortByAddrSorts(ws);
    SortStaysDisjoint(ws);
    forall i | 0 <= i < |s| ensures s[i].data != [] {
      assert s[i] in multiset(s) && s[i] in multiset(ws);
    }
    RecheckExact(s);
  }

  // x lies above the first n descriptors and clear of the first n payloads.
  ghost predicate Beside(fs: FileSystem, n: nat, x: Write)
    requires Keyed(fs) && n <= |fs.order|
  {
    FD_SIZE * n <= x.addr && forall i :: 0 <= i < n ==> Disjoint(Payload(fs, i), x)
  }

  lemma {:induction false} ImageWritesApart(fs: FileSystem, n: nat, x: Write)
    requires Keyed(fs) && n <= |fs.order| && Beside(fs, n, x)
    ensures ApartFrom(ImageWrites(fs, n), x)
  {
    if n > 0 {
      assert Beside(fs, n - 1, x);
      ImageWritesApart(fs, n - 1, x);
      var d := Write(true, FD_SIZE * (n - 1), Descriptor(fs.entries[fs.order[n - 1]]));
      assert ImageWrites(fs, n) == ImageWrites(fs, n - 1) + [d, Payload(fs, n - 1)];
      assert Disjoint(d, x) && Disjoint(Payload(fs, n - 1), x);
    }
  }

  lemma AppendDisjoint(ws: seq<Write>, w: Write)
    requires AllDisjoint(ws) && ApartFrom(ws, w)
    ensures AllDisjoint(ws + [w])
  {
  }

  lemma AppendApart(ws: seq<Write>, w: Write, x: Write)
    requires ApartFrom(ws, x) && Disjoint(w, x)
    ensures ApartFrom(ws + [w], x)
  {
  }

  lemma AppendTwo(ws: seq<Write>, d: Write, p: Write)
    ensures (AllDisjoint(ws) && ApartFrom(ws, d) && ApartFrom(ws, p) && Disjoint(d, p))
      ==> AllDisjoint(ws + [d] + [p])
    ensures Filled(ws) && d.data != [] && p.data != [] ==> Filled(ws + [d] + [p])
  {
    if AllDisjoint(ws) && ApartFrom(ws, d) && ApartFrom(ws, p) && Disjoint(d, p) {
      AppendDisjoint(ws, d);
      AppendApart(ws, d, p);
      AppendDisjoint(ws + [d], p);
    }
  }

  // The two writes of an entry.
  lemma EntryPair(fs: FileSystem, i: nat) returns (d: Write, p: Write)
    requires ImagesClear(fs) && i < |fs.order| <= 512
    ensures d.data != [] && p.data != [] && Disjoint(d, p) && Beside(fs, i, d) && Beside(fs, i, p)
    ensures ImageWrites(fs, i + 1) == ImageWrites(fs, i) + [d] + [p]
  {
    d, p := Write(true, FD_SIZE * i, Descriptor(fs.entries[fs.order[i]])), Payload(fs, i);
  }

  lemma EntryApart(fs: FileSystem, i: nat) returns (d: Write, p: Write)
    requires ImagesClear(fs) && i < |fs.order| <= 512
    ensures d.data != [] && p.data != [] && Disjoint(d, p)
    ensures ApartFrom(ImageWrites(fs, i), d) && ApartFrom(ImageWrites(fs, i), p)
    ensures ImageWrites(fs, i + 1) == ImageWrites(fs, i) + [d] + [p]
  {
    d, p := EntryPair(fs, i);
    ImageWritesApart(fs, i, d);
    ImageWritesApart(fs, i, p);
  }

  ghost predicate Filled(ws: seq<Write>) {
    forall i :: 0 <= i < |ws| ==> ws[i].data != []
  }

  lemma OneEntryMore(fs: FileSystem, i: nat)
    requires ImagesClear(fs) && i < |fs.order| <= 512
    requires AllDisjoint(ImageWrites(fs, i)) && Filled(ImageWrites(fs, i))
    ensures AllDisjoint(ImageWrites(fs, i + 1)) && Filled(ImageWrites(fs, i + 1))
  {
    var d, p := EntryApart(fs, i);
    AppendTwo(ImageWrites(fs, i), d, p);
  }

  lemma {:induction false} ImageWritesClear(fs: FileSystem, n: nat)
    requires ImagesClear(fs) && n <= |fs.order| <= 512
    ensures AllDisjoint(ImageWrites(fs, n)) && Filled(ImageWrites(fs, n))
  {
    if n > 0 {
      ImageWritesClear(fs, n - 1);
      OneEntryMore(fs, n - 1);
    }
  }

  /** A file system whose images are clear and whose failover image is out of the way
      passes writes(). */
  lemma ClearPrints(fs: FileSystem)
    requires ImagesClear(fs) && FailoverClear(fs) && fs.entries[FAILOVER].data != [] && |fs.order| <= 512
    ensures NoHits(SortByAddr(RawWrites(fs)))
  {
    var n := |fs.order|;
    var ws := ImageWrites(fs, n);
    var a, b, c := FailoverHead(fs), FailoverPayload(fs), Training;
    ImageWritesClear(fs, n);
    assert Beside(fs, n, a) && Beside(fs, n, c);
    ImageWritesApart(fs, n, a);
    ImageWritesApart(fs, n, b);
    ImageWritesApart(fs, n, c);
    AppendDisjoint(ws, a);
    AppendApart(ws, a, b);
    AppendDisjoint(ws + [a], b);
    AppendApart(ws, a, c);
    AppendApart(ws + [a], b, c);
    AppendDisjoint(ws + [a] + [b], c);
    assert RawWrites(fs) == ws + [a] + [b] + [c];
    DisjointPasses(RawWrites(fs));
  }

  lemma ClearFailoverIsClear(fs: FileSystem)
    requires PayloadsClear(fs) && |fs.order| <= 512
    ensures FailoverClear(fs)
  {
  }

  // Two different image ranges of a valid tracker do not overlap, and neither
  // reaches into the reserved region.
  lemma RangesClear(ranges: seq<Range<BootImage>>, alignment: nat, i: nat, j: nat)
    requires Valid(ranges, alignment) && Reserved(ranges)
    requires i < |ranges| && j < |ranges| && i != j && ranges[i].data.Some?
    ensures ranges[i].start >= IMAGE_ADDR
    ensures ranges[i].end <= ranges[j].start || ranges[j].end <= ranges[i].start
  {
    var r :| 0 <= r < |ranges| && ranges[r] == Range(0, IMAGE_ADDR, None);
    assert r != i;
    assert r < i || i < r;
    assert i < j || j < i;
  }

  ghost predicate TracksAll(ranges: seq<Range<BootImage>>, images: seq<BootImage>) {
    Tracks(ranges, PlacedBy(images, |images|)) && DistinctTags(images)
  }

  lemma ImageRange(ranges: seq<Range<BootImage>>, images: seq<BootImage>, i: nat) returns (k: nat)
    requires TracksAll(ranges, images) && i < |images|
    ensures k < |ranges| && ranges[k].data == Some(images[i]) && HoldsImage(ranges[k])
  {
    assert images[i] in PlacedBy(images, |images|);
    k :| 0 <= k < |ranges| && ranges[k].data == Some(images[i]);
  }

  lemma RangeImage(ranges: seq<Range<BootImage>>, images: seq<BootImage>, k: nat) returns (i: nat)
    requires TracksAll(ranges, images) && k < |ranges| && ranges[k].data.Some?
    ensures i < |images| && ranges[k].data == Some(images[i])
  {
    assert ranges[k].data.value in PlacedBy(images, |images|);
    i :| 0 <= i < |images| && images[i] == ranges[k].data.value;
  }

  lemma TrackedTagsDiffer(ranges: seq<Range<BootImage>>, images: seq<BootImage>)
    requires TracksAll(ranges, images)
    ensures TagsDiffer(ranges)
  {
    forall k, l | 0 <= k < l < |ranges| && ranges[k].data.Some? && ranges[l].data.Some?
      ensures ranges[k].data.value.tag != ranges[l].data.value.tag
    {
      var i := RangeImage(ranges, images, k);
      var j := RangeImage(ranges, images, l);
      assert ranges[k].data != ranges[l].data;
      assert i < j || j < i;
    }
  }

  lemma NoRepeatsMore(s: seq<string>, t: string)
    requires NoRepeats(s) && t !in s
    ensures NoRepeats(s + [t])
  {
  }

  lemma {:induction false} ExecutableTagsOf(images: seq<BootImage>)
    requires DistinctTags(images)
    ensures NoRepeats(ExecutableTags(images))
    ensures forall t :: t in ExecutableTags(images) ==> exists i :: 0 <= i < |images| && images[i].tag == t
  {
    if images != [] {
      var n := |images| - 1;
      ExecutableTagsOf(images[..n]);
      var s := ExecutableTags(images[..n]);
      forall t | t in s ensures t != images[n].tag && exists i :: 0 <= i < |images| && images[i].tag == t {
        var i :| 0 <= i < n && images[..n][i].tag == t;
        assert images[i].tag == t;
      }
      NoRepeatsMore(s, images[n].tag);
      var all := ExecutableTags(images);
      assert all == s || all == s + [images[n].tag];
      forall t | t in all ensures exists i :: 0 <= i < |images| && images[i].tag == t {
        if t !in s {
          assert images[n].tag == t;
        }
      }
    }
  }

  lemma BuildRepresents(ranges: seq<Range<BootImage>>, images: seq<BootImage>, entries: map<string, FsEntry>,
          order: seq<string>, f: FsEntry)
    requires TracksAll(ranges, images) && Collected(ranges, |ranges|, entries)
    requires NoRepeats(order) && ExecutableTags(images) <= order
    requires forall t :: t in order <==> t in ExecutableTags(images) || t in entries
    ensures var fs := FileSystem(order, entries[FAILOVER := f]); Keyed(fs) && Represents(fs, images)
  {
    var fs := FileSystem(order, entries[FAILOVER := f]);
    ExecutableTagsOf(images);
    forall i | 0 <= i < |images| ensures images[i].tag in entries && Matches(entries[images[i].tag], images[i]) {
      var k := ImageRange(ranges, images, i);
    }
    forall t | t in order ensures t in entries && exists i :: 0 <= i < |images| && images[i].tag == t {
      if t in entries {
        var k :| 0 <= k < |ranges| && ranges[k].data.Some? && ranges[k].data.value.tag == t;
        var i := RangeImage(ranges, images, k);
      }
    }
  }

  lemma OrderRange(ranges: seq<Range<BootImage>>, fs: FileSystem, entries: map<string, FsEntry>, i: nat)
    returns (k: nat)
    requires Keyed(fs) && i < |fs.order| && Collected(ranges, |ranges|, entries)
    requires fs.order[i] in entries && fs.entries[fs.order[i]] == entries[fs.order[i]]
    requires forall k :: 0 <= k < |ranges| && ranges[k].data.Some? ==> HoldsImage(ranges[k])
    ensures k < |ranges| && ranges[k].data.Some? && ranges[k].data.value.tag == fs.order[i]
    ensures Payload(fs, i).addr == ranges[k].start && Payload(fs, i).End() == ranges[k].end
  {
    k :| 0 <= k < |ranges| && ranges[k].data.Some? && ranges[k].data.value.tag == fs.order[i];
  }

  // Everything known about the tracker once all images are placed.
  ghost predicate Settled(ranges: seq<Range<BootImage>>, alignment: nat, fs: FileSystem,
          entries: map<string, FsEntry>) {
    && Valid(ranges, alignment) && Reserved(ranges) && Collected(ranges, |ranges|, entries)
    && (forall k :: 0 <= k < |ranges| && ranges[k].data.Some? ==> HoldsImage(ranges[k]))
    && Keyed(fs) && NoRepeats(fs.order)
    && (forall i :: 0 <= i < |fs.order| ==> fs.order[i] in entries && fs.entries[fs.order[i]] == entries[fs.order[i]])
  }

  lemma PayloadClear(ranges: seq<Range<BootImage>>, alignment: nat, fs: FileSystem, entries: map<string, FsEntry>,
          i: nat)
    requires Settled(ranges, alignment, fs, entries) && i < |fs.order|
    ensures Payload(fs, i).addr >= IMAGE_ADDR && Payload(fs, i).data != []
    ensures forall w: Write :: Free(ranges, w.addr, w.End()) && w.data != [] ==> Disjoint(Payload(fs, i), w)
  {
    var k := OrderRange(ranges, fs, entries, i);
    var r :| 0 <= r < |ranges| && ranges[r] == Range(0, IMAGE_ADDR, None);
    RangesClear(ranges, alignment, k, r);
    forall w: Write | Free(ranges, w.addr, w.End()) && w.data != [] ensures Disjoint(Payload(fs, i), w) {
      assert !Meets(ranges[k], w.addr, w.End());
    }
  }

  lemma PayloadsDisjoint(ranges: seq<Range<BootImage>>, alignment: nat, fs: FileSystem,
          entries: map<string, FsEntry>, i: nat, j: nat)
    requires Settled(ranges, alignment, fs, entries) && i < j < |fs.order|
    ensures Disjoint(Payload(fs, i), Payload(fs, j))
  {
    var k := OrderRange(ranges, fs, entries, i);
    var l := OrderRange(ranges, fs, entries, j);
    RangesClear(ranges, alignment, k, l);
  }

  lemma BuildClear(ranges: seq<Range<BootImage>>, alignment: nat, fs: FileSystem, entries: map<string, FsEntry>)
    requires Settled(ranges, alignment, fs, entries)
    ensures ImagesClear(fs)
  {
    forall i | 0 <= i < |fs.order| ensures Payload(fs, i).addr >= IMAGE_ADDR && Payload(fs, i).data != [] {
      PayloadClear(ranges, alignment, fs, entries, i);
    }
    forall i, j | 0 <= i < j < |fs.order| ensures Disjoint(Payload(fs, i), Payload(fs, j)) {
      PayloadsDisjoint(ranges, alignment, fs, entries, i, j);
    }
  }

  // A failover image in a gap is clear of everything.
  lemma GapIsClear(ranges: seq<Range<BootImage>>, alignment: nat, fs: FileSystem, entries: map<string, FsEntry>)
    requires Settled(ranges, alignment, fs, entries) && FailoverPayload(fs).data != []
    requires Free(ranges, FailoverPayload(fs).addr, FailoverPayload(fs).End())
    ensures PayloadsClear(fs)
  {
    BuildClear(ranges, alignment, fs, entries);
    forall i | 0 <= i < |fs.order| ensures Disjoint(Payload(fs, i), FailoverPayload(fs)) {
      PayloadClear(ranges, alignment, fs, entries, i);
    }
    var r :| 0 <= r < |ranges| && ranges[r] == Range(0, IMAGE_ADDR, None);
    assert !Meets(ranges[r], FailoverPayload(fs).addr, FailoverPayload(fs).End());
  }

  ghost predicate ImagesAligned(fs: FileSystem, blockSize: nat)
    requires blockSize > 0
  {
    Keyed(fs) && forall i :: 0 <= i < |fs.order| ==> Payload(fs, i).addr % blockSize == 0
  }

  lemma BuildAligned(ranges: seq<Range<BootImage>>, alignment: nat, fs: FileSystem, entries: map<string, FsEntry>)
    requires alignment > 0 && Settled(ranges, alignment, fs, entries)
    ensures ImagesAligned(fs, alignment)
  {
    forall i | 0 <= i < |fs.order| ensures Payload(fs, i).addr % alignment == 0 {
      var k := OrderRange(ranges, fs, entries, i);
      assert ranges[k].start % alignment == 0;
    }
  }

  // Every image has its entry at its address.
  ghost predicate EntriesSited(fs: FileSystem, images: seq<BootImage>, at: seq<nat>) {
    && |at| == |images|
    && forall i :: 0 <= i < |images| ==> images[i].tag in fs.entries && fs.entries[images[i].tag].spiAddr == at[i]
  }

  lemma BuildSited(ranges: seq<Range<BootImage>>, images: seq<BootImage>, entries: map<string, FsEntry>,
          order: seq<string>, f: FsEntry, at: seq<nat>)
    requires TracksAll(ranges, images) && Collected(ranges, |ranges|, entries)
    requires |at| == |images| && Sited(ranges, images, at, |images|)
    requires forall i :: 0 <= i < |images| ==> images[i].tag != FAILOVER
    ensures EntriesSited(FileSystem(order, entries[FAILOVER := f]), images, at)
  {
    forall i | 0 <= i < |images| ensures images[i].tag in entries && entries[images[i].tag].spiAddr == at[i] {
      var k := ImageRange(ranges, images, i);
    }
  }

  // n bytes at a are clear of every image.
  ghost predicate ClearOfImages(images: seq<BootImage>, at: seq<nat>, a: nat, n: nat)
    requires |at| == |images|
  {
    forall i :: 0 <= i < |images| ==> ApartAt(a, n, at[i], |images[i].binary|)
  }

  lemma OrderImage(fs: FileSystem, images: seq<BootImage>, at: seq<nat>, k: nat) returns (i: nat)
    requires Keyed(fs) && Represents(fs, images) && EntriesSited(fs, images, at) && k < |fs.order|
    requires forall i :: 0 <= i < |images| ==> images[i].tag != FAILOVER
    ensures i < |images| && images[i].tag == fs.order[k]
    ensures Payload(fs, k).addr == at[i] && |Payload(fs, k).data| == |images[i].binary|
  {
    assert fs.order[k] in fs.order;
    i :| 0 <= i < |images| && images[i].tag == fs.order[k];
    assert Matches(fs.entries[images[i].tag], images[i]);
  }

  lemma ImageOrder(fs: FileSystem, images: seq<BootImage>, at: seq<nat>, i: nat) returns (k: nat)
    requires Keyed(fs) && Represents(fs, images) && EntriesSited(fs, images, at) && i < |images|
    requires forall i :: 0 <= i < |images| ==> images[i].tag != FAILOVER
    ensures k < |fs.order| && images[i].tag == fs.order[k]
    ensures Payload(fs, k).addr == at[i] && |Payload(fs, k).data| == |images[i].binary|
  {
    assert images[i].tag in fs.order;
    k :| 0 <= k < |fs.order| && fs.order[k] == images[i].tag;
    assert Matches(fs.entries[images[i].tag], images[i]);
  }

  // What lies clear of the payloads lies clear of the images at their addresses.
  lemma ClearOfPayloads(fs: FileSystem, images: seq<BootImage>, at: seq<nat>, x: Write)
    requires Keyed(fs) && Represents(fs, images) && EntriesSited(fs, images, at)
    requires forall i :: 0 <= i < |images| ==> images[i].tag != FAILOVER
    ensures (forall k :: 0 <= k < |fs.order| ==> Disjoint(Payload(fs, k), x))
      <==> ClearOfImages(images, at, x.addr, |x.data|)
  {
    if forall k :: 0 <= k < |fs.order| ==> Disjoint(Payload(fs, k), x) {
      forall i | 0 <= i < |images| ensures ApartAt(x.addr, |x.data|, at[i], |images[i].binary|) {
        var k := ImageOrder(fs, images, at, i);
      }
    }
    if ClearOfImages(images, at, x.addr, |x.data|) {
      forall k | 0 <= k < |fs.order| ensures Disjoint(Payload(fs, k), x) {
        var i := OrderImage(fs, images, at, k);
      }
    }
  }

  // The failover entry carries the failover image.
  predicate HoldsFailover(fs: FileSystem, failover: BootImage) {
    && Keyed(fs)
    && fs.entries[FAILOVER]
      == FsEntry(false, failover.tag, failover.binary, fs.entries[FAILOVER].spiAddr, failover.loadAddr, true)
  }

  // The failover image: its own address, or the first gap that fits.
  method PlaceFailover(tracker: Tracker<BootImage>, failover: BootImage) returns (e: FsEntry)
    requires tracker.alignment > 0
    ensures e == FsEntry(false, failover.tag, failover.binary, e.spiAddr, failover.loadAddr, true)
    ensures failover.spiAddr.Some? ==> e.spiAddr == failover.spiAddr.value
    ensures (failover.spiAddr.None? && |failover.binary| > 0
             && Valid(tracker.ranges, tracker.alignment) && PowerOfTwo(tracker.alignment)) ==>
        FirstFit(tracker.ranges, tracker.alignment, |e.data|, e.spiAddr)
  {
    var addr: nat;
    if failover.spiAddr.Some? {
      addr := failover.spiAddr.value;
    } else {
      var start, end := tracker.FindGapOfSize(|failover.binary|);
      addr := start;
    }
    e := FsEntry(false, failover.tag, failover.binary, addr, failover.loadAddr, true);
  }

  ghost predicate SoundFailover(images: seq<BootImage>, failover: BootImage) {
    && failover.binary != []
    && forall i :: 0 <= i < |images| ==> images[i].tag != FAILOVER
  }

  // The tags from position k on are in the order of their addresses.
  ghost predicate AddressOrdered(fs: FileSystem, k: nat)
    requires Keyed(fs)
  {
    forall a, b :: k <= a < b < |fs.order| ==> fs.entries[fs.order[a]].spiAddr < fs.entries[fs.order[b]].spiAddr
  }

  // a is the lowest aligned address past the reserved region with n bytes clear of every image.
  ghost predicate LowestClear(images: seq<BootImage>, at: seq<nat>, blockSize: nat, n: nat, a: nat)
    requires |at| == |images| && blockSize > 0
  {
    && a % blockSize == 0 && a >= IMAGE_ADDR && ClearOfImages(images, at, a, n)
    && forall b: nat :: IMAGE_ADDR <= b < a && b % blockSize == 0 ==> !ClearOfImages(images, at, b, n)
  }

  lemma FreeIsClearOfImages(ranges: seq<Range<BootImage>>, images: seq<BootImage>, at: seq<nat>, n: nat, a: nat)
    requires |at| == |images| && TracksAll(ranges, images) && OnlyReserved(ranges)
    requires Sited(ranges, images, at, |images|) && a >= IMAGE_ADDR && n > 0
    requires forall i :: 0 <= i < |images| ==> images[i].binary != []
    ensures Free(ranges, a, a + n) <==> ClearOfImages(images, at, a, n)
  {
    if Free(ranges, a, a + n) {
      forall j | 0 <= j < |images| ensures ApartAt(a, n, at[j], |images[j].binary|) {
        var k := PlacedRange(ranges, images, |images|, j);
        assert !Meets(ranges[k], a, a + n);
      }
    }
    if ClearOfImages(images, at, a, n) {
      forall k | 0 <= k < |ranges| ensures !Meets(ranges[k], a, a + n) {
        if ranges[k].data.Some? {
          var j := PlacedImage(ranges, images, |images|, k);
          assert ApartAt(a, n, at[j], |images[j].binary|);
        }
      }
    }
  }

  lemma FitIsLowestClear(ranges: seq<Range<BootImage>>, images: seq<BootImage>, at: seq<nat>, blockSize: nat, n: nat,
          a: nat)
    requires |at| == |images| && TracksAll(ranges, images) && OnlyReserved(ranges)
    requires Sited(ranges, images, at, |images|) && n > 0
    requires forall i :: 0 <= i < |images| ==> images[i].binary != []
    requires Valid(ranges, blockSize) && FirstFit(ranges, blockSize, n, a)
    ensures LowestClear(images, at, blockSize, n, a)
  {
    ReservedFirst(ranges, blockSize);
    FreeIsClearOfImages(ranges, images, at, n, a);
    forall b: nat | IMAGE_ADDR <= b < a && b % blockSize == 0 ensures !ClearOfImages(images, at, b, n) {
      FreeIsClearOfImages(ranges, images, at, n, b);
    }
  }

  // The tags are found at ascending addresses, below those of the ranges from n on.
  ghost predicate AscendsBelow(u: seq<string>, entries: map<string, FsEntry>, ranges: seq<Range<BootImage>>, n: nat) {
    && (forall a :: 0 <= a < |u| ==> u[a] in entries)
    && (forall a, b :: 0 <= a < b < |u| ==> entries[u[a]].spiAddr < entries[u[b]].spiAddr)
    && (forall a, m :: 0 <= a < |u| && n <= m < |ranges| ==> entries[u[a]].spiAddr < ranges[m].start)
  }

  lemma AscendsMore(u: seq<string>, entries: map<string, FsEntry>, ranges: seq<Range<BootImage>>, n: nat, t: string)
    requires n < |ranges| && Rising(ranges) && AscendsBelow(u, entries, ranges, n)
    requires t in entries && entries[t].spiAddr == ranges[n].start
    ensures AscendsBelow(u + [t], entries, ranges, n + 1)
  {
  }

  lemma AscendsStill(u: seq<string>, entries: map<string, FsEntry>, ranges: seq<Range<BootImage>>, n: nat)
    requires AscendsBelow(u, entries, ranges, n)
    ensures AscendsBelow(u, entries, ranges, n + 1)
  {
  }

  ghost predicate Rising(ranges: seq<Range<BootImage>>) {
    forall i, j :: 0 <= i < j < |ranges| ==> ranges[i].start < ranges[j].start
  }

  // The entry of every image tells where its range starts.
  ghost predicate Located(ranges: seq<Range<BootImage>>, entries: map<string, FsEntry>) {
    forall i :: 0 <= i < |ranges| && ranges[i].data.Some? ==>
      var t := ranges[i].data.value.tag; t in entries && entries[t].spiAddr == ranges[i].start
  }

  lemma SettledRises(ranges: seq<Range<BootImage>>, alignment: nat, entries: map<string, FsEntry>)
    requires Valid(ranges, alignment) && Collected(ranges, |ranges|, entries)
    ensures Rising(ranges) && Located(ranges, entries)
  {
    forall i, j | 0 <= i < j < |ranges| ensures ranges[i].start < ranges[j].start {
      assert ranges[i].start < ranges[i].end <= ranges[j].start;
    }
  }

  lemma {:induction false} UnlistedAscends(ranges: seq<Range<BootImage>>, n: nat, listed: seq<string>,
          entries: map<string, FsEntry>)
    requires n <= |ranges| && Rising(ranges) && Located(ranges, entries)
    ensures AscendsBelow(Unlisted(ranges, n, listed), entries, ranges, n)
  {
    if n > 0 {
      UnlistedAscends(ranges, n - 1, listed, entries);
      var u, d := Unlisted(ranges, n - 1, listed), ranges[n - 1].data;
      if d.Some? && d.value.tag !in listed {
        AscendsMore(u, entries, ranges, n - 1, d.value.tag);
      } else {
        AscendsStill(u, entries, ranges, n - 1);
      }
    }
  }

  lemma BuildOrdered(ranges: seq<Range<BootImage>>, alignment: nat, fs: FileSystem, entries: map<string, FsEntry>,
          listed: seq<string>)
    requires Settled(ranges, alignment, fs, entries) && fs.order == listed + Unlisted(ranges, |ranges|, listed)
    ensures AddressOrdered(fs, |listed|)
  {
    var u := Unlisted(ranges, |ranges|, listed);
    SettledRises(ranges, alignment, entries);
    UnlistedAscends(ranges, |ranges|, listed, entries);
    forall a, b | |listed| <= a < b < |fs.order|
      ensures fs.entries[fs.order[a]].spiAddr < fs.entries[fs.order[b]].spiAddr
    {
      assert fs.order[a] == u[a - |listed|] && fs.order[b] == u[b - |listed|];
    }
  }

  // What holds of every file system built from a sound specification.
  ghost predicate WellPlaced(fs: FileSystem, images: seq<BootImage>, failover: BootImage, blockSize: nat, at: seq<nat>)
    requires blockSize > 0
  {
    && ImagesClear(fs) && ImagesAligned(fs, blockSize)
    && Placement(images, blockSize, at) && EntriesSited(fs, images, at)
    && AddressOrdered(fs, |ExecutableTags(images)|)
    && (failover.spiAddr.None? ==>
          && PayloadsClear(fs) && fs.entries[FAILOVER].spiAddr % blockSize == 0
          && LowestClear(images, at, blockSize, |failover.binary|, fs.entries[FAILOVER].spiAddr))
    && (failover.spiAddr.Some? ==> fs.entries[FAILOVER].spiAddr == failover.spiAddr.value)
  }

  /** FileImage.to_boot_fs: every image becomes exactly one entry, executable ones first
      in file order. A sound specification never raises: its images end up at the
      addresses it determines, clear of each other and of the reserved region. The
      failover image is clear of them if it gave no address; an address of its own is
      not reserved, and is clear exactly when it lies past the reserved region and
      apart from every image. */
  method ToBootFs(images: seq<BootImage>, failover: BootImage, blockSize: nat)
    returns (r: Result<FileSystem>, ghost at: seq<nat>)
    requires blockSize > 0 && DistinctTags(images)
    ensures r.Ok? <==> AllRanges(images, blockSize, |images|).Some?
    ensures r.Ok? ==> Keyed(r.value) && Represents(r.value, images) && HoldsFailover(r.value, failover)
    ensures SoundSpec(images, blockSize) && SoundFailover(images, failover) ==>
      r.Ok? && WellPlaced(r.value, images, failover, blockSize, at)
    ensures SoundSpec(images, blockSize) && SoundFailover(images, failover) && failover.spiAddr.Some? ==>
      var a := failover.spiAddr.value;
      PayloadsClear(r.value) <==> a >= IMAGE_ADDR && ClearOfImages(images, at, a, |failover.binary|)
  {
    var tracker := new Tracker<BootImage>(blockSize);
    var reserved := tracker.Add(0, IMAGE_ADDR, None);
    assert tracker.ranges == [Range(0, IMAGE_ADDR, None)];
    at := [];
    var fixed := PlaceFixed(tracker, images);
    if fixed.Err? {
      RefusedRest(images, blockSize, 0, |images|);
      return Err(fixed.error), at;
    }
    var rest, tagOrder;
    rest, tagOrder, at := PlaceRest(tracker, images);
    if rest.Err? {
      return Err(rest.error), at;
    }
    TrackedTagsDiffer(tracker.ranges, images);
    ExecutableTagsOf(images);
    var order, entries := Collect(tracker.ranges, tagOrder);
    var f := PlaceFailover(tracker, failover);
    BuildRepresents(tracker.ranges, images, entries, order, f);
    var fs := FileSystem(order, entries[FAILOVER := f]);
    if SoundSpec(images, blockSize) && SoundFailover(images, failover) {
      BuildPlaced(tracker.ranges, images, failover, blockSize, entries, fs, at);
    }
    r := Ok(fs);
  }

  // No induction is meant in this lemma and the next two; Dafny would try one over the maps.
  lemma {:induction false} BuildPlaced(ranges: seq<Range<BootImage>>, images: seq<BootImage>,
          failover: BootImage, blockSize: nat, entries: map<string, FsEntry>, fs: FileSystem, at: seq<nat>)
    requires blockSize > 0 && TracksAll(ranges, images) && Collected(ranges, |ranges|, entries)
    requires Valid(ranges, blockSize) && OnlyReserved(ranges)
    requires SoundSpec(images, blockSize) && SoundFailover(images, failover)
    requires Keyed(fs) && Represents(fs, images) && HoldsFailover(fs, failover)
    requires fs.entries == entries[FAILOVER := fs.entries[FAILOVER]]
    requires forall t :: t in fs.order <==> t in ExecutableTags(images) || t in entries
    requires fs.order == ExecutableTags(images) + Unlisted(ranges, |ranges|, ExecutableTags(images))
    requires |at| == |images| && Sited(ranges, images, at, |images|) && Placement(images, blockSize, at)
    requires failover.spiAddr.Some? ==> fs.entries[FAILOVER].spiAddr == failover.spiAddr.value
    requires failover.spiAddr.None? ==>
      FirstFit(ranges, blockSize, |failover.binary|, fs.entries[FAILOVER].spiAddr)
    ensures WellPlaced(fs, images, failover, blockSize, at)
    ensures failover.spiAddr.Some? ==>
      var a := failover.spiAddr.value;
      PayloadsClear(fs) <==> a >= IMAGE_ADDR && ClearOfImages(images, at, a, |failover.binary|)
  {
    BuildSettled(ranges, images, blockSize, entries, fs);
    BuildClear(ranges, blockSize, fs, entries);
    BuildAligned(ranges, blockSize, fs, entries);
    BuildOrdered(ranges, blockSize, fs, entries, ExecutableTags(images));
    assert FileSystem(fs.order, entries[FAILOVER := fs.entries[FAILOVER]]) == fs;
    BuildSited(ranges, images, entries, fs.order, fs.entries[FAILOVER], at);
    if failover.spiAddr.None? {
      GapIsClear(ranges, blockSize, fs, entries);
      FitIsLowestClear(ranges, images, at, blockSize, |failover.binary|, fs.entries[FAILOVER].spiAddr);
    } else {
      GivenIsClear(fs, images, failover, at);
    }
  }

  lemma {:induction false} BuildSettled(ranges: seq<Range<BootImage>>, images: seq<BootImage>, blockSize: nat,
                                        entries: map<string, FsEntry>, fs: FileSystem)
    requires TracksAll(ranges, images) && Collected(ranges, |ranges|, entries)
    requires Valid(ranges, blockSize) && Reserved(ranges) && Keyed(fs) && NoRepeats(fs.order)
    requires forall i :: 0 <= i < |images| ==> images[i].tag != FAILOVER
    requires fs.entries == entries[FAILOVER := fs.entries[FAILOVER]]
    requires forall t :: t in fs.order <==> t in ExecutableTags(images) || t in entries
    ensures Settled(ranges, blockSize, fs, entries)
  {
    NoFailoverTag(ranges, images, entries);
    TagsAreEntries(ranges, images, entries, fs.order);
    forall i | 0 <= i < |fs.order| ensures fs.order[i] in entries && fs.entries[fs.order[i]] == entries[fs.order[i]] {
      assert fs.order[i] in fs.order;
    }
  }

  lemma {:induction false} GivenIsClear(fs: FileSystem, images: seq<BootImage>, failover: BootImage, at: seq<nat>)
    requires ImagesClear(fs) && Represents(fs, images) && HoldsFailover(fs, failover) && EntriesSited(fs, images, at)
    requires SoundFailover(images, failover) && failover.spiAddr == Some(fs.entries[FAILOVER].spiAddr)
    ensures var a := failover.spiAddr.value;
      PayloadsClear(fs) <==> a >= IMAGE_ADDR && ClearOfImages(images, at, a, |failover.binary|)
  {
    ClearOfPayloads(fs, images, at, FailoverPayload(fs));
  }

  lemma NoFailoverTag(ranges: seq<Range<BootImage>>, images: seq<BootImage>, entries: map<string, FsEntry>)
    requires TracksAll(ranges, images) && Collected(ranges, |ranges|, entries)
    requires forall i :: 0 <= i < |images| ==> images[i].tag != FAILOVER
    ensures FAILOVER !in entries
  {
    forall k | 0 <= k < |ranges| && ranges[k].data.Some? ensures ranges[k].data.value.tag != FAILOVER {
      var i := RangeImage(ranges, images, k);
    }
  }

  // An executable image has an entry like any other.
  lemma TagsAreEntries(ranges: seq<Range<BootImage>>, images: seq<BootImage>, entries: map<string, FsEntry>,
          order: seq<string>)
    requires TracksAll(ranges, images) && Collected(ranges, |ranges|, entries)
    requires forall t :: t in order <==> t in ExecutableTags(images) || t in entries
    ensures forall t :: t in order ==> t in entries
  {
    ExecutableTagsOf(images);
    forall i | 0 <= i < |images| ensures images[i].tag in entries {
      var k := ImageRange(ranges, images, i);
    }
  }

  lemma {:induction false} SetOfDistinct(order: seq<string>)
    requires NoRepeats(order)
    ensures |set t | t in order| == |order|
  {
    if order != [] {
      var n := |order| - 1;
      SetOfDistinct(order[..n]);
      assert (set t | t in order) == (set t | t in order[..n]) + {order[n]};
    }
  }

  function TagsOf(images: seq<BootImage>): (t: seq<string>)
    ensures |t| == |images| && forall i :: 0 <= i < |images| ==> t[i] == images[i].tag
  {
    seq(|images|, i requires 0 <= i < |images| => images[i].tag)
  }

  // There are as many table entries as images.
  lemma OrderSize(fs: FileSystem, images: seq<BootImage>)
    requires Represents(fs, images) && DistinctTags(images)
    ensures |fs.order| == |images|
  {
    var tags := TagsOf(images);
    SetOfDistinct(fs.order);
    SetOfDistinct(tags);
    forall t: string ensures t in fs.order <==> t in tags {
      if t in fs.order {
        var i :| 0 <= i < |images| && images[i].tag == t;
        assert tags[i] == t;
      }
    }
    assert (set t | t in fs.order) == (set t | t in tags);
  }

  ghost predicate TagsShort(images: seq<BootImage>, failover: BootImage) {
    |failover.tag| <= MAX_TAG_LEN && forall i :: 0 <= i < |images| ==> |images[i].tag| <= MAX_TAG_LEN
  }

  lemma BuiltTagsFit(fs: FileSystem, images: seq<BootImage>, failover: BootImage)
    requires Keyed(fs) && Represents(fs, images) && TagsShort(images, failover)
    requires fs.entries[FAILOVER].tag == failover.tag
    ensures TagsFit(fs)
  {
    forall k | 0 <= k < |fs.order| ensures |fs.entries[fs.order[k]].tag| <= MAX_TAG_LEN {
      assert fs.order[k] in fs.order;
      var i :| 0 <= i < |images| && images[i].tag == fs.order[k];
    }
  }
}
