/**
 The range allocator of scripts/tt_boot_fs.py: an ordered list of half-open
 address ranges with an overlap check and an aligned first-fit search.
 */
module RangeTracker {
  import opened Bits
  import opened Wrappers

  datatype Range<+D> = Range(start: nat, end: nat, data: Option<D>)

  // The test of the loop in add().
  predicate Hits<D>(r: Range<D>, start: nat, end: nat) {
    r.start <= start < r.end || r.start < end <= r.end
  }

  // Two non-empty ranges share an address.
  predicate Meets<D>(r: Range<D>, start: nat, end: nat) {
    r.start < end && start < r.end
  }

  // The loop of add() from index i: an overlap, or the index to insert at.
  function Scan<D>(ranges: seq<Range<D>>, start: nat, end: nat, i: nat): (k: Option<nat>)
    requires i <= |ranges|
    ensures k.Some? ==> i <= k.value <= |ranges|
    decreases |ranges| - i
  {
    if i == |ranges| then Some(i)
    else if Hits(ranges[i], start, end) then None
    else if ranges[i].start > start then Some(i)
    else Scan(ranges, start, end, i + 1)
  }

  function InsertAt<D>(ranges: seq<Range<D>>, k: nat, r: Range<D>): (s: seq<Range<D>>)
    requires k <= |ranges|
    ensures |s| == |ranges| + 1
  {
    ranges[..k] + [r] + ranges[k..]
  }

  ghost predicate Valid<D>(ranges: seq<Range<D>>, alignment: nat) {
    && alignment > 0
    && (forall i :: 0 <= i < |ranges| ==> ranges[i].start < ranges[i].end && ranges[i].start % alignment == 0)
    && (forall i, j :: 0 <= i < j < |ranges| ==> ranges[i].end <= ranges[j].start)
  }

  ghost predicate Free<D>(ranges: seq<Range<D>>, start: nat, end: nat) {
    forall i :: 0 <= i < |ranges| ==> !Meets(ranges[i], start, end)
  }

  // start lies outside every range and the whole of the next range fits
  // strictly inside start..end: the case the overlap test does not see.
  ghost predicate SwallowsNext<D>(ranges: seq<Range<D>>, start: nat, end: nat) {
    exists k :: 0 <= k < |ranges| && start < ranges[k].start && ranges[k].end < end
      && forall i :: 0 <= i < k ==> ranges[i].end <= start
  }

  lemma {:induction false} ScanFrom<D>(ranges: seq<Range<D>>, start: nat, end: nat, i: nat)
    requires Valid(ranges, 1) && start < end && i <= |ranges|
    requires forall j :: 0 <= j < i ==> ranges[j].end <= start
    ensures var k := Scan(ranges, start, end, i);
      k.Some? ==>
        && (forall j :: 0 <= j < k.value ==> ranges[j].end <= start)
        && (k.value < |ranges| ==>
              start < ranges[k.value].start && (end <= ranges[k.value].start || ranges[k.value].end < end))
    ensures Scan(ranges, start, end, i).None? ==> !Free(ranges, start, end) && !SwallowsNext(ranges, start, end)
    decreases |ranges| - i
  {
    if i == |ranges| {
    } else if Hits(ranges[i], start, end) {
      assert Meets(ranges[i], start, end);
    } else if ranges[i].start <= start {
      ScanFrom(ranges, start, end, i + 1);
    }
  }

  lemma AlignedAreUnitAligned<D>(ranges: seq<Range<D>>, alignment: nat)
    requires Valid(ranges, alignment)
    ensures Valid(ranges, 1)
  {
    forall i | 0 <= i < |ranges| ensures ranges[i].start % 1 == 0 {
    }
  }

  /** On a valid tracker the overlap test accepts a non-empty range exactly
      when the range is free or swallows the next one. */
  lemma ScanExact<D>(ranges: seq<Range<D>>, alignment: nat, start: nat, end: nat)
    requires Valid(ranges, alignment) && start < end
    ensures Scan(ranges, start, end, 0).Some? <==> Free(ranges, start, end) || SwallowsNext(ranges, start, end)
    ensures Scan(ranges, start, end, 0).Some? ==>
      var k := Scan(ranges, start, end, 0).value;
      forall j :: 0 <= j < k ==> ranges[j].end <= start
  {
    AlignedAreUnitAligned(ranges, alignment);
    ScanFrom(ranges, start, end, 0);
    var s := Scan(ranges, start, end, 0);
    if s.Some? && s.value < |ranges| && end <= ranges[s.value].start {
      forall i | 0 <= i < |ranges| ensures !Meets(ranges[i], start, end) {
        assert i > s.value ==> ranges[s.value].end <= ranges[i].start;
      }
    }
  }

  lemma FreeStaysValid<D>(ranges: seq<Range<D>>, alignment: nat, r: Range<D>, k: nat)
    requires Valid(ranges, alignment) && r.start < r.end && r.start % alignment == 0 && k <= |ranges|
    requires forall j :: 0 <= j < k ==> ranges[j].end <= r.start
    requires forall j :: k <= j < |ranges| ==> r.end <= ranges[j].start
    ensures Valid(InsertAt(ranges, k, r), alignment)
  {
    var s := InsertAt(ranges, k, r);
    assert forall j :: 0 <= j < k ==> s[j] == ranges[j];
    assert forall j :: k < j < |s| ==> s[j] == ranges[j - 1];
  }

  lemma MeetingBreaksValid<D>(ranges: seq<Range<D>>, alignment: nat, r: Range<D>, k: nat, i: nat)
    requires k <= |ranges| && i < |ranges| && Meets(ranges[i], r.start, r.end)
    ensures !Valid(InsertAt(ranges, k, r), alignment)
  {
    var s := InsertAt(ranges, k, r);
    var j := if i < k then i else i + 1;
    assert s[k] == r && s[j] == ranges[i];
    assert if j < k then s[j].end > s[k].start else s[k].end > s[j].start;
  }

  /** Adding keeps the tracker valid exactly when the range is free. */
  lemma AddKeepsValid<D>(ranges: seq<Range<D>>, alignment: nat, r: Range<D>)
    requires Valid(ranges, alignment) && r.start < r.end && r.start % alignment == 0
    requires Scan(ranges, r.start, r.end, 0).Some?
    ensures Valid(InsertAt(ranges, Scan(ranges, r.start, r.end, 0).value, r), alignment)
       <==> Free(ranges, r.start, r.end)
  {
    var k := Scan(ranges, r.start, r.end, 0).value;
    if Free(ranges, r.start, r.end) {
      AlignedAreUnitAligned(ranges, alignment);
      ScanFrom(ranges, r.start, r.end, 0);
      forall j | k <= j < |ranges| ensures r.end <= ranges[j].start {
        assert !Meets(ranges[j], r.start, r.end);
        assert k < j ==> ranges[k].end <= ranges[j].start;
      }
      FreeStaysValid(ranges, alignment, r, k);
    } else {
      var i :| 0 <= i < |ranges| && Meets(ranges[i], r.start, r.end);
      MeetingBreaksValid(ranges, alignment, r, k, i);
    }
  }

  /** A single add can accept a range that contains an existing one. */
  lemma AddMissesContainment()
    ensures var one: seq<Range<int>> := [Range(2, 3, None)];
      && Valid(one, 1)
      && Scan(one, 1, 4, 0) == Some(0)
      && Meets(one[0], 1, 4)
      && !Valid(InsertAt(one, 0, Range(1, 4, None)), 1)
  {
    var one: seq<Range<int>> := [Range(2, 3, None)];
    assert !Hits(one[0], 1, 4) && one[0].start > 1;
    assert Scan(one, 1, 4, 0) == Some(0);
    var s := InsertAt(one, 0, Range(1, 4, None));
    assert s[0].end > s[1].start;
  }

  // (value + alignment - 1) & ~(alignment - 1)
  function AlignUp(value: nat, alignment: nat): nat
    requires alignment > 0
  {
    BitAndNot(value + alignment - 1, alignment - 1)
  }

  ghost predicate PowerOfTwo(a: nat) {
    exists k: nat :: Pow2(k) == a
  }

  /** For a power of two the mask rounds up to the next multiple. */
  lemma AlignUpIsCeiling(value: nat, a: nat)
    requires PowerOfTwo(a)
    ensures AlignUp(value, a) % a == 0
    ensures value <= AlignUp(value, a) < value + a
    ensures forall m: nat :: m % a == 0 && m >= value ==> m >= AlignUp(value, a)
  {
    var k: nat :| Pow2(k) == a;
    var x := value + a - 1;
    BitAndNotLowMask(x, k);
    RoundDown(x, a);
    forall m: nat | m % a == 0 && m >= value ensures m >= x - x % a {
      MultiplesAbove(x, m, a);
    }
  }

  lemma RoundDown(x: nat, a: nat)
    requires a > 0
    ensures (x - x % a) % a == 0 && x - x % a > x - a
  {
    var q := x / a;
    assert x - x % a == q * a;
    DivModUnique(q * a, a, q, 0);
  }

  lemma MultiplesAbove(x: nat, m: nat, a: nat)
    requires a > 0 && m % a == 0 && m + a > x
    ensures m >= x - x % a
  {
    var q, p := x / a, m / a;
    assert x == q * a + x % a && m == p * a;
    if p < q {
      MulAtLeast(q - p, a);
      assert false;
    } else if p > q {
      MulAtLeast(p - q, a);
      assert (p - q) * a == p * a - q * a;
    }
  }

  class Tracker<D> {
    var ranges: seq<Range<D>>
    const alignment: nat

    constructor (alignment: nat)
      ensures ranges == [] && this.alignment == alignment
    {
      ranges := [];
      this.alignment := alignment;
    }

    // RangeTracker.add; the error leaves the list alone.
    method Add(start: nat, end: nat, data: Option<D>) returns (r: Result<()>)
      requires alignment > 0
      modifies this
      ensures r.Ok? <==> Scan(old(ranges), start, end, 0).Some? && start % alignment == 0
      ensures Became(r, old(ranges), alignment, Range(start, end, data), ranges)
      ensures r.Err? ==> ranges == old(ranges)
      ensures r.Ok? ==>
        ranges == InsertAt(old(ranges), Scan(old(ranges), start, end, 0).value, Range(start, end, data))
    {
      var insertIndex := |ranges|;
      var index := 0;
      while index < |ranges|
        invariant 0 <= index <= |ranges| && insertIndex == |ranges|
        invariant Scan(ranges, start, end, 0) == Scan(ranges, start, end, index)
      {
        var range := ranges[index];
        if range.start <= start < range.end || range.start < end <= range.end {
          return Err("overlap");
        } else if range.start > start {
          insertIndex := index;
          break;
        }
        index := index + 1;
      }
      if start % alignment != 0 {
        return Err("not aligned");
      }
      ranges := InsertAt(ranges, insertIndex, Range(start, end, data));
      r := Ok(());
    }

    /** find_gap_of_size: on a valid tracker the gap is aligned and free, and no
        lower aligned address at or after the end of the first range fits. */
    method FindGapOfSize(size: nat) returns (start: nat, end: nat)
      requires alignment > 0
      ensures end == start + size && start == Gap(ranges, alignment, size)
      ensures Valid(ranges, alignment) && PowerOfTwo(alignment) && size > 0 ==> FirstFit(ranges, alignment, size, start)
    {
      if |ranges| == 0 {
        return 0, size;
      }
      if ranges[0].start > size {
        if Valid(ranges, alignment) && size > 0 {
          RoomAtStart(ranges, alignment, size);
        }
        return 0, size;
      }
      ghost var good := Valid(ranges, alignment) && PowerOfTwo(alignment) && size > 0;
      var lastEnd: nat := AlignUp(ranges[0].end, alignment);
      if good {
        FirstGap(ranges, alignment, size);
      }
      var i := 1;
      while i < |ranges|
        invariant 1 <= i <= |ranges| && lastEnd == AlignUp(ranges[i - 1].end, alignment)
        invariant Gap(ranges, alignment, size) == GapFrom(ranges, alignment, size, i)
        invariant good ==> GapBelow(ranges, alignment, size, i, lastEnd)
      {
        if ranges[i].start - lastEnd >= size {
          break;
        }
        if good {
          NextGap(ranges, alignment, size, i, lastEnd);
        }
        lastEnd := AlignUp(ranges[i].end, alignment);
        i := i + 1;
      }
      if good {
        GapFound(ranges, alignment, size, i, lastEnd);
      }
      start, end := lastEnd, lastEnd + size;
    }

    /** insert: on a valid tracker it never raises and keeps it valid. */
    method Insert(size: nat, data: D) returns (r: Result<()>, ghost start: nat, ghost k: nat)
      requires alignment > 0
      modifies this
      ensures r.Err? ==> ranges == old(ranges)
      ensures r.Ok? ==>
        k <= |old(ranges)| && ranges == InsertAt(old(ranges), k, Range(start, start + size, Some(data)))
      ensures Became(r, old(ranges), alignment, GapRange(old(ranges), alignment, size, data), ranges)
      ensures old(Valid(ranges, alignment)) && PowerOfTwo(alignment) && size > 0 ==>
        r.Ok? && Valid(ranges, alignment) && FirstFit(old(ranges), alignment, size, start)
    {
      var from, end := FindGapOfSize(size);
      start, k := from, 0;
      if Valid(ranges, alignment) && PowerOfTwo(alignment) && size > 0 {
        ScanExact(ranges, alignment, from, end);
        AddKeepsValid(ranges, alignment, Range(from, end, Some(data)));
      }
      if Scan(ranges, from, end, 0).Some? {
        k := Scan(ranges, from, end, 0).value;
      }
      r := Add(from, end, Some(data));
    }
  }

  // Where find_gap_of_size looks from the range before i on: at the aligned end of a range
  // with room before the next, or of the last one.
  function GapFrom<D>(ranges: seq<Range<D>>, alignment: nat, size: nat, i: nat): nat
    requires 1 <= i <= |ranges| && alignment > 0
    decreases |ranges| - i
  {
    var lastEnd := AlignUp(ranges[i - 1].end, alignment);
    if i == |ranges| || ranges[i].start - lastEnd >= size then lastEnd else GapFrom(ranges, alignment, size, i + 1)
  }

  function Gap<D>(ranges: seq<Range<D>>, alignment: nat, size: nat): nat
    requires alignment > 0
  {
    if ranges == [] || ranges[0].start > size then 0 else GapFrom(ranges, alignment, size, 1)
  }

  function GapRange<D>(ranges: seq<Range<D>>, alignment: nat, size: nat, data: D): Range<D>
    requires alignment > 0
  {
    var start := Gap(ranges, alignment, size);
    Range(start, start + size, Some(data))
  }

  // The ranges with r added, unless add refuses it.
  function Adding<D>(ranges: seq<Range<D>>, alignment: nat, r: Range<D>): Option<seq<Range<D>>>
    requires alignment > 0
  {
    var k := Scan(ranges, r.start, r.end, 0);
    if k.Some? && r.start % alignment == 0 then Some(InsertAt(ranges, k.value, r)) else None
  }

  // A result and the ranges it left are what adding r gives.
  ghost predicate Became<D>(r: Result<()>, before: seq<Range<D>>, alignment: nat, range: Range<D>,
          after: seq<Range<D>>)
    requires alignment > 0
  {
    match Adding(before, alignment, range)
    case None => r.Err?
    case Some(ranges) => r.Ok? && after == ranges
  }

  // Loop invariant of the search: lastEnd is the lowest aligned address past
  // the first i ranges, and no aligned candidate below it fits.
  ghost predicate GapBelow<D>(ranges: seq<Range<D>>, alignment: nat, size: nat, i: nat, lastEnd: nat)
    requires 1 <= i <= |ranges| && alignment > 0
  {
    && lastEnd == AlignUp(ranges[i - 1].end, alignment)
    && lastEnd % alignment == 0 && lastEnd >= ranges[i - 1].end && lastEnd >= ranges[0].end
    && (forall j :: 0 <= j < i ==> ranges[j].end <= lastEnd)
    && (forall j :: i <= j < |ranges| ==> lastEnd <= ranges[j].start)
    && (forall a: nat :: a % alignment == 0 && ranges[0].end <= a < lastEnd ==> !Free(ranges, a, a + size))
  }

  // An aligned hole of the wanted size, with no lower one at or after the end of the
  // first range, which comes first unless there is room before it.
  ghost predicate FirstFit<D>(ranges: seq<Range<D>>, alignment: nat, size: nat, start: nat)
    requires alignment > 0
  {
    && start % alignment == 0
    && Free(ranges, start, start + size)
    && (forall a: nat :: a % alignment == 0 && ranges != [] && ranges[0].end <= a < start ==>
      !Free(ranges, a, a + size))
    && (ranges != [] && ranges[0].start <= size ==> start >= ranges[0].end)
  }

  lemma RoomAtStart<D>(ranges: seq<Range<D>>, alignment: nat, size: nat)
    requires Valid(ranges, alignment) && alignment > 0 && ranges != [] && 0 < size < ranges[0].start
    ensures FirstFit(ranges, alignment, size, 0)
  {
    SmallMod(0, alignment);
    forall i | 0 <= i < |ranges| ensures size <= ranges[i].start {
      assert i > 0 ==> ranges[0].end <= ranges[i].start;
    }
  }

  lemma FirstGap<D>(ranges: seq<Range<D>>, alignment: nat, size: nat)
    requires Valid(ranges, alignment) && PowerOfTwo(alignment) && size > 0 && ranges != []
    ensures GapBelow(ranges, alignment, size, 1, AlignUp(ranges[0].end, alignment))
  {
    AlignUpIsCeiling(ranges[0].end, alignment);
    forall j | 1 <= j < |ranges| ensures AlignUp(ranges[0].end, alignment) <= ranges[j].start {
      assert ranges[0].end <= ranges[j].start;
    }
  }

  lemma GapFound<D>(ranges: seq<Range<D>>, alignment: nat, size: nat, i: nat, lastEnd: nat)
    requires Valid(ranges, alignment) && size > 0 && alignment > 0
    requires 1 <= i <= |ranges| && GapBelow(ranges, alignment, size, i, lastEnd)
    requires i < |ranges| ==> ranges[i].start - lastEnd >= size
    ensures FirstFit(ranges, alignment, size, lastEnd)
  {
    forall j | i <= j < |ranges| ensures lastEnd + size <= ranges[j].start {
      assert j > i ==> ranges[i].end <= ranges[j].start;
    }
  }

  lemma NextGap<D>(ranges: seq<Range<D>>, alignment: nat, size: nat, i: nat, lastEnd: nat)
    requires Valid(ranges, alignment) && PowerOfTwo(alignment) && size > 0
    requires 1 <= i < |ranges| && GapBelow(ranges, alignment, size, i, lastEnd)
    requires ranges[i].start - lastEnd < size
    ensures GapBelow(ranges, alignment, size, i + 1, AlignUp(ranges[i].end, alignment))
  {
    AlignUpIsCeiling(ranges[i].end, alignment);
    var next := AlignUp(ranges[i].end, alignment);
    forall j | i + 1 <= j < |ranges| ensures next <= ranges[j].start {
      assert ranges[i].end <= ranges[j].start;
    }
    forall a: nat | a % alignment == 0 && ranges[0].end <= a < next ensures !Free(ranges, a, a + size) {
      if a >= lastEnd {
        assert a < ranges[i].end;
        assert Meets(ranges[i], a, a + size);
      }
    }
  }
}
