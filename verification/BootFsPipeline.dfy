/**
 From an image specification to flash contents and back: FileImage.to_boot_fs,
 BootFs.to_binary and BootFs.from_binary of scripts/tt_boot_fs.py in sequence.
 */
module BootFsPipeline {
  import opened Bits
  import opened Bytes
  import opened Wrappers
  import opened BootFs
  import opened BootFsParse
  import opened BootFsRoundTrip
  import opened BootFsBuild

  // What the descriptor format can store of every image.
  ghost predicate Storable(images: seq<BootImage>, failover: BootImage) {
    && |images| < 512
    && (forall i :: 0 <= i < |images| ==>
          GoodTag(images[i].tag) && images[i].loadAddr < TWO32 && |images[i].binary| < MAX_IMAGE)
    && |failover.tag| <= MAX_TAG_LEN && failover.loadAddr < TWO32 && |failover.binary| < MAX_IMAGE
  }

  ghost predicate AddressesFit(fs: FileSystem)
    requires Keyed(fs)
  {
    && fs.entries[FAILOVER].spiAddr < TWO32
    && forall i :: 0 <= i < |fs.order| ==> Payload(fs, i).addr < TWO32
  }

  lemma BuiltEntry(fs: FileSystem, images: seq<BootImage>, k: nat) returns (i: nat)
    requires Keyed(fs) && Represents(fs, images) && k < |fs.order|
    requires forall j :: 0 <= j < |images| ==> images[j].tag != FAILOVER
    ensures i < |images| && images[i].tag == fs.order[k] && Matches(fs.entries[fs.order[k]], images[i])
  {
    assert fs.order[k] in fs.order;
    i :| 0 <= i < |images| && images[i].tag == fs.order[k];
  }

  lemma BuiltIsShaped(fs: FileSystem, images: seq<BootImage>, failover: BootImage, blockSize: nat)
    requires blockSize > 0 && Built(fs, images, failover) && DistinctTags(images)
    requires ImagesClear(fs) && ImagesAligned(fs, blockSize) && AddressesFit(fs)
    requires SoundFailover(images, failover) && Storable(images, failover)
    requires fs.entries[FAILOVER].spiAddr % blockSize == 0
    ensures Shaped(fs, blockSize) && SizesFit(fs) && |fs.order| < 512
  {
    OrderSize(fs, images);
    forall k | 0 <= k < |fs.order|
      ensures GoodTag(fs.order[k]) && fs.order[k] != FAILOVER && fs.entries[fs.order[k]].tag == fs.order[k]
      ensures GoodEntry(fs.entries[fs.order[k]], blockSize) && |fs.entries[fs.order[k]].data| < MAX_IMAGE
    {
      var i := BuiltEntry(fs, images, k);
      assert Payload(fs, k).addr == fs.entries[fs.order[k]].spiAddr;
    }
  }

  // from_binary refuses a failover image that is not aligned.
  lemma MisalignedFailoverFails(fs: FileSystem, blockSize: nat)
    requires blockSize > 0 && Keyed(fs) && NoHits(SortByAddr(RawWrites(fs)))
    requires fs.entries[FAILOVER].spiAddr < TWO32 && fs.entries[FAILOVER].loadAddr < TWO32
    requires fs.entries[FAILOVER].spiAddr % blockSize != 0
    ensures Parse(Printed(fs), blockSize).Err?
  {
    FailoverStored(fs);
    BadFailoverFailsParse(Printed(fs), blockSize);
  }

  // data at address a does not hide the end of a table of n descriptors: it leaves the
  // byte with the invalid flag of the slot behind the table alone, or odd.
  predicate LeavesEnd(n: nat, a: nat, data: bytes) {
    a <= EndByte(n) < a + |data| ==> data[EndByte(n) - a] % 2 == 1
  }

  lemma ImagesLeaveEnd(fs: FileSystem, w: Write)
    requires ImagesClear(fs) && |fs.order| < 512 && w in ImageWrites(fs, |fs.order|)
    ensures !Covers(w, EndByte(|fs.order|))
  {
    ImageWritesOnly(fs, |fs.order|, w);
    var i :| 0 <= i < |fs.order| && WrittenFor(fs, i, w);
    assert Payload(fs, i).addr >= IMAGE_ADDR;
  }

  // Only the failover image can reach the slot behind the table.
  lemma OthersLeaveEnd(fs: FileSystem, w: Write)
    requires ImagesClear(fs) && |fs.order| < 512 && w in RawWrites(fs) && Covers(w, EndByte(|fs.order|))
    ensures w == FailoverPayload(fs)
  {
    var pre := ImageWrites(fs, |fs.order|);
    forall x | x in pre ensures !Covers(x, EndByte(|fs.order|)) {
      ImagesLeaveEnd(fs, x);
    }
    assert RawWrites(fs) == pre + [FailoverHead(fs), FailoverPayload(fs), Training];
  }

  lemma EndsExact(fs: FileSystem)
    requires ImagesClear(fs) && |fs.order| < 512
    ensures TableEnds(fs) <==> LeavesEnd(|fs.order|, fs.entries[FAILOVER].spiAddr, fs.entries[FAILOVER].data)
  {
    FixedWrites(fs);
    forall w | w in RawWrites(fs) && Covers(w, EndByte(|fs.order|)) ensures w == FailoverPayload(fs) {
      OthersLeaveEnd(fs, w);
    }
    assert FailoverPayload(fs) in RawWrites(fs);
  }

  /** Reading back the printed image of a built file system gives that file system exactly
      when the failover image is aligned and does not hide the end of the table. */
  lemma BuiltReadsBack(fs: FileSystem, images: seq<BootImage>, failover: BootImage, blockSize: nat)
    requires blockSize > 0 && Built(fs, images, failover) && DistinctTags(images)
    requires ImagesClear(fs) && ImagesAligned(fs, blockSize) && AddressesFit(fs)
    requires SoundFailover(images, failover) && Storable(images, failover)
    requires NoHits(SortByAddr(RawWrites(fs)))
    ensures var a := fs.entries[FAILOVER].spiAddr;
      ReadsBack(fs, Printed(fs), blockSize) <==> a % blockSize == 0 && LeavesEnd(|images|, a, failover.binary)
  {
    OrderSize(fs, images);
    EndsExact(fs);
    if fs.entries[FAILOVER].spiAddr % blockSize == 0 {
      BuiltTagsFit(fs, images, failover);
      BuiltIsShaped(fs, images, failover, blockSize);
      RoundTripExact(fs, blockSize);
    } else {
      MisalignedFailoverFails(fs, blockSize);
    }
  }

  ghost predicate Sound(images: seq<BootImage>, failover: BootImage, blockSize: nat) {
    SoundSpec(images, blockSize) && SoundFailover(images, failover)
  }

  ghost predicate Built(fs: FileSystem, images: seq<BootImage>, failover: BootImage) {
    Keyed(fs) && Represents(fs, images) && HoldsFailover(fs, failover)
  }

  // The image of fs parses back to fs.
  ghost predicate ReadsBack(fs: FileSystem, image: bytes, blockSize: nat)
    requires blockSize > 0
  {
    Keyed(fs) && Parse(image, blockSize) == Ok(NormalisedFs(fs))
  }

  // ---- When a failover image gets in the way ---------------------------------------------------

  // n bytes at a are clear of the images, the table, the failover descriptor and the
  // training value.
  ghost predicate OutOfTheWay(images: seq<BootImage>, at: seq<nat>, a: nat, n: nat)
    requires |at| == |images|
  {
    && a >= FD_SIZE * |images| && ClearOfImages(images, at, a, n)
    && ApartAt(a, n, FAILOVER_HEAD_ADDR, FD_SIZE) && ApartAt(a, n, SPI_RX_ADDR, 4)
  }

  lemma ClearIsOutOfTheWay(fs: FileSystem, images: seq<BootImage>, failover: BootImage, at: seq<nat>)
    requires Built(fs, images, failover) && DistinctTags(images)
    requires SoundFailover(images, failover) && EntriesSited(fs, images, at)
    ensures FailoverClear(fs) <==> OutOfTheWay(images, at, fs.entries[FAILOVER].spiAddr, |failover.binary|)
  {
    OrderSize(fs, images);
    ClearOfPayloads(fs, images, at, FailoverPayload(fs));
  }

  lemma WithFailover(fs: FileSystem, w: Write)
    requires Keyed(fs) && (w in ImageWrites(fs, |fs.order|) || w == FailoverHead(fs) || w == Training)
    ensures multiset{w, FailoverPayload(fs)} <= multiset(RawWrites(fs))
  {
    var pre, a, b, c := ImageWrites(fs, |fs.order|), FailoverHead(fs), FailoverPayload(fs), Training;
    assert RawWrites(fs) == pre + [a] + [b] + [c];
    if w in pre {
      assert w in multiset(pre);
    }
  }

  lemma FailoverHits(fs: FileSystem, w: Write)
    requires Keyed(fs) && (w in ImageWrites(fs, |fs.order|) || w == FailoverHead(fs) || w == Training)
    requires w.data != [] && fs.entries[FAILOVER].data != [] && !Disjoint(w, FailoverPayload(fs))
    ensures !NoHits(SortByAddr(RawWrites(fs)))
  {
    WithFailover(fs, w);
    SortByAddrSorts(RawWrites(fs));
    OverlapHits(SortByAddr(RawWrites(fs)), w, FailoverPayload(fs));
  }

  lemma UnclearHits(fs: FileSystem)
    requires ImagesClear(fs) && fs.entries[FAILOVER].data != [] && !FailoverClear(fs)
    ensures !NoHits(SortByAddr(RawWrites(fs)))
  {
    var f, n := FailoverPayload(fs), |fs.order|;
    if f.addr < FD_SIZE * n {
      var i := f.addr / FD_SIZE;
      ImageWritesHas(fs, n, i);
      FailoverHits(fs, Write(true, FD_SIZE * i, Descriptor(fs.entries[fs.order[i]])));
    } else if i :| 0 <= i < n && !Disjoint(Payload(fs, i), f) {
      ImageWritesHas(fs, n, i);
      FailoverHits(fs, Payload(fs, i));
    } else if !Disjoint(FailoverHead(fs), f) {
      FailoverHits(fs, FailoverHead(fs));
    } else {
      FailoverHits(fs, Training);
    }
  }

  /** A built file system passes writes() exactly when its failover image is out of the
      way. */
  lemma PrintsExact(fs: FileSystem, images: seq<BootImage>, failover: BootImage, at: seq<nat>)
    requires Built(fs, images, failover) && DistinctTags(images) && SoundFailover(images, failover)
    requires ImagesClear(fs) && EntriesSited(fs, images, at) && |images| <= 512 && TagsShort(images, failover)
    ensures TagsFit(fs)
    ensures NoHits(SortByAddr(RawWrites(fs)))
      <==> OutOfTheWay(images, at, fs.entries[FAILOVER].spiAddr, |failover.binary|)
  {
    OrderSize(fs, images);
    BuiltTagsFit(fs, images, failover);
    ClearIsOutOfTheWay(fs, images, failover, at);
    if FailoverClear(fs) {
      ClearPrints(fs);
    } else {
      UnclearHits(fs);
    }
  }

  /** One image without an address and a failover image at the first free address: the
      image is placed on top of it, and nothing can be printed. */
  lemma FailoverIsNotReserved(im: BootImage, failover: BootImage, blockSize: nat, at: seq<nat>)
    requires im.spiAddr.None? && im.binary != [] && failover.spiAddr == Some(IMAGE_ADDR) && failover.binary != []
    requires blockSize > 0 && IMAGE_ADDR % blockSize == 0 && Placement([im], blockSize, at)
    ensures at == [IMAGE_ADDR] && !OutOfTheWay([im], at, failover.spiAddr.value, |failover.binary|)
  {
    assert LowestHole([im], at, 0, blockSize);
    assert ClearAt([im], at, 0, IMAGE_ADDR);
    assert !ApartAt(IMAGE_ADDR, |failover.binary|, at[0], |[im][0].binary|);
  }

  // A file system of a failover image alone.
  ghost predicate Alone(fs: FileSystem, failover: BootImage) {
    && Built(fs, [], failover) && fs.order == []
    && |failover.tag| <= MAX_TAG_LEN && failover.loadAddr < TWO32 && 0 < |failover.binary| < MAX_IMAGE
  }

  lemma AloneReadsBack(fs: FileSystem, failover: BootImage, blockSize: nat)
    requires blockSize > 0 && Alone(fs, failover) && fs.entries[FAILOVER].spiAddr == 0
    requires NoHits(SortByAddr(RawWrites(fs)))
    ensures ReadsBack(fs, Printed(fs), blockSize) <==> LeavesEnd(0, 0, failover.binary)
  {
    BuiltReadsBack(fs, [], failover, blockSize);
  }

  lemma AlonePrints(fs: FileSystem, failover: BootImage)
    requires Alone(fs, failover) && fs.entries[FAILOVER].spiAddr == 0 && |failover.binary| <= FAILOVER_HEAD_ADDR
    ensures NoHits(SortByAddr(RawWrites(fs)))
  {
    PrintsExact(fs, [], failover, []);
  }

  /** A failover image at address 0 with an even byte 11, such as 64 zero bytes, and no
      other image: it prints, and does not read back, because it is taken for descriptors. */
  lemma FailoverHidesTheEnd(fs: FileSystem, failover: BootImage, blockSize: nat)
    requires blockSize > 0 && Alone(fs, failover) && fs.entries[FAILOVER].spiAddr == 0
    requires 12 <= |failover.binary| <= FAILOVER_HEAD_ADDR && failover.binary[11] % 2 == 0
    ensures NoHits(SortByAddr(RawWrites(fs))) && !ReadsBack(fs, Printed(fs), blockSize)
  {
    AlonePrints(fs, failover);
    AloneReadsBack(fs, failover, blockSize);
  }

  // ---- The whole pipeline -----------------------------------------------------------------------

  // The failover image has no address of its own, or one that is out of the way.
  ghost predicate FailoverFits(images: seq<BootImage>, at: seq<nat>, failover: BootImage)
    requires |at| == |images|
  {
    failover.spiAddr.Some? ==> OutOfTheWay(images, at, failover.spiAddr.value, |failover.binary|)
  }

  // The failover image fits beside the images at the addresses the specification determines.
  ghost predicate Fits(images: seq<BootImage>, failover: BootImage, blockSize: nat)
    requires blockSize > 0
  {
    forall at :: Placement(images, blockSize, at) ==> FailoverFits(images, at, failover)
  }

  lemma FitsAnywhere(images: seq<BootImage>, failover: BootImage, blockSize: nat, at: seq<nat>)
    requires blockSize > 0 && Placement(images, blockSize, at)
    ensures Fits(images, failover, blockSize) <==> FailoverFits(images, at, failover)
  {
    forall bt | Placement(images, blockSize, bt) ensures bt == at {
      PlacementUnique(images, blockSize, at, bt, |images|);
    }
  }

  // The failover image has no address of its own, or one that is aligned and does not hide
  // the end of the table.
  predicate FailoverReadsBack(images: seq<BootImage>, failover: BootImage, blockSize: nat)
    requires blockSize > 0
  {
    failover.spiAddr.Some? ==>
      failover.spiAddr.value % blockSize == 0 && LeavesEnd(|images|, failover.spiAddr.value, failover.binary)
  }

  lemma PlacedReadsBack(fs: FileSystem, images: seq<BootImage>, failover: BootImage, blockSize: nat, at: seq<nat>)
    requires blockSize > 0 && WellPlaced(fs, images, failover, blockSize, at) && |images| < 512
    ensures var a := fs.entries[FAILOVER].spiAddr;
      FailoverReadsBack(images, failover, blockSize) <==> a % blockSize == 0 && LeavesEnd(|images|, a, failover.binary)
  {
  }

  /** A sound specification of at most 512 images with fitting tags is built and printed
      exactly when its failover image fits; the image stores exactly the specified
      images; and from_binary recovers the file system exactly when an address given for the
      failover image is aligned and does not hide the end of the table. */
  method MakeImage(images: seq<BootImage>, failover: BootImage, blockSize: nat, allSections: bool)
    returns (r: Result<bytes>, ghost fs: FileSystem, ghost at: seq<nat>)
    requires blockSize > 0 && DistinctTags(images)
    ensures r.Ok? ==> Built(fs, images, failover) && r.value == Image(Included(SortByAddr(RawWrites(fs)), allSections))
    ensures Sound(images, failover, blockSize) && |images| <= 512 && TagsShort(images, failover) ==>
      Placement(images, blockSize, at) && (r.Ok? <==> FailoverFits(images, at, failover))
    ensures Sound(images, failover, blockSize) && |images| <= 512 && TagsShort(images, failover) ==>
      (r.Ok? <==> Fits(images, failover, blockSize))
    ensures (Sound(images, failover, blockSize) && Storable(images, failover) && r.Ok? && allSections
             && AddressesFit(fs)) ==>
      (ReadsBack(fs, r.value, blockSize) <==> FailoverReadsBack(images, failover, blockSize))
  {
    var built;
    built, at := ToBootFs(images, failover, blockSize);
    if built.Err? {
      fs := FileSystem([], map[]);
      return Err(built.error), fs, at;
    }
    fs := built.value;
    r := Print(built.value, images, failover, blockSize, allSections, at);
    if Sound(images, failover, blockSize) {
      FitsAnywhere(images, failover, blockSize, at);
    }
  }

  method Print(fs: FileSystem, ghost images: seq<BootImage>, ghost failover: BootImage, ghost blockSize: nat,
               allSections: bool, ghost at: seq<nat>)
    returns (r: Result<bytes>)
    requires blockSize > 0 && Built(fs, images, failover) && DistinctTags(images)
    requires Sound(images, failover, blockSize) ==> WellPlaced(fs, images, failover, blockSize, at)
    ensures r.Ok? ==> r.value == Image(Included(SortByAddr(RawWrites(fs)), allSections))
    ensures Sound(images, failover, blockSize) && |images| <= 512 && TagsShort(images, failover) ==>
      (r.Ok? <==> FailoverFits(images, at, failover))
    ensures (Sound(images, failover, blockSize) && Storable(images, failover) && r.Ok? && allSections
             && AddressesFit(fs)) ==>
      (ReadsBack(fs, r.value, blockSize) <==> FailoverReadsBack(images, failover, blockSize))
  {
    if Sound(images, failover, blockSize) && |images| <= 512 && TagsShort(images, failover) {
      FitsIsPrints(fs, images, failover, blockSize, at);
    }
    r := ToBinary(fs, allSections);
    if (Sound(images, failover, blockSize) && Storable(images, failover) && r.Ok? && allSections
        && AddressesFit(fs)) {
      BuiltReadsBack(fs, images, failover, blockSize);
      PlacedReadsBack(fs, images, failover, blockSize, at);
      IncludedAll(SortByAddr(RawWrites(fs)));
    }
  }

  lemma FitsIsPrints(fs: FileSystem, images: seq<BootImage>, failover: BootImage, blockSize: nat, at: seq<nat>)
    requires blockSize > 0 && Built(fs, images, failover) && DistinctTags(images) && Sound(images, failover, blockSize)
    requires WellPlaced(fs, images, failover, blockSize, at) && |images| <= 512 && TagsShort(images, failover)
    ensures TagsFit(fs) && (NoHits(SortByAddr(RawWrites(fs))) <==> FailoverFits(images, at, failover))
  {
    PrintsExact(fs, images, failover, at);
    if failover.spiAddr.None? {
      OrderSize(fs, images);
      ClearFailoverIsClear(fs);
      ClearIsOutOfTheWay(fs, images, failover, at);
    }
  }
}
