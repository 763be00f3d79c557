/**
 Ack counting of the NOC DMA driver drivers/dma/dma_tt_bh_noc.c: the hardware counts
 acks in 32 bits, and a transfer is busy while the counter is behind a target.
 */
module NocAcks {
  import opened Bits

  const HALF: nat := 0x8000_0000
  // NOC_MAX_BURST_SIZE
  const BURST: nat := 16384

  // is_behind: the sign of the 32-bit difference
  predicate IsBehind(current: nat, target: nat) {
    (current - target) % TWO32 >= HALF
  }

  // The acks a transfer of size bytes produces.
  function AcksFor(size: nat): (n: nat)
    ensures n * 16384 >= size && (size > 0 ==> (n - 1) * 16384 < size)
  {
    (size + BURST - 1) / BURST
  }

  // get_expected_acks, from the counter's value when the transfer is issued
  function ExpectedAcks(received: nat, size: nat): (e: nat)
    ensures e < TWO32
  {
    (received + AcksFor(size) % TWO32) % TWO32
  }

  // What get_status reports once arrived acks came in after a transfer that was
  // issued when issued acks had been counted altogether.
  predicate Busy(issued: nat, size: nat, arrived: nat) {
    IsBehind((issued + arrived) % TWO32, ExpectedAcks(issued % TWO32, size))
  }

  lemma BusyIsDifference(issued: nat, size: nat, arrived: nat)
    ensures Busy(issued, size, arrived) <==> (arrived - AcksFor(size)) % TWO32 >= HALF
  {
    var n := AcksFor(size);
    SumOfRemainders(issued, n);
    DifferenceOfRemainders(issued, arrived, n);
  }

  lemma SumOfRemainders(x: nat, y: nat)
    ensures (x % TWO32 + y % TWO32) % TWO32 == (x + y) % TWO32
  {
    assert x + y == (x / TWO32 + y / TWO32) * TWO32 + (x % TWO32 + y % TWO32);
  }

  lemma DifferenceOfRemainders(base: nat, x: nat, y: nat)
    ensures ((base + x) % TWO32 - (base + y) % TWO32) % TWO32 == (x - y) % TWO32
  {
    var p, q := base + x, base + y;
    assert p % TWO32 - q % TWO32 == (x - y) + (q / TWO32 - p / TWO32) * TWO32;
  }

  /** Across any wrap of the counter the transfer is busy exactly while acks are
      missing, as long as the counter runs less than 2^31 past the target. */
  lemma BusyExact(issued: nat, size: nat, arrived: nat)
    requires AcksFor(size) <= HALF && arrived < AcksFor(size) + HALF
    ensures Busy(issued, size, arrived) <==> arrived < AcksFor(size)
  {
    BusyIsDifference(issued, size, arrived);
  }

  /** Both bounds are tight: with more than 2^31 acks to come some state is
      misreported, and so is the counter 2^31 past the target. */
  lemma BusyBoundsTight(issued: nat, size: nat)
    ensures (forall arrived: nat :: arrived < AcksFor(size) + HALF ==>
             (Busy(issued, size, arrived) <==> arrived < AcksFor(size)))
      <==> AcksFor(size) <= HALF
    ensures Busy(issued, size, AcksFor(size) + HALF)
  {
    var n := AcksFor(size);
    BusyIsDifference(issued, size, n + HALF);
    if n <= HALF {
      forall arrived: nat | arrived < n + HALF ensures Busy(issued, size, arrived) <==> arrived < n {
        BusyExact(issued, size, arrived);
      }
    } else {
      var arrived: nat := if n <= TWO32 then 0 else n - TWO32;
      BusyIsDifference(issued, size, arrived);
      assert !Busy(issued, size, arrived) && arrived < n;
    }
  }
}
