/**
 How the virtual UART addresses its rings (include/tenstorrent/uart_tt_virt.h): head
 and tail are 32-bit up-counters, and a counter value names the slot given by its
 remainder modulo the capacity.
 */
module RingSlots {
  import opened Bits
  import opened Bytes

  // tt_vuart_buf_size: 32-bit subtraction
  function BufSize(head: nat, tail: nat): (n: nat)
    ensures n < TWO32
  {
    (tail - head) % TWO32
  }

  function Slot(cap: nat, counter: nat): (i: nat)
    requires cap > 0
    ensures i < cap
  {
    counter % TWO32 % cap
  }

  // The slot of the i-th counter value after c.
  function SlotAfter(cap: nat, c: nat, i: nat): (k: nat)
    requires cap > 0
    ensures k < cap
  {
    Slot(cap, c + i)
  }

  // ---- Which capacities work ---------------------------------------------------------

  lemma ModOfMod(x: nat, m: nat, cap: nat)
    requires m > 0 && cap > 0 && m % cap == 0
    ensures x % m % cap == x % cap
  {
    var q, k := x / m, m / cap;
    var r := x % m;
    assert x == q * m + r && m == k * cap;
    assert q * m == (q * k) * cap by {
      assert q * (k * cap) == (q * k) * cap;
    }
    var a, b := r / cap, r % cap;
    assert x == (q * k + a) * cap + b by {
      assert (q * k + a) * cap == (q * k) * cap + a * cap;
      assert r == a * cap + b;
    }
    DivModUnique(x, cap, q * k + a, b);
  }

  // Any cap consecutive counter values, wrap included, use distinct slots.
  ghost predicate SlotsDistinct(cap: nat)
    requires cap > 0
  {
    forall c: nat, i: nat, j: nat :: i < j < cap ==> SlotAfter(cap, c, i) != SlotAfter(cap, c, j)
  }

  /** The up-counters address the buffer without collision exactly when the
      capacity divides 2^32. */
  lemma CapacityExact(cap: nat)
    requires 1 <= cap < TWO32
    ensures SlotsDistinct(cap) <==> TWO32 % cap == 0
  {
    if TWO32 % cap == 0 {
      forall c: nat, i: nat, j: nat | i < j < cap ensures SlotAfter(cap, c, i) != SlotAfter(cap, c, j) {
        DistinctSlots(cap, c, i, j);
      }
    } else {
      // the last counter value before the wrap collides with one after it
      var last := TWO32 - 1;
      var j := last % cap + 1;
      LastResidue(cap);
      assert SlotAfter(cap, last, 0) == last % cap;
      assert (last + j) % TWO32 == last % cap;
      SmallMod(last % cap, cap);
      assert SlotAfter(cap, last, j) == last % cap;
    }
  }

  lemma LastResidue(cap: nat)
    requires 1 <= cap < TWO32 && TWO32 % cap != 0
    ensures (TWO32 - 1) % cap < cap - 1
  {
    var q, r := TWO32 / cap, TWO32 % cap;
    assert TWO32 - 1 == q * cap + (r - 1);
    DivModUnique(TWO32 - 1, cap, q, r - 1);
  }

  lemma DistinctSlots(cap: nat, c: nat, i: nat, j: nat)
    requires 1 <= cap && TWO32 % cap == 0 && i < j < cap
    ensures SlotAfter(cap, c, i) != SlotAfter(cap, c, j)
  {
    ModOfMod(c + i, TWO32, cap);
    ModOfMod(c + j, TWO32, cap);
    DistinctResidues(c + i, c + j, cap);
  }

  lemma ModSum(x: nat, i: nat)
    ensures (x % TWO32 + i) % TWO32 == (x + i) % TWO32
  {
    assert x == x / TWO32 * TWO32 + x % TWO32;
  }
}
