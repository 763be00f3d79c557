/**
 The virtual UART ring of include/tenstorrent/uart_tt_virt.h with its device
 driver (drivers/serial/uart_tt_virt.c) and its host tool
 (scripts/tooling/vuart.c), for calls that are not interleaved: each ring is
 proved to be a FIFO across the 2^32 wrap of its counters.
 */
module VirtualUart {
  import opened Bits
  import opened Bytes
  import opened RingSlots

  // ---- One ring as a queue -------------------------------------------------------------

  // The n unread bytes of the ring stored at offs in mem.
  function Queue(mem: seq<byte>, offs: nat, cap: nat, head: nat, n: nat): (q: seq<byte>)
    requires 1 <= cap && offs + cap <= |mem|
    ensures |q| == n && forall i :: 0 <= i < n ==> q[i] == mem[offs + SlotAfter(cap, head, i)]
  {
    seq(n, i requires 0 <= i < n => mem[offs + SlotAfter(cap, head, i)])
  }

  /** Storing at the tail slot appends. */
  lemma Appended(mem: seq<byte>, offs: nat, cap: nat, head: nat, n: nat, b: byte)
    requires 1 <= cap && offs + cap <= |mem| && TWO32 % cap == 0 && n < cap
    ensures Queue(mem[offs + SlotAfter(cap, head, n) := b], offs, cap, head, n + 1)
      == Queue(mem, offs, cap, head, n) + [b]
  {
    var p := Queue(mem[offs + SlotAfter(cap, head, n) := b], offs, cap, head, n + 1);
    var q := Queue(mem, offs, cap, head, n) + [b];
    forall i | 0 <= i < n + 1 ensures p[i] == q[i] {
      if i < n {
        DistinctSlots(cap, head, i, n);
      }
    }
  }

  /** Advancing the head drops the first bytes, also across the wrap. */
  lemma Dropped(mem: seq<byte>, offs: nat, cap: nat, head: nat, n: nat, k: nat)
    requires 1 <= cap && offs + cap <= |mem| && k <= n
    ensures Queue(mem, offs, cap, (head + k) % TWO32, n - k) == Queue(mem, offs, cap, head, n)[k..]
  {
    var p, q := Queue(mem, offs, cap, (head + k) % TWO32, n - k), Queue(mem, offs, cap, head, n)[k..];
    forall i | 0 <= i < n - k ensures p[i] == q[i] {
      ModSum(head + k, i);
      assert SlotAfter(cap, (head + k) % TWO32, i) == SlotAfter(cap, head, k + i);
    }
  }

  lemma FullSlot(cap: nat, head: nat)
    requires 1 <= cap && TWO32 % cap == 0
    ensures SlotAfter(cap, head, cap) == SlotAfter(cap, head, 0)
  {
    ModOfMod(head, TWO32, cap);
    ModOfMod(head + cap, TWO32, cap);
    assert head + cap == (head / cap + 1) * cap + head % cap;
    DivModUnique(head + cap, cap, head / cap + 1, head % cap);
  }

  /** A full ring whose tail slot is overwritten loses its oldest byte. */
  lemma Overwritten(mem: seq<byte>, offs: nat, cap: nat, head: nat, b: byte)
    requires 1 <= cap && offs + cap <= |mem| && TWO32 % cap == 0
    ensures Queue(mem[offs + SlotAfter(cap, head, cap) := b], offs, cap, head, cap)
      == [b] + Queue(mem, offs, cap, head, cap)[1..]
  {
    FullSlot(cap, head);
    var p := Queue(mem[offs + SlotAfter(cap, head, cap) := b], offs, cap, head, cap);
    var q := [b] + Queue(mem, offs, cap, head, cap)[1..];
    forall i | 0 <= i < cap ensures p[i] == q[i] {
      if i > 0 {
        DistinctSlots(cap, head, 0, i);
      }
    }
  }

  // One byte more than fits shows the first byte again at the end.
  lemma OneTooMany(mem: seq<byte>, offs: nat, cap: nat, head: nat)
    requires 1 <= cap && offs + cap <= |mem| && TWO32 % cap == 0
    ensures Queue(mem, offs, cap, head, cap + 1)
      == Queue(mem, offs, cap, head, cap) + [Queue(mem, offs, cap, head, cap)[0]]
  {
    FullSlot(cap, head);
    var p, q := Queue(mem, offs, cap, head, cap + 1), Queue(mem, offs, cap, head, cap);
    assert p[cap] == q[0];
    assert forall i :: 0 <= i < cap ==> p[i] == q[i];
  }

  // A write outside a ring's region does not touch it.
  lemma Untouched(mem: seq<byte>, offs: nat, cap: nat, head: nat, n: nat, at: nat, b: byte)
    requires 1 <= cap && offs + cap <= |mem| && at < |mem| && !(offs <= at < offs + cap)
    ensures Queue(mem[at := b], offs, cap, head, n) == Queue(mem, offs, cap, head, n)
  {
    var p, q := Queue(mem[at := b], offs, cap, head, n), Queue(mem, offs, cap, head, n);
    forall i | 0 <= i < n ensures p[i] == q[i] {
    }
  }

  lemma GrowSize(head: nat, tail: nat, cap: nat)
    requires head < TWO32 && tail < TWO32 && cap < TWO32 && BufSize(head, tail) < cap
    ensures BufSize(head, (tail + 1) % TWO32) == BufSize(head, tail) + 1
  {
  }

  lemma ShrinkSize(head: nat, tail: nat, k: nat)
    requires head < TWO32 && tail < TWO32 && k <= BufSize(head, tail)
    ensures BufSize((head + k) % TWO32, tail) == BufSize(head, tail) - k
  {
  }

  // The tail counter names the slot after the last unread byte.
  lemma TailSlot(cap: nat, head: nat, tail: nat)
    requires 1 <= cap && head < TWO32 && tail < TWO32
    ensures Slot(cap, tail) == SlotAfter(cap, head, BufSize(head, tail))
  {
    assert (head + BufSize(head, tail)) % TWO32 == tail;
  }

  // ---- Bulk read against repeated getc -----------------------------------------------------

  // n times the byte at the head slot, advancing the head: the bytes and the final head
  function Getcs(mem: seq<byte>, cap: nat, head: nat, n: nat): (r: (seq<byte>, nat))
    requires 1 <= cap <= |mem|
    decreases n
  {
    if n == 0 then ([], head)
    else
      var (rest, h) := Getcs(mem, cap, (head + 1) % TWO32, n - 1);
      ([mem[Slot(cap, head)]] + rest, h)
  }

  /** vuart_read's one memcpy up to the end of the buffer delivers what that many
      vuart_getc calls deliver, and leaves the same head counter. */
  lemma ReadIsRepeatedGetc(mem: seq<byte>, cap: nat, head: nat, n: nat)
    requires 1 <= cap <= |mem| && TWO32 % cap == 0 && head < TWO32 && n <= cap - Slot(cap, head)
    ensures Getcs(mem, cap, head, n) == (mem[Slot(cap, head)..Slot(cap, head) + n], (head + n) % TWO32)
  {
    GetcsFrom(mem, cap, head, n, Slot(cap, head), (head + n) % TWO32);
  }

  lemma {:induction false} GetcsFrom(mem: seq<byte>, cap: nat, head: nat, n: nat, at: nat, end: nat)
    requires 1 <= cap <= |mem| && TWO32 % cap == 0 && head < TWO32
    requires at == Slot(cap, head) && at + n <= cap && end == (head + n) % TWO32
    ensures Getcs(mem, cap, head, n) == (mem[at..at + n], end)
    decreases n
  {
    if n == 0 {
      SmallMod(head, TWO32);
      assert mem[at..at + n] == [];
    } else if n == 1 {
      assert mem[at + 1..at + n] == [];
      GetcsOnce(mem, cap, head, 1, at, [], end);
    } else {
      var next := (head + 1) % TWO32;
      NextSlot(cap, head);
      assert end == (next + (n - 1)) % TWO32 by {
        ModSum(head + 1, n - 1);
      }
      GetcsFrom(mem, cap, next, n - 1, at + 1, end);
      GetcsOnce(mem, cap, head, n, at, mem[at + 1..at + n], end);
    }
  }

  lemma GetcsOnce(mem: seq<byte>, cap: nat, head: nat, n: nat, at: nat, rest: seq<byte>, h: nat)
    requires 1 <= cap <= |mem| && n > 0 && at == Slot(cap, head) && at + n <= |mem| && rest == mem[at + 1..at + n]
    requires Getcs(mem, cap, (head + 1) % TWO32, n - 1) == (rest, h)
    ensures Getcs(mem, cap, head, n) == (mem[at..at + n], h)
  {
    assert mem[at..at + n] == [mem[at]] + rest;
  }

  lemma NextSlot(cap: nat, head: nat)
    requires 1 <= cap && TWO32 % cap == 0 && head < TWO32 && Slot(cap, head) + 1 < cap
    ensures Slot(cap, (head + 1) % TWO32) == Slot(cap, head) + 1
  {
    ModOfMod(head, TWO32, cap);
    ModOfMod(head + 1, TWO32, cap);
    assert head + 1 == head / cap * cap + (head % cap + 1);
    DivModUnique(head + 1, cap, head / cap, head % cap + 1);
  }

  // The unread bytes that lie before the end of the buffer are one slice of it.
  lemma QueueSlice(mem: seq<byte>, cap: nat, head: nat, n: nat)
    requires 1 <= cap <= |mem| && TWO32 % cap == 0 && head < TWO32 && n <= cap - Slot(cap, head)
    ensures Queue(mem, 0, cap, head, n) == mem[Slot(cap, head)..Slot(cap, head) + n]
  {
    var p, q := Queue(mem, 0, cap, head, n), mem[Slot(cap, head)..Slot(cap, head) + n];
    forall i | 0 <= i < n ensures p[i] == q[i] {
      SlotPlus(cap, head, i);
    }
  }

  lemma SlotPlus(cap: nat, head: nat, i: nat)
    requires 1 <= cap && TWO32 % cap == 0 && i < cap - Slot(cap, head)
    ensures SlotAfter(cap, head, i) == Slot(cap, head) + i
  {
    ModOfMod(head, TWO32, cap);
    ModOfMod(head + i, TWO32, cap);
    assert head + i == head / cap * cap + (head % cap + i);
    DivModUnique(head + i, cap, head / cap, head % cap + i);
  }

  // Copying n bytes from the head slot on and advancing the head by n.
  lemma BulkRead(mem: seq<byte>, cap: nat, head: nat, tail: nat, n: nat)
    requires 1 <= cap <= |mem| && TWO32 % cap == 0 && head < TWO32 && tail < TWO32
    requires n <= BufSize(head, tail) && n <= cap - Slot(cap, head)
    ensures var q := Queue(mem, 0, cap, head, BufSize(head, tail));
      var data, next := mem[Slot(cap, head)..Slot(cap, head) + n], (head + n) % TWO32;
      && data == q[..n] && BufSize(next, tail) == BufSize(head, tail) - n
      && Queue(mem, 0, cap, next, BufSize(next, tail)) == q[n..] && Getcs(mem, cap, head, n) == (data, next)
  {
    QueueSlice(mem, cap, head, n);
    ReadIsRepeatedGetc(mem, cap, head, n);
    ShrinkSize(head, tail, n);
    Dropped(mem, 0, cap, head, BufSize(head, tail), n);
    assert Queue(mem, 0, cap, head, n) == Queue(mem, 0, cap, head, BufSize(head, tail))[..n];
  }

  // ---- The shared descriptor and its two users ---------------------------------------------

  // The slot of a 32-bit counter.
  lemma SlotOf(cap: nat, counter: nat)
    requires cap > 0 && counter < TWO32
    ensures Slot(cap, counter) == counter % cap
  {
  }

  datatype Role = Device | Host

  const EOF := -1
  const EAGAIN := 11

  function Min(a: int, b: int): (m: int)
    ensures m <= a && m <= b && (m == a || m == b)
  {
    if a < b then a else b
  }

  // A byte read through a pointer to char, which is signed on some hosts.
  function CharValue(signed: bool, b: byte): (c: int)
    ensures c == EOF <==> signed && b == 255
    ensures c % 256 == b && if signed then -128 <= c < 128 else 0 <= c < 256
  {
    if signed && b >= 128 then b as int - 256 else b as int
  }

  class Vuart {
    var magic: nat
    const rxCap: nat
    var rxHead: nat
    var rxTail: nat
    const txCap: nat
    var txHead: nat
    var txOflow: nat
    var txTail: nat
    const buf: array<byte>

    // What holds whatever the two users do to the counters.
    ghost predicate Shape()
      reads this
    {
      && 1 <= txCap < 0x8000_0000 && TWO32 % txCap == 0
      && 1 <= rxCap < 0x8000_0000 && TWO32 % rxCap == 0
      && buf.Length == txCap + rxCap
      && rxHead < TWO32 && rxTail < TWO32 && txHead < TWO32 && txTail < TWO32 && txOflow < TWO32
    }

    ghost predicate Valid()
      reads this
    {
      Shape() && BufSize(txHead, txTail) <= txCap && BufSize(rxHead, rxTail) <= rxCap
    }

    // Bytes sent by the device that the host has not read, oldest first.
    ghost function Tx(): (q: seq<byte>)
      requires Shape()
      reads this, buf
    {
      Queue(buf[..], 0, txCap, txHead, BufSize(txHead, txTail))
    }

    // Bytes sent by the host that the device has not read, oldest first.
    ghost function Rx(): (q: seq<byte>)
      requires Shape()
      reads this, buf
    {
      Queue(buf[..], txCap, rxCap, rxHead, BufSize(rxHead, rxTail))
    }

    constructor (magicNumber: nat, transmit: nat, receive: nat)
      requires 1 <= transmit < 0x8000_0000 && TWO32 % transmit == 0
      requires 1 <= receive < 0x8000_0000 && TWO32 % receive == 0
      ensures Valid() && Tx() == [] && Rx() == [] && txOflow == 0
      ensures magic == magicNumber && txCap == transmit && rxCap == receive && fresh(buf)
    {
      magic, txCap, rxCap := magicNumber, transmit, receive;
      rxHead, rxTail, txHead, txTail, txOflow := 0, 0, 0, 0, 0;
      buf := new byte[transmit + receive];
    }

    // The two roles of tt_vuart_poll_in.
    method TakeRx() returns (c: int)
      requires Valid()
      modifies `rxHead
      ensures Valid() && Tx() == old(Tx())
      ensures if old(Rx()) == [] then c == -1 && Rx() == [] else c == old(Rx())[0] as int && Rx() == old(Rx())[1..]
      ensures old(Rx()) != [] ==> c == buf[txCap + Slot(rxCap, old(rxHead))] as int
    {
      if BufSize(rxHead, rxTail) == 0 {
        return -1;
      }
      ShrinkSize(rxHead, rxTail, 1);
      Dropped(buf[..], txCap, rxCap, rxHead, BufSize(rxHead, rxTail), 1);
      c := buf[txCap + Slot(rxCap, rxHead)] as int;
      assert SlotAfter(rxCap, rxHead, 0) == Slot(rxCap, rxHead);
      rxHead := (rxHead + 1) % TWO32;
    }

    method TakeTx() returns (c: int)
      requires Valid()
      modifies `txHead
      ensures Valid() && Rx() == old(Rx())
      ensures if old(Tx()) == [] then c == -1 && Tx() == [] else c == old(Tx())[0] as int && Tx() == old(Tx())[1..]
      ensures old(Tx()) != [] ==> c == buf[Slot(txCap, old(txHead))] as int
    {
      if BufSize(txHead, txTail) == 0 {
        return -1;
      }
      ShrinkSize(txHead, txTail, 1);
      Dropped(buf[..], 0, txCap, txHead, BufSize(txHead, txTail), 1);
      c := buf[Slot(txCap, txHead)] as int;
      assert SlotAfter(txCap, txHead, 0) == Slot(txCap, txHead);
      txHead := (txHead + 1) % TWO32;
    }

    // tt_vuart_poll_in with an uncontended compare-and-exchange
    method PollIn(role: Role) returns (c: int)
      requires Valid()
      modifies this
      ensures Valid() && unchanged(`magic) && unchanged(`txOflow)
      ensures role == Device ==> Tx() == old(Tx())
      ensures role == Device ==> (
        if old(Rx()) == [] then c == -1 && Rx() == []
        else c == old(Rx())[0] as int && Rx() == old(Rx())[1..])
      ensures role == Device && old(Rx()) != [] ==> c == buf[txCap + old(rxHead) % rxCap] as int
      ensures role == Host && old(Tx()) != [] ==> c == buf[old(txHead) % txCap] as int
      ensures role == Host ==> Rx() == old(Rx())
      ensures role == Host ==> (
        if old(Tx()) == [] then c == -1 && Tx() == []
        else c == old(Tx())[0] as int && Tx() == old(Tx())[1..])
    {
      if role == Device {
        SlotOf(rxCap, rxHead);
        c := TakeRx();
      } else {
        SlotOf(txCap, txHead);
        c := TakeTx();
      }
    }

    // tt_vuart_poll_out with an uncontended compare-and-exchange. Only the device
    // checks for a full ring.
    method PollOut(role: Role, b: byte)
      requires Valid()
      modifies this, buf
      ensures Shape() && unchanged(`magic)
      ensures role == Device ==> Valid() && Rx() == old(Rx())
      ensures role == Device && |old(Tx())| < txCap ==> Tx() == old(Tx()) + [b] && txOflow == old(txOflow)
      ensures role == Device && |old(Tx())| == txCap ==> Tx() == old(Tx()) && txOflow == (old(txOflow) + 1) % TWO32
      ensures role == Host ==> Tx() == old(Tx()) && unchanged(`txHead, `txTail, `txOflow)
      ensures role == Host && |old(Rx())| < rxCap ==> Valid() && Rx() == old(Rx()) + [b]
      ensures role == Host && |old(Rx())| == rxCap ==> Rx() == [b] + old(Rx())[1..] + [b]
      ensures role == Device ==>
        buf[..] == if |old(Tx())| < txCap then old(buf[..])[old(txTail) % txCap := b] else old(buf[..])
      ensures role == Host ==> buf[..] == old(buf[..])[txCap + old(rxTail) % rxCap := b]
    {
      if role == Device {
        if BufSize(txHead, txTail) == txCap {
          txOflow := (txOflow + 1) % TWO32;
          return;
        }
        SlotOf(txCap, txTail);
        SendTx(b);
      } else {
        SlotOf(rxCap, rxTail);
        SendRx(b);
      }
    }

    // A full ring is written all the same: its oldest byte is lost and the counters
    // say there is one byte more than fits.
    method SendRx(b: byte)
      requires Valid()
      modifies `rxTail, buf
      ensures Shape() && Tx() == old(Tx())
      ensures |old(Rx())| < rxCap ==> Valid() && Rx() == old(Rx()) + [b]
      ensures |old(Rx())| == rxCap ==> Rx() == [b] + old(Rx())[1..] + [b]
      ensures buf[..] == old(buf[..])[txCap + Slot(rxCap, old(rxTail)) := b]
    {
      ghost var n := BufSize(rxHead, rxTail);
      StoreRx(b);
      GrowSize(rxHead, rxTail, rxCap + 1);
      if n == rxCap {
        OneTooMany(buf[..], txCap, rxCap, rxHead);
      }
      rxTail := (rxTail + 1) % TWO32;
    }

    method SendTx(b: byte)
      requires Valid() && |Tx()| < txCap
      modifies `txTail, buf
      ensures Valid() && Tx() == old(Tx()) + [b] && Rx() == old(Rx())
      ensures buf[..] == old(buf[..])[Slot(txCap, old(txTail)) := b]
    {
      TailSlot(txCap, txHead, txTail);
      GrowSize(txHead, txTail, txCap);
      Appended(buf[..], 0, txCap, txHead, BufSize(txHead, txTail), b);
      Untouched(buf[..], txCap, rxCap, rxHead, BufSize(rxHead, rxTail), Slot(txCap, txTail), b);
      ghost var m := buf[..];
      buf[Slot(txCap, txTail)] := b;
      assert buf[..] == m[Slot(txCap, txTail) := b];
      txTail := (txTail + 1) % TWO32;
    }

    // Store at the rx tail slot without publishing: a full ring loses its oldest byte.
    method StoreRx(b: byte)
      requires Valid()
      modifies buf
      ensures Tx() == old(Tx())
      ensures |old(Rx())| == rxCap ==> Rx() == [b] + old(Rx())[1..]
      ensures |old(Rx())| < rxCap
        ==> Queue(buf[..], txCap, rxCap, rxHead, BufSize(rxHead, rxTail) + 1) == old(Rx()) + [b]
      ensures buf[..] == old(buf[..])[txCap + Slot(rxCap, rxTail) := b]
    {
      ghost var n := BufSize(rxHead, rxTail);
      TailSlot(rxCap, rxHead, rxTail);
      if n < rxCap {
        Appended(buf[..], txCap, rxCap, rxHead, n, b);
      } else {
        Overwritten(buf[..], txCap, rxCap, rxHead, b);
      }
      Untouched(buf[..], 0, txCap, txHead, BufSize(txHead, txTail), txCap + Slot(rxCap, rxTail), b);
      ghost var m := buf[..];
      buf[txCap + Slot(rxCap, rxTail)] := b;
      assert buf[..] == m[txCap + Slot(rxCap, rxTail) := b];
    }

    // vuart_putc: the byte is stored before the space check
    method PutC(expected: nat, ch: int)
      requires Valid()
      modifies `rxTail, buf
      ensures Valid() && Tx() == old(Tx())
      ensures magic != expected ==> Rx() == old(Rx()) && buf[..] == old(buf[..])
      ensures magic == expected && |old(Rx())| < rxCap ==> Rx() == old(Rx()) + [(ch % 256) as byte]
      ensures magic == expected && |old(Rx())| == rxCap ==> Rx() == [(ch % 256) as byte] + old(Rx())[1..]
      ensures magic == expected ==> buf[..] == old(buf[..])[txCap + old(rxTail) % rxCap := (ch % 256) as byte]
    {
      if magic != expected {
        return;
      }
      SlotOf(rxCap, rxTail);
      StoreRx((ch % 256) as byte);
      if Space(expected) > 0 {
        GrowSize(rxHead, rxTail, rxCap);
        rxTail := (rxTail + 1) % TWO32;
      }
    }

    // vuart_space
    function Space(expected: nat): (n: int)
      requires Valid()
      reads this, buf
      ensures n == if magic == expected then rxCap - |Rx()| else 0
    {
      if magic != expected then 0 else (rxCap - BufSize(rxHead, rxTail)) % TWO32
    }

    // vuart_getc
    method GetC(expected: nat, signed: bool) returns (ch: int)
      requires Valid()
      modifies `txHead
      ensures Valid() && Rx() == old(Rx())
      ensures magic != expected || old(Tx()) == [] ==> ch == EOF && Tx() == old(Tx())
      ensures magic == expected && old(Tx()) != [] ==> ch == CharValue(signed, old(Tx())[0]) && Tx() == old(Tx())[1..]
    {
      if magic != expected {
        return EOF;
      }
      if BufSize(txHead, txTail) == 0 {
        return EOF;
      }
      ShrinkSize(txHead, txTail, 1);
      Dropped(buf[..], 0, txCap, txHead, BufSize(txHead, txTail), 1);
      assert SlotAfter(txCap, txHead, 0) == Slot(txCap, txHead);
      ch := CharValue(signed, buf[Slot(txCap, txHead)]);
      txHead := (txHead + 1) % TWO32;
    }

    // vuart_read: up to size bytes, not past the end of the buffer
    method Read(expected: nat, size: nat) returns (r: int, data: seq<byte>)
      requires Valid()
      modifies `txHead, `txOflow
      ensures Valid() && Rx() == old(Rx())
      ensures (magic != expected || old(Tx()) == [])
        ==> r == -EAGAIN && data == [] && Tx() == old(Tx()) && txOflow == old(txOflow)
      ensures (magic == expected && old(Tx()) != []) ==> (
                && r == Min(Min(size, |old(Tx())|), txCap - Slot(txCap, old(txHead)))
                && data == old(Tx())[..r] && Tx() == old(Tx())[r..] && txOflow == 0
                && (data, txHead) == Getcs(buf[..], txCap, old(txHead), r))
    {
      if magic != expected {
        return -EAGAIN, [];
      }
      if BufSize(txHead, txTail) == 0 {
        return -EAGAIN, [];
      }
      if txOflow != 0 {
        txOflow := 0;
      }
      var offset := Slot(txCap, txHead);
      var n := Min(Min(size, BufSize(txHead, txTail)), txCap - offset);
      ghost var m, h := buf[..], txHead;
      BulkRead(m, txCap, h, txTail, n);
      data := buf[offset..offset + n];
      assert data == m[offset..offset + n];
      txHead := (txHead + n) % TWO32;
      r := n;
    }

    // uart_tt_virt_fifo_fill
    method FifoFill(data: seq<byte>, loopback: bool) returns (n: nat)
      requires Valid()
      modifies this, buf
      ensures Valid() && txOflow == old(txOflow)
      ensures n == Min(|data|, txCap - |old(Tx())|)
      ensures var sent := old(Tx()) + data[..n];
        var moved := if loopback then Min(n, rxCap - |old(Rx())|) else 0;
        Rx() == old(Rx()) + sent[..moved] && Tx() == sent[moved..]
    {
      n := Min(|data|, txCap - BufSize(txHead, txTail));
      var i := 0;
      while i < n
        invariant i <= n && Valid() && txOflow == old(txOflow)
        invariant Tx() == old(Tx()) + data[..i] && Rx() == old(Rx())
      {
        PollOut(Device, data[i]);
        assert data[..i + 1] == data[..i] + [data[i]];
        i := i + 1;
      }
      if loopback && n > 0 {
        LoopBack(n);
      }
    }

    method LoopBack(size: nat)
      requires Valid() && size <= |Tx()|
      modifies this, buf
      ensures Valid() && txOflow == old(txOflow)
      ensures var moved := Min(size, rxCap - |old(Rx())|);
        Rx() == old(Rx()) + old(Tx())[..moved] && Tx() == old(Tx())[moved..]
    {
      var lim := Min(size, rxCap - BufSize(rxHead, rxTail));
      var i := 0;
      ghost var sent := Tx();
      while i < lim
        invariant i <= lim && Valid() && txOflow == old(txOflow)
        invariant Rx() == old(Rx()) + sent[..i] && Tx() == sent[i..]
      {
        var ch := PollIn(Host);
        PollOut(Host, ch as byte);
        assert sent[..i + 1] == sent[..i] + [sent[i]];
        i := i + 1;
      }
    }

    // One round of uart_tt_virt_fifo_read.
    method ReceiveByte() returns (b: byte)
      requires Valid() && Rx() != []
      modifies this
      ensures Valid() && txOflow == old(txOflow) && Tx() == old(Tx())
      ensures b == old(Rx())[0] && Rx() == old(Rx())[1..]
    {
      var c := PollIn(Device);
      b := c as byte;
    }

    // uart_tt_virt_fifo_read
    method FifoRead(size: nat) returns (data: seq<byte>)
      requires Valid()
      modifies this
      ensures Valid() && txOflow == old(txOflow) && Tx() == old(Tx())
      ensures |data| == Min(size, |old(Rx())|)
      ensures data == old(Rx())[..|data|] && Rx() == old(Rx())[|data|..]
    {
      var n := Min(size, BufSize(rxHead, rxTail));
      ghost var q := Rx();
      data := [];
      while |data| < n
        invariant |data| <= n && Valid() && txOflow == old(txOflow) && Tx() == old(Tx())
        invariant data == q[..|data|] && Rx() == q[|data|..]
      {
        var b := ReceiveByte();
        assert q[..|data| + 1] == q[..|data|] + [q[|data|]];
        data := data + [b];
      }
    }
  }
}
