/**
 The lock-free counters of include/tenstorrent/uart_tt_virt.h: any number of
 device-side producers (tt_vuart_poll_out) and host-side consumers
 (tt_vuart_poll_in) on one ring, each split into its loads, its check and its
 compare-and-swap.

 The shared head and tail are 32-bit words. The state keeps the unbounded counts
 behind them; every comparison the code makes is made on their low 32 bits.
 */
module RingCounters {
  import opened Bits
  import opened Bytes
  import opened RingSlots

  datatype Thread<T> =
    | Idle
    // tt_vuart_poll_out: called; tail loaded; head loaded and not full; claimed
    | Sending(out: T)
    | LoadedTail(out: T, t: nat)
    | Claiming(out: T, t: nat, h: nat)
    | Storing(out: T, t: nat)
    // tt_vuart_poll_in: called; head loaded; tail loaded and not empty; claimed
    | Receiving
    | LoadedHead(h: nat)
    | Taking(h: nat, t: nat)
    | Fetching(h: nat)

  // An access to the buffer: the claimed counter value and, for a fetch, what it returned.
  datatype Access<T> = Stored(c: nat) | Fetched(c: nat, got: T)

  // The bytes do not steer anything, so they can be of any type.
  datatype Ring<T> = Ring(
    cap: nat,
    head: nat,
    tail: nat,
    buf: seq<T>,
    threads: map<nat, Thread<T>>,
    pushes: seq<nat>,           // counter values claimed by producers, in order
    pops: seq<nat>,             // counter values claimed by consumers, in order
    sent: map<nat, T>,          // the byte each claimed counter value stands for
    log: seq<Access<T>>)        // the accesses to the buffer, in order

  function At<T>(s: Ring<T>, i: nat): Thread<T> {
    if i in s.threads then s.threads[i] else Idle
  }

  function Put<T>(s: Ring<T>, i: nat, p: Thread<T>): Ring<T> {
    s.(threads := s.threads[i := p])
  }

  datatype Step<T> =
    | StartOut(i: nat, out: T)
    | ReadTail(i: nat)
    | LoadHead(i: nat)
    | CasTail(i: nat)
    | Store(i: nat)
    | StartIn(i: nat)
    | ReadHead(i: nat)
    | LoadTail(i: nat)
    | CasHead(i: nat)
    | Fetch(i: nat)

  ghost predicate Shaped<T>(s: Ring<T>) {
    1 <= s.cap < TWO32 && |s.buf| == s.cap
  }

  // One step of one thread; a thread that is elsewhere does nothing.
  function Next<T>(s: Ring<T>, a: Step<T>): (r: Ring<T>)
    requires 1 <= s.cap && |s.buf| == s.cap
    ensures r.cap == s.cap && |r.buf| == s.cap
  {
    match a
    case StartOut(i, out) => if At(s, i).Idle? then Put(s, i, Sending(out)) else s
    case ReadTail(i) => if At(s, i).Sending? then Put(s, i, LoadedTail(At(s, i).out, s.tail)) else s
    case LoadHead(i) =>
      if !At(s, i).LoadedTail? then s
      else
        var p := At(s, i);
        // a full ring drops the byte and returns
        if BufSize(s.head, p.t) == s.cap then Put(s, i, Idle) else Put(s, i, Claiming(p.out, p.t, s.head))
    case CasTail(i) =>
      if !At(s, i).Claiming? then s
      else
        var p := At(s, i);
        if s.tail % TWO32 == p.t % TWO32 then
          Put(s, i, Storing(p.out, s.tail))
            .(tail := s.tail + 1, pushes := s.pushes + [s.tail], sent := s.sent[s.tail := p.out])
        else Put(s, i, Sending(p.out))
    case Store(i) =>
      if !At(s, i).Storing? then s
      else
        var p := At(s, i);
        Put(s, i, Idle).(buf := s.buf[Slot(s.cap, p.t) := p.out], log := s.log + [Stored(p.t)])
    case StartIn(i) => if At(s, i).Idle? then Put(s, i, Receiving) else s
    case ReadHead(i) => if At(s, i).Receiving? then Put(s, i, LoadedHead(s.head)) else s
    case LoadTail(i) =>
      if !At(s, i).LoadedHead? then s
      else if BufSize(At(s, i).h, s.tail) == 0 then Put(s, i, Idle)
      else Put(s, i, Taking(At(s, i).h, s.tail))
    case CasHead(i) =>
      if !At(s, i).Taking? then s
      else if s.head % TWO32 == At(s, i).h % TWO32 then
        Put(s, i, Fetching(s.head)).(head := s.head + 1, pops := s.pops + [s.head])
      else Put(s, i, Receiving)
    case Fetch(i) =>
      if !At(s, i).Fetching? then s
      else
        var h := At(s, i).h;
        Put(s, i, Idle).(log := s.log + [Fetched(h, s.buf[Slot(s.cap, h)])])
  }

  // The counter a thread is about to swap moved less than 2^32 since it was read.
  ghost predicate Awake<T>(s: Ring<T>, a: Step<T>) {
    match a
    case CasTail(i) => At(s, i).Claiming? ==> s.tail < At(s, i).t + TWO32
    case CasHead(i) => At(s, i).Taking? ==> s.head < At(s, i).h + TWO32
    case _ => true
  }

  // What a thread's loaded values still say about the shared counters.
  ghost predicate Consistent<T>(s: Ring<T>, p: Thread<T>) {
    match p
    case LoadedTail(_, t) => t <= s.tail
    case Claiming(_, t, h) => t <= s.tail && h <= s.head && (t == s.tail ==> h <= t < h + s.cap)
    case LoadedHead(h) => h <= s.head
    case Taking(h, t) => h <= s.head && t <= s.tail && (h == s.head ==> h < t)
    case _ => true
  }

  ghost predicate Inv<T>(s: Ring<T>, start: nat) {
    && Shaped(s)
    && s.head <= s.tail <= s.head + s.cap
    && (forall i :: i in s.threads ==> Consistent(s, s.threads[i]))
    && s.tail == start + |s.pushes| && s.head == start + |s.pops|
    && (forall k :: 0 <= k < |s.pushes| ==> s.pushes[k] == start + k)
    && (forall k :: 0 <= k < |s.pops| ==> s.pops[k] == start + k)
  }

  lemma SmallDifference(d: int)
    requires 0 <= d < TWO32
    ensures d % TWO32 == d
  {
  }

  lemma SameResidue(a: nat, b: nat)
    requires a <= b < a + TWO32 && a % TWO32 == b % TWO32
    ensures a == b
  {
    if a < b {
      DistinctResidues(a, b, TWO32);
    }
  }

  /** Every step of every thread keeps the invariant. */
  lemma StepKeepsInv<T>(s: Ring<T>, a: Step<T>, start: nat)
    requires Inv(s, start) && Awake(s, a)
    ensures Inv(Next(s, a), start)
  {
    match a
    case LoadHead(_) => LoadKeepsInv(s, a, start);
    case CasTail(i) => CasTailKeepsInv(s, i, start);
    case LoadTail(_) => LoadKeepsInv(s, a, start);
    case CasHead(i) => CasHeadKeepsInv(s, i, start);
    case _ => OthersKeepInv(s, a, start);
  }

  lemma OthersKeepInv<T>(s: Ring<T>, a: Step<T>, start: nat)
    requires Inv(s, start) && !a.LoadHead? && !a.CasTail? && !a.LoadTail? && !a.CasHead?
    ensures Inv(Next(s, a), start)
  {
  }

  lemma LoadKeepsInv<T>(s: Ring<T>, a: Step<T>, start: nat)
    requires Inv(s, start) && (a.LoadHead? || a.LoadTail?)
    ensures Inv(Next(s, a), start)
  {
    SmallDifference(s.tail - s.head);
  }

  lemma CasTailKeepsInv<T>(s: Ring<T>, i: nat, start: nat)
    requires Inv(s, start) && Awake(s, CasTail(i))
    ensures Inv(Next(s, CasTail(i)), start)
  {
    if At(s, i).Claiming? && s.tail % TWO32 == At(s, i).t % TWO32 {
      SameResidue(At(s, i).t, s.tail);
    }
  }

  lemma CasHeadKeepsInv<T>(s: Ring<T>, i: nat, start: nat)
    requires Inv(s, start) && Awake(s, CasHead(i))
    ensures Inv(Next(s, CasHead(i)), start)
  {
    if At(s, i).Taking? && s.head % TWO32 == At(s, i).h % TWO32 {
      SameResidue(At(s, i).h, s.head);
    }
  }

  function Run<T>(s: Ring<T>, steps: seq<Step<T>>): (r: Ring<T>)
    requires 1 <= s.cap && |s.buf| == s.cap
    ensures r.cap == s.cap && |r.buf| == s.cap
  {
    if steps == [] then s else Next(Run(s, steps[..|steps| - 1]), steps[|steps| - 1])
  }

  // No thread of the run sleeps through 2^32 counter steps.
  ghost predicate AlwaysAwake<T>(s: Ring<T>, steps: seq<Step<T>>)
    requires 1 <= s.cap && |s.buf| == s.cap
  {
    forall k :: 0 <= k < |steps| ==> Awake(Run(s, steps[..k]), steps[k])
  }

  ghost predicate Initial<T>(s: Ring<T>, start: nat) {
    Shaped(s) && s.head == s.tail == start && s.threads == map[] && s.pushes == [] && s.pops == []
  }

  lemma {:induction false} RunKeepsInv<T>(s: Ring<T>, steps: seq<Step<T>>, start: nat)
    requires Initial(s, start) && AlwaysAwake(s, steps)
    ensures Inv(Run(s, steps), start)
  {
    if steps != [] {
      var n := |steps| - 1;
      forall k | 0 <= k < n ensures Awake(Run(s, steps[..n][..k]), steps[..n][k]) {
        assert steps[..n][..k] == steps[..k];
      }
      RunKeepsInv(s, steps[..n], start);
      StepKeepsInv(Run(s, steps[..n]), steps[n], start);
    }
  }

  /** Counter safety in every interleaving: the ring never holds fewer than zero
      or more than cap bytes, and the k-th producer (or consumer) claim is the
      k-th counter value, so no value is claimed twice. */
  lemma CountersSafe<T>(s: Ring<T>, steps: seq<Step<T>>, start: nat)
    requires Initial(s, start) && AlwaysAwake(s, steps)
    ensures var r := Run(s, steps);
      && 0 <= r.tail - r.head <= r.cap
      && (forall j, k :: 0 <= j < k < |r.pushes| ==> r.pushes[j] < r.pushes[k])
      && (forall j, k :: 0 <= j < k < |r.pops| ==> r.pops[j] < r.pops[k])
      && (forall k :: 0 <= k < |r.pops| ==> k < |r.pushes| && r.pops[k] == r.pushes[k])
  {
    RunKeepsInv(s, steps, start);
  }

  function Empty(cap: nat, buf: seq<byte>): Ring<byte> {
    Ring(cap, 0, 0, buf, map[], [], [], map[], [])
  }

  // s can be reached from the empty one-byte ring.
  ghost predicate Reachable(s: Ring<byte>) {
    exists steps: seq<Step<byte>> :: Run(Empty(1, [0]), steps) == s
  }

  lemma ReachNext(s: Ring<byte>, a: Step<byte>) returns (r: Ring<byte>)
    requires Reachable(s)
    ensures s.cap == 1 && |s.buf| == 1 && r == Next(s, a) && Reachable(r)
  {
    var steps: seq<Step<byte>> :| Run(Empty(1, [0]), steps) == s;
    assert (steps + [a])[..|steps|] == steps;
    assert Run(Empty(1, [0]), steps + [a]) == Next(s, a);
    r := Next(s, a);
  }

  lemma ReachStart()
    ensures Reachable(Empty(1, [0]))
  {
    assert Run(Empty(1, [0]), []) == Empty(1, [0]);
  }

  // An idle thread claims a slot of a ring that is not full.
  lemma ReachClaim(s: Ring<byte>, i: nat, out: byte) returns (r: Ring<byte>)
    requires Reachable(s) && At(s, i).Idle? && BufSize(s.head, s.tail) != s.cap
    ensures Reachable(r) && r == Put(s, i, Claiming(out, s.tail, s.head))
  {
    r := ReachNext(s, StartOut(i, out));
    r := ReachNext(r, ReadTail(i));
    assert At(r, i) == LoadedTail(out, s.tail);
    r := ReachNext(r, LoadHead(i));
    assert r.threads == s.threads[i := Claiming(out, s.tail, s.head)];
  }

  // An idle thread is about to take from a ring that is not empty.
  lemma ReachTaking(s: Ring<byte>, i: nat) returns (r: Ring<byte>)
    requires Reachable(s) && At(s, i).Idle? && BufSize(s.head, s.tail) != 0
    ensures Reachable(r) && r == Put(s, i, Taking(s.head, s.tail))
  {
    r := ReachNext(s, StartIn(i));
    r := ReachNext(r, ReadHead(i));
    assert At(r, i) == LoadedHead(s.head);
    r := ReachNext(r, LoadTail(i));
    assert r.threads == s.threads[i := Taking(s.head, s.tail)];
  }

  lemma ReachFetch(s: Ring<byte>, i: nat) returns (r: Ring<byte>)
    requires Reachable(s) && At(s, i).Idle? && BufSize(s.head, s.tail) != 0
    ensures Reachable(r) && s.cap == 1 && |s.buf| == 1 && r.head == s.head + 1 && r.tail == s.tail && r.sent == s.sent
    ensures r.log == s.log + [Fetched(s.head, s.buf[0])] && forall j :: At(r, j) == At(s, j)
  {
    var m := ReachTaking(s, i);
    var q := ReachNext(m, CasHead(i));
    assert At(q, i) == Fetching(s.head) && q.buf == s.buf && q.log == s.log;
    r := ReachNext(q, Fetch(i));
    assert Slot(1, s.head) == 0;
  }

  // ---- Why the byte itself is only safe under the lock -----------------------------

  /** The tail is published before the byte is stored: a consumer may return the
      old contents of the slot instead of the byte that was sent. */
  lemma PublishBeforeStoreRaces() returns (s: Ring<byte>)
    ensures Reachable(s) && s.sent == map[0 := 7] && s.log == [Fetched(0, 0)]
  {
    ReachStart();
    s := ReachClaim(Empty(1, [0]), 0, 7);
    s := ReachNext(s, CasTail(0));
    assert s.tail == 1 && s.sent == map[0 := 7] && s.buf == [0] && BufSize(0, 1) == 1;
    s := ReachFetch(s, 1);
  }

  // ---- What becomes of one call ------------------------------------------------------

  datatype Fate = Trying | GaveUp | Claimed(c: nat)

  // Thread i finds no room at the counter value it read.
  ghost predicate FindsFull<T>(s: Ring<T>, a: Step<T>, i: nat) {
    a == LoadHead(i) && At(s, i).LoadedTail? && (At(s, i).t - s.head) % TWO32 == s.cap
  }

  ghost predicate FindsEmpty<T>(s: Ring<T>, a: Step<T>, i: nat) {
    a == LoadTail(i) && At(s, i).LoadedHead? && (s.tail - At(s, i).h) % TWO32 == 0
  }

  // Its compare-and-swap succeeds.
  ghost predicate ClaimsTail<T>(s: Ring<T>, a: Step<T>, i: nat) {
    a == CasTail(i) && At(s, i).Claiming? && (s.tail - At(s, i).t) % TWO32 == 0
  }

  ghost predicate ClaimsHead<T>(s: Ring<T>, a: Step<T>, i: nat) {
    a == CasHead(i) && At(s, i).Taking? && (s.head - At(s, i).h) % TWO32 == 0
  }

  // The first of these to happen to a call of thread i decides it.
  ghost function FateOf<T>(s: Ring<T>, steps: seq<Step<T>>, i: nat): Fate
    requires 1 <= s.cap && |s.buf| == s.cap
  {
    if steps == [] then Trying
    else
      var n := |steps| - 1;
      var r, f := Run(s, steps[..n]), FateOf(s, steps[..n], i);
      if !f.Trying? then f
      else if FindsFull(r, steps[n], i) || FindsEmpty(r, steps[n], i) then GaveUp
      else if ClaimsTail(r, steps[n], i) then Claimed(r.tail)
      else if ClaimsHead(r, steps[n], i) then Claimed(r.head)
      else Trying
  }

  ghost predicate Sends<T>(p: Thread<T>, out: T) {
    (p.Sending? || p.LoadedTail? || p.Claiming?) && p.out == out
  }

  predicate Receives<T>(p: Thread<T>) {
    p.Receiving? || p.LoadedHead? || p.Taking?
  }

  predicate Begins<T>(a: Step<T>, i: nat) {
    (a.StartOut? || a.StartIn?) && a.i == i
  }

  ghost predicate NoneBegins<T>(steps: seq<Step<T>>, i: nat) {
    forall k :: 0 <= k < |steps| ==> !Begins(steps[k], i)
  }

  // Where a call of poll_out stands, and what it has done by then.
  ghost predicate PushStands<T>(r: Ring<T>, f: Fate, i: nat, out: T) {
    match f
    case Trying => Sends(At(r, i), out)
    case GaveUp => At(r, i).Idle?
    case Claimed(c) =>
      && c < r.tail && c in r.sent && r.sent[c] == out
      && (At(r, i) == Storing(out, c) || (At(r, i).Idle? && Stored(c) in r.log))
  }

  ghost predicate PopStands<T>(r: Ring<T>, f: Fate, i: nat) {
    match f
    case Trying => Receives(At(r, i))
    case GaveUp => At(r, i).Idle?
    case Claimed(c) => At(r, i) == Fetching(c) || (At(r, i).Idle? && HasFetch(r.log, c))
  }

  ghost predicate HasFetch<T>(log: seq<Access<T>>, c: nat) {
    exists k :: 0 <= k < |log| && log[k].Fetched? && log[k].c == c
  }

  lemma SameCounter(a: nat, b: nat)
    ensures (a - b) % TWO32 == 0 <==> a % TWO32 == b % TWO32
  {
  }

  lemma FetchStays<T>(log: seq<Access<T>>, more: seq<Access<T>>, c: nat)
    requires HasFetch(log, c)
    ensures HasFetch(log + more, c)
  {
    var k :| 0 <= k < |log| && log[k].Fetched? && log[k].c == c;
    assert (log + more)[k] == log[k];
  }

  lemma TryingPush<T>(s: Ring<T>, a: Step<T>, i: nat, out: T)
    requires Shaped(s) && Sends(At(s, i), out) && !Begins(a, i)
    ensures var f := if FindsFull(s, a, i) then GaveUp else if ClaimsTail(s, a, i) then Claimed(s.tail) else Trying;
      PushStands(Next(s, a), f, i, out)
    ensures !FindsEmpty(s, a, i) && !ClaimsHead(s, a, i)
  {
    if a == CasTail(i) && At(s, i).Claiming? {
      SameCounter(s.tail, At(s, i).t);
    }
  }

  lemma ClaimedPush<T>(s: Ring<T>, a: Step<T>, i: nat, out: T, c: nat)
    requires Shaped(s) && PushStands(s, Claimed(c), i, out) && !Begins(a, i)
    ensures PushStands(Next(s, a), Claimed(c), i, out)
  {
  }

  /** Every byte handed to poll_out is still being tried, was given up because the ring was
      found full, or was claimed for one counter value, which stands for it from then on, and
      is stored there before the call returns. A lost race is tried again. */
  lemma {:induction false} PushFate<T>(s: Ring<T>, steps: seq<Step<T>>, i: nat, out: T)
    requires Shaped(s) && Sends(At(s, i), out) && NoneBegins(steps, i)
    ensures PushStands(Run(s, steps), FateOf(s, steps, i), i, out)
    decreases |steps|
  {
    if steps != [] {
      var n := |steps| - 1;
      PushFate(s, steps[..n], i, out);
      var r, f := Run(s, steps[..n]), FateOf(s, steps[..n], i);
      match f {
        case Trying => TryingPush(r, steps[n], i, out);
        case Claimed(c) => ClaimedPush(r, steps[n], i, out, c);
        case GaveUp =>
      }
    }
  }

  lemma TryingPop<T>(s: Ring<T>, a: Step<T>, i: nat)
    requires Shaped(s) && Receives(At(s, i)) && !Begins(a, i)
    ensures var f := if FindsEmpty(s, a, i) then GaveUp else if ClaimsHead(s, a, i) then Claimed(s.head) else Trying;
      PopStands(Next(s, a), f, i)
    ensures !FindsFull(s, a, i) && !ClaimsTail(s, a, i)
  {
    if a == CasHead(i) && At(s, i).Taking? {
      SameCounter(s.head, At(s, i).h);
    }
  }

  lemma ClaimedPop<T>(s: Ring<T>, a: Step<T>, i: nat, c: nat)
    requires Shaped(s) && PopStands(s, Claimed(c), i) && !Begins(a, i)
    ensures PopStands(Next(s, a), Claimed(c), i)
  {
    var r := Next(s, a);
    if a == Fetch(i) && At(s, i).Fetching? {
      assert r.log[|s.log|].Fetched? && r.log[|s.log|].c == c;
    } else if HasFetch(s.log, c) {
      FetchStays(s.log, r.log[|s.log|..], c);
      assert r.log == s.log + r.log[|s.log|..];
    }
  }

  /** Every call of poll_in is still trying, gave up because the ring was found empty, or
      claimed one counter value and fetches it before it returns. */
  lemma {:induction false} PopFate<T>(s: Ring<T>, steps: seq<Step<T>>, i: nat)
    requires Shaped(s) && Receives(At(s, i)) && NoneBegins(steps, i)
    ensures PopStands(Run(s, steps), FateOf(s, steps, i), i)
    decreases |steps|
  {
    if steps != [] {
      var n := |steps| - 1;
      PopFate(s, steps[..n], i);
      var r, f := Run(s, steps[..n]), FateOf(s, steps[..n], i);
      match f {
        case Trying => TryingPop(r, steps[n], i);
        case Claimed(c) => ClaimedPop(r, steps[n], i, c);
        case GaveUp =>
      }
    }
  }

  // ---- Why a sleeping thread must be excluded ---------------------------------------

  // Thread 0 has read an empty one-byte ring and sleeps; 1 and 2 are idle.
  ghost predicate Asleep(s: Ring<byte>, head: nat, tail: nat) {
    && Reachable(s) && s.cap == 1 && s.head == head && s.tail == tail
    && At(s, 0) == Claiming(7, 0, 0) && At(s, 1).Idle? && At(s, 2).Idle?
  }

  lemma PushCycle(s: Ring<byte>, n: nat) returns (r: Ring<byte>)
    requires Asleep(s, n, n)
    ensures Asleep(r, n, n + 1)
  {
    assert BufSize(n, n) == 0;
    r := ReachClaim(s, 1, 0);
    r := ReachNext(r, CasTail(1));
    r := ReachNext(r, Store(1));
  }

  lemma PopCycle(s: Ring<byte>, n: nat) returns (r: Ring<byte>)
    requires Asleep(s, n, n + 1)
    ensures Asleep(r, n + 1, n + 1)
  {
    assert BufSize(n, n + 1) == 1;
    r := ReachFetch(s, 2);
  }

  lemma {:induction false} ManyCycles(n: nat) returns (s: Ring<byte>)
    ensures Asleep(s, n, n)
  {
    if n == 0 {
      ReachStart();
      s := ReachClaim(Empty(1, [0]), 0, 7);
    } else {
      s := ManyCycles(n - 1);
      s := PushCycle(s, n - 1);
      s := PopCycle(s, n - 1);
    }
  }

  /** Without the assumption the bound fails: a producer that sleeps through
      exactly 2^32 pushes claims a slot of a full ring. */
  lemma SleeperOverfills() returns (s: Ring<byte>)
    ensures Reachable(s) && s.tail - s.head > s.cap
  {
    s := ManyCycles(TWO32 - 1);
    s := PushCycle(s, TWO32 - 1);
    assert s.tail % TWO32 == 0;
    s := ReachNext(s, CasTail(0));
  }
}
