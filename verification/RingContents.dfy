/**
 What consumers get out of the lock-free ring of include/tenstorrent/uart_tt_virt.h
 (RingCounters): the counter is published before the byte is stored and before it is
 fetched, so a fetch returns the byte that was sent only if the accesses to its slot
 come in the right order.
 */
module RingContents {
  import opened Bits
  import opened Bytes
  import opened Wrappers
  import opened RingSlots
  import opened RingCounters
  import opened VirtualUart

  // ---- What a slot holds -------------------------------------------------------------------

  // The counter value stored last in slot k.
  function LastStore<T>(log: seq<Access<T>>, cap: nat, k: nat): Option<nat>
    requires cap > 0
  {
    if log == [] then None
    else
      var a := log[|log| - 1];
      if a.Stored? && Slot(cap, a.c) == k then Some(a.c) else LastStore(log[..|log| - 1], cap, k)
  }

  lemma LastStoreMore<T>(log: seq<Access<T>>, a: Access<T>, cap: nat, k: nat)
    requires cap > 0
    ensures LastStore(log + [a], cap, k) ==
      if a.Stored? && Slot(cap, a.c) == k then Some(a.c) else LastStore(log, cap, k)
  {
    assert (log + [a])[..|log|] == log;
  }

  // The store of h precedes position p, and no other store to its slot comes between.
  ghost predicate Intact<T>(log: seq<Access<T>>, cap: nat, p: nat, h: nat)
    requires cap > 0 && p <= |log|
  {
    exists q :: 0 <= q < p && log[q] == Stored(h) && NoStoreBetween(log, cap, q, p, Slot(cap, h))
  }

  ghost predicate NoStoreBetween<T>(log: seq<Access<T>>, cap: nat, q: nat, p: nat, k: nat)
    requires cap > 0 && p <= |log|
  {
    forall r :: q < r < p && log[r].Stored? ==> Slot(cap, log[r].c) != k
  }

  lemma {:induction false} LastStoreIsIntact<T>(log: seq<Access<T>>, cap: nat, p: nat, h: nat)
    requires cap > 0 && p <= |log|
    ensures LastStore(log[..p], cap, Slot(cap, h)) == Some(h) <==> Intact(log, cap, p, h)
    decreases p
  {
    if p > 0 {
      var a, k := log[p - 1], Slot(cap, h);
      assert log[..p][..p - 1] == log[..p - 1] && log[..p][p - 1] == a;
      LastStoreIsIntact(log, cap, p - 1, h);
      if a.Stored? && Slot(cap, a.c) == k {
        if a.c == h {
          assert NoStoreBetween(log, cap, p - 1, p, k);
        }
      } else {
        IntactStep(log, cap, p, h);
      }
    }
  }

  lemma IntactStep<T>(log: seq<Access<T>>, cap: nat, p: nat, h: nat)
    requires cap > 0 && 0 < p <= |log| && !(log[p - 1].Stored? && Slot(cap, log[p - 1].c) == Slot(cap, h))
    ensures Intact(log, cap, p, h) <==> Intact(log, cap, p - 1, h)
  {
    var k := Slot(cap, h);
    if Intact(log, cap, p - 1, h) {
      var q :| 0 <= q < p - 1 && log[q] == Stored(h) && NoStoreBetween(log, cap, q, p - 1, k);
      assert NoStoreBetween(log, cap, q, p, k);
    }
    if Intact(log, cap, p, h) {
      var q :| 0 <= q < p && log[q] == Stored(h) && NoStoreBetween(log, cap, q, p, k);
      assert NoStoreBetween(log, cap, q, p - 1, k);
    }
  }

  // The contents of slot k after log, when the ring began as init.
  function Content<T>(init: seq<T>, sent: map<nat, T>, last: Option<nat>, k: nat): Option<T> {
    match last
    case None => if k < |init| then Some(init[k]) else None
    case Some(c) => if c in sent then Some(sent[c]) else None
  }

  ghost predicate Backed<T>(s: Ring<T>, init: seq<T>) {
    && Shaped(s) && |init| == s.cap
    && (forall c :: c in s.sent ==> c < s.tail)
    && (forall i :: i in s.threads && s.threads[i].Storing? ==>
      s.threads[i].t in s.sent && s.sent[s.threads[i].t] == s.threads[i].out)
    && Explains(s.log, s.sent, init, s.buf, s.cap)
  }

  // The accesses explain what is in the buffer.
  ghost predicate Explains<T>(log: seq<Access<T>>, sent: map<nat, T>, init: seq<T>, buf: seq<T>, cap: nat) {
    0 < cap == |buf| && forall k: nat :: k < cap ==> Content(init, sent, LastStore(log, cap, k), k) == Some(buf[k])
  }

  // Every fetch returned what its slot held at that point.
  ghost predicate Replayed<T>(s: Ring<T>, init: seq<T>)
    requires s.cap > 0
  {
    forall p :: 0 <= p < |s.log| && s.log[p].Fetched? ==>
      var k := Slot(s.cap, s.log[p].c);
      Content(init, s.sent, LastStore(s.log[..p], s.cap, k), k) == Some(s.log[p].got)
  }

  lemma StepKeepsBacked<T>(s: Ring<T>, a: Step<T>, init: seq<T>)
    requires Backed(s, init)
    ensures Backed(Next(s, a), init)
  {
    match a
    case CasTail(i) => ClaimKeepsBacked(s, i, init);
    case Store(i) => StoreKeepsBacked(s, i, init);
    case Fetch(i) => FetchKeepsBacked(s, i, init);
    case _ =>
      var r := Next(s, a);
      assert r.sent == s.sent && r.log == s.log && r.buf == s.buf && r.tail == s.tail;
  }

  lemma ClaimKeepsBacked<T>(s: Ring<T>, i: nat, init: seq<T>)
    requires Backed(s, init)
    ensures Backed(Next(s, CasTail(i)), init)
  {
    if At(s, i).Claiming? && s.tail % TWO32 == At(s, i).t % TWO32 {
      ExplainsClaim(s.log, s.sent, init, s.buf, s.cap, s.tail, At(s, i).out);
    }
  }

  lemma ExplainsClaim<T>(log: seq<Access<T>>, sent: map<nat, T>, init: seq<T>, buf: seq<T>, cap: nat, c: nat, out: T)
    requires Explains(log, sent, init, buf, cap) && c !in sent
    ensures Explains(log, sent[c := out], init, buf, cap)
  {
    forall k: nat | k < cap ensures Content(init, sent[c := out], LastStore(log, cap, k), k) == Some(buf[k]) {
      assert Content(init, sent, LastStore(log, cap, k), k) == Some(buf[k]);
    }
  }

  lemma ExplainsStore<T>(log: seq<Access<T>>, sent: map<nat, T>, init: seq<T>, buf: seq<T>, cap: nat, c: nat)
    requires Explains(log, sent, init, buf, cap) && c in sent
    ensures Explains(log + [Stored(c)], sent, init, buf[Slot(cap, c) := sent[c]], cap)
  {
    forall k: nat | k < cap
      ensures Content(init, sent, LastStore(log + [Stored(c)], cap, k), k) == Some(buf[Slot(cap, c) := sent[c]][k])
    {
      LastStoreMore(log, Stored(c), cap, k);
      assert Content(init, sent, LastStore(log, cap, k), k) == Some(buf[k]);
    }
  }

  lemma ExplainsFetch<T>(log: seq<Access<T>>, sent: map<nat, T>, init: seq<T>, buf: seq<T>, cap: nat, a: Access<T>)
    requires Explains(log, sent, init, buf, cap) && a.Fetched?
    ensures Explains(log + [a], sent, init, buf, cap)
  {
    forall k: nat | k < cap ensures Content(init, sent, LastStore(log + [a], cap, k), k) == Some(buf[k]) {
      LastStoreMore(log, a, cap, k);
      assert Content(init, sent, LastStore(log, cap, k), k) == Some(buf[k]);
    }
  }

  lemma StoreKeepsBacked<T>(s: Ring<T>, i: nat, init: seq<T>)
    requires Backed(s, init)
    ensures Backed(Next(s, Store(i)), init)
  {
    if At(s, i).Storing? {
      ExplainsStore(s.log, s.sent, init, s.buf, s.cap, At(s, i).t);
    }
  }

  lemma FetchKeepsBacked<T>(s: Ring<T>, i: nat, init: seq<T>)
    requires Backed(s, init)
    ensures Backed(Next(s, Fetch(i)), init)
  {
    if At(s, i).Fetching? {
      var h, r := At(s, i).h, Next(s, Fetch(i));
      var a := Fetched(h, s.buf[Slot(s.cap, h)]);
      assert r.log == s.log + [a] && r.sent == s.sent && r.buf == s.buf && r.tail == s.tail;
      ExplainsFetch(s.log, s.sent, init, s.buf, s.cap, a);
      StillBacked(s, r, init);
    }
  }

  // A step that sends nothing and starts no store.
  lemma StillBacked<T>(s: Ring<T>, r: Ring<T>, init: seq<T>)
    requires Backed(s, init) && Shaped(r) && r.cap == s.cap && r.sent == s.sent && r.tail == s.tail
    requires forall i :: i in r.threads && r.threads[i].Storing? ==> i in s.threads && s.threads[i] == r.threads[i]
    requires Explains(r.log, r.sent, init, r.buf, r.cap)
    ensures Backed(r, init)
  {
  }

  lemma ContentStays<T>(s: Ring<T>, a: Step<T>, init: seq<T>, last: Option<nat>, k: nat)
    requires Backed(s, init) && Content(init, s.sent, last, k).Some?
    ensures Content(init, Next(s, a).sent, last, k) == Content(init, s.sent, last, k)
  {
  }

  lemma StepKeepsReplayed<T>(s: Ring<T>, a: Step<T>, init: seq<T>)
    requires Backed(s, init) && Replayed(s, init)
    ensures Replayed(Next(s, a), init)
  {
    var r := Next(s, a);
    forall p | 0 <= p < |r.log| && r.log[p].Fetched?
      ensures Content(init, r.sent, LastStore(r.log[..p], r.cap, Slot(r.cap, r.log[p].c)), Slot(r.cap, r.log[p].c))
        == Some(r.log[p].got)
    {
      assert r.log[..p] == s.log[..p];
      var k := Slot(s.cap, r.log[p].c);
      if p == |s.log| {
        assert s.log[..p] == s.log;
      }
      ContentStays(s, a, init, LastStore(s.log[..p], s.cap, k), k);
    }
  }

  lemma {:induction false} RunReplays<T>(s: Ring<T>, steps: seq<Step<T>>, init: seq<T>)
    requires Backed(s, init) && Replayed(s, init)
    ensures Backed(Run(s, steps), init) && Replayed(Run(s, steps), init)
  {
    if steps != [] {
      var n := |steps| - 1;
      RunReplays(s, steps[..n], init);
      var r := Run(s, steps[..n]);
      StepKeepsBacked(r, steps[n], init);
      StepKeepsReplayed(r, steps[n], init);
    }
  }

  // ---- The bytes steer nothing ------------------------------------------------------------------

  function MapThread<T, U>(f: T -> U, p: Thread<T>): Thread<U> {
    match p
    case Idle => Idle
    case Sending(out) => Sending(f(out))
    case LoadedTail(out, t) => LoadedTail(f(out), t)
    case Claiming(out, t, h) => Claiming(f(out), t, h)
    case Storing(out, t) => Storing(f(out), t)
    case Receiving => Receiving
    case LoadedHead(h) => LoadedHead(h)
    case Taking(h, t) => Taking(h, t)
    case Fetching(h) => Fetching(h)
  }

  function MapAccess<T, U>(f: T -> U, a: Access<T>): Access<U> {
    match a
    case Stored(c) => Stored(c)
    case Fetched(c, got) => Fetched(c, f(got))
  }

  function MapStep<T, U>(f: T -> U, a: Step<T>): Step<U> {
    match a
    case StartOut(i, out) => StartOut(i, f(out))
    case ReadTail(i) => ReadTail(i)
    case LoadHead(i) => LoadHead(i)
    case CasTail(i) => CasTail(i)
    case Store(i) => Store(i)
    case StartIn(i) => StartIn(i)
    case ReadHead(i) => ReadHead(i)
    case LoadTail(i) => LoadTail(i)
    case CasHead(i) => CasHead(i)
    case Fetch(i) => Fetch(i)
  }

  function MapSeq<T, U>(f: T -> U, s: seq<T>): (r: seq<U>)
    ensures |r| == |s| && forall i :: 0 <= i < |s| ==> r[i] == f(s[i])
  {
    seq(|s|, i requires 0 <= i < |s| => f(s[i]))
  }

  function MapThreads<T, U>(f: T -> U, m: map<nat, Thread<T>>): map<nat, Thread<U>> {
    map i | i in m :: MapThread(f, m[i])
  }

  function MapSent<T, U>(f: T -> U, m: map<nat, T>): map<nat, U> {
    map c | c in m :: f(m[c])
  }

  function MapLog<T, U>(f: T -> U, log: seq<Access<T>>): (r: seq<Access<U>>)
    ensures |r| == |log| && forall i :: 0 <= i < |log| ==> r[i] == MapAccess(f, log[i])
  {
    seq(|log|, i requires 0 <= i < |log| => MapAccess(f, log[i]))
  }

  function MapSteps<T, U>(f: T -> U, steps: seq<Step<T>>): (r: seq<Step<U>>)
    ensures |r| == |steps| && forall i :: 0 <= i < |steps| ==> r[i] == MapStep(f, steps[i])
  {
    seq(|steps|, i requires 0 <= i < |steps| => MapStep(f, steps[i]))
  }

  function MapRing<T, U>(f: T -> U, s: Ring<T>): (r: Ring<U>)
    ensures r.cap == s.cap && |r.buf| == |s.buf|
  {
    Ring(s.cap, s.head, s.tail, MapSeq(f, s.buf), MapThreads(f, s.threads),
      s.pushes, s.pops, MapSent(f, s.sent), MapLog(f, s.log))
  }

  lemma PutMaps<T, U>(f: T -> U, s: Ring<T>, i: nat, p: Thread<T>)
    ensures Put(MapRing(f, s), i, MapThread(f, p)) == MapRing(f, Put(s, i, p))
  {
    assert MapThreads(f, s.threads)[i := MapThread(f, p)] == MapThreads(f, s.threads[i := p]);
  }

  lemma AtMaps<T, U>(f: T -> U, s: Ring<T>, i: nat)
    ensures At(MapRing(f, s), i) == MapThread(f, At(s, i))
  {
  }

  lemma LogMaps<T, U>(f: T -> U, log: seq<Access<T>>, a: Access<T>)
    ensures MapLog(f, log) + [MapAccess(f, a)] == MapLog(f, log + [a])
  {
  }

  lemma NextMaps<T, U>(f: T -> U, s: Ring<T>, a: Step<T>)
    requires 1 <= s.cap && |s.buf| == s.cap
    ensures Next(MapRing(f, s), MapStep(f, a)) == MapRing(f, Next(s, a))
  {
    match a
    case CasTail(i) => ClaimMaps(f, s, i);
    case Store(i) => StoreMaps(f, s, i);
    case Fetch(i) => FetchMaps(f, s, i);
    case CasHead(i) => TakeMaps(f, s, i);
    case _ => MoveMaps(f, s, a);
  }

  lemma MoveMaps<T, U>(f: T -> U, s: Ring<T>, a: Step<T>)
    requires 1 <= s.cap && |s.buf| == s.cap && !a.CasTail? && !a.Store? && !a.Fetch? && !a.CasHead?
    ensures Next(MapRing(f, s), MapStep(f, a)) == MapRing(f, Next(s, a))
  {
    AtMaps(f, s, a.i);
    PutMaps(f, s, a.i, At(Next(s, a), a.i));
  }

  lemma ClaimMaps<T, U>(f: T -> U, s: Ring<T>, i: nat)
    requires 1 <= s.cap && |s.buf| == s.cap
    ensures Next(MapRing(f, s), CasTail(i)) == MapRing(f, Next(s, CasTail(i)))
  {
    AtMaps(f, s, i);
    PutMaps(f, s, i, At(Next(s, CasTail(i)), i));
    if At(s, i).Claiming? {
      var out := At(s, i).out;
      assert MapSent(f, s.sent)[s.tail := f(out)] == MapSent(f, s.sent[s.tail := out]);
    }
  }

  lemma StoreMaps<T, U>(f: T -> U, s: Ring<T>, i: nat)
    requires 1 <= s.cap && |s.buf| == s.cap
    ensures Next(MapRing(f, s), Store(i)) == MapRing(f, Next(s, Store(i)))
  {
    AtMaps(f, s, i);
    PutMaps(f, s, i, Idle);
    if At(s, i).Storing? {
      var p := At(s, i);
      var k := Slot(s.cap, p.t);
      assert MapSeq(f, s.buf)[k := f(p.out)] == MapSeq(f, s.buf[k := p.out]);
      LogMaps(f, s.log, Stored(p.t));
    }
  }

  lemma FetchMaps<T, U>(f: T -> U, s: Ring<T>, i: nat)
    requires 1 <= s.cap && |s.buf| == s.cap
    ensures Next(MapRing(f, s), Fetch(i)) == MapRing(f, Next(s, Fetch(i)))
  {
    AtMaps(f, s, i);
    PutMaps(f, s, i, Idle);
    if At(s, i).Fetching? {
      var h := At(s, i).h;
      LogMaps(f, s.log, Fetched(h, s.buf[Slot(s.cap, h)]));
    }
  }

  lemma TakeMaps<T, U>(f: T -> U, s: Ring<T>, i: nat)
    requires 1 <= s.cap && |s.buf| == s.cap
    ensures Next(MapRing(f, s), CasHead(i)) == MapRing(f, Next(s, CasHead(i)))
  {
    AtMaps(f, s, i);
    PutMaps(f, s, i, At(Next(s, CasHead(i)), i));
  }

  /** Replacing the bytes of a schedule replaces them in the outcome and nothing else. */
  lemma {:induction false} RunMaps<T, U>(f: T -> U, s: Ring<T>, steps: seq<Step<T>>)
    requires 1 <= s.cap && |s.buf| == s.cap
    ensures Run(MapRing(f, s), MapSteps(f, steps)) == MapRing(f, Run(s, steps))
  {
    if steps != [] {
      var n := |steps| - 1;
      RunMaps(f, s, steps[..n]);
      assert MapSteps(f, steps)[..n] == MapSteps(f, steps[..n]);
      NextMaps(f, Run(s, steps[..n]), steps[n]);
    }
  }

  // ---- When a fetch returns the byte that was sent -------------------------------------------------

  // A byte known only by where it comes from: a slot of the ring as it began, or the
  // call of tt_vuart_poll_out at step n.
  datatype Label = AtStart(k: nat) | Sent(n: nat)

  function FirstRing<T>(cap: nat, start: nat, init: seq<T>): Ring<T> {
    Ring(cap, start, start, init, map[], [], [], map[], [])
  }

  function Initials(cap: nat): (b: seq<Label>)
    ensures |b| == cap && forall k :: 0 <= k < cap ==> b[k] == AtStart(k)
  {
    seq(cap, k requires 0 <= k => AtStart(k))
  }

  ghost predicate Labelled(steps: seq<Step<Label>>) {
    forall n :: 0 <= n < |steps| && steps[n].StartOut? ==> steps[n].out == Sent(n)
  }

  predicate Carries(p: Thread<Label>) {
    p.Sending? || p.LoadedTail? || p.Claiming?
  }

  // Every label is in one place only.
  ghost predicate Unique(s: Ring<Label>, n: nat) {
    && (forall c :: c in s.sent ==> s.sent[c].Sent? && s.sent[c].n < n)
    && (forall c, d :: c in s.sent && d in s.sent && s.sent[c] == s.sent[d] ==> c == d)
    && (forall i :: i in s.threads && Carries(s.threads[i]) ==> s.threads[i].out.Sent? && s.threads[i].out.n < n)
    && (forall i, c :: i in s.threads && Carries(s.threads[i]) && c in s.sent ==> s.sent[c] != s.threads[i].out)
    && (forall i, j :: i in s.threads && j in s.threads && SameLabel(s.threads[i], s.threads[j]) ==> i == j)
  }

  predicate SameLabel(p: Thread<Label>, q: Thread<Label>) {
    Carries(p) && Carries(q) && p.out == q.out
  }

  predicate Claims(s: Ring<Label>, a: Step<Label>) {
    a.CasTail? && At(s, a.i).Claiming? && s.tail % TWO32 == At(s, a.i).t % TWO32
  }

  // A thread that carries a label carried it before, or has just been given it.
  lemma CarriesBefore(s: Ring<Label>, a: Step<Label>, i: nat)
    requires 1 <= s.cap && |s.buf| == s.cap && i in Next(s, a).threads && Carries(Next(s, a).threads[i])
    ensures var p := Next(s, a).threads[i];
      || (i in s.threads && SameLabel(s.threads[i], p) && !(Claims(s, a) && a.i == i))
      || (a.StartOut? && a.i == i && a.out == p.out)
  {
  }

  lemma SentBefore(s: Ring<Label>, a: Step<Label>)
    requires 1 <= s.cap && |s.buf| == s.cap
    ensures Next(s, a).sent == if Claims(s, a) then s.sent[s.tail := At(s, a.i).out] else s.sent
  {
  }

  lemma StepKeepsUnique(s: Ring<Label>, a: Step<Label>, n: nat)
    requires 1 <= s.cap && |s.buf| == s.cap && Unique(s, n) && (a.StartOut? ==> a.out == Sent(n))
    ensures Unique(Next(s, a), n + 1)
  {
    var r := Next(s, a);
    SentBefore(s, a);
    forall i | i in r.threads && Carries(r.threads[i]) ensures r.threads[i].out.Sent? && r.threads[i].out.n < n + 1 {
      CarriesBefore(s, a, i);
    }
    forall i, c | i in r.threads && Carries(r.threads[i]) && c in r.sent ensures r.sent[c] != r.threads[i].out {
      CarriesBefore(s, a, i);
      if Claims(s, a) && c == s.tail && i in s.threads {
        assert !SameLabel(s.threads[i], s.threads[a.i]) || i == a.i;
      }
    }
    forall i, j | i in r.threads && j in r.threads && SameLabel(r.threads[i], r.threads[j]) ensures i == j {
      CarriesBefore(s, a, i);
      CarriesBefore(s, a, j);
      if i in s.threads && j in s.threads && Carries(s.threads[i]) && Carries(s.threads[j]) {
        assert SameLabel(s.threads[i], s.threads[j]) ==> i == j;
      }
    }
  }

  lemma {:induction false} RunKeepsUnique(s: Ring<Label>, steps: seq<Step<Label>>)
    requires 1 <= s.cap && |s.buf| == s.cap && s.threads == map[] && s.sent == map[] && Labelled(steps)
    ensures Unique(Run(s, steps), |steps|)
  {
    if steps != [] {
      var n := |steps| - 1;
      RunKeepsUnique(s, steps[..n]);
      StepKeepsUnique(Run(s, steps[..n]), steps[n], n);
    }
  }

  // With the bytes chosen as f says, the fetch at position p returns the byte that was
  // sent for its counter value.
  ghost predicate GetsSent(f: Label -> byte, cap: nat, start: nat, steps: seq<Step<Label>>, p: nat)
    requires cap > 0
  {
    var r := Run(MapRing(f, FirstRing(cap, start, Initials(cap))), MapSteps(f, steps));
    p < |r.log| && r.log[p].Fetched? && r.log[p].c in r.sent && r.log[p].got == r.sent[r.log[p].c]
  }

  lemma FirstBacked<T>(cap: nat, start: nat, init: seq<T>)
    requires 1 <= cap < TWO32 && |init| == cap
    ensures Backed(FirstRing(cap, start, init), init) && Replayed(FirstRing(cap, start, init), init)
  {
  }

  // On labels: the bytes chosen for the label fetched and the label sent are the same.
  lemma GetsSentOnLabels(f: Label -> byte, cap: nat, start: nat, steps: seq<Step<Label>>, p: nat)
    requires 1 <= cap
    requires var r := Run(FirstRing(cap, start, Initials(cap)), steps); p < |r.log| && r.log[p].Fetched?
    ensures var r := Run(FirstRing(cap, start, Initials(cap)), steps);
      GetsSent(f, cap, start, steps, p) <==> r.log[p].c in r.sent && f(r.log[p].got) == f(r.sent[r.log[p].c])
  {
    RunMaps(f, FirstRing(cap, start, Initials(cap)), steps);
  }

  // Two different labels can stand for different bytes.
  lemma Separates(x: Label, y: Label) returns (f: Label -> byte)
    requires x != y
    ensures f(x) != f(y)
  {
    f := z => if z == y then 1 else 0;
  }

  // A label in the ring as it began, or sent for another counter value, is another label.
  lemma OtherContent(r: Ring<Label>, n: nat, cap: nat, last: Option<nat>, k: nat, h: nat, got: Label)
    requires Unique(r, n) && h in r.sent && last != Some(h) && Content(Initials(cap), r.sent, last, k) == Some(got)
    ensures got != r.sent[h]
  {
  }

  /** In every interleaving a fetch returns the byte that was sent, whatever the bytes
      are, exactly when its store came before it and no other store to the slot came
      between. */
  lemma FetchExact(cap: nat, start: nat, steps: seq<Step<Label>>, p: nat)
    requires 1 <= cap < TWO32 && Labelled(steps)
    requires var r := Run(FirstRing(cap, start, Initials(cap)), steps); p < |r.log| && r.log[p].Fetched?
    ensures var r := Run(FirstRing(cap, start, Initials(cap)), steps);
      (forall f: Label -> byte :: GetsSent(f, cap, start, steps, p)) <==> Intact(r.log, cap, p, r.log[p].c)
  {
    var s := FirstRing(cap, start, Initials(cap));
    var r := Run(s, steps);
    var h, k := r.log[p].c, Slot(cap, r.log[p].c);
    FirstBacked(cap, start, Initials(cap));
    RunReplays(s, steps, Initials(cap));
    LastStoreIsIntact(r.log, cap, p, h);
    var last := LastStore(r.log[..p], cap, k);
    assert Content(Initials(cap), r.sent, last, k) == Some(r.log[p].got);
    if last == Some(h) {
      forall f: Label -> byte ensures GetsSent(f, cap, start, steps, p) {
        GetsSentOnLabels(f, cap, start, steps, p);
      }
    } else {
      var f: Label -> byte := x => 0;
      if h in r.sent {
        RunKeepsUnique(s, steps);
        OtherContent(r, |steps|, cap, last, k, h, r.log[p].got);
        f := Separates(r.log[p].got, r.sent[h]);
      }
      GetsSentOnLabels(f, cap, start, steps, p);
      assert !GetsSent(f, cap, start, steps, p);
    }
  }

  // The schedule with every byte replaced by its label.
  function LabelStep<T>(a: Step<T>, n: nat): Step<Label> {
    MapStep((x: T) => Sent(n), a)
  }

  function LabelSteps<T>(steps: seq<Step<T>>): (r: seq<Step<Label>>)
    ensures |r| == |steps| && forall n :: 0 <= n < |steps| ==> r[n] == LabelStep(steps[n], n)
  {
    seq(|steps|, n requires 0 <= n < |steps| => LabelStep(steps[n], n))
  }

  lemma LabelsStandFor(f: Label -> byte, steps: seq<Step<byte>>)
    requires forall n :: 0 <= n < |steps| && steps[n].StartOut? ==> f(Sent(n)) == steps[n].out
    ensures MapSteps(f, LabelSteps(steps)) == steps
  {
    var b := MapSteps(f, LabelSteps(steps));
    forall n | 0 <= n < |steps| ensures b[n] == steps[n] {
    }
  }

  /** Every run over bytes is a labelled run with the bytes filled in. */
  lemma EveryRunIsLabelled(cap: nat, start: nat, init: seq<byte>, steps: seq<Step<byte>>)
    requires 1 <= cap && |init| == cap
    ensures Labelled(LabelSteps(steps))
    ensures exists f: Label -> byte ::
        Run(FirstRing(cap, start, init), steps) ==
          MapRing(f, Run(FirstRing(cap, start, Initials(cap)), LabelSteps(steps)))
  {
    var f: Label -> byte := (x: Label) =>
      match x
      case AtStart(k) => if k < |init| then init[k] else 0
      case Sent(n) => if n < |steps| && steps[n].StartOut? then steps[n].out else 0;
    var s := FirstRing(cap, start, Initials(cap));
    RunMaps(f, s, LabelSteps(steps));
    LabelsStandFor(f, steps);
    assert MapSeq(f, Initials(cap)) == init;
    assert MapRing(f, s) == FirstRing(cap, start, init);
  }

  // ---- Accesses that follow their claim at once ------------------------------------------------------

  // A claimed slot is accessed before anything else happens.
  ghost predicate Prompt<T>(s: Ring<T>, a: Step<T>) {
    forall i :: i in s.threads ==>
      (s.threads[i].Storing? ==> a == Store(i)) && (s.threads[i].Fetching? ==> a == Fetch(i))
  }

  ghost predicate AlwaysPrompt<T>(s: Ring<T>, steps: seq<Step<T>>)
    requires 1 <= s.cap && |s.buf| == s.cap
  {
    forall n :: 0 <= n < |steps| ==> Prompt(Run(s, steps[..n]), steps[n])
  }

  // What the fetches returned, in order, with their counter values.
  function Got<T>(log: seq<Access<T>>): (g: seq<(nat, T)>) {
    if log == [] then []
    else
      var a := log[|log| - 1];
      Got(log[..|log| - 1]) + if a.Fetched? then [(a.c, a.got)] else []
  }

  lemma GotMore<T>(log: seq<Access<T>>, a: Access<T>)
    ensures Got(log + [a]) == Got(log) + if a.Fetched? then [(a.c, a.got)] else []
  {
    assert (log + [a])[..|log|] == log;
  }

  predicate Accessing<T>(p: Thread<T>) {
    p.Storing? || p.Fetching?
  }

  // Counter value c names a byte that is in its slot.
  ghost predicate InPlace<T>(s: Ring<T>, c: nat)
    requires 0 < s.cap == |s.buf|
  {
    c in s.sent && s.buf[Slot(s.cap, c)] == s.sent[c]
  }

  // The first bytes sent, in order.
  ghost predicate Delivered<T>(got: seq<(nat, T)>, sent: map<nat, T>, start: nat) {
    forall j :: 0 <= j < |got| ==> start + j in sent && got[j] == (start + j, sent[start + j])
  }

  // No claimed slot waits for its access: every unread byte is in its slot, and the
  // fetches have returned everything before them.
  ghost predicate Rest<T>(s: Ring<T>, start: nat) {
    && Inv(s, start) && TWO32 % s.cap == 0
    && (forall i :: i in s.threads ==> !Accessing(s.threads[i]))
    && (forall c: nat :: c in s.sent <==> start <= c < s.tail)
    && (forall c: nat :: s.head <= c < s.tail ==> InPlace(s, c))
    && Delivered(Got(s.log), s.sent, start) && s.head == start + |Got(s.log)|
  }

  // The unread bytes, oldest first.
  ghost function Unread<T>(s: Ring<T>): (q: seq<T>)
    requires s.head <= s.tail && forall c :: s.head <= c < s.tail ==> c in s.sent
    ensures |q| == s.tail - s.head && forall i :: 0 <= i < |q| ==> q[i] == s.sent[s.head + i]
  {
    seq(s.tail - s.head, i requires 0 <= i < s.tail - s.head => s.sent[s.head + i])
  }

  // A step that claims nothing changes no byte and starts no access.
  lemma MoveKeeps<T>(s: Ring<T>, a: Step<T>)
    requires 1 <= s.cap && |s.buf| == s.cap && forall i :: i in s.threads ==> !Accessing(s.threads[i])
    requires Next(s, a).head == s.head && Next(s, a).tail == s.tail
    ensures var r := Next(s, a);
      && r.sent == s.sent && r.buf == s.buf && r.log == s.log
      && forall i :: i in r.threads ==> !Accessing(r.threads[i])
  {
  }

  lemma StillRests<T>(s: Ring<T>, r: Ring<T>, start: nat)
    requires Rest(s, start) && Inv(r, start) && r.cap == s.cap && r.head == s.head && r.tail == s.tail
    requires r.sent == s.sent && r.buf == s.buf && r.log == s.log
    requires forall i :: i in r.threads ==> !Accessing(r.threads[i])
    ensures Rest(r, start) && Unread(r) == Unread(s)
  {
    forall c: nat | r.head <= c < r.tail ensures InPlace(r, c) {
      assert InPlace(s, c);
    }
  }

  // A step that claims nothing.
  lemma MoveRests<T>(s: Ring<T>, a: Step<T>, start: nat)
    requires Rest(s, start) && Inv(Next(s, a), start) && Next(s, a).head == s.head && Next(s, a).tail == s.tail
    ensures Rest(Next(s, a), start) && Unread(Next(s, a)) == Unread(s) && Next(s, a).log == s.log
  {
    MoveKeeps(s, a);
    StillRests(s, Next(s, a), start);
  }

  lemma ClaimShape<T>(s: Ring<T>, i: nat)
    requires 1 <= s.cap && |s.buf| == s.cap && Next(s, CasTail(i)).tail != s.tail
    ensures At(s, i).Claiming?
    ensures var out, r := At(s, i).out, Next(s, CasTail(i));
      && At(r, i) == Storing(out, s.tail) && r.tail == s.tail + 1 && r.head == s.head
      && r.sent == s.sent[s.tail := out] && r.buf == s.buf && r.log == s.log
  {
  }

  lemma PushedRest<T>(s: Ring<T>, r: Ring<T>, out: T, start: nat)
    requires Rest(s, start) && Inv(r, start) && r.cap == s.cap && r.head == s.head && r.tail == s.tail + 1
    requires s.tail < s.head + s.cap
    requires r.buf == s.buf[Slot(s.cap, s.tail) := out] && r.sent == s.sent[s.tail := out]
    requires Got(r.log) == Got(s.log) && forall i :: i in r.threads ==> !Accessing(r.threads[i])
    ensures Rest(r, start) && Unread(r) == Unread(s) + [out]
  {
    forall c: nat | r.head <= c < r.tail ensures InPlace(r, c) {
      PushedInPlace(s, r, out, c);
    }
  }

  lemma StoreShape<T>(m: Ring<T>, i: nat, out: T, t: nat)
    requires 1 <= m.cap && |m.buf| == m.cap && At(m, i) == Storing(out, t)
    ensures var r := Next(m, Store(i));
      && r.buf == m.buf[Slot(m.cap, t) := out] && r.sent == m.sent && r.log == m.log + [Stored(t)]
      && r.head == m.head && r.tail == m.tail && r.threads == m.threads[i := Idle]
  {
  }

  /** A claim of a producer and its store, with nothing between, append a byte. */
  lemma PushRests<T>(s: Ring<T>, i: nat, start: nat)
    requires Rest(s, start) && Inv(Next(s, CasTail(i)), start) && Next(s, CasTail(i)).tail != s.tail
    ensures var r := Next(Next(s, CasTail(i)), Store(i));
      At(s, i).Claiming? && Rest(r, start) && Unread(r) == Unread(s) + [At(s, i).out] && Got(r.log) == Got(s.log)
  {
    ClaimShape(s, i);
    var out, m := At(s, i).out, Next(s, CasTail(i));
    StoreShape(m, i, out, s.tail);
    OthersKeepInv(m, Store(i), start);
    GotMore(s.log, Stored(s.tail));
    PushedRest(s, Next(m, Store(i)), out, start);
  }

  lemma PushedInPlace<T>(s: Ring<T>, r: Ring<T>, out: T, c: nat)
    requires 1 <= s.cap == r.cap && |s.buf| == s.cap && s.head <= s.tail < s.head + s.cap && TWO32 % s.cap == 0
    requires forall d: nat :: s.head <= d < s.tail ==> InPlace(s, d)
    requires r.buf == s.buf[Slot(s.cap, s.tail) := out] && r.sent == s.sent[s.tail := out]
    requires s.head <= c <= s.tail
    ensures InPlace(r, c)
  {
    if c < s.tail {
      assert InPlace(s, c);
      DistinctSlots(s.cap, s.head, c - s.head, s.tail - s.head);
    }
  }

  /** A claim of a consumer and its fetch, with nothing between, remove and return the
      oldest byte. */
  lemma PopRests<T>(s: Ring<T>, i: nat, start: nat)
    requires Rest(s, start) && Inv(Next(s, CasHead(i)), start) && Next(s, CasHead(i)).head != s.head
    ensures var r := Next(Next(s, CasHead(i)), Fetch(i));
      && Rest(r, start) && Unread(s) != [] && Unread(r) == Unread(s)[1..]
      && Got(r.log) == Got(s.log) + [(s.head, Unread(s)[0])]
  {
    var m := Next(s, CasHead(i));
    assert At(m, i) == Fetching(s.head) && m.buf == s.buf && m.sent == s.sent && m.log == s.log && m.head == s.head + 1;
    var r := Next(m, Fetch(i));
    OthersKeepInv(m, Fetch(i), start);
    assert InPlace(s, s.head);
    var a := Fetched(s.head, s.buf[Slot(s.cap, s.head)]);
    GotMore(s.log, a);
    assert r.log == s.log + [a];
    forall c: nat | r.head <= c < r.tail ensures InPlace(r, c) {
      assert InPlace(s, c);
    }
  }

  // At rest, or one claim away from it.
  ghost predicate Fifo<T(!new)>(s: Ring<T>, start: nat) {
    Rest(s, start) || exists b: Ring<T>, i: nat :: MidPush(b, i, s, start) || MidPop(b, i, s, start)
  }

  ghost predicate MidPush<T>(b: Ring<T>, i: nat, s: Ring<T>, start: nat) {
    Rest(b, start) && s == Next(b, CasTail(i)) && s.tail != b.tail && Inv(s, start)
  }

  ghost predicate MidPop<T>(b: Ring<T>, i: nat, s: Ring<T>, start: nat) {
    Rest(b, start) && s == Next(b, CasHead(i)) && s.head != b.head && Inv(s, start)
  }

  lemma StepKeepsFifo<T(!new)>(s: Ring<T>, a: Step<T>, start: nat)
    requires Fifo(s, start) && Inv(s, start) && Awake(s, a) && Prompt(s, a)
    ensures Fifo(Next(s, a), start)
  {
    if Rest(s, start) {
      StepKeepsInv(s, a, start);
      RestSteps(s, a, start);
    } else if b: Ring<T>, i: nat :| MidPush(b, i, s, start) {
      ClaimShape(b, i);
      assert s.threads[i].Storing?;
      PushRests(b, i, start);
    } else {
      var b: Ring<T>, i: nat :| MidPop(b, i, s, start);
      assert s.threads[i].Fetching?;
      PopRests(b, i, start);
    }
  }

  lemma RestSteps<T(!new)>(s: Ring<T>, a: Step<T>, start: nat)
    requires Rest(s, start) && Inv(Next(s, a), start)
    ensures Fifo(Next(s, a), start)
  {
    var r := Next(s, a);
    if r.tail != s.tail {
      assert a.CasTail?;
      assert MidPush(s, a.i, r, start);
    } else if r.head != s.head {
      assert a.CasHead?;
      assert MidPop(s, a.i, r, start);
    } else {
      MoveRests(s, a, start);
    }
  }

  lemma PromptPrefix<T>(s: Ring<T>, steps: seq<Step<T>>, n: nat)
    requires 1 <= s.cap && |s.buf| == s.cap && n <= |steps| && AlwaysAwake(s, steps) && AlwaysPrompt(s, steps)
    ensures AlwaysAwake(s, steps[..n]) && AlwaysPrompt(s, steps[..n])
  {
    forall k | 0 <= k < n
      ensures Awake(Run(s, steps[..n][..k]), steps[..n][k]) && Prompt(Run(s, steps[..n][..k]), steps[..n][k])
    {
      assert steps[..n][..k] == steps[..k];
    }
  }

  lemma {:induction false} RunKeepsFifo<T(!new)>(s: Ring<T>, steps: seq<Step<T>>, start: nat)
    requires Initial(s, start) && s.sent == map[] && s.log == [] && TWO32 % s.cap == 0
    requires AlwaysAwake(s, steps) && AlwaysPrompt(s, steps)
    ensures Inv(Run(s, steps), start) && Fifo(Run(s, steps), start)
  {
    RunKeepsInv(s, steps, start);
    if steps != [] {
      var n := |steps| - 1;
      PromptPrefix(s, steps, n);
      RunKeepsFifo(s, steps[..n], start);
      StepKeepsFifo(Run(s, steps[..n]), steps[n], start);
    }
  }

  lemma TakeShape<T>(s: Ring<T>, i: nat)
    requires 1 <= s.cap && |s.buf| == s.cap
    ensures Next(s, CasHead(i)).log == s.log && Next(s, CasHead(i)).sent == s.sent
  {
  }

  lemma FifoDelivers<T(!new)>(s: Ring<T>, start: nat)
    requires Fifo(s, start)
    ensures Delivered(Got(s.log), s.sent, start)
  {
    if !Rest(s, start) {
      if b: Ring<T>, i: nat :| MidPush(b, i, s, start) {
        ClaimShape(b, i);
      } else {
        var b: Ring<T>, i: nat :| MidPop(b, i, s, start);
        TakeShape(b, i);
      }
    }
  }

  /** If every claim is followed at once by its access, and the capacity divides 2^32,
      then any number of producers and consumers in any order of calls fetch exactly
      the bytes that were sent, in the order of the claims. */
  lemma PromptRunsDeliver<T(!new)>(s: Ring<T>, steps: seq<Step<T>>, start: nat)
    requires Initial(s, start) && s.sent == map[] && s.log == [] && TWO32 % s.cap == 0
    requires AlwaysAwake(s, steps) && AlwaysPrompt(s, steps)
    ensures var r := Run(s, steps);
      && Delivered(Got(r.log), r.sent, start)
      && (Rest(r, start) ==> |Unread(r)| == |r.pushes| - |Got(r.log)|)
  {
    RunKeepsFifo(s, steps, start);
    FifoDelivers(Run(s, steps), start);
  }

  /** At rest the unread bytes are the queue that the un-interleaved calls work on. */
  lemma UnreadIsQueue(s: Ring<byte>, start: nat)
    requires Rest(s, start)
    ensures Queue(s.buf, 0, s.cap, s.head % TWO32, s.tail - s.head) == Unread(s)
    ensures BufSize(s.head % TWO32, s.tail % TWO32) == s.tail - s.head
  {
    var p, q := Queue(s.buf, 0, s.cap, s.head % TWO32, s.tail - s.head), Unread(s);
    forall i | 0 <= i < |p| ensures p[i] == q[i] {
      ModSum(s.head, i);
      assert InPlace(s, s.head + i);
    }
    SizeOfResidues(s.head, s.tail);
  }

  lemma SizeOfResidues(head: nat, tail: nat)
    requires head <= tail < head + TWO32
    ensures BufSize(head % TWO32, tail % TWO32) == tail - head
  {
    var d := tail % TWO32 - head % TWO32;
    assert d == (tail - head) + (head / TWO32 - tail / TWO32) * TWO32;
    SmallDifference(tail - head);
  }
}
