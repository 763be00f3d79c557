/**
 Completion of transfers in drivers/dma/dma_arc_hs.c in polling mode: any number of
 poll workers (dma_arc_hs_check_completion) and callers of dma_arc_hs_get_status, with
 dma_arc_hs_config, dma_arc_hs_start and dma_arc_hs_stop, on any number of channels,
 in any interleaving with the hardware.

 The done bits are shared by all channels. data->lock is one lock; every channel has
 its own hw_lock. A section that holds both locks of its channel and touches the done
 bits once is one step. A section that tests and clears a done bit is three steps
 (enter, test, clear), because a worker holds only the hw_lock of its own channel.
 */
module DmaCompletion {
  import opened Wrappers

  datatype ChannelState = Free | Idle | Prepared | Active

  // transfer is the number of the transfer started last, handle what the hardware gave it
  datatype Channel = Channel(state: ChannelState, handle: nat, transfer: Option<nat>)

  datatype Who = Worker | Status

  datatype Pc =
    | Outside
    | WorkerChecked(c: nat, h: nat)                  // state seen active, handle copied, data->lock released
    | StatusChecked(c: nat)                          // state seen active, data->lock released
    | Inside(who: Who, c: nat, h: nat)               // hw_lock held; a status caller holds data->lock too
    | Tested(who: Who, c: nat, h: nat, e: nat)       // the done bit was found set, by transfer e
    | Calling(c: nat, e: nat)                        // locks released, callback about to be called

  // A completion taken on channel c: whose it is, and whether c started it last.
  datatype Take = Take(who: Who, c: nat, e: nat, own: bool)

  datatype Dma = Dma(
    channels: map<nat, Channel>,
    lock: Option<nat>,             // thread inside a section under data->lock
    hw: map<nat, nat>,             // thread inside a section under a channel's hw_lock
    started: seq<nat>,             // the handle of every transfer, in start order
    running: set<nat>,             // transfers in the hardware
    done: map<nat, nat>,           // done bits, with the transfer that set each
    threads: map<nat, Pc>,
    takes: seq<Take>,
    callbacks: seq<(nat, nat)>)    // channel and transfer of every callback

  const Begin := Dma(map[], None, map[], [], {}, map[], map[], [], [])

  datatype Step =
    | Configure(c: nat)
    | StartTransfer(c: nat, h: nat)
    | StopChannel(c: nat)
    | HardwareDone(e: nat)
    | WorkerCheck(t: nat, c: nat)
    | StatusCheck(t: nat, c: nat)
    | Enter(t: nat)
    | Test(t: nat)
    | Clear(t: nat)
    | Call(t: nat)

  function At(s: Dma, t: nat): Pc {
    if t in s.threads then s.threads[t] else Outside
  }

  function Chan(s: Dma, c: nat): Channel {
    if c in s.channels then s.channels[c] else Channel(Free, 0, None)
  }

  function Put(s: Dma, t: nat, p: Pc): Dma {
    s.(threads := s.threads[t := p])
  }

  function SetState(s: Dma, c: nat, st: ChannelState): Dma {
    s.(channels := s.channels[c := Chan(s, c).(state := st)])
  }

  // Thread t leaves its section on channel c.
  function Release(s: Dma, t: nat, c: nat, p: Pc): Dma {
    Put(s, t, p).(hw := s.hw - {c}, lock := if s.lock == Some(t) then None else s.lock)
  }

  // dma_arc_hs_start gets past its checks and locks.
  predicate Startable(s: Dma, c: nat) {
    s.lock.None? && c !in s.hw && !Chan(s, c).state.Free? && !Chan(s, c).state.Active?
  }

  // One step; a step that is not enabled changes nothing.
  function Next(s: Dma, a: Step): Dma {
    match a
    case Configure(c) => if s.lock.Some? then s else SetState(s, c, Prepared)
    case StartTransfer(c, h) =>
      if !Startable(s, c) then s
      else
        var e := |s.started|;
        s.(channels := s.channels[c := Channel(Active, h, Some(e))],
          started := s.started + [h], running := s.running + {e})
    case StopChannel(c) =>
      if s.lock.Some? || c in s.hw || !Chan(s, c).state.Active? then s
      else SetState(s, c, Idle).(done := s.done - {Chan(s, c).handle})
    case HardwareDone(e) =>
      if e !in s.running || e >= |s.started| then s
      else s.(running := s.running - {e}, done := s.done[s.started[e] := e])
    case WorkerCheck(t, c) =>
      if At(s, t).Outside? && s.lock.None? && Chan(s, c).state.Active?
        then Put(s, t, WorkerChecked(c, Chan(s, c).handle)) else s
    case StatusCheck(t, c) =>
      if At(s, t).Outside? && s.lock.None? && Chan(s, c).state.Active? then Put(s, t, StatusChecked(c)) else s
    case Enter(t) => EnterSection(s, t)
    case Test(t) =>
      if !At(s, t).Inside? then s
      else
        var p := At(s, t);
        if p.h in s.done then Put(s, t, Tested(p.who, p.c, p.h, s.done[p.h])) else Release(s, t, p.c, Outside)
    case Clear(t) => if At(s, t).Tested? then ClearDone(s, t) else s
    case Call(t) =>
      if !At(s, t).Calling? then s
      else Put(s, t, Outside).(callbacks := s.callbacks + [(At(s, t).c, At(s, t).e)])
  }

  function EnterSection(s: Dma, t: nat): Dma {
    match At(s, t)
    case WorkerChecked(c, h) =>
      // only the worker looks at the state again
      if c in s.hw then s
      else if !Chan(s, c).state.Active? then Put(s, t, Outside)
      else Put(s, t, Inside(Worker, c, h)).(hw := s.hw[c := t])
    case StatusChecked(c) =>
      if s.lock.Some? || c in s.hw then s
      else Put(s, t, Inside(Status, c, Chan(s, c).handle)).(hw := s.hw[c := t], lock := Some(t))
    case _ => s
  }

  function ClearDone(s: Dma, t: nat): Dma
    requires At(s, t).Tested?
  {
    var p := At(s, t);
    var own := Chan(s, p.c).transfer == Some(p.e);
    SetState(Release(s, t, p.c, Calling(p.c, p.e)), p.c, Idle)
      .(done := s.done - {p.h}, takes := s.takes + [Take(p.who, p.c, p.e, own)])
  }

  function Run(s: Dma, steps: seq<Step>): Dma
    decreases |steps|
  {
    if steps == [] then s else Run(Next(s, steps[0]), steps[1..])
  }

  lemma {:induction false} RunConcat(s: Dma, a: seq<Step>, b: seq<Step>)
    ensures Run(s, a + b) == Run(Run(s, a), b)
    decreases |a|
  {
    if a == [] {
      assert a + b == b;
    } else {
      assert (a + b)[1..] == a[1..] + b && (a + b)[0] == a[0];
      RunConcat(Next(s, a[0]), a[1..], b);
    }
  }

  // ---- Which channels can touch a done bit ------------------------------------------------------

  // A thread at p will test the done bit of h for channel c, whose handle is given.
  predicate Claims(p: Pc, c: nat, h: nat, handle: nat) {
    match p
    case WorkerChecked(c', h') => c' == c && h' == h
    case StatusChecked(c') => c' == c && handle == h
    case Inside(_, c', h') => c' == c && h' == h
    case Tested(_, c', h', _) => c' == c && h' == h
    case _ => false
  }

  ghost predicate Holds(s: Dma, c: nat, h: nat) {
    || (Chan(s, c).state.Active? && Chan(s, c).handle == h)
    || exists t :: t in s.threads && Claims(s.threads[t], c, h, Chan(s, c).handle)
  }

  // No other channel holds the handle that a start is given.
  ghost predicate Exclusive(s: Dma, c: nat, h: nat) {
    forall d: nat :: Holds(s, d, h) ==> d == c
  }

  ghost predicate OneHolder(s: Dma) {
    forall c: nat, d: nat, h: nat :: Holds(s, c, h) && Holds(s, d, h) ==> c == d
  }

  // Only a start makes a channel active or changes its handle and its transfer.
  lemma ChannelKept(s: Dma, a: Step, c: nat)
    requires !a.StartTransfer?
    ensures var d := Chan(Next(s, a), c);
      && d.handle == Chan(s, c).handle && d.transfer == Chan(s, c).transfer
      && (d.state.Active? ==> Chan(s, c).state.Active?)
  {
  }

  // Only a start gives a channel a new handle to test.
  lemma HoldsShrinks(s: Dma, a: Step, c: nat, h: nat)
    requires !a.StartTransfer? && Holds(Next(s, a), c, h)
    ensures Holds(s, c, h)
  {
    var r := Next(s, a);
    ChannelKept(s, a, c);
    if !(Chan(r, c).state.Active? && Chan(r, c).handle == h) {
      var t :| t in r.threads && Claims(r.threads[t], c, h, Chan(r, c).handle);
      if t in s.threads && s.threads[t] == r.threads[t] {
      } else {
        NewClaim(s, a, t, c, h);
      }
    }
  }

  lemma NewClaim(s: Dma, a: Step, t: nat, c: nat, h: nat)
    requires !a.StartTransfer? && t in Next(s, a).threads && Claims(Next(s, a).threads[t], c, h, Chan(s, c).handle)
    requires !(t in s.threads && s.threads[t] == Next(s, a).threads[t])
    ensures Holds(s, c, h)
  {
    match a
    case Enter(u) => assert Claims(s.threads[t], c, h, Chan(s, c).handle);
    case Test(u) => assert Claims(s.threads[t], c, h, Chan(s, c).handle);
    case _ =>
  }

  lemma HoldsAfterStart(s: Dma, c: nat, h: nat, d: nat, k: nat)
    requires Startable(s, c) && Holds(Next(s, StartTransfer(c, h)), d, k)
    ensures Holds(s, d, k) || (d == c && k == h)
  {
    var r := Next(s, StartTransfer(c, h));
    if !(Chan(r, d).state.Active? && Chan(r, d).handle == k) {
      var t :| t in r.threads && Claims(r.threads[t], d, k, Chan(r, d).handle);
      if d != c || !r.threads[t].StatusChecked? {
        assert Claims(s.threads[t], d, k, Chan(s, d).handle);
      }
    }
  }

  lemma StepKeepsOneHolder(s: Dma, a: Step)
    requires OneHolder(s) && (a.StartTransfer? && Startable(s, a.c) ==> Exclusive(s, a.c, a.h))
    ensures OneHolder(Next(s, a))
  {
    var r := Next(s, a);
    forall c: nat, d: nat, h: nat | Holds(r, c, h) && Holds(r, d, h) ensures c == d {
      if a.StartTransfer? && Startable(s, a.c) {
        HoldsAfterStart(s, a.c, a.h, c, h);
        HoldsAfterStart(s, a.c, a.h, d, h);
      } else if a.StartTransfer? {
        assert r == s;
      } else {
        HoldsShrinks(s, a, c, h);
        HoldsShrinks(s, a, d, h);
      }
    }
  }

  // ---- Structure ----------------------------------------------------------------------------------

  // What a thread's place says about locks and about the transfer it carries.
  ghost predicate Placed(s: Dma, t: nat, p: Pc) {
    match p
    case Inside(who, c, h) => c in s.hw && s.hw[c] == t && (who.Status? <==> s.lock == Some(t))
    case Tested(who, c, h, e) =>
      && c in s.hw && s.hw[c] == t && (who.Status? <==> s.lock == Some(t))
      && e < |s.started| && s.started[e] == h && e !in s.running
    case Calling(c, e) => s.lock != Some(t) && e < |s.started| && e !in s.running
    case _ => s.lock != Some(t)
  }

  ghost predicate Shaped(s: Dma) {
    Numbered(s) && Locked(s)
  }

  ghost predicate Numbered(s: Dma) {
    && (forall e :: e in s.running ==> e < |s.started|)
    && (forall h :: h in s.done ==> s.done[h] < |s.started| && s.started[s.done[h]] == h && s.done[h] !in s.running)
    && (forall c :: c in s.channels && s.channels[c].transfer.Some? ==> s.channels[c].transfer.value < |s.started|)
  }

  ghost predicate Locked(s: Dma) {
    && (forall t :: t in s.threads ==> Placed(s, t, s.threads[t]))
    && (forall c :: c in s.hw ==> InSection(At(s, s.hw[c]), c))
    && (s.lock.Some? ==> Sectioned(At(s, s.lock.value)))
  }

  predicate InSection(p: Pc, c: nat) {
    (p.Inside? || p.Tested?) && p.c == c
  }

  predicate Sectioned(p: Pc) {
    (p.Inside? || p.Tested?) && p.who.Status?
  }

  lemma StepKeepsShaped(s: Dma, a: Step)
    requires Shaped(s)
    ensures Shaped(Next(s, a))
  {
    match a
    case Enter(t) => EnterKeepsShaped(s, t);
    case Test(t) => TestKeepsShaped(s, t);
    case Clear(t) => ClearKeepsShaped(s, t);
    case HardwareDone(e) => DoneKeepsShaped(s, e);
    case StartTransfer(c, h) => StartKeepsShaped(s, c, h);
    case Call(t) => MoveKeepsShaped(s, t, a);
    case WorkerCheck(t, c) => MoveKeepsShaped(s, t, a);
    case StatusCheck(t, c) => MoveKeepsShaped(s, t, a);
    case _ =>
  }

  // A thread outside all sections moves to another place outside all sections.
  lemma MoveKeepsShaped(s: Dma, t: nat, a: Step)
    requires Shaped(s) && (a == Call(t) || (a.WorkerCheck? && a.t == t) || (a.StatusCheck? && a.t == t))
    ensures Shaped(Next(s, a))
  {
  }

  // Thread t takes the locks of channel c.
  lemma LockedEnter(s: Dma, t: nat, who: Who, c: nat, h: nat)
    requires Locked(s) && c !in s.hw && (who.Status? ==> s.lock.None?) && (t in s.threads ==> !Sectioned(s.threads[t]))
    requires t in s.threads && (s.threads[t].WorkerChecked? || s.threads[t].StatusChecked?)
    ensures Locked(s.(threads := s.threads[t := Inside(who, c, h)], hw := s.hw[c := t],
                      lock := if who.Status? then Some(t) else s.lock))
  {
    var r := s.(threads := s.threads[t := Inside(who, c, h)], hw := s.hw[c := t],
                lock := if who.Status? then Some(t) else s.lock);
    assert Placed(s, t, s.threads[t]);
    forall u | u in r.threads ensures Placed(r, u, r.threads[u]) {
      if u != t {
        assert Placed(s, u, s.threads[u]);
      }
    }
    forall d | d in r.hw ensures InSection(At(r, r.hw[d]), d) {
      if d != c {
        assert InSection(At(s, s.hw[d]), d);
      }
    }
  }

  lemma EnterKeepsShaped(s: Dma, t: nat)
    requires Shaped(s)
    ensures Shaped(Next(s, Enter(t)))
  {
    var r := Next(s, Enter(t));
    match At(s, t)
    case WorkerChecked(c, h) =>
      if c !in s.hw && Chan(s, c).state.Active? {
        LockedEnter(s, t, Worker, c, h);
        assert Locked(r);
      } else if c !in s.hw {
        MovedOutside(s, t, Outside);
      }
    case StatusChecked(c) =>
      if s.lock.None? && c !in s.hw {
        LockedEnter(s, t, Status, c, Chan(s, c).handle);
        assert Locked(r);
      }
    case _ =>
  }

  lemma MovedOutside(s: Dma, t: nat, p: Pc)
    requires Shaped(s) && !At(s, t).Inside? && !At(s, t).Tested? && (p.Outside? || p.WorkerChecked? || p.StatusChecked?)
    ensures Shaped(Put(s, t, p))
  {
    var r := Put(s, t, p);
    forall u | u in r.threads ensures Placed(r, u, r.threads[u]) {
      if u in s.threads {
        assert Placed(s, u, s.threads[u]);
      }
    }
    forall d | d in r.hw ensures InSection(At(r, r.hw[d]), d) {
      assert InSection(At(s, s.hw[d]), d);
    }
  }

  // Thread t, in a section on channel c, leaves it.
  lemma LockedRelease(s: Dma, t: nat, c: nat, p: Pc)
    requires Locked(s) && t in s.threads && InSection(s.threads[t], c)
    requires !p.Inside? && !p.Tested? && (p.Calling? ==> p.e < |s.started| && p.e !in s.running)
    ensures Locked(Release(s, t, c, p))
  {
    var r := Release(s, t, c, p);
    assert Placed(s, t, s.threads[t]);
    forall u | u in r.threads ensures Placed(r, u, r.threads[u]) {
      if u != t {
        assert Placed(s, u, s.threads[u]);
      }
    }
    forall d | d in r.hw ensures InSection(At(r, r.hw[d]), d) {
      assert InSection(At(s, s.hw[d]), d);
    }
  }

  lemma TestKeepsShaped(s: Dma, t: nat)
    requires Shaped(s)
    ensures Shaped(Next(s, Test(t)))
  {
    var r := Next(s, Test(t));
    if At(s, t).Inside? {
      var p := At(s, t);
      assert Placed(s, t, p);
      if p.h in s.done {
        forall u | u in r.threads ensures Placed(r, u, r.threads[u]) {
          assert Placed(s, u, s.threads[u]);
        }
        forall d | d in r.hw ensures InSection(At(r, r.hw[d]), d) {
          assert InSection(At(s, s.hw[d]), d);
        }
      } else {
        LockedRelease(s, t, p.c, Outside);
      }
    }
  }

  lemma ClearKeepsShaped(s: Dma, t: nat)
    requires Shaped(s)
    ensures Shaped(Next(s, Clear(t)))
  {
    if At(s, t).Tested? {
      var p := At(s, t);
      var r := Next(s, Clear(t));
      assert Placed(s, t, p);
      LockedRelease(s, t, p.c, Calling(p.c, p.e));
      var q := Release(s, t, p.c, Calling(p.c, p.e));
      assert r.threads == q.threads && r.hw == q.hw && r.lock == q.lock;
      assert forall u :: u in q.threads ==> Placed(q, u, q.threads[u]) && Placed(r, u, r.threads[u]);
    }
  }

  lemma DoneKeepsShaped(s: Dma, e: nat)
    requires Shaped(s)
    ensures Shaped(Next(s, HardwareDone(e)))
  {
  }

  lemma StartKeepsShaped(s: Dma, c: nat, h: nat)
    requires Shaped(s)
    ensures Shaped(Next(s, StartTransfer(c, h)))
  {
  }

  // ---- At most one callback per done event ----------------------------------------------------------

  // A thread at p has taken, or is about to take, the completion of e.
  predicate Carries(p: Pc, e: nat) {
    (p.Tested? || p.Calling?) && p.e == e
  }

  ghost predicate Reported(s: Dma, e: nat) {
    exists i :: 0 <= i < |s.callbacks| && s.callbacks[i].1 == e
  }

  // e is in nobody's hands: not running, not waiting in a done bit.
  ghost predicate Spent(s: Dma, e: nat) {
    e < |s.started| && e !in s.running && forall h :: h in s.done ==> s.done[h] != e
  }

  ghost predicate ReportedOnce(callbacks: seq<(nat, nat)>) {
    forall i, j :: 0 <= i < j < |callbacks| ==> callbacks[i].1 != callbacks[j].1
  }

  ghost predicate Once(s: Dma) {
    && ReportedOnce(s.callbacks)
    && (forall e: nat :: Reported(s, e) ==> Spent(s, e))
    && (forall t :: t in s.threads && s.threads[t].Calling? ==> Spent(s, s.threads[t].e))
    && (forall t, e: nat :: t in s.threads && Carries(s.threads[t], e) ==> !Reported(s, e))
    && (forall t, u, e: nat ::
      t in s.threads && u in s.threads && Carries(s.threads[t], e) && Carries(s.threads[u], e) ==> t == u)
  }

  ghost predicate Inv(s: Dma) {
    Shaped(s) && OneHolder(s) && Once(s)
  }

  // Nothing spent comes back.
  lemma SpentStays(s: Dma, a: Step, e: nat)
    requires Shaped(s) && Spent(s, e)
    ensures Spent(Next(s, a), e)
  {
  }

  lemma SameReports(s: Dma, r: Dma, e: nat)
    requires r.callbacks == s.callbacks
    ensures Reported(r, e) <==> Reported(s, e)
  {
  }

  // A step that makes no callback and after which nobody carries anything new.
  lemma OnceStays(s: Dma, a: Step)
    requires Inv(s) && Next(s, a).callbacks == s.callbacks
    requires var r := Next(s, a);
      forall u :: u in r.threads && (r.threads[u].Tested? || r.threads[u].Calling?) ==>
        u in s.threads && r.threads[u] == s.threads[u]
    ensures Once(Next(s, a))
  {
    var r := Next(s, a);
    forall e: nat | Reported(r, e) ensures Spent(r, e) {
      SameReports(s, r, e);
      SpentStays(s, a, e);
    }
    forall t | t in r.threads && r.threads[t].Calling? ensures Spent(r, r.threads[t].e) {
      SpentStays(s, a, s.threads[t].e);
    }
    forall t, e: nat | t in r.threads && Carries(r.threads[t], e) ensures !Reported(r, e) {
      SameReports(s, r, e);
    }
  }

  lemma CarriedStays(s: Dma, a: Step)
    requires !a.Test? && !a.Clear? && !a.Call?
    ensures Next(s, a).callbacks == s.callbacks
    ensures var r := Next(s, a);
      forall u :: u in r.threads && (r.threads[u].Tested? || r.threads[u].Calling?) ==>
        u in s.threads && r.threads[u] == s.threads[u]
  {
  }

  lemma StepKeepsOnce(s: Dma, a: Step)
    requires Inv(s)
    ensures Once(Next(s, a))
  {
    match a
    case Test(t) => TestKeepsOnce(s, t);
    case Clear(t) => ClearKeepsOnce(s, t);
    case Call(t) => CallKeepsOnce(s, t);
    case _ =>
      CarriedStays(s, a);
      OnceStays(s, a);
  }

  lemma TestKeepsOnce(s: Dma, t: nat)
    requires Inv(s)
    ensures Once(Next(s, Test(t)))
  {
    var r := Next(s, Test(t));
    if At(s, t).Inside? && At(s, t).h in s.done {
      var e := s.done[At(s, t).h];
      forall u | u in s.threads && u != t ensures !Carries(s.threads[u], e) {
        if s.threads[u].Tested? {
          TwoSections(s, t, u);
          assert Placed(s, u, s.threads[u]);
        }
      }
      assert !Spent(s, e);
      assert !Reported(s, e);
      NewCarrier(s, r, t, e);
    } else {
      OnceStays(s, Test(t));
    }
  }

  // Thread t starts to carry e, which nobody carried and nobody reported.
  lemma NewCarrier(s: Dma, r: Dma, t: nat, e: nat)
    requires Once(s) && !Reported(s, e) && forall u :: u in s.threads && u != t ==> !Carries(s.threads[u], e)
    requires r.threads.Keys == s.threads.Keys + {t} && r.threads[t].Tested? && r.threads[t].e == e
    requires r == s.(threads := r.threads) && forall u :: u in s.threads && u != t ==> r.threads[u] == s.threads[u]
    ensures Once(r)
  {
    forall d: nat ensures (Reported(r, d) <==> Reported(s, d)) && (Spent(r, d) <==> Spent(s, d)) {
      SameReports(s, r, d);
    }
  }

  // Two threads inside sections are on two channels, and so at two done bits.
  lemma TwoSections(s: Dma, t: nat, u: nat)
    requires Shaped(s) && OneHolder(s) && t in s.threads && u in s.threads && t != u
    requires (s.threads[t].Inside? || s.threads[t].Tested?) && (s.threads[u].Inside? || s.threads[u].Tested?)
    ensures s.threads[t].c != s.threads[u].c && s.threads[t].h != s.threads[u].h
  {
    var p, q := s.threads[t], s.threads[u];
    assert Placed(s, t, p) && Placed(s, u, q);
    assert Claims(p, p.c, p.h, Chan(s, p.c).handle) && Claims(q, q.c, q.h, Chan(s, q.c).handle);
    assert Holds(s, p.c, p.h) && Holds(s, q.c, q.h);
  }

  lemma ClearKeepsOnce(s: Dma, t: nat)
    requires Inv(s)
    ensures Once(Next(s, Clear(t)))
  {
    var r := Next(s, Clear(t));
    if At(s, t).Tested? {
      var p := At(s, t);
      assert Placed(s, t, p);
      assert Spent(r, p.e);
      forall u, e: nat | u in r.threads && Carries(r.threads[u], e) ensures u in s.threads && Carries(s.threads[u], e) {
      }
      forall e: nat | Reported(r, e) ensures Spent(r, e) {
        SameReports(s, r, e);
        SpentStays(s, Clear(t), e);
      }
      forall u | u in r.threads && r.threads[u].Calling? ensures Spent(r, r.threads[u].e) {
        if u != t {
          SpentStays(s, Clear(t), s.threads[u].e);
        }
      }
      forall u, e: nat | u in r.threads && Carries(r.threads[u], e) ensures !Reported(r, e) {
        SameReports(s, r, e);
      }
    } else {
      OnceStays(s, Clear(t));
    }
  }

  lemma CallKeepsOnce(s: Dma, t: nat)
    requires Inv(s)
    ensures Once(Next(s, Call(t)))
  {
    var r := Next(s, Call(t));
    if At(s, t).Calling? {
      var p := At(s, t);
      assert Carries(p, p.e);
      forall e: nat | Reported(r, e) ensures Spent(r, e) && (Reported(s, e) || e == p.e) {
        var i :| 0 <= i < |r.callbacks| && r.callbacks[i].1 == e;
        assert i < |s.callbacks| ==> s.callbacks[i].1 == e;
        SpentStays(s, Call(t), e);
      }
      forall i | 0 <= i < |s.callbacks| ensures s.callbacks[i].1 != p.e {
        assert s.callbacks[i].1 == p.e ==> Reported(s, p.e);
      }
      forall u | u in r.threads && r.threads[u].Calling? ensures Spent(r, r.threads[u].e) {
        SpentStays(s, Call(t), s.threads[u].e);
      }
    } else {
      OnceStays(s, Call(t));
    }
  }

  lemma StepKeepsInv(s: Dma, a: Step)
    requires Inv(s) && (a.StartTransfer? && Startable(s, a.c) ==> Exclusive(s, a.c, a.h))
    ensures Inv(Next(s, a))
  {
    StepKeepsShaped(s, a);
    StepKeepsOneHolder(s, a);
    StepKeepsOnce(s, a);
  }

  lemma BeginInv()
    ensures Inv(Begin)
  {
  }

  // Every start of the run is given a handle that no other channel holds.
  ghost predicate ExclusiveRun(s: Dma, steps: seq<Step>)
    decreases |steps|
  {
    steps != [] ==>
      && (steps[0].StartTransfer? && Startable(s, steps[0].c) ==> Exclusive(s, steps[0].c, steps[0].h))
      && ExclusiveRun(Next(s, steps[0]), steps[1..])
  }

  lemma {:induction false} RunKeepsInv(s: Dma, steps: seq<Step>)
    requires Inv(s) && ExclusiveRun(s, steps)
    ensures Inv(Run(s, steps))
    decreases |steps|
  {
    if steps != [] {
      StepKeepsInv(s, steps[0]);
      RunKeepsInv(Next(s, steps[0]), steps[1..]);
    }
  }

  /** In every interleaving in which no two channels hold the same handle, each
      hardware done event is reported at most once. */
  lemma ReportedAtMostOnce(steps: seq<Step>)
    requires ExclusiveRun(Begin, steps)
    ensures ReportedOnce(Run(Begin, steps).callbacks)
  {
    BeginInv();
    RunKeepsInv(Begin, steps);
  }

  // ---- Building runs ---------------------------------------------------------------------------------

  predicate NoStart(steps: seq<Step>) {
    forall i :: 0 <= i < |steps| ==> !steps[i].StartTransfer?
  }

  lemma RunMore(s: Dma, steps: seq<Step>, a: Step)
    ensures Run(s, steps + [a]) == Next(Run(s, steps), a)
  {
    RunConcat(s, steps, [a]);
    assert [a][1..] == [];
  }

  lemma Go(s: Dma, steps: seq<Step>, a: Step) returns (more: seq<Step>)
    requires NoStart(steps) && !a.StartTransfer?
    ensures NoStart(more) && more == steps + [a] && Run(s, more) == Next(Run(s, steps), a)
  {
    more := steps + [a];
    RunMore(s, steps, a);
  }

  lemma {:induction false} NoStartIsExclusive(s: Dma, steps: seq<Step>)
    requires NoStart(steps)
    ensures ExclusiveRun(s, steps)
    decreases |steps|
  {
    if steps != [] {
      assert !steps[0].StartTransfer?;
      NoStartIsExclusive(Next(s, steps[0]), steps[1..]);
    }
  }

  lemma {:induction false} Above(xs: set<nat>) returns (n: nat)
    ensures forall x :: x in xs ==> x < n
  {
    if xs == {} {
      n := 0;
    } else {
      var x :| x in xs;
      var m := Above(xs - {x});
      n := if x < m then m else x + 1;
      assert forall y :: y in xs ==> y == x || y in xs - {x};
    }
  }

  // ---- Why channels must not share handles -------------------------------------------------------------

  // The last steps of two workers that have both found the done bit of e set.
  lemma BothReport(s: Dma, t: nat, u: nat, c: nat, d: nat, h: nat, e: nat) returns (post: seq<Step>)
    requires t != u && c != d && At(s, t) == Tested(Worker, c, h, e) && At(s, u) == Tested(Worker, d, h, e)
    ensures NoStart(post) && Run(s, post).callbacks == s.callbacks + [(c, e), (d, e)]
  {
    var one := Next(s, Clear(t));
    var two := Next(one, Clear(u));
    assert At(two, t) == Calling(c, e) && At(two, u) == Calling(d, e) && two.callbacks == s.callbacks;
    post := Go(s, [], Clear(t));
    post := Go(s, post, Clear(u));
    post := Go(s, post, Call(t));
    post := Go(s, post, Call(u));
  }

  // Two workers get to the done bit of h together, one on each channel.
  lemma BothTest(s: Dma, t: nat, u: nat, c: nat, d: nat, h: nat) returns (post: seq<Step>)
    requires t != u && c != d && t !in s.threads && u !in s.threads
    requires s.lock.None? && c !in s.hw && d !in s.hw && h in s.done
    requires Chan(s, c).state.Active? && Chan(s, c).handle == h && Chan(s, d).state.Active? && Chan(s, d).handle == h
    ensures NoStart(post) && Run(s, post).callbacks == s.callbacks
    ensures At(Run(s, post), t) == Tested(Worker, c, h, s.done[h])
    ensures At(Run(s, post), u) == Tested(Worker, d, h, s.done[h])
  {
    var a := Next(Next(s, WorkerCheck(t, c)), WorkerCheck(u, d));
    assert At(a, t) == WorkerChecked(c, h) && At(a, u) == WorkerChecked(d, h) && a.hw == s.hw;
    var b := Next(Next(a, Enter(t)), Enter(u));
    assert At(b, t) == Inside(Worker, c, h) && At(b, u) == Inside(Worker, d, h) && b.done == s.done;
    post := Go(s, [], WorkerCheck(t, c));
    post := Go(s, post, WorkerCheck(u, d));
    post := Go(s, post, Enter(t));
    post := Go(s, post, Enter(u));
    assert Run(s, post) == b;
    post := Go(s, post, Test(t));
    post := Go(s, post, Test(u));
  }

  // Starting c with a handle that another active channel holds can report one event twice.
  lemma SharedReportsTwice(s: Dma, c: nat, d: nat, h: nat) returns (post: seq<Step>)
    requires Startable(s, c) && c != d && d !in s.hw && Chan(s, d).state.Active? && Chan(s, d).handle == h
    ensures NoStart(post) && !ReportedOnce(Run(Next(s, StartTransfer(c, h)), post).callbacks)
  {
    var e := |s.started|;
    var r := Next(s, StartTransfer(c, h));
    var m := Next(r, HardwareDone(e));
    assert m.done == s.done[h := e] && m.threads == s.threads;
    var n := Above(s.threads.Keys);
    var mid := BothTest(m, n, n + 1, c, d, h);
    var q := Run(m, mid);
    var last := BothReport(q, n, n + 1, c, d, h, e);
    var one := Go(r, [], HardwareDone(e));
    post := one + (mid + last);
    RunConcat(r, one, mid + last);
    RunConcat(m, mid, last);
    var k := |s.callbacks|;
    assert Run(r, post).callbacks[k] == (c, e) && Run(r, post).callbacks[k + 1] == (d, e);
  }

  // No thread is between its first look at a channel and the end of its section.
  ghost predicate NoWindows(s: Dma) {
    forall t :: t in s.threads ==> s.threads[t].Outside? || s.threads[t].Calling?
  }

  lemma NoLocks(s: Dma, d: nat)
    requires Locked(s) && NoWindows(s)
    ensures d !in s.hw
  {
  }

  /** With no poll under way, a start keeps at-most-once reporting, whatever happens up
      to the next start, exactly when no other active channel has its handle. */
  lemma ExclusiveExact(s: Dma, c: nat, h: nat)
    requires Inv(s) && Startable(s, c) && NoWindows(s)
    ensures (forall post :: NoStart(post) ==> ReportedOnce(Run(Next(s, StartTransfer(c, h)), post).callbacks))
      <==> (forall d: nat :: d != c ==> !(Chan(s, d).state.Active? && Chan(s, d).handle == h))
  {
    var r := Next(s, StartTransfer(c, h));
    if d: nat :| d != c && Chan(s, d).state.Active? && Chan(s, d).handle == h {
      NoLocks(s, d);
      var post := SharedReportsTwice(s, c, d, h);
      assert !ReportedOnce(Run(r, post).callbacks);
    } else {
      assert Exclusive(s, c, h);
      StepKeepsInv(s, StartTransfer(c, h));
      forall post | NoStart(post) ensures ReportedOnce(Run(r, post).callbacks) {
        NoStartIsExclusive(r, post);
        RunKeepsInv(r, post);
      }
    }
  }

  // The channel and handle of every start come from pairs.
  predicate Within(steps: seq<Step>, pairs: set<(nat, nat)>) {
    forall i :: 0 <= i < |steps| && steps[i].StartTransfer? ==> (steps[i].c, steps[i].h) in pairs
  }

  // No handle can be given to two channels.
  ghost predicate Separate(pairs: set<(nat, nat)>) {
    forall p, q :: p in pairs && q in pairs && p.1 == q.1 ==> p.0 == q.0
  }

  ghost predicate HeldWithin(s: Dma, pairs: set<(nat, nat)>) {
    forall c: nat, h: nat :: Holds(s, c, h) ==> (c, h) in pairs
  }

  lemma {:induction false} SeparateIsExclusive(s: Dma, steps: seq<Step>, pairs: set<(nat, nat)>)
    requires Separate(pairs) && HeldWithin(s, pairs) && Within(steps, pairs)
    ensures ExclusiveRun(s, steps)
    decreases |steps|
  {
    if steps != [] {
      var a := steps[0];
      var r := Next(s, a);
      forall c: nat, h: nat | Holds(r, c, h) ensures (c, h) in pairs {
        if a.StartTransfer? && Startable(s, a.c) {
          HoldsAfterStart(s, a.c, a.h, c, h);
        } else if !a.StartTransfer? {
          HoldsShrinks(s, a, c, h);
        }
      }
      SeparateIsExclusive(r, steps[1..], pairs);
    }
  }

  lemma SharedPairs(c: nat, d: nat, h: nat, pairs: set<(nat, nat)>) returns (steps: seq<Step>)
    requires c != d && (c, h) in pairs && (d, h) in pairs
    ensures Within(steps, pairs) && !ReportedOnce(Run(Begin, steps).callbacks)
  {
    var one := Next(Begin, Configure(d));
    var two := Next(one, StartTransfer(d, h));
    var s := Next(two, Configure(c));
    assert Chan(s, d) == Channel(Active, h, Some(0)) && Chan(s, c).state.Prepared? && s.hw == map[] && s.lock.None?;
    var post := SharedReportsTwice(s, c, d, h);
    var head: seq<Step> := [];
    assert Run(Begin, head) == Begin;
    RunMore(Begin, head, Configure(d));
    RunMore(Begin, head + [Configure(d)], StartTransfer(d, h));
    RunMore(Begin, head + [Configure(d)] + [StartTransfer(d, h)], Configure(c));
    RunMore(Begin, head + [Configure(d)] + [StartTransfer(d, h)] + [Configure(c)], StartTransfer(c, h));
    head := head + [Configure(d)] + [StartTransfer(d, h)] + [Configure(c)] + [StartTransfer(c, h)];
    steps := head + post;
    RunConcat(Begin, head, post);
  }

  /** If the hardware can give channel c the handle h exactly for (c, h) in pairs, then
      every event is reported at most once in every run exactly when no handle can be
      given to two channels. */
  lemma AtMostOnceExact(pairs: set<(nat, nat)>)
    ensures (forall steps :: Within(steps, pairs) ==> ReportedOnce(Run(Begin, steps).callbacks)) <==> Separate(pairs)
  {
    if Separate(pairs) {
      forall steps | Within(steps, pairs) ensures ReportedOnce(Run(Begin, steps).callbacks) {
        SeparateIsExclusive(Begin, steps, pairs);
        ReportedAtMostOnce(steps);
      }
    } else {
      var p, q :| p in pairs && q in pairs && p.1 == q.1 && p.0 != q.0;
      var steps := SharedPairs(p.0, q.0, p.1, pairs);
      assert !ReportedOnce(Run(Begin, steps).callbacks);
    }
  }

  // dma_arc_hs_init gives every channel the descriptors from 0 to descriptors - 1. Nothing
  // in the driver keeps a channel from getting a descriptor that another active channel
  // still holds; whether the hardware does is not known here.
  function InitPairs(channels: nat, descriptors: nat): set<(nat, nat)> {
    set c: nat, h: nat | c < channels && h < descriptors :: (c, h)
  }

  /** With the ranges the driver sets up, and hardware free to give any descriptor of its
      range to a channel, that is so only for a single channel. */
  lemma InitSharesHandles(channels: nat, descriptors: nat)
    ensures (forall steps :: Within(steps, InitPairs(channels, descriptors)) ==>
             ReportedOnce(Run(Begin, steps).callbacks))
      <==> channels <= 1 || descriptors == 0
  {
    var pairs := InitPairs(channels, descriptors);
    AtMostOnceExact(pairs);
    if channels > 1 && descriptors > 0 {
      assert (0, 0) in pairs && (1, 0) in pairs;
    }
  }

  // ---- Whose completion is taken ----------------------------------------------------------------------

  // Transfer e has set the done bit of h, or may still do so.
  predicate Pending(s: Dma, h: nat, e: nat) {
    || (h in s.done && s.done[h] == e)
    || (e in s.running && e < |s.started| && s.started[e] == h)
  }

  ghost predicate Busy(s: Dma, h: nat) {
    exists e: nat :: Pending(s, h, e)
  }

  predicate ClaimsAs(p: Pc, who: Who, c: nat, h: nat, handle: nat) {
    match p
    case WorkerChecked(c', h') => who.Worker? && c' == c && h' == h
    case StatusChecked(c') => who.Status? && c' == c && handle == h
    case Inside(w, c', h') => w == who && c' == c && h' == h
    case _ => false
  }

  ghost predicate HoldsAs(s: Dma, who: Who, c: nat, h: nat) {
    || (Chan(s, c).state.Active? && Chan(s, c).handle == h)
    || exists t :: t in s.threads && ClaimsAs(s.threads[t], who, c, h, Chan(s, c).handle)
  }

  // Whatever a caller of this kind can find set belongs to its channel's last transfer.
  ghost predicate Owned(s: Dma, who: Who) {
    && (forall c: nat, h: nat, e: nat :: HoldsAs(s, who, c, h) && Pending(s, h, e) ==> Chan(s, c).transfer == Some(e))
    && (forall t :: t in s.threads && s.threads[t].Tested? && s.threads[t].who == who ==>
          Chan(s, s.threads[t].c).transfer == Some(s.threads[t].e))
    && AllOwn(s, who)
  }

  ghost predicate AllOwn(s: Dma, who: Who) {
    forall i :: 0 <= i < |s.takes| && s.takes[i].who == who ==> s.takes[i].own
  }

  // Nothing can set the done bit of the new handle but the new transfer, and nothing
  // at all that of a handle a worker on the channel still carries.
  ghost predicate Fresh(s: Dma, who: Who, c: nat, h: nat) {
    && !Busy(s, h)
    && (who.Worker? ==>
          forall t :: t in s.threads && s.threads[t].WorkerChecked? && s.threads[t].c == c ==> !Busy(s, s.threads[t].h))
  }

  lemma HoldsAsIsHolds(s: Dma, who: Who, c: nat, h: nat)
    requires HoldsAs(s, who, c, h)
    ensures Holds(s, c, h)
  {
    if !(Chan(s, c).state.Active? && Chan(s, c).handle == h) {
      var t :| t in s.threads && ClaimsAs(s.threads[t], who, c, h, Chan(s, c).handle);
      assert Claims(s.threads[t], c, h, Chan(s, c).handle);
    }
  }

  lemma HoldsAsShrinks(s: Dma, a: Step, who: Who, c: nat, h: nat)
    requires !a.StartTransfer? && HoldsAs(Next(s, a), who, c, h)
    ensures HoldsAs(s, who, c, h)
  {
    var r := Next(s, a);
    ChannelKept(s, a, c);
    if !(Chan(r, c).state.Active? && Chan(r, c).handle == h) {
      var t :| t in r.threads && ClaimsAs(r.threads[t], who, c, h, Chan(r, c).handle);
      if !(t in s.threads && s.threads[t] == r.threads[t]) {
        NewClaimAs(s, a, who, t, c, h);
      }
    }
  }

  lemma NewClaimAs(s: Dma, a: Step, who: Who, t: nat, c: nat, h: nat)
    requires !a.StartTransfer? && t in Next(s, a).threads
    requires ClaimsAs(Next(s, a).threads[t], who, c, h, Chan(s, c).handle)
    requires !(t in s.threads && s.threads[t] == Next(s, a).threads[t])
    ensures HoldsAs(s, who, c, h)
  {
    if a.Enter? {
      assert ClaimsAs(s.threads[t], who, c, h, Chan(s, c).handle);
    }
  }

  lemma PendingShrinks(s: Dma, a: Step, h: nat, e: nat)
    requires !a.StartTransfer? && Pending(Next(s, a), h, e)
    ensures Pending(s, h, e)
  {
  }

  lemma StepKeepsOwned(s: Dma, a: Step, who: Who)
    requires Inv(s) && Owned(s, who) && !a.StartTransfer?
    ensures Owned(Next(s, a), who)
  {
    var r := Next(s, a);
    forall c: nat, h: nat, e: nat | HoldsAs(r, who, c, h) && Pending(r, h, e) ensures Chan(r, c).transfer == Some(e) {
      HoldsAsShrinks(s, a, who, c, h);
      PendingShrinks(s, a, h, e);
      ChannelKept(s, a, c);
    }
    TestedIsOwn(s, a, who);
    TakesAreOwn(s, a, who);
  }

  lemma NewTested(s: Dma, a: Step, t: nat)
    requires t in Next(s, a).threads && Next(s, a).threads[t].Tested?
    requires !(t in s.threads && s.threads[t] == Next(s, a).threads[t])
    ensures var p := Next(s, a).threads[t];
      a == Test(t) && At(s, t) == Inside(p.who, p.c, p.h) && Pending(s, p.h, p.e)
  {
  }

  lemma SameTransfer(s: Dma, a: Step, c: nat)
    requires !a.StartTransfer?
    ensures Chan(Next(s, a), c).transfer == Chan(s, c).transfer && Chan(Next(s, a), c).handle == Chan(s, c).handle
  {
  }

  lemma TestedIsOwn(s: Dma, a: Step, who: Who)
    requires Owned(s, who) && !a.StartTransfer?
    ensures var r := Next(s, a);
      forall t :: t in r.threads && r.threads[t].Tested? && r.threads[t].who == who ==>
        Chan(r, r.threads[t].c).transfer == Some(r.threads[t].e)
  {
    var r := Next(s, a);
    forall t | t in r.threads && r.threads[t].Tested? && r.threads[t].who == who
      ensures Chan(r, r.threads[t].c).transfer == Some(r.threads[t].e)
    {
      var p := r.threads[t];
      SameTransfer(s, a, p.c);
      if !(t in s.threads && s.threads[t] == p) {
        NewTested(s, a, t);
        assert ClaimsAs(s.threads[t], who, p.c, p.h, Chan(s, p.c).handle);
        assert HoldsAs(s, who, p.c, p.h);
      }
    }
  }

  lemma TakesAreOwn(s: Dma, a: Step, who: Who)
    requires Owned(s, who) && !a.StartTransfer?
    ensures AllOwn(Next(s, a), who)
  {
  }

  lemma StartKeepsOwned(s: Dma, c: nat, h: nat, who: Who)
    requires Inv(s) && Owned(s, who) && Startable(s, c) && Exclusive(s, c, h) && Fresh(s, who, c, h)
    ensures Owned(Next(s, StartTransfer(c, h)), who)
  {
    var r := Next(s, StartTransfer(c, h));
    forall d: nat, k: nat, e: nat | HoldsAs(r, who, d, k) && Pending(r, k, e) ensures Chan(r, d).transfer == Some(e) {
      if d == c {
        HeldAfterStart(s, c, h, who, k);
        assert Pending(s, k, e) ==> Busy(s, k);
      } else {
        OtherAfterStart(s, c, h, who, d, k);
        HoldsAsIsHolds(s, who, d, k);
        assert Pending(s, k, e);
      }
    }
    assert r.threads == s.threads && r.takes == s.takes;
    forall t | t in r.threads && r.threads[t].Tested? && r.threads[t].who == who
      ensures Chan(r, r.threads[t].c).transfer == Some(r.threads[t].e)
    {
      assert Placed(s, t, s.threads[t]);
    }
  }

  lemma HeldAfterStart(s: Dma, c: nat, h: nat, who: Who, k: nat)
    requires Shaped(s) && Startable(s, c) && Fresh(s, who, c, h) && HoldsAs(Next(s, StartTransfer(c, h)), who, c, k)
    ensures !Busy(s, k)
  {
    var r := Next(s, StartTransfer(c, h));
    if k != h {
      var t :| t in r.threads && ClaimsAs(r.threads[t], who, c, k, Chan(r, c).handle);
      assert Placed(s, t, s.threads[t]);
    }
  }

  lemma OtherAfterStart(s: Dma, c: nat, h: nat, who: Who, d: nat, k: nat)
    requires Startable(s, c) && d != c && HoldsAs(Next(s, StartTransfer(c, h)), who, d, k)
    ensures HoldsAs(s, who, d, k)
  {
    var r := Next(s, StartTransfer(c, h));
    if !(Chan(r, d).state.Active? && Chan(r, d).handle == k) {
      var t :| t in r.threads && ClaimsAs(r.threads[t], who, d, k, Chan(r, d).handle);
      assert ClaimsAs(s.threads[t], who, d, k, Chan(s, d).handle);
    }
  }

  // Every start of the run is exclusive and fresh.
  ghost predicate FreshRun(s: Dma, steps: seq<Step>, who: Who)
    decreases |steps|
  {
    steps != [] ==>
      && (steps[0].StartTransfer? && Startable(s, steps[0].c) ==>
            Exclusive(s, steps[0].c, steps[0].h) && Fresh(s, who, steps[0].c, steps[0].h))
      && FreshRun(Next(s, steps[0]), steps[1..], who)
  }

  lemma {:induction false} RunKeepsOwned(s: Dma, steps: seq<Step>, who: Who)
    requires Inv(s) && Owned(s, who) && FreshRun(s, steps, who)
    ensures Inv(Run(s, steps)) && Owned(Run(s, steps), who)
    decreases |steps|
  {
    if steps != [] {
      var a := steps[0];
      StepKeepsInv(s, a);
      if !a.StartTransfer? {
        StepKeepsOwned(s, a, who);
      } else if Startable(s, a.c) {
        StartKeepsOwned(s, a.c, a.h, who);
      }
      RunKeepsOwned(Next(s, a), steps[1..], who);
    }
  }

  lemma {:induction false} NoStartIsFresh(s: Dma, steps: seq<Step>, who: Who)
    requires NoStart(steps)
    ensures FreshRun(s, steps, who)
    decreases |steps|
  {
    if steps != [] {
      assert !steps[0].StartTransfer?;
      NoStartIsFresh(Next(s, steps[0]), steps[1..], who);
    }
  }

  lemma BeginOwned(who: Who)
    ensures Owned(Begin, who)
  {
  }

  // The done bit of h gets set by e, unless it is set already.
  lemma SetDone(s: Dma, h: nat, e: nat) returns (post: seq<Step>, d: nat)
    requires Pending(s, h, e)
    ensures NoStart(post) && Pending(s, h, d) && (forall c :: Chan(Run(s, post), c) == Chan(s, c))
    ensures var r := Run(s, post);
      && h in r.done && r.done[h] == d
      && r.threads == s.threads && r.lock == s.lock && r.hw == s.hw && r.callbacks == s.callbacks
  {
    if h in s.done {
      d := s.done[h];
      post := [];
    } else {
      d := e;
      post := Go(s, [], HardwareDone(e));
    }
  }

  // Thread t, about to enter its section, takes the completion that is there.
  lemma TakeDone(s: Dma, t: nat, who: Who, c: nat, h: nat) returns (post: seq<Step>)
    requires h in s.done && c !in s.hw && t in s.threads
    requires if who.Worker? then s.threads[t] == WorkerChecked(c, h) && Chan(s, c).state.Active?
             else s.threads[t] == StatusChecked(c) && Chan(s, c).handle == h && s.lock.None?
    ensures NoStart(post)
    ensures var r := Run(s, post);
      && r.takes == s.takes + [Take(who, c, s.done[h], Chan(s, c).transfer == Some(s.done[h]))]
      && At(r, t) == Calling(c, s.done[h]) && r.callbacks == s.callbacks
  {
    var a := Next(s, Enter(t));
    assert At(a, t) == Inside(who, c, h) && a.done == s.done && Chan(a, c) == Chan(s, c);
    var b := Next(a, Test(t));
    assert At(b, t) == Tested(who, c, h, s.done[h]) && Chan(b, c) == Chan(s, c) && b.takes == s.takes;
    post := Go(s, [], Enter(t));
    post := Go(s, post, Test(t));
    post := Go(s, post, Clear(t));
  }

  // A new thread comes by, sees the channel active and takes what is there.
  lemma VisitAndTake(s: Dma, who: Who, c: nat, h: nat) returns (post: seq<Step>)
    requires h in s.done && c !in s.hw && s.lock.None? && Chan(s, c).state.Active? && Chan(s, c).handle == h
    ensures NoStart(post)
    ensures Run(s, post).takes == s.takes + [Take(who, c, s.done[h], Chan(s, c).transfer == Some(s.done[h]))]
  {
    var t := Above(s.threads.Keys);
    var look := if who.Worker? then WorkerCheck(t, c) else StatusCheck(t, c);
    var m := Next(s, look);
    var one := Go(s, [], look);
    var two := TakeDone(m, t, who, c, h);
    post := one + two;
    RunConcat(s, one, two);
  }

  lemma StaleIsTaken(s: Dma, who: Who, c: nat, h: nat) returns (post: seq<Step>)
    requires Shaped(s) && Startable(s, c) && !Fresh(s, who, c, h)
    ensures NoStart(post) && !AllOwn(Run(Next(s, StartTransfer(c, h)), post), who)
  {
    var r := Next(s, StartTransfer(c, h));
    var n := |s.takes|;
    if Busy(s, h) {
      var e: nat :| Pending(s, h, e);
      OlderTransfer(s, h, e, c, h);
      var one, d := SetOldDone(s, c, h, h, e);
      var m := Run(r, one);
      var two := VisitAndTake(m, who, c, h);
      post := one + two;
      RunConcat(r, one, two);
      assert Run(r, post).takes[n] == Take(who, c, d, false);
    } else {
      var t :| t in s.threads && s.threads[t].WorkerChecked? && s.threads[t].c == c && Busy(s, s.threads[t].h);
      var k := s.threads[t].h;
      var e: nat :| Pending(s, k, e);
      var one, d := SetOldDone(s, c, h, k, e);
      var m := Run(r, one);
      var two := TakeDone(m, t, who, c, k);
      post := one + two;
      RunConcat(r, one, two);
      assert Run(r, post).takes[n] == Take(who, c, d, false);
    }
  }

  lemma OlderTransfer(s: Dma, k: nat, e: nat, c: nat, h: nat)
    requires Shaped(s) && Startable(s, c) && Pending(s, k, e)
    ensures e < |s.started| && Pending(Next(s, StartTransfer(c, h)), k, e)
  {
  }

  // After the start of c, an earlier transfer sets the done bit of k.
  lemma SetOldDone(s: Dma, c: nat, h: nat, k: nat, e: nat) returns (post: seq<Step>, d: nat)
    requires Shaped(s) && Startable(s, c) && Pending(s, k, e)
    ensures NoStart(post) && d < |s.started|
    ensures var r := Run(Next(s, StartTransfer(c, h)), post);
      && k in r.done && r.done[k] == d && r.threads == s.threads && r.lock.None? && c !in r.hw && r.takes == s.takes
      && Chan(r, c) == Channel(Active, h, Some(|s.started|))
  {
    var r := Next(s, StartTransfer(c, h));
    OlderTransfer(s, k, e, c, h);
    if k in s.done {
      d := s.done[k];
      post := [];
    } else {
      d := e;
      post := Go(r, [], HardwareDone(e));
    }
  }

  /** After a run whose starts were all fresh, one more start keeps every worker, or
      every status caller, from taking another transfer's completion for this one's,
      whatever happens up to the next start, exactly when it is fresh itself. */
  lemma OwnExact(pre: seq<Step>, who: Who, c: nat, h: nat)
    requires FreshRun(Begin, pre, who)
    requires var s := Run(Begin, pre); Startable(s, c) && Exclusive(s, c, h)
    ensures var s := Run(Begin, pre);
      (forall post :: NoStart(post) ==> AllOwn(Run(Next(s, StartTransfer(c, h)), post), who)) <==> Fresh(s, who, c, h)
  {
    var s := Run(Begin, pre);
    var r := Next(s, StartTransfer(c, h));
    BeginInv();
    BeginOwned(who);
    RunKeepsOwned(Begin, pre, who);
    if Fresh(s, who, c, h) {
      StepKeepsInv(s, StartTransfer(c, h));
      StartKeepsOwned(s, c, h, who);
      forall post | NoStart(post) ensures AllOwn(Run(r, post), who) {
        NoStartIsFresh(r, post, who);
        RunKeepsOwned(r, post, who);
      }
    } else {
      var post := StaleIsTaken(s, who, c, h);
      assert !AllOwn(Run(r, post), who);
    }
  }

  /** Over whole runs: if every start is fresh, every completion taken is that of the
      channel's own last transfer. */
  lemma FreshRunsAreOwn(steps: seq<Step>, who: Who)
    requires FreshRun(Begin, steps, who)
    ensures AllOwn(Run(Begin, steps), who)
  {
    BeginInv();
    BeginOwned(who);
    RunKeepsOwned(Begin, steps, who);
  }

  // ---- Callbacks on a channel that is not active -------------------------------------------------------

  function CallsOn(callbacks: seq<(nat, nat)>, c: nat): nat {
    if callbacks == [] then 0
    else CallsOn(callbacks[..|callbacks| - 1], c) + if callbacks[|callbacks| - 1].0 == c then 1 else 0
  }

  lemma CallsOnMore(callbacks: seq<(nat, nat)>, c: nat, d: nat, e: nat)
    ensures CallsOn(callbacks + [(d, e)], c) == CallsOn(callbacks, c) + if d == c then 1 else 0
  {
    assert (callbacks + [(d, e)])[..|callbacks|] == callbacks;
  }

  // From p a thread can get to a callback for channel c although c is not active.
  ghost predicate LateAt(s: Dma, p: Pc, c: nat) {
    match p
    case StatusChecked(c') => c' == c && Busy(s, Chan(s, c).handle)
    case Inside(_, c', h) => c' == c && Busy(s, h)
    case Tested(_, c', _, _) => c' == c
    case Calling(c', _) => c' == c
    case _ => false
  }

  ghost predicate SomeLate(s: Dma, c: nat) {
    exists t :: t in s.threads && LateAt(s, s.threads[t], c)
  }

  lemma BusyShrinks(s: Dma, a: Step, h: nat)
    requires !a.StartTransfer? && Busy(Next(s, a), h)
    ensures Busy(s, h)
  {
    var e: nat :| Pending(Next(s, a), h, e);
    PendingShrinks(s, a, h, e);
  }

  lemma StaysIdle(s: Dma, a: Step, c: nat)
    requires !a.StartTransfer? && !Chan(s, c).state.Active?
    ensures !Chan(Next(s, a), c).state.Active? && Chan(Next(s, a), c).handle == Chan(s, c).handle
  {
  }

  // Where a thread at a late place of an inactive channel was before.
  lemma LateBefore(s: Dma, a: Step, t: nat, c: nat)
    requires !a.StartTransfer? && !Chan(s, c).state.Active? && t in Next(s, a).threads && !Next(s, a).threads[t].Tested?
    ensures var p := Next(s, a).threads[t];
      && (p == StatusChecked(c) ==> At(s, t) == p)
      && (p.Inside? && p.c == c ==> At(s, t) == p || (At(s, t) == StatusChecked(c) && p.h == Chan(s, c).handle))
      && (p.Calling? && p.c == c ==> At(s, t) == p || (At(s, t).Tested? && At(s, t).c == c))
  {
  }

  lemma LateComesFromLate(s: Dma, a: Step, c: nat)
    requires !a.StartTransfer? && !Chan(s, c).state.Active? && SomeLate(Next(s, a), c)
    ensures SomeLate(s, c)
  {
    var r := Next(s, a);
    StaysIdle(s, a, c);
    var t :| t in r.threads && LateAt(r, r.threads[t], c);
    var p := r.threads[t];
    if p.Tested? {
      if !(t in s.threads && s.threads[t] == p) {
        NewTested(s, a, t);
        assert Busy(s, p.h);
      }
    } else {
      LateBefore(s, a, t, c);
      if p.StatusChecked? {
        BusyShrinks(s, a, Chan(s, c).handle);
      } else if p.Inside? {
        BusyShrinks(s, a, p.h);
      }
    }
    assert LateAt(s, s.threads[t], c);
  }

  lemma {:induction false} QuietWhileIdle(s: Dma, steps: seq<Step>, c: nat)
    requires NoStart(steps) && !Chan(s, c).state.Active? && !SomeLate(s, c)
    ensures CallsOn(Run(s, steps).callbacks, c) == CallsOn(s.callbacks, c)
    decreases |steps|
  {
    if steps != [] {
      var a := steps[0];
      var r := Next(s, a);
      assert !a.StartTransfer?;
      StaysIdle(s, a, c);
      if SomeLate(r, c) {
        LateComesFromLate(s, a, c);
      }
      if a.Call? && At(s, a.t).Calling? {
        assert !LateAt(s, s.threads[a.t], c);
        CallsOnMore(s.callbacks, c, At(s, a.t).c, At(s, a.t).e);
      } else {
        assert r.callbacks == s.callbacks;
      }
      QuietWhileIdle(r, steps[1..], c);
    }
  }

  lemma FinishTested(s: Dma, t: nat, c: nat) returns (post: seq<Step>)
    requires t in s.threads && s.threads[t].Tested? && s.threads[t].c == c
    ensures NoStart(post) && CallsOn(Run(s, post).callbacks, c) == CallsOn(s.callbacks, c) + 1
  {
    post := Go(s, [], Clear(t));
    post := Go(s, post, Call(t));
    CallsOnMore(s.callbacks, c, c, s.threads[t].e);
  }

  lemma FinishInside(s: Dma, t: nat, c: nat, h: nat) returns (post: seq<Step>)
    requires t in s.threads && s.threads[t].Inside? && s.threads[t].c == c && s.threads[t].h == h && Busy(s, h)
    ensures NoStart(post) && CallsOn(Run(s, post).callbacks, c) == CallsOn(s.callbacks, c) + 1
  {
    var e: nat :| Pending(s, h, e);
    var one, d := SetDone(s, h, e);
    var m := Run(s, one);
    var two := Go(m, [], Test(t));
    var q := Run(m, two);
    assert q.callbacks == s.callbacks;
    var three := FinishTested(q, t, c);
    post := one + (two + three);
    RunConcat(s, one, two + three);
    RunConcat(m, two, three);
  }

  lemma FinishStatus(s: Dma, t: nat, c: nat) returns (post: seq<Step>)
    requires t in s.threads && s.threads[t] == StatusChecked(c) && s.lock.None?
    requires c !in s.hw && Busy(s, Chan(s, c).handle)
    ensures NoStart(post) && CallsOn(Run(s, post).callbacks, c) == CallsOn(s.callbacks, c) + 1
  {
    var h := Chan(s, c).handle;
    var e: nat :| Pending(s, h, e);
    var one, d := SetDone(s, h, e);
    var m := Run(s, one);
    assert Chan(m, c) == Chan(s, c);
    var two := TakeDone(m, t, Status, c, h);
    var q := Run(m, two);
    var three := Go(q, [], Call(t));
    CallsOnMore(s.callbacks, c, c, m.done[h]);
    post := one + (two + three);
    RunConcat(s, one, two + three);
    RunConcat(m, two, three);
  }

  // Whoever is inside a section of channel c without anything to find there leaves it.
  lemma LeaveSection(s: Dma, t: nat, c: nat) returns (post: seq<Step>)
    requires Inv(s) && t in s.threads && s.threads[t] == StatusChecked(c) && Busy(s, Chan(s, c).handle)
    requires forall u :: u in s.threads && InSection(s.threads[u], c) ==>
      s.threads[u].Inside? && !Busy(s, s.threads[u].h)
    ensures NoStart(post)
    ensures var r := Run(s, post);
      && Inv(r) && c !in r.hw && At(r, t) == StatusChecked(c) && Chan(r, c) == Chan(s, c)
      && Busy(r, Chan(s, c).handle) && r.callbacks == s.callbacks
  {
    if c in s.hw {
      var u := s.hw[c];
      assert InSection(At(s, u), c);
      var p := s.threads[u];
      assert p.h in s.done ==> Pending(s, p.h, s.done[p.h]);
      post := Go(s, [], Test(u));
      var r := Run(s, post);
      assert r == Release(s, u, c, Outside);
      StepKeepsInv(s, Test(u));
      BusyStays(s, r, Chan(s, c).handle);
    } else {
      post := [];
    }
  }

  lemma BusyStays(s: Dma, r: Dma, h: nat)
    requires Busy(s, h) && r.running == s.running && r.started == s.started
    requires (h in s.done ==> h in r.done && r.done[h] == s.done[h])
    ensures Busy(r, h)
  {
    var e: nat :| Pending(s, h, e);
    assert Pending(r, h, e);
  }

  // The thread under data->lock is on another channel and has another handle.
  lemma LockHolder(s: Dma, t: nat, c: nat, u: nat)
    requires Inv(s) && t in s.threads && s.threads[t] == StatusChecked(c) && c !in s.hw && s.lock == Some(u)
    ensures Sectioned(At(s, u)) && At(s, u).c != c && At(s, u).h != Chan(s, c).handle
  {
    var p, h := At(s, u), Chan(s, c).handle;
    assert Sectioned(p) && Placed(s, u, p);
    assert Claims(p, p.c, p.h, Chan(s, p.c).handle) && Claims(s.threads[t], c, h, h);
    assert Holds(s, p.c, p.h) && Holds(s, c, h);
  }

  // What stays the same for channel c while the thread under data->lock moves on.
  ghost predicate Spares(s: Dma, r: Dma, u: nat, c: nat) {
    && r.running == s.running && r.started == s.started && r.callbacks == s.callbacks
    && c !in r.hw && Chan(r, c) == Chan(s, c)
    && (Chan(s, c).handle in s.done ==>
          Chan(s, c).handle in r.done && r.done[Chan(s, c).handle] == s.done[Chan(s, c).handle])
    && forall t :: t != u ==> At(r, t) == At(s, t)
  }

  lemma TestSpares(s: Dma, u: nat, c: nat)
    requires c !in s.hw && s.lock == Some(u) && At(s, u).Inside? && At(s, u).c != c
    ensures var r := Next(s, Test(u));
      && Spares(s, r, u, c)
      && (r.lock.Some? ==> r.lock == Some(u) && At(r, u).Tested? && At(r, u).h == At(s, u).h && At(r, u).c != c)
  {
  }

  lemma ClearSpares(s: Dma, u: nat, c: nat)
    requires c !in s.hw && s.lock == Some(u) && At(s, u).Tested? && At(s, u).c != c && At(s, u).h != Chan(s, c).handle
    ensures Spares(s, Next(s, Clear(u)), u, c) && Next(s, Clear(u)).lock.None?
  {
  }

  // The thread under data->lock finishes its section.
  lemma FinishSection(s: Dma, u: nat, c: nat) returns (post: seq<Step>)
    requires c !in s.hw && s.lock == Some(u) && Sectioned(At(s, u))
    requires At(s, u).c != c && At(s, u).h != Chan(s, c).handle
    ensures NoStart(post) && Spares(s, Run(s, post), u, c) && Run(s, post).lock.None?
  {
    if At(s, u).Inside? {
      post := Go(s, [], Test(u));
      TestSpares(s, u, c);
      var m := Next(s, Test(u));
      if m.lock.Some? {
        post := Go(s, post, Clear(u));
        ClearSpares(m, u, c);
      }
    } else {
      post := Go(s, [], Clear(u));
      ClearSpares(s, u, c);
    }
  }

  // Whoever holds data->lock, on another channel, finishes its section.
  lemma FreeLock(s: Dma, t: nat, c: nat) returns (post: seq<Step>)
    requires Inv(s) && t in s.threads && s.threads[t] == StatusChecked(c) && Busy(s, Chan(s, c).handle) && c !in s.hw
    ensures NoStart(post)
    ensures var r := Run(s, post);
      && r.lock.None? && c !in r.hw && At(r, t) == StatusChecked(c) && Chan(r, c) == Chan(s, c)
      && Busy(r, Chan(s, c).handle) && r.callbacks == s.callbacks
  {
    post := [];
    if s.lock.Some? {
      var u := s.lock.value;
      LockHolder(s, t, c, u);
      post := FinishSection(s, u, c);
      BusyStays(s, Run(s, post), Chan(s, c).handle);
    }
  }

  lemma LateCanReport(s: Dma, c: nat) returns (post: seq<Step>)
    requires Inv(s) && SomeLate(s, c)
    ensures NoStart(post) && CallsOn(Run(s, post).callbacks, c) == CallsOn(s.callbacks, c) + 1
  {
    if t :| t in s.threads && s.threads[t].Calling? && s.threads[t].c == c {
      post := Go(s, [], Call(t));
      CallsOnMore(s.callbacks, c, c, s.threads[t].e);
    } else if t :| t in s.threads && s.threads[t].Tested? && s.threads[t].c == c {
      post := FinishTested(s, t, c);
    } else if t :| t in s.threads && s.threads[t].Inside? && s.threads[t].c == c && Busy(s, s.threads[t].h) {
      post := FinishInside(s, t, c, s.threads[t].h);
    } else {
      var t :| t in s.threads && LateAt(s, s.threads[t], c);
      var one := LeaveSection(s, t, c);
      var m := Run(s, one);
      var two := FreeLock(m, t, c);
      var q := Run(m, two);
      var three := FinishStatus(q, t, c);
      post := one + (two + three);
      RunConcat(s, one, two + three);
      RunConcat(m, two, three);
    }
  }

  /** On a channel that is not active, a callback can still be made without another
      start exactly when a callback is about to be made, a done bit has been found set,
      or a thread past its look at the state can still find one set: in its section, or
      as a status caller before it. */
  lemma LateReportExact(s: Dma, c: nat)
    requires Inv(s) && !Chan(s, c).state.Active?
    ensures (exists post :: NoStart(post) && CallsOn(Run(s, post).callbacks, c) != CallsOn(s.callbacks, c))
      <==> SomeLate(s, c)
  {
    if SomeLate(s, c) {
      var post := LateCanReport(s, c);
      assert CallsOn(Run(s, post).callbacks, c) != CallsOn(s.callbacks, c);
    } else {
      forall post | NoStart(post) ensures CallsOn(Run(s, post).callbacks, c) == CallsOn(s.callbacks, c) {
        QuietWhileIdle(s, post, c);
      }
    }
  }

  // ---- What a stop discards, what a section protects ----------------------------------------------

  ghost predicate SomeCarries(s: Dma, e: nat) {
    exists t :: t in s.threads && Carries(s.threads[t], e)
  }

  // Transfer e is spent and no thread has its completion in hand.
  ghost predicate Gone(s: Dma, e: nat) {
    Spent(s, e) && !SomeCarries(s, e)
  }

  // Nobody comes to carry a spent transfer.
  lemma NoNewCarrier(s: Dma, a: Step, e: nat, t: nat)
    requires Spent(s, e) && t in Next(s, a).threads && Carries(Next(s, a).threads[t], e)
    ensures t in s.threads && Carries(s.threads[t], e)
  {
    if a.Test? {
      assert At(s, a.t).Inside? && At(s, a.t).h in s.done ==> s.done[At(s, a.t).h] != e;
    } else if !a.Clear? && !a.Call? {
      CarriedStays(s, a);
    }
  }

  lemma NoNewReport(s: Dma, a: Step, e: nat)
    requires !SomeCarries(s, e)
    ensures Reported(Next(s, a), e) <==> Reported(s, e)
  {
    var r := Next(s, a);
    if a.Call? && At(s, a.t).Calling? {
      assert !Carries(s.threads[a.t], e);
      assert r.callbacks[..|s.callbacks|] == s.callbacks;
      forall i | 0 <= i < |s.callbacks| ensures r.callbacks[i] == s.callbacks[i] {
      }
    } else {
      SameReports(s, r, e);
    }
  }

  lemma GoneStays(s: Dma, a: Step, e: nat)
    requires Shaped(s) && Gone(s, e)
    ensures Gone(Next(s, a), e) && (Reported(Next(s, a), e) <==> Reported(s, e))
  {
    SpentStays(s, a, e);
    NoNewReport(s, a, e);
    forall t | t in Next(s, a).threads && Carries(Next(s, a).threads[t], e) ensures SomeCarries(s, e) {
      NoNewCarrier(s, a, e, t);
    }
  }

  lemma {:induction false} GoneForever(s: Dma, steps: seq<Step>, e: nat)
    requires Shaped(s) && Gone(s, e)
    ensures Reported(Run(s, steps), e) <==> Reported(s, e)
    decreases |steps|
  {
    if steps != [] {
      GoneStays(s, steps[0], e);
      StepKeepsShaped(s, steps[0]);
      GoneForever(Next(s, steps[0]), steps[1..], e);
    }
  }

  // A thread that carries e goes on to report it.
  lemma CarriedIsReported(s: Dma, t: nat, e: nat) returns (post: seq<Step>)
    requires t in s.threads && Carries(s.threads[t], e)
    ensures NoStart(post) && Reported(Run(s, post), e)
  {
    post := [];
    if s.threads[t].Tested? {
      post := Go(s, post, Clear(t));
    }
    var r := Run(s, post);
    assert At(r, t).Calling? && At(r, t).e == e;
    post := Go(s, post, Call(t));
    assert Next(r, Call(t)).callbacks[|r.callbacks|].1 == e;
  }

  // The run reports transfer e, now or before.
  ghost predicate Reports(s: Dma, steps: seq<Step>, e: nat) {
    Reported(Run(s, steps), e)
  }

  /** Stopping a channel whose transfer has completed discards the completion: it is never
      reported, whatever happens afterwards, unless it already was or a thread already found
      the done bit set, and such a thread can still report it. */
  lemma StopDiscardsExact(s: Dma, c: nat, e: nat)
    requires Shaped(s) && s.lock.None? && c !in s.hw && Chan(s, c).state.Active?
    requires Chan(s, c).handle in s.done && s.done[Chan(s, c).handle] == e
    ensures (exists post :: Reports(Next(s, StopChannel(c)), post, e)) <==> Reported(s, e) || SomeCarries(s, e)
  {
    var r := Next(s, StopChannel(c));
    StepKeepsShaped(s, StopChannel(c));
    assert Spent(r, e);
    if SomeCarries(s, e) {
      var t :| t in s.threads && Carries(s.threads[t], e);
      var post := CarriedIsReported(r, t, e);
      assert Reports(r, post, e);
    } else {
      SameReports(s, r, e);
      forall post ensures Reports(r, post, e) <==> Reported(s, e) {
        GoneForever(r, post, e);
      }
      assert Reports(r, [], e) <==> Reported(s, e);
    }
  }

  // Step a can end the activity of channel c.
  predicate CanEnd(s: Dma, a: Step, c: nat) {
    || a == Configure(c) || a == StopChannel(c)
    || (a.Clear? && At(s, a.t).Tested? && At(s, a.t).c == c)
  }

  ghost predicate NoneEnds(s: Dma, steps: seq<Step>, c: nat)
    decreases |steps|
  {
    steps != [] ==> !CanEnd(s, steps[0], c) && NoneEnds(Next(s, steps[0]), steps[1..], c)
  }

  /** An active channel keeps its handle and its transfer until it is configured, stopped or
      its completion taken: starting it again changes nothing. */
  lemma {:induction false} ActiveKept(s: Dma, steps: seq<Step>, c: nat)
    requires Chan(s, c).state.Active? && NoneEnds(s, steps, c)
    ensures Chan(Run(s, steps), c) == Chan(s, c)
    decreases |steps|
  {
    if steps != [] {
      ActiveKept(Next(s, steps[0]), steps[1..], c);
    }
  }

  predicate NotBy(steps: seq<Step>, t: nat) {
    forall i :: 0 <= i < |steps| ==> !Makes(steps[i], t)
  }

  predicate Makes(a: Step, t: nat) {
    (a.WorkerCheck? || a.StatusCheck? || a.Enter? || a.Test? || a.Clear? || a.Call?) && a.t == t
  }

  // While thread t is in a section on channel c, another step leaves it there.
  lemma SectionStays(s: Dma, a: Step, t: nat, c: nat)
    requires Shaped(s) && c in s.hw && s.hw[c] == t && !Makes(a, t)
    ensures InPlace(s, Next(s, a), t, c)
  {
    if a.Enter? {
      EnterLeaves(s, a.t, t, c);
    } else if (a.Test? && At(s, a.t).Inside?) || (a.Clear? && At(s, a.t).Tested?) {
      assert Placed(s, a.t, s.threads[a.t]);
      ReleaseLeaves(s, a.t, At(s, a.t).c, t, c);
    }
  }

  ghost predicate InPlace(s: Dma, r: Dma, t: nat, c: nat) {
    c in r.hw && r.hw[c] == t && At(r, t) == At(s, t) && (s.lock == Some(t) ==> r.lock == Some(t))
  }

  lemma EnterLeaves(s: Dma, u: nat, t: nat, c: nat)
    requires c in s.hw && s.hw[c] == t && u != t
    ensures InPlace(s, EnterSection(s, u), t, c)
  {
  }

  lemma ReleaseLeaves(s: Dma, u: nat, d: nat, t: nat, c: nat)
    requires c in s.hw && s.hw[c] == t && u != t && d in s.hw && s.hw[d] == u
    ensures forall p :: InPlace(s, Release(s, u, d, p), t, c)
  {
  }

  lemma ChannelFrozen(s: Dma, a: Step, t: nat, c: nat)
    requires Shaped(s) && c in s.hw && s.hw[c] == t && !Makes(a, t)
    ensures Chan(Next(s, a), c) == Chan(s, c) || (a == Configure(c) && s.lock.None?)
    ensures Chan(Next(s, a), c).transfer == Chan(s, c).transfer && Chan(Next(s, a), c).handle == Chan(s, c).handle
  {
    if a.Clear? && At(s, a.t).Tested? {
      assert Placed(s, a.t, s.threads[a.t]);
    }
  }

  /** While a thread is in its section on a channel, nothing the others do stops the channel,
      starts it or takes its completion: it keeps its handle and transfer, and all of it for
      a status caller; under a worker it can at most be configured. */
  lemma {:induction false} SectionProtects(s: Dma, steps: seq<Step>, t: nat, c: nat)
    requires Shaped(s) && c in s.hw && s.hw[c] == t && NotBy(steps, t)
    ensures var r := Run(s, steps);
      && At(r, t) == At(s, t)
      && Chan(r, c).handle == Chan(s, c).handle && Chan(r, c).transfer == Chan(s, c).transfer
      && (Chan(r, c).state == Chan(s, c).state || Chan(r, c).state.Prepared?)
      && (s.lock == Some(t) ==> Chan(r, c) == Chan(s, c))
    decreases |steps|
  {
    if steps != [] {
      SectionStays(s, steps[0], t, c);
      ChannelFrozen(s, steps[0], t, c);
      StepKeepsShaped(s, steps[0]);
      SectionProtects(Next(s, steps[0]), steps[1..], t, c);
    }
  }

  // ---- Runs that show each of these --------------------------------------------------------------

  // Channel 0 has been started once, with handle h.
  lemma StartedOnce(h: nat) returns (steps: seq<Step>, s: Dma)
    ensures s == Run(Begin, steps) && s.running == {0} && s.started == [h]
    ensures s.done == map[] && s.hw == map[] && s.lock.None? && s.callbacks == [] && s.threads == map[]
    ensures s.channels == map[0 := Channel(Active, h, Some(0))]
  {
    RunMore(Begin, [], Configure(0));
    RunMore(Begin, [] + [Configure(0)], StartTransfer(0, h));
    steps := [] + [Configure(0)] + [StartTransfer(0, h)];
    s := Run(Begin, steps);
  }

  /** A callback after stop: a status caller that saw the channel active before it was
      stopped reports its transfer after. */
  lemma CallbackAfterStop(h: nat) returns (pre: seq<Step>, post: seq<Step>)
    ensures var s := Run(Begin, pre);
      && Chan(s, 0).state.Active? && s.callbacks == []
      && Chan(Next(s, StopChannel(0)), 0).state.Idle? && Next(s, StopChannel(0)).callbacks == []
      && NoStart(post) && CallsOn(Run(Next(s, StopChannel(0)), post).callbacks, 0) == 1
  {
    var one, a := StartedOnce(h);
    RunMore(Begin, one, StatusCheck(1, 0));
    pre := one + [StatusCheck(1, 0)];
    var r := Next(Run(Begin, pre), StopChannel(0));
    assert Pending(r, h, 0);
    post := FinishStatus(r, 1, 0);
  }

  // Channel 0 was stopped while transfer 0, with handle h, stays in the hardware.
  lemma StoppedEarly(h: nat, checked: bool) returns (steps: seq<Step>, s: Dma)
    ensures s == Run(Begin, steps) && s.running == {0} && s.started == [h]
    ensures s.done == map[] && s.hw == map[] && s.lock.None?
    ensures s.channels == map[0 := Channel(Idle, h, Some(0))] && s.callbacks == []
    ensures s.threads == if checked then map[1 := WorkerChecked(0, h)] else map[]
  {
    steps, s := StartedOnce(h);
    if checked {
      RunMore(Begin, steps, WorkerCheck(1, 0));
      steps := steps + [WorkerCheck(1, 0)];
    }
    RunMore(Begin, steps, StopChannel(0));
    steps := steps + [StopChannel(0)];
    s := Run(Begin, steps);
  }

  // Transfer 1 of channel 0 is running, yet the channel is idle and its callback was called.
  ghost predicate ReportsRunning(s: Dma) {
    Chan(s, 0).state.Idle? && Chan(s, 0).transfer == Some(1) && s.running == {1} && CallsOn(s.callbacks, 0) == 1
  }

  lemma FoundThenCalled(s: Dma, t: nat) returns (post: seq<Step>)
    requires At(s, t).Tested? && At(s, t).c == 0 && s.callbacks == []
    requires Chan(s, 0).transfer == Some(1) && s.running == {1}
    ensures NoStart(post) && ReportsRunning(Run(s, post))
  {
    var e := At(s, t).e;
    post := Go(s, [], Clear(t));
    post := Go(s, post, Call(t));
    CallsOnMore([], 0, 0, e);
    assert [] + [(0, e)] == [(0, e)];
  }

  lemma TakenThenCalled(s: Dma, t: nat, h: nat) returns (post: seq<Step>)
    requires t in s.threads && s.threads[t] == WorkerChecked(0, h) && s.hw == map[] && h in s.done && s.callbacks == []
    requires Chan(s, 0).state.Active? && Chan(s, 0).transfer == Some(1) && s.running == {1}
    ensures NoStart(post) && ReportsRunning(Run(s, post))
  {
    var a := Next(s, Enter(t));
    assert At(a, t) == Inside(Worker, 0, h) && a.done == s.done && Chan(a, 0) == Chan(s, 0);
    var one := Go(s, [], Enter(t));
    one := Go(s, one, Test(t));
    var two := FoundThenCalled(Run(s, one), t);
    post := one + two;
    RunConcat(s, one, two);
  }

  /** A worker that still carries the handle of a stopped transfer reports the next one,
      whose own handle is neither done nor in the hardware, when the stopped one finishes. */
  lemma StaleHandleReportsRunning(first: nat, second: nat) returns (pre: seq<Step>, post: seq<Step>)
    requires first != second
    ensures var s := Run(Begin, pre);
      && Startable(s, 0) && !Busy(s, second) && s.callbacks == []
      && (exists t :: t in s.threads && s.threads[t] == WorkerChecked(0, first))
      && NoStart(post) && ReportsRunning(Run(Next(s, StartTransfer(0, second)), post))
  {
    var s;
    pre, s := StoppedEarly(first, true);
    var r := Next(s, StartTransfer(0, second));
    var one := Go(r, [], HardwareDone(0));
    var m := Run(r, one);
    assert m.done == map[first := 0] && m.running == {1};
    var two := TakenThenCalled(m, 1, first);
    post := one + two;
    RunConcat(r, one, two);
    assert s.threads[1] == WorkerChecked(0, first);
  }

  /** A handle given out again while its old done bit is set does the same, with no thread
      under way at the start. */
  lemma ReusedHandleReportsRunning(h: nat) returns (pre: seq<Step>, post: seq<Step>)
    ensures var s := Run(Begin, pre);
      && Startable(s, 0) && Busy(s, h) && s.threads == map[] && s.callbacks == []
      && NoStart(post) && ReportsRunning(Run(Next(s, StartTransfer(0, h)), post))
  {
    var early, s := StoppedEarly(h, false);
    RunMore(Begin, early, HardwareDone(0));
    pre := early + [HardwareDone(0)];
    var d := Next(s, HardwareDone(0));
    assert Pending(d, h, 0);
    var r := Next(d, StartTransfer(0, h));
    assert r.running == {1} && r.done == map[h := 0];
    var one := Go(r, [], WorkerCheck(1, 0));
    var two := TakenThenCalled(Run(r, one), 1, h);
    post := one + two;
    RunConcat(r, one, two);
  }
}
