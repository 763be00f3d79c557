/**
 The CM2DM message protocol: the sender in the SMC firmware
 (lib/tenstorrent/bh_arc/cm2dm_msg.c) and the receiver in the DMC firmware
 (app/dmc/src/main.c with lib/tenstorrent/bh_chip/bh_chip.c), over an SMBus that
 loses requests, replies and acks.

 Posting runs concurrently with the request handler, so a post is two steps (write
 the data, set the bit) and the handler three (pick, clear the bit, read the data).
 */
module Cm2dm {
  import opened Sets
  import opened Wrappers

  // kCm2DmMsgCount; the identifiers 1 to 9 name messages, 0 none
  const COUNT: nat := 10

  predicate IsId(id: nat) { 1 <= id < COUNT }

  datatype Msg = Msg(id: nat, seqNum: nat, data: nat)

  datatype Handler = Waiting | Picked(id: nat) | Cleared(id: nat) | Answered
  datatype Receiver = Idle | Reading | Got(msg: Msg) | Acked(msg: Msg)

  datatype Link = Link(
    // SMC
    pending: set<nat>,
    next: seq<nat>,            // data posted last for each identifier
    rr: nat,
    seqNum: nat,
    curr: Option<Msg>,
    posting: map<nat, nat>,    // threads between writing the data and setting the bit
    handler: Handler,
    // DMC
    receiver: Receiver,
    last: Option<nat>,         // last_cm2dm_seq_num where it is valid
    // history since the last reset
    written: seq<(nat, nat)>,
    issued: seq<Msg>,
    dispatched: seq<Msg>)

  const Start := Link({}, [0, 0, 0, 0, 0, 0, 0, 0, 0, 0], 0, 0, None, map[], Waiting, Idle, None, [], [], [])

  // The lowest member of s from lo up.
  function Lowest(s: set<nat>, lo: nat): (r: Option<nat>)
    ensures r.Some? ==> r.value in s && lo <= r.value < COUNT && forall x :: x in s && lo <= x ==> r.value <= x
    ensures r.None? ==> forall x :: x in s && x < COUNT ==> x < lo
    decreases COUNT - lo
  {
    if lo >= COUNT then None else if lo in s then Some(lo) else Lowest(s, lo + 1)
  }

  // next_id_rr without its update of next_id_rr
  function NextId(pending: set<nat>, rr: nat): (r: Option<nat>) {
    var hi := Lowest(pending, rr);
    if hi.Some? then hi else Lowest(pending, 0)
  }

  datatype Step =
    | Write(thread: nat, id: nat, data: nat)
    | SetBit(thread: nat)
    | StartRead
    | LoseRequest
    | Pick
    | Clear
    | Fill
    | Reply
    | LoseReply
    | Ack
    | LoseAck
    | Dispatch
    | ResetChip

  // One step; a step that is not enabled changes nothing.
  function Next(s: Link, a: Step): (t: Link)
    requires |s.next| == COUNT
    ensures |t.next| == COUNT
  {
    match a
    // PostCm2DmMsg
    case Write(thread, id, data) =>
      if thread in s.posting || !IsId(id) then s
      else s.(next := s.next[id := data], posting := s.posting[thread := id], written := s.written + [(id, data)])
    case SetBit(thread) =>
      if thread !in s.posting then s
      else s.(pending := s.pending + {s.posting[thread]}, posting := s.posting - {thread})
    // bh_chip_get_cm2dm_message
    case StartRead => if s.receiver.Idle? then s.(receiver := Reading) else s
    case LoseRequest => if s.receiver.Reading? && s.handler.Waiting? then s.(receiver := Idle) else s
    // Cm2DmMsgReqSmbusHandler
    case Pick =>
      if !(s.receiver.Reading? && s.handler.Waiting?) then s
      else if s.curr.Some? || NextId(s.pending, s.rr).None? then s.(handler := Answered)
      else
        var id := NextId(s.pending, s.rr).value;
        s.(handler := Picked(id), rr := (id + 1) % COUNT)
    case Clear =>
      if s.handler.Picked? then s.(pending := s.pending - {s.handler.id}, handler := Cleared(s.handler.id)) else s
    case Fill =>
      if !s.handler.Cleared? || s.handler.id >= COUNT then s
      else
        var m := Msg(s.handler.id, s.seqNum, s.next[s.handler.id]);
        s.(curr := Some(m), seqNum := (s.seqNum + 1) % 256, issued := s.issued + [m], handler := Answered)
    case Reply =>
      if !(s.handler.Answered? && s.receiver.Reading?) then s
      else s.(handler := Waiting, receiver := if s.curr.Some? then Got(s.curr.value) else Idle)
    case LoseReply => if s.handler.Answered? && s.receiver.Reading? then s.(handler := Waiting, receiver := Idle) else s
    // Cm2DmMsgAckSmbusHandler
    case Ack =>
      if !s.receiver.Got? then s
      else
        var m := s.receiver.msg;
        var same := s.curr.Some? && s.curr.value.id == m.id && s.curr.value.seqNum == m.seqNum;
        s.(receiver := Acked(m), curr := if same then None else s.curr)
    case LoseAck => if s.receiver.Got? then s.(receiver := Acked(s.receiver.msg)) else s
    // process_cm2dm_message after the fetch
    case Dispatch =>
      if !s.receiver.Acked? then s
      else if s.last == Some(s.receiver.msg.seqNum) then s.(receiver := Idle)
      else s.(receiver := Idle, last := Some(s.receiver.msg.seqNum), dispatched := s.dispatched + [s.receiver.msg])
    // handle_perst and bh_chip_reset_chip
    case ResetChip => if s.receiver.Idle? then Start else s
  }

  function Run(s: Link, steps: seq<Step>): (t: Link)
    requires |s.next| == COUNT
    ensures |t.next| == COUNT
    decreases |steps|
  {
    if steps == [] then s else Run(Next(s, steps[0]), steps[1..])
  }

  lemma {:induction false} RunConcat(s: Link, a: seq<Step>, b: seq<Step>)
    requires |s.next| == COUNT
    ensures Run(s, a + b) == Run(Run(s, a), b)
    decreases |a|
  {
    if a == [] {
      assert a + b == b;
    } else {
      assert (a + b)[1..] == a[1..] + b && (a + b)[0] == a[0];
      RunConcat(Next(s, a[0]), a[1..], b);
    }
  }

  // ---- Exactly once ------------------------------------------------------------------------

  ghost predicate Shaped(s: Link) {
    && |s.next| == COUNT
    && (forall id :: id in s.pending ==> IsId(id))
    && (forall t :: t in s.posting ==> IsId(s.posting[t]))
    && ((s.handler.Picked? || s.handler.Cleared?) ==> IsId(s.handler.id) && s.curr.None?)
    && (s.handler.Picked? ==> s.handler.id in s.pending)
    && (!s.handler.Waiting? ==> s.receiver.Reading?)
    && s.rr < COUNT
  }

  // Message k carries sequence number k mod 256.
  ghost predicate Numbered(issued: seq<Msg>, seqNum: nat) {
    && seqNum == |issued| % 256
    && (forall k :: 0 <= k < |issued| ==> issued[k].seqNum == k % 256 && IsId(issued[k].id))
  }

  ghost predicate InHand(s: Link, m: Msg) {
    s.issued != [] && m == s.issued[|s.issued| - 1]
  }

  ghost predicate Inv(s: Link) {
    && Shaped(s)
    && Numbered(s.issued, s.seqNum)
    && s.dispatched <= s.issued
    && |s.issued| <= |s.dispatched| + 1
    && s.last == (if s.dispatched == [] then None else Some((|s.dispatched| - 1) % 256))
    && (s.curr.Some? ==> InHand(s, s.curr.value))
    && (s.receiver.Got? ==> s.curr == Some(s.receiver.msg))
    && (s.receiver.Acked? ==> InHand(s, s.receiver.msg))
    && (s.curr.None? && !s.receiver.Acked? ==> s.dispatched == s.issued)
  }

  lemma StepKeepsInv(s: Link, a: Step)
    requires Inv(s)
    ensures Inv(Next(s, a))
  {
    match a
    case Write(_, _, _) => SenderKeepsInv(s, a);
    case SetBit(_) => SenderKeepsInv(s, a);
    case Pick => SenderKeepsInv(s, a);
    case Clear => SenderKeepsInv(s, a);
    case Fill => FillKeepsInv(s);
    case Dispatch =>
      if s.receiver.Acked? {
        DispatchKeepsInv(s);
      }
    case ResetChip =>
    case _ => BusKeepsInv(s, a);
  }

  lemma SenderKeepsInv(s: Link, a: Step)
    requires Inv(s) && (a.Write? || a.SetBit? || a.Pick? || a.Clear?)
    ensures Inv(Next(s, a))
  {
  }

  lemma FillKeepsInv(s: Link)
    requires Inv(s)
    ensures Inv(Next(s, Fill))
  {
    if s.handler.Cleared? {
      var m := Msg(s.handler.id, s.seqNum, s.next[s.handler.id]);
      var t := Next(s, Fill);
      assert t == s.(curr := Some(m), seqNum := (s.seqNum + 1) % 256, issued := s.issued + [m], handler := Answered);
      assert s.dispatched == s.issued;
      NumberedMore(s.issued, s.seqNum, m);
      assert (s.issued + [m])[..|s.issued|] == s.issued;
    }
  }

  lemma NumberedMore(issued: seq<Msg>, seqNum: nat, m: Msg)
    requires Numbered(issued, seqNum) && m.seqNum == seqNum && IsId(m.id)
    ensures Numbered(issued + [m], (seqNum + 1) % 256)
  {
  }

  lemma BusKeepsInv(s: Link, a: Step)
    requires Inv(s) && (a.StartRead? || a.LoseRequest? || a.Reply? || a.LoseReply? || a.Ack? || a.LoseAck?)
    ensures Inv(Next(s, a))
  {
  }

  // The one that matters: a number differing from the last by one is never taken
  // for it, and an equal one is always the same message.
  lemma DispatchKeepsInv(s: Link)
    requires Inv(s) && s.receiver.Acked?
    ensures Inv(Next(s, Dispatch)) && Next(s, Dispatch).dispatched == s.issued
  {
    var n := |s.issued|;
    assert s.receiver.msg == s.issued[n - 1] && s.receiver.msg.seqNum == (n - 1) % 256;
    if |s.dispatched| == n {
    } else {
      assert s.dispatched != [] ==> (n - 2) % 256 != (n - 1) % 256;
      assert s.dispatched + [s.issued[n - 1]] == s.issued;
    }
  }

  lemma {:induction false} RunKeepsInv(s: Link, steps: seq<Step>)
    requires Inv(s)
    ensures Inv(Run(s, steps))
    decreases |steps|
  {
    if steps != [] {
      StepKeepsInv(s, steps[0]);
      RunKeepsInv(Next(s, steps[0]), steps[1..]);
    }
  }

  /** In every schedule, with any losses, the dispatched messages are the issued ones
      in order, at most one behind, and a message the sender has cleared has been
      dispatched once its poll iteration is over. */
  lemma ExactlyOnce(steps: seq<Step>)
    ensures var s := Run(Start, steps);
      && s.dispatched <= s.issued && |s.issued| <= |s.dispatched| + 1
      && (s.curr.None? && s.receiver.Idle? ==> s.dispatched == s.issued)
      && (s.curr.Some? ==> InHand(s, s.curr.value))
  {
    RunKeepsInv(Start, steps);
  }

  // ---- The final value always arrives ----------------------------------------------------------

  // The data of the latest entry for id.
  function LatestWrite(w: seq<(nat, nat)>, id: nat): (d: Option<nat>)
    decreases |w|
  {
    if w == [] then None
    else if w[|w| - 1].0 == id then Some(w[|w| - 1].1)
    else LatestWrite(w[..|w| - 1], id)
  }

  function LatestMsg(ms: seq<Msg>, id: nat): (d: Option<nat>)
    decreases |ms|
  {
    if ms == [] then None
    else if ms[|ms| - 1].id == id then Some(ms[|ms| - 1].data)
    else LatestMsg(ms[..|ms| - 1], id)
  }

  ghost predicate Underway(s: Link, id: nat) {
    || (exists t :: t in s.posting && s.posting[t] == id)
    || id in s.pending
    || s.handler == Cleared(id)
  }

  // Data written last for id: still on its way, or already in the last message for id.
  ghost predicate Tracked(s: Link, id: nat)
    requires |s.next| == COUNT && IsId(id)
  {
    match LatestWrite(s.written, id)
    case None => !Underway(s, id) && LatestMsg(s.issued, id) == None
    case Some(d) => d == s.next[id] && (Underway(s, id) || LatestMsg(s.issued, id) == Some(d))
  }

  lemma StepTracks(s: Link, a: Step, id: nat)
    requires Inv(s) && IsId(id) && Tracked(s, id)
    ensures Tracked(Next(s, a), id)
  {
    match a
    case Write(_, _, _) => WriteTracks(s, a, id);
    case SetBit(_) => SetBitTracks(s, a, id);
    case Fill => FillTracks(s, id);
    case ResetChip =>
      if s.receiver.Idle? {
        assert Next(s, a) == Start;
      }
    case _ => OthersTrack(s, a, id);
  }

  lemma OthersTrack(s: Link, a: Step, id: nat)
    requires Inv(s) && IsId(id) && Tracked(s, id)
    requires !a.Write? && !a.SetBit? && !a.Fill? && !a.ResetChip?
    ensures Tracked(Next(s, a), id)
  {
    OthersKeep(s, a, id);
  }

  lemma OthersKeep(s: Link, a: Step, id: nat)
    requires Inv(s) && IsId(id)
    requires !a.Write? && !a.SetBit? && !a.Fill? && !a.ResetChip?
    ensures var t := Next(s, a);
      && t.written == s.written && t.issued == s.issued && t.next == s.next && t.posting == s.posting
      && (Underway(s, id) <==> Underway(t, id))
  {
  }

  lemma WriteTracks(s: Link, a: Step, id: nat)
    requires Inv(s) && IsId(id) && Tracked(s, id) && a.Write?
    ensures Tracked(Next(s, a), id)
  {
    var t := Next(s, a);
    if a.thread !in s.posting && IsId(a.id) {
      assert t.written[..|s.written|] == s.written;
      assert t.posting[a.thread] == a.id;
      if a.id == id {
        assert LatestWrite(t.written, id) == Some(a.data) && t.next[id] == a.data;
        assert Underway(t, id);
      } else {
        assert LatestWrite(t.written, id) == LatestWrite(s.written, id);
        StillPosting(s, t, a.thread, id);
      }
    }
  }

  lemma StillPosting(s: Link, t: Link, thread: nat, id: nat)
    requires thread !in s.posting && thread in t.posting && t.posting[thread] != id
    requires t.posting == s.posting[thread := t.posting[thread]] && t.pending == s.pending && t.handler == s.handler
    ensures Underway(t, id) <==> Underway(s, id)
  {
    forall u | u in s.posting ensures u in t.posting && t.posting[u] == s.posting[u] {
    }
    forall u | u in t.posting && u != thread ensures u in s.posting && t.posting[u] == s.posting[u] {
    }
  }

  lemma SetBitTracks(s: Link, a: Step, id: nat)
    requires Inv(s) && IsId(id) && Tracked(s, id) && a.SetBit?
    ensures Tracked(Next(s, a), id)
  {
    var t := Next(s, a);
    if a.thread in s.posting {
      assert forall u :: u in t.posting ==> u in s.posting && t.posting[u] == s.posting[u];
      assert forall u :: u in s.posting && u != a.thread ==> u in t.posting && t.posting[u] == s.posting[u];
    }
  }

  lemma FillTracks(s: Link, id: nat)
    requires Inv(s) && IsId(id) && Tracked(s, id)
    ensures Tracked(Next(s, Fill), id)
  {
    var t := Next(s, Fill);
    if s.handler.Cleared? {
      assert t.issued[..|s.issued|] == s.issued;
      assert t.posting == s.posting;
    }
  }

  lemma {:induction false} RunTracks(s: Link, steps: seq<Step>, id: nat)
    requires Inv(s) && IsId(id) && Tracked(s, id)
    ensures Inv(Run(s, steps)) && Tracked(Run(s, steps), id)
    decreases |steps|
  {
    if steps != [] {
      StepKeepsInv(s, steps[0]);
      StepTracks(s, steps[0], id);
      RunTracks(Next(s, steps[0]), steps[1..], id);
    }
  }

  /** Whenever nothing is under way any more, the last message dispatched for an
      identifier carries the data posted last for it; values in between may be
      merged, but the final one is never lost. */
  lemma FinalValueArrives(steps: seq<Step>, id: nat)
    requires IsId(id)
    ensures var s := Run(Start, steps);
      !Underway(s, id) && s.curr.None? && s.receiver.Idle? ==> LatestMsg(s.dispatched, id) == LatestWrite(s.written, id)
  {
    RunTracks(Start, steps, id);
  }

  // ---- Round robin ---------------------------------------------------------------------------

  // How many other identifiers the search from rr meets before id.
  function Ahead(rr: nat, id: nat): (n: nat)
    requires rr < COUNT && IsId(id)
    ensures n <= 8
  {
    var r := if rr == 0 then 1 else rr;
    if id >= r then id - r else 9 - r + id
  }

  lemma PickComesCloser(pending: set<nat>, rr: nat, id: nat)
    requires rr < COUNT && IsId(id) && id in pending && forall x :: x in pending ==> IsId(x)
    ensures NextId(pending, rr).Some? && NextId(pending, rr).value in pending
    ensures NextId(pending, rr).value != id ==> Ahead((NextId(pending, rr).value + 1) % COUNT, id) < Ahead(rr, id)
  {
  }

  ghost predicate NeverPicked(s: Link, steps: seq<Step>, id: nat)
    requires |s.next| == COUNT
    decreases |steps|
  {
    s.handler != Picked(id) && (steps != [] ==> !steps[0].ResetChip? && NeverPicked(Next(s, steps[0]), steps[1..], id))
  }

  // Messages issued, counting the one being filled in.
  function Started(s: Link): nat {
    |s.issued| + (if s.handler.Picked? || s.handler.Cleared? then 1 else 0)
  }

  lemma StepWaits(s: Link, a: Step, id: nat)
    requires Inv(s) && IsId(id) && id in s.pending && !a.ResetChip?
    requires s.handler != Picked(id) && Next(s, a).handler != Picked(id)
    ensures var t := Next(s, a);
      id in t.pending && t.rr < COUNT && Started(t) + Ahead(t.rr, id) <= Started(s) + Ahead(s.rr, id)
  {
    if a.Pick? {
      PickComesCloser(s.pending, s.rr, id);
    }
  }

  lemma {:induction false} WaitingIsBounded(s: Link, steps: seq<Step>, id: nat)
    requires Inv(s) && IsId(id) && id in s.pending && NeverPicked(s, steps, id)
    ensures Inv(Run(s, steps)) && id in Run(s, steps).pending
    ensures Started(Run(s, steps)) + Ahead(Run(s, steps).rr, id) <= Started(s) + Ahead(s.rr, id)
    decreases |steps|
  {
    if steps != [] {
      var t := Next(s, steps[0]);
      StepKeepsInv(s, steps[0]);
      StepWaits(s, steps[0], id);
      WaitingIsBounded(t, steps[1..], id);
    }
  }

  /** No identifier starves: from the moment its bit is set, in any schedule without
      a reset, at most eight other messages are started before it is picked. */
  lemma ServedWithinEight(s: Link, steps: seq<Step>, id: nat)
    requires Inv(s) && IsId(id) && id in s.pending && NeverPicked(s, steps, id)
    ensures Started(Run(s, steps)) <= Started(s) + 8
  {
    WaitingIsBounded(s, steps, id);
  }

  // ---- One poll of process_cm2dm_message --------------------------------------------------------

  datatype Fault = Clean | RequestLost | ReplyLost | AckLost

  function Iteration(f: Fault): seq<Step> {
    match f
    case RequestLost => [StartRead, LoseRequest]
    case ReplyLost => [StartRead] + ([Pick, Clear, Fill] + [LoseReply])
    case AckLost => [StartRead] + ([Pick, Clear, Fill] + [Reply, LoseAck, Dispatch])
    case Clean => [StartRead] + ([Pick, Clear, Fill] + [Reply, Ack, Dispatch])
  }

  ghost predicate Quiet(s: Link) {
    Inv(s) && s.receiver.Idle? && s.handler.Waiting?
  }

  predicate NothingToSend(s: Link) {
    s.curr.None? && NextId(s.pending, s.rr).None?
  }

  // The break conditions: read error, null message, processor asks to stop.
  predicate Breaks(s: Link, t: Link, f: Fault, stop: Msg -> bool) {
    || f.RequestLost? || f.ReplyLost?
    || NothingToSend(s)
    || (|s.dispatched| < |t.dispatched| && stop(t.dispatched[|t.dispatched| - 1]))
  }

  // The steps of one poll, whose i-th fetch meets faults[i].
  function PollSteps(s: Link, faults: seq<Fault>, stop: Msg -> bool): (steps: seq<Step>)
    requires |s.next| == COUNT
    decreases |faults|
  {
    if faults == [] then []
    else
      var it := Iteration(faults[0]);
      var t := Run(s, it);
      if Breaks(s, t, faults[0], stop) then it else it + PollSteps(t, faults[1..], stop)
  }

  function Work(s: Link): nat {
    |s.pending| + (if s.curr.Some? then 1 else 0)
  }

  lemma RunOne(s: Link, a: Step)
    requires |s.next| == COUNT
    ensures Run(s, [a]) == Next(s, a)
  {
    assert [a][1..] == [];
  }

  lemma RunTwo(s: Link, a: Step, b: Step)
    requires |s.next| == COUNT
    ensures Run(s, [a, b]) == Next(Next(s, a), b)
  {
    assert [a, b] == [a] + [b];
    RunConcat(s, [a], [b]);
    RunOne(s, a);
    RunOne(Next(s, a), b);
  }

  lemma RunThree(s: Link, a: Step, b: Step, c: Step)
    requires |s.next| == COUNT
    ensures Run(s, [a, b, c]) == Next(Next(Next(s, a), b), c)
  {
    assert [a, b, c] == [a] + [b, c];
    RunConcat(s, [a], [b, c]);
    RunOne(s, a);
    RunTwo(Next(s, a), b, c);
  }

  // The request handler run without interruption.
  function Handle(s: Link): (t: Link)
    requires |s.next| == COUNT
  {
    Run(s, [Pick, Clear, Fill])
  }

  // The message the handler fills in for id.
  function Fresh(s: Link, id: nat): Msg
    requires |s.next| == COUNT && id < COUNT
  {
    Msg(id, s.seqNum, s.next[id])
  }

  lemma HandleExact(s: Link)
    requires Inv(s) && s.receiver.Reading? && s.handler.Waiting?
    ensures s.curr.Some? || NothingToSend(s) ==> Handle(s) == s.(handler := Answered)
    ensures s.curr.None? && !NothingToSend(s) ==> NextId(s.pending, s.rr).value < COUNT
    ensures s.curr.None? && !NothingToSend(s) ==>
        var id := NextId(s.pending, s.rr).value;
        var m := Fresh(s, id);
        Handle(s) == s.(pending := s.pending - {id}, rr := (id + 1) % COUNT, curr := Some(m),
                      seqNum := (s.seqNum + 1) % 256, issued := s.issued + [m], handler := Answered)
  {
    RunThree(s, Pick, Clear, Fill);
    var p := Next(s, Pick);
    if s.curr.None? && !NothingToSend(s) {
      var id := NextId(s.pending, s.rr).value;
      assert p == s.(handler := Picked(id), rr := (id + 1) % COUNT);
    } else {
      assert p == s.(handler := Answered);
      assert Next(p, Clear) == p;
    }
  }

  lemma HandleEffect(s: Link)
    requires Inv(s) && s.receiver.Reading? && s.handler.Waiting?
    ensures Inv(Handle(s)) && Handle(s).handler.Answered? && Handle(s).receiver.Reading?
    ensures NothingToSend(s) ==> Handle(s) == s.(handler := Answered)
    ensures !NothingToSend(s) ==> Handle(s).curr.Some? && Work(Handle(s)) == Work(s)
    ensures Handle(s).dispatched == s.dispatched && Handle(s).posting == s.posting
  {
    HandleExact(s);
    RunKeepsInv(s, [Pick, Clear, Fill]);
    if s.curr.None? && !NothingToSend(s) {
      assert NextId(s.pending, s.rr).value in s.pending;
    }
  }

  lemma RunParts(s: Link, a: Step, h: seq<Step>, r: seq<Step>)
    requires |s.next| == COUNT
    ensures Run(s, [a] + (h + r)) == Run(Run(Next(s, a), h), r)
  {
    RunConcat(s, [a], h + r);
    RunOne(s, a);
    RunConcat(Next(s, a), h, r);
  }

  lemma TailUnfolds(s: Link, a: Step)
    requires |s.next| == COUNT
    ensures Run(s, [StartRead] + ([Pick, Clear, Fill] + [Reply, a, Dispatch]))
         == Next(Next(Next(Handle(Next(s, StartRead)), Reply), a), Dispatch)
  {
    var tail := [Reply, a, Dispatch];
    RunParts(s, StartRead, [Pick, Clear, Fill], tail);
    RunThree(Handle(Next(s, StartRead)), Reply, a, Dispatch);
  }

  // The state once the reply has arrived.
  function Fetched(s: Link): (g: Link)
    requires |s.next| == COUNT
  {
    Next(Handle(Next(s, StartRead)), Reply)
  }

  lemma FetchedEffect(s: Link)
    requires Quiet(s)
    ensures Inv(Fetched(s)) && Fetched(s).handler.Waiting? && Fetched(s).dispatched == s.dispatched
    ensures NothingToSend(s) ==> Fetched(s) == s
    ensures !NothingToSend(s) ==> Fetched(s).receiver.Got? && Work(Fetched(s)) == Work(s)
  {
    StepKeepsInv(s, StartRead);
    var r := Next(s, StartRead);
    assert NothingToSend(r) <==> NothingToSend(s);
    HandleEffect(r);
    StepKeepsInv(Handle(r), Reply);
  }

  lemma IterationOutcome(s: Link, f: Fault)
    requires Quiet(s)
    ensures NothingToSend(s) && (f.Clean? || f.AckLost?) ==> Run(s, Iteration(f)) == s
    ensures !NothingToSend(s) && f.Clean? ==> Run(s, Iteration(f)) == Next(Next(Fetched(s), Ack), Dispatch)
    ensures !NothingToSend(s) && f.AckLost? ==> Run(s, Iteration(f)) == Next(Next(Fetched(s), LoseAck), Dispatch)
  {
    FetchedEffect(s);
    if f.Clean? {
      TailUnfolds(s, Ack);
    } else if f.AckLost? {
      TailUnfolds(s, LoseAck);
    }
  }

  lemma CleanIteration(s: Link)
    requires Quiet(s)
    ensures Quiet(Run(s, Iteration(Clean)))
    ensures !NothingToSend(s) ==> Work(Run(s, Iteration(Clean))) == Work(s) - 1
    ensures NothingToSend(s) ==> Run(s, Iteration(Clean)) == s
  {
    IterationOutcome(s, Clean);
    FetchedEffect(s);
    if !NothingToSend(s) {
      AckAndDispatch(Fetched(s));
    }
  }

  lemma AckAndDispatch(g: Link)
    requires Inv(g) && g.handler.Waiting? && g.receiver.Got?
    ensures Quiet(Next(Next(g, Ack), Dispatch)) && Work(Next(Next(g, Ack), Dispatch)) == Work(g) - 1
  {
    StepKeepsInv(g, Ack);
    StepKeepsInv(Next(g, Ack), Dispatch);
  }

  lemma {:induction false} CleanPoll(s: Link, faults: seq<Fault>, stop: Msg -> bool)
    requires Quiet(s) && (forall f :: f in faults ==> f.Clean?) && Work(s) <= |faults|
    requires forall m: Msg :: !stop(m)
    ensures Quiet(Run(s, PollSteps(s, faults, stop))) && NothingToSend(Run(s, PollSteps(s, faults, stop)))
    decreases |faults|
  {
    if faults == [] {
      assert s.pending == {};
    } else {
      assert faults[0] in faults;
      CleanIteration(s);
      var it := Iteration(Clean);
      var t := Run(s, it);
      if !Breaks(s, t, Clean, stop) {
        CleanPoll(t, faults[1..], stop);
        RunConcat(s, it, PollSteps(t, faults[1..], stop));
      }
    }
  }

  lemma IdsAreFew(ids: set<nat>)
    requires forall x :: x in ids ==> IsId(x)
    ensures |ids| <= 9
  {
    var all := {1, 2, 3, 4, 5, 6, 7, 8, 9};
    assert ids <= all;
    SubsetSize(ids, all);
  }

  /** Ten fetches are enough: a poll without losses, whose processors never ask to
      stop, ends with every posted message dispatched, whatever was pending and even
      when an earlier ack was lost. */
  lemma PollDrains(s: Link, faults: seq<Fault>, stop: Msg -> bool)
    requires Quiet(s) && |faults| == COUNT && (forall f :: f in faults ==> f.Clean?)
    requires forall m: Msg :: !stop(m)
    ensures var t := Run(s, PollSteps(s, faults, stop)); t.pending == {} && t.dispatched == t.issued
  {
    IdsAreFew(s.pending);
    CleanPoll(s, faults, stop);
    var t := Run(s, PollSteps(s, faults, stop));
    assert forall x :: x in t.pending ==> IsId(x);
  }

  // ---- When a poll ends ----------------------------------------------------------------------------

  // The message a request is answered with, when there is one.
  function Offered(s: Link): (m: Msg)
    requires |s.next| == COUNT && !NothingToSend(s)
    requires s.curr.None? ==> NextId(s.pending, s.rr).value < COUNT
  {
    if s.curr.Some? then s.curr.value else Fresh(s, NextId(s.pending, s.rr).value)
  }

  // A repeated number is not handed on.
  function HandedOn(s: Link, m: Msg): seq<Msg> {
    if s.last == Some(m.seqNum) then s.dispatched else s.dispatched + [m]
  }

  lemma NothingMeans(s: Link)
    requires Shaped(s)
    ensures NothingToSend(s) <==> s.curr.None? && s.pending == {}
    ensures s.curr.None? && s.pending != {} ==> NextId(s.pending, s.rr).value < COUNT
  {
    if s.pending != {} {
      SomePending(s);
    }
  }

  /** What one fetch does under each fault: nothing when the request is lost or there is
      nothing to send; otherwise the message becomes current, is handed on unless the
      reply is lost, and is cleared exactly when its ack arrives. */
  lemma IterationMeans(s: Link, f: Fault)
    requires Quiet(s)
    ensures var t := Run(s, Iteration(f));
      && Quiet(t)
      && (f.RequestLost? || NothingToSend(s) ==> t == s)
      && (!f.RequestLost? && !NothingToSend(s) ==>
            && (s.curr.None? ==> NextId(s.pending, s.rr).value < COUNT)
            && t.curr == (if f.Clean? then None else Some(Offered(s)))
            && t.dispatched == (if f.ReplyLost? then s.dispatched else HandedOn(s, Offered(s))))
  {
    NothingMeans(s);
    match f
    case RequestLost => RunTwo(s, StartRead, LoseRequest);
    case ReplyLost => ReplyLostMeans(s);
    case _ =>
      IterationOutcome(s, f);
      if !NothingToSend(s) {
        FetchedOffers(s);
        RestMeans(Fetched(s), Offered(s), if f.Clean? then Ack else LoseAck);
      }
  }

  lemma HandleOffers(r: Link)
    requires Inv(r) && r.receiver.Reading? && r.handler.Waiting?
    ensures var h := Handle(r);
      && Inv(h) && h.handler.Answered? && h.receiver.Reading? && h.dispatched == r.dispatched && h.last == r.last
      && (NothingToSend(r) ==> h == r.(handler := Answered))
      && (!NothingToSend(r) ==>
            (r.curr.None? ==> NextId(r.pending, r.rr).value < COUNT) && h.curr == Some(Offered(r)))
  {
    NothingMeans(r);
    HandleExact(r);
    HandleEffect(r);
  }

  // A request changes nothing that matters for the answer.
  lemma ReadingOffers(s: Link)
    requires Quiet(s)
    ensures var r := Next(s, StartRead);
      && Inv(r) && r.receiver.Reading? && r.handler.Waiting? && r == s.(receiver := Reading)
      && (NothingToSend(r) <==> NothingToSend(s))
      && (s.curr.None? && !NothingToSend(s) ==> NextId(s.pending, s.rr).value < COUNT)
      && (!NothingToSend(s) ==> Offered(r) == Offered(s))
  {
    NothingMeans(s);
    StepKeepsInv(s, StartRead);
  }

  lemma FetchedOffers(s: Link)
    requires Quiet(s) && !NothingToSend(s)
    ensures s.curr.None? ==> NextId(s.pending, s.rr).value < COUNT
    ensures var g := Fetched(s);
      && Inv(g) && g.handler.Waiting? && g.receiver == Got(Offered(s)) && g.curr == Some(Offered(s))
      && g.dispatched == s.dispatched && g.last == s.last
  {
    ReadingOffers(s);
    HandleOffers(Next(s, StartRead));
    StepKeepsInv(Handle(Next(s, StartRead)), Reply);
  }

  lemma RestMeans(g: Link, m: Msg, a: Step)
    requires Inv(g) && g.handler.Waiting? && g.receiver == Got(m) && g.curr == Some(m) && (a.Ack? || a.LoseAck?)
    ensures var t := Next(Next(g, a), Dispatch);
      Quiet(t) && t.curr == (if a.Ack? then None else Some(m)) && t.dispatched == HandedOn(g, m)
  {
    StepKeepsInv(g, a);
    StepKeepsInv(Next(g, a), Dispatch);
  }

  lemma ReplyLostMeans(s: Link)
    requires Quiet(s)
    ensures var t := Run(s, Iteration(ReplyLost));
      && Quiet(t) && t.dispatched == s.dispatched && (NothingToSend(s) ==> t == s)
      && (!NothingToSend(s) ==>
            (s.curr.None? ==> NextId(s.pending, s.rr).value < COUNT) && t.curr == Some(Offered(s)))
  {
    ReadingOffers(s);
    var h := Handle(Next(s, StartRead));
    HandleOffers(Next(s, StartRead));
    RunParts(s, StartRead, [Pick, Clear, Fill], [LoseReply]);
    RunOne(h, LoseReply);
    LoseReplyMeans(h);
  }

  lemma LoseReplyMeans(h: Link)
    requires Inv(h) && h.handler.Answered? && h.receiver.Reading?
    ensures Quiet(Next(h, LoseReply)) && Next(h, LoseReply) == h.(handler := Waiting, receiver := Idle)
  {
    StepKeepsInv(h, LoseReply);
  }

  // The states before, between and after the fetches that meet the given faults.
  function Trace(s: Link, faults: seq<Fault>): (tr: seq<Link>)
    requires |s.next| == COUNT
    ensures |tr| == |faults| + 1 && tr[0] == s
    decreases |faults|
  {
    [s] + if faults == [] then [] else Trace(Run(s, Iteration(faults[0])), faults[1..])
  }

  lemma {:induction false} TraceMeans(s: Link, faults: seq<Fault>, k: nat)
    requires Quiet(s) && k <= |faults|
    ensures Quiet(Trace(s, faults)[k])
    ensures k < |faults| ==> Trace(s, faults)[k + 1] == Run(Trace(s, faults)[k], Iteration(faults[k]))
    decreases |faults|
  {
    if faults != [] {
      IterationMeans(s, faults[0]);
      if k > 0 {
        TraceMeans(Run(s, Iteration(faults[0])), faults[1..], k - 1);
      }
    }
  }

  // A fetch from s to t was the last of its poll: the request or the reply was lost, there
  // was no message, or a message was handed on whose processor asks to stop.
  ghost predicate EndsPoll(s: Link, t: Link, f: Fault, stop: Msg -> bool) {
    || f == RequestLost || f == ReplyLost
    || (s.curr == None && s.pending == {})
    || exists m :: t.dispatched == s.dispatched + [m] && stop(m)
  }

  lemma BreaksMeans(s: Link, f: Fault, stop: Msg -> bool)
    requires Quiet(s)
    ensures var t := Run(s, Iteration(f)); Breaks(s, t, f, stop) <==> EndsPoll(s, t, f, stop)
  {
    var t := Run(s, Iteration(f));
    NothingMeans(s);
    IterationMeans(s, f);
    if |s.dispatched| < |t.dispatched| {
      var m := t.dispatched[|t.dispatched| - 1];
      assert t.dispatched == s.dispatched + [m];
    }
    if m :| t.dispatched == s.dispatched + [m] && stop(m) {
      assert t.dispatched[|t.dispatched| - 1] == m;
    }
  }

  // n fetches over these states make up a poll: none but the last ends it, and fewer than
  // all only if the last does.
  ghost predicate Polls(tr: seq<Link>, faults: seq<Fault>, stop: Msg -> bool, n: nat)
    requires |tr| == |faults| + 1
  {
    && n <= |faults|
    && (forall k :: 0 <= k < n - 1 ==> !EndsPoll(tr[k], tr[k + 1], faults[k], stop))
    && (n < |faults| ==> n > 0 && EndsPoll(tr[n - 1], tr[n], faults[n - 1], stop))
  }

  lemma PollsMore(tr: seq<Link>, faults: seq<Fault>, stop: Msg -> bool, n: nat)
    requires |tr| == |faults| + 1 && faults != []
    requires !EndsPoll(tr[0], tr[1], faults[0], stop) && Polls(tr[1..], faults[1..], stop, n)
    ensures Polls(tr, faults, stop, n + 1)
  {
    forall k | 0 <= k < n ensures !EndsPoll(tr[k], tr[k + 1], faults[k], stop) {
      if k > 0 {
        assert tr[1..][k - 1] == tr[k] && tr[1..][(k - 1) + 1] == tr[k + 1] && faults[1..][k - 1] == faults[k];
      }
    }
  }

  /** A poll fetches until one of its reasons to end, or until its fetches are used up, and
      not further. */
  lemma {:induction false} PollExact(s: Link, faults: seq<Fault>, stop: Msg -> bool) returns (n: nat)
    requires Quiet(s)
    ensures Polls(Trace(s, faults), faults, stop, n) && Run(s, PollSteps(s, faults, stop)) == Trace(s, faults)[n]
    decreases |faults|
  {
    n := 0;
    if faults != [] {
      var it := Iteration(faults[0]);
      var t := Run(s, it);
      var tr := Trace(s, faults);
      assert tr[1..] == Trace(t, faults[1..]) && tr[1] == t;
      BreaksMeans(s, faults[0], stop);
      IterationMeans(s, faults[0]);
      if Breaks(s, t, faults[0], stop) {
        n := 1;
      } else {
        var m := PollExact(t, faults[1..], stop);
        n := m + 1;
        PollsMore(tr, faults, stop, m);
        RunConcat(s, it, PollSteps(t, faults[1..], stop));
        assert tr[1..][m] == tr[n];
      }
    }
  }

  // The messages handed on since s was seen, none of them one that stop accepts.
  ghost predicate NoneStops(s: Link, t: Link, stop: Msg -> bool) {
    s.dispatched <= t.dispatched && forall j :: |s.dispatched| <= j < |t.dispatched| ==> !stop(t.dispatched[j])
  }

  lemma NoneStopsMore(s: Link, a: Link, f: Fault, stop: Msg -> bool)
    requires Quiet(a) && NoneStops(s, a, stop) && !EndsPoll(a, Run(a, Iteration(f)), f, stop)
    ensures NoneStops(s, Run(a, Iteration(f)), stop)
  {
    var b := Run(a, Iteration(f));
    IterationMeans(a, f);
    if b.dispatched != a.dispatched {
      assert b.dispatched == a.dispatched + [b.dispatched[|b.dispatched| - 1]];
    }
  }

  lemma {:induction false} NoneStopsBefore(s: Link, faults: seq<Fault>, stop: Msg -> bool, n: nat, k: nat)
    requires Quiet(s) && Polls(Trace(s, faults), faults, stop, n) && k < n
    ensures NoneStops(s, Trace(s, faults)[k], stop)
    decreases k
  {
    if k > 0 {
      NoneStopsBefore(s, faults, stop, n, k - 1);
      TraceMeans(s, faults, k - 1);
      NoneStopsMore(s, Trace(s, faults)[k - 1], faults[k - 1], stop);
    }
  }

  /** No message is handed on in a poll after one whose processor asks to stop. */
  lemma StopEndsPoll(s: Link, faults: seq<Fault>, stop: Msg -> bool)
    requires Quiet(s)
    ensures var t := Run(s, PollSteps(s, faults, stop));
      s.dispatched <= t.dispatched && forall j :: |s.dispatched| <= j < |t.dispatched| - 1 ==> !stop(t.dispatched[j])
  {
    var n := PollExact(s, faults, stop);
    if n > 0 {
      NoneStopsBefore(s, faults, stop, n, n - 1);
      TraceMeans(s, faults, n - 1);
      IterationMeans(Trace(s, faults)[n - 1], faults[n - 1]);
    }
  }

  // ---- Why a reset must invalidate the last sequence number ---------------------------------------

  // The SMC restarts; the DMC keeps what it remembers.
  function RestartSender(s: Link): Link {
    Start.(last := s.last)
  }

  /** If the sender restarted while the receiver kept its last number, the first new
      message would be dispatched exactly when that number is not 0. */
  lemma RestartExact(s: Link, id: nat, data: nat)
    requires Inv(s) && IsId(id)
    ensures var t := Run(RestartSender(s), [Write(0, id, data), SetBit(0)] + Iteration(Clean));
      && t.issued == [Msg(id, 0, data)] && t.curr == None
      && (t.dispatched == t.issued <==> s.last != Some(0))
  {
    var r, m := RestartSender(s), Msg(id, 0, data);
    RunConcat(r, [Write(0, id, data), SetBit(0)], Iteration(Clean));
    RunTwo(r, Write(0, id, data), SetBit(0));
    var b := Next(Next(r, Write(0, id, data)), SetBit(0));
    RestartPosts(s, id, data);
    TailUnfolds(b, Ack);
    RestartFetches(b, id, data);
    FirstDispatched(Handle(Next(b, StartRead)), m);
  }

  lemma FirstDispatched(h: Link, m: Msg)
    requires |h.next| == COUNT && h.curr == Some(m) && h.issued == [m] && h.dispatched == []
    requires h.handler.Answered? && h.receiver.Reading?
    ensures var t := Next(Next(Next(h, Reply), Ack), Dispatch);
      t.issued == [m] && t.curr == None && (t.dispatched == t.issued <==> h.last != Some(m.seqNum))
  {
    var g := Next(Next(h, Reply), Ack);
    assert g.receiver == Acked(m) && g.curr == None;
  }

  // A sender that has just posted its first message.
  ghost predicate FirstPosted(b: Link, id: nat, data: nat)
    requires |b.next| == COUNT && IsId(id)
  {
    && b.pending == {id} && b.next[id] == data && b.seqNum == 0 && b.rr == 0
    && b.curr == None && b.issued == [] && b.dispatched == [] && b.receiver.Idle? && b.handler.Waiting?
  }

  lemma RestartPosts(s: Link, id: nat, data: nat)
    requires IsId(id)
    ensures var b := Next(Next(RestartSender(s), Write(0, id, data)), SetBit(0));
      FirstPosted(b, id, data) && b.last == s.last
  {
  }

  lemma RestartFetches(b: Link, id: nat, data: nat)
    requires |b.next| == COUNT && IsId(id) && FirstPosted(b, id, data)
    ensures var h := Handle(Next(b, StartRead));
      && h.curr == Some(Msg(id, 0, data)) && h.issued == [Msg(id, 0, data)] && h.handler.Answered?
      && h.receiver.Reading? && h.last == b.last && h.dispatched == []
  {
    var p := Next(b, StartRead);
    RunThree(p, Pick, Clear, Fill);
    assert NextId({id}, 0) == Some(id);
  }

  // ---- Both ends as they are written ----------------------------------------------------------------

  const NONE := Msg(0, 0, 0)

  class Ends {
    var pendingMessages: set<nat>
    var nextMsgs: seq<nat>
    var nextIdRr: nat
    var nextSeqNum: nat
    var currMsgValid: bool
    var currMsg: Msg
    var lastSeqNumValid: bool
    var lastSeqNum: nat
    ghost var written: seq<(nat, nat)>
    ghost var issued: seq<Msg>
    ghost var dispatched: seq<Msg>

    ghost function View(h: Handler, r: Receiver): (s: Link)
      reads this
    {
      Link(pendingMessages, nextMsgs, nextIdRr, nextSeqNum, if currMsgValid then Some(currMsg) else None, map[], h, r,
           if lastSeqNumValid then Some(lastSeqNum) else None, written, issued, dispatched)
    }

    // The message is all zero where there is none.
    ghost predicate Valid(h: Handler, r: Receiver)
      reads this
    {
      Inv(View(h, r)) && (!currMsgValid ==> currMsg == NONE)
    }

    constructor ()
      ensures Valid(Waiting, Idle) && View(Waiting, Idle) == Start
    {
      pendingMessages, nextMsgs, nextIdRr, nextSeqNum := {}, [0, 0, 0, 0, 0, 0, 0, 0, 0, 0], 0, 0;
      currMsgValid, currMsg, lastSeqNumValid, lastSeqNum := false, NONE, false, 0;
      written, issued, dispatched := [], [], [];
    }

    // PostCm2DmMsg
    method Post(id: nat, data: nat)
      requires Valid(Waiting, Idle) && IsId(id)
      modifies this
      ensures Valid(Waiting, Idle)
      ensures View(Waiting, Idle) == Run(old(View(Waiting, Idle)), [Write(0, id, data), SetBit(0)])
    {
      ghost var s := View(Waiting, Idle);
      RunTwo(s, Write(0, id, data), SetBit(0));
      RunKeepsInv(s, [Write(0, id, data), SetBit(0)]);
      nextMsgs := nextMsgs[id := data];
      written := written + [(id, data)];
      pendingMessages := pendingMessages + {id};
      assert Next(s, Write(0, id, data)).posting - {0} == map[];
    }

    // next_id_rr, for a non-empty set of pending messages
    method TakeNextId(pending: set<nat>) returns (id: nat)
      requires NextId(pending, nextIdRr).Some?
      modifies `nextIdRr
      ensures Some(id) == NextId(pending, old(nextIdRr)) && nextIdRr == (id + 1) % COUNT
    {
      var hi := Lowest(pending, nextIdRr);
      var found := if hi.Some? then hi else Lowest(pending, 0);
      id := found.value;
      nextIdRr := (id + 1) % COUNT;
    }

    // The branch that picks an identifier, clears its bit and makes its message current.
    method TakeMessage()
      requires Valid(Waiting, Reading) && !currMsgValid && pendingMessages != {}
      requires NextId(pendingMessages, nextIdRr).Some?
      modifies this
      ensures View(Answered, Reading) == Handle(old(View(Waiting, Reading))) && Valid(Answered, Reading)
      ensures currMsgValid && currMsg.id != 0 && dispatched == old(dispatched)
    {
      HandleExact(View(Waiting, Reading));
      HandleEffect(View(Waiting, Reading));
      var id := TakeNextId(pendingMessages);
      pendingMessages := pendingMessages - {id};
      currMsg := Msg(id, nextSeqNum, nextMsgs[id]);
      nextSeqNum := (nextSeqNum + 1) % 256;
      currMsgValid := true;
      issued := issued + [currMsg];
    }

    // Cm2DmMsgReqSmbusHandler
    method ReqHandler() returns (m: Msg)
      requires Valid(Waiting, Reading)
      modifies this
      ensures View(Answered, Reading) == Handle(old(View(Waiting, Reading))) && Valid(Answered, Reading)
      ensures m == currMsg && (m.id == 0 <==> !currMsgValid)
      ensures dispatched == old(dispatched)
    {
      ghost var s := View(Waiting, Reading);
      HandleExact(s);
      HandleEffect(s);
      if !currMsgValid && pendingMessages != {} {
        SomePending(s);
        TakeMessage();
      } else {
        assert View(Answered, Reading) == Handle(s);
      }
      m := currMsg;
    }

    // Cm2DmMsgAckSmbusHandler
    method AckHandler(id: nat, seqNum: nat, size: nat) returns (ret: int)
      modifies `currMsgValid, `currMsg
      ensures ret == 0 <==> size == 2 && old(currMsgValid) && old(currMsg).id == id && old(currMsg).seqNum == seqNum
      ensures if ret == 0 then !currMsgValid && currMsg == NONE
        else ret == -1 && currMsgValid == old(currMsgValid) && currMsg == old(currMsg)
    {
      if size != 2 {
        return -1;
      }
      if currMsgValid && id == currMsg.id && seqNum == currMsg.seqNum {
        currMsgValid := false;
        currMsg := NONE;
        return 0;
      }
      return -1;
    }

    // bh_chip_get_cm2dm_message when the bus behaves as f says
    method GetMessage(f: Fault) returns (ret: int, m: Msg)
      requires Valid(Waiting, Idle)
      modifies this
      ensures dispatched == old(dispatched)
      ensures f.RequestLost? || f.ReplyLost? <==> ret != 0
      ensures ret != 0 ==> View(Waiting, Idle) == Run(old(View(Waiting, Idle)), Iteration(f)) && Valid(Waiting, Idle)
      ensures ret == 0 ==> (m.id == 0 <==> NothingToSend(old(View(Waiting, Idle))))
      ensures ret == 0 && m.id == 0
        ==> View(Waiting, Idle) == Run(old(View(Waiting, Idle)), Iteration(f)) && Valid(Waiting, Idle)
      ensures ret == 0 && m.id != 0 ==> Valid(Waiting, Acked(m))
      ensures ret == 0 && m.id != 0
        ==> Next(View(Waiting, Acked(m)), Dispatch) == Run(old(View(Waiting, Idle)), Iteration(f))
    {
      ghost var s := View(Waiting, Idle);
      if f.RequestLost? {
        RunTwo(s, StartRead, LoseRequest);
        return -1, NONE;
      }
      if f.ReplyLost? {
        m := ReadMessage(true);
        return -1, m;
      }
      ret := 0;
      IterationOutcome(s, f);
      m := ReadMessage(false);
      if m.id != 0 {
        SendAck(m, f.AckLost?);
      }
    }

    // bharc_smbus_block_read of CMFW_SMBUS_REQ, with or without a reply
    method ReadMessage(lost: bool) returns (m: Msg)
      requires Valid(Waiting, Idle)
      modifies this
      ensures dispatched == old(dispatched)
      ensures lost
        ==> View(Waiting, Idle) == Run(old(View(Waiting, Idle)), Iteration(ReplyLost)) && Valid(Waiting, Idle)
      ensures !lost ==> (m.id == 0 <==> NothingToSend(old(View(Waiting, Idle))))
      ensures !lost && m.id == 0 ==> View(Waiting, Idle) == old(View(Waiting, Idle)) && Valid(Waiting, Idle)
      ensures !lost && m.id != 0
        ==> View(Waiting, Got(m)) == Fetched(old(View(Waiting, Idle))) && Valid(Waiting, Got(m))
    {
      ghost var s := View(Waiting, Idle);
      m := ServeRequest();
      ghost var h := View(Answered, Reading);
      if lost {
        RunParts(s, StartRead, [Pick, Clear, Fill], [LoseReply]);
        RunOne(h, LoseReply);
        StepKeepsInv(h, LoseReply);
        assert View(Waiting, Idle) == Next(h, LoseReply);
      } else if m.id != 0 {
        StepKeepsInv(h, Reply);
        assert View(Waiting, Got(m)) == Next(h, Reply);
      }
    }

    // The request reaches the sender.
    method ServeRequest() returns (m: Msg)
      requires Valid(Waiting, Idle)
      modifies this
      ensures View(Answered, Reading) == Handle(Next(old(View(Waiting, Idle)), StartRead)) && Valid(Answered, Reading)
      ensures dispatched == old(dispatched) && m == currMsg && (m.id == 0 <==> !currMsgValid)
      ensures m.id == 0 <==> NothingToSend(old(View(Waiting, Idle)))
      ensures m.id == 0 ==> View(Waiting, Idle) == old(View(Waiting, Idle))
    {
      ghost var s := View(Waiting, Idle);
      StepKeepsInv(s, StartRead);
      ghost var r := View(Waiting, Reading);
      assert r == Next(s, StartRead) && (NothingToSend(r) <==> NothingToSend(s));
      HandleEffect(r);
      m := ReqHandler();
    }

    method SendAck(m: Msg, lost: bool)
      requires Valid(Waiting, Got(m))
      modifies this
      ensures Valid(Waiting, Acked(m))
      ensures lost ==> View(Waiting, Acked(m)) == Next(old(View(Waiting, Got(m))), LoseAck)
      ensures !lost ==> View(Waiting, Acked(m)) == Next(old(View(Waiting, Got(m))), Ack)
      ensures dispatched == old(dispatched)
    {
      if lost {
        StepKeepsInv(View(Waiting, Got(m)), LoseAck);
        assert View(Waiting, Acked(m)) == Next(View(Waiting, Got(m)), LoseAck);
      } else {
        ghost var s := View(Waiting, Got(m));
        StepKeepsInv(s, Ack);
        var _ := AckHandler(m.id, m.seqNum, 2);
        assert View(Waiting, Acked(m)) == Next(s, Ack);
      }
    }

    // One round of process_cm2dm_message; more is false where it leaves its loop.
    method ProcessOne(f: Fault, stop: Msg -> bool) returns (more: bool)
      requires Valid(Waiting, Idle)
      modifies this
      ensures View(Waiting, Idle) == Run(old(View(Waiting, Idle)), Iteration(f)) && Valid(Waiting, Idle)
      ensures more == !Breaks(old(View(Waiting, Idle)), View(Waiting, Idle), f, stop)
    {
      var ret, m := GetMessage(f);
      if ret != 0 {
        return false;
      }
      if m.id == 0 {
        return false;
      }
      var repeated := Deliver(m);
      more := repeated || !stop(m);
    }

    // Drop a message with the last sequence number, hand on any other.
    method Deliver(m: Msg) returns (repeated: bool)
      requires Valid(Waiting, Acked(m))
      modifies this
      ensures Valid(Waiting, Idle) && View(Waiting, Idle) == Next(old(View(Waiting, Acked(m))), Dispatch)
      ensures dispatched == if repeated then old(dispatched) else old(dispatched) + [m]
    {
      ghost var s := View(Waiting, Acked(m));
      StepKeepsInv(s, Dispatch);
      repeated := lastSeqNumValid && lastSeqNum == m.seqNum;
      if !repeated {
        lastSeqNumValid := true;
        lastSeqNum := m.seqNum;
        dispatched := dispatched + [m];
      }
      assert View(Waiting, Idle) == Next(s, Dispatch);
    }

    // process_cm2dm_message: faults[i] is what the i-th fetch meets, stop what the
    // message processors answer, and n how many fetches there are
    method Process(faults: seq<Fault>, stop: Msg -> bool) returns (ghost n: nat)
      requires Valid(Waiting, Idle) && |faults| == COUNT
      modifies this
      ensures Valid(Waiting, Idle)
      ensures View(Waiting, Idle) == Run(old(View(Waiting, Idle)), PollSteps(old(View(Waiting, Idle)), faults, stop))
      ensures Polls(Trace(old(View(Waiting, Idle)), faults), faults, stop, n)
      ensures View(Waiting, Idle) == Trace(old(View(Waiting, Idle)), faults)[n]
      ensures forall j :: |old(dispatched)| <= j < |dispatched| - 1 ==> !stop(dispatched[j])
    {
      ghost var s0 := View(Waiting, Idle);
      Poll(faults, stop);
      n := PollExact(s0, faults, stop);
      StopEndsPoll(s0, faults, stop);
    }

    // Its loop.
    method Poll(faults: seq<Fault>, stop: Msg -> bool)
      requires Valid(Waiting, Idle) && |faults| == COUNT
      modifies this
      ensures Valid(Waiting, Idle)
      ensures View(Waiting, Idle) == Run(old(View(Waiting, Idle)), PollSteps(old(View(Waiting, Idle)), faults, stop))
    {
      ghost var s0 := View(Waiting, Idle);
      ghost var done: seq<Step> := [];
      ghost var all := PollSteps(s0, faults, stop);
      var i := 0;
      var more := true;
      while i < COUNT && more
        invariant i <= COUNT && Valid(Waiting, Idle)
        invariant View(Waiting, Idle) == Run(s0, done)
        invariant all == if more then done + PollSteps(View(Waiting, Idle), faults[i..], stop) else done
        decreases COUNT - i
      {
        PollUnfolds(View(Waiting, Idle), faults[i..], stop, done);
        RunConcat(s0, done, Iteration(faults[i]));
        done := done + Iteration(faults[i]);
        more := ProcessOne(faults[i], stop);
        i := i + 1;
      }
      assert more ==> PollSteps(View(Waiting, Idle), faults[i..], stop) == [];
      assert done + [] == done;
    }
  }

  lemma SomePending(s: Link)
    requires Shaped(s) && s.pending != {}
    ensures NextId(s.pending, s.rr).Some?
  {
    var x :| x in s.pending;
    assert IsId(x);
  }

  lemma PollUnfolds(s: Link, faults: seq<Fault>, stop: Msg -> bool, done: seq<Step>)
    requires |s.next| == COUNT && faults != []
    ensures var it := Iteration(faults[0]);
      var t := Run(s, it);
      done + PollSteps(s, faults, stop)
      == if Breaks(s, t, faults[0], stop) then done + it else (done + it) + PollSteps(t, faults[1..], stop)
  {
    var it := Iteration(faults[0]);
    var t := Run(s, it);
    if !Breaks(s, t, faults[0], stop) {
      assert done + (it + PollSteps(t, faults[1..], stop)) == (done + it) + PollSteps(t, faults[1..], stop);
    }
  }
}
