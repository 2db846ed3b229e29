/** What the invariant means for every reachable state and every run. */
module KernelTheorems {
  import opened Basics
  import opened Counting
  import opened Caps
  import opened Scheduling
  import opened Kernel
  import opened Waiting
  import opened KernelInvariant
  import Objects
  import Ep = Endpoints

  // ---------------------------------------------------------------------------------------
  // Each endpoint is a first-in first-out queue
  // ---------------------------------------------------------------------------------------

  /** From one state to a later one, a channel's logs only grow at the end. */
  ghost predicate Grows(c: Channel, c': Channel) {
    c.accepted <= c'.accepted && c.taken <= c'.taken
  }

  lemma SendGrows(k: State, e: nat, km: Ep.KMessage, f: nat)
    requires InTask(k) && f < |k.channels|
    ensures |IpcSend(k, e, km).0.channels| == |k.channels| && Grows(k.channels[f], IpcSend(k, e, km).0.channels[f])
    ensures IpcSend(k, e, km).0.table == k.table && IpcSend(k, e, km).0.granted == k.granted
  {
  }

  lemma RecvGrows(k: State, e: nat, heap: bool, f: nat)
    requires InTask(k) && f < |k.channels|
    ensures |IpcRecv(k, e, heap).0.channels| == |k.channels| && Grows(k.channels[f], IpcRecv(k, e, heap).0.channels[f])
    ensures IpcRecv(k, e, heap).0.table == k.table && IpcRecv(k, e, heap).0.granted == k.granted
  {
    hide Return, PickNext, CapsAfter;
    if e < NUM_ENDPOINTS {
      var c := k.channels[e];
      var (ep', action) := Ep.Recv(c.ep, k.sched.current.value);
      match action {
        case Got(km) => ReturnIs(Take(PutChannel(k, e, c.(ep := ep', taken := c.taken + [km])), km), km, heap);
        case WakeSender(km, w) =>
          var k1 := PutChannel(k, e, c.(ep := ep', taken := c.taken + [km])).(sched := Unblock(k.sched, w));
          ReturnIs(Take(k1, km), km, heap);
        case _ =>
      }
    }
  }

  lemma StepGrows(k: State, step: Step, k': State, f: nat)
    requires Do(k, step) == Some(k') && f < |k.channels|
    ensures |k'.channels| == |k.channels| && Grows(k.channels[f], k'.channels[f]) && k.granted <= k'.granted
    ensures k'.table == k.table || (exists id, heap :: k'.table == k.table.Create(id, heap).0)
            || (exists r :: k'.table == k.table.Revoke(r).0)
  {
    hide IpcSend, IpcRecv;
    match step {
      case SendCall(handle, payload, capHandle, readable) =>
        var id := EndpointFor(Me(k).caps, k.table, handle, true);
        if id.Ok? {
          SendGrows(k, id.value, Ep.KMessage(payload, None), f);
          var cap := Resolve(Me(k).caps, capHandle);
          if cap.Some? {
            SendGrows(k, id.value, Ep.KMessage(payload, cap), f);
          }
        }
      case RecvCall(handle, writable, heap) =>
        var id := EndpointFor(Me(k).caps, k.table, handle, false);
        if id.Ok? {
          RecvGrows(k, id.value, heap, f);
        }
      case CreateObject(id, heap) =>
        assert k'.table == k.table.Create(id, heap).0;
      case RevokeCall(handle) =>
        var cap := Resolve(Me(k).caps, handle);
        if cap.Some? {
          assert k'.table == k.table.Revoke(cap.value.target).0;
        }
      case _ =>
    }
  }

  /** Over any stretch of a run, an endpoint accepts at the end of its queue and is taken from at the
      head, and in every state what it accepted is what was taken and what is pending, in one order:
      nothing is reordered, dropped or duplicated. */
  lemma {:induction false} EndpointIsFifo(ks: seq<State>, steps: seq<Step>, a: nat, b: nat, e: nat)
    requires IsRun(ks, steps) && a <= b < |ks| && e < NUM_ENDPOINTS
    ensures |ks[a].channels| == NUM_ENDPOINTS == |ks[b].channels|
    ensures Grows(ks[a].channels[e], ks[b].channels[e])
    ensures ks[b].channels[e].accepted == ks[b].channels[e].taken + Ep.Pending(ks[b].channels[e].ep)
    decreases b
  {
    hide Do, Inv, Grows, ChannelOk;
    RunKeeps(ks, steps, a);
    RunKeeps(ks, steps, b);
    ChannelLog(ks[a], e);
    ChannelLog(ks[b], e);
    if a < b {
      EndpointIsFifo(ks, steps, a, b - 1, e);
      assert Do(ks[b - 1], steps[b - 1]) == Some(ks[b - 1 + 1]);
      StepGrows(ks[b - 1], steps[b - 1], ks[b], e);
      GrowsTwice(ks[a].channels[e], ks[b - 1].channels[e], ks[b].channels[e]);
    } else {
      GrowsNone(ks[a].channels[e]);
    }
  }

  lemma ChannelLog(k: State, e: nat)
    requires Inv(k) && e < NUM_ENDPOINTS
    ensures |k.channels| == NUM_ENDPOINTS && k.channels[e].accepted == k.channels[e].taken + Ep.Pending(k.channels[e].ep)
  {
    assert ChannelOk(k.channels[e]);
  }

  lemma GrowsNone(c: Channel)
    ensures Grows(c, c)
  {
  }

  lemma GrowsTwice(c: Channel, c': Channel, c'': Channel)
    requires Grows(c, c') && Grows(c', c'')
    ensures Grows(c, c'')
  {
  }

  /** A send that is not refused adds exactly its message to the endpoint it names, and hands it over
      at once only past an empty queue; a refused one changes nothing. */
  lemma SendAppends(k: State, e: nat, km: Ep.KMessage)
    requires Inv(k) && InProgram(k) && e < NUM_ENDPOINTS
    ensures var (k', outcome) := IpcSend(k, e, km);
            var c, c' := k.channels[e], k'.channels[e];
            && (outcome.Failed? <==> Ep.Send(c.ep, k.sched.current.value, km).1.Full?)
            && (outcome.Failed? ==> k' == k && outcome.error == OutOfResources)
            && (!outcome.Failed? ==> c'.accepted == c.accepted + [km])
            && (c'.taken != c.taken ==> Ep.Pending(c.ep) == [] && c'.taken == c.taken + [km])
            && (outcome.Parked? ==> |c.ep.ring| == Ep.RING_CAP)
  {
    assert ChannelOk(k.channels[e]);
    Ep.SendIsAppend(k.channels[e].ep, k.sched.current.value, km);
  }

  /** A receive takes the head of the endpoint's queue for its caller, who gets it exactly when the
      call succeeds; it parks exactly when there is no head and there is room to wait. */
  lemma RecvTakesHead(k: State, e: nat, heap: bool)
    requires Inv(k) && InProgram(k) && e < NUM_ENDPOINTS
    ensures var (k', outcome) := IpcRecv(k, e, heap);
            var me, c, c' := k.sched.current.value, k.channels[e], k'.channels[e];
            && (Ep.Pending(c.ep) == [] ==>
                  c'.taken == c.taken && (outcome == Parked || (k' == k && outcome == Failed(OutOfResources))))
            && (Ep.Pending(c.ep) != [] ==>
                  var head := Ep.Pending(c.ep)[0];
                  && c'.taken == c.taken + [head] && Ep.Pending(c'.ep) == Ep.Pending(c.ep)[1..] && !outcome.Parked?
                  && me < |k'.sched.tasks| && k'.sched.tasks[me].receipts == Me(k).receipts + [Receipt(head, outcome == Done)])
  {
    hide Return, Ep.Recv, FlowOk, SchedOk, CapsAfter, Park, Ep.Coherent, QueuesOk;
    RunnerOk(k);
    ChannelPart(k, e);
    var me, c := k.sched.current.value, k.channels[e];
    Ep.RecvIsTake(c.ep, me);
    var (ep', action) := Ep.Recv(c.ep, me);
    match action {
      case Got(km) =>
        ReturnIs(Take(PutChannel(k, e, c.(ep := ep', taken := c.taken + [km])), km), km, heap);
      case WakeSender(km, w) =>
        WokenIsNotMe(k, e);
        var k1 := PutChannel(k, e, c.(ep := ep', taken := c.taken + [km])).(sched := Unblock(k.sched, w));
        ReturnIs(Take(k1, km), km, heap);
      case _ =>
    }
  }

  /** A message a receive takes at once fails to reach its caller exactly when it carries a capability
      and the heap cannot grow the caller's table, which never has a gap for it. Such a message is
      gone: it has left the endpoint, and no table has its capability for it. */
  lemma TakenIsLostIff(k: State, e: nat, heap: bool)
    requires Inv(k) && InProgram(k) && e < NUM_ENDPOINTS && Ep.Pending(k.channels[e].ep) != []
    ensures var (k', outcome) := IpcRecv(k, e, heap);
            var me, head := k.sched.current.value, Ep.Pending(k.channels[e].ep)[0];
            var lost := head.cap.Some? && FreeHandle(Me(k).caps) == |Me(k).caps| && !heap;
            && me < |k'.sched.tasks| && k'.sched.tasks[me].receipts == Me(k).receipts + [Receipt(head, !lost)]
            && FreeHandle(Me(k).caps) == |Me(k).caps|
            && outcome == (if head.cap.Some? && !heap then Failed(OutOfResources) else Done)
            && (outcome.Failed? ==> k'.sched.tasks[me].caps == Me(k).caps)
            && (outcome.Done? ==>
                  k'.sched.tasks[me].caps == Me(k).caps + if head.cap.Some? then [Some(head.cap.value)] else [])
  {
    hide Return, Ep.Recv, FlowOk, SchedOk;
    RunnerOk(k);
    ChannelPart(k, e);
    var me, c := k.sched.current.value, k.channels[e];
    Ep.RecvIsTake(c.ep, me);
    var (ep', action) := Ep.Recv(c.ep, me);
    InstallKeepsSeeded(Me(k).caps, Cap(Objects.ObjectRef(0, 0), false, false));
    var head := Ep.Pending(c.ep)[0];
    if head.cap.Some? {
      InstallKeepsSeeded(Me(k).caps, head.cap.value);
    }
    match action {
      case Got(km) =>
        ReturnIs(Take(PutChannel(k, e, c.(ep := ep', taken := c.taken + [km])), km), km, heap);
      case WakeSender(km, w) =>
        WokenIsNotMe(k, e);
        var k1 := PutChannel(k, e, c.(ep := ep', taken := c.taken + [km])).(sched := Unblock(k.sched, w));
        ReturnIs(Take(k1, km), km, heap);
      case _ =>
    }
  }

  /** And so does one that a parked receiver finds in its mailbox. */
  lemma DeliveredIsLostIff(k: State, heap: bool)
    requires Inv(k) && InTask(k) && Me(k).resume.InRecv?
    ensures Me(k).mailbox.Some? && Resume(k, heap).Some?
    ensures var (k', outcome) := Resume(k, heap).value;
            var me, km := k.sched.current.value, Me(k).mailbox.value;
            && me < |k'.sched.tasks|
            && k'.sched.tasks[me].receipts == Me(k).receipts + [Receipt(km, outcome.Done?)]
            && outcome == (if km.cap.Some? && !heap then Failed(OutOfResources) else Done)
            && k'.sched.tasks[me].caps == Me(k).caps + if outcome.Done? && km.cap.Some? then [Some(km.cap.value)] else []
  {
    hide Return, FlowOk, SchedOk;
    RunnerOk(k);
    var km := Me(k).mailbox.value;
    ReturnIs(PutMe(k, Me(k).(resume := User, mailbox := None)), km, heap);
    if km.cap.Some? {
      InstallKeepsSeeded(Me(k).caps, km.cap.value);
    }
  }

  /** A run that loses one: a task sends itself a message that carries its only capability, and
      receives it when the heap is exhausted. */
  lemma LastCapabilityIsLost() returns (ks: seq<State>, steps: seq<Step>)
    ensures IsRun(ks, steps) && |steps| == 5 && steps[4] == RecvCall(1, true, false)
    ensures InTask(ks[4]) && SysRecv(ks[4], 1, true, false).1 == Failed(OutOfResources)
    ensures var km := Ep.KMessage(7, Some(Cap(Objects.ObjectRef(0, 0), true, true)));
            && ks[4].channels[0].accepted == [km] && Ep.Pending(ks[4].channels[0].ep) == [km]
            && Ep.Pending(ks[5].channels[0].ep) == [] && ks[5].sched.tasks[0].receipts == [Receipt(km, false)]
  {
    var cap := Cap(Objects.ObjectRef(0, 0), true, true);
    steps := [CreateObject(0, true), SpawnTask(None, [cap]), Start, SendCall(1, 7, 1, true), RecvCall(1, true, false)];
    var k0 := Boot(0);
    var k1 := Do(k0, steps[0]).value;
    var k2 := Do(k1, steps[1]).value;
    var k3 := Do(k2, steps[2]).value;
    var k4 := Do(k3, steps[3]).value;
    assert Me(k4).caps == [None, Some(cap)];
    assert FreeHandle(Me(k4).caps) == 2;
    var k5 := Do(k4, steps[4]).value;
    ks := [k0, k1, k2, k3, k4, k5];
  }

  lemma ChannelPart(k: State, e: nat)
    requires Inv(k) && e < NUM_ENDPOINTS
    ensures ChannelOk(k.channels[e]) && QueuesOk(k.sched.tasks, e, k.channels[e].ep)
  {
  }

  lemma WokenIsNotMe(k: State, e: nat)
    requires Inv(k) && InTask(k) && e < NUM_ENDPOINTS && Ep.Recv(k.channels[e].ep, k.sched.current.value).1.WakeSender?
    ensures Ep.Recv(k.channels[e].ep, k.sched.current.value).1.task != k.sched.current.value
    ensures ParkedAt(k.sched.tasks, Ep.Recv(k.channels[e].ep, k.sched.current.value).1.task, InSend(e))
  {
    RunnerOk(k);
    ChannelPart(k, e);
    assert ParkedAt(k.sched.tasks, k.channels[e].ep.senders[0].task, InSend(e));
  }

  // ---------------------------------------------------------------------------------------
  // No wakeup is lost
  // ---------------------------------------------------------------------------------------

  /** In how many places of the endpoint's two queues a task stands. */
  function Places(ep: Ep.Ep, i: nat): nat {
    multiset(ep.receivers)[i] + multiset(SenderTasks(ep.senders))[i]
  }

  function SenderTasks(q: seq<Ep.Waiter>): (r: seq<nat>)
    ensures |r| == |q| && forall n :: 0 <= n < |r| ==> r[n] == q[n].task
  {
    seq(|q|, n requires 0 <= n < |q| => q[n].task)
  }

  lemma {:induction false} OnceIfDistinct(q: seq<nat>, i: nat)
    requires Distinct(q)
    ensures multiset(q)[i] == if i in q then 1 else 0
  {
    if q != [] {
      var rest, last := q[..|q| - 1], q[|q| - 1];
      OnceIfDistinct(rest, i);
      assert q == rest + [last];
      assert last !in rest;
    }
  }

  lemma PlacesAre(k: State, e: nat, i: nat)
    requires Inv(k) && e < NUM_ENDPOINTS && i < |k.sched.tasks|
    ensures Places(k.channels[e].ep, i) ==
            if k.sched.tasks[i].state == Blocked && k.sched.tasks[i].resume in {InSend(e), InRecv(e)} then 1 else 0
  {
    hide ChannelOk, SchedOk, TallyOk, AuthOk;
    var ep, t := k.channels[e].ep, k.sched.tasks[i];
    ChannelPart(k, e);
    assert TaskOk(k.channels, i, t);
    OnceIfDistinct(ep.receivers, i);
    OnceIfDistinct(SenderTasks(ep.senders), i);
    if i in ep.receivers {
      var n :| 0 <= n < |ep.receivers| && ep.receivers[n] == i;
      assert ParkedAt(k.sched.tasks, ep.receivers[n], InRecv(e));
    }
    if i in SenderTasks(ep.senders) {
      var n :| 0 <= n < |ep.senders| && ep.senders[n].task == i;
      assert ParkedAt(k.sched.tasks, ep.senders[n].task, InSend(e));
    }
    if Ep.HasSender(ep.senders, i) {
      var n :| 0 <= n < |ep.senders| && ep.senders[n].task == i;
      assert SenderTasks(ep.senders)[n] == i;
    }
  }

  /** A task stands in exactly one place of all the queues while it is blocked, and in none while it
      is not; and it is the queue of the call it parked in. */
  lemma BlockedIsQueuedOnce(ks: seq<State>, steps: seq<Step>, n: nat, i: nat)
    requires IsRun(ks, steps) && n < |ks| && i < |ks[n].sched.tasks|
    ensures |ks[n].channels| == NUM_ENDPOINTS
    ensures Sum(ks[n].channels, (c: Channel) => Places(c.ep, i)) == if ks[n].sched.tasks[i].state == Blocked then 1 else 0
  {
    hide Inv, Places, IsRun;
    RunKeeps(ks, steps, n);
    var k := ks[n];
    WaitsSomewhere(k, i);
    PlacesAre(k, 0, i);
    PlacesAre(k, 1, i);
    PlacesAre(k, 2, i);
    PlacesAre(k, 3, i);
    SumOfFour(k.channels, i);
  }

  lemma WaitsSomewhere(k: State, i: nat)
    requires Inv(k) && i < |k.sched.tasks|
    ensures |k.channels| == NUM_ENDPOINTS
    ensures k.sched.tasks[i].state == Blocked ==>
              exists e :: 0 <= e < NUM_ENDPOINTS && k.sched.tasks[i].resume in {InSend(e), InRecv(e)}
  {
    var t := k.sched.tasks[i];
    assert TaskOk(k.channels, i, t);
    if t.state == Blocked {
      var e := if t.resume.InSend? || t.resume.InRecv? then t.resume.ep else 0;
      assert t.resume in {InSend(e), InRecv(e)};
    }
  }

  lemma SumOfFour(channels: seq<Channel>, i: nat)
    requires |channels| == NUM_ENDPOINTS
    ensures Sum(channels, (c: Channel) => Places(c.ep, i)) ==
            Places(channels[0].ep, i) + Places(channels[1].ep, i) + Places(channels[2].ep, i) + Places(channels[3].ep, i)
  {
    var f := (c: Channel) => Places(c.ep, i);
    assert channels[..3][..2] == channels[..2] && channels[..2][..1] == channels[..1] && channels[..1][..0] == [];
    assert Sum(channels[..1], f) == Places(channels[0].ep, i);
    assert Sum(channels[..2], f) == Sum(channels[..1], f) + Places(channels[1].ep, i);
    assert Sum(channels[..3], f) == Sum(channels[..2], f) + Places(channels[2].ep, i);
  }

  /** Receivers wait only at an empty ring and senders only at a full one; whoever is first in a
      queue is blocked with an empty mailbox; and a task that is picked again can go on: a receiver
      woken without a message does not exist. */
  lemma WaitersAreWakeable(ks: seq<State>, steps: seq<Step>, n: nat, e: nat, heap: bool)
    requires IsRun(ks, steps) && n < |ks| && e < NUM_ENDPOINTS
    ensures |ks[n].channels| == NUM_ENDPOINTS
    ensures var k := ks[n];
            var ep := k.channels[e].ep;
            && (ep.receivers != [] ==> ep.ring == []) && (ep.senders != [] ==> |ep.ring| == Ep.RING_CAP)
            && (forall i :: 0 <= i < |ep.receivers| ==>
                  ParkedAt(k.sched.tasks, ep.receivers[i], InRecv(e)) && k.sched.tasks[ep.receivers[i]].mailbox.None?)
            && (forall i :: 0 <= i < |ep.senders| ==> ParkedAt(k.sched.tasks, ep.senders[i].task, InSend(e)))
            && (InTask(k) && Me(k).resume != User ==> Do(k, ResumeCall(heap)).Some?)
  {
    hide SchedOk, TallyOk, AuthOk, IsRun;
    RunKeeps(ks, steps, n);
    var k := ks[n];
    var ep := k.channels[e].ep;
    ChannelPart(k, e);
    forall i | 0 <= i < |ep.receivers|
      ensures k.sched.tasks[ep.receivers[i]].mailbox.None?
    {
      assert ParkedAt(k.sched.tasks, ep.receivers[i], InRecv(e));
      assert TaskOk(k.channels, ep.receivers[i], k.sched.tasks[ep.receivers[i]]);
    }
    if InTask(k) {
      ResumeKeeps(k, heap);
    }
  }

  // ---------------------------------------------------------------------------------------
  // Conservation
  // ---------------------------------------------------------------------------------------

  lemma {:induction false} AcceptedIsTakenOrPending(channels: seq<Channel>)
    requires forall e :: 0 <= e < |channels| ==> ChannelOk(channels[e])
    ensures Sum(channels, AcceptedOne) == Sum(channels, TakenOne) + Sum(channels, PendingOne)
  {
    if channels != [] {
      AcceptedIsTakenOrPending(channels[..|channels| - 1]);
      assert ChannelOk(channels[|channels| - 1]);
    }
  }

  /** Messages are conserved in every reachable state: what was delivered, buffered or blocked on is
      what was received, lies in mailboxes or is still queued; sends lag by the senders that have
      not gone on; parks lag wakeups by the tasks now blocked; every blocked receive was delivered to, or
      blocks still; the capabilities counted are those the accepted messages carry; and no task ever
      dies in a queue. */
  lemma MessagesConserved(ks: seq<State>, steps: seq<Step>, n: nat)
    requires IsRun(ks, steps) && n < |ks|
    ensures var k := ks[n];
            var accepted := k.tally.delivered + k.tally.buffered + Sum(k.channels, SendBlocksOne);
            && accepted == k.tally.received + Sum(k.sched.tasks, MailOne) + Sum(k.channels, PendingOne)
            && k.tally.sent + Sum(k.sched.tasks, SendingOne) == accepted
            && k.sched.blocks == k.sched.wakeups + Sum(k.sched.tasks, BlockedOne)
            && k.tally.recvBlocks == k.tally.delivered + Sum(k.sched.tasks, AwaitingOne)
            && k.tally.capsMoved == Sum(k.channels, CarryingOne)
            && k.tally.diedBlocked == 0
  {
    RunKeeps(ks, steps, n);
    AcceptedIsTakenOrPending(ks[n].channels);
  }

  function TakenOf(km: Ep.KMessage): Channel -> nat {
    (c: Channel) => multiset(c.taken)[km]
  }

  function GivenTo(km: Ep.KMessage): Task -> nat {
    (t: Task) => multiset(t.given)[km]
  }

  /** What was taken from endpoints was handed to tasks: every message the same number of times. */
  ghost predicate HandedOver(tasks: seq<Task>, channels: seq<Channel>, km: Ep.KMessage) {
    Sum(channels, TakenOf(km)) == Sum(tasks, GivenTo(km))
  }

  lemma QuietHands(tasks: seq<Task>, tasks': seq<Task>, channels: seq<Channel>, km: Ep.KMessage)
    requires HandedOver(tasks, channels, km) && Quiet(tasks, tasks')
    ensures HandedOver(tasks', channels, km)
  {
    forall i | 0 <= i < |tasks|
      ensures GivenTo(km)(tasks'[i]) == GivenTo(km)(tasks[i])
    {
      assert QuietSlot(tasks[i], tasks'[i]);
    }
    SumSame(tasks, tasks', GivenTo(km));
  }

  /** A channel whose taken messages stay, a slot whose given messages stay. */
  lemma NothingHanded(tasks: seq<Task>, channels: seq<Channel>, km: Ep.KMessage, e: nat, c: Channel, i: nat, t: Task)
    requires HandedOver(tasks, channels, km) && e < |channels| && c.taken == channels[e].taken
    requires i < |tasks| && t.given == tasks[i].given
    ensures HandedOver(tasks[i := t], channels[e := c], km) && HandedOver(tasks, channels[e := c], km)
    ensures HandedOver(tasks[i := t], channels, km)
  {
    SumUpdate(channels, e, c, TakenOf(km));
    SumUpdate(tasks, i, t, GivenTo(km));
  }

  lemma OneHanded(tasks: seq<Task>, channels: seq<Channel>, km: Ep.KMessage, e: nat, c: Channel, i: nat, t: Task, m: Ep.KMessage)
    requires HandedOver(tasks, channels, km) && e < |channels| && c.taken == channels[e].taken + [m]
    requires i < |tasks| && t.given == tasks[i].given + [m]
    ensures HandedOver(tasks[i := t], channels[e := c], km)
  {
    SumUpdate(channels, e, c, TakenOf(km));
    SumUpdate(tasks, i, t, GivenTo(km));
    assert multiset(c.taken)[km] == multiset(channels[e].taken)[km] + if m == km then 1 else 0;
    assert multiset(t.given)[km] == multiset(tasks[i].given)[km] + if m == km then 1 else 0;
  }

  lemma SendHands(k: State, e: nat, m: Ep.KMessage, km: Ep.KMessage)
    requires Inv(k) && InProgram(k) && HandedOver(k.sched.tasks, k.channels, km)
    ensures HandedOver(IpcSend(k, e, m).0.sched.tasks, IpcSend(k, e, m).0.channels, km)
  {
    hide HandedOver, Park, SchedOk, TallyOk, AuthOk, Ep.Send, Quiet;
    if e < NUM_ENDPOINTS {
      var me, c := k.sched.current.value, k.channels[e];
      var (ep', action) := Ep.Send(c.ep, me, m);
      match action {
        case Deliver(w) =>
          HeadReceiver(k, e, m);
          var t := k.sched.tasks[w].(mailbox := Some(m), given := k.sched.tasks[w].given + [m]);
          var c' := c.(ep := ep', accepted := c.accepted + [m], taken := c.taken + [m]);
          assert DeliverTo(k.sched, w, m).tasks == k.sched.tasks[w := t.(state := Ready)];
          OneHanded(k.sched.tasks, k.channels, km, e, c', w, t.(state := Ready), m);
        case Buffered =>
          NothingHanded(k.sched.tasks, k.channels, km, e, c.(ep := ep', accepted := c.accepted + [m]), me, Me(k));
        case Block =>
          var t := Me(k).(state := Blocked, resume := InSend(e));
          var c' := c.(ep := ep', accepted := c.accepted + [m], sendBlocks := c.sendBlocks + 1);
          NothingHanded(k.sched.tasks, k.channels, km, e, c', me, t);
          ParkIsQuiet(k.sched, InSend(e));
          QuietHands(k.sched.tasks[me := t], Park(k.sched, InSend(e)).tasks, k.channels[e := c'], km);
        case Full =>
      }
    }
  }

  lemma HeadReceiver(k: State, e: nat, m: Ep.KMessage)
    requires Inv(k) && InTask(k) && e < NUM_ENDPOINTS && Ep.Send(k.channels[e].ep, k.sched.current.value, m).1.Deliver?
    ensures ParkedAt(k.sched.tasks, Ep.Send(k.channels[e].ep, k.sched.current.value, m).1.task, InRecv(e))
  {
    ChannelPart(k, e);
    assert ParkedAt(k.sched.tasks, k.channels[e].ep.receivers[0], InRecv(e));
  }

  lemma RecvHands(k: State, e: nat, heap: bool, km: Ep.KMessage)
    requires Inv(k) && InProgram(k) && HandedOver(k.sched.tasks, k.channels, km)
    ensures HandedOver(IpcRecv(k, e, heap).0.sched.tasks, IpcRecv(k, e, heap).0.channels, km)
  {
    hide HandedOver, Park, Inv, Ep.Recv, Return, CapsAfter, Quiet;
    if e < NUM_ENDPOINTS {
      var me, c := k.sched.current.value, k.channels[e];
      var (ep', action) := Ep.Recv(c.ep, me);
      match action {
        case Got(m) =>
          var c' := c.(ep := ep', taken := c.taken + [m]);
          ReturnIs(Take(PutChannel(k, e, c'), m), m, heap);
          var t := Receiving(Me(k), m, heap);
          OneHanded(k.sched.tasks, k.channels, km, e, c', me, t, m);
          assert IpcRecv(k, e, heap).0.sched.tasks == k.sched.tasks[me := t];
        case WakeSender(m, w) =>
          WokenIsNotMe(k, e);
          var c' := c.(ep := ep', taken := c.taken + [m]);
          var k1 := PutChannel(k, e, c').(sched := Unblock(k.sched, w));
          ReturnIs(Take(k1, m), m, heap);
          var tasks := k.sched.tasks[w := k.sched.tasks[w].(state := Ready)];
          NothingHanded(k.sched.tasks, k.channels, km, e, c, w, k.sched.tasks[w].(state := Ready));
          var t := Receiving(Me(k), m, heap);
          OneHanded(tasks, k.channels, km, e, c', me, t, m);
          assert IpcRecv(k, e, heap).0.sched.tasks == tasks[me := t];
        case Wait =>
          var t := Me(k).(state := Blocked, resume := InRecv(e));
          var c' := c.(ep := ep');
          NothingHanded(k.sched.tasks, k.channels, km, e, c', me, t);
          ParkIsQuiet(k.sched, InRecv(e));
          QuietHands(k.sched.tasks[me := t], Park(k.sched, InRecv(e)).tasks, k.channels[e := c'], km);
        case NoRoom =>
      }
    }
  }

  lemma StepHands(k: State, step: Step, k': State, km: Ep.KMessage)
    requires Inv(k) && Do(k, step) == Some(k') && HandedOver(k.sched.tasks, k.channels, km)
    ensures HandedOver(k'.sched.tasks, k'.channels, km)
  {
    hide HandedOver, IpcSend, IpcRecv, Return, CapsAfter, SysExit, Quiet, FlowOk, ReadyAfter, ReadyFrom;
    match step {
      case SpawnTask(space, grants) => SpawnHands(k.sched, k.channels, space, Granted(grants), km);
      case CreateObject(_, _) =>
      case Start =>
        StartIsQuiet(k.sched);
        QuietHands(k.sched.tasks, k'.sched.tasks, k.channels, km);
      case Settle =>
        WaitPart(k);
        SettleIsQuiet(k.sched, k.channels);
        QuietHands(k.sched.tasks, k'.sched.tasks, k.channels, km);
      case Switch =>
        RescheduleIsQuiet(k.sched);
        QuietHands(k.sched.tasks, k'.sched.tasks, k.channels, km);
      case SendCall(handle, payload, capHandle, readable) =>
        var id := EndpointFor(Me(k).caps, k.table, handle, true);
        if id.Ok? {
          SendHands(k, id.value, Ep.KMessage(payload, None), km);
          SendHands(k, id.value, Ep.KMessage(payload, Resolve(Me(k).caps, capHandle)), km);
        }
      case RecvCall(handle, writable, heap) =>
        var id := EndpointFor(Me(k).caps, k.table, handle, false);
        if id.Ok? {
          RecvHands(k, id.value, heap, km);
        }
      case RevokeCall(_) =>
      case ResumeCall(heap) => ResumeHands(k, heap, km);
      case ExitCall =>
        RunnerOk(k);
        ExitFindsNothing(k);
        ExitIsQuiet(k.sched);
        QuietHands(k.sched.tasks, k'.sched.tasks, k.channels, km);
    }
  }

  lemma SpawnHands(s: Sched, channels: seq<Channel>, space: Option<nat>, caps: CapTable, km: Ep.KMessage)
    requires HandedOver(s.tasks, channels, km)
    ensures HandedOver(Spawn(s, space, caps).tasks, channels, km)
  {
    SumAppend(s.tasks, Spawn(s, space, caps).tasks[|s.tasks|], GivenTo(km));
  }

  lemma ResumeHands(k: State, heap: bool, km: Ep.KMessage)
    requires Inv(k) && InTask(k) && HandedOver(k.sched.tasks, k.channels, km)
    ensures Resume(k, heap).Some? ==> HandedOver(Resume(k, heap).value.0.sched.tasks, Resume(k, heap).value.0.channels, km)
  {
    hide HandedOver, Return, CapsAfter;
    var me, t := k.sched.current.value, Me(k);
    if t.resume.InSend? {
      NothingHanded(k.sched.tasks, k.channels, km, 0, k.channels[0], me, t.(resume := User));
    } else if t.resume.InRecv? && t.mailbox.Some? {
      var t1 := t.(resume := User, mailbox := None);
      ReturnIs(PutMe(k, t1), t.mailbox.value, heap);
      var t' := t1.(receipts := t1.receipts + [Receipt(t.mailbox.value, Reaches(t1.caps, t.mailbox.value, heap))],
                    caps := CapsAfter(t1.caps, t.mailbox.value, heap));
      NothingHanded(k.sched.tasks, k.channels, km, 0, k.channels[0], me, t');
      assert k.sched.tasks[me := t1][me := t'] == k.sched.tasks[me := t'];
    }
  }

  /** Every message taken from an endpoint went to exactly one task, unaltered: over all endpoints it
      was taken as often as, over all tasks, it was handed out; and what was handed to a task is what
      its receives have taken, in that order, and what lies in its mailbox. */
  lemma {:induction false} TakenIsHandedOver(ks: seq<State>, steps: seq<Step>, n: nat, km: Ep.KMessage, i: nat)
    requires IsRun(ks, steps) && n < |ks|
    ensures Sum(ks[n].channels, TakenOf(km)) == Sum(ks[n].sched.tasks, GivenTo(km))
    ensures i < |ks[n].sched.tasks| ==>
              var t := ks[n].sched.tasks[i];
              t.given == Kms(t.receipts) + if t.mailbox.Some? then [t.mailbox.value] else []
  {
    hide Do, Inv, Sum, TakenOf, GivenTo, Kms;
    RunKeeps(ks, steps, n);
    ReceiptsAre(ks[n], i);
    if n == 0 {
      var root :| ks[0] == Boot(root);
      NothingTakenYet(root, km);
    } else {
      TakenIsHandedOver(ks, steps, n - 1, km, i);
      assert Do(ks[n - 1], steps[n - 1]) == Some(ks[n - 1 + 1]);
      RunKeeps(ks, steps, n - 1);
      StepHands(ks[n - 1], steps[n - 1], ks[n], km);
    }
  }

  lemma ReceiptsAre(k: State, i: nat)
    requires Inv(k)
    ensures i < |k.sched.tasks| ==>
              var t := k.sched.tasks[i];
              t.given == Kms(t.receipts) + if t.mailbox.Some? then [t.mailbox.value] else []
  {
    if i < |k.sched.tasks| {
      assert TaskOk(k.channels, i, k.sched.tasks[i]);
    }
  }

  lemma NothingTakenYet(root: nat, km: Ep.KMessage)
    ensures HandedOver(Boot(root).sched.tasks, Boot(root).channels, km)
  {
    NothingTaken(Boot(root).channels, km);
  }

  lemma {:induction false} NothingTaken(channels: seq<Channel>, km: Ep.KMessage)
    requires forall e :: 0 <= e < |channels| ==> channels[e].taken == []
    ensures Sum(channels, TakenOf(km)) == 0
  {
    if channels != [] {
      NothingTaken(channels[..|channels| - 1], km);
    }
  }

  // ---------------------------------------------------------------------------------------
  // The switch protocol
  // ---------------------------------------------------------------------------------------

  /** In every reachable state: the running task is the one that is current, and no other; the core
      is in its tree, or in the kernel's when it is in none; the slot handed to the successor is not
      the successor's; and a dead task holds its stack and space exactly until it is settled. */
  lemma SwitchesAreSafe(ks: seq<State>, steps: seq<Step>, n: nat, i: nat)
    requires IsRun(ks, steps) && n < |ks| && i < |ks[n].sched.tasks|
    ensures var s := ks[n].sched;
            var t := s.tasks[i];
            && (t.state == Running <==> s.current == Some(i))
            && (s.current == Some(i) ==> s.cr3 == (if t.home.Some? then t.home.value else s.kernelRoot))
            && (s.current.None? ==> s.cr3 == s.kernelRoot)
            && (s.prev.Some? ==> s.prev != s.current)
            && (t.state == Dead && s.prev != Some(i) <==> !t.stack)
            && (t.space == if t.stack then t.home else None)
            && s.reapedStacks == Sum(s.tasks, ReapedStackOne) && s.reapedSpaces == Sum(s.tasks, ReapedSpaceOne)
  {
    RunKeeps(ks, steps, n);
    assert SlotOk(ks[n].sched, i);
    if ks[n].sched.current.Some? {
      assert SlotOk(ks[n].sched, ks[n].sched.current.value);
    }
  }

  /** The space freed when a dead task is settled is not the tree the core is in, is still the dead
      task's, and is nobody else's. */
  lemma ReclaimIsSafe(ks: seq<State>, steps: seq<Step>, n: nat, j: nat)
    requires IsRun(ks, steps) && n < |ks| && ks[n].sched.prev.Some? && ks[n].sched.prev.value < |ks[n].sched.tasks|
    requires ks[n].sched.tasks[ks[n].sched.prev.value].state == Dead && j < |ks[n].sched.tasks|
    ensures var s := ks[n].sched;
            var t := s.tasks[s.prev.value];
            && t.stack && t.space == t.home
            && (t.space.Some? ==> s.cr3 != t.space.value && s.kernelRoot != t.space.value
                                  && (j != s.prev.value ==> s.tasks[j].space != t.space))
  {
    RunKeeps(ks, steps, n);
    var s := ks[n].sched;
    PostSwitchKeeps(s);
    assert SlotOk(s, s.prev.value) && SlotOk(s, j);
    if j < s.prev.value {
      assert s.tasks[j].space.Some? ==> s.tasks[j].space != s.tasks[s.prev.value].space;
    }
  }

  // ---------------------------------------------------------------------------------------
  // Bounded waiting
  // ---------------------------------------------------------------------------------------

  /** How many switches a ready task can still be passed over for, and one. */
  function Rank(s: Sched, i: nat): nat {
    if s.current.Some? && s.current.value < |s.tasks| && i < |s.tasks| then Ahead(s.current.value, i, |s.tasks|)
    else |s.tasks|
  }

  /** A switch that passes over a ready task brings its turn nearer. */
  lemma PassedOverIsNearer(tasks: seq<Task>, from: nat, i: nat)
    requires from < |tasks| && IsReady(tasks, i) && PickNext(tasks, from).Some? && PickNext(tasks, from) != Some(i)
    ensures from != i ==> Ahead(PickNext(tasks, from).value, i, |tasks|) < Ahead(from, i, |tasks|)
  {
    PickNextIsNearest(tasks, from);
    var next := PickNext(tasks, from).value;
    assert Ahead(from, next, |tasks|) <= Ahead(from, i, |tasks|);
  }

  /** What a step does to the order of the slots: it switches as often as it counts, to the nearest
      ready slot, and never to nothing while one is ready. */
  ghost predicate SwitchStep(s: Sched, s': Sched) {
    || (s'.switches == s.switches && s'.current == s.current && |s'.tasks| == |s.tasks|)
    || (s'.switches == s.switches + 1 && |s'.tasks| == |s.tasks| && SwitchedTo(s, s'))
  }

  /** The slot switched to is the next one round the table that was ready, or became so. */
  ghost predicate SwitchedTo(s: Sched, s': Sched) {
    exists left: seq<Task> ::
      && |left| == |s.tasks|
      && (forall i :: 0 <= i < |left| && s.current != Some(i) ==> (IsReady(left, i) <==> IsReady(s.tasks, i)))
      && (s.current.Some? && s.current.value < |left| ==> !IsReady(left, s.current.value) || IsReady(s'.tasks, s.current.value))
      && s'.current == match s.current { case Some(me) => PickNext(left, me) case None => FirstReady(left) }
  }

  lemma StepSwitches(k: State, step: Step, k': State)
    requires Inv(k) && Do(k, step) == Some(k') && !step.SpawnTask?
    ensures SwitchStep(k.sched, k'.sched)
  {
    hide PickNext, FirstReady, IpcSend, IpcRecv, Return, FlowOk, SwitchedTo, SysExit, Reschedule, CapsAfter;
    match step {
      case Start =>
        StartSwitches(k.sched);
      case Switch => RescheduleSwitches(k.sched);
      case ExitCall =>
        ExitFindsNothing(k);
        LeavingSwitches(k.sched, Me(k).(state := Dead), k'.sched);
      case SendCall(handle, payload, capHandle, readable) =>
        var id := EndpointFor(Me(k).caps, k.table, handle, true);
        if id.Ok? {
          SendSwitches(k, id.value, Ep.KMessage(payload, None));
          SendSwitches(k, id.value, Ep.KMessage(payload, Resolve(Me(k).caps, capHandle)));
        }
      case RecvCall(handle, writable, heap) =>
        var id := EndpointFor(Me(k).caps, k.table, handle, false);
        if id.Ok? {
          RecvSwitches(k, id.value, heap);
        }
      case ResumeCall(heap) =>
        if Me(k).mailbox.Some? {
          ReturnIs(PutMe(k, Me(k).(resume := User, mailbox := None)), Me(k).mailbox.value, heap);
        }
      case _ =>
    }
  }

  lemma StartSwitches(s: Sched)
    requires s.current.None? && StartFirst(s).Some?
    ensures SwitchStep(s, StartFirst(s).value)
  {
    var left := s.tasks;
    assert StartFirst(s).value.current == FirstReady(left);
    assert SwitchedTo(s, StartFirst(s).value);
  }

  lemma LeavingSwitches(s: Sched, t: Task, s': Sched)
    requires s.current.Some? && s.current.value < |s.tasks| && t.state != Ready
    requires var left := s.tasks[s.current.value := t];
             s'.current == PickNext(left, s.current.value) && |s'.tasks| == |s.tasks| && s'.switches == s.switches + 1
    ensures SwitchStep(s, s')
  {
    var left := s.tasks[s.current.value := t];
    assert SwitchedTo(s, s');
  }

  lemma RescheduleSwitches(s: Sched)
    requires SchedOk(s) && s.prev.None?
    ensures SwitchStep(s, Reschedule(s).0)
  {
    if s.current.Some? {
      var me := s.current.value;
      assert SlotOk(s, me);
      var next := PickNext(s.tasks, me);
      if next.Some? {
        var left := s.tasks;
        NeverItself(s, me);
        assert SwitchedTo(s, Reschedule(s).0);
      }
    }
  }

  lemma SendSwitches(k: State, e: nat, km: Ep.KMessage)
    requires InTask(k)
    ensures SwitchStep(k.sched, IpcSend(k, e, km).0.sched)
  {
    if e < NUM_ENDPOINTS && Ep.Send(k.channels[e].ep, k.sched.current.value, km).1.Block? {
      LeavingSwitches(k.sched, Me(k).(state := Blocked, resume := InSend(e)), IpcSend(k, e, km).0.sched);
    }
  }

  lemma RecvSwitches(k: State, e: nat, heap: bool)
    requires InTask(k)
    ensures SwitchStep(k.sched, IpcRecv(k, e, heap).0.sched)
  {
    if e < NUM_ENDPOINTS && Ep.Recv(k.channels[e].ep, k.sched.current.value).1.Wait? {
      LeavingSwitches(k.sched, Me(k).(state := Blocked, resume := InRecv(e)), IpcRecv(k, e, heap).0.sched);
    }
  }

  lemma FirstIsLow(tasks: seq<Task>, i: nat)
    requires IsReady(tasks, i)
    ensures FirstReady(tasks).Some? && FirstReady(tasks).value <= i
  {
  }

  /** While a task stays ready, each switch brings its turn at least one nearer, and the core never
      goes to the bootstrap context. */
  lemma RankFalls(s: Sched, s': Sched, i: nat)
    requires SwitchStep(s, s') && IsReady(s.tasks, i) && IsReady(s'.tasks, i) && s.current != Some(i) && s'.current != Some(i)
    requires (s.current.Some? ==> s.current.value < |s.tasks|) && (s'.current.Some? ==> s'.current.value < |s'.tasks|)
    ensures Rank(s', i) + s'.switches <= Rank(s, i) + s.switches
    ensures s.current.Some? ==> s'.current.Some?
    ensures s'.switches > s.switches ==> s'.current.Some?
  {
    if s'.switches > s.switches {
      var left: seq<Task> :|
        && |left| == |s.tasks|
        && (forall j :: 0 <= j < |left| && s.current != Some(j) ==> (IsReady(left, j) <==> IsReady(s.tasks, j)))
        && (s.current.Some? && s.current.value < |left| ==> !IsReady(left, s.current.value) || IsReady(s'.tasks, s.current.value))
        && s'.current == match s.current { case Some(me) => PickNext(left, me) case None => FirstReady(left) };
      assert IsReady(left, i);
      if s.current.Some? {
        PickNextIsNearest(left, s.current.value);
        PassedOverIsNearer(left, s.current.value, i);
      } else {
        FirstIsLow(left, i);
      }
    }
  }

  lemma CurrentInRange(s: Sched, i: nat)
    requires SchedOk(s)
    ensures s.current.Some? ==> s.current.value < |s.tasks|
    ensures IsReady(s.tasks, i) ==> s.current != Some(i)
  {
    if i < |s.tasks| {
      assert SlotOk(s, i);
    }
  }

  /** Over a stretch without spawns in which a task is ready all along, its rank pays for every
      switch. */
  lemma {:induction false} RankPays(ks: seq<State>, steps: seq<Step>, a: nat, b: nat, i: nat)
    requires IsRun(ks, steps) && a <= b < |ks|
    requires forall n :: a <= n < b ==> !steps[n].SpawnTask?
    requires forall n :: a <= n <= b ==> IsReady(ks[n].sched.tasks, i)
    ensures forall n {:trigger ks[n]} :: a <= n <= b ==>
              && (ks[n].sched.current.Some? ==> ks[n].sched.current.value < |ks[n].sched.tasks|)
              && |ks[n].sched.tasks| == |ks[a].sched.tasks|
    ensures Rank(ks[b].sched, i) + ks[b].sched.switches <= Rank(ks[a].sched, i) + ks[a].sched.switches
    ensures ks[a].sched.current.Some? ==> ks[b].sched.current.Some?
    ensures ks[b].sched.switches > ks[a].sched.switches ==> ks[b].sched.current.Some?
    decreases b
  {
    hide Do, Rank, SwitchStep, SchedOk, Inv;
    InvSched(ks, steps, a);
    CurrentInRange(ks[a].sched, i);
    if a < b {
      RankPays(ks, steps, a, b - 1, i);
      var k, k' := ks[b - 1], ks[b];
      assert Do(k, steps[b - 1]) == Some(ks[b - 1 + 1]);
      InvSched(ks, steps, b - 1);
      InvSched(ks, steps, b);
      StepSwitches(k, steps[b - 1], k');
      CurrentInRange(k.sched, i);
      CurrentInRange(k'.sched, i);
      RankFalls(k.sched, k'.sched, i);
      SameSize(k.sched, k'.sched);
    }
  }

  lemma SameSize(s: Sched, s': Sched)
    requires SwitchStep(s, s')
    ensures |s'.tasks| == |s.tasks| && s.switches <= s'.switches
  {
  }

  lemma InvSched(ks: seq<State>, steps: seq<Step>, n: nat)
    requires IsRun(ks, steps) && n < |ks|
    ensures Inv(ks[n]) && SchedOk(ks[n].sched)
  {
    RunKeeps(ks, steps, n);
  }

  /** Waiting is bounded: over a stretch without spawns, a task ready at the start is run within as
      many switches as there are task slots. As long as it has not been, the core has switched fewer
      times than that, and has never gone to the bootstrap context. */
  lemma ReadyRunsSoon(ks: seq<State>, steps: seq<Step>, a: nat, b: nat, i: nat)
    requires IsRun(ks, steps) && a <= b < |ks|
    requires forall n :: a <= n < b ==> !steps[n].SpawnTask?
    requires forall n :: a <= n <= b ==> IsReady(ks[n].sched.tasks, i)
    ensures ks[b].sched.switches - ks[a].sched.switches < |ks[a].sched.tasks|
    ensures ks[a].sched.current.Some? || ks[b].sched.switches > ks[a].sched.switches ==> ks[b].sched.current.Some?
  {
    RankPays(ks, steps, a, b, i);
    assert ks[a].sched == ks[a].sched && ks[b].sched == ks[b].sched;
    RankBounds(ks[a].sched, i);
    RankBounds(ks[b].sched, i);
  }

  lemma RankBounds(s: Sched, i: nat)
    requires i < |s.tasks| && (s.current.Some? ==> s.current.value < |s.tasks|)
    ensures 1 <= Rank(s, i) <= |s.tasks|
  {
  }

  /** A ready task stays ready until it is the one that runs. */
  lemma ReadyUntilRun(k: State, step: Step, k': State, i: nat)
    requires Inv(k) && Do(k, step) == Some(k') && IsReady(k.sched.tasks, i)
    ensures i < |k'.sched.tasks| && k'.sched.tasks[i].state in {Ready, Running}
  {
    hide FlowOk, CapsAfter, SysSend, SysRecv, SysExit, Return, ReadyAfter, ReadyFrom;
    CurrentInRange(k.sched, i);
    match step {
      case SpawnTask(_, _) =>
      case CreateObject(_, _) =>
      case Start =>
      case Settle =>
      case Switch =>
      case SendCall(handle, payload, capHandle, readable) => SysSendLeavesReady(k, handle, payload, capHandle, readable, i);
      case RecvCall(handle, writable, heap) => RecvLeavesReady(k, handle, writable, heap, i);
      case RevokeCall(_) =>
      case ResumeCall(heap) => ResumeLeavesReady(k, heap, i);
      case ExitCall => ExitFindsNothing(k);
    }
  }

  lemma ResumeLeavesReady(k: State, heap: bool, i: nat)
    requires InTask(k) && IsReady(k.sched.tasks, i) && k.sched.current != Some(i)
    ensures Resume(k, heap).Some? ==>
              i < |Resume(k, heap).value.0.sched.tasks| && Resume(k, heap).value.0.sched.tasks[i] == k.sched.tasks[i]
  {
    hide Return;
    if Me(k).mailbox.Some? {
      ReturnIs(PutMe(k, Me(k).(resume := User, mailbox := None)), Me(k).mailbox.value, heap);
    }
  }

  lemma SysSendLeavesReady(k: State, handle: nat, payload: nat, capHandle: nat, readable: bool, i: nat)
    requires InTask(k) && IsReady(k.sched.tasks, i) && k.sched.current != Some(i)
    ensures var s' := SysSend(k, handle, payload, capHandle, readable).0.sched;
            i < |s'.tasks| && s'.tasks[i].state in {Ready, Running}
  {
    hide IpcSend;
    var id := EndpointFor(Me(k).caps, k.table, handle, true);
    if id.Ok? {
      SendLeavesReady(k, id.value, Ep.KMessage(payload, None), i);
      SendLeavesReady(k, id.value, Ep.KMessage(payload, Resolve(Me(k).caps, capHandle)), i);
    }
  }

  /** What parking leaves of the slots: their number, their capabilities, and every other slot
      ready, or running if it was the one picked. */
  lemma ParkShape(s: Sched, resume: Resumption, i: nat)
    requires s.current.Some? && s.current.value < |s.tasks|
    ensures |Park(s, resume).tasks| == |s.tasks|
    ensures i < |s.tasks| ==> Park(s, resume).tasks[i].caps == s.tasks[i].caps
    ensures IsReady(s.tasks, i) && s.current != Some(i) ==> Park(s, resume).tasks[i].state in {Ready, Running}
  {
  }

  lemma DeliverShape(s: Sched, w: nat, km: Ep.KMessage, i: nat)
    ensures |DeliverTo(s, w, km).tasks| == |s.tasks|
    ensures i < |s.tasks| ==> DeliverTo(s, w, km).tasks[i].caps == s.tasks[i].caps
    ensures IsReady(s.tasks, i) ==> DeliverTo(s, w, km).tasks[i].state == Ready
  {
  }

  lemma SendLeavesReady(k: State, e: nat, km: Ep.KMessage, i: nat)
    requires InTask(k) && IsReady(k.sched.tasks, i) && k.sched.current != Some(i)
    ensures var s' := IpcSend(k, e, km).0.sched; i < |s'.tasks| && s'.tasks[i].state in {Ready, Running}
  {
    hide Ep.Send, Park, DeliverTo;
    if e < NUM_ENDPOINTS {
      ParkShape(k.sched, InSend(e), i);
      var (ep', action) := Ep.Send(k.channels[e].ep, k.sched.current.value, km);
      match action {
        case Deliver(w) => DeliverShape(k.sched, w, km, i);
        case _ =>
      }
    }
  }

  lemma RecvLeavesReady(k: State, handle: nat, writable: bool, heap: bool, i: nat)
    requires InTask(k) && IsReady(k.sched.tasks, i) && k.sched.current != Some(i)
    ensures var s' := SysRecv(k, handle, writable, heap).0.sched; i < |s'.tasks| && s'.tasks[i].state in {Ready, Running}
  {
    hide IpcRecv;
    var id := EndpointFor(Me(k).caps, k.table, handle, false);
    if id.Ok? {
      IpcRecvLeavesReady(k, id.value, heap, i);
    }
  }

  lemma IpcRecvLeavesReady(k: State, e: nat, heap: bool, i: nat)
    requires InTask(k) && IsReady(k.sched.tasks, i) && k.sched.current != Some(i)
    ensures var s' := IpcRecv(k, e, heap).0.sched; i < |s'.tasks| && s'.tasks[i].state in {Ready, Running}
  {
    hide Ep.Recv, Park, Return, CapsAfter;
    if e < NUM_ENDPOINTS {
      ParkShape(k.sched, InRecv(e), i);
      var c := k.channels[e];
      var (ep', action) := Ep.Recv(c.ep, k.sched.current.value);
      match action {
        case Got(km) => ReturnIs(Take(PutChannel(k, e, c.(ep := ep', taken := c.taken + [km])), km), km, heap);
        case WakeSender(km, w) =>
          var k1 := PutChannel(k, e, c.(ep := ep', taken := c.taken + [km])).(sched := Unblock(k.sched, w));
          ReturnIs(Take(k1, km), km, heap);
        case _ =>
      }
    }
  }

  /** The same, said of what must happen: once the core has switched as often as there are slots, the
      task has run. */
  lemma RunsWithin(ks: seq<State>, steps: seq<Step>, a: nat, b: nat, i: nat)
    requires IsRun(ks, steps) && a <= b < |ks| && IsReady(ks[a].sched.tasks, i)
    requires forall n :: a <= n < b ==> !steps[n].SpawnTask?
    requires ks[b].sched.switches - ks[a].sched.switches >= |ks[a].sched.tasks|
    ensures exists c :: a < c <= b && RunningAt(ks[c], i)
  {
    if forall c :: a < c <= b ==> !RunningAt(ks[c], i) {
      StaysReady(ks, steps, a, b, i);
      ReadyRunsSoon(ks, steps, a, b, i);
    }
  }

  predicate RunningAt(k: State, i: nat) {
    i < |k.sched.tasks| && k.sched.tasks[i].state == Running
  }

  lemma {:induction false} StaysReady(ks: seq<State>, steps: seq<Step>, a: nat, b: nat, i: nat)
    requires IsRun(ks, steps) && a <= b < |ks| && IsReady(ks[a].sched.tasks, i)
    requires forall c :: a < c <= b ==> !RunningAt(ks[c], i)
    ensures forall n :: a <= n <= b ==> IsReady(ks[n].sched.tasks, i)
    decreases b
  {
    hide Do, Inv;
    if a < b {
      StaysReady(ks, steps, a, b - 1, i);
      assert Do(ks[b - 1], steps[b - 1]) == Some(ks[b - 1 + 1]);
      RunKeeps(ks, steps, b - 1);
      ReadyUntilRun(ks[b - 1], steps[b - 1], ks[b], i);
      assert !RunningAt(ks[b], i);
    }
  }

  // ---------------------------------------------------------------------------------------
  // Authority
  // ---------------------------------------------------------------------------------------

  /** `endpoint_for` answers with an endpoint exactly when the handle names a capability with the
      right asked for whose object still lives; the missing right is reported before the missing
      object; and what it answers with is an endpoint there is. */
  lemma EndpointForAnswers(caps: CapTable, table: Objects.Table, handle: nat, wantSend: bool)
    requires table.Valid()
    ensures var r, cap := EndpointFor(caps, table, handle, wantSend), Resolve(caps, handle);
            && (r.Ok? ==> cap.Some? && (if wantSend then cap.value.send else cap.value.recv)
                          && Objects.Lookup(table.slots, cap.value.target) == Some(r.value) && r.value < NUM_ENDPOINTS)
            && (r == Err(PermissionDenied) <==> cap.Some? && !(if wantSend then cap.value.send else cap.value.recv))
            && (r == Err(BadHandle) <==>
                  cap.None? || ((if wantSend then cap.value.send else cap.value.recv)
                                && Objects.Lookup(table.slots, cap.value.target).None?))
            && (r.Err? ==> r.error in {PermissionDenied, BadHandle})
  {
    var cap := Resolve(caps, handle);
    if cap.Some? && Objects.Lookup(table.slots, cap.value.target).Some? {
      assert table.SlotOk(cap.value.target.index);
    }
  }

  /** Authority is confined: in every reachable state every capability in any table, mailbox, ring or
      wait queue is one granted at a spawn, unchanged; and a live task has its null handle. */
  lemma AuthorityConfined(ks: seq<State>, steps: seq<Step>, n: nat, i: nat, e: nat)
    requires IsRun(ks, steps) && n < |ks| && i < |ks[n].sched.tasks| && e < NUM_ENDPOINTS
    ensures |ks[n].channels| == NUM_ENDPOINTS
    ensures var k := ks[n];
            var t := k.sched.tasks[i];
            && Held(t.caps) <= k.granted
            && (t.mailbox.Some? && t.mailbox.value.cap.Some? ==> t.mailbox.value.cap.value in k.granted)
            && (forall m :: 0 <= m < |Ep.Pending(k.channels[e].ep)| && Ep.Pending(k.channels[e].ep)[m].cap.Some? ==>
                  Ep.Pending(k.channels[e].ep)[m].cap.value in k.granted)
            && (t.state != Dead ==> Seeded(t.caps))
  {
    RunKeeps(ks, steps, n);
    var k := ks[n];
    assert Confined(k.sched.tasks[i], k.granted) && AllCarry(k.channels[e], k.granted) && SlotOk(k.sched, i);
    forall m | 0 <= m < |Ep.Pending(k.channels[e].ep)| && Ep.Pending(k.channels[e].ep)[m].cap.Some?
      ensures Ep.Pending(k.channels[e].ep)[m].cap.value in k.granted
    {
      assert Carries(Ep.Pending(k.channels[e].ep)[m], k.granted);
    }
  }

  /** The capability a step brings to a task came with a message that task received: one that was in
      its mailbox, or at the head of the endpoint it received from. */
  ghost predicate Received(k: State, step: Step, i: nat, cap: Cap) {
    && InTask(k) && k.sched.current == Some(i)
    && (|| (step.ResumeCall? && Me(k).mailbox.Some? && Me(k).mailbox.value.cap == Some(cap))
        || (step.RecvCall? && exists e :: 0 <= e < NUM_ENDPOINTS && Ep.Pending(k.channels[e].ep) != []
                                          && Ep.Pending(k.channels[e].ep)[0].cap == Some(cap)))
  }

  /** A task acquires a capability only by being spawned with it or by receiving a message that
      carries it; no other step gives any task anything. */
  lemma AcquiredByReceiving(k: State, step: Step, k': State, i: nat, cap: Cap)
    requires Inv(k) && Do(k, step) == Some(k') && i < |k'.sched.tasks| && cap in Held(k'.sched.tasks[i].caps)
    requires i < |k.sched.tasks| ==> cap !in Held(k.sched.tasks[i].caps)
    ensures if i < |k.sched.tasks| then Received(k, step, i, cap) else step.SpawnTask? && cap in step.grants
  {
    hide Received, SwitchedTo, Inv, Held;
    if step.SpawnTask? {
      HeldByGrants(step.grants);
    } else {
      StepSwitches(k, step, k');
      StepGives(k, step, k', i, cap);
    }
  }

  lemma StepGives(k: State, step: Step, k': State, i: nat, cap: Cap)
    requires Inv(k) && Do(k, step) == Some(k') && i < |k.sched.tasks| == |k'.sched.tasks| && !step.SpawnTask?
    requires cap !in Held(k.sched.tasks[i].caps) && cap in Held(k'.sched.tasks[i].caps)
    ensures Received(k, step, i, cap)
  {
    hide SchedOk, FlowOk, IpcSend, IpcRecv, CapsAfter, Return, SysExit, ReadyAfter, ReadyFrom;
    match step {
      case SendCall(handle, payload, capHandle, readable) =>
        var id := EndpointFor(Me(k).caps, k.table, handle, true);
        if id.Ok? {
          SendGivesNothing(k, id.value, Ep.KMessage(payload, None), i);
          SendGivesNothing(k, id.value, Ep.KMessage(payload, Resolve(Me(k).caps, capHandle)), i);
        }
      case RecvCall(handle, writable, heap) =>
        var id := EndpointFor(Me(k).caps, k.table, handle, false);
        if id.Ok? && writable {
          EndpointForAnswers(Me(k).caps, k.table, handle, false);
          RecvGives(k, id.value, heap, i, cap);
        }
      case ResumeCall(heap) =>
        if Me(k).mailbox.Some? {
          ReturnIs(PutMe(k, Me(k).(resume := User, mailbox := None)), Me(k).mailbox.value, heap);
          GivesOnlyIts(Me(k).caps, Me(k).mailbox.value, heap);
        }
      case ExitCall => ExitFindsNothing(k);
      case _ =>
    }
  }

  lemma GivesOnlyIts(caps: CapTable, km: Ep.KMessage, heap: bool)
    ensures Held(CapsAfter(caps, km, heap)) <= Held(caps) + if km.cap.Some? then {km.cap.value} else {}
  {
    if km.cap.Some? {
      HeldAfterInstall(caps, km.cap.value);
    }
  }

  lemma SendGivesNothing(k: State, e: nat, km: Ep.KMessage, i: nat)
    requires InTask(k) && i < |k.sched.tasks|
    ensures var s' := IpcSend(k, e, km).0.sched; |s'.tasks| == |k.sched.tasks| && s'.tasks[i].caps == k.sched.tasks[i].caps
  {
    hide Ep.Send, Park, DeliverTo;
    if e < NUM_ENDPOINTS {
      ParkShape(k.sched, InSend(e), i);
      var (ep', action) := Ep.Send(k.channels[e].ep, k.sched.current.value, km);
      match action {
        case Deliver(w) => DeliverShape(k.sched, w, km, i);
        case _ =>
      }
    }
  }

  lemma RecvGives(k: State, e: nat, heap: bool, i: nat, cap: Cap)
    requires Inv(k) && InProgram(k) && e < NUM_ENDPOINTS && i < |k.sched.tasks| && cap !in Held(k.sched.tasks[i].caps)
    ensures |IpcRecv(k, e, heap).0.sched.tasks| == |k.sched.tasks|
    ensures cap in Held(IpcRecv(k, e, heap).0.sched.tasks[i].caps) ==>
              && k.sched.current == Some(i) && Ep.Pending(k.channels[e].ep) != []
              && Ep.Pending(k.channels[e].ep)[0].cap == Some(cap)
  {
    hide Return, PickNext, CapsAfter, Ep.Recv, Inv, Held;
    ChannelPart(k, e);
    var c := k.channels[e];
    Ep.RecvIsTake(c.ep, k.sched.current.value);
    var (ep', action) := Ep.Recv(c.ep, k.sched.current.value);
    match action {
      case Got(km) =>
        ReturnIs(Take(PutChannel(k, e, c.(ep := ep', taken := c.taken + [km])), km), km, heap);
        GivesOnlyIts(Me(k).caps, km, heap);
      case WakeSender(km, w) =>
        WokenIsNotMe(k, e);
        var k1 := PutChannel(k, e, c.(ep := ep', taken := c.taken + [km])).(sched := Unblock(k.sched, w));
        ReturnIs(Take(k1, km), km, heap);
        GivesOnlyIts(Me(k).caps, km, heap);
      case _ =>
    }
  }

  /** A message carries a capability only out of the table of the task that sent it. */
  lemma CarriedFromHolder(k: State, handle: nat, payload: nat, capHandle: nat, readable: bool, e: nat)
    requires Inv(k) && InProgram(k) && e < NUM_ENDPOINTS
    ensures var k' := SysSend(k, handle, payload, capHandle, readable).0;
            && e < |k'.channels|
            && (k'.channels[e].accepted != k.channels[e].accepted ==>
                  && |k'.channels[e].accepted| == |k.channels[e].accepted| + 1
                  && var km := k'.channels[e].accepted[|k.channels[e].accepted|];
                     km.cap.Some? ==> km.cap.value in Held(Me(k).caps) && km.cap == Resolve(Me(k).caps, capHandle))
  {
    hide Inv;
    if Resolve(Me(k).caps, capHandle).Some? {
      ResolvedIsHeld(Me(k).caps, capHandle);
    }
  }

  // ---------------------------------------------------------------------------------------
  // Revocation
  // ---------------------------------------------------------------------------------------

  lemma TableStep(t: Objects.Table, t': Objects.Table)
    requires t.Valid()
    requires t' == t || (exists id, heap :: t' == t.Create(id, heap).0) || (exists r :: t' == t.Revoke(r).0)
    ensures Objects.Later(t, t')
  {
  }

  /** Over a run the object table only gains slots and mints, and its epochs only rise. */
  lemma {:induction false} TableMovesOn(ks: seq<State>, steps: seq<Step>, a: nat, b: nat)
    requires IsRun(ks, steps) && a <= b < |ks|
    ensures ks[a].table.Valid() && ks[b].table.Valid() && Objects.Later(ks[a].table, ks[b].table)
    decreases b
  {
    hide Do, FlowOk, SchedOk;
    RunKeeps(ks, steps, a);
    RunKeeps(ks, steps, b);
    if a < b {
      TableMovesOn(ks, steps, a, b - 1);
      var k, k' := ks[b - 1], ks[b];
      assert Do(k, steps[b - 1]) == Some(ks[b - 1 + 1]);
      RunKeeps(ks, steps, b - 1);
      StepGrows(k, steps[b - 1], k', 0);
      TableStep(k.table, k'.table);
    }
  }

  /** Revocation reaches everyone: in every state after some task has revoked a minted object, a
      capability naming it yields an endpoint, whichever table it is in and however it got there,
      exactly when it has the right and its slot is in use again after a whole number of turns of
      the generations. */
  lemma RevokedForEveryone(ks: seq<State>, steps: seq<Step>, a: nat, b: nat, m: Objects.Mint,
                           caps: CapTable, handle: nat, wantSend: bool)
    requires IsRun(ks, steps) && a < b < |ks| && m in ks[a].table.minted
    requires InTask(ks[a]) && steps[a].RevokeCall? && Resolve(Me(ks[a]).caps, steps[a].handle).Some?
    requires Resolve(Me(ks[a]).caps, steps[a].handle).value.target == m.Ref()
    requires Resolve(caps, handle).Some? && Resolve(caps, handle).value.target == m.Ref()
    ensures var cap := Resolve(caps, handle).value;
            EndpointFor(caps, ks[b].table, handle, wantSend).Ok? <==>
            (if wantSend then cap.send else cap.recv) && Objects.TurnedRound(ks[b].table, m)
  {
    hide FlowOk, SchedOk, Objects.TurnedRound;
    TableMovesOn(ks, steps, a, a);
    TableMovesOn(ks, steps, a, a + 1);
    TableMovesOn(ks, steps, a + 1, b);
    assert Do(ks[a], steps[a]) == Some(ks[a + 1]);
    Objects.OnceRevoked(ks[a].table, ks[a + 1].table, ks[b].table, m);
  }
}
