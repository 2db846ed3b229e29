/** Who waits where: no task is parked without standing in the one queue that will wake it, and none
    stands in a queue it is not parked on. */
module Waiting {
  import opened Basics
  import opened Counting
  import opened Caps
  import opened Scheduling
  import opened Kernel
  import Ep = Endpoints

  /** The messages of the receipts, in order. */
  function Kms(receipts: seq<Receipt>): (r: seq<Ep.KMessage>)
    ensures |r| == |receipts| && forall i :: 0 <= i < |r| ==> r[i] == receipts[i].km
  {
    seq(|receipts|, i requires 0 <= i < |receipts| => receipts[i].km)
  }

  lemma KmsOfOneMore(receipts: seq<Receipt>, r: Receipt)
    ensures Kms(receipts + [r]) == Kms(receipts) + [r.km]
  {
  }

  predicate Distinct(q: seq<nat>) {
    forall i, j :: 0 <= i < j < |q| ==> q[i] != q[j]
  }

  predicate DistinctSenders(q: seq<Ep.Waiter>) {
    forall i, j :: 0 <= i < j < |q| ==> q[i].task != q[j].task
  }

  predicate ParkedAt(tasks: seq<Task>, i: nat, resume: Resumption) {
    i < |tasks| && tasks[i].state == Blocked && tasks[i].resume == resume
  }

  /** Whoever stands in a queue of endpoint `e` is parked on it, and stands there once. */
  ghost predicate QueuesOk(tasks: seq<Task>, e: nat, ep: Ep.Ep) {
    && Distinct(ep.receivers) && DistinctSenders(ep.senders)
    && (forall n :: 0 <= n < |ep.receivers| ==> ParkedAt(tasks, ep.receivers[n], InRecv(e)))
    && (forall n :: 0 <= n < |ep.senders| ==> ParkedAt(tasks, ep.senders[n].task, InSend(e)))
  }

  /** The queue a parked task goes on from has it. */
  ghost predicate Queued(channels: seq<Channel>, i: nat, resume: Resumption) {
    match resume
    case User => false
    case InSend(e) => e < |channels| && Ep.HasSender(channels[e].ep.senders, i)
    case InRecv(e) => e < |channels| && i in channels[e].ep.receivers
  }

  /** A task is blocked only in a queue; a receiver that was woken has its message, and nobody else
      has one; what was handed to a task is what its receives took and what they will next. */
  ghost predicate TaskOk(channels: seq<Channel>, i: nat, t: Task) {
    && (t.state == Blocked ==> Queued(channels, i, t.resume))
    && (t.mailbox.Some? <==> t.resume.InRecv? && t.state != Blocked)
    && (t.state == Dead ==> t.resume == User)
    && t.given == Kms(t.receipts) + (if t.mailbox.Some? then [t.mailbox.value] else [])
  }

  ghost predicate ChannelOk(c: Channel) {
    Ep.Coherent(c.ep) && c.accepted == c.taken + Ep.Pending(c.ep)
  }

  ghost predicate WaitOk(tasks: seq<Task>, channels: seq<Channel>) {
    && (forall e :: 0 <= e < |channels| ==> ChannelOk(channels[e]) && QueuesOk(tasks, e, channels[e].ep))
    && (forall i :: 0 <= i < |tasks| ==> TaskOk(channels, i, tasks[i]))
  }

  // ---------------------------------------------------------------------------------------
  // Switches disturb no waiting
  // ---------------------------------------------------------------------------------------

  /** The slot changed at most between ready and running, or died in its program. */
  predicate QuietSlot(t: Task, t': Task) {
    && t'.resume == t.resume && t'.mailbox == t.mailbox && t'.given == t.given && t'.receipts == t.receipts
    && (t'.caps == t.caps || t'.caps == [])
    && (t'.state == Blocked <==> t.state == Blocked)
    && (t'.state == Dead ==> t.state == Dead || t.resume == User)
  }

  predicate Quiet(tasks: seq<Task>, tasks': seq<Task>) {
    |tasks'| == |tasks| && forall i :: 0 <= i < |tasks| ==> QuietSlot(tasks[i], tasks'[i])
  }

  lemma QuietKeeps(tasks: seq<Task>, tasks': seq<Task>, channels: seq<Channel>)
    requires WaitOk(tasks, channels) && Quiet(tasks, tasks')
    ensures WaitOk(tasks', channels)
  {
    hide ChannelOk, Queued;
    forall e | 0 <= e < |channels|
      ensures ChannelOk(channels[e]) && QueuesOk(tasks', e, channels[e].ep)
    {
      assert QueuesOk(tasks, e, channels[e].ep);
    }
    forall i | 0 <= i < |tasks'|
      ensures TaskOk(channels, i, tasks'[i])
    {
      assert TaskOk(channels, i, tasks[i]) && QuietSlot(tasks[i], tasks'[i]);
    }
  }

  lemma RescheduleIsQuiet(s: Sched)
    ensures Quiet(s.tasks, Reschedule(s).0.tasks)
  {
    if s.current.Some? && s.current.value < |s.tasks| {
      var next := PickNext(s.tasks, s.current.value);
      if next.Some? {
        NextStaysReady(s, s.current.value);
      }
    }
  }

  lemma NextStaysReady(s: Sched, prev: nat)
    requires prev < |s.tasks| && PickNext(s.tasks, prev).Some?
    ensures Quiet(s.tasks, Reschedule(s.(current := Some(prev))).0.tasks)
  {
  }

  lemma StartIsQuiet(s: Sched)
    requires StartFirst(s).Some?
    ensures Quiet(s.tasks, StartFirst(s).value.tasks)
  {
  }

  /** A dead task's mailbox is empty already. */
  lemma SettleIsQuiet(s: Sched, channels: seq<Channel>)
    requires WaitOk(s.tasks, channels)
    ensures Quiet(s.tasks, PostSwitch(s).tasks)
  {
    if s.prev.Some? && s.prev.value < |s.tasks| {
      assert TaskOk(channels, s.prev.value, s.tasks[s.prev.value]);
    }
  }

  lemma ExitIsQuiet(s: Sched)
    requires s.current.Some? && s.current.value < |s.tasks| && s.tasks[s.current.value].resume == User
    requires s.tasks[s.current.value].state == Running
    ensures Quiet(s.tasks, Exit(s).tasks)
  {
  }

  /** Parking is one slot going to wait, and then a switch. */
  lemma ParkIsQuiet(s: Sched, resume: Resumption)
    requires s.current.Some? && s.current.value < |s.tasks|
    ensures var me := s.current.value;
            Quiet(s.tasks[me := s.tasks[me].(state := Blocked, resume := resume)], Park(s, resume).tasks)
  {
  }

  // ---------------------------------------------------------------------------------------
  // One slot, one channel
  // ---------------------------------------------------------------------------------------

  /** Replacing a slot that no queue names, and keeping it unnamed. */
  lemma SlotKeeps(tasks: seq<Task>, channels: seq<Channel>, i: nat, t: Task)
    requires WaitOk(tasks, channels) && i < |tasks| && tasks[i].state != Blocked && t.state != Blocked
    requires TaskOk(channels, i, t)
    ensures WaitOk(tasks[i := t], channels)
  {
    hide ChannelOk, Queued, TaskOk;
    forall e | 0 <= e < |channels|
      ensures ChannelOk(channels[e]) && QueuesOk(tasks[i := t], e, channels[e].ep)
    {
      assert QueuesOk(tasks, e, channels[e].ep);
    }
  }

  /** Replacing a channel that keeps its queues. */
  lemma ChannelKeeps(tasks: seq<Task>, channels: seq<Channel>, e: nat, c: Channel)
    requires WaitOk(tasks, channels) && e < |channels| && ChannelOk(c)
    requires c.ep.receivers == channels[e].ep.receivers && c.ep.senders == channels[e].ep.senders
    ensures WaitOk(tasks, channels[e := c])
  {
    hide ChannelOk;
    var channels' := channels[e := c];
    forall f | 0 <= f < |channels'|
      ensures ChannelOk(channels'[f]) && QueuesOk(tasks, f, channels'[f].ep)
    {
      assert QueuesOk(tasks, f, channels[f].ep);
    }
    forall i | 0 <= i < |tasks|
      ensures TaskOk(channels', i, tasks[i])
    {
      assert TaskOk(channels, i, tasks[i]);
    }
  }

  /** A sender joins the end of a queue. */
  lemma SenderJoins(tasks: seq<Task>, channels: seq<Channel>, e: nat, me: nat, c: Channel, km: Ep.KMessage)
    requires WaitOk(tasks, channels) && e < |channels| && me < |tasks| && ChannelOk(c)
    requires tasks[me].state != Blocked && tasks[me].mailbox.None?
    requires c.ep.receivers == channels[e].ep.receivers && c.ep.senders == channels[e].ep.senders + [Ep.Waiter(me, km)]
    ensures WaitOk(tasks[me := tasks[me].(state := Blocked, resume := InSend(e))], channels[e := c])
  {
    hide ChannelOk;
    var t, channels' := tasks[me].(state := Blocked, resume := InSend(e)), channels[e := c];
    var tasks' := tasks[me := t];
    assert QueuesOk(tasks, e, channels[e].ep);
    forall f | 0 <= f < |channels'|
      ensures ChannelOk(channels'[f]) && QueuesOk(tasks', f, channels'[f].ep)
    {
      assert QueuesOk(tasks, f, channels[f].ep);
    }
    forall i | 0 <= i < |tasks'|
      ensures TaskOk(channels', i, tasks'[i])
    {
      assert TaskOk(channels, i, tasks[i]);
      Ep.HasOneMore(channels[e].ep.senders, Ep.Waiter(me, km), i);
    }
  }

  /** A receiver joins the end of a queue. */
  lemma ReceiverJoins(tasks: seq<Task>, channels: seq<Channel>, e: nat, me: nat, c: Channel)
    requires WaitOk(tasks, channels) && e < |channels| && me < |tasks| && ChannelOk(c)
    requires tasks[me].state != Blocked && tasks[me].mailbox.None?
    requires c.ep.senders == channels[e].ep.senders && c.ep.receivers == channels[e].ep.receivers + [me]
    ensures WaitOk(tasks[me := tasks[me].(state := Blocked, resume := InRecv(e))], channels[e := c])
  {
    hide ChannelOk;
    var t, channels' := tasks[me].(state := Blocked, resume := InRecv(e)), channels[e := c];
    var tasks' := tasks[me := t];
    assert QueuesOk(tasks, e, channels[e].ep);
    forall f | 0 <= f < |channels'|
      ensures ChannelOk(channels'[f]) && QueuesOk(tasks', f, channels'[f].ep)
    {
      assert QueuesOk(tasks, f, channels[f].ep);
    }
    forall i | 0 <= i < |tasks'|
      ensures TaskOk(channels', i, tasks'[i])
    {
      assert TaskOk(channels, i, tasks[i]);
    }
  }

  /** The first receiver of a queue gets its message and leaves. */
  lemma ReceiverLeaves(tasks: seq<Task>, channels: seq<Channel>, e: nat, w: nat, c: Channel, km: Ep.KMessage)
    requires WaitOk(tasks, channels) && e < |channels| && ChannelOk(c)
    requires channels[e].ep.receivers == [w] + c.ep.receivers && c.ep.senders == channels[e].ep.senders
    ensures ParkedAt(tasks, w, InRecv(e)) && tasks[w].mailbox.None?
    ensures WaitOk(tasks[w := tasks[w].(state := Ready, mailbox := Some(km), given := tasks[w].given + [km])], channels[e := c])
  {
    hide ChannelOk;
    assert QueuesOk(tasks, e, channels[e].ep);
    assert channels[e].ep.receivers[0] == w;
    assert TaskOk(channels, w, tasks[w]);
    var t, channels' := tasks[w].(state := Ready, mailbox := Some(km), given := tasks[w].given + [km]), channels[e := c];
    var tasks' := tasks[w := t];
    assert forall n :: 0 <= n < |c.ep.receivers| ==> c.ep.receivers[n] == channels[e].ep.receivers[n + 1];
    forall f | 0 <= f < |channels'|
      ensures ChannelOk(channels'[f]) && QueuesOk(tasks', f, channels'[f].ep)
    {
      assert QueuesOk(tasks, f, channels[f].ep);
    }
    forall i | 0 <= i < |tasks'|
      ensures TaskOk(channels', i, tasks'[i])
    {
      assert TaskOk(channels, i, tasks[i]);
    }
  }

  /** The first sender of a queue is woken and leaves. */
  lemma SenderLeaves(tasks: seq<Task>, channels: seq<Channel>, e: nat, w: Ep.Waiter, c: Channel)
    requires WaitOk(tasks, channels) && e < |channels| && ChannelOk(c)
    requires channels[e].ep.senders == [w] + c.ep.senders && c.ep.receivers == channels[e].ep.receivers
    ensures ParkedAt(tasks, w.task, InSend(e))
    ensures WaitOk(tasks[w.task := tasks[w.task].(state := Ready)], channels[e := c])
  {
    hide ChannelOk;
    assert QueuesOk(tasks, e, channels[e].ep);
    assert channels[e].ep.senders[0] == w;
    var t, channels' := tasks[w.task].(state := Ready), channels[e := c];
    var tasks' := tasks[w.task := t];
    assert forall n :: 0 <= n < |c.ep.senders| ==> c.ep.senders[n] == channels[e].ep.senders[n + 1];
    forall f | 0 <= f < |channels'|
      ensures ChannelOk(channels'[f]) && QueuesOk(tasks', f, channels'[f].ep)
    {
      assert QueuesOk(tasks, f, channels[f].ep);
    }
    forall i | 0 <= i < |tasks'|
      ensures TaskOk(channels', i, tasks'[i])
    {
      assert TaskOk(channels, i, tasks[i]);
      OthersStillWait(channels[e].ep.senders, c.ep.senders, w, i);
    }
  }

  lemma OthersStillWait(q: seq<Ep.Waiter>, q': seq<Ep.Waiter>, w: Ep.Waiter, i: nat)
    requires q == [w] + q'
    ensures Ep.HasSender(q, i) <==> i == w.task || Ep.HasSender(q', i)
  {
    assert q[0] == w;
    if Ep.HasSender(q', i) {
      var n :| 0 <= n < |q'| && q'[n].task == i;
      assert q[n + 1] == q'[n];
    }
    if Ep.HasSender(q, i) && i != w.task {
      var n :| 0 <= n < |q| && q[n].task == i;
      assert q'[n - 1] == q[n];
    }
  }

  /** A running task stands in no queue. */
  lemma RunnerNotQueued(tasks: seq<Task>, channels: seq<Channel>, me: nat, e: nat)
    requires WaitOk(tasks, channels) && me < |tasks| && tasks[me].state != Blocked && e < |channels|
    ensures !Ep.Waits(channels[e].ep, me)
  {
    assert QueuesOk(tasks, e, channels[e].ep);
  }

  lemma SpawnKeepsWait(tasks: seq<Task>, channels: seq<Channel>, t: Task)
    requires WaitOk(tasks, channels) && TaskOk(channels, |tasks|, t) && t.state != Blocked
    ensures WaitOk(tasks + [t], channels)
  {
    hide ChannelOk, Queued, TaskOk;
    forall e | 0 <= e < |channels|
      ensures ChannelOk(channels[e]) && QueuesOk(tasks + [t], e, channels[e].ep)
    {
      assert QueuesOk(tasks, e, channels[e].ep);
    }
  }
}
