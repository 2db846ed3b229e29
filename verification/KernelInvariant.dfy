/** What every step of the kernel keeps: the switch protocol, the wait queues, the message counts and
    the authority of every task. */
module KernelInvariant {
  import opened Basics
  import opened Counting
  import opened Caps
  import opened Scheduling
  import opened Kernel
  import opened Waiting
  import Objects
  import Ep = Endpoints

  // ---------------------------------------------------------------------------------------
  // Messages counted
  // ---------------------------------------------------------------------------------------

  function MailOne(t: Task): nat {
    if t.mailbox.Some? then 1 else 0
  }

  function SendingOne(t: Task): nat {
    if t.resume.InSend? then 1 else 0
  }

  function AcceptedOne(c: Channel): nat {
    |c.accepted|
  }

  function TakenOne(c: Channel): nat {
    |c.taken|
  }

  function SendBlocksOne(c: Channel): nat {
    c.sendBlocks
  }

  /** How many of the messages carry a capability. */
  function Carrying(kms: seq<Ep.KMessage>): nat {
    if kms == [] then 0 else Carrying(kms[..|kms| - 1]) + if kms[|kms| - 1].cap.Some? then 1 else 0
  }

  lemma CarryingOneMore(kms: seq<Ep.KMessage>, km: Ep.KMessage)
    ensures Carrying(kms + [km]) == Carrying(kms) + if km.cap.Some? then 1 else 0
  {
    assert (kms + [km])[..|kms|] == kms;
  }

  function CarryingOne(c: Channel): nat {
    Carrying(c.accepted)
  }

  function AwaitingOne(t: Task): nat {
    if t.state == Blocked && t.resume.InRecv? then 1 else 0
  }

  function PendingOne(c: Channel): nat {
    |c.ep.ring| + |c.ep.senders|
  }

  /** Every accepted message was delivered, buffered or blocked on; every taken one was received or
      lies in a mailbox; a send counts when its sender goes on; a receive that blocked was delivered to
      or blocks still; and every capability carried was counted. */
  ghost predicate TallyOk(tasks: seq<Task>, channels: seq<Channel>, tally: Tally) {
    && Sum(channels, AcceptedOne) == tally.delivered + tally.buffered + Sum(channels, SendBlocksOne)
    && Sum(channels, TakenOne) == tally.received + Sum(tasks, MailOne)
    && tally.sent + Sum(tasks, SendingOne) == Sum(channels, AcceptedOne)
    && tally.recvBlocks == tally.delivered + Sum(tasks, AwaitingOne)
    && tally.capsMoved == Sum(channels, CarryingOne)
    && tally.diedBlocked == 0
  }

  lemma TaskSums(tasks: seq<Task>, i: nat, t: Task)
    requires i < |tasks|
    ensures Sum(tasks[i := t], MailOne) + MailOne(tasks[i]) == Sum(tasks, MailOne) + MailOne(t)
    ensures Sum(tasks[i := t], SendingOne) + SendingOne(tasks[i]) == Sum(tasks, SendingOne) + SendingOne(t)
    ensures Sum(tasks[i := t], AwaitingOne) + AwaitingOne(tasks[i]) == Sum(tasks, AwaitingOne) + AwaitingOne(t)
  {
    SumUpdate(tasks, i, t, MailOne);
    SumUpdate(tasks, i, t, SendingOne);
    SumUpdate(tasks, i, t, AwaitingOne);
  }

  lemma ChannelSums(channels: seq<Channel>, e: nat, c: Channel)
    requires e < |channels|
    ensures Sum(channels[e := c], AcceptedOne) + |channels[e].accepted| == Sum(channels, AcceptedOne) + |c.accepted|
    ensures Sum(channels[e := c], TakenOne) + |channels[e].taken| == Sum(channels, TakenOne) + |c.taken|
    ensures Sum(channels[e := c], SendBlocksOne) + channels[e].sendBlocks == Sum(channels, SendBlocksOne) + c.sendBlocks
    ensures Sum(channels[e := c], CarryingOne) + Carrying(channels[e].accepted) == Sum(channels, CarryingOne) + Carrying(c.accepted)
  {
    SumUpdate(channels, e, c, CarryingOne);
    SumUpdate(channels, e, c, AcceptedOne);
    SumUpdate(channels, e, c, TakenOne);
    SumUpdate(channels, e, c, SendBlocksOne);
  }

  lemma QuietTally(tasks: seq<Task>, tasks': seq<Task>, channels: seq<Channel>, tally: Tally)
    requires TallyOk(tasks, channels, tally) && Quiet(tasks, tasks')
    ensures TallyOk(tasks', channels, tally)
  {
    forall i | 0 <= i < |tasks|
      ensures MailOne(tasks'[i]) == MailOne(tasks[i]) && SendingOne(tasks'[i]) == SendingOne(tasks[i])
      ensures AwaitingOne(tasks'[i]) == AwaitingOne(tasks[i])
    {
      assert QuietSlot(tasks[i], tasks'[i]);
    }
    SumSame(tasks, tasks', MailOne);
    SumSame(tasks, tasks', SendingOne);
    SumSame(tasks, tasks', AwaitingOne);
  }

  // ---------------------------------------------------------------------------------------
  // Authority
  // ---------------------------------------------------------------------------------------

  ghost predicate Carries(km: Ep.KMessage, granted: set<Cap>) {
    km.cap.Some? ==> km.cap.value in granted
  }

  ghost predicate Confined(t: Task, granted: set<Cap>) {
    Held(t.caps) <= granted && (t.mailbox.Some? ==> Carries(t.mailbox.value, granted))
  }

  /** Every capability anywhere, in a table, a mailbox, a ring or a wait queue, is one of those
      granted at a spawn, rights and all. */
  ghost predicate AuthOk(tasks: seq<Task>, channels: seq<Channel>, granted: set<Cap>) {
    && (forall i :: 0 <= i < |tasks| ==> Confined(tasks[i], granted))
    && (forall e :: 0 <= e < |channels| ==> AllCarry(channels[e], granted))
  }

  ghost predicate AllCarry(c: Channel, granted: set<Cap>) {
    forall n :: 0 <= n < |Ep.Pending(c.ep)| ==> Carries(Ep.Pending(c.ep)[n], granted)
  }

  lemma QuietAuth(tasks: seq<Task>, tasks': seq<Task>, channels: seq<Channel>, granted: set<Cap>)
    requires AuthOk(tasks, channels, granted) && Quiet(tasks, tasks')
    ensures AuthOk(tasks', channels, granted)
  {
    forall i | 0 <= i < |tasks'|
      ensures Confined(tasks'[i], granted)
    {
      assert Confined(tasks[i], granted) && QuietSlot(tasks[i], tasks'[i]);
    }
  }

  // ---------------------------------------------------------------------------------------
  // The invariant
  // ---------------------------------------------------------------------------------------

  /** What the wait queues, the counts and the authority have in common: tasks and channels. */
  ghost predicate FlowOk(tasks: seq<Task>, channels: seq<Channel>, tally: Tally, granted: set<Cap>) {
    WaitOk(tasks, channels) && TallyOk(tasks, channels, tally) && AuthOk(tasks, channels, granted)
  }

  ghost predicate Inv(k: State) {
    && |k.channels| == NUM_ENDPOINTS && SchedOk(k.sched) && k.table.Valid()
    && FlowOk(k.sched.tasks, k.channels, k.tally, k.granted)
  }

  lemma QuietFlow(tasks: seq<Task>, tasks': seq<Task>, channels: seq<Channel>, tally: Tally, granted: set<Cap>)
    requires FlowOk(tasks, channels, tally, granted) && Quiet(tasks, tasks')
    ensures FlowOk(tasks', channels, tally, granted)
  {
    QuietKeeps(tasks, tasks', channels);
    QuietTally(tasks, tasks', channels, tally);
    QuietAuth(tasks, tasks', channels, granted);
  }

  lemma BootOk(root: nat)
    ensures Inv(Boot(root))
  {
    hide SchedOk, FlowOk;
    var k := Boot(root);
    Objects.EmptyTable();
    NothingRuns(root);
    NothingWaits(k.channels);
  }

  lemma NothingRuns(root: nat)
    ensures SchedOk(Boot(root).sched)
  {
  }

  /** With no task and every endpoint idle, nothing waits and nothing has been counted. */
  lemma NothingWaits(channels: seq<Channel>)
    requires forall e :: 0 <= e < |channels| ==> channels[e] == Channel(Ep.IDLE, [], [], 0)
    ensures FlowOk([], channels, START_TALLY, {})
  {
    assert WaitOk([], channels) by { hide Sum; }
    assert AuthOk([], channels, {}) by { hide Sum; }
    assert TallyOk([], channels, START_TALLY) by {
      hide WaitOk, AuthOk;
      ZeroSums(channels);
    }
  }

  lemma {:induction false} ZeroSums(channels: seq<Channel>)
    requires forall e :: 0 <= e < |channels| ==> channels[e] == Channel(Ep.IDLE, [], [], 0)
    ensures Sum(channels, AcceptedOne) == 0 && Sum(channels, TakenOne) == 0 && Sum(channels, SendBlocksOne) == 0
    ensures Sum(channels, CarryingOne) == 0
  {
    if channels != [] {
      ZeroSums(channels[..|channels| - 1]);
    }
  }

  /** The running task and its slot. */
  lemma RunnerOk(k: State)
    requires Inv(k) && InTask(k)
    ensures Me(k).state == Running && Me(k).stack && Seeded(Me(k).caps)
    ensures TaskOk(k.channels, k.sched.current.value, Me(k)) && Confined(Me(k), k.granted)
    ensures Me(k).resume == User ==> Me(k).mailbox.None?
    ensures Me(k).resume.InRecv? <==> Me(k).mailbox.Some?
  {
    var me := k.sched.current.value;
    assert SlotOk(k.sched, me) && TaskOk(k.channels, me, k.sched.tasks[me]) && Confined(k.sched.tasks[me], k.granted);
  }

  // ---------------------------------------------------------------------------------------
  // Sending
  // ---------------------------------------------------------------------------------------

  lemma PendingGrows(c: Channel, ep': Ep.Ep, km: Ep.KMessage, granted: set<Cap>)
    requires ChannelOk(c) && AllCarry(c, granted) && Carries(km, granted)
    requires Ep.Coherent(ep') && Ep.Pending(ep') == Ep.Pending(c.ep) + [km]
    ensures ChannelOk(c.(ep := ep', accepted := c.accepted + [km])) && AllCarry(c.(ep := ep'), granted)
  {
  }

  /** A message handed straight to a waiting receiver: into its mailbox, past an empty queue. */
  lemma DeliverFlow(tasks: seq<Task>, channels: seq<Channel>, tally: Tally, granted: set<Cap>,
                    e: nat, me: nat, km: Ep.KMessage, moved: nat)
    requires FlowOk(tasks, channels, tally, granted) && e < |channels| && Carries(km, granted)
    requires Ep.Send(channels[e].ep, me, km).1.Deliver?
    requires moved == tally.capsMoved + if km.cap.Some? then 1 else 0
    ensures var (ep', action) := Ep.Send(channels[e].ep, me, km);
            var c := channels[e];
            var w := action.task;
            && ParkedAt(tasks, w, InRecv(e)) && tasks[w].mailbox.None?
            && FlowOk(tasks[w := tasks[w].(state := Ready, mailbox := Some(km), given := tasks[w].given + [km])],
                      channels[e := c.(ep := ep', accepted := c.accepted + [km], taken := c.taken + [km])],
                      tally.(delivered := tally.delivered + 1, sent := tally.sent + 1, capsMoved := moved), granted)
  {
    hide Ep.Coherent, Queued, Sum;
    var (ep', action) := Ep.Send(channels[e].ep, me, km);
    var c, w := channels[e], action.task;
    assert ChannelOk(c) && AllCarry(c, granted);
    Ep.SendIsAppend(c.ep, me, km);
    var c' := c.(ep := ep', accepted := c.accepted + [km], taken := c.taken + [km]);
    ReceiverLeaves(tasks, channels, e, w, c', km);
    var t := tasks[w].(state := Ready, mailbox := Some(km), given := tasks[w].given + [km]);
    TaskSums(tasks, w, t);
    ChannelSums(channels, e, c');
    CarryingOneMore(c.accepted, km);
    assert Confined(tasks[w], granted);
    AuthChanges(tasks, channels, granted, w, t, e, c');
  }

  lemma AuthChanges(tasks: seq<Task>, channels: seq<Channel>, granted: set<Cap>, i: nat, t: Task, e: nat, c: Channel)
    requires AuthOk(tasks, channels, granted) && i < |tasks| && e < |channels|
    requires Confined(t, granted) && AllCarry(c, granted)
    ensures AuthOk(tasks[i := t], channels[e := c], granted) && AuthOk(tasks, channels[e := c], granted)
    ensures AuthOk(tasks[i := t], channels, granted)
  {
  }

  lemma BufferFlow(tasks: seq<Task>, channels: seq<Channel>, tally: Tally, granted: set<Cap>,
                   e: nat, me: nat, km: Ep.KMessage, moved: nat)
    requires FlowOk(tasks, channels, tally, granted) && e < |channels| && Carries(km, granted) && me < |tasks|
    requires Ep.Send(channels[e].ep, me, km).1.Buffered?
    requires moved == tally.capsMoved + if km.cap.Some? then 1 else 0
    ensures var ep' := Ep.Send(channels[e].ep, me, km).0;
            var c := channels[e];
            FlowOk(tasks, channels[e := c.(ep := ep', accepted := c.accepted + [km])],
                   tally.(buffered := tally.buffered + 1, sent := tally.sent + 1, capsMoved := moved), granted)
  {
    hide Ep.Coherent, Queued, Sum;
    var (ep', action) := Ep.Send(channels[e].ep, me, km);
    var c := channels[e];
    assert ChannelOk(c) && AllCarry(c, granted);
    Ep.SendIsAppend(c.ep, me, km);
    PendingGrows(c, ep', km, granted);
    var c' := c.(ep := ep', accepted := c.accepted + [km]);
    ChannelKeeps(tasks, channels, e, c');
    ChannelSums(channels, e, c');
    CarryingOneMore(c.accepted, km);
    AuthChanges(tasks, channels, granted, me, tasks[me], e, c') by { assert Confined(tasks[me], granted); }
  }

  lemma BlockFlow(tasks: seq<Task>, channels: seq<Channel>, tally: Tally, granted: set<Cap>,
                  e: nat, me: nat, km: Ep.KMessage, moved: nat)
    requires FlowOk(tasks, channels, tally, granted) && e < |channels| && Carries(km, granted)
    requires me < |tasks| && tasks[me].state == Running && tasks[me].resume == User && tasks[me].mailbox.None?
    requires Ep.Send(channels[e].ep, me, km).1.Block?
    requires moved == tally.capsMoved + if km.cap.Some? then 1 else 0
    ensures var ep' := Ep.Send(channels[e].ep, me, km).0;
            var c := channels[e];
            FlowOk(tasks[me := tasks[me].(state := Blocked, resume := InSend(e))],
                   channels[e := c.(ep := ep', accepted := c.accepted + [km], sendBlocks := c.sendBlocks + 1)],
                   tally.(capsMoved := moved), granted)
  {
    hide Ep.Coherent, Queued, Sum;
    var (ep', action) := Ep.Send(channels[e].ep, me, km);
    var c := channels[e];
    assert ChannelOk(c) && AllCarry(c, granted);
    Ep.SendIsAppend(c.ep, me, km);
    PendingGrows(c, ep', km, granted);
    var c' := c.(ep := ep', accepted := c.accepted + [km], sendBlocks := c.sendBlocks + 1);
    var t := tasks[me].(state := Blocked, resume := InSend(e));
    SenderJoins(tasks, channels, e, me, c', km);
    TaskSums(tasks, me, t);
    ChannelSums(channels, e, c');
    CarryingOneMore(c.accepted, km);
    AuthChanges(tasks, channels, granted, me, t, e, c') by { assert Confined(tasks[me], granted); }
  }

  /** A send, whatever it decides, keeps everything. */
  lemma IpcSendKeeps(k: State, e: nat, km: Ep.KMessage)
    requires Inv(k) && InProgram(k) && Carries(km, k.granted)
    ensures Inv(IpcSend(k, e, km).0)
  {
    hide Ep.Send, SchedOk, FlowOk, PickNext;
    RunnerOk(k);
    if e < NUM_ENDPOINTS {
      var me, c := k.sched.current.value, k.channels[e];
      var (ep', action) := Ep.Send(c.ep, me, km);
      var moved := k.tally.capsMoved + if km.cap.Some? && !action.Full? then 1 else 0;
      match action {
        case Deliver(w) =>
          DeliverFlow(k.sched.tasks, k.channels, k.tally, k.granted, e, me, km, moved);
          DeliverKeeps(k.sched, w, km);
          assert DeliverTo(k.sched, w, km).tasks ==
                 k.sched.tasks[w := k.sched.tasks[w].(state := Ready, mailbox := Some(km), given := k.sched.tasks[w].given + [km])];
        case Buffered =>
          BufferFlow(k.sched.tasks, k.channels, k.tally, k.granted, e, me, km, moved);
        case Block =>
          BlockFlow(k.sched.tasks, k.channels, k.tally, k.granted, e, me, km, moved);
          ParkFlow(k, IpcSend(k, e, km).0, InSend(e));
        case Full =>
      }
    }
  }

  /** Parking once the queue has the task. */
  lemma ParkFlow(k: State, k': State, resume: Resumption)
    requires Inv(k) && InTask(k) && k'.sched == Park(k.sched, resume) && k'.table == k.table && |k'.channels| == NUM_ENDPOINTS
    requires var me := k.sched.current.value;
             FlowOk(k.sched.tasks[me := k.sched.tasks[me].(state := Blocked, resume := resume)], k'.channels, k'.tally, k'.granted)
    ensures Inv(k')
  {
    hide FlowOk, SchedOk, PickNext;
    var me := k.sched.current.value;
    ParkKeeps(k.sched, resume);
    ParkIsQuiet(k.sched, resume);
    QuietFlow(k.sched.tasks[me := k.sched.tasks[me].(state := Blocked, resume := resume)], k'.sched.tasks,
              k'.channels, k'.tally, k'.granted);
  }

  // ---------------------------------------------------------------------------------------
  // Receiving
  // ---------------------------------------------------------------------------------------

  /** Whether a message taken for a task gets to its program. */
  predicate Reaches(caps: CapTable, km: Ep.KMessage, heap: bool) {
    km.cap.None? || FreeHandle(caps) < |caps| || heap
  }

  /** The table a received message leaves. */
  function CapsAfter(caps: CapTable, km: Ep.KMessage, heap: bool): CapTable {
    if km.cap.None? || !Reaches(caps, km, heap) then caps else Installed(caps, km.cap.value)
  }

  lemma ReturnIs(k: State, km: Ep.KMessage, heap: bool)
    requires InTask(k)
    ensures Return(k, km, heap).0 ==
            PutMe(k.(tally := k.tally.(received := k.tally.received + 1)),
                  Me(k).(receipts := Me(k).receipts + [Receipt(km, Reaches(Me(k).caps, km, heap))], caps := CapsAfter(Me(k).caps, km, heap)))
    ensures Return(k, km, heap).1 == if Reaches(Me(k).caps, km, heap) then Done else Failed(OutOfResources)
  {
  }

  lemma CapsAfterOk(caps: CapTable, km: Ep.KMessage, heap: bool, granted: set<Cap>)
    requires Seeded(caps) && Held(caps) <= granted && Carries(km, granted)
    ensures var after := CapsAfter(caps, km, heap); Seeded(after) && Held(after) <= granted
    ensures Held(caps) <= Held(CapsAfter(caps, km, heap)) <= Held(caps) + (if km.cap.Some? then {km.cap.value} else {})
  {
    if km.cap.Some? {
      InstallKeepsSeeded(caps, km.cap.value);
      HeldAfterInstall(caps, km.cap.value);
    }
  }

  lemma PendingShrinks(c: Channel, ep': Ep.Ep, km: Ep.KMessage, granted: set<Cap>)
    requires ChannelOk(c) && AllCarry(c, granted) && Ep.Coherent(ep') && Ep.Pending(c.ep) == [km] + Ep.Pending(ep')
    ensures ChannelOk(c.(ep := ep', taken := c.taken + [km])) && AllCarry(c.(ep := ep'), granted) && Carries(km, granted)
  {
    assert Ep.Pending(c.ep)[0] == km;
    forall n | 0 <= n < |Ep.Pending(ep')|
      ensures Carries(Ep.Pending(ep')[n], granted)
    {
      assert Ep.Pending(ep')[n] == Ep.Pending(c.ep)[n + 1];
    }
  }

  /** The running task receives a message that was waiting. */
  function Receiving(t: Task, km: Ep.KMessage, heap: bool): Task {
    t.(given := t.given + [km], receipts := t.receipts + [Receipt(km, Reaches(t.caps, km, heap))], caps := CapsAfter(t.caps, km, heap))
  }

  lemma ReceivingOk(channels: seq<Channel>, i: nat, t: Task, km: Ep.KMessage, heap: bool, granted: set<Cap>)
    requires TaskOk(channels, i, t) && t.state == Running && t.mailbox.None? && Seeded(t.caps)
    requires Confined(t, granted) && Carries(km, granted)
    ensures TaskOk(channels, i, Receiving(t, km, heap)) && Confined(Receiving(t, km, heap), granted)
  {
    CapsAfterOk(t.caps, km, heap, granted);
    KmsOfOneMore(t.receipts, Receipt(km, Reaches(t.caps, km, heap)));
  }

  /** A receive that finds a message, with nobody waiting to send. */
  lemma GotFlow(tasks: seq<Task>, channels: seq<Channel>, tally: Tally, granted: set<Cap>, e: nat, me: nat, heap: bool)
    requires FlowOk(tasks, channels, tally, granted) && e < |channels| && me < |tasks|
    requires tasks[me].state == Running && tasks[me].mailbox.None? && Seeded(tasks[me].caps)
    requires Ep.Recv(channels[e].ep, me).1.Got?
    ensures var (ep', action) := Ep.Recv(channels[e].ep, me);
            var c := channels[e];
            FlowOk(tasks[me := Receiving(tasks[me], action.km, heap)], channels[e := c.(ep := ep', taken := c.taken + [action.km])],
                   tally.(received := tally.received + 1), granted)
  {
    hide Ep.Coherent, Queued, Sum, CapsAfter;
    var (ep', action) := Ep.Recv(channels[e].ep, me);
    var c := channels[e];
    assert ChannelOk(c) && AllCarry(c, granted) && TaskOk(channels, me, tasks[me]) && Confined(tasks[me], granted);
    Ep.RecvIsTake(c.ep, me);
    PendingShrinks(c, ep', action.km, granted);
    var c' := c.(ep := ep', taken := c.taken + [action.km]);
    ChannelKeeps(tasks, channels, e, c');
    ReceivedFlow(tasks, channels, channels[e := c'], tally, granted, e, me, action.km, heap);
  }

  /** The receiver's side, once the message is out of its queue. */
  lemma ReceivedFlow(tasks: seq<Task>, channels: seq<Channel>, channels': seq<Channel>, tally: Tally, granted: set<Cap>,
                     e: nat, me: nat, km: Ep.KMessage, heap: bool)
    requires TallyOk(tasks, channels, tally) && AuthOk(tasks, channels, granted) && WaitOk(tasks, channels')
    requires e < |channels| == |channels'| && me < |tasks| && channels' == channels[e := channels'[e]]
    requires channels'[e].accepted == channels[e].accepted && channels'[e].taken == channels[e].taken + [km]
    requires channels'[e].sendBlocks == channels[e].sendBlocks && AllCarry(channels'[e], granted) && Carries(km, granted)
    requires tasks[me].state == Running && tasks[me].mailbox.None? && Seeded(tasks[me].caps)
    ensures FlowOk(tasks[me := Receiving(tasks[me], km, heap)], channels', tally.(received := tally.received + 1), granted)
  {
    hide ChannelOk, Queued, Sum, CapsAfter;
    var t := Receiving(tasks[me], km, heap);
    assert TaskOk(channels', me, tasks[me]) && Confined(tasks[me], granted);
    ReceivingOk(channels', me, tasks[me], km, heap, granted);
    SlotKeeps(tasks, channels', me, t);
    TaskSums(tasks, me, t);
    ChannelSums(channels, e, channels'[e]);
    AuthChanges(tasks, channels, granted, me, t, e, channels'[e]);
  }

  /** A receive that frees a slot for the first blocked sender. */
  lemma WakeFlow(tasks: seq<Task>, channels: seq<Channel>, tally: Tally, granted: set<Cap>, e: nat, me: nat, heap: bool)
    requires FlowOk(tasks, channels, tally, granted) && e < |channels| && me < |tasks|
    requires tasks[me].state == Running && tasks[me].mailbox.None? && Seeded(tasks[me].caps)
    requires Ep.Recv(channels[e].ep, me).1.WakeSender?
    ensures var (ep', action) := Ep.Recv(channels[e].ep, me);
            var c, w := channels[e], action.task;
            && ParkedAt(tasks, w, InSend(e)) && w != me
            && FlowOk(tasks[w := tasks[w].(state := Ready)][me := Receiving(tasks[me], action.km, heap)],
                      channels[e := c.(ep := ep', taken := c.taken + [action.km])],
                      tally.(received := tally.received + 1), granted)
  {
    hide Ep.Coherent, Queued, Sum, CapsAfter;
    var (ep', action) := Ep.Recv(channels[e].ep, me);
    var c, w := channels[e], action.task;
    assert ChannelOk(c) && AllCarry(c, granted);
    Ep.RecvIsTake(c.ep, me);
    PendingShrinks(c, ep', action.km, granted);
    var c' := c.(ep := ep', taken := c.taken + [action.km]);
    assert c.ep.senders == [c.ep.senders[0]] + c'.ep.senders && c.ep.senders[0].task == w;
    SenderLeaves(tasks, channels, e, c.ep.senders[0], c');
    var t := tasks[w].(state := Ready);
    TaskSums(tasks, w, t);
    assert Confined(tasks[w], granted);
    AuthChanges(tasks, channels, granted, w, t, e, c');
    ReceivedFlow(tasks[w := t], channels, channels[e := c'], tally, granted, e, me, action.km, heap);
  }

  lemma WaitFlow(tasks: seq<Task>, channels: seq<Channel>, tally: Tally, granted: set<Cap>, e: nat, me: nat, blocks: nat)
    requires FlowOk(tasks, channels, tally, granted) && e < |channels|
    requires me < |tasks| && tasks[me].state == Running && tasks[me].resume == User && tasks[me].mailbox.None?
    requires Ep.Recv(channels[e].ep, me).1.Wait? && blocks == tally.recvBlocks + 1
    ensures var ep' := Ep.Recv(channels[e].ep, me).0;
            FlowOk(tasks[me := tasks[me].(state := Blocked, resume := InRecv(e))], channels[e := channels[e].(ep := ep')],
                   tally.(recvBlocks := blocks), granted)
  {
    hide Ep.Coherent, Queued, Sum;
    var (ep', action) := Ep.Recv(channels[e].ep, me);
    var c := channels[e];
    assert ChannelOk(c) && AllCarry(c, granted);
    Ep.RecvIsTake(c.ep, me);
    var c', t := c.(ep := ep'), tasks[me].(state := Blocked, resume := InRecv(e));
    ReceiverJoins(tasks, channels, e, me, c');
    TaskSums(tasks, me, t);
    ChannelSums(channels, e, c');
    AuthChanges(tasks, channels, granted, me, t, e, c') by { assert Confined(tasks[me], granted); }
  }

  /** A receive, whatever it decides, keeps everything. */
  lemma IpcRecvKeeps(k: State, e: nat, heap: bool)
    requires Inv(k) && InProgram(k)
    ensures Inv(IpcRecv(k, e, heap).0)
  {
    hide Ep.Recv, SchedOk, FlowOk, PickNext, CapsAfter, Return;
    RunnerOk(k);
    if e < NUM_ENDPOINTS {
      var me, c := k.sched.current.value, k.channels[e];
      var (ep', action) := Ep.Recv(c.ep, me);
      match action {
        case Got(km) =>
          GotFlow(k.sched.tasks, k.channels, k.tally, k.granted, e, me, heap);
          var k1 := Take(PutChannel(k, e, c.(ep := ep', taken := c.taken + [km])), km);
          ReturnIs(k1, km, heap);
          ReturnSched(k.sched, me, km, heap, k.granted);
          assert k.sched.tasks[me := Receiving(Me(k), km, heap)] == Return(k1, km, heap).0.sched.tasks;
        case WakeSender(km, w) =>
          WakeFlow(k.sched.tasks, k.channels, k.tally, k.granted, e, me, heap);
          UnblockKeeps(k.sched, w);
          var k1 := PutChannel(k, e, c.(ep := ep', taken := c.taken + [km])).(sched := Unblock(k.sched, w));
          var k2 := Take(k1, km);
          ReturnIs(k2, km, heap);
          ReturnSched(k1.sched, me, km, heap, k.granted);
          assert k1.sched.tasks[me := Receiving(Me(k1), km, heap)] == Return(k2, km, heap).0.sched.tasks;
        case Wait =>
          WaitFlow(k.sched.tasks, k.channels, k.tally, k.granted, e, me, k.tally.recvBlocks + 1);
          ParkFlow(k, IpcRecv(k, e, heap).0, InRecv(e));
        case NoRoom =>
      }
    }
  }

  lemma ReturnSched(s: Sched, me: nat, km: Ep.KMessage, heap: bool, granted: set<Cap>)
    requires SchedOk(s) && s.current == Some(me) && me < |s.tasks| && Confined(s.tasks[me], granted)
    ensures SchedOk(Put(s, me, Receiving(s.tasks[me], km, heap)))
  {
    assert SlotOk(s, me);
    var t := Receiving(s.tasks[me], km, heap);
    CapsShape(s.tasks[me].caps, km, heap);
    TouchKeeps(s, me, t);
    PutCounts(s, me, t);
  }

  lemma CapsShape(caps: CapTable, km: Ep.KMessage, heap: bool)
    requires Seeded(caps)
    ensures Seeded(CapsAfter(caps, km, heap))
  {
    if km.cap.Some? {
      InstallKeepsSeeded(caps, km.cap.value);
    }
  }

  // ---------------------------------------------------------------------------------------
  // Going on
  // ---------------------------------------------------------------------------------------

  /** A task picked again always can go on: a woken receiver always has its message. */
  lemma ResumeKeeps(k: State, heap: bool)
    requires Inv(k) && InTask(k)
    ensures Resume(k, heap).None? <==> Me(k).resume == User
    ensures Resume(k, heap).Some? ==> Inv(Resume(k, heap).value.0)
  {
    hide SchedOk, CapsAfter, Return, Sum, ChannelOk, Queued;
    RunnerOk(k);
    var me, t := k.sched.current.value, Me(k);
    match t.resume {
      case User =>
      case InSend(_) =>
        var t' := t.(resume := User);
        SlotKeeps(k.sched.tasks, k.channels, me, t');
        TaskSums(k.sched.tasks, me, t');
        OwnSlot(k.sched, me, t');
        assert Confined(t', k.granted);
      case InRecv(_) =>
        var km := t.mailbox.value;
        var t1 := t.(resume := User, mailbox := None);
        ReturnIs(PutMe(k, t1), km, heap);
        var t' := t1.(receipts := t1.receipts + [Receipt(km, Reaches(t1.caps, km, heap))], caps := CapsAfter(t1.caps, km, heap));
        KmsOfOneMore(t1.receipts, Receipt(km, Reaches(t1.caps, km, heap)));
        CapsAfterOk(t.caps, km, heap, k.granted);
        assert TaskOk(k.channels, me, t');
        SlotKeeps(k.sched.tasks, k.channels, me, t');
        TaskSums(k.sched.tasks, me, t');
        OwnSlot(k.sched, me, t');
        assert k.sched.tasks[me := t1][me := t'] == k.sched.tasks[me := t'];
    }
  }

  lemma OwnSlot(s: Sched, me: nat, t: Task)
    requires SchedOk(s) && s.current == Some(me) && me < |s.tasks| && Seeded(t.caps)
    requires var old_ := s.tasks[me];
             t.state == old_.state && t.cr3 == old_.cr3 && t.home == old_.home && t.stack == old_.stack && t.space == old_.space
    ensures SchedOk(Put(s, me, t))
  {
    assert SlotOk(s, me);
    TouchKeeps(s, me, t);
    PutCounts(s, me, t);
  }

  /** A task that exits is in its program, so it stands in no queue: there is nothing to forget. */
  lemma ExitFindsNothing(k: State)
    requires Inv(k) && InProgram(k)
    ensures SysExit(k) == k.(sched := Exit(k.sched))
  {
    RunnerOk(k);
    var me := k.sched.current.value;
    forall e | 0 <= e < |k.channels|
      ensures !Ep.Waits(k.channels[e].ep, me) && Ep.Forget(k.channels[e].ep, me) == k.channels[e].ep
    {
      RunnerNotQueued(k.sched.tasks, k.channels, me, e);
      Ep.ForgetNobody(k.channels[e].ep, me);
    }
    assert SysExit(k).channels == k.channels;
  }

  // ---------------------------------------------------------------------------------------
  // Every step
  // ---------------------------------------------------------------------------------------

  lemma SchedStepKeeps(k: State, s': Sched)
    requires Inv(k) && SchedOk(s') && Quiet(k.sched.tasks, s'.tasks)
    ensures Inv(k.(sched := s'))
  {
    hide FlowOk;
    QuietFlow(k.sched.tasks, s'.tasks, k.channels, k.tally, k.granted);
  }

  lemma SpawnStepKeeps(k: State, space: Option<nat>, grants: seq<Cap>)
    requires Inv(k) && InBootstrap(k) && FreshRoot(k.sched, space)
    ensures Inv(k.(sched := Spawn(k.sched, space, Granted(grants)), granted := k.granted + (set c | c in grants)))
  {
    hide SchedOk, ChannelOk, Queued;
    var s' := Spawn(k.sched, space, Granted(grants));
    var t := s'.tasks[|k.sched.tasks|];
    var granted := k.granted + (set c | c in grants);
    SpawnKeeps(k.sched, space, Granted(grants));
    SpawnKeepsWait(k.sched.tasks, k.channels, t);
    SumAppend(k.sched.tasks, t, MailOne);
    SumAppend(k.sched.tasks, t, SendingOne);
    SumAppend(k.sched.tasks, t, AwaitingOne);
    HeldByGrants(grants);
    forall i | 0 <= i < |s'.tasks|
      ensures Confined(s'.tasks[i], granted)
    {
      assert i < |k.sched.tasks| ==> Confined(k.sched.tasks[i], k.granted);
    }
    forall e | 0 <= e < |k.channels|
      ensures AllCarry(k.channels[e], granted)
    {
      assert AllCarry(k.channels[e], k.granted);
    }
  }

  lemma HeldByGrants(grants: seq<Cap>)
    ensures Held(Granted(grants)) == set c | c in grants
  {
    var table := Granted(grants);
    forall c | c in grants
      ensures c in Held(table)
    {
      var i :| 0 <= i < |grants| && grants[i] == c;
      assert table[i + 1] == Some(c);
    }
  }

  lemma SendStepKeeps(k: State, handle: nat, payload: nat, capHandle: nat, readable: bool)
    requires Inv(k) && InProgram(k)
    ensures Inv(SysSend(k, handle, payload, capHandle, readable).0)
  {
    hide Inv, IpcSend, Carries;
    var id := EndpointFor(Me(k).caps, k.table, handle, true);
    if id.Ok? {
      CarriesOwn(k, capHandle, payload);
      if capHandle == 0 {
        IpcSendKeeps(k, id.value, Ep.KMessage(payload, None));
      } else if Resolve(Me(k).caps, capHandle).Some? {
        IpcSendKeeps(k, id.value, Ep.KMessage(payload, Some(Resolve(Me(k).caps, capHandle).value)));
      }
    }
  }

  lemma CarriesOwn(k: State, capHandle: nat, payload: nat)
    requires Inv(k) && InTask(k)
    ensures Carries(Ep.KMessage(payload, None), k.granted)
    ensures Resolve(Me(k).caps, capHandle).Some? ==>
              Carries(Ep.KMessage(payload, Some(Resolve(Me(k).caps, capHandle).value)), k.granted)
  {
    RunnerOk(k);
    if Resolve(Me(k).caps, capHandle).Some? {
      ResolvedIsHeld(Me(k).caps, capHandle);
    }
  }

  /** Every step keeps the invariant. */
  lemma StepKeeps(k: State, step: Step, k': State)
    requires Inv(k) && Do(k, step) == Some(k')
    ensures Inv(k')
  {
    hide FlowOk, SchedOk, IpcSend, IpcRecv, Return, PickNext;
    match step {
      case SpawnTask(space, grants) => SpawnStepKeeps(k, space, grants);
      case CreateObject(id, heap) => Objects.CreateKeeps(k.table, id, heap);
      case Start =>
        StartKeeps(k.sched);
        StartIsQuiet(k.sched);
        SchedStepKeeps(k, StartFirst(k.sched).value);
      case Settle =>
        PostSwitchKeeps(k.sched);
        WaitPart(k);
        SettleIsQuiet(k.sched, k.channels);
        SchedStepKeeps(k, PostSwitch(k.sched));
      case Switch =>
        RescheduleKeeps(k.sched);
        RescheduleIsQuiet(k.sched);
        SchedStepKeeps(k, Reschedule(k.sched).0);
      case SendCall(handle, payload, capHandle, readable) => SendStepKeeps(k, handle, payload, capHandle, readable);
      case RecvCall(handle, writable, heap) =>
        var id := EndpointFor(Me(k).caps, k.table, handle, false);
        if id.Ok? && writable {
          IpcRecvKeeps(k, id.value, heap);
        }
      case RevokeCall(handle) =>
        if Resolve(Me(k).caps, handle).Some? {
          Objects.RevokeKeeps(k.table, Resolve(Me(k).caps, handle).value.target);
        }
      case ResumeCall(heap) => ResumeKeeps(k, heap);
      case ExitCall =>
        RunnerOk(k);
        ExitFindsNothing(k);
        ExitKeeps(k.sched);
        ExitIsQuiet(k.sched);
        SchedStepKeeps(k, Exit(k.sched));
    }
  }

  lemma WaitPart(k: State)
    requires Inv(k)
    ensures WaitOk(k.sched.tasks, k.channels)
  {
  }

  /** So every reachable state has it. */
  lemma {:induction false} RunKeeps(ks: seq<State>, steps: seq<Step>, n: nat)
    requires IsRun(ks, steps) && n < |ks|
    ensures Inv(ks[n])
  {
    if n == 0 {
      var root :| ks[0] == Boot(root);
      BootOk(root);
    } else {
      RunKeeps(ks, steps, n - 1);
      assert Do(ks[n - 1], steps[n - 1]) == Some(ks[n - 1 + 1]);
      StepKeeps(ks[n - 1], steps[n - 1], ks[n]);
    }
  }
}
