/** The kernel as it keeps itself: slots, queues and counters updated in place. Each method is one
    step of the state machine, up to the switch that ends it. */
module Machine {
  import opened Basics
  import opened Caps
  import opened Scheduling
  import opened KernelInvariant
  import Objects
  import Ep = Endpoints
  import K = Kernel
  import KernelTheorems
  import Waiting

  class Scheduler {
    var tasks: seq<Task>
    var current: Option<nat>
    var prev: Option<nat>
    var cr3: nat
    const kernelRoot: nat
    var switches: nat
    var blocks: nat
    var wakeups: nat
    var reapedStacks: nat
    var reapedSpaces: nat

    ghost function Now(): Sched
      reads this
    {
      Sched(tasks, current, prev, cr3, kernelRoot, switches, blocks, wakeups, reapedStacks, reapedSpaces)
    }

    predicate InTask()
      reads this
    {
      current.Some? && current.value < |tasks|
    }

    constructor (root: nat)
      ensures Now() == Sched([], None, None, root, root, 0, 0, 0, 0, 0)
    {
      tasks, current, prev, cr3, kernelRoot := [], None, None, root, root;
      switches, blocks, wakeups, reapedStacks, reapedSpaces := 0, 0, 0, 0, 0;
    }

    method FirstReadySlot() returns (r: Option<nat>)
      ensures r == FirstReady(tasks)
    {
      var i := 0;
      while i < |tasks|
        invariant i <= |tasks| && ReadyFrom(tasks, i) == FirstReady(tasks)
      {
        if tasks[i].state == Ready {
          return Some(i);
        }
        i := i + 1;
      }
      return None;
    }

    /** The round-robin scan. */
    method NextSlot(from: nat) returns (r: Option<nat>)
      ensures r == PickNext(tasks, from)
    {
      var n := |tasks|;
      if n == 0 {
        return None;
      }
      var off := 1;
      while off <= n
        invariant 1 <= off <= n + 1 && ReadyAfter(tasks, from, off) == PickNext(tasks, from)
      {
        var i := (from + off) % n;
        assert i == At(from, off, n);
        if tasks[i].state == Ready {
          return Some(i);
        }
        off := off + 1;
      }
      return None;
    }

    /** The common end of every switch: who is current and in which tree, `CR3` written only when it
        changes. */
    method Enter(left: Option<nat>, next: Option<nat>)
      requires next.Some? ==> next.value < |tasks|
      modifies this
      ensures Now() == SwitchTo(old(Now()), left, next)
    {
      var root := kernelRoot;
      if next.Some? {
        var n := next.value;
        tasks := tasks[n := tasks[n].(state := Running)];
        root := tasks[n].cr3;
      }
      current, prev := next, left;
      if cr3 != root {
        cr3 := root;
      }
      switches := switches + 1;
    }

    /** One turn of the loop in `start`. */
    method StartTurn() returns (switched: bool)
      modifies this
      ensures switched == StartFirst(old(Now())).Some?
      ensures Now() == if switched then StartFirst(old(Now())).value else old(Now())
    {
      var first := FirstReadySlot();
      if first.None? {
        return false;
      }
      Enter(None, first);
      return true;
    }

    method Yield() returns (switched: bool)
      requires current.Some? ==> current.value < |tasks|
      modifies this
      ensures (Now(), switched) == Reschedule(old(Now()))
    {
      if current.None? {
        return false;
      }
      var me := current.value;
      var next := NextSlot(me);
      if next.None? {
        return false;
      }
      if tasks[me].state == Running {
        tasks := tasks[me := tasks[me].(state := Ready)];
      }
      Enter(Some(me), next);
      return true;
    }

    /** `park_and_switch`. */
    method ParkAndSwitch(resume: Resumption)
      requires InTask()
      modifies this
      ensures Now() == Park(old(Now()), resume)
    {
      var me := current.value;
      tasks := tasks[me := tasks[me].(state := Blocked, resume := resume)];
      blocks := blocks + 1;
      var next := NextSlot(me);
      Enter(Some(me), next);
    }

    /** The switch half of `exit`. */
    method Leave()
      requires InTask()
      modifies this
      ensures Now() == Exit(old(Now()))
    {
      var me := current.value;
      tasks := tasks[me := tasks[me].(state := Dead)];
      var next := NextSlot(me);
      Enter(Some(me), next);
    }

    method Wake(i: nat)
      requires i < |tasks|
      modifies this
      ensures Now() == Unblock(old(Now()), i)
    {
      if tasks[i].state == Blocked {
        tasks := tasks[i := tasks[i].(state := Ready)];
        wakeups := wakeups + 1;
      }
    }

    /** `deliver`: the mailbox is filled before the state changes. */
    method Deliver(i: nat, km: Ep.KMessage)
      requires i < |tasks|
      modifies this
      ensures Now() == DeliverTo(old(Now()), i, km)
    {
      tasks := tasks[i := tasks[i].(mailbox := Some(km), given := tasks[i].given + [km])];
      Wake(i);
    }

    /** `post_switch`: the space it answers with is the one to be destroyed, taken from its slot. */
    method SettlePrevious() returns (space: Option<nat>)
      requires prev.Some? ==> prev.value < |tasks|
      modifies this
      ensures Now() == PostSwitch(old(Now()))
      ensures space == if old(prev.Some? && tasks[prev.value].state == Dead) then old(tasks[prev.value].space) else None
    {
      var left := prev;
      prev := None;
      if left.None? {
        return None;
      }
      var t := tasks[left.value];
      if t.state == Dead {
        if t.stack {
          reapedStacks := reapedStacks + 1;
        }
        if t.space.Some? {
          reapedSpaces := reapedSpaces + 1;
        }
        tasks := tasks[left.value := t.(stack := false, space := None, caps := [], mailbox := None)];
        return t.space;
      }
      return None;
    }

    /** `spawn_with`, when the heap can supply the slot. */
    method SpawnWith(space: Option<nat>, caps: CapTable)
      modifies this
      ensures Now() == Spawn(old(Now()), space, caps)
    {
      var root := if space.Some? then space.value else cr3;
      tasks := tasks + [Task(Ready, User, None, caps, root, space, true, space, [], [])];
    }
  }

  ghost predicate Share(o: Ep.Endpoint, p: Ep.Endpoint) {
    o == p || o.ring == p.ring || o.receivers == p.receivers || o.senders == p.senders
  }

  method TwoIdle() returns (a: Ep.Endpoint, b: Ep.Endpoint)
    ensures a.Valid() && b.Valid() && a.Now() == b.Now() == Ep.IDLE && !Share(a, b)
    ensures fresh(a) && fresh(a.ring) && fresh(a.receivers) && fresh(a.senders)
    ensures fresh(b) && fresh(b.ring) && fresh(b.receivers) && fresh(b.senders)
  {
    a := new Ep.Endpoint();
    b := new Ep.Endpoint();
  }

  ghost function Parts(o: Ep.Endpoint): set<object> {
    {o, o.ring, o.receivers, o.senders}
  }

  method FourIdle() returns (slots: seq<Ep.Endpoint>, ghost parts: set<object>)
    ensures |slots| == K.NUM_ENDPOINTS && fresh(parts)
    ensures forall e {:trigger slots[e]} :: 0 <= e < |slots| ==>
              slots[e].Valid() && slots[e].Now() == Ep.IDLE && slots[e] in parts
              && slots[e].ring in parts && slots[e].receivers in parts && slots[e].senders in parts
    ensures forall e, f :: 0 <= e < f < |slots| ==> !Share(slots[e], slots[f])
  {
    var e0, e1 := TwoIdle();
    var e2, e3 := TwoIdle();
    hide Ep.Endpoint.Valid, Ep.Endpoint.Now;
    slots := [e0, e1, e2, e3];
    parts := Parts(e0) + Parts(e1) + Parts(e2) + Parts(e3);
    assert !Share(e0, e2) && !Share(e0, e3) && !Share(e1, e2) && !Share(e1, e3);
  }

  /** The endpoint table: four endpoints that share nothing. */
  class EndpointTable {
    const slots: seq<Ep.Endpoint>
    ghost const repr: set<object>

    ghost predicate Valid()
      reads this, repr
    {
      && |slots| == K.NUM_ENDPOINTS
      && (forall e :: 0 <= e < |slots| ==> SlotValid(slots[e]))
      && (forall e, f :: 0 <= e < f < |slots| ==> !Share(slots[e], slots[f]))
    }

    ghost predicate SlotValid(o: Ep.Endpoint)
      reads this, repr
    {
      o in repr && o.ring in repr && o.receivers in repr && o.senders in repr && o.Valid()
    }

    ghost function At(e: nat): Ep.Ep
      requires Valid() && e < |slots|
      reads this, repr
    {
      assert SlotValid(slots[e]);
      slots[e].Now()
    }

    ghost function Now(): (s: seq<Ep.Ep>)
      requires Valid()
      reads this, repr
      ensures |s| == K.NUM_ENDPOINTS && forall e :: 0 <= e < |s| ==> s[e] == At(e)
    {
      [At(0), At(1), At(2), At(3)]
    }

    constructor ()
      ensures Valid() && fresh(repr) && forall e :: 0 <= e < K.NUM_ENDPOINTS ==> Now()[e] == Ep.IDLE
    {
      var four, parts := FourIdle();
      slots, repr := four, parts;
      new;
      hide Ep.Endpoint.Valid, Ep.Endpoint.Now, Share;
    }

    /** Whatever happened to endpoint `e` alone, the others are as they were. */
    twostate lemma OneChanged(e: nat)
      requires old(Valid()) && Valid() && e < |slots|
      requires forall f :: 0 <= f < |slots| && f != e ==>
                 unchanged(slots[f]) && unchanged(slots[f].ring) && unchanged(slots[f].receivers) && unchanged(slots[f].senders)
      ensures Now() == old(Now())[e := At(e)]
    {
      forall f | 0 <= f < |slots| && f != e
        ensures At(f) == old(At(f))
      {
        assert SlotValid(slots[f]);
      }
    }

    method DecideSend(e: nat, me: nat, km: Ep.KMessage) returns (action: Ep.SendAction)
      requires Valid() && e < K.NUM_ENDPOINTS
      modifies repr
      ensures Valid() && (Now(), action) == (old(Now())[e := Ep.Send(old(At(e)), me, km).0], Ep.Send(old(At(e)), me, km).1)
    {
      assert SlotValid(slots[e]);
      action := slots[e].DecideSend(me, km);
      StillValid(e);
      OneChanged(e);
    }

    method DecideRecv(e: nat, me: nat) returns (action: Ep.RecvAction)
      requires Valid() && e < K.NUM_ENDPOINTS
      modifies repr
      ensures Valid() && (Now(), action) == (old(Now())[e := Ep.Recv(old(At(e)), me).0], Ep.Recv(old(At(e)), me).1)
    {
      assert SlotValid(slots[e]);
      action := slots[e].DecideRecv(me);
      StillValid(e);
      OneChanged(e);
    }

    twostate lemma StillValid(e: nat)
      requires old(Valid()) && e < |slots| && slots[e].Valid()
      requires forall f :: 0 <= f < |slots| && f != e ==>
                 unchanged(slots[f]) && unchanged(slots[f].ring) && unchanged(slots[f].receivers) && unchanged(slots[f].senders)
      ensures Valid()
    {
      forall f | 0 <= f < |slots|
        ensures SlotValid(slots[f])
      {
        assert old(SlotValid(slots[f]));
      }
    }

    method RemoveAt(e: nat, task: nat) returns (found: bool)
      requires Valid() && e < K.NUM_ENDPOINTS
      modifies repr
      ensures Valid() && Now() == old(Now())[e := Ep.Forget(old(At(e)), task)] && found == Ep.Waits(old(At(e)), task)
    {
      assert SlotValid(slots[e]);
      found := slots[e].RemoveWaiter(task);
      StillValid(e);
      OneChanged(e);
    }

    /** `forget_task`: out of every queue; the answer is in how many endpoints it stood. */
    method ForgetTask(task: nat) returns (queues: nat)
      requires Valid()
      modifies repr
      ensures Valid() && forall e :: 0 <= e < K.NUM_ENDPOINTS ==> Now()[e] == Ep.Forget(old(Now())[e], task)
      ensures queues > 0 <==> exists e :: 0 <= e < K.NUM_ENDPOINTS && Ep.Waits(old(Now())[e], task)
    {
      hide Valid, At, Now, Ep.Waits, Ep.Forget;
      ghost var before := Now();
      queues := 0;
      for e := 0 to K.NUM_ENDPOINTS
        invariant Valid()
        invariant forall f :: 0 <= f < e ==> Now()[f] == Ep.Forget(before[f], task)
        invariant forall f :: e <= f < K.NUM_ENDPOINTS ==> Now()[f] == before[f]
        invariant queues > 0 <==> exists f :: 0 <= f < e && Ep.Waits(before[f], task)
      {
        SlotIs(e);
        var found := RemoveAt(e, task);
        if found {
          queues := queues + 1;
        }
      }
    }

    lemma SlotIs(e: nat)
      requires Valid() && e < K.NUM_ENDPOINTS
      ensures e < |slots| && At(e) == Now()[e]
    {
    }
  }

  /** Endpoints and their histories, side by side. */
  function Zip(eps: seq<Ep.Ep>, accepted: seq<seq<Ep.KMessage>>, taken: seq<seq<Ep.KMessage>>, blocks: seq<nat>): (s: seq<K.Channel>)
    requires |eps| == |accepted| == |taken| == |blocks|
    ensures |s| == |eps| && forall e :: 0 <= e < |s| ==> s[e] == K.Channel(eps[e], accepted[e], taken[e], blocks[e])
  {
    seq(|eps|, e requires 0 <= e < |eps| => K.Channel(eps[e], accepted[e], taken[e], blocks[e]))
  }

  /** One endpoint and its history change. */
  lemma ZipOne(eps: seq<Ep.Ep>, accepted: seq<seq<Ep.KMessage>>, taken: seq<seq<Ep.KMessage>>, blocks: seq<nat>, e: nat,
               ep: Ep.Ep, a: seq<Ep.KMessage>, t: seq<Ep.KMessage>, b: nat)
    requires |eps| == |accepted| == |taken| == |blocks| && e < |eps|
    ensures Zip(eps[e := ep], accepted[e := a], taken[e := t], blocks[e := b]) ==
            Zip(eps, accepted, taken, blocks)[e := K.Channel(ep, a, t, b)]
  {
  }

  /** The whole kernel: scheduler, endpoints, objects and counters. */
  class Core {
    const sched: Scheduler
    const objects: Objects.ObjectTable
    const table: EndpointTable
    var sendBlocks: seq<nat>
    var tally: K.Tally
    ghost var accepted: seq<seq<Ep.KMessage>>
    ghost var taken: seq<seq<Ep.KMessage>>
    ghost var granted: set<Cap>

    ghost function Footprint(): set<object>
    {
      {this, sched, objects, table} + table.repr
    }

    ghost predicate Valid()
      reads Footprint()
    {
      && table.Valid() && K.NUM_ENDPOINTS == |sendBlocks| == |accepted| == |taken|
      && this !in table.repr && sched !in table.repr && objects !in table.repr
    }

    ghost function Channels(): (s: seq<K.Channel>)
      requires Valid()
      reads Footprint()
      ensures |s| == K.NUM_ENDPOINTS
    {
      Zip(table.Now(), accepted, taken, sendBlocks)
    }

    ghost function Now(): K.State
      requires Valid()
      reads Footprint()
    {
      K.State(sched.Now(), Channels(), objects.Now(), tally, granted)
    }

    constructor (sched: Scheduler, table: EndpointTable, objects: Objects.ObjectTable)
      requires table.Valid() && sched !in table.repr && objects !in table.repr
      requires sched.tasks == [] && (forall e :: 0 <= e < K.NUM_ENDPOINTS ==> table.Now()[e] == Ep.IDLE)
      ensures Valid() && fresh(this) && this.sched == sched && this.table == table && this.objects == objects
      ensures Now() == K.State(sched.Now(), K.Boot(0).channels, objects.Now(), K.START_TALLY, {})
    {
      this.sched, this.table, this.objects := sched, table, objects;
      sendBlocks, tally := [0, 0, 0, 0], K.START_TALLY;
      accepted, taken, granted := [[], [], [], []], [[], [], [], []], {};
      new;
      hide EndpointTable.Valid, EndpointTable.Now;
      assert Channels() == K.Boot(0).channels;
    }

    /** `endpoint_for`. */
    method EndpointFor(handle: nat, wantSend: bool) returns (r: Result<nat, K.KError>)
      requires Valid() && K.InTask(Now())
      ensures r == K.EndpointFor(K.Me(Now()).caps, Now().table, handle, wantSend)
    {
      var cap := Resolve(sched.tasks[sched.current.value].caps, handle);
      if cap.None? {
        return Err(K.BadHandle);
      }
      if (wantSend && !cap.value.send) || (!wantSend && !cap.value.recv) {
        return Err(K.PermissionDenied);
      }
      var o := objects.Get(cap.value.target);
      return if o.Some? then Ok(o.value) else Err(K.BadHandle);
    }

    /** The decision under the endpoint's lock, and the capability it carries off. */
    method Decide(e: nat, km: Ep.KMessage) returns (action: Ep.SendAction)
      requires Valid() && K.InTask(Now()) && e < K.NUM_ENDPOINTS
      modifies this`tally, table.repr
      ensures Valid() && sched.Now() == old(sched.Now()) && objects.Now() == old(objects.Now())
      ensures (table.Now(), action) ==
              (old(table.Now())[e := Ep.Send(old(table.Now())[e], sched.current.value, km).0],
               Ep.Send(old(table.Now())[e], sched.current.value, km).1)
      ensures tally == old(tally).(capsMoved := old(tally).capsMoved + if km.cap.Some? && !action.Full? then 1 else 0)
    {
      hide EndpointTable.Valid, EndpointTable.Now, EndpointTable.At, Ep.Send;
      table.SlotIs(e);
      action := table.DecideSend(e, sched.current.value, km);
      if km.cap.Some? && !action.Full? {
        tally := tally.(capsMoved := tally.capsMoved + 1);
      }
    }

    /** `ipc::send`: decide on the endpoint, then count and act. */
    method IpcSend(e: nat, km: Ep.KMessage) returns (outcome: K.Outcome)
      requires Valid() && Inv(Now()) && K.InProgram(Now())
      modifies Footprint()
      ensures Valid() && (Now(), outcome) == K.IpcSend(old(Now()), e, km)
    {
      hide EndpointTable.Valid, EndpointTable.Now, Ep.Send, Inv, DeliverTo, Park, Zip, K.IpcSend;
      ghost var k, eps := Now(), table.Now();
      if e >= K.NUM_ENDPOINTS {
        NoSuchEndpoint(k, e, km);
        return K.Failed(K.InvalidArgument);
      }
      ReceiverInRange(k, e, km);
      SendCases(k, e, km);
      var action := Decide(e, km);
      ghost var ep' := Ep.Send(k.channels[e].ep, k.sched.current.value, km).0;
      match action {
        case Deliver(w) =>
          HandOver(e, km, w, k, eps, ep');
          return K.Done;
        case Buffered =>
          Record(e, km, false, false, eps, ep');
          tally := tally.(buffered := tally.buffered + 1, sent := tally.sent + 1);
          return K.Done;
        case Block =>
          BlockOn(e, km, k, eps, ep');
          return K.Parked;
        case Full =>
          FullChangesNothing(k.channels[e].ep, k.sched.current.value, km);
          assert eps[e := eps[e]] == eps;
          return K.Failed(K.OutOfResources);
      }
    }

    /** The decision has been taken and nothing else: the endpoint is the only thing that moved. */
    ghost predicate Decided(k: K.State, eps: seq<Ep.Ep>, e: nat, ep': Ep.Ep)
      requires Valid()
      reads Footprint()
    {
      && e < K.NUM_ENDPOINTS == |eps| && table.Now() == eps[e := ep']
      && k.channels == Zip(eps, accepted, taken, sendBlocks)
      && sched.Now() == k.sched && objects.Now() == k.table && granted == k.granted
    }

    /** Straight to a waiting receiver. */
    method HandOver(e: nat, km: Ep.KMessage, w: nat, ghost k: K.State, ghost eps: seq<Ep.Ep>, ghost ep': Ep.Ep)
      requires Valid() && Decided(k, eps, e, ep') && w < |sched.tasks|
      modifies this, sched
      ensures Valid()
      ensures var c := k.channels[e];
              Now() == k.(channels := k.channels[e := K.Channel(ep', c.accepted + [km], c.taken + [km], c.sendBlocks)],
                          tally := old(tally).(delivered := old(tally).delivered + 1, sent := old(tally).sent + 1),
                          sched := DeliverTo(k.sched, w, km))
    {
      hide EndpointTable.Valid, EndpointTable.Now, DeliverTo, Zip;
      Record(e, km, true, false, eps, ep');
      tally := tally.(delivered := tally.delivered + 1, sent := tally.sent + 1);
      sched.Deliver(w, km);
    }

    /** Onto the wait queue, and away. */
    method BlockOn(e: nat, km: Ep.KMessage, ghost k: K.State, ghost eps: seq<Ep.Ep>, ghost ep': Ep.Ep)
      requires Valid() && Decided(k, eps, e, ep') && sched.InTask()
      modifies this, sched
      ensures Valid()
      ensures var c := k.channels[e];
              Now() == k.(channels := k.channels[e := K.Channel(ep', c.accepted + [km], c.taken, c.sendBlocks + 1)],
                          tally := old(tally), sched := Park(k.sched, InSend(e)))
    {
      hide EndpointTable.Valid, EndpointTable.Now, Park, Zip;
      Record(e, km, false, true, eps, ep');
      sched.ParkAndSwitch(InSend(e));
    }

    /** The endpoint accepted `km`: it was handed over at once, or its sender blocked, or neither. */
    method Record(e: nat, km: Ep.KMessage, handed: bool, blocked: bool, ghost eps: seq<Ep.Ep>, ghost ep': Ep.Ep)
      requires Valid() && e < K.NUM_ENDPOINTS == |eps| && table.Now() == eps[e := ep']
      modifies this`accepted, this`taken, this`sendBlocks
      ensures Valid()
      ensures var c := Zip(eps, old(accepted), old(taken), old(sendBlocks))[e];
              Channels() == Zip(eps, old(accepted), old(taken), old(sendBlocks))
                              [e := K.Channel(ep', c.accepted + [km], if handed then c.taken + [km] else c.taken,
                                              c.sendBlocks + if blocked then 1 else 0)]
    {
      hide EndpointTable.Valid, EndpointTable.Now, Zip;
      ghost var a, t, b := accepted[e] + [km], if handed then taken[e] + [km] else taken[e], sendBlocks[e] + if blocked then 1 else 0;
      ZipOne(eps, accepted, taken, sendBlocks, e, ep', a, t, b);
      if blocked {
        sendBlocks := sendBlocks[e := sendBlocks[e] + 1];
      }
      accepted, taken := accepted[e := a], taken[e := t];
      assert old(sendBlocks)[e := b] == sendBlocks;
    }

    /** The message a receive returns goes to the running task, its capability into the task's table
        if the heap can hold it. */
    method Return(km: Ep.KMessage, heap: bool) returns (outcome: K.Outcome)
      requires Valid() && K.InTask(Now())
      modifies this`tally, sched`tasks
      ensures Valid() && (Now(), outcome) == K.Return(old(Now()), km, heap)
    {
      hide EndpointTable.Valid, EndpointTable.Now, Zip;
      var me := sched.current.value;
      var t := sched.tasks[me];
      tally := tally.(received := tally.received + 1);
      outcome := K.Done;
      if km.cap.Some? {
        var h := FreeHandle(t.caps);
        if h == |t.caps| && !heap {
          outcome := K.Failed(K.OutOfResources);
        } else {
          t := t.(caps := if h < |t.caps| then t.caps[h := km.cap] else t.caps + [km.cap]);
        }
      }
      t := t.(receipts := t.receipts + [Receipt(km, outcome == K.Done)]);
      sched.tasks := sched.tasks[me := t];
    }

    /** The endpoint gave up the head of its queue. */
    method RecordTaken(e: nat, km: Ep.KMessage, ghost eps: seq<Ep.Ep>, ghost ep': Ep.Ep)
      requires Valid() && K.InTask(Now()) && e < K.NUM_ENDPOINTS == |eps| && table.Now() == eps[e := ep']
      modifies this`taken, sched`tasks
      ensures Valid() && sched.Now() == Put(old(sched.Now()), sched.current.value, GivenMore(old(sched.tasks)[sched.current.value], km))
      ensures var c := Zip(eps, accepted, old(taken), sendBlocks)[e];
              Channels() == Zip(eps, accepted, old(taken), sendBlocks)[e := K.Channel(ep', c.accepted, c.taken + [km], c.sendBlocks)]
    {
      hide EndpointTable.Valid, EndpointTable.Now, Zip;
      ZipOne(eps, accepted, taken, sendBlocks, e, ep', accepted[e], taken[e] + [km], sendBlocks[e]);
      assert accepted[e := accepted[e]] == accepted && sendBlocks[e := sendBlocks[e]] == sendBlocks;
      taken := taken[e := taken[e] + [km]];
      var me := sched.current.value;
      sched.tasks := sched.tasks[me := GivenMore(sched.tasks[me], km)];
    }

    /** `ipc::recv`, and what `sys_recv` does with its answer. */
    method IpcRecv(e: nat, heap: bool) returns (outcome: K.Outcome)
      requires Valid() && Inv(Now()) && K.InProgram(Now())
      modifies Footprint()
      ensures Valid() && (Now(), outcome) == K.IpcRecv(old(Now()), e, heap)
    {
      hide EndpointTable.Valid, EndpointTable.Now, EndpointTable.At, Ep.Recv, Inv, Unblock, Park, Zip, K.IpcRecv, K.Return;
      ghost var k, eps := Now(), table.Now();
      if e >= K.NUM_ENDPOINTS {
        NoSuchReceive(k, e, heap);
        return K.Failed(K.InvalidArgument);
      }
      SenderInRange(k, e);
      RecvCases(k, e, heap);
      table.SlotIs(e);
      var action := table.DecideRecv(e, sched.current.value);
      ghost var ep' := Ep.Recv(k.channels[e].ep, k.sched.current.value).0;
      match action {
        case Got(km) =>
          RecordTaken(e, km, eps, ep');
          outcome := Return(km, heap);
        case WakeSender(km, w) =>
          sched.Wake(w);
          UnblockShape(k.sched, w, k.sched.current.value);
          RecordTaken(e, km, eps, ep');
          outcome := Return(km, heap);
        case Wait =>
          ghost var c := k.channels[e];
          ZipOne(eps, accepted, taken, sendBlocks, e, ep', c.accepted, c.taken, c.sendBlocks);
          assert accepted[e := c.accepted] == accepted && taken[e := c.taken] == taken && sendBlocks[e := c.sendBlocks] == sendBlocks;
          tally := tally.(recvBlocks := tally.recvBlocks + 1);
          sched.ParkAndSwitch(InRecv(e));
          outcome := K.Parked;
        case NoRoom =>
          NoRoomChangesNothing(k.channels[e].ep, k.sched.current.value);
          assert eps[e := eps[e]] == eps;
          outcome := K.Failed(K.OutOfResources);
      }
    }

    // ---------------------------------------------------------------------------------------
    // System calls, and what follows a switch
    // ---------------------------------------------------------------------------------------

    /** `sys_send`. */
    method SendCall(handle: nat, payload: nat, capHandle: nat, readable: bool) returns (outcome: K.Outcome)
      requires Valid() && Inv(Now()) && K.InProgram(Now())
      modifies Footprint()
      ensures Valid() && Inv(Now()) && (Now(), outcome) == K.SysSend(old(Now()), handle, payload, capHandle, readable)
    {
      hide EndpointTable.Valid, EndpointTable.Now, Zip, K.IpcSend, Inv, K.EndpointFor;
      SendStepKeeps(Now(), handle, payload, capHandle, readable);
      var id := EndpointFor(handle, true);
      if id.Err? {
        return K.Failed(id.error);
      }
      if !readable {
        return K.Failed(K.InvalidArgument);
      }
      var cap := None;
      if capHandle != 0 {
        cap := Resolve(sched.tasks[sched.current.value].caps, capHandle);
        if cap.None? {
          return K.Failed(K.BadHandle);
        }
      }
      outcome := IpcSend(id.value, Ep.KMessage(payload, cap));
    }

    /** `sys_recv`. */
    method RecvCall(handle: nat, writable: bool, heap: bool) returns (outcome: K.Outcome)
      requires Valid() && Inv(Now()) && K.InProgram(Now())
      modifies Footprint()
      ensures Valid() && Inv(Now()) && (Now(), outcome) == K.SysRecv(old(Now()), handle, writable, heap)
    {
      hide EndpointTable.Valid, EndpointTable.Now, Zip, K.IpcRecv, Inv, K.EndpointFor;
      StepKeeps(Now(), K.RecvCall(handle, writable, heap), K.SysRecv(Now(), handle, writable, heap).0);
      var id := EndpointFor(handle, false);
      if id.Err? {
        return K.Failed(id.error);
      }
      if !writable {
        return K.Failed(K.InvalidArgument);
      }
      outcome := IpcRecv(id.value, heap);
    }

    /** `sys_revoke`. */
    method RevokeCall(handle: nat) returns (outcome: K.Outcome)
      requires Valid() && Inv(Now()) && K.InProgram(Now())
      modifies objects
      ensures Valid() && Inv(Now()) && (Now(), outcome) == K.SysRevoke(old(Now()), handle)
    {
      hide EndpointTable.Valid, EndpointTable.Now, Zip, Inv;
      StepKeeps(Now(), K.RevokeCall(handle), K.SysRevoke(Now(), handle).0);
      var cap := Resolve(sched.tasks[sched.current.value].caps, handle);
      if cap.None? {
        return K.Failed(K.BadHandle);
      }
      var live := objects.Revoke(cap.value.target);
      return if live then K.Done else K.Failed(K.BadHandle);
    }

    /** The rest of `send` or `recv` after the park: a woken receiver takes its message, which is
        always there. */
    method ResumeCall(heap: bool) returns (outcome: K.Outcome)
      requires Valid() && Inv(Now()) && K.InTask(Now()) && K.Me(Now()).resume != User
      modifies this`tally, sched`tasks
      ensures Valid() && Inv(Now()) && Some((Now(), outcome)) == K.Resume(old(Now()), heap)
    {
      hide EndpointTable.Valid, EndpointTable.Now, Zip, Inv, K.Return;
      ResumeKeeps(Now(), heap);
      RunnerOk(Now());
      var me := sched.current.value;
      var t := sched.tasks[me];
      if t.resume.InSend? {
        sched.tasks := sched.tasks[me := t.(resume := User)];
        tally := tally.(sent := tally.sent + 1);
        outcome := K.Done;
      } else {
        var km := t.mailbox.value;
        sched.tasks := sched.tasks[me := t.(resume := User, mailbox := None)];
        outcome := Return(km, heap);
      }
    }

    /** `exit`: out of every queue, though it stands in none; then away for good. */
    method ExitCall()
      requires Valid() && Inv(Now()) && K.InProgram(Now())
      modifies Footprint()
      ensures Valid() && Inv(Now()) && Now() == K.SysExit(old(Now()))
    {
      hide EndpointTable.Valid, EndpointTable.Now, Zip, Inv, K.SysExit, Ep.Waits, Ep.Forget;
      ghost var k := Now();
      StepKeeps(k, K.ExitCall, K.SysExit(k));
      var queues := table.ForgetTask(sched.current.value);
      if queues > 0 {
        tally := tally.(diedBlocked := tally.diedBlocked + 1);
      }
      ExitFindsNothing(k);
      NobodyToForget(k);
      assert table.Now() == old(table.Now());
      sched.Leave();
    }
  }

  lemma NobodyToForget(k: K.State)
    requires Inv(k) && K.InProgram(k)
    ensures forall e :: 0 <= e < K.NUM_ENDPOINTS ==>
              !Ep.Waits(k.channels[e].ep, k.sched.current.value)
              && Ep.Forget(k.channels[e].ep, k.sched.current.value) == k.channels[e].ep
  {
    RunnerOk(k);
    forall e | 0 <= e < K.NUM_ENDPOINTS
      ensures !Ep.Waits(k.channels[e].ep, k.sched.current.value)
              && Ep.Forget(k.channels[e].ep, k.sched.current.value) == k.channels[e].ep
    {
      Waiting.RunnerNotQueued(k.sched.tasks, k.channels, k.sched.current.value, e);
      Ep.ForgetNobody(k.channels[e].ep, k.sched.current.value);
    }
  }

  function GivenMore(t: Task, km: Ep.KMessage): Task {
    t.(given := t.given + [km])
  }

  /** Waking one task changes no other slot and nobody's turn. */
  lemma UnblockShape(s: Sched, w: nat, me: nat)
    ensures var s' := Unblock(s, w);
            && |s'.tasks| == |s.tasks| && s'.current == s.current && s'.prev == s.prev
            && (me < |s.tasks| && me != w ==> s'.tasks[me] == s.tasks[me])
  {
  }

  lemma NoSuchReceive(k: K.State, e: nat, heap: bool)
    requires K.InTask(k) && e >= K.NUM_ENDPOINTS
    ensures K.IpcRecv(k, e, heap) == (k, K.Failed(K.InvalidArgument))
  {
  }

  lemma NoRoomChangesNothing(ep: Ep.Ep, me: nat)
    requires Ep.Recv(ep, me).1.NoRoom?
    ensures Ep.Recv(ep, me).0 == ep
  {
  }

  lemma SenderInRange(k: K.State, e: nat)
    requires Inv(k) && K.InTask(k) && e < K.NUM_ENDPOINTS
    ensures var action := Ep.Recv(k.channels[e].ep, k.sched.current.value).1;
            action.WakeSender? ==> action.task < |k.sched.tasks| && action.task != k.sched.current.value
  {
    if Ep.Recv(k.channels[e].ep, k.sched.current.value).1.WakeSender? {
      KernelTheorems.WokenIsNotMe(k, e);
    }
  }

  lemma RecvCases(k: K.State, e: nat, heap: bool)
    requires K.InTask(k) && e < K.NUM_ENDPOINTS
    ensures var me, c := k.sched.current.value, k.channels[e];
            var (ep', action) := Ep.Recv(c.ep, me);
            match action
            case Got(km) =>
              K.IpcRecv(k, e, heap) ==
              K.Return(k.(channels := k.channels[e := K.Channel(ep', c.accepted, c.taken + [km], c.sendBlocks)],
                          sched := Put(k.sched, me, GivenMore(k.sched.tasks[me], km))), km, heap)
            case WakeSender(km, w) =>
              (w < |k.sched.tasks| && w != me ==>
                 K.IpcRecv(k, e, heap) ==
                 K.Return(k.(channels := k.channels[e := K.Channel(ep', c.accepted, c.taken + [km], c.sendBlocks)],
                             sched := Put(Unblock(k.sched, w), me, GivenMore(k.sched.tasks[me], km))), km, heap))
            case Wait =>
              K.IpcRecv(k, e, heap) ==
              (k.(channels := k.channels[e := K.Channel(ep', c.accepted, c.taken, c.sendBlocks)],
                  tally := k.tally.(recvBlocks := k.tally.recvBlocks + 1), sched := Park(k.sched, InRecv(e))), K.Parked)
            case NoRoom => K.IpcRecv(k, e, heap) == (k, K.Failed(K.OutOfResources))
  {
    hide K.Return;
  }

  /** The machine before the first spawn. */
  method Boot(root: nat) returns (core: Core)
    ensures core.Valid() && core.Now() == K.Boot(root) && fresh(core.Footprint())
  {
    hide EndpointTable.Valid, EndpointTable.Now;
    var sched := new Scheduler(root);
    var objects := new Objects.ObjectTable();
    var table := new EndpointTable();
    core := new Core(sched, table, objects);
  }

  lemma FullChangesNothing(ep: Ep.Ep, me: nat, km: Ep.KMessage)
    requires Ep.Send(ep, me, km).1.Full?
    ensures Ep.Send(ep, me, km).0 == ep
  {
  }

  lemma NoSuchEndpoint(k: K.State, e: nat, km: Ep.KMessage)
    requires K.InTask(k) && e >= K.NUM_ENDPOINTS
    ensures K.IpcSend(k, e, km) == (k, K.Failed(K.InvalidArgument))
  {
  }

  /** What each decision makes of the kernel. */
  lemma SendCases(k: K.State, e: nat, km: Ep.KMessage)
    requires K.InTask(k) && e < K.NUM_ENDPOINTS
    ensures var c := k.channels[e];
            var (ep', action) := Ep.Send(c.ep, k.sched.current.value, km);
            var moved := k.tally.capsMoved + if km.cap.Some? && !action.Full? then 1 else 0;
            K.IpcSend(k, e, km) ==
            match action
            case Deliver(w) =>
              (k.(channels := k.channels[e := K.Channel(ep', c.accepted + [km], c.taken + [km], c.sendBlocks)],
                  tally := k.tally.(delivered := k.tally.delivered + 1, sent := k.tally.sent + 1, capsMoved := moved),
                  sched := DeliverTo(k.sched, w, km)), K.Done)
            case Buffered =>
              (k.(channels := k.channels[e := K.Channel(ep', c.accepted + [km], c.taken, c.sendBlocks)],
                  tally := k.tally.(buffered := k.tally.buffered + 1, sent := k.tally.sent + 1, capsMoved := moved)), K.Done)
            case Block =>
              (k.(channels := k.channels[e := K.Channel(ep', c.accepted + [km], c.taken, c.sendBlocks + 1)],
                  tally := k.tally.(capsMoved := moved), sched := Park(k.sched, InSend(e))), K.Parked)
            case Full => (k, K.Failed(K.OutOfResources))
  {
  }

  lemma ReceiverInRange(k: K.State, e: nat, km: Ep.KMessage)
    requires Inv(k) && K.InTask(k) && e < K.NUM_ENDPOINTS
    ensures var action := Ep.Send(k.channels[e].ep, k.sched.current.value, km).1;
            action.Deliver? ==> action.task < |k.sched.tasks|
  {
    KernelTheorems.ChannelPart(k, e);
  }
}
