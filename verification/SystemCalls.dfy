/** What each system call does, said of the caller's table, the object table and the endpoint as they
    stand, without the functions that do it. */
module SystemCalls {
  import opened Basics
  import opened Caps
  import opened Scheduling
  import opened Kernel
  import opened Waiting
  import opened KernelInvariant
  import opened KernelTheorems
  import Objects
  import Ep = Endpoints

  /** The capability at a handle; the null handle has none. */
  ghost predicate Names(caps: CapTable, handle: nat, cap: Cap) {
    0 < handle < |caps| && caps[handle] == Some(cap)
  }

  ghost predicate NamesNone(caps: CapTable, handle: nat) {
    handle == 0 || handle >= |caps| || caps[handle].None?
  }

  /** The object a reference names is still there, in its own generation, and is endpoint `e`. */
  ghost predicate Lives(slots: seq<Objects.Slot>, r: Objects.ObjectRef, e: nat) {
    r.index < |slots| && slots[r.index].generation == r.generation && slots[r.index].content == Some(e)
  }

  ghost predicate Gone(slots: seq<Objects.Slot>, r: Objects.ObjectRef) {
    r.index < |slots| && slots[r.index].generation == r.generation ==> slots[r.index].content.None?
  }

  /** The handle lets its holder send to endpoint `e`. */
  ghost predicate MaySend(k: State, handle: nat, e: nat)
    requires InTask(k)
  {
    exists cap :: Names(Me(k).caps, handle, cap) && cap.send && Lives(k.table.slots, cap.target, e)
  }

  ghost predicate MayReceive(k: State, handle: nat, e: nat)
    requires InTask(k)
  {
    exists cap :: Names(Me(k).caps, handle, cap) && cap.recv && Lives(k.table.slots, cap.target, e)
  }

  /** The capability to be carried is none, or one the sender has. */
  ghost predicate MayCarry(k: State, capHandle: nat, carried: Option<Cap>)
    requires InTask(k)
  {
    if capHandle == 0 then carried.None? else carried.Some? && Names(Me(k).caps, capHandle, carried.value)
  }

  /** Somebody waits for a message, or a slot of the two is free, or a place of the four to wait in. */
  ghost predicate HasRoom(ep: Ep.Ep) {
    ep.receivers != [] || |ep.ring| < 2 || |ep.senders| < 4
  }

  /** A send goes through exactly when the handle has the right to send and its object lives, the message
      can be read, what it is to carry is the sender's, and there is room. Then the endpoint has exactly
      that message more, and no other endpoint has changed; otherwise nothing at all has. */
  lemma SendGoesThrough(k: State, handle: nat, payload: nat, capHandle: nat, readable: bool, e: nat, carried: Option<Cap>, f: nat)
    requires Inv(k) && InProgram(k) && e < 4 && f < 4 && f != e
    requires MaySend(k, handle, e) && readable && MayCarry(k, capHandle, carried) && HasRoom(k.channels[e].ep)
    ensures var k' := Do(k, SendCall(handle, payload, capHandle, readable));
            && k'.Some? && |k'.value.channels| == 4
            && k'.value.channels[e].accepted == k.channels[e].accepted + [Ep.KMessage(payload, carried)]
            && k'.value.channels[f] == k.channels[f]
    ensures var outcome := SysSend(k, handle, payload, capHandle, readable).1;
            outcome == if k.channels[e].ep.receivers == [] && |k.channels[e].ep.ring| == 2 then Parked else Done
  {
    hide Inv;
    EndpointCount(k);
    SendAppends(k, e, Ep.KMessage(payload, carried));
    CoherentAt(k, e);
  }

  /** Where an accepted message lands: in the mailbox of the receiver that has waited longest, which is
      woken; else at the end of the ring; else with its sender, who parks until a receive takes it up. */
  lemma SendLands(k: State, handle: nat, payload: nat, capHandle: nat, e: nat, carried: Option<Cap>)
    requires Inv(k) && InProgram(k) && e < 4
    requires MaySend(k, handle, e) && MayCarry(k, capHandle, carried) && HasRoom(k.channels[e].ep)
    ensures |k.channels| == 4
    ensures var k' := SysSend(k, handle, payload, capHandle, true).0;
            var me, km, ep := k.sched.current.value, Ep.KMessage(payload, carried), k.channels[e].ep;
            && |k'.channels| == 4 && |k'.sched.tasks| == |k.sched.tasks|
            && var ep' := k'.channels[e].ep;
            if ep.receivers != [] then
              var w := ep.receivers[0];
              && w < |k.sched.tasks| && k'.sched.tasks == k.sched.tasks[w := k'.sched.tasks[w]]
              && k'.sched.tasks[w].state == Ready && k'.sched.tasks[w].mailbox == Some(km)
              && ep' == ep.(receivers := ep.receivers[1..]) && k'.sched.current == k.sched.current
            else if |ep.ring| < 2 then ep' == ep.(ring := ep.ring + [km]) && k'.sched == k.sched
            else
              && ep' == ep.(senders := ep.senders + [Ep.Waiter(me, km)]) && k'.sched.prev == Some(me)
              && k'.sched.tasks[me].state == Blocked && k'.sched.tasks[me].resume == InSend(e)
              && k'.sched.blocks == k.sched.blocks + 1
  {
    hide Inv, Park;
    EndpointCount(k);
    CoherentAt(k, e);
    EndpointIs(k, handle, e);
    RunnerOk(k);
    ParkShapes(k.sched, InSend(e));
    if k.channels[e].ep.receivers != [] {
      FirstReceiver(k, e);
    }
  }

  lemma FirstReceiver(k: State, e: nat)
    requires Inv(k) && e < |k.channels| && k.channels[e].ep.receivers != []
    ensures ParkedAt(k.sched.tasks, k.channels[e].ep.receivers[0], InRecv(e))
  {
    ChannelPart(k, e);
  }

  lemma ParkShapes(s: Sched, resume: Resumption)
    requires s.current.Some? && s.current.value < |s.tasks| && s.tasks[s.current.value].state == Running
    ensures var s', me := Park(s, resume), s.current.value;
            && |s'.tasks| == |s.tasks| && s'.tasks[me].state == Blocked && s'.tasks[me].resume == resume
            && s'.prev == Some(me) && s'.blocks == s.blocks + 1
  {
  }

  lemma EndpointCount(k: State)
    requires Inv(k)
    ensures |k.channels| == 4
  {
  }

  lemma CoherentAt(k: State, e: nat)
    requires Inv(k) && e < |k.channels|
    ensures Ep.Coherent(k.channels[e].ep)
  {
    assert ChannelOk(k.channels[e]);
  }

  /** Why a send is refused, in the order it is found out; a refused send changes nothing. */
  lemma SendIsRefused(k: State, handle: nat, payload: nat, capHandle: nat, readable: bool)
    requires Inv(k) && InProgram(k)
    ensures var (k', outcome) := SysSend(k, handle, payload, capHandle, readable);
            var caps, slots := Me(k).caps, k.table.slots;
            && (outcome.Failed? ==> k' == k)
            && (NamesNone(caps, handle) ==> outcome == Failed(BadHandle))
            && (forall cap :: Names(caps, handle, cap) && !cap.send ==> outcome == Failed(PermissionDenied))
            && (forall cap :: Names(caps, handle, cap) && cap.send && Gone(slots, cap.target) ==> outcome == Failed(BadHandle))
            && (forall e :: MaySend(k, handle, e) && !readable ==> outcome == Failed(InvalidArgument))
            && (forall e :: MaySend(k, handle, e) && readable && capHandle != 0 && NamesNone(caps, capHandle) ==>
                  outcome == Failed(BadHandle))
            && (forall e: nat, carried ::
                  (e < |k.channels| && MaySend(k, handle, e) && readable && MayCarry(k, capHandle, carried)
                   && !HasRoom(k.channels[e].ep)) ==> outcome == Failed(OutOfResources))
  {
    hide Inv;
    EndpointCount(k);
  }

  /** A receive takes the head of the endpoint exactly when the handle has the right to receive, its
      object lives and the buffer can be written; where there is no head it parks, at the end of the
      queue of receivers if that has a place. No other endpoint changes. */
  lemma ReceiveGoesThrough(k: State, handle: nat, writable: bool, heap: bool, e: nat, f: nat)
    requires Inv(k) && InProgram(k) && e < 4 && f < 4 && f != e && MayReceive(k, handle, e) && writable
    ensures var k' := Do(k, RecvCall(handle, writable, heap));
            var outcome := SysRecv(k, handle, writable, heap).1;
            && k'.Some? && |k.channels| == |k'.value.channels| == 4 && k'.value.channels[f] == k.channels[f]
            && var c, c' := k.channels[e], k'.value.channels[e];
            && c'.accepted == c.accepted
            && (Ep.Pending(c.ep) != [] ==> c'.taken == c.taken + [Ep.Pending(c.ep)[0]] && Ep.Pending(c'.ep) == Ep.Pending(c.ep)[1..])
            && (Ep.Pending(c.ep) == [] && |c.ep.receivers| < 4 ==>
                  outcome == Parked && c'.taken == c.taken && c'.ep.receivers == c.ep.receivers + [k.sched.current.value])
            && (Ep.Pending(c.ep) == [] && |c.ep.receivers| >= 4 ==> outcome == Failed(OutOfResources) && k'.value == k)
  {
    hide Inv, Return, PickNext;
    EndpointCount(k);
    EndpointIs(k, handle, e);
    ReceiveAt(k, e, heap, f);
  }

  lemma EndpointIs(k: State, handle: nat, e: nat)
    requires InTask(k)
    ensures MayReceive(k, handle, e) ==> EndpointFor(Me(k).caps, k.table, handle, false) == Ok(e)
    ensures MaySend(k, handle, e) ==> EndpointFor(Me(k).caps, k.table, handle, true) == Ok(e)
  {
  }

  lemma ReceiveAt(k: State, e: nat, heap: bool, f: nat)
    requires Inv(k) && InProgram(k) && e < 4 && f < 4 && f != e && |k.channels| == 4
    ensures var (k', outcome) := IpcRecv(k, e, heap);
            && |k'.channels| == 4 && k'.channels[f] == k.channels[f]
            && var c, c' := k.channels[e], k'.channels[e];
            && c'.accepted == c.accepted
            && (Ep.Pending(c.ep) != [] ==> c'.taken == c.taken + [Ep.Pending(c.ep)[0]] && Ep.Pending(c'.ep) == Ep.Pending(c.ep)[1..])
            && (Ep.Pending(c.ep) == [] && |c.ep.receivers| < 4 ==>
                  outcome == Parked && c'.taken == c.taken && c'.ep.receivers == c.ep.receivers + [k.sched.current.value])
            && (Ep.Pending(c.ep) == [] && |c.ep.receivers| >= 4 ==> outcome == Failed(OutOfResources) && k' == k)
  {
    hide Inv, Return, PickNext, CapsAfter;
    RecvTakesHead(k, e, heap);
    CoherentAt(k, e);
    var c := k.channels[e];
    Ep.RecvIsTake(c.ep, k.sched.current.value);
    var (ep', action) := Ep.Recv(c.ep, k.sched.current.value);
    match action {
      case Got(km) => ReturnIs(Take(PutChannel(k, e, c.(ep := ep', taken := c.taken + [km])), km), km, heap);
      case WakeSender(km, w) =>
        var k1 := PutChannel(k, e, c.(ep := ep', taken := c.taken + [km])).(sched := Unblock(k.sched, w));
        ReturnIs(Take(k1, km), km, heap);
      case _ =>
    }
  }

  /** Why a receive is refused before it looks at the endpoint; it then changes nothing. */
  lemma ReceiveIsRefused(k: State, handle: nat, writable: bool, heap: bool)
    requires Inv(k) && InProgram(k)
    ensures var (k', outcome) := SysRecv(k, handle, writable, heap);
            var caps, slots := Me(k).caps, k.table.slots;
            && (NamesNone(caps, handle) ==> k' == k && outcome == Failed(BadHandle))
            && (forall cap :: Names(caps, handle, cap) && !cap.recv ==> k' == k && outcome == Failed(PermissionDenied))
            && (forall cap :: Names(caps, handle, cap) && cap.recv && Gone(slots, cap.target) ==>
                  k' == k && outcome == Failed(BadHandle))
            && (forall e :: MayReceive(k, handle, e) && !writable ==> k' == k && outcome == Failed(InvalidArgument))
  {
    hide Inv;
  }

  /** A revocation goes through exactly when the object lives, with whatever rights the handle has; then
      the reference names nothing, and every other reference names what it named. Otherwise nothing
      changes. */
  lemma RevokeGoesThrough(k: State, handle: nat, q: Objects.ObjectRef, f: nat)
    requires Inv(k) && InProgram(k)
    ensures var (k', outcome) := SysRevoke(k, handle);
            && Do(k, RevokeCall(handle)) == Some(k')
            && (NamesNone(Me(k).caps, handle) ==> k' == k && outcome == Failed(BadHandle))
            && (forall cap :: Names(Me(k).caps, handle, cap) ==>
                  && (Gone(k.table.slots, cap.target) ==> k' == k && outcome == Failed(BadHandle))
                  && (forall e :: Lives(k.table.slots, cap.target, e) ==>
                        && outcome == Done && k'.sched == k.sched && k'.channels == k.channels
                        && Gone(k'.table.slots, cap.target)
                        && (q != cap.target ==> (Lives(k'.table.slots, q, f) <==> Lives(k.table.slots, q, f)))))
  {
    var cap := Resolve(Me(k).caps, handle);
    if cap.Some? {
      Objects.RevokeSparesOthers(k.table, cap.value.target, q);
      if cap.value.target.index < |k.table.slots| {
        assert k.table.SlotOk(cap.value.target.index);
      }
    }
  }

  /** A spawned task is ready to run its program in its own tree, or the kernel's, with the grants at
      handles 1, 2, 3 and so on and nothing else. */
  lemma SpawnGrants(k: State, space: Option<nat>, grants: seq<Cap>, h: nat)
    requires Inv(k) && InBootstrap(k) && FreshRoot(k.sched, space)
    ensures var k' := Do(k, SpawnTask(space, grants));
            && k'.Some? && |k'.value.sched.tasks| == |k.sched.tasks| + 1
            && k'.value.sched.tasks[..|k.sched.tasks|] == k.sched.tasks
            && var t := k'.value.sched.tasks[|k.sched.tasks|];
            && t.state == Ready && t.resume == User && t.mailbox.None? && t.space == space && t.stack
            && t.cr3 == (if space.Some? then space.value else k.sched.kernelRoot)
            && (if 0 < h <= |grants| then Names(t.caps, h, grants[h - 1]) else NamesNone(t.caps, h))
  {
  }

  /** An object is created for every endpoint there is while the table has a free slot or can grow. */
  lemma CreateGoesThrough(t: Objects.Table, id: nat, heap: bool)
    ensures var (t', r) := t.Create(id, heap);
            && (r.Some? <==> id < 4 && (heap || exists i :: 0 <= i < |t.slots| && t.slots[i].content.None?))
            && (r.Some? ==> Lives(t'.slots, r.value, id))
            && (r.None? ==> t' == t)
  {
  }
}
