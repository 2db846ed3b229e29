/** The scheduler of one core: task slots, who runs, and what a switch hands to its successor. */
module Scheduling {
  import opened Basics
  import opened Caps
  import opened Endpoints
  import opened Counting

  datatype RunState = Ready | Running | Blocked | Dead

  /** Where a task goes on when it next runs: its program, or the `send` or `recv` it parked in. */
  datatype Resumption = User | InSend(ep: nat) | InRecv(ep: nat)

  /** A message a receive took for a task, and whether the program got it: it does not when the
      capability it carries cannot be installed. */
  datatype Receipt = Receipt(km: KMessage, reached: bool)

  /** A task slot. `home` is the root of the space it was spawned with, `given` the messages handed to
      it and `receipts` what became of them: history, never cleared. */
  datatype Task = Task(state: RunState, resume: Resumption, mailbox: Option<KMessage>, caps: CapTable,
                       cr3: nat, space: Option<nat>, stack: bool,
                       home: Option<nat>, given: seq<KMessage>, receipts: seq<Receipt>)

  datatype Sched = Sched(tasks: seq<Task>, current: Option<nat>, prev: Option<nat>, cr3: nat, kernelRoot: nat,
                         switches: nat, blocks: nat, wakeups: nat, reapedStacks: nat, reapedSpaces: nat)

  // ---------------------------------------------------------------------------------------
  // Searches
  // ---------------------------------------------------------------------------------------

  predicate IsReady(tasks: seq<Task>, i: int) {
    0 <= i < |tasks| && tasks[i].state == Ready
  }

  /** The first ready slot from `i` on. */
  function ReadyFrom(tasks: seq<Task>, i: nat): (r: Option<nat>)
    ensures r.Some? ==> i <= r.value && IsReady(tasks, r.value) && forall j :: i <= j < r.value ==> !IsReady(tasks, j)
    ensures r.None? ==> forall j :: i <= j < |tasks| ==> !IsReady(tasks, j)
    decreases |tasks| - i
  {
    if i >= |tasks| then None else if tasks[i].state == Ready then Some(i) else ReadyFrom(tasks, i + 1)
  }

  function FirstReady(tasks: seq<Task>): Option<nat> {
    ReadyFrom(tasks, 0)
  }

  /** Slot `off` places after `from`, round the table. */
  function At(from: nat, off: nat, n: nat): (i: nat)
    requires n > 0
    ensures i < n
  {
    (from + off) % n
  }

  /** The first ready slot at least `off` and at most `n` places after `from`. */
  function ReadyAfter(tasks: seq<Task>, from: nat, off: nat): (r: Option<nat>)
    requires |tasks| > 0
    ensures r.Some? ==> IsReady(tasks, r.value)
    decreases |tasks| - off
  {
    if off > |tasks| then None
    else if tasks[At(from, off, |tasks|)].state == Ready then Some(At(from, off, |tasks|))
    else ReadyAfter(tasks, from, off + 1)
  }

  function PickNext(tasks: seq<Task>, from: nat): (r: Option<nat>)
    ensures r.Some? ==> IsReady(tasks, r.value)
  {
    if |tasks| == 0 then None else ReadyAfter(tasks, from, 1)
  }

  /** How many places after `from` slot `i` stands, from 1 to the size of the table. */
  function Ahead(from: nat, i: nat, n: nat): (off: nat)
    requires from < n && i < n
    ensures 1 <= off <= n && At(from, off, n) == i
  {
    var off := if i > from then i - from else i + n - from;
    ModOnce(from + off, n);
    off
  }

  lemma AtAhead(from: nat, off: nat, n: nat)
    requires from < n && 1 <= off <= n
    ensures Ahead(from, At(from, off, n), n) == off
  {
    ModOnce(from + off, n);
  }

  lemma {:induction false} ReadyAfterIsNearest(tasks: seq<Task>, from: nat, off: nat)
    requires from < |tasks| && 1 <= off <= |tasks| + 1
    ensures var r := ReadyAfter(tasks, from, off);
            && (r.None? ==> forall i :: IsReady(tasks, i) ==> Ahead(from, i, |tasks|) < off)
            && (r.Some? ==> off <= Ahead(from, r.value, |tasks|)
                            && forall i :: IsReady(tasks, i) && off <= Ahead(from, i, |tasks|) ==>
                                 Ahead(from, r.value, |tasks|) <= Ahead(from, i, |tasks|))
    decreases |tasks| - off
  {
    if off <= |tasks| {
      AtAhead(from, off, |tasks|);
      if tasks[At(from, off, |tasks|)].state != Ready {
        ReadyAfterIsNearest(tasks, from, off + 1);
      }
    }
  }

  /** The scan finds the ready slot that comes next round the table, and nothing only when no slot
      is ready. It can answer `from` itself: exactly when that is ready and no other slot is. */
  lemma PickNextIsNearest(tasks: seq<Task>, from: nat)
    requires from < |tasks|
    ensures PickNext(tasks, from).None? <==> forall i :: !IsReady(tasks, i)
    ensures PickNext(tasks, from).Some? ==>
              forall i :: IsReady(tasks, i) ==> Ahead(from, PickNext(tasks, from).value, |tasks|) <= Ahead(from, i, |tasks|)
    ensures PickNext(tasks, from) == Some(from) <==> IsReady(tasks, from) && forall i :: IsReady(tasks, i) ==> i == from
  {
    ReadyAfterIsNearest(tasks, from, 1);
  }

  // ---------------------------------------------------------------------------------------
  // Operations
  // ---------------------------------------------------------------------------------------

  function Put(s: Sched, i: nat, t: Task): Sched
    requires i < |s.tasks|
  {
    s.(tasks := s.tasks[i := t])
  }

  /** The switch itself: the next task, or the bootstrap context, becomes current in its own tree,
      and is handed the slot left behind. */
  function SwitchTo(s: Sched, prev: Option<nat>, next: Option<nat>): Sched
    requires next.Some? ==> next.value < |s.tasks|
  {
    match next
    case Some(n) =>
      Put(s, n, s.tasks[n].(state := Running)).(current := Some(n), prev := prev, cr3 := s.tasks[n].cr3, switches := s.switches + 1)
    case None =>
      s.(current := None, prev := prev, cr3 := s.kernelRoot, switches := s.switches + 1)
  }

  /** One turn of the loop in `start`, from the bootstrap context. */
  function StartFirst(s: Sched): Option<Sched> {
    if FirstReady(s.tasks).None? then None else Some(SwitchTo(s, None, FirstReady(s.tasks)))
  }

  /** `reschedule`, for a yield and for a preemption. */
  function Reschedule(s: Sched): (Sched, bool) {
    if s.current.None? || s.current.value >= |s.tasks| then (s, false)
    else
      var prev := s.current.value;
      var next := PickNext(s.tasks, prev);
      if next.None? then (s, false)
      else
        var left := if s.tasks[prev].state == Running then Put(s, prev, s.tasks[prev].(state := Ready)) else s;
        (SwitchTo(left, Some(prev), next), true)
  }

  /** `park_and_switch`, by a task that goes on at `resume`. */
  function Park(s: Sched, resume: Resumption): Sched
    requires s.current.Some? && s.current.value < |s.tasks|
  {
    var me := s.current.value;
    var left := Put(s, me, s.tasks[me].(state := Blocked, resume := resume)).(blocks := s.blocks + 1);
    SwitchTo(left, Some(me), PickNext(left.tasks, me))
  }

  /** `exit`, once the task stands in no queue. */
  function Exit(s: Sched): Sched
    requires s.current.Some? && s.current.value < |s.tasks|
  {
    var me := s.current.value;
    var left := Put(s, me, s.tasks[me].(state := Dead));
    SwitchTo(left, Some(me), PickNext(left.tasks, me))
  }

  /** `unblock`. */
  function Unblock(s: Sched, i: nat): Sched {
    if i < |s.tasks| && s.tasks[i].state == Blocked then
      Put(s, i, s.tasks[i].(state := Ready)).(wakeups := s.wakeups + 1)
    else s
  }

  /** `deliver`: the mailbox first, the state second. */
  function DeliverTo(s: Sched, i: nat, km: KMessage): Sched {
    if i < |s.tasks| then
      Unblock(Put(s, i, s.tasks[i].(mailbox := Some(km), given := s.tasks[i].given + [km])), i)
    else s
  }

  /** `post_switch`: settle the task this core just left, and reclaim what it held if it died. */
  function PostSwitch(s: Sched): Sched {
    if s.prev.None? then s
    else if s.prev.value >= |s.tasks| || s.tasks[s.prev.value].state != Dead then s.(prev := None)
    else
      var t := s.tasks[s.prev.value];
      Put(s, s.prev.value, t.(stack := false, space := None, caps := [], mailbox := None))
        .(prev := None,
          reapedStacks := s.reapedStacks + (if t.stack then 1 else 0),
          reapedSpaces := s.reapedSpaces + (if t.space.Some? then 1 else 0))
  }

  /** `spawn_with`. */
  function Spawn(s: Sched, space: Option<nat>, caps: CapTable): Sched {
    var root := if space.Some? then space.value else s.cr3;
    s.(tasks := s.tasks + [Task(Ready, User, None, caps, root, space, true, space, [], [])])
  }

  // ---------------------------------------------------------------------------------------
  // The switch invariant
  // ---------------------------------------------------------------------------------------

  /** What each slot is: in its own tree; complete until its successor has settled it, and empty
      after it died and was settled. */
  ghost predicate SlotOk(s: Sched, i: nat)
    requires i < |s.tasks|
  {
    var t := s.tasks[i];
    && (t.state == Running <==> s.current == Some(i))
    && t.cr3 == (if t.home.Some? then t.home.value else s.kernelRoot)
    && (t.home.Some? ==> t.home.value != s.kernelRoot)
    && (if t.state == Dead && s.prev != Some(i)
        then !t.stack && t.space.None? && t.caps == [] && t.mailbox.None?
        else t.stack && t.space == t.home && Seeded(t.caps))
  }

  /** Who runs, in which tree, and who is to be settled. */
  ghost predicate SwitchOk(s: Sched) {
    && (s.current.Some? ==> s.current.value < |s.tasks|)
    && (s.prev.Some? ==> s.prev.value < |s.tasks| && s.prev != s.current)
    && s.cr3 == (if s.current.Some? then s.tasks[s.current.value].cr3 else s.kernelRoot)
    && (forall i :: 0 <= i < |s.tasks| ==> SlotOk(s, i))
    && (forall i, j :: 0 <= i < j < |s.tasks| && s.tasks[i].space.Some? ==> s.tasks[i].space != s.tasks[j].space)
  }

  function BlockedOne(t: Task): nat {
    if t.state == Blocked then 1 else 0
  }

  function ReapedStackOne(t: Task): nat {
    if t.state == Dead && !t.stack then 1 else 0
  }

  function ReapedSpaceOne(t: Task): nat {
    if t.state == Dead && t.home.Some? && t.space.None? then 1 else 0
  }

  /** The counters say how many slots have been blocked and not woken, and reclaimed. */
  ghost predicate CountsOk(s: Sched) {
    && s.blocks == s.wakeups + Sum(s.tasks, BlockedOne)
    && s.reapedStacks == Sum(s.tasks, ReapedStackOne)
    && s.reapedSpaces == Sum(s.tasks, ReapedSpaceOne)
  }

  ghost predicate SchedOk(s: Sched) {
    SwitchOk(s) && CountsOk(s)
  }

  /** What one changed slot does to the counts. */
  lemma PutCounts(s: Sched, i: nat, t: Task)
    requires i < |s.tasks|
    ensures Sum(s.tasks[i := t], BlockedOne) + BlockedOne(s.tasks[i]) == Sum(s.tasks, BlockedOne) + BlockedOne(t)
    ensures Sum(s.tasks[i := t], ReapedStackOne) + ReapedStackOne(s.tasks[i]) == Sum(s.tasks, ReapedStackOne) + ReapedStackOne(t)
    ensures Sum(s.tasks[i := t], ReapedSpaceOne) + ReapedSpaceOne(s.tasks[i]) == Sum(s.tasks, ReapedSpaceOne) + ReapedSpaceOne(t)
  {
    SumUpdate(s.tasks, i, t, BlockedOne);
    SumUpdate(s.tasks, i, t, ReapedStackOne);
    SumUpdate(s.tasks, i, t, ReapedSpaceOne);
  }

  /** A state in which the core has left its task, on the way to the next. */
  ghost predicate Leaving(s: Sched, me: nat) {
    && me < |s.tasks| && s.tasks[me].state != Running && s.prev.None?
    && (forall i :: 0 <= i < |s.tasks| ==>
          if i == me then SlotOk(s.(current := None, prev := Some(me)), i) else SlotOk(s.(current := None), i))
    && (forall i, j :: 0 <= i < j < |s.tasks| && s.tasks[i].space.Some? ==> s.tasks[i].space != s.tasks[j].space)
  }

  lemma SwitchToKeeps(s: Sched, me: nat, next: Option<nat>)
    requires Leaving(s, me) && CountsOk(s) && (next.Some? ==> IsReady(s.tasks, next.value) && next.value != me)
    ensures SchedOk(SwitchTo(s, Some(me), next))
  {
    var s' := SwitchTo(s, Some(me), next);
    if next.Some? {
      PutCounts(s, next.value, s.tasks[next.value].(state := Running));
    }
    forall i | 0 <= i < |s'.tasks|
      ensures SlotOk(s', i)
    {
      if i == me {
        assert SlotOk(s.(current := None, prev := Some(me)), i);
      } else {
        assert SlotOk(s.(current := None), i);
      }
    }
  }

  /** The slot left behind is never ready when its successor is picked, so it is never picked. */
  lemma NeverItself(s: Sched, me: nat)
    requires me < |s.tasks| && s.tasks[me].state != Ready
    ensures PickNext(s.tasks, me) != Some(me)
  {
  }

  lemma LeavingAs(s: Sched, t: Task)
    requires SwitchOk(s) && s.prev.None? && s.current.Some?
    requires var old_ := s.tasks[s.current.value];
             && t.state != Running && t.cr3 == old_.cr3 && t.home == old_.home && t.stack == old_.stack
             && t.space == old_.space && t.caps == old_.caps
    ensures Leaving(Put(s, s.current.value, t), s.current.value)
  {
    var me := s.current.value;
    var s' := Put(s, me, t);
    assert SlotOk(s, me);
    forall i | 0 <= i < |s'.tasks|
      ensures if i == me then SlotOk(s'.(current := None, prev := Some(me)), i) else SlotOk(s'.(current := None), i)
    {
      assert SlotOk(s, i);
    }
  }

  lemma RescheduleKeeps(s: Sched)
    requires SchedOk(s) && s.prev.None?
    ensures SchedOk(Reschedule(s).0)
    ensures Reschedule(s).1 <==> s.current.Some? && exists i :: IsReady(s.tasks, i)
    ensures Reschedule(s).1 ==> Reschedule(s).0.prev == s.current && Reschedule(s).0.current != s.current
  {
    if s.current.Some? {
      var me := s.current.value;
      assert SlotOk(s, me);
      PickNextIsNearest(s.tasks, me);
      var next := PickNext(s.tasks, me);
      if next.Some? {
        var t := s.tasks[me].(state := Ready);
        LeavingAs(s, t);
        PutCounts(s, me, t);
        SwitchToKeeps(Put(s, me, t), me, next);
      }
    }
  }

  lemma ParkKeeps(s: Sched, resume: Resumption)
    requires SchedOk(s) && s.prev.None? && s.current.Some?
    ensures SchedOk(Park(s, resume))
    ensures Park(s, resume).prev == s.current && Park(s, resume).current != s.current
  {
    hide PickNext, Leaving, Sum;
    var me := s.current.value;
    assert SlotOk(s, me);
    var t := s.tasks[me].(state := Blocked, resume := resume);
    LeavingAs(s, t);
    PutCounts(s, me, t);
    var left := Put(s, me, t).(blocks := s.blocks + 1);
    LeavingOf(Put(s, me, t), left, me);
    SwitchToKeeps(left, me, PickNext(left.tasks, me));
  }

  lemma LeavingOf(s: Sched, s': Sched, me: nat)
    requires Leaving(s, me) && s' == s.(blocks := s'.blocks)
    ensures Leaving(s', me)
  {
    forall i | 0 <= i < |s'.tasks|
      ensures if i == me then SlotOk(s'.(current := None, prev := Some(me)), i) else SlotOk(s'.(current := None), i)
    {
      assert if i == me then SlotOk(s.(current := None, prev := Some(me)), i) else SlotOk(s.(current := None), i);
    }
  }

  lemma ExitKeeps(s: Sched)
    requires SchedOk(s) && s.prev.None? && s.current.Some?
    ensures SchedOk(Exit(s))
    ensures Exit(s).prev == s.current && Exit(s).current != s.current
  {
    var me := s.current.value;
    assert SlotOk(s, me);
    var t := s.tasks[me].(state := Dead);
    LeavingAs(s, t);
    PutCounts(s, me, t);
    SwitchToKeeps(Put(s, me, t), me, PickNext(s.tasks[me := t], me));
  }

  lemma StartKeeps(s: Sched)
    requires SchedOk(s) && s.prev.None? && s.current.None?
    ensures StartFirst(s).None? <==> forall i :: !IsReady(s.tasks, i)
    ensures StartFirst(s).Some? ==> SchedOk(StartFirst(s).value) && StartFirst(s).value.current.Some? && StartFirst(s).value.prev.None?
  {
    var first := FirstReady(s.tasks);
    if first.Some? {
      var s' := SwitchTo(s, None, first);
      PutCounts(s, first.value, s.tasks[first.value].(state := Running));
      forall i | 0 <= i < |s'.tasks|
        ensures SlotOk(s', i)
      {
        assert SlotOk(s, i);
      }
    }
  }

  /** Changing only what a slot waits for, holds in its mailbox, may do and has been given, and
      waking it, keeps the invariant. */
  lemma TouchKeeps(s: Sched, i: nat, t: Task)
    requires SwitchOk(s) && i < |s.tasks|
    requires var old_ := s.tasks[i];
             && (t.state == old_.state || (old_.state == Blocked && t.state == Ready)) && old_.state != Dead
             && t.cr3 == old_.cr3 && t.home == old_.home && t.stack == old_.stack && t.space == old_.space
             && Seeded(t.caps)
    ensures SwitchOk(Put(s, i, t))
  {
    var s' := Put(s, i, t);
    forall j | 0 <= j < |s'.tasks|
      ensures SlotOk(s', j)
    {
      assert SlotOk(s, j);
    }
  }

  lemma UnblockKeeps(s: Sched, i: nat)
    requires SchedOk(s)
    ensures SchedOk(Unblock(s, i))
  {
    if i < |s.tasks| && s.tasks[i].state == Blocked {
      assert SlotOk(s, i);
      var t := s.tasks[i].(state := Ready);
      TouchKeeps(s, i, t);
      PutCounts(s, i, t);
      SameSwitch(Put(s, i, t), Unblock(s, i));
    }
  }

  lemma SameSwitch(s: Sched, s': Sched)
    requires SwitchOk(s) && s'.tasks == s.tasks && s'.current == s.current && s'.prev == s.prev && s'.cr3 == s.cr3
    requires s'.kernelRoot == s.kernelRoot
    ensures SwitchOk(s')
  {
    forall j | 0 <= j < |s'.tasks|
      ensures SlotOk(s', j)
    {
      assert SlotOk(s, j);
    }
  }

  lemma DeliverKeeps(s: Sched, i: nat, km: KMessage)
    requires SchedOk(s) && i < |s.tasks| && s.tasks[i].state != Dead
    ensures SchedOk(DeliverTo(s, i, km))
  {
    assert SlotOk(s, i);
    var t := s.tasks[i].(mailbox := Some(km), given := s.tasks[i].given + [km]);
    TouchKeeps(s, i, t);
    PutCounts(s, i, t);
    UnblockKeeps(Put(s, i, t), i);
  }

  /** Settling keeps the invariant, and is safe: what it frees is the dead task's own, was still
      held, and is not the tree the core is in. */
  lemma PostSwitchKeeps(s: Sched)
    requires SchedOk(s)
    ensures SchedOk(PostSwitch(s)) && PostSwitch(s).prev.None?
    ensures s.prev.Some? && s.tasks[s.prev.value].state == Dead ==>
              var t := s.tasks[s.prev.value];
              && t.stack && t.space == t.home && (t.space.Some? ==> s.cr3 != t.space.value)
              && PostSwitch(s).reapedStacks == s.reapedStacks + 1
              && PostSwitch(s).reapedSpaces == s.reapedSpaces + if t.home.Some? then 1 else 0
    ensures !(s.prev.Some? && s.tasks[s.prev.value].state == Dead) ==>
              PostSwitch(s).reapedStacks == s.reapedStacks && PostSwitch(s).reapedSpaces == s.reapedSpaces
  {
    var s' := PostSwitch(s);
    if s.prev.Some? {
      var p := s.prev.value;
      assert SlotOk(s, p);
      if s.current.Some? {
        assert SlotOk(s, s.current.value);
      }
      if s.tasks[p].state == Dead {
        PutCounts(s, p, s'.tasks[p]);
      }
      forall j | 0 <= j < |s'.tasks|
        ensures SlotOk(s', j)
      {
        assert SlotOk(s, j);
      }
    }
  }

  /** A root no task holds and not the kernel's. */
  ghost predicate FreshRoot(s: Sched, space: Option<nat>) {
    space.Some? ==> space.value != s.kernelRoot && forall i :: 0 <= i < |s.tasks| ==> s.tasks[i].space != space
  }

  lemma SpawnKeeps(s: Sched, space: Option<nat>, caps: CapTable)
    requires SchedOk(s) && s.current.None? && s.prev.None? && FreshRoot(s, space) && Seeded(caps)
    ensures SchedOk(Spawn(s, space, caps))
  {
    var s' := Spawn(s, space, caps);
    var t := s'.tasks[|s.tasks|];
    SumAppend(s.tasks, t, BlockedOne);
    SumAppend(s.tasks, t, ReapedStackOne);
    SumAppend(s.tasks, t, ReapedSpaceOne);
    forall j | 0 <= j < |s'.tasks|
      ensures SlotOk(s', j)
    {
      assert j < |s.tasks| ==> SlotOk(s, j);
    }
  }
}
