/** Who runs after a switch, and what becomes of the task it leaves, slot by slot. */
module Switching {
  import opened Basics
  import opened Scheduling
  import opened Kernel
  import opened KernelInvariant

  /** Slot `n` is ready, and the first that is, going round the table from behind `me`. */
  ghost predicate NextRound(tasks: seq<Task>, me: nat, n: nat) {
    && me < |tasks| && IsReady(tasks, n)
    && forall i :: 0 <= i < |tasks| && tasks[i].state == Ready ==> Distance(me, n, |tasks|) <= Distance(me, i, |tasks|)
  }

  /** How far behind slot `me` slot `i` comes, round a table of `n`: `me` itself comes last. */
  function Distance(me: nat, i: nat, n: nat): int {
    if i > me then i - me else i - me + n
  }

  ghost predicate NobodyReady(tasks: seq<Task>) {
    forall i :: 0 <= i < |tasks| ==> tasks[i].state != Ready
  }

  /** The core went from `me`, left in this state, to the next ready slot, or to the bootstrap context if
      there is none; it is in that slot's tree, or the kernel's, and remembers whom it left. */
  ghost predicate WentOn(s: Sched, s': Sched, me: nat, left: Task)
    requires me < |s.tasks|
  {
    && |s'.tasks| == |s.tasks| && s'.prev == Some(me) && s'.switches == s.switches + 1
    && (forall n: nat :: NextRound(s.tasks, me, n) && n != me ==>
          && s'.tasks == s.tasks[me := left][n := s.tasks[n].(state := Running)]
          && s'.current == Some(n) && s'.cr3 == s.tasks[n].cr3)
    && (NobodyReady(s.tasks) ==> s'.tasks == s.tasks[me := left] && s'.current == None && s'.cr3 == s.kernelRoot)
  }

  lemma RunnerIsRunning(k: State)
    requires Inv(k) && InTask(k)
    ensures Me(k).state == Running
    ensures |k.sched.tasks| > 0 && k.sched.prev.None?
  {
    RunnerOk(k);
  }

  /** The scan answers the slot that comes next. */
  lemma PickIsNext(tasks: seq<Task>, me: nat, n: nat)
    requires me < |tasks|
    ensures NextRound(tasks, me, n) ==> PickNext(tasks, me) == Some(n)
    ensures NobodyReady(tasks) ==> PickNext(tasks, me).None?
  {
    PickNextIsNearest(tasks, me);
    if NextRound(tasks, me, n) {
      var m := PickNext(tasks, me).value;
      assert Ahead(me, m, |tasks|) == Distance(me, m, |tasks|) && Ahead(me, n, |tasks|) == Distance(me, n, |tasks|);
      assert Distance(me, n, |tasks|) <= Distance(me, m, |tasks|);
    }
  }

  /** What is ready does not depend on the slot of the running task, unless it is made ready. */
  lemma NextBut(tasks: seq<Task>, me: nat, left: Task, n: nat)
    requires me < |tasks| && tasks[me].state != Ready && left.state != Ready
    ensures NextRound(tasks, me, n) ==> NextRound(tasks[me := left], me, n) && n != me
    ensures NobodyReady(tasks) ==> NobodyReady(tasks[me := left])
  {
  }

  /** A yield or a preemption leaves the running task ready and goes on, if anybody else is ready; if
      nobody is, it does nothing. */
  lemma SwitchGoesOn(k: State)
    requires Inv(k) && InProgram(k)
    ensures var s, k' := k.sched, Do(k, Switch);
            && k'.Some? && k'.value == k.(sched := k'.value.sched)
            && (NobodyReady(s.tasks) ==> k'.value == k)
            && (!NobodyReady(s.tasks) ==> WentOn(s, k'.value.sched, s.current.value, Me(k).(state := Ready)))
  {
    hide Inv, PickNext;
    RunnerIsRunning(k);
    var s, me := k.sched, k.sched.current.value;
    forall n: nat
      ensures NextRound(s.tasks, me, n) ==> PickNext(s.tasks, me) == Some(n)
    {
      PickIsNext(s.tasks, me, n);
    }
    PickIsNext(s.tasks, me, 0);
    PickNextIsNearest(s.tasks, me);
    if PickNext(s.tasks, me).None? {
      assert NobodyReady(s.tasks) by {
        forall i | 0 <= i < |s.tasks|
          ensures s.tasks[i].state != Ready
        {
          assert !IsReady(s.tasks, i);
        }
      }
    }
  }

  /** An exit leaves the task dead and goes on. */
  lemma ExitGoesOn(k: State)
    requires Inv(k) && InProgram(k)
    ensures var k' := Do(k, ExitCall);
            && k'.Some? && k'.value == k.(sched := k'.value.sched)
            && WentOn(k.sched, k'.value.sched, k.sched.current.value, Me(k).(state := Dead))
  {
    hide Inv, PickNext;
    RunnerIsRunning(k);
    ExitFindsNothing(k);
    LeavingGoesOn(k.sched, Me(k).(state := Dead));
  }

  /** So does parking, which leaves it blocked in its call. */
  lemma ParkGoesOn(k: State, resume: Resumption)
    requires Inv(k) && InTask(k)
    ensures WentOn(k.sched, Park(k.sched, resume), k.sched.current.value, Me(k).(state := Blocked, resume := resume))
    ensures Park(k.sched, resume).blocks == k.sched.blocks + 1 && Park(k.sched, resume).wakeups == k.sched.wakeups
  {
    hide Inv, PickNext;
    RunnerIsRunning(k);
    LeavingGoesOn(k.sched, Me(k).(state := Blocked, resume := resume));
  }

  lemma LeavingGoesOn(s: Sched, left: Task)
    requires s.current.Some? && s.current.value < |s.tasks| && s.tasks[s.current.value].state == Running && left.state != Ready
    ensures var me := s.current.value;
            var tasks := s.tasks[me := left];
            && (forall n: nat :: NextRound(s.tasks, me, n) ==> PickNext(tasks, me) == Some(n) && n != me && n < |tasks| && tasks[n] == s.tasks[n])
            && (NobodyReady(s.tasks) ==> PickNext(tasks, me).None?)
  {
    hide PickNext;
    var me := s.current.value;
    var tasks := s.tasks[me := left];
    forall n: nat
      ensures NextRound(s.tasks, me, n) ==> PickNext(tasks, me) == Some(n) && n != me && n < |tasks| && tasks[n] == s.tasks[n]
    {
      NextBut(s.tasks, me, left, n);
      PickIsNext(tasks, me, n);
    }
    NextBut(s.tasks, me, left, 0);
    PickIsNext(tasks, me, 0);
  }

  /** From the bootstrap context the lowest ready slot runs, in its tree; there is nobody to settle. */
  lemma StartGoesOn(k: State, n: nat)
    requires InBootstrap(k)
    requires IsReady(k.sched.tasks, n) && forall i :: 0 <= i < n ==> k.sched.tasks[i].state != Ready
    ensures var s, k' := k.sched, Do(k, Start);
            && k'.Some? && k'.value == k.(sched := k'.value.sched)
            && k'.value.sched.tasks == s.tasks[n := s.tasks[n].(state := Running)] && k'.value.sched.current == Some(n)
            && k'.value.sched.prev == None && k'.value.sched.cr3 == s.tasks[n].cr3 && k'.value.sched.switches == s.switches + 1
  {
  }

  /** Settling touches no slot but a dead one, which it empties, and changes neither who runs nor where. */
  lemma SettleIs(k: State)
    requires Inv(k) && k.sched.prev.Some?
    ensures var s, k' := k.sched, Do(k, Settle);
            && k'.Some? && k'.value == k.(sched := k'.value.sched)
            && var s', p := k'.value.sched, s.prev.value;
            && p < |s.tasks| && s'.prev == None && s'.current == s.current && s'.cr3 == s.cr3 && |s'.tasks| == |s.tasks|
            && (forall i :: 0 <= i < |s.tasks| && (i != p || s.tasks[i].state != Dead) ==> s'.tasks[i] == s.tasks[i])
            && (s.tasks[p].state == Dead ==>
                  && s'.tasks[p].state == Dead && !s'.tasks[p].stack && s'.tasks[p].space.None? && s'.tasks[p].caps == []
                  && s'.tasks[p].mailbox.None?)
  {
  }
}
