/** One core's kernel as a state machine: every system call, switch and resumption is one step, and
    tasks are the only thing that takes them. */
module Kernel {
  import opened Basics
  import opened Counting
  import opened Caps
  import opened Scheduling
  import Objects
  import Ep = Endpoints

  const NUM_ENDPOINTS: nat := Objects.NUM_ENDPOINTS

  /** The errors a system call answers with. */
  datatype KError = InvalidArgument | OutOfResources | PermissionDenied | BadHandle

  /** How a system call ends: done, refused, or parked to be finished when the task runs again. */
  datatype Outcome = Done | Failed(error: KError) | Parked

  /** An endpoint with its history: every message it accepted and every one taken from it, in order,
      and how many sends blocked on it. */
  datatype Channel = Channel(ep: Ep.Ep, accepted: seq<Ep.KMessage>, taken: seq<Ep.KMessage>, sendBlocks: nat)

  datatype Tally = Tally(delivered: nat, buffered: nat, sent: nat, received: nat, recvBlocks: nat, capsMoved: nat,
                         diedBlocked: nat)

  datatype State = State(sched: Sched, channels: seq<Channel>, table: Objects.Table, tally: Tally, granted: set<Cap>)

  const START_TALLY: Tally := Tally(0, 0, 0, 0, 0, 0, 0)

  /** The machine before the first spawn, running in the kernel's own tree. */
  function Boot(kernelRoot: nat): State {
    State(Sched([], None, None, kernelRoot, kernelRoot, 0, 0, 0, 0, 0),
          seq(NUM_ENDPOINTS, _ => Channel(Ep.IDLE, [], [], 0)), Objects.Table([], []), START_TALLY, {})
  }

  // ---------------------------------------------------------------------------------------
  // System calls
  // ---------------------------------------------------------------------------------------

  predicate InTask(k: State) {
    k.sched.prev.None? && k.sched.current.Some? && k.sched.current.value < |k.sched.tasks| && |k.channels| == NUM_ENDPOINTS
  }

  /** A task is running its own program: it may be interrupted, or call the kernel. */
  predicate InProgram(k: State) {
    InTask(k) && k.sched.tasks[k.sched.current.value].resume == User
  }

  function Me(k: State): (t: Task)
    requires InTask(k)
  {
    k.sched.tasks[k.sched.current.value]
  }

  function PutMe(k: State, t: Task): State
    requires InTask(k)
  {
    k.(sched := Put(k.sched, k.sched.current.value, t))
  }

  function PutChannel(k: State, e: nat, c: Channel): State
    requires e < |k.channels|
  {
    k.(channels := k.channels[e := c])
  }

  /** `endpoint_for`: the right first, then whether the object still exists. */
  function EndpointFor(caps: CapTable, table: Objects.Table, handle: nat, wantSend: bool): Result<nat, KError> {
    match Resolve(caps, handle)
    case None => Err(BadHandle)
    case Some(cap) =>
      if (wantSend && !cap.send) || (!wantSend && !cap.recv) then Err(PermissionDenied)
      else
        match Objects.Lookup(table.slots, cap.target)
        case None => Err(BadHandle)
        case Some(id) => Ok(id)
  }

  /** `ipc::send`. */
  function IpcSend(k: State, e: nat, km: Ep.KMessage): (State, Outcome)
    requires InTask(k)
  {
    if e >= NUM_ENDPOINTS then (k, Failed(InvalidArgument))
    else
      var me := k.sched.current.value;
      var c := k.channels[e];
      var (ep', action) := Ep.Send(c.ep, me, km);
      var moved := k.tally.capsMoved + if km.cap.Some? && !action.Full? then 1 else 0;
      match action
      case Deliver(w) =>
        (PutChannel(k, e, c.(ep := ep', accepted := c.accepted + [km], taken := c.taken + [km]))
           .(tally := k.tally.(delivered := k.tally.delivered + 1, sent := k.tally.sent + 1, capsMoved := moved),
             sched := DeliverTo(k.sched, w, km)), Done)
      case Buffered =>
        (PutChannel(k, e, c.(ep := ep', accepted := c.accepted + [km]))
           .(tally := k.tally.(buffered := k.tally.buffered + 1, sent := k.tally.sent + 1, capsMoved := moved)), Done)
      case Block =>
        (PutChannel(k, e, c.(ep := ep', accepted := c.accepted + [km], sendBlocks := c.sendBlocks + 1))
           .(tally := k.tally.(capsMoved := moved), sched := Park(k.sched, InSend(e))), Parked)
      case Full => (k, Failed(OutOfResources))
  }

  /** A receive returning `km` to the running task: its capability is installed, if it has one. Where
      that takes growing the table and the heap cannot, the call fails and the message, which has
      left its endpoint, is lost with its capability. */
  function Return(k: State, km: Ep.KMessage, heap: bool): (State, Outcome)
    requires InTask(k)
  {
    var t := Me(k);
    var k' := k.(tally := k.tally.(received := k.tally.received + 1));
    var got, lost := t.(receipts := t.receipts + [Receipt(km, true)]), t.(receipts := t.receipts + [Receipt(km, false)]);
    if km.cap.None? then (PutMe(k', got), Done)
    else if FreeHandle(t.caps) == |t.caps| && !heap then (PutMe(k', lost), Failed(OutOfResources))
    else (PutMe(k', got.(caps := Installed(t.caps, km.cap.value))), Done)
  }

  /** The running task is handed `km`. */
  function Take(k: State, km: Ep.KMessage): State
    requires InTask(k)
  {
    PutMe(k, Me(k).(given := Me(k).given + [km]))
  }

  /** `ipc::recv`, and what `sys_recv` does with its answer. */
  function IpcRecv(k: State, e: nat, heap: bool): (State, Outcome)
    requires InTask(k)
  {
    if e >= NUM_ENDPOINTS then (k, Failed(InvalidArgument))
    else
      var c := k.channels[e];
      var (ep', action) := Ep.Recv(c.ep, k.sched.current.value);
      match action
      case Got(km) => Return(Take(PutChannel(k, e, c.(ep := ep', taken := c.taken + [km])), km), km, heap)
      case WakeSender(km, w) =>
        var k' := PutChannel(k, e, c.(ep := ep', taken := c.taken + [km])).(sched := Unblock(k.sched, w));
        Return(Take(k', km), km, heap)
      case Wait =>
        (PutChannel(k, e, c.(ep := ep'))
           .(tally := k.tally.(recvBlocks := k.tally.recvBlocks + 1), sched := Park(k.sched, InRecv(e))), Parked)
      case NoRoom => (k, Failed(OutOfResources))
  }

  /** `sys_send`: `readable` is what the range check says of the caller's buffer. */
  function SysSend(k: State, handle: nat, payload: nat, capHandle: nat, readable: bool): (State, Outcome)
    requires InTask(k)
  {
    var id := EndpointFor(Me(k).caps, k.table, handle, true);
    if id.Err? then (k, Failed(id.error))
    else if !readable then (k, Failed(InvalidArgument))
    else if capHandle == 0 then IpcSend(k, id.value, Ep.KMessage(payload, None))
    else
      match Resolve(Me(k).caps, capHandle)
      case None => (k, Failed(BadHandle))
      case Some(cap) => IpcSend(k, id.value, Ep.KMessage(payload, Some(cap)))
  }

  /** `sys_recv`. */
  function SysRecv(k: State, handle: nat, writable: bool, heap: bool): (State, Outcome)
    requires InTask(k)
  {
    var id := EndpointFor(Me(k).caps, k.table, handle, false);
    if id.Err? then (k, Failed(id.error))
    else if !writable then (k, Failed(InvalidArgument))
    else IpcRecv(k, id.value, heap)
  }

  /** `sys_revoke`. */
  function SysRevoke(k: State, handle: nat): (State, Outcome)
    requires InTask(k)
  {
    match Resolve(Me(k).caps, handle)
    case None => (k, Failed(BadHandle))
    case Some(cap) =>
      var (table, live) := k.table.Revoke(cap.target);
      (k.(table := table), if live then Done else Failed(BadHandle))
  }

  /** A task picked again after it parked goes on inside its call. A receiver takes what is in its
      mailbox; there is no step for one that finds it empty. */
  function Resume(k: State, heap: bool): Option<(State, Outcome)>
    requires InTask(k)
  {
    var t := Me(k);
    match t.resume
    case User => None
    case InSend(_) => Some((PutMe(k, t.(resume := User)).(tally := k.tally.(sent := k.tally.sent + 1)), Done))
    case InRecv(_) =>
      if t.mailbox.None? then None
      else Some(Return(PutMe(k, t.(resume := User, mailbox := None)), t.mailbox.value, heap))
  }

  /** `exit`: out of every queue, then dead. */
  function SysExit(k: State): State
    requires InTask(k)
  {
    var me := k.sched.current.value;
    var found := exists e :: 0 <= e < |k.channels| && Ep.Waits(k.channels[e].ep, me);
    k.(channels := seq(|k.channels|, e requires 0 <= e < |k.channels| => k.channels[e].(ep := Ep.Forget(k.channels[e].ep, me))),
       tally := k.tally.(diedBlocked := k.tally.diedBlocked + if found then 1 else 0),
       sched := Exit(k.sched))
  }

  /** The table a task starts with: the null handle, then its grants in order. */
  function Granted(grants: seq<Cap>): CapTable {
    EMPTY_CAPS + seq(|grants|, i requires 0 <= i < |grants| => Some(grants[i]))
  }

  // ---------------------------------------------------------------------------------------
  // Steps
  // ---------------------------------------------------------------------------------------

  datatype Step =
    | SpawnTask(space: Option<nat>, grants: seq<Cap>)
    | CreateObject(id: nat, heap: bool)
    | Start
    | Settle
    | Switch
    | SendCall(handle: nat, payload: nat, capHandle: nat, readable: bool)
    | RecvCall(handle: nat, writable: bool, heap: bool)
    | RevokeCall(handle: nat)
    | ResumeCall(heap: bool)
    | ExitCall

  /** The bootstrap context has the core, and has settled what it came back from. */
  predicate InBootstrap(k: State) {
    k.sched.prev.None? && k.sched.current.None?
  }

  /** The state after a step, if the step can be taken. `Switch` is a yield or a preemption, whether
      or not another task is ready. */
  ghost function Do(k: State, step: Step): Option<State> {
    match step
    case SpawnTask(space, grants) =>
      if InBootstrap(k) && FreshRoot(k.sched, space)
      then Some(k.(sched := Spawn(k.sched, space, Granted(grants)), granted := k.granted + (set c | c in grants)))
      else None
    case CreateObject(id, heap) =>
      if InBootstrap(k) then Some(k.(table := k.table.Create(id, heap).0)) else None
    case Start =>
      if InBootstrap(k) && StartFirst(k.sched).Some? then Some(k.(sched := StartFirst(k.sched).value)) else None
    case Settle => if k.sched.prev.Some? then Some(k.(sched := PostSwitch(k.sched))) else None
    case Switch => if InProgram(k) then Some(k.(sched := Reschedule(k.sched).0)) else None
    case SendCall(handle, payload, capHandle, readable) =>
      if InProgram(k) then Some(SysSend(k, handle, payload, capHandle, readable).0) else None
    case RecvCall(handle, writable, heap) =>
      if InProgram(k) then Some(SysRecv(k, handle, writable, heap).0) else None
    case RevokeCall(handle) => if InProgram(k) then Some(SysRevoke(k, handle).0) else None
    case ResumeCall(heap) => if InTask(k) && Resume(k, heap).Some? then Some(Resume(k, heap).value.0) else None
    case ExitCall => if InProgram(k) then Some(SysExit(k)) else None
  }

  ghost predicate IsRun(ks: seq<State>, steps: seq<Step>) {
    && |ks| == |steps| + 1 && (exists root :: ks[0] == Boot(root))
    && forall n :: 0 <= n < |steps| ==> Do(ks[n], steps[n]) == Some(ks[n + 1])
  }
}
