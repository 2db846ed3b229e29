/** One IPC endpoint: a bounded ring and two bounded wait queues, and the unbounded queue of
    messages they amount to. */
module Endpoints {
  import opened Basics
  import opened Caps

  const RING_CAP: nat := 2
  const MAX_WAITERS: nat := 4

  /** A message as the kernel carries it: its bytes, here one value, and the capability resolved for
      it when it was sent. */
  datatype KMessage = KMessage(payload: nat, cap: Option<Cap>)

  const EMPTY_MESSAGE: KMessage := KMessage(0, None)

  datatype Waiter = Waiter(task: nat, km: KMessage)

  /** An endpoint as a value: what is buffered, oldest first, and who waits, first come first. */
  datatype Ep = Ep(ring: seq<KMessage>, receivers: seq<nat>, senders: seq<Waiter>)

  const IDLE: Ep := Ep([], [], [])

  datatype SendAction = Deliver(task: nat) | Buffered | Block | Full

  datatype RecvAction = Got(km: KMessage) | WakeSender(km: KMessage, task: nat) | Wait | NoRoom

  /** What `send` decides under the lock, and the endpoint it leaves. */
  function Send(e: Ep, me: nat, km: KMessage): (Ep, SendAction) {
    if e.receivers != [] then (e.(receivers := e.receivers[1..]), Deliver(e.receivers[0]))
    else if |e.ring| < RING_CAP then (e.(ring := e.ring + [km]), Buffered)
    else if |e.senders| < MAX_WAITERS then (e.(senders := e.senders + [Waiter(me, km)]), Block)
    else (e, Full)
  }

  /** What `recv` decides, and the endpoint it leaves. */
  function Recv(e: Ep, me: nat): (Ep, RecvAction) {
    if e.ring != [] then
      var rest := e.ring[1..];
      if e.senders != [] then
        (e.(ring := rest + [e.senders[0].km], senders := e.senders[1..]), WakeSender(e.ring[0], e.senders[0].task))
      else (e.(ring := rest), Got(e.ring[0]))
    else if |e.receivers| < MAX_WAITERS then (e.(receivers := e.receivers + [me]), Wait)
    else (e, NoRoom)
  }

  /** The tasks of the queue but `task`. */
  function WithoutTask(q: seq<nat>, task: nat): (r: seq<nat>)
    ensures |r| <= |q|
    ensures task !in q ==> r == q
  {
    if q == [] then []
    else WithoutTask(q[..|q| - 1], task) + if q[|q| - 1] == task then [] else [q[|q| - 1]]
  }

  function WithoutSender(q: seq<Waiter>, task: nat): (r: seq<Waiter>)
    ensures |r| <= |q|
    ensures (forall w :: w in q ==> w.task != task) ==> r == q
  {
    if q == [] then []
    else WithoutSender(q[..|q| - 1], task) + if q[|q| - 1].task == task then [] else [q[|q| - 1]]
  }

  /** `remove_waiter`. */
  function Forget(e: Ep, task: nat): Ep {
    e.(receivers := WithoutTask(e.receivers, task), senders := WithoutSender(e.senders, task))
  }

  predicate Waits(e: Ep, task: nat) {
    task in e.receivers || HasSender(e.senders, task)
  }

  predicate HasSender(q: seq<Waiter>, task: nat) {
    exists i :: 0 <= i < |q| && q[i].task == task
  }

  lemma ForgetNobody(e: Ep, task: nat)
    requires !Waits(e, task)
    ensures Forget(e, task) == e
  {
    forall w | w in e.senders
      ensures w.task != task
    {
      var i :| 0 <= i < |e.senders| && e.senders[i] == w;
    }
  }

  /** Forgetting a task takes it out of both wait queues wherever it stands, and leaves everyone else in
      their order and the ring as it was. */
  lemma ForgetTakesOut(e: Ep, task: nat, q: seq<nat>, x: nat, r: seq<nat>, p: seq<Waiter>, y: Waiter, t: seq<Waiter>)
    requires e.receivers == q + [x] + r && e.senders == p + [y] + t
    ensures var e' := Forget(e, task);
            && !Waits(e', task) && e'.ring == e.ring
            && e'.receivers == WithoutTask(q, task) + (if x == task then [] else [x]) + WithoutTask(r, task)
            && e'.senders == WithoutSender(p, task) + (if y.task == task then [] else [y]) + WithoutSender(t, task)
  {
    SplitTasks(q + [x], r, task);
    SplitTasks(q, [x], task);
    SplitSenders(p + [y], t, task);
    SplitSenders(p, [y], task);
    assert WithoutTask([x], task) == if x == task then [] else [x];
    assert WithoutSender([y], task) == if y.task == task then [] else [y];
    TakenOut(e.receivers, e.senders, task);
  }

  lemma LastApart<T>(a: seq<T>, b: seq<T>)
    requires b != []
    ensures b == b[..|b| - 1] + [b[|b| - 1]] && a + b == a + b[..|b| - 1] + [b[|b| - 1]]
  {
  }

  lemma OneMoreTask(q: seq<nat>, x: nat, task: nat)
    ensures WithoutTask(q + [x], task) == WithoutTask(q, task) + if x == task then [] else [x]
  {
    assert (q + [x])[..|q|] == q;
  }

  lemma OneMoreSender(q: seq<Waiter>, w: Waiter, task: nat)
    ensures WithoutSender(q + [w], task) == WithoutSender(q, task) + if w.task == task then [] else [w]
  {
    assert (q + [w])[..|q|] == q;
  }

  lemma {:induction false} SplitTasks(a: seq<nat>, b: seq<nat>, task: nat)
    ensures WithoutTask(a + b, task) == WithoutTask(a, task) + WithoutTask(b, task)
  {
    if b == [] {
      assert a + b == a;
    } else {
      var rest, last := b[..|b| - 1], b[|b| - 1];
      SplitTasks(a, rest, task);
      hide WithoutTask;
      OneMoreTask(a + rest, last, task);
      OneMoreTask(rest, last, task);
      LastApart(a, b);
    }
  }

  lemma {:induction false} SplitSenders(a: seq<Waiter>, b: seq<Waiter>, task: nat)
    ensures WithoutSender(a + b, task) == WithoutSender(a, task) + WithoutSender(b, task)
  {
    if b == [] {
      assert a + b == a;
    } else {
      var rest, last := b[..|b| - 1], b[|b| - 1];
      SplitSenders(a, rest, task);
      hide WithoutSender;
      OneMoreSender(a + rest, last, task);
      OneMoreSender(rest, last, task);
      LastApart(a, b);
    }
  }

  lemma {:induction false} TakenOut(q: seq<nat>, p: seq<Waiter>, task: nat)
    ensures task !in WithoutTask(q, task) && !HasSender(WithoutSender(p, task), task)
    decreases |q| + |p|
  {
    if q != [] {
      TakenOut(q[..|q| - 1], p, task);
    } else if p != [] {
      TakenOut(q, p[..|p| - 1], task);
    }
  }

  // ---------------------------------------------------------------------------------------
  // The unbounded queue
  // ---------------------------------------------------------------------------------------

  function Messages(q: seq<Waiter>): (r: seq<KMessage>)
    ensures |r| == |q| && forall i :: 0 <= i < |r| ==> r[i] == q[i].km
  {
    seq(|q|, i requires 0 <= i < |q| => q[i].km)
  }

  /** Everything accepted and not yet taken, in order: what is buffered, then what the blocked
      senders carry. */
  function Pending(e: Ep): seq<KMessage> {
    e.ring + Messages(e.senders)
  }

  /** Receivers wait only where there is nothing to receive, senders only where there is no room. */
  predicate Coherent(e: Ep) {
    && |e.ring| <= RING_CAP && |e.receivers| <= MAX_WAITERS && |e.senders| <= MAX_WAITERS
    && (e.receivers != [] ==> e.ring == [])
    && (e.senders != [] ==> |e.ring| == RING_CAP)
  }

  /** A send appends to the queue, or hands over past an empty one; refused, it changes nothing. */
  lemma SendIsAppend(e: Ep, me: nat, km: KMessage)
    requires Coherent(e)
    ensures var (e', action) := Send(e, me, km);
            && Coherent(e')
            && (action.Deliver? ==> Pending(e) == [] == Pending(e') && e.receivers == [action.task] + e'.receivers)
            && (action.Buffered? || action.Block? ==> Pending(e') == Pending(e) + [km] && e'.receivers == e.receivers)
            && (action.Full? <==> e' == e) && (action.Full? ==> |Pending(e)| == RING_CAP + MAX_WAITERS)
  {
    var (e', action) := Send(e, me, km);
    if action.Block? {
      assert Messages(e'.senders) == Messages(e.senders) + [km];
    }
  }

  /** A receive takes the head of the queue, or waits exactly when the queue is empty. */
  lemma RecvIsTake(e: Ep, me: nat)
    requires Coherent(e)
    ensures var (e', action) := Recv(e, me);
            && Coherent(e')
            && (action.Got? || action.WakeSender? ==> Pending(e) == [action.km] + Pending(e') && e'.receivers == e.receivers)
            && (action.Wait? || action.NoRoom? <==> Pending(e) == [])
            && (action.Wait? ==> Pending(e') == [] && e'.receivers == e.receivers + [me])
            && (action.NoRoom? ==> e' == e && |e.receivers| == MAX_WAITERS)
  {
    if e.ring != [] {
      FirstOf(e.ring);
      if e.senders != [] {
        HeadMovesUp(e.ring, e.senders);
      }
    }
  }

  lemma FirstOf(ring: seq<KMessage>)
    requires ring != []
    ensures ring == [ring[0]] + ring[1..]
  {
  }

  /** The first sender's message, moved into the slot the head left, keeps its place. */
  lemma HeadMovesUp(ring: seq<KMessage>, senders: seq<Waiter>)
    requires ring != [] && senders != []
    ensures ring + Messages(senders) == [ring[0]] + (ring[1..] + [senders[0].km] + Messages(senders[1..]))
  {
  }

  // ---------------------------------------------------------------------------------------
  // In place
  // ---------------------------------------------------------------------------------------

  /** The endpoint as the kernel keeps it: fixed arrays, and how much of each is real. */
  class Endpoint {
    const ring: array<KMessage>
    const receivers: array<nat>
    const senders: array<Waiter>
    var head: nat
    var len: nat
    var nRecv: nat
    var nSend: nat

    ghost predicate Valid()
      reads this
    {
      && ring.Length == RING_CAP && receivers.Length == MAX_WAITERS && senders.Length == MAX_WAITERS
      && head < RING_CAP && len <= RING_CAP && nRecv <= MAX_WAITERS && nSend <= MAX_WAITERS
    }

    ghost function Ring(): (s: seq<KMessage>)
      requires ring.Length == RING_CAP
      reads this`head, this`len, ring
      ensures |s| == len
    {
      var slots, first, n := ring[..], head, len;
      seq(n, i requires 0 <= i < n && |slots| == RING_CAP => slots[(first + i) % RING_CAP])
    }

    ghost function Now(): Ep
      requires Valid()
      reads this, ring, receivers, senders
    {
      Ep(Ring(), receivers[..nRecv], senders[..nSend])
    }

    constructor ()
      ensures Valid() && Now() == IDLE && fresh(ring) && fresh(receivers) && fresh(senders)
    {
      ring := new KMessage[RING_CAP](_ => EMPTY_MESSAGE);
      receivers := new nat[MAX_WAITERS](_ => 0);
      senders := new Waiter[MAX_WAITERS](_ => Waiter(0, EMPTY_MESSAGE));
      head, len, nRecv, nSend := 0, 0, 0, 0;
    }

    method PushMsg(km: KMessage) returns (ok: bool)
      requires Valid()
      modifies this`len, ring
      ensures Valid() && ok == (|old(Now()).ring| < RING_CAP)
      ensures Now() == if ok then old(Now()).(ring := old(Now()).ring + [km]) else old(Now())
    {
      if len == RING_CAP {
        return false;
      }
      var tail := (head + len) % RING_CAP;
      ring[tail] := km;
      len := len + 1;
      return true;
    }

    method PopMsg() returns (km: Option<KMessage>)
      requires Valid()
      modifies this`head, this`len
      ensures Valid() && (km.None? <==> old(Now()).ring == [])
      ensures km.None? ==> Now() == old(Now())
      ensures km.Some? ==> km.value == old(Now()).ring[0] && Now() == old(Now()).(ring := old(Now()).ring[1..])
    {
      if len == 0 {
        return None;
      }
      var first := ring[head];
      head := (head + 1) % RING_CAP;
      len := len - 1;
      return Some(first);
    }

    method PushRecvWaiter(task: nat) returns (ok: bool)
      requires Valid()
      modifies this`nRecv, receivers
      ensures Valid() && ok == (|old(Now()).receivers| < MAX_WAITERS)
      ensures Now() == if ok then old(Now()).(receivers := old(Now()).receivers + [task]) else old(Now())
    {
      if nRecv == MAX_WAITERS {
        return false;
      }
      receivers[nRecv] := task;
      nRecv := nRecv + 1;
      return true;
    }

    method PopRecvWaiter() returns (task: Option<nat>)
      requires Valid()
      modifies this`nRecv, receivers
      ensures Valid() && (task.None? <==> old(Now()).receivers == [])
      ensures task.None? ==> Now() == old(Now())
      ensures task.Some? ==> task.value == old(Now()).receivers[0]
                             && Now() == old(Now()).(receivers := old(Now()).receivers[1..])
    {
      if nRecv == 0 {
        return None;
      }
      var first := receivers[0];
      forall i | 0 <= i < nRecv - 1 {
        receivers[i] := receivers[i + 1];
      }
      nRecv := nRecv - 1;
      return Some(first);
    }

    method PushSendWaiter(task: nat, km: KMessage) returns (ok: bool)
      requires Valid()
      modifies this`nSend, senders
      ensures Valid() && ok == (|old(Now()).senders| < MAX_WAITERS)
      ensures Now() == if ok then old(Now()).(senders := old(Now()).senders + [Waiter(task, km)]) else old(Now())
    {
      if nSend == MAX_WAITERS {
        return false;
      }
      senders[nSend] := Waiter(task, km);
      nSend := nSend + 1;
      return true;
    }

    method PopSendWaiter() returns (w: Option<Waiter>)
      requires Valid()
      modifies this`nSend, senders
      ensures Valid() && (w.None? <==> old(Now()).senders == [])
      ensures w.None? ==> Now() == old(Now())
      ensures w.Some? ==> w.value == old(Now()).senders[0] && Now() == old(Now()).(senders := old(Now()).senders[1..])
    {
      if nSend == 0 {
        return None;
      }
      var first := senders[0];
      forall i | 0 <= i < nSend - 1 {
        senders[i] := senders[i + 1];
      }
      nSend := nSend - 1;
      return Some(first);
    }

    /** The decision of `send`: a waiting receiver first, then the ring, then the wait queue. */
    method DecideSend(me: nat, km: KMessage) returns (action: SendAction)
      requires Valid()
      modifies this, ring, receivers, senders
      ensures Valid() && (Now(), action) == Send(old(Now()), me, km)
    {
      var w := PopRecvWaiter();
      if w.Some? {
        return Deliver(w.value);
      }
      var buffered := PushMsg(km);
      if buffered {
        return Buffered;
      }
      var queued := PushSendWaiter(me, km);
      return if queued then Block else Full;
    }

    /** The decision of `recv`: the oldest message, whose slot the first blocked sender's fills. */
    method DecideRecv(me: nat) returns (action: RecvAction)
      requires Valid()
      modifies this, ring, receivers, senders
      ensures Valid() && (Now(), action) == Recv(old(Now()), me)
    {
      var km := PopMsg();
      if km.Some? {
        var w := PopSendWaiter();
        if w.Some? {
          var pushed := PushMsg(w.value.km);
          return WakeSender(km.value, w.value.task);
        }
        return Got(km.value);
      }
      var queued := PushRecvWaiter(me);
      return if queued then Wait else NoRoom;
    }

    /** `remove_waiter`: the endpoint afterwards is `Forget`'s, and the answer is whether that differs. */
    method RemoveWaiter(task: nat) returns (found: bool)
      requires Valid()
      modifies this`nRecv, this`nSend, receivers, senders
      ensures Valid() && Now() == Forget(old(Now()), task) && found == Waits(old(Now()), task)
    {
      var inRecv := RemoveReceiver(task);
      var inSend := RemoveSender(task);
      return inRecv || inSend;
    }

    /** `copy_within(w + 1..n_recv, w)` and one fewer. */
    method CloseReceivers(w: nat)
      requires Valid() && w < nRecv
      modifies this`nRecv, receivers
      ensures Valid() && nRecv == old(nRecv) - 1
      ensures receivers[..w] == old(receivers[..w]) && receivers[w..nRecv] == old(receivers[w + 1..nRecv])
    {
      forall i | w <= i < nRecv - 1 {
        receivers[i] := receivers[i + 1];
      }
      nRecv := nRecv - 1;
    }

    method RemoveReceiver(task: nat) returns (found: bool)
      requires Valid()
      modifies this`nRecv, receivers
      ensures Valid() && receivers[..nRecv] == WithoutTask(old(receivers[..nRecv]), task)
      ensures found == (task in old(receivers[..nRecv]))
    {
      hide TasksSwept;
      ghost var q := receivers[..nRecv];
      ghost var kept: seq<nat>, rest := [], q;
      found := false;
      var w := 0;
      SweepTasks(q, task);
      while w < nRecv
        invariant Valid() && w <= nRecv && receivers[..w] == kept && receivers[w..nRecv] == rest
        invariant TasksSwept(q, rest, kept, found, task)
        decreases nRecv - w
      {
        assert receivers[w] == receivers[w..nRecv][0] == rest[0];
        SweepTask(q, rest, kept, found, task);
        if receivers[w] == task {
          CloseReceivers(w);
          found := true;
        } else {
          w := w + 1;
          kept := kept + [rest[0]];
        }
        rest := rest[1..];
      }
      TasksAreSwept(q, kept, found, task);
      assert receivers[..nRecv] == kept;
    }

    /** `copy_within(s + 1..n_send, s)` and one fewer. */
    method CloseSenders(s: nat)
      requires Valid() && s < nSend
      modifies this`nSend, senders
      ensures Valid() && nSend == old(nSend) - 1
      ensures senders[..s] == old(senders[..s]) && senders[s..nSend] == old(senders[s + 1..nSend])
    {
      forall i | s <= i < nSend - 1 {
        senders[i] := senders[i + 1];
      }
      nSend := nSend - 1;
    }

    method RemoveSender(task: nat) returns (found: bool)
      requires Valid()
      modifies this`nSend, senders
      ensures Valid() && senders[..nSend] == WithoutSender(old(senders[..nSend]), task)
      ensures found == HasSender(old(senders[..nSend]), task)
    {
      hide SendersSwept, HasSender;
      ghost var q := senders[..nSend];
      ghost var kept: seq<Waiter>, rest := [], q;
      found := false;
      var s := 0;
      SweepSenders(q, task);
      while s < nSend
        invariant Valid() && s <= nSend && senders[..s] == kept && senders[s..nSend] == rest
        invariant SendersSwept(q, rest, kept, found, task)
        decreases nSend - s
      {
        assert senders[s] == senders[s..nSend][0] == rest[0];
        SweepSender(q, rest, kept, found, task);
        if senders[s].task == task {
          CloseSenders(s);
          found := true;
        } else {
          s := s + 1;
          kept := kept + [rest[0]];
        }
        rest := rest[1..];
      }
      SendersAreSwept(q, kept, found, task);
      assert senders[..nSend] == kept;
    }
  }

  /** Part of the queue `q` has been gone through: `rest` is still to come, `kept` is what the part
      leaves, and `found` whether `task` was in it. */
  ghost predicate TasksSwept(q: seq<nat>, rest: seq<nat>, kept: seq<nat>, found: bool, task: nat) {
    var n := |q| - |rest|;
    n >= 0 && rest == q[n..] && kept == WithoutTask(q[..n], task) && found == (task in q[..n])
  }

  lemma SweepTasks(q: seq<nat>, task: nat)
    ensures TasksSwept(q, q, [], false, task)
  {
  }

  lemma SweepTask(q: seq<nat>, rest: seq<nat>, kept: seq<nat>, found: bool, task: nat)
    requires TasksSwept(q, rest, kept, found, task) && rest != []
    ensures if rest[0] == task then TasksSwept(q, rest[1..], kept, true, task)
            else TasksSwept(q, rest[1..], kept + [rest[0]], found, task)
  {
    var n := |q| - |rest|;
    var more := q[..n + 1];
    assert more[..n] == q[..n] && more[n] == rest[0];
    assert rest[1..] == q[n + 1..];
  }

  lemma TasksAreSwept(q: seq<nat>, kept: seq<nat>, found: bool, task: nat)
    requires TasksSwept(q, [], kept, found, task)
    ensures kept == WithoutTask(q, task) && found == (task in q)
  {
    assert q[..|q|] == q;
  }

  ghost predicate SendersSwept(q: seq<Waiter>, rest: seq<Waiter>, kept: seq<Waiter>, found: bool, task: nat) {
    var n := |q| - |rest|;
    n >= 0 && rest == q[n..] && kept == WithoutSender(q[..n], task) && found == HasSender(q[..n], task)
  }

  lemma SweepSenders(q: seq<Waiter>, task: nat)
    ensures SendersSwept(q, q, [], false, task)
  {
  }

  lemma SweepSender(q: seq<Waiter>, rest: seq<Waiter>, kept: seq<Waiter>, found: bool, task: nat)
    requires SendersSwept(q, rest, kept, found, task) && rest != []
    ensures if rest[0].task == task then SendersSwept(q, rest[1..], kept, true, task)
            else SendersSwept(q, rest[1..], kept + [rest[0]], found, task)
  {
    hide HasSender;
    var n := |q| - |rest|;
    var more := q[..n + 1];
    assert more[..n] == q[..n] && more[n] == rest[0];
    assert more == q[..n] + [rest[0]];
    assert rest[1..] == q[n + 1..];
    HasOneMore(q[..n], rest[0], task);
  }

  lemma HasOneMore(done: seq<Waiter>, w: Waiter, task: nat)
    ensures HasSender(done + [w], task) == (HasSender(done, task) || w.task == task)
  {
    var more := done + [w];
    assert more[|done|] == w;
    if HasSender(done, task) {
      var i :| 0 <= i < |done| && done[i].task == task;
      assert more[i].task == task;
    }
  }

  lemma SendersAreSwept(q: seq<Waiter>, kept: seq<Waiter>, found: bool, task: nat)
    requires SendersSwept(q, [], kept, found, task)
    ensures kept == WithoutSender(q, task) && found == HasSender(q, task)
  {
    assert q[..|q|] == q;
  }
}
