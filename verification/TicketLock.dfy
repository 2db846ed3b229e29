/** The ticket lock as the steps its cores take: each atomic access of a counter is one step, and
    the steps of different cores interleave in any order. */
module TicketLock {
  import opened Basics

  /** The counters are 32 bits wide and wrap. */
  const WRAP: nat := 0x1_0000_0000

  /** Where a core is in `lock`, the critical section, and `drop`. */
  datatype Phase = Outside | Spinning(ticket: nat) | Inside

  /** The two counters and the cores, and what has happened so far: who took a ticket, who got in,
      both in order, and how many left. */
  datatype State = State(next: nat, serving: nat, phases: seq<Phase>,
                         arrivals: seq<nat>, entries: seq<nat>, releases: nat)

  datatype Step = Take(core: nat) | Load(core: nat) | Drop(core: nat)

  function Init(cores: nat): State {
    State(0, 0, seq(cores, _ => Outside), [], [], 0)
  }

  /** One atomic step: `next.fetch_add`, one load of `serving` in the spin loop, or
      `serving.fetch_add`. */
  function Do(s: State, step: Step): Option<State> {
    var c := step.core;
    if c >= |s.phases| then None
    else
      match (step, s.phases[c])
      case (Take(_), Outside) =>
        Some(s.(next := (s.next + 1) % WRAP, phases := s.phases[c := Spinning(s.next)], arrivals := s.arrivals + [c]))
      case (Load(_), Spinning(t)) =>
        if s.serving != t then Some(s)
        else Some(s.(phases := s.phases[c := Inside], entries := s.entries + [c]))
      case (Drop(_), Inside) =>
        Some(s.(serving := (s.serving + 1) % WRAP, phases := s.phases[c := Outside], releases := s.releases + 1))
      case _ => None
  }

  /** The states after each of the steps, from the unlocked lock on. */
  ghost predicate IsRun(cores: nat, ss: seq<State>, steps: seq<Step>) {
    && |ss| == |steps| + 1 && ss[0] == Init(cores)
    && forall k :: 0 <= k < |steps| ==> Do(ss[k], steps[k]) == Some(ss[k + 1])
  }

  ghost predicate Reachable(cores: nat, s: State) {
    exists ss, steps :: IsRun(cores, ss, steps) && ss[|ss| - 1] == s
  }

  // ---------------------------------------------------------------------------------------
  // The invariant
  // ---------------------------------------------------------------------------------------

  /** The cores that have a ticket and have not left, in the order they took it. */
  function Queue(s: State): seq<nat> {
    if s.releases <= |s.arrivals| then s.arrivals[s.releases..] else []
  }

  /** What the cores' tickets say about the queue: the counters count arrivals and departures, each
      contender stands in the queue once, its ticket is its place in it, and only its head is in. */
  ghost predicate Ordered(s: State) {
    && s.releases <= |s.arrivals|
    && s.next == |s.arrivals| % WRAP && s.serving == s.releases % WRAP
    && (forall i :: s.releases <= i < |s.arrivals| ==> InPlace(s, i))
    && Distinct(s)
    && (forall c :: 0 <= c < |s.phases| && s.phases[c] != Outside ==> c in Queue(s))
    && |s.entries| <= |s.arrivals| && s.entries == s.arrivals[..|s.entries|]
    && |s.entries| == s.releases + if HeadInside(s) then 1 else 0
  }

  /** The `i`th to arrive spins on its own ticket, or is the head and inside. */
  predicate InPlace(s: State, i: nat)
    requires i < |s.arrivals|
  {
    && s.arrivals[i] < |s.phases|
    && (s.phases[s.arrivals[i]] == Spinning(i % WRAP) || (i == s.releases && s.phases[s.arrivals[i]] == Inside))
  }

  predicate Distinct(s: State) {
    forall i, j :: s.releases <= i < j < |s.arrivals| ==> s.arrivals[i] != s.arrivals[j]
  }

  predicate HeadInside(s: State) {
    s.releases < |s.arrivals| && s.arrivals[s.releases] < |s.phases| && s.phases[s.arrivals[s.releases]] == Inside
  }

  /** A queue of distinct cores is no longer than the cores there are. */
  lemma {:induction false} DistinctBounded(q: seq<nat>, cores: nat)
    requires forall i :: 0 <= i < |q| ==> q[i] < cores
    requires forall i, j :: 0 <= i < j < |q| ==> q[i] != q[j]
    ensures |q| <= cores
  {
    if q != [] {
      assert q[0] < cores;
      var top := cores - 1;
      if top in q {
        var k :| 0 <= k < |q| && q[k] == top;
        DistinctBounded(q[..k] + q[k + 1..], cores - 1);
      } else {
        DistinctBounded(q, cores - 1);
      }
    }
  }

  lemma QueueBounded(s: State)
    requires Ordered(s)
    ensures |s.arrivals| - s.releases <= |s.phases|
  {
    assert forall i :: 0 <= i < |Queue(s)| ==> Queue(s)[i] < |s.phases| by {
      forall i | 0 <= i < |Queue(s)|
        ensures Queue(s)[i] < |s.phases|
      {
        assert InPlace(s, s.releases + i);
      }
    }
    DistinctBounded(Queue(s), |s.phases|);
  }

  /** Fewer than `WRAP` apart, two numbers are equal when their residues are. */
  lemma NearResidues(a: nat, b: nat)
    requires a % WRAP == b % WRAP && a <= b < a + WRAP
    ensures a == b
  {
  }

  lemma NextResidue(a: nat)
    ensures (a % WRAP + 1) % WRAP == (a + 1) % WRAP
  {
  }

  lemma InitOrdered(cores: nat)
    ensures Ordered(Init(cores))
  {
  }

  /** Every step of at most `WRAP` cores keeps the order. */
  lemma StepKeepsOrder(s: State, s': State, step: Step)
    requires Ordered(s) && |s.phases| <= WRAP && Do(s, step) == Some(s')
    ensures Ordered(s') && |s'.phases| == |s.phases|
  {
    var c := step.core;
    NextResidue(|s.arrivals|);
    NextResidue(s.releases);
    QueueBounded(s);
    match step {
      case Take(_) => TakeKeepsOrder(s, s', c);
      case Load(_) => LoadKeepsOrder(s, s', c);
      case Drop(_) => DropKeepsOrder(s, s', c);
    }
  }

  /** A core outside is nowhere in the queue. */
  lemma OutsideNotQueued(s: State, c: nat)
    requires Ordered(s) && c < |s.phases| && s.phases[c] == Outside
    ensures forall i :: s.releases <= i < |s.arrivals| ==> s.arrivals[i] != c
  {
    forall i | s.releases <= i < |s.arrivals|
      ensures s.arrivals[i] != c
    {
      assert InPlace(s, i);
    }
  }

  lemma TakeKeepsOrder(s: State, s': State, c: nat)
    requires Ordered(s) && Do(s, Take(c)) == Some(s')
    ensures Ordered(s')
  {
    hide InPlace, Distinct, Queue, HeadInside;
    NextResidue(|s.arrivals|);
    TakePlaces(s, s', c);
    TakeQueues(s, s', c);
    assert s'.entries == s'.arrivals[..|s'.entries|];
  }

  lemma TakePlaces(s: State, s': State, c: nat)
    requires Ordered(s) && Do(s, Take(c)) == Some(s')
    ensures Distinct(s') && HeadInside(s') == HeadInside(s)
    ensures forall i :: s'.releases <= i < |s'.arrivals| ==> InPlace(s', i)
  {
    hide Queue;
    OutsideNotQueued(s, c);
    forall i | s.releases <= i < |s'.arrivals|
      ensures InPlace(s', i)
    {
      if i < |s.arrivals| {
        assert InPlace(s, i);
      }
    }
    if s.releases < |s.arrivals| {
      assert InPlace(s, s.releases);
    }
  }

  lemma TakeQueues(s: State, s': State, c: nat)
    requires Ordered(s) && Do(s, Take(c)) == Some(s')
    ensures forall d :: 0 <= d < |s'.phases| && s'.phases[d] != Outside ==> d in Queue(s')
  {
    hide InPlace, Distinct, HeadInside;
    assert Queue(s') == Queue(s) + [c];
    forall d | 0 <= d < |s'.phases| && s'.phases[d] != Outside
      ensures d in Queue(s')
    {
      assert d != c ==> d in Queue(s);
    }
  }

  lemma LoadKeepsOrder(s: State, s': State, c: nat)
    requires Ordered(s) && |s.arrivals| - s.releases <= WRAP && Do(s, Load(c)) == Some(s')
    ensures Ordered(s')
  {
    if s' != s {
      HeadIsServed(s, c);
      assert Queue(s') == Queue(s);
      forall i | s.releases <= i < |s'.arrivals|
        ensures InPlace(s', i)
      {
        assert InPlace(s, i);
      }
    }
  }

  /** Where a core that is not outside stands. */
  lemma PlaceOf(s: State, c: nat) returns (i: nat)
    requires Ordered(s) && c < |s.phases| && s.phases[c] != Outside
    ensures s.releases <= i < |s.arrivals| && s.arrivals[i] == c && InPlace(s, i)
  {
    assert c in Queue(s);
    var k :| 0 <= k < |Queue(s)| && Queue(s)[k] == c;
    i := s.releases + k;
  }

  /** The core whose ticket is being served is the head of the queue. */
  lemma HeadIsServed(s: State, c: nat)
    requires Ordered(s) && |s.arrivals| - s.releases <= WRAP
    requires c < |s.phases| && s.phases[c] == Spinning(s.serving)
    ensures s.releases < |s.arrivals| && s.arrivals[s.releases] == c
  {
    var i := PlaceOf(s, c);
    NearResidues(s.releases, i);
  }

  lemma InsideIsHead(s: State, c: nat)
    requires Ordered(s) && c < |s.phases| && s.phases[c] == Inside
    ensures s.releases < |s.arrivals| && s.arrivals[s.releases] == c
  {
    var i := PlaceOf(s, c);
  }

  lemma DropKeepsOrder(s: State, s': State, c: nat)
    requires Ordered(s) && Do(s, Drop(c)) == Some(s')
    ensures Ordered(s')
  {
    hide InPlace, Distinct, Queue, HeadInside;
    NextResidue(s.releases);
    InsideIsHead(s, c);
    DropPlaces(s, s', c);
    DropQueues(s, s', c);
  }

  lemma DropPlaces(s: State, s': State, c: nat)
    requires Ordered(s) && Do(s, Drop(c)) == Some(s')
    requires s.releases < |s.arrivals| && s.arrivals[s.releases] == c
    ensures Distinct(s') && HeadInside(s) && !HeadInside(s')
    ensures forall i :: s'.releases <= i < |s'.arrivals| ==> InPlace(s', i)
  {
    hide Queue;
    forall i | s'.releases <= i < |s'.arrivals|
      ensures InPlace(s', i) && s'.phases[s'.arrivals[i]] != Inside
    {
      assert InPlace(s, i);
      assert s.arrivals[s.releases] != s.arrivals[i];
    }
  }

  lemma DropQueues(s: State, s': State, c: nat)
    requires Ordered(s) && Do(s, Drop(c)) == Some(s')
    requires s.releases < |s.arrivals| && s.arrivals[s.releases] == c
    ensures forall d :: 0 <= d < |s'.phases| && s'.phases[d] != Outside ==> d in Queue(s')
  {
    hide InPlace, Distinct, HeadInside;
    assert Queue(s) == [c] + Queue(s');
    forall d | 0 <= d < |s'.phases| && s'.phases[d] != Outside
      ensures d in Queue(s')
    {
      assert d in Queue(s);
    }
  }

  lemma {:induction false} RunKeepsOrder(cores: nat, ss: seq<State>, steps: seq<Step>, k: nat)
    requires IsRun(cores, ss, steps) && k < |ss| && cores <= WRAP
    ensures Ordered(ss[k]) && |ss[k].phases| == cores
  {
    if k == 0 {
      InitOrdered(cores);
    } else {
      RunKeepsOrder(cores, ss, steps, k - 1);
      assert Do(ss[k - 1], steps[k - 1]) == Some(ss[k - 1 + 1]);
      StepKeepsOrder(ss[k - 1], ss[k], steps[k - 1]);
    }
  }

  lemma ReachableOrdered(cores: nat, s: State)
    requires Reachable(cores, s) && cores <= WRAP
    ensures Ordered(s) && |s.phases| == cores
  {
    var ss, steps :| IsRun(cores, ss, steps) && ss[|ss| - 1] == s;
    RunKeepsOrder(cores, ss, steps, |ss| - 1);
  }

  // ---------------------------------------------------------------------------------------
  // What the lock promises
  // ---------------------------------------------------------------------------------------

  ghost predicate OneInside(s: State) {
    forall c, d :: 0 <= c < |s.phases| && 0 <= d < |s.phases| && s.phases[c] == Inside && s.phases[d] == Inside ==> c == d
  }

  lemma OrderedExcludes(s: State)
    requires Ordered(s)
    ensures OneInside(s)
  {
    forall c, d | 0 <= c < |s.phases| && 0 <= d < |s.phases| && s.phases[c] == Inside && s.phases[d] == Inside
      ensures c == d
    {
      InsideIsHead(s, c);
      InsideIsHead(s, d);
    }
  }

  /** First come, first served: in every reachable state those who got in are those who came first,
      in the order they came. */
  lemma FirstComeFirstServed(cores: nat, s: State)
    requires Reachable(cores, s) && cores <= WRAP
    ensures |s.entries| <= |s.arrivals| && s.entries == s.arrivals[..|s.entries|]
    ensures s.releases <= |s.entries| <= s.releases + 1
  {
    ReachableOrdered(cores, s);
  }

  /** Whenever some core has a ticket, the one that came first is in, or its next look at `serving`
      lets it in: nobody waits for a turn that is nobody's. */
  lemma ContendedIsServed(cores: nat, s: State)
    requires Reachable(cores, s) && cores <= WRAP
    requires exists c :: 0 <= c < |s.phases| && s.phases[c] != Outside
    ensures s.releases < |s.arrivals| && s.arrivals[s.releases] < |s.phases|
    ensures var head := s.arrivals[s.releases];
            s.phases[head] == Inside || (Do(s, Load(head)).Some? && Do(s, Load(head)).value.phases[head] == Inside)
  {
    ReachableOrdered(cores, s);
    var c :| 0 <= c < |s.phases| && s.phases[c] != Outside;
    var i := PlaceOf(s, c);
    assert InPlace(s, s.releases);
  }

  // ---------------------------------------------------------------------------------------
  // One contender too many
  // ---------------------------------------------------------------------------------------

  lemma RunExtends(cores: nat, s: State, step: Step, s': State)
    requires Reachable(cores, s) && Do(s, step) == Some(s')
    ensures Reachable(cores, s')
  {
    var ss, steps :| IsRun(cores, ss, steps) && ss[|ss| - 1] == s;
    var ss', steps' := ss + [s'], steps + [step];
    forall k | 0 <= k < |steps'|
      ensures Do(ss'[k], steps'[k]) == Some(ss'[k + 1])
    {
      if k < |steps| {
        assert Do(ss[k], steps[k]) == Some(ss[k + 1]);
      }
    }
    assert IsRun(cores, ss', steps');
  }

  /** The state when the first `n` cores have taken a ticket, in order, and the first is in. */
  function Crowd(cores: nat, n: nat): State
    requires 1 <= n <= cores
  {
    State(n % WRAP, 0, seq(cores, c => if c == 0 then Inside else if c < n then Spinning(c % WRAP) else Outside),
          seq(n, i => i), [0], 0)
  }

  lemma {:induction false} CrowdGathers(cores: nat, n: nat)
    requires 1 <= n <= cores
    ensures Reachable(cores, Crowd(cores, n))
  {
    if n == 1 {
      var s0 := Init(cores);
      assert IsRun(cores, [s0], []);
      assert [s0][|[s0]| - 1] == s0;
      var s1 := Do(s0, Take(0)).value;
      RunExtends(cores, s0, Take(0), s1);
      var s2 := Do(s1, Load(0)).value;
      RunExtends(cores, s1, Load(0), s2);
      assert s2.phases == Crowd(cores, 1).phases && s2.arrivals == Crowd(cores, 1).arrivals;
      assert s2 == Crowd(cores, 1);
    } else {
      CrowdGathers(cores, n - 1);
      var s, s' := Crowd(cores, n - 1), Crowd(cores, n);
      NextResidue(n - 1);
      assert s.phases[n - 1 := Spinning(s.next)] == s'.phases;
      assert s.arrivals + [n - 1] == s'.arrivals;
      RunExtends(cores, s, Take(n - 1), s');
    }
  }

  /** With `WRAP + 1` cores the last ticket is the first one again, and two cores get in. */
  lemma OneTooMany(cores: nat)
    requires cores > WRAP
    ensures exists s :: Reachable(cores, s) && !OneInside(s)
  {
    var s := Crowd(cores, WRAP + 1);
    CrowdGathers(cores, WRAP + 1);
    assert s.phases[WRAP] == Spinning(0);
    var s' := Do(s, Load(WRAP)).value;
    RunExtends(cores, s, Load(WRAP), s');
    assert s'.phases[0] == Inside && s'.phases[WRAP] == Inside;
  }

  /** Mutual exclusion holds in every reachable state exactly when no more cores share the lock
      than there are tickets. */
  lemma ExclusionIff(cores: nat)
    ensures (forall s :: Reachable(cores, s) ==> OneInside(s)) <==> cores <= 0x1_0000_0000
  {
    if cores <= WRAP {
      forall s | Reachable(cores, s)
        ensures OneInside(s)
      {
        ReachableOrdered(cores, s);
        OrderedExcludes(s);
      }
    } else {
      OneTooMany(cores);
    }
  }
}
