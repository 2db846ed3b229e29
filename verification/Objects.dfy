/** The kernel object table: what a capability's reference names, and how revoking an object reaches
    every reference to it. */
module Objects {
  import opened Basics

  /** Generations are 32-bit and wrap. */
  const GENERATIONS: nat := 0x1_0000_0000

  const NUM_ENDPOINTS: nat := 4

  /** An object is an endpoint, by its id. */
  type Object = nat

  datatype ObjectRef = ObjectRef(index: nat, generation: nat)

  /** A slot; `epoch` is its history: how often it has been revoked, which `generation` counts only
      up to wrapping. */
  datatype Slot = Slot(generation: nat, content: Option<Object>, epoch: nat)

  /** A reference `create` handed out, told by what it was minted for. */
  datatype Mint = Mint(index: nat, epoch: nat) {
    function Ref(): ObjectRef {
      ObjectRef(index, epoch % GENERATIONS)
    }
  }

  /** `get`. */
  function Lookup(slots: seq<Slot>, r: ObjectRef): Option<Object> {
    if r.index < |slots| && slots[r.index].generation == r.generation then slots[r.index].content else None
  }

  /** The first slot nothing lives in, or one past the end. */
  function FirstFree(slots: seq<Slot>): (i: nat)
    ensures i <= |slots| && (i < |slots| ==> slots[i].content.None?)
    ensures forall j :: 0 <= j < i ==> slots[j].content.Some?
  {
    if slots == [] then 0
    else
      var i := FirstFree(slots[..|slots| - 1]);
      if i < |slots| - 1 || slots[|slots| - 1].content.None? then i else |slots|
  }

  datatype Table = Table(slots: seq<Slot>, minted: seq<Mint>) {
    /** Generations follow epochs, every object can be used, and a slot has been minted in its
        present epoch only if something still lives in it. */
    ghost predicate Valid() {
      && (forall i :: 0 <= i < |slots| ==> SlotOk(i))
      && (forall m :: m in minted ==> MintOk(m))
      && (forall i, j :: 0 <= i < j < |minted| ==> minted[i] != minted[j])
    }

    predicate SlotOk(i: nat)
      requires i < |slots|
    {
      && slots[i].generation == slots[i].epoch % GENERATIONS
      && (slots[i].content.Some? ==> slots[i].content.value < NUM_ENDPOINTS)
    }

    predicate MintOk(m: Mint) {
      && m.index < |slots| && m.epoch <= slots[m.index].epoch
      && (m.epoch == slots[m.index].epoch ==> slots[m.index].content.Some?)
    }

    /** `create`: the table afterwards and the reference, or nothing for an id no endpoint has and
        for a heap that cannot grow the table. */
    function Create(id: Object, heap: bool): (Table, Option<ObjectRef>) {
      var i := FirstFree(slots);
      if id >= NUM_ENDPOINTS then (this, None)
      else if i < |slots| then
        var m := Mint(i, slots[i].epoch);
        (Table(slots[i := slots[i].(content := Some(id))], minted + [m]), Some(ObjectRef(i, slots[i].generation)))
      else if !heap then (this, None)
      else (Table(slots + [Slot(0, Some(id), 0)], minted + [Mint(|slots|, 0)]), Some(ObjectRef(|slots|, 0)))
    }

    /** `revoke`: the table afterwards, and whether the reference was live. */
    function Revoke(r: ObjectRef): (Table, bool) {
      if Lookup(slots, r).Some? then
        var s := slots[r.index];
        (Table(slots[r.index := Slot((s.generation + 1) % GENERATIONS, None, s.epoch + 1)], minted), true)
      else (this, false)
    }
  }

  lemma EmptyTable()
    ensures Table([], []).Valid()
  {
  }

  lemma NextGeneration(e: nat)
    ensures (e % GENERATIONS + 1) % GENERATIONS == (e + 1) % GENERATIONS
  {
  }

  lemma CreateKeeps(t: Table, id: Object, heap: bool)
    requires t.Valid()
    ensures t.Create(id, heap).0.Valid()
  {
    var t' := t.Create(id, heap).0;
    var i := FirstFree(t.slots);
    forall j | 0 <= j < |t'.slots|
      ensures t'.SlotOk(j)
    {
      assert j < |t.slots| ==> t.SlotOk(j);
    }
    forall m | m in t'.minted
      ensures t'.MintOk(m)
    {
      assert m in t.minted ==> t.MintOk(m);
    }
    if t'.minted != t.minted {
      var m := t'.minted[|t.minted|];
      assert !t.MintOk(m);
      assert m !in t.minted;
    }
  }

  lemma RevokeKeeps(t: Table, r: ObjectRef)
    requires t.Valid()
    ensures t.Revoke(r).0.Valid()
  {
    var t' := t.Revoke(r).0;
    forall j | 0 <= j < |t'.slots|
      ensures t'.SlotOk(j)
    {
      assert t.SlotOk(j);
      NextGeneration(t.slots[j].epoch);
    }
    forall m | m in t'.minted
      ensures t'.MintOk(m)
    {
      assert t.MintOk(m);
    }
  }

  /** The table in the form the kernel keeps it. */
  class ObjectTable {
    var slots: seq<Slot>
    ghost var minted: seq<Mint>

    ghost function Now(): Table
      reads this
    {
      Table(slots, minted)
    }

    constructor ()
      ensures Now() == Table([], [])
    {
      slots, minted := [], [];
    }

    method Create(id: Object, heap: bool) returns (r: Option<ObjectRef>)
      modifies this
      ensures (Now(), r) == old(Now()).Create(id, heap)
    {
      if id >= NUM_ENDPOINTS {
        return None;
      }
      var i := 0;
      while i < |slots|
        invariant i <= |slots| && forall j :: 0 <= j < i ==> slots[j].content.Some?
        invariant slots == old(slots) && minted == old(minted)
      {
        if slots[i].content.None? {
          minted := minted + [Mint(i, slots[i].epoch)];
          slots := slots[i := slots[i].(content := Some(id))];
          return Some(ObjectRef(i, slots[i].generation));
        }
        i := i + 1;
      }
      if !heap {
        return None;
      }
      slots := slots + [Slot(0, Some(id), 0)];
      minted := minted + [Mint(|slots| - 1, 0)];
      return Some(ObjectRef(|slots| - 1, 0));
    }

    method Get(r: ObjectRef) returns (found: Option<Object>)
      ensures found == Lookup(slots, r)
    {
      if r.index >= |slots| {
        return None;
      }
      var slot := slots[r.index];
      if slot.generation == r.generation {
        return slot.content;
      }
      return None;
    }

    method Revoke(r: ObjectRef) returns (live: bool)
      modifies this`slots
      ensures (Now(), live) == old(Now()).Revoke(r)
    {
      if r.index >= |slots| {
        return false;
      }
      var slot := slots[r.index];
      if slot.generation == r.generation && slot.content.Some? {
        slots := slots[r.index := Slot((slot.generation + 1) % GENERATIONS, None, slot.epoch + 1)];
        return true;
      }
      return false;
    }
  }

  // ---------------------------------------------------------------------------------------
  // References
  // ---------------------------------------------------------------------------------------

  /** A minted reference resolves exactly while something lives in its slot and the revocations
      since it was minted are a multiple of the number of generations: none, or a full turn. */
  lemma ResolvesIff(t: Table, m: Mint)
    requires t.Valid() && m in t.minted
    ensures m.index < |t.slots| && m.epoch <= t.slots[m.index].epoch
    ensures Lookup(t.slots, m.Ref()).Some? <==>
            t.slots[m.index].content.Some? && (t.slots[m.index].epoch - m.epoch) % 0x1_0000_0000 == 0
  {
    assert t.MintOk(m) && t.SlotOk(m.index);
    SameResidue(m.epoch, t.slots[m.index].epoch);
  }

  lemma SameResidue(a: nat, b: nat)
    requires a <= b
    ensures a % GENERATIONS == b % GENERATIONS <==> (b - a) % 0x1_0000_0000 == 0
  {
  }

  /** Creating an object changes what no reference but the new one resolves to, and that one
      resolved to nothing before. */
  lemma CreateSparesOthers(t: Table, id: Object, heap: bool, q: ObjectRef)
    ensures var (t', r) := t.Create(id, heap);
            && (r != Some(q) ==> Lookup(t'.slots, q) == Lookup(t.slots, q))
            && (r == Some(q) ==> Lookup(t.slots, q).None? && Lookup(t'.slots, q) == Some(id))
  {
  }

  /** Revoking one changes what no other reference resolves to. */
  lemma RevokeSparesOthers(t: Table, r: ObjectRef, q: ObjectRef)
    requires t.Valid()
    ensures var (t', live) := t.Revoke(r);
            && (q != r ==> Lookup(t'.slots, q) == Lookup(t.slots, q))
            && Lookup(t'.slots, r).None? && (live <==> Lookup(t.slots, r).Some?)
  {
    if Lookup(t.slots, r).Some? {
      assert t.SlotOk(r.index);
    }
  }

  /** Exactly when `create` hands out a reference it handed out before: the slot it takes is that
      reference's, and the revocations of the slot in between are whole turns of the generations. */
  lemma CreateRepeatsIff(t: Table, id: Object, heap: bool, m: Mint)
    requires t.Valid() && m in t.minted
    ensures m.index < |t.slots| && m.epoch <= t.slots[m.index].epoch
    ensures t.Create(id, heap).1 == Some(m.Ref()) <==>
            id < NUM_ENDPOINTS && FirstFree(t.slots) == m.index && (t.slots[m.index].epoch - m.epoch) % 0x1_0000_0000 == 0
  {
    assert t.MintOk(m) && t.SlotOk(m.index);
    SameResidue(m.epoch, t.slots[m.index].epoch);
  }

  // ---------------------------------------------------------------------------------------
  // Runs
  // ---------------------------------------------------------------------------------------

  datatype Op = Create(id: Object, heap: bool) | Revoke(r: ObjectRef)

  function Apply(t: Table, op: Op): Table {
    match op
    case Create(id, heap) => t.Create(id, heap).0
    case Revoke(r) => t.Revoke(r).0
  }

  ghost predicate IsRun(ts: seq<Table>, ops: seq<Op>) {
    && |ts| == |ops| + 1 && ts[0].Valid()
    && forall k :: 0 <= k < |ops| ==> ts[k + 1] == Apply(ts[k], ops[k])
  }

  /** Tables only gain slots and mints, and epochs only rise. */
  ghost predicate Later(t: Table, t': Table) {
    && |t.slots| <= |t'.slots| && t.minted <= t'.minted
    && forall i :: 0 <= i < |t.slots| ==> t.slots[i].epoch <= t'.slots[i].epoch
  }

  lemma {:induction false} RunMovesOn(ts: seq<Table>, ops: seq<Op>, a: nat, b: nat)
    requires IsRun(ts, ops) && a <= b < |ts|
    ensures ts[b].Valid() && Later(ts[a], ts[b])
    decreases b
  {
    if b > 0 {
      hide Apply, Later, Table.Valid;
      RunMovesOn(ts, ops, if a < b then a else b - 1, b - 1);
      assert ts[b - 1 + 1] == Apply(ts[b - 1], ops[b - 1]);
      OpMovesOn(ts[b - 1], ops[b - 1]);
      if a < b {
        LaterTwice(ts[a], ts[b - 1], ts[b]);
      } else {
        LaterSelf(ts[b]);
      }
    } else {
      LaterSelf(ts[0]);
    }
  }

  lemma OpMovesOn(t: Table, op: Op)
    requires t.Valid()
    ensures Apply(t, op).Valid() && Later(t, Apply(t, op))
  {
    match op {
      case Create(id, heap) => CreateKeeps(t, id, heap);
      case Revoke(r) => RevokeKeeps(t, r);
    }
  }

  lemma LaterSelf(t: Table)
    ensures Later(t, t)
  {
  }

  lemma LaterTwice(t: Table, t': Table, t'': Table)
    requires Later(t, t') && Later(t', t'')
    ensures Later(t, t'')
  {
  }

  /** The slot of `m` has been revoked a whole number of turns of the generations, at least one, since
      `m` was minted, and something lives in it. */
  predicate TurnedRound(t: Table, m: Mint) {
    && m.index < |t.slots| && t.slots[m.index].content.Some? && t.slots[m.index].epoch >= m.epoch + 0x1_0000_0000
    && (t.slots[m.index].epoch - m.epoch) % 0x1_0000_0000 == 0
  }

  /** Revocation is permanent but for the wrap: in every state after a minted reference has been
      revoked it resolves exactly when its slot is in use again after a whole number of turns of
      the generations. */
  lemma RevocationLasts(ts: seq<Table>, ops: seq<Op>, a: nat, b: nat, m: Mint)
    requires IsRun(ts, ops) && a < b < |ts| && m in ts[a].minted
    requires ops[a] == Revoke(m.Ref())
    ensures Lookup(ts[b].slots, m.Ref()).Some? <==> TurnedRound(ts[b], m)
  {
    RunMovesOn(ts, ops, a, a);
    RunMovesOn(ts, ops, a, a + 1);
    RunMovesOn(ts, ops, a + 1, b);
    assert ts[a + 1] == Apply(ts[a], ops[a]);
    assert ts[a].MintOk(m);
    ResolvesIff(ts[a], m);
    OnceRevoked(ts[a], ts[a + 1], ts[b], m);
  }

  lemma OnceRevoked(t: Table, t': Table, t'': Table, m: Mint)
    requires t.Valid() && t''.Valid() && m in t.minted && t' == t.Revoke(m.Ref()).0 && Later(t', t'')
    ensures Lookup(t''.slots, m.Ref()).Some? <==> TurnedRound(t'', m)
  {
    assert t.MintOk(m) && m in t''.minted;
    ResolvesIff(t, m);
    ResolvesIff(t'', m);
    var d := t''.slots[m.index].epoch - m.epoch;
    if t''.slots[m.index].content.Some? && d % 0x1_0000_0000 == 0 {
      WholeTurn(d);
    }
  }

  lemma WholeTurn(d: nat)
    requires d % 0x1_0000_0000 == 0
    ensures d == 0 || d >= GENERATIONS
  {
  }

  /** The one slot of a table in which an object has been made and revoked `n` times over. */
  function Turned(n: nat): seq<Slot> {
    [Slot(n % GENERATIONS, Some(0), n)]
  }

  lemma {:induction false} Turns(n: nat) returns (ts: seq<Table>, ops: seq<Op>)
    ensures IsRun(ts, ops) && |ts| >= 2 && ts[0] == Table([], []) && ts[1].slots == Turned(0)
    ensures ts[1].minted == [Mint(0, 0)] && ts[|ts| - 1].slots == Turned(n)
    ensures if n == 0 then |ops| == 1 else |ops| >= 2 && ops[1] == Revoke(ObjectRef(0, 0))
  {
    if n == 0 {
      var t0 := Table([], []);
      ops := [Create(0, true)];
      ts := [t0, Apply(t0, ops[0])];
    } else {
      var ts', ops' := Turns(n - 1);
      NextGeneration(n - 1);
      var last := ts'[|ts'| - 1];
      var revoke := Revoke(ObjectRef(0, (n - 1) % GENERATIONS));
      var empty := Apply(last, revoke);
      var again := Apply(empty, Create(0, true));
      ts, ops := ts' + [empty, again], ops' + [revoke, Create(0, true)];
      forall k | 0 <= k < |ops|
        ensures ts[k + 1] == Apply(ts[k], ops[k])
      {
        assert k < |ops'| ==> ts'[k + 1] == Apply(ts'[k], ops'[k]);
      }
    }
  }

  /** And no longer than that: after exactly one full turn of revocations of its slot, the first
      reference ever minted, revoked long ago, resolves to whatever lives there now. */
  lemma RevocationWraps() returns (ts: seq<Table>, ops: seq<Op>)
    ensures IsRun(ts, ops) && |ops| >= 2 && Mint(0, 0) in ts[1].minted && ops[1] == Revoke(Mint(0, 0).Ref())
    ensures ts[|ts| - 1].slots == [Slot(0, Some(0), GENERATIONS)]
    ensures Lookup(ts[|ts| - 1].slots, Mint(0, 0).Ref()) == Some(0)
  {
    ts, ops := Turns(GENERATIONS);
  }
}
