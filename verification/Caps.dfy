/** Per-task capability tables: handles, and what installing one disturbs. */
module Caps {
  import opened Basics
  import opened Objects

  /** What a holder may do with an endpoint object. */
  datatype Cap = Cap(target: ObjectRef, send: bool, recv: bool)

  type CapTable = seq<Option<Cap>>

  /** `empty_caps`: the reserved null handle and nothing else. */
  const EMPTY_CAPS: CapTable := [None]

  /** What every live task's table is: the null handle, and past it no gap, since nothing empties a
      slot again. */
  predicate Seeded(table: CapTable) {
    |table| >= 1 && table[0].None? && forall h :: 0 < h < |table| ==> table[h].Some?
  }

  /** `resolve`. */
  function Resolve(table: CapTable, handle: nat): Option<Cap> {
    if handle == 0 || handle >= |table| then None else table[handle]
  }

  /** The lowest free handle from `i` on, or one past the end. */
  function FreeFrom(table: CapTable, i: nat): (h: nat)
    requires i <= |table|
    ensures i <= h <= |table| && (h < |table| ==> table[h].None?)
    ensures forall j :: i <= j < h ==> table[j].Some?
    decreases |table| - i
  {
    if i == |table| || table[i].None? then i else FreeFrom(table, i + 1)
  }

  function FreeHandle(table: CapTable): (h: nat)
    ensures h <= |table|
  {
    if |table| == 0 then 0 else FreeFrom(table, 1)
  }

  /** `install`, when the heap can grow the table. */
  function Installed(table: CapTable, cap: Cap): CapTable {
    var h := FreeHandle(table);
    if h < |table| then table[h := Some(cap)] else table + [Some(cap)]
  }

  /** A task's table as the kernel keeps it. */
  class CapVec {
    var slots: CapTable

    /** `empty_caps`. */
    constructor Empty()
      ensures slots == EMPTY_CAPS
    {
      slots := EMPTY_CAPS;
    }

    /** `install`: the lowest free handle gets the capability, and the table grows only when none is
        free; nothing is installed when growing fails. */
    method Install(cap: Cap, heap: bool) returns (handle: Option<nat>)
      modifies this
      ensures handle.None? <==> FreeHandle(old(slots)) == |old(slots)| && !heap
      ensures handle.Some? ==> handle.value == FreeHandle(old(slots)) && slots == Installed(old(slots), cap)
      ensures handle.None? ==> slots == old(slots)
    {
      var h := 1;
      while h < |slots|
        invariant 1 <= h && (|slots| > 0 ==> h <= |slots| && FreeFrom(slots, h) == FreeFrom(slots, 1))
        invariant slots == old(slots)
      {
        if slots[h].None? {
          slots := slots[h := Some(cap)];
          return Some(h);
        }
        h := h + 1;
      }
      if !heap {
        return None;
      }
      slots := slots + [Some(cap)];
      return Some(|slots| - 1);
    }
  }

  /** A table with its null handle: the new handle was free and not 0, it resolves to the new
      capability, it is the lowest that could, and no other handle resolves differently. */
  lemma InstallDisturbsNothing(table: CapTable, cap: Cap, h: nat)
    requires |table| >= 1 && table[0].None?
    ensures var f, table' := FreeHandle(table), Installed(table, cap);
            && f > 0 && Resolve(table, f).None? && Resolve(table', f) == Some(cap) && table'[0].None?
            && (h != f ==> Resolve(table', h) == Resolve(table, h))
            && (0 < h < f ==> Resolve(table, h).Some?)
  {
  }

  /** The handle `install` reports resolves to what was installed exactly when the table had its
      null handle: on a table without one, the first capability lands on it and names nothing. */
  lemma InstalledHandleResolvesIff(table: CapTable, cap: Cap)
    ensures Resolve(Installed(table, cap), FreeHandle(table)) == Some(cap) <==> |table| >= 1
  {
  }

  /** Installing into a seeded table grows it at the end. */
  lemma InstallKeepsSeeded(table: CapTable, cap: Cap)
    requires Seeded(table)
    ensures Seeded(Installed(table, cap)) && FreeHandle(table) == |table| && Installed(table, cap) == table + [Some(cap)]
  {
  }

  /** Everything a table holds. */
  ghost function Held(table: CapTable): set<Cap> {
    set i | 0 <= i < |table| && table[i].Some? :: table[i].value
  }

  lemma HeldAfterInstall(table: CapTable, cap: Cap)
    ensures Held(Installed(table, cap)) == Held(table) + {cap}
  {
    var table' := Installed(table, cap);
    var f := FreeHandle(table);
    assert table'[f] == Some(cap);
    assert forall i :: 0 <= i < |table| && i != f ==> table'[i] == table[i];
    assert f < |table| ==> table[f].None?;
    forall c | c in Held(table)
      ensures c in Held(table')
    {
      var i :| 0 <= i < |table| && table[i].Some? && table[i].value == c;
      assert table'[i] == table[i];
    }
  }

  lemma ResolvedIsHeld(table: CapTable, h: nat)
    requires Resolve(table, h).Some?
    ensures Resolve(table, h).value in Held(table)
  {
  }
}
