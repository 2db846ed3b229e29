/** Giving a space's lower half back, frame by frame. */
module Teardown {
  import opened Basics
  import opened Entries
  import opened PageTree
  import opened TreeUpdates
  import opened FramePool
  import opened MapTheory
  import opened SpaceTheory

  /** The frames of `some` are still held, and those that are tables still hold what they did. */
  ghost predicate StillThere(now: Snapshot, s: Snapshot, some: set<nat>) {
    && some <= now.held
    && forall f :: f in some && f in s.words ==> f in now.words && now.words[f] == s.words[f]
  }

  lemma ReleasedTwice(s: Snapshot, s': Snapshot, s'': Snapshot, first: set<nat>, second: set<nat>)
    requires Released(s, s', first) && Released(s', s'', second)
    ensures Released(s, s'', first + second)
  {
    assert s.free + first + second == s.free + (first + second);
    assert s.held - first - second == s.held - (first + second);
    assert s.words - first - second == s.words - (first + second);
    assert s.bytes - first - second == s.bytes - (first + second);
  }

  lemma ReleasedNone(s: Snapshot, tags: Tags, flat: Flat, borrowed: Option<nat>, level: nat, block: nat)
    ensures Below(tags, flat, borrowed, level, block, 0) == {}
    ensures Released(s, s, {})
  {
    assert s.words - {} == s.words && s.bytes - {} == s.bytes;
  }

  /** One more slot: its frames are new, so the counts add up. */
  lemma BelowStep(s: Snapshot, root: nat, tags: Tags, flat: Flat, borrowed: Option<nat>, level: nat, block: nat, n: nat)
    requires SpaceOk(s, root, tags, flat, borrowed)
    ensures var before, here := Below(tags, flat, borrowed, level, block, n), InSlot(tags, flat, borrowed, level, block * 512 + n);
            && before !! here
            && Below(tags, flat, borrowed, level, block, n + 1) == before + here
            && |Below(tags, flat, borrowed, level, block, n + 1)| == |before| + |here|
  {
    SlotsDisjoint(s, root, tags, flat, borrowed, level, block, n);
  }

  /** When the slots before `slot` have been given back, the table and what is under `slot` are
      still there. */
  lemma SlotStillThere(start: Snapshot, now: Snapshot, s: Snapshot, root: nat, tags: Tags, flat: Flat,
                       borrowed: Option<nat>, t: nat, slot: nat, last: nat)
    requires SpaceOk(s, root, tags, flat, borrowed) && t in tags && slot < last
    requires StillThere(start, s, {t} + Below(tags, flat, borrowed, tags[t].level, tags[t].block, last))
    requires Released(start, now, Below(tags, flat, borrowed, tags[t].level, tags[t].block, slot))
    ensures t in s.words && t in now.words && now.words[t] == s.words[t]
    ensures StillThere(now, s, InSlot(tags, flat, borrowed, tags[t].level, tags[t].block * 512 + slot))
  {
    hide SpaceOk, Below, InSlot;
    var l, b := tags[t].level, tags[t].block;
    BelowStep(s, root, tags, flat, borrowed, l, b, slot);
    BelowGrows(tags, flat, borrowed, l, b, slot + 1, last);
    TableNotBelow(s, root, tags, flat, borrowed, t, slot);
    NotData(s, root, tags, flat, borrowed, t);
  }

  /** What the loop finds in a slot: nothing, one page, or a table and what is under it. */
  lemma SlotHolds(s: Snapshot, root: nat, tags: Tags, flat: Flat, borrowed: Option<nat>, t: nat, i: nat)
    requires SpaceOk(s, root, tags, flat, borrowed) && t in tags
    requires i < if tags[t].level == 3 then KERNEL_PML4_FIRST else ENTRIES
    ensures t in s.words && |s.words[t]| == ENTRIES
    ensures var e, k := Decode(s.words[t][i]), tags[t].block * 512 + i;
            var here := InSlot(tags, flat, borrowed, tags[t].level, k);
            && (!e.present ==> here == {})
            && (e.present && tags[t].level == 0 ==> here == if Some(e.addr) == borrowed then {} else {e.addr})
            && (e.present && tags[t].level > 0 ==>
                  && !e.huge && e.addr in tags && tags[e.addr].level == tags[t].level - 1 && tags[e.addr].block == k
                  && here == {e.addr} + Below(tags, flat, borrowed, tags[t].level - 1, k, ENTRIES)
                  && e.addr !in Below(tags, flat, borrowed, tags[t].level - 1, k, ENTRIES))
  {
    hide SpaceOk, Below, InSlot, Decode;
    NotData(s, root, tags, flat, borrowed, t);
    SpaceSlot(s, root, tags, flat, borrowed, t, i);
    if !s.View()[t][i].present {
      EmptySlot(s, root, tags, flat, borrowed, t, i);
    } else if tags[t].level == 0 {
      LeafSlot(s, root, tags, flat, borrowed, t, i);
    } else {
      NoLargePages(s, root, tags, flat, borrowed, t, i);
      PointerSlot(s, root, tags, flat, borrowed, t, i);
    }
  }

  /** A table and everything under it. */
  ghost function Subtree(tags: Tags, flat: Flat, borrowed: Option<nat>, t: nat): set<nat>
    requires t in tags
  {
    {t} + Below(tags, flat, borrowed, tags[t].level, tags[t].block, ENTRIES)
  }

  /** Everything the loop needs to know of the slot it has come to. */
  lemma SlotReady(start: Snapshot, now: Snapshot, s: Snapshot, root: nat, tags: Tags, flat: Flat,
                  borrowed: Option<nat>, t: nat, i: nat, last: nat)
    requires SpaceOk(s, root, tags, flat, borrowed) && t in tags && i < last
    requires last == (if tags[t].level == 3 then KERNEL_PML4_FIRST else ENTRIES)
    requires StillThere(start, s, {t} + Below(tags, flat, borrowed, tags[t].level, tags[t].block, last))
    requires Released(start, now, Below(tags, flat, borrowed, tags[t].level, tags[t].block, i))
    ensures t in now.words && |now.words[t]| == ENTRIES
    ensures var l, k, e := tags[t].level, tags[t].block * 512 + i, Decode(now.words[t][i]);
            var here := InSlot(tags, flat, borrowed, l, k);
            && StillThere(now, s, here)
            && (!e.present ==> here == {})
            && (e.present && l == 0 ==> here == if Some(e.addr) == borrowed then {} else {e.addr})
            && (e.present && l > 0 ==>
                  && !e.huge && e.addr in tags && tags[e.addr].level == l - 1 && tags[e.addr].block == k
                  && here == Subtree(tags, flat, borrowed, e.addr))
    ensures var before, here := Below(tags, flat, borrowed, tags[t].level, tags[t].block, i),
                                InSlot(tags, flat, borrowed, tags[t].level, tags[t].block * 512 + i);
            var after := Below(tags, flat, borrowed, tags[t].level, tags[t].block, i + 1);
            after == before + here && |after| == |before| + |here|
  {
    hide SpaceOk, Below, InSlot, Decode, Released, StillThere;
    BelowStep(s, root, tags, flat, borrowed, tags[t].level, tags[t].block, i);
    SlotStillThere(start, now, s, root, tags, flat, borrowed, t, i, last);
    SlotHolds(s, root, tags, flat, borrowed, t, i);
  }

  lemma SpaceSlot(s: Snapshot, root: nat, tags: Tags, flat: Flat, borrowed: Option<nat>, t: nat, i: nat)
    requires SpaceOk(s, root, tags, flat, borrowed) && t in tags && t in s.words
    requires i < if tags[t].level == 3 then KERNEL_PML4_FIRST else ENTRIES
    ensures Slot(root, tags, KERNEL_PML4_FIRST, t, i) && tags[t].level <= 3
    ensures t in s.View() && |s.View()[t]| == ENTRIES && |s.words[t]| == ENTRIES
    ensures s.View()[t][i] == Decode(s.words[t][i])
  {
    assert NodeOk(s.View(), root, tags, t);
  }

  function Slots(level: nat): nat {
    if level == 4 then KERNEL_PML4_FIRST else ENTRIES
  }

  /** `free_level`: everything under `table`, of level `level` counting the root's as 4, but for
      the borrowed frame and the kernel half. Exactly the frames of that subtree go back, and the
      count is how many there are; freeing requires a frame to be held, so none goes back twice. */
  method FreeLevel(frames: Frames, table: nat, level: nat, borrowed: Option<nat>,
                   ghost s: Snapshot, ghost root: nat, ghost tags: Tags, ghost flat: Flat)
    returns (freed: nat)
    requires frames.Valid() && SpaceOk(s, root, tags, flat, borrowed)
    requires 1 <= level <= 4 && table in tags && tags[table].level == level - 1
    requires StillThere(frames.Now(), s,
                        {table} + Below(tags, flat, borrowed, level - 1, tags[table].block, Slots(level)))
    modifies frames
    ensures frames.Valid()
    ensures Released(old(frames.Now()), frames.Now(),
                     Below(tags, flat, borrowed, level - 1, tags[table].block, Slots(level)))
    ensures freed == |Below(tags, flat, borrowed, level - 1, tags[table].block, Slots(level))|
    decreases level, 0
  {
    hide SpaceOk, Below, InSlot, Released, StillThere, Decode, Subtree, Snapshot.Valid, Snapshot.View, Slots;
    ghost var start, l, b := frames.Now(), level - 1, tags[table].block;
    var last := Slots(level);
    freed := 0;
    var slot := 0;
    ReleasedNone(start, tags, flat, borrowed, l, b);
    LastSlot(level);
    while slot < last
      invariant 0 <= slot <= last && frames.Valid()
      invariant Released(start, frames.Now(), Below(tags, flat, borrowed, l, b, slot))
      invariant freed == |Below(tags, flat, borrowed, l, b, slot)|
    {
      ghost var before, here := Below(tags, flat, borrowed, l, b, slot), InSlot(tags, flat, borrowed, l, b * 512 + slot);
      ghost var now := frames.Now();
      SlotReady(start, now, s, root, tags, flat, borrowed, table, slot, last);
      var entry := frames.ReadEntry(table, slot);
      var e := Decode(entry);
      if e.present && (level == 1 || e.huge) {
        if Some(e.addr) != borrowed {
          HeldHere(now, s, here, e.addr);
          frames.FreeFrame(e.addr);
          freed := freed + 1;
          assert Released(now, frames.Now(), here) && freed == |before| + |here|;
        } else {
          ReleasedNone(now, tags, flat, borrowed, l, b);
          assert Released(now, frames.Now(), here) && freed == |before| + |here|;
        }
      } else if e.present {
        var inner := FreeSubtree(frames, e.addr, level - 1, borrowed, s, root, tags, flat);
        freed := freed + inner;
        assert Released(now, frames.Now(), here) && freed == |before| + |here|;
      } else {
        ReleasedNone(now, tags, flat, borrowed, l, b);
        assert Released(now, frames.Now(), here) && freed == |before| + |here|;
      }
      ReleasedTwice(start, now, frames.Now(), before, here);
      slot := slot + 1;
    }
  }

  lemma LastSlot(level: nat)
    requires 1 <= level <= 4
    ensures Slots(level) == if level == 4 then KERNEL_PML4_FIRST else ENTRIES
    ensures Slots(level) <= ENTRIES
  {
  }

  /** A table under a space: everything under it, then the table itself. */
  method FreeSubtree(frames: Frames, table: nat, level: nat, borrowed: Option<nat>,
                     ghost s: Snapshot, ghost root: nat, ghost tags: Tags, ghost flat: Flat)
    returns (freed: nat)
    requires frames.Valid() && SpaceOk(s, root, tags, flat, borrowed)
    requires 1 <= level <= 3 && table in tags && tags[table].level == level - 1
    requires StillThere(frames.Now(), s, Subtree(tags, flat, borrowed, table))
    modifies frames
    ensures frames.Valid()
    ensures Released(old(frames.Now()), frames.Now(), Subtree(tags, flat, borrowed, table))
    ensures freed == |Subtree(tags, flat, borrowed, table)|
    decreases level, 1
  {
    hide SpaceOk, Below, InSlot, Released, StillThere;
    ghost var inside := Below(tags, flat, borrowed, level - 1, tags[table].block, ENTRIES);
    TableNotBelow(s, root, tags, flat, borrowed, table, ENTRIES);
    freed := FreeLevel(frames, table, level, borrowed, s, root, tags, flat);
    ghost var mid := frames.Now();
    HeldAfter(old(frames.Now()), mid, s, {table} + inside, inside, table);
    frames.FreeFrame(table);
    FreedTable(old(frames.Now()), mid, frames.Now(), inside, table);
    freed := freed + 1;
  }

  lemma HeldHere(now: Snapshot, s: Snapshot, here: set<nat>, f: nat)
    requires StillThere(now, s, here) && f in here
    ensures f in now.held
  {
  }

  lemma HeldAfter(now: Snapshot, mid: Snapshot, s: Snapshot, here: set<nat>, inside: set<nat>, f: nat)
    requires StillThere(now, s, here) && Released(now, mid, inside) && f in here && f !in inside
    ensures f in mid.held
  {
  }

  /** What was under a table and then the table itself went back. */
  lemma FreedTable(now: Snapshot, mid: Snapshot, after: Snapshot, inside: set<nat>, f: nat)
    requires Released(now, mid, inside) && f !in inside
    requires Released(mid, after, {f})
    ensures Released(now, after, {f} + inside) && |{f} + inside| == |inside| + 1
  {
    ReleasedTwice(now, mid, after, inside, {f});
    assert inside + {f} == {f} + inside;
  }
}
