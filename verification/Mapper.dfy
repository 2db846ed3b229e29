/** The mapper: building, resolving and clearing mappings in a tree of page tables. */
module Mapping {
  import opened Basics
  import opened Entries
  import opened PageTree
  import opened TreeUpdates
  import opened FramePool
  import opened MapTheory
  import opened PageSizes

  datatype MapError = Misaligned | OutOfFrames | LargePageCollision

  /** Both sides are aligned to `size`, and at least that much is left. */
  predicate Fits(virt: nat, phys: nat, left: nat, size: nat)
    requires size > 0
  {
    virt % size == 0 && phys % size == 0 && left >= size
  }

  class Mapper {
    const root: nat
    const frames: Frames
    const gibPages: bool
    ghost const hi: nat
    ghost var tags: Tags

    ghost predicate Valid()
      reads this, frames
    {
      frames.Valid() && Tree(frames.Now().View(), root, tags, hi)
    }

    /** `adopt`. `hi` and `tags` say which root slots are this tree's own and which frames it
        consists of. */
    constructor Adopt(root: nat, frames: Frames, gibPages: bool, ghost hi: nat, ghost tags: Tags)
      requires frames.Valid() && Tree(frames.Now().View(), root, tags, hi)
      ensures this.root == root && this.frames == frames && this.gibPages == gibPages
      ensures this.hi == hi && this.tags == tags && Valid()
    {
      this.root, this.frames, this.gibPages := root, frames, gibPages;
      this.hi, this.tags := hi, tags;
    }

    /** One step of the descent. It may write to the tree, but no address resolves differently. */
    method NextTable(table: nat, idx: nat, needed: Rights, ghost virt: nat, ghost level: nat)
      returns (r: Result<nat, MapError>)
      requires Valid() && 1 <= level <= 3 && InReach(virt, hi) && idx == Index(virt, level)
      requires table in tags && PathTable(frames.Now().View(), root, virt, level) == Some(table)
      requires needed.user ==> Open(frames.Now().View(), root, tags, table)
      modifies this`tags, frames
      ensures Valid() && Grew(old(frames.Now()), old(tags), frames.Now(), tags, root, hi)
      ensures r.Ok? ==> Descended(old(frames.Now().View()), old(tags), frames.Now().View(), tags, root, hi,
                                  virt, level, r.value, needed.user)
      ensures r.Err? ==> frames.Now() == old(frames.Now()) && tags == old(tags)
      ensures RootSlotTaken(old(frames.Now()), root, virt, needed.user) ==> RootHeld(old(frames.Now()), frames.Now(), root)
      ensures r.Err? ==> (r.error == OutOfFrames && frames.free == {} && Unwalked(frames.Now().View(), root, virt)) ||
                         (r.error == LargePageCollision && Collides(frames.Now().View(), root, virt, level))
    {
      hide Tight, Tree, Grew, RootHeld, RootSlotTaken, Unwalked;
      ghost var s := frames.Now();
      GrewNone(s, tags, root, hi);
      TagsAreTables(s, root, tags, hi);
      RootHeldNow(s, root);
      if RootSlotTaken(s, root, virt, needed.user) {
        RootIsLeftAlone(s, root, tags, hi, virt, level, table, needed);
      }
      var entry := frames.ReadEntry(table, idx);
      var e := Decode(entry);
      if e.present {
        if e.huge {
          MeetsLargePage(s, root, tags, hi, virt, level, table);
          return Err(LargePageCollision);
        }
        var widened := WidenWord(entry, needed);
        StepWidened(s, root, tags, hi, virt, level, table, needed);
        if widened != entry {
          frames.WriteEntry(table, idx, widened);
        } else {
          PutSame(s.words, table, idx);
        }
        return Ok(e.addr);
      }
      MeetsNothing(s, root, tags, hi, virt, level, table);
      var page := frames.AllocTable();
      if page.None? {
        return Err(OutOfFrames);
      }
      StepHung(s, frames.Now(), root, tags, hi, virt, level, table, page.value, needed);
      HangHoldsRoot(s, frames.Now(), root, table, idx, page.value, WidenWord(page.value, needed));
      frames.WriteEntry(table, idx, WidenWord(page.value, needed));
      tags := HangTags(tags, table, idx, page.value);
      return Ok(page.value);
    }

    /** One page of 4 KiB, 2 MiB or 1 GiB, by `level`. On success its whole aligned block resolves to
        the new leaf and everything else as before; on failure every address resolves as before. */
    method MapLeaf(virt: nat, phys: nat, rights: Rights, memoryType: MemoryType, level: nat)
      returns (r: Result<(), MapError>)
      requires Valid() && level <= 2 && InReach(virt, hi)
      requires phys % Span(level) == 0 && phys < PHYS_LIMIT
      modifies this`tags, frames
      ensures Valid() && Grew(old(frames.Now()), old(tags), frames.Now(), tags, root, hi)
      ensures r.Ok? ==> LeafInstalled(old(frames.View()), frames.View(), root, hi, virt, level,
                                      LeafPte(phys, rights, memoryType, level > 0))
      ensures r.Err? ==> SameWalks(old(frames.View()), frames.View(), root, hi)
      ensures r.Err? ==> (r.error == OutOfFrames && frames.free == {} && Unwalked(old(frames.View()), root, virt)) ||
                         (r.error == LargePageCollision && CollidesAbove(old(frames.View()), root, virt, level))
      ensures level == 0 && old(Tight(frames.View(), root, tags, hi)) ==> Tight(frames.View(), root, tags, hi)
      ensures RootSlotTaken(old(frames.Now()), root, virt, rights.user) ==> RootHeld(old(frames.Now()), frames.Now(), root)
    {
      hide Tree, Tight, Grew, SameWalks, Open, PathTable, Walk, LeafInstalled, Index, LeafWord, LeafPte, Decode, RootHeld,
           RootSlotTaken, Unwalked;
      RootHeldNow(frames.Now(), root);
      RootIsTagged(frames.View(), root, tags, hi);
      GrewNone(frames.Now(), tags, root, hi);
      var table := root;
      var walk := 3;
      while walk > level
        invariant level <= walk <= 3
        invariant Valid() && Grew(old(frames.Now()), old(tags), frames.Now(), tags, root, hi)
        invariant SameWalks(old(frames.View()), frames.View(), root, hi)
        invariant table in tags && PathTable(frames.View(), root, virt, walk) == Some(table)
        invariant rights.user ==> Open(frames.View(), root, tags, table)
        invariant old(Tight(frames.View(), root, tags, hi)) ==> Tight(frames.View(), root, tags, hi)
        invariant RootSlotTaken(old(frames.Now()), root, virt, rights.user) ==> RootHeld(old(frames.Now()), frames.Now(), root)
      {
        ghost var s, tagsBefore := frames.Now(), tags;
        var next := NextTable(table, Index(virt, walk), rights, virt, walk);
        if RootSlotTaken(old(frames.Now()), root, virt, rights.user) {
          StillTaken(old(frames.Now()), s, root, virt, rights.user);
          RootHeldTwice(old(frames.Now()), s, frames.Now(), root);
        }
        GrewTwice(old(frames.Now()), old(tags), s, tagsBefore, frames.Now(), tags, root, hi);
        if next.Ok? {
          SameWalksTwice(old(frames.View()), s.View(), frames.View(), root, hi);
        }
        if next.Err? {
          CollisionIsOld(old(frames.View()), frames.View(), root, hi, virt, level, walk);
          UnwalkedIsOld(old(frames.View()), frames.View(), root, hi, virt);
          return Err(next.error);
        }
        table := next.value;
        walk := walk - 1;
      }
      var word := LeafWord(phys, rights, memoryType, level > 0);
      ghost var s := frames.Now();
      StepLeaf(s, root, tags, hi, virt, level, table, phys, rights, memoryType);
      BelowRoot(s, root, tags, hi, virt, level, table, word);
      frames.WriteEntry(table, Index(virt, level), word);
      if RootSlotTaken(old(frames.Now()), root, virt, rights.user) {
        RootHeldTwice(old(frames.Now()), s, frames.Now(), root);
      }
      GrewTwice(old(frames.Now()), old(tags), s, tags, frames.Now(), tags, root, hi);
      InstalledAfterSame(old(frames.View()), s.View(), frames.View(), root, hi, virt, level,
                         LeafPte(phys, rights, memoryType, level > 0));
      return Ok(());
    }

    /** `map_as`, page by page. `mapped` is how many bytes it got through: all of them on success, a
        prefix when it stopped. In every case exactly those bytes resolve to the new place with
        exactly the requested effective rights and cache type, and no other address of the tree
        resolves differently. */
    method MapAs(virt: nat, phys: nat, size: nat, rights: Rights, memoryType: MemoryType)
      returns (r: Result<(), MapError>, ghost mapped: nat)
      requires Valid()
      requires phys + size <= PHYS_LIMIT
      requires virt % VIRT_SPAN + size <= hi * Span(3)
      modifies this`tags, frames
      ensures Valid() && Grew(old(frames.Now()), old(tags), frames.Now(), tags, root, hi)
      ensures r == Err(Misaligned) <==> virt % PAGE_SIZE != 0 || phys % PAGE_SIZE != 0 || size % PAGE_SIZE != 0
      ensures r == Err(Misaligned) ==> mapped == 0
      ensures r.Ok? ==> mapped == size
      ensures mapped <= size && mapped % PAGE_SIZE == 0
      ensures Mapped(old(frames.View()), frames.View(), root, hi, virt % VIRT_SPAN, phys, mapped, rights, memoryType)
      ensures Sized(frames.View(), root, hi, gibPages, virt % VIRT_SPAN, phys, size, mapped)
      ensures r == Err(OutOfFrames) ==>
                mapped < size && frames.free == {} && Translate(old(frames.View()), root, virt % VIRT_SPAN + mapped).None?
      ensures r == Err(LargePageCollision) ==>
                mapped < size && CoveredByLarge(old(frames.View()), root, virt % VIRT_SPAN + mapped)
      ensures size == PAGE_SIZE && old(Tight(frames.View(), root, tags, hi)) ==> Tight(frames.View(), root, tags, hi)
      ensures size == PAGE_SIZE && r.Ok? ==>
                LeafInstalled(old(frames.View()), frames.View(), root, hi, virt, 0,
                              LeafPte(phys, rights, memoryType, false))
      ensures size == PAGE_SIZE && r.Err? ==> SameWalks(old(frames.View()), frames.View(), root, hi)
      ensures RootSlotsTaken(old(frames.Now()), root, virt, size, rights.user) ==>
                RootHeld(old(frames.Now()), frames.Now(), root)
    {
      hide Tree, Tight, Grew, Mapped, LeafInstalled, Translate, Walk, SameWalks, Span, StepLevel, InReach, RootHeld, RootSlotTaken,
           LeafPte, CoveredByLarge, CollidesAbove, Unwalked, Sized, AtEdge, PageSizeAt, LevelSize, Decode, Index, Snapshot.View;
      RootHeldNow(frames.Now(), root);
      ghost var taken := RootSlotsTaken(frames.Now(), root, virt, size, rights.user);
      RootIsTagged(frames.View(), root, tags, hi);
      GrewNone(frames.Now(), tags, root, hi);
      ghost var v := virt % VIRT_SPAN;
      SameWalksMapNothing(frames.View(), tags, frames.View(), tags, root, hi, v, phys, rights, memoryType);
      NothingSized(frames.View(), root, hi, gibPages, v, phys, size);
      if virt % PAGE_SIZE != 0 || phys % PAGE_SIZE != 0 || size % PAGE_SIZE != 0 {
        return Err(Misaligned), 0;
      }
      var done := 0;
      while done < size
        invariant done <= size && done % PAGE_SIZE == 0
        invariant Valid() && Grew(old(frames.Now()), old(tags), frames.Now(), tags, root, hi)
        invariant Mapped(old(frames.View()), frames.View(), root, hi, v, phys, done, rights, memoryType)
        invariant Sized(frames.View(), root, hi, gibPages, v, phys, size, done) && AtEdge(gibPages, v, phys, size, done)
        invariant done == 0 ==> frames.Now() == old(frames.Now()) && tags == old(tags)
        invariant taken ==> RootHeld(old(frames.Now()), frames.Now(), root)
        invariant size == PAGE_SIZE && old(Tight(frames.View(), root, tags, hi)) ==> Tight(frames.View(), root, tags, hi)
        invariant size == PAGE_SIZE && done > 0 ==>
                    LeafInstalled(old(frames.View()), frames.View(), root, hi, virt, 0,
                                  LeafPte(phys, rights, memoryType, false))
      {
        var v', p, left := virt + done, phys + done, size - done;
        var level := StepLevel(gibPages, v', p, left);
        StepFits(gibPages, virt, phys, size, done, hi);
        ghost var s, tagsBefore := frames.Now(), tags;
        var step := MapLeaf(v', p, rights, memoryType, level);
        if taken {
          assert RootSlotTaken(old(frames.Now()), root, v', rights.user);
          StillTaken(old(frames.Now()), s, root, v', rights.user);
          RootHeldTwice(old(frames.Now()), s, frames.Now(), root);
        }
        GrewTwice(old(frames.Now()), old(tags), s, tagsBefore, frames.Now(), tags, root, hi);
        if step.Err? {
          MappedUnchanged(old(frames.View()), s.View(), tagsBefore, frames.View(), tags,
                          root, hi, v, phys, done, rights, memoryType);
          SizedUnchanged(s.View(), tagsBefore, frames.View(), tags, root, hi, gibPages, v, phys, size, done);
          if step.error == LargePageCollision {
            CollisionWasThere(old(frames.View()), s.View(), tagsBefore, root, hi, v, phys, done, rights, memoryType, v', level);
          } else {
            NothingWasThere(old(frames.View()), s.View(), tagsBefore, root, hi, v, phys, done, rights, memoryType, v');
          }
          return Err(step.error), done;
        }
        MappedExtends(old(frames.View()), s.View(), tagsBefore, frames.View(), tags,
                      root, hi, v, phys, done, level, rights, memoryType, v');
        StepSizes(gibPages, virt, phys, size, done);
        SizedExtends(s.View(), tagsBefore, frames.View(), tags, root, hi, gibPages, v, phys, size, done, level, rights,
                     memoryType, v');
        done := done + Span(level);
      }
      return Ok(()), size;
    }

    /** The loop of `translate`: the rights it carries are those of every entry passed so far. */
    method Resolve(virt: nat) returns (r: Option<Translation>)
      requires Valid() && InReach(virt, hi)
      ensures r == Translate(frames.View(), root, virt)
    {
      hide Tree;
      var table := root;
      var effective := ALL;
      var level := 3;
      RootCoversAll(frames.View(), root, tags, hi);
      while true
        invariant level <= 3 && table in tags && tags[table].level == level
        invariant Translate(frames.View(), root, virt) == TranslateFrom(frames.View(), table, level, virt, effective)
        decreases level
      {
        EntryOnPath(frames.Now(), root, tags, hi, virt, table);
        var entry := frames.ReadEntry(table, Index(virt, level));
        var e := Decode(entry);
        if !e.present {
          return None;
        }
        effective := effective.Intersect(e.GetRights());
        if level == 0 || e.huge {
          return Some(LeafTranslation(Leaf(e, level), effective, virt));
        }
        table := e.addr;
        level := level - 1;
      }
    }

    /** `unmap`: the answer is what `virt` resolved to, and exactly the page it was part of stops
        resolving. */
    method Unmap(virt: nat) returns (r: Option<Translation>)
      requires Valid() && InReach(virt, hi)
      modifies frames
      ensures Valid() && Grew(old(frames.Now()), tags, frames.Now(), tags, root, hi)
      ensures r == Translate(old(frames.View()), root, virt)
      ensures r.None? ==> frames.Now() == old(frames.Now())
      ensures r.Some? ==> Unmapped(old(frames.View()), frames.View(), root, hi, virt, r.value.pageSize)
      ensures old(Tight(frames.View(), root, tags, hi)) ==> Tight(frames.View(), root, tags, hi)
    {
      hide Tree, Tight, Grew, Unmapped, Translate, Walk, PathTable;
      GrewNone(frames.Now(), tags, root, hi);
      var existing := Resolve(virt);
      if existing.None? {
        return None;
      }
      var table := root;
      var level: nat := 3;
      ghost var s := frames.Now();
      RootIsTagged(s.View(), root, tags, hi);
      TranslateIsWalk(s.View(), root, tags, hi, virt);
      while true
        invariant level <= 3 && table in tags && PathTable(s.View(), root, virt, level) == Some(table)
        invariant frames.Now() == s
        decreases level
      {
        PathEntry(s, root, tags, hi, virt, level, table);
        var idx := Index(virt, level);
        var entry := frames.ReadEntry(table, idx);
        var e := Decode(entry);
        if level == 0 || e.huge {
          StepClear(s, root, tags, hi, virt, level, table);
          frames.WriteEntry(table, idx, 0);
          return existing;
        }
        table := e.addr;
        level := level - 1;
      }
    }
  }

  /** A table on the way to `virt` is in memory, and so is the one its pointer names. */
  lemma EntryOnPath(s: Snapshot, root: nat, tags: Tags, hi: nat, virt: nat, t: nat)
    requires s.Valid() && Tree(s.View(), root, tags, hi) && t in tags && (t == root ==> InReach(virt, hi))
    ensures t in s.words && tags[t].level <= 3
    ensures var e := Decode(s.words[t][Index(virt, tags[t].level)]);
            e.present ==>
              if IsLeaf(tags[t].level, e) then tags[t].level <= 2
              else e.addr in tags && tags[t].level > 0 && tags[e.addr].level == tags[t].level - 1 && e.addr != root
  {
    TagsAreTables(s, root, tags, hi);
    assert NodeOk(s.View(), root, tags, t);
    var i := Index(virt, tags[t].level);
    assert s.View()[t][i] == Decode(s.words[t][i]);
    if s.View()[t][i].present {
      assert EntryOk(s.View(), tags, t, i, s.View()[t][i]);
    }
  }

  lemma RootHeldNow(s: Snapshot, root: nat)
    ensures RootHeld(s, s, root)
  {
  }

  /** A step down writes the root only where its slot was empty, or closed to ring 3 and asked for it:
      a pointer that is there is writable already. */
  lemma RootIsLeftAlone(s: Snapshot, root: nat, tags: Tags, hi: nat, virt: nat, level: nat, t: nat, needed: Rights)
    requires s.Valid() && Tree(s.View(), root, tags, hi) && InReach(virt, hi) && 1 <= level <= 3
    requires t in tags && PathTable(s.View(), root, virt, level) == Some(t) && t in s.words
    requires RootSlotTaken(s, root, virt, needed.user)
    ensures !Decode(s.words[t][Index(virt, level)]).present ==> t != root
    ensures var w := WidenWord(s.words[t][Index(virt, level)], needed);
            && w < 0x1_0000_0000_0000_0000
            && (Decode(s.words[t][Index(virt, level)]).present && !Decode(s.words[t][Index(virt, level)]).huge ==>
                  RootHeld(s, s.(words := s.words[t := PutWord(s.words[t], Index(virt, level), w)]), root))
  {
    PathTag(s.View(), root, tags, hi, virt, level);
    DecodeWiden(s.words[t][Index(virt, level)], needed);
    if t == root {
      var entry := s.words[t][Index(virt, level)];
      assert s.View()[t][Index(virt, level)] == Decode(entry);
      if !Decode(entry).huge {
        assert EntryOk(s.View(), tags, t, Index(virt, level), s.View()[t][Index(virt, level)]);
        WidenNothing(entry, needed);
        PutSame(s.words, t, Index(virt, level));
      }
    }
  }

  lemma HangHoldsRoot(s: Snapshot, taken: Snapshot, root: nat, t: nat, i: nat, child: nat, w: nat)
    requires s.Valid() && child in s.free && i < ENTRIES && w < 0x1_0000_0000_0000_0000
    requires taken.words == s.words[child := seq(ENTRIES, _ => 0)] && t in s.words
    ensures t != root ==> RootHeld(s, taken.(words := taken.words[t := PutWord(taken.words[t], i, w)]), root)
  {
  }

  /** A leaf goes into a table below the root. */
  lemma BelowRoot(s: Snapshot, root: nat, tags: Tags, hi: nat, virt: nat, level: nat, t: nat, w: u64)
    requires s.Valid() && Tree(s.View(), root, tags, hi) && InReach(virt, hi) && level <= 2
    requires t in tags && PathTable(s.View(), root, virt, level) == Some(t) && t in s.words
    ensures t != root
    ensures RootHeld(s, s.(words := s.words[t := PutWord(s.words[t], Index(virt, level), w)]), root)
  {
    PathTag(s.View(), root, tags, hi, virt, level);
  }

  /** Where `virt` resolves, each entry its walk passes is present: the leaf it ends at, or a
      pointer to the next table of the walk. */
  lemma PathEntry(s: Snapshot, root: nat, tags: Tags, hi: nat, virt: nat, level: nat, t: nat)
    requires s.Valid() && Tree(s.View(), root, tags, hi) && InReach(virt, hi) && level <= 3
    requires t in tags && PathTable(s.View(), root, virt, level) == Some(t)
    requires Walk(s.View(), root, 3, virt).Some?
    ensures t in s.words
    ensures var e := Decode(s.words[t][Index(virt, level)]);
            && e.present
            && if IsLeaf(level, e) then level <= 2 && Walk(s.View(), root, 3, virt) == Some(Leaf(e, level))
               else level > 0 && e.addr in tags && PathTable(s.View(), root, virt, level - 1) == Some(e.addr)
  {
    PathTag(s.View(), root, tags, hi, virt, level);
    PathWalk(s.View(), root, tags, hi, virt, level, virt);
    EntryOnPath(s, root, tags, hi, virt, t);
  }

  /** Clearing the leaf `virt` resolves to unmaps exactly its page. */
  lemma StepClear(s: Snapshot, root: nat, tags: Tags, hi: nat, virt: nat, level: nat, t: nat)
    requires s.Valid() && Tree(s.View(), root, tags, hi) && InReach(virt, hi) && level <= 2
    requires t in tags && PathTable(s.View(), root, virt, level) == Some(t) && t in s.words
    requires IsLeaf(level, Decode(s.words[t][Index(virt, level)]))
    ensures var s' := s.(words := s.words[t := PutWord(s.words[t], Index(virt, level), 0)]);
            && s'.Valid() && Grew(s, tags, s', tags, root, hi) && Tree(s'.View(), root, tags, hi)
            && Unmapped(s.View(), s'.View(), root, hi, virt, LevelSize(level))
            && (Tight(s.View(), root, tags, hi) ==> Tight(s'.View(), root, tags, hi))
  {
    hide Tree, Tight, Unmapped, LevelSize, Grew;
    var i := Index(virt, level);
    DecodeZero();
    SlotOnPath(s.View(), root, tags, hi, virt, level, t);
    PutGrew(s, root, tags, hi, t, i, 0);
    ViewOfWrite(s, t, i, 0);
    ClearLeaf(s.View(), root, tags, hi, virt, level, t);
  }

  lemma ClearLeaf(mem: Tables, root: nat, tags: Tags, hi: nat, virt: nat, level: nat, t: nat)
    requires Tree(mem, root, tags, hi) && InReach(virt, hi) && level <= 2
    requires t in tags && PathTable(mem, root, virt, level) == Some(t)
    requires t in mem && |mem[t]| == ENTRIES && IsLeaf(level, mem[t][Index(virt, level)])
    ensures var mem' := Write(mem, t, Index(virt, level), ABSENT);
            && Tree(mem', root, tags, hi)
            && Unmapped(mem, mem', root, hi, virt, LevelSize(level))
            && (Tight(mem, root, tags, hi) ==> Tight(mem', root, tags, hi))
  {
    hide Tree, Tight, Walk, LevelSize;
    PathTag(mem, root, tags, hi, virt, level);
    BlockIndex(virt, level);
    BlockIndex(virt, 3);
    RootCoversAll(mem, root, tags, hi);
    TableInMemory(mem, root, tags, hi, t);
    var i := Index(virt, level);
    var mem' := Write(mem, t, i, ABSENT);
    TreeAfterLeaf(mem, root, tags, hi, t, i, ABSENT);
    forall a: nat | InReach(a, hi)
      ensures Translate(mem', root, a) ==
              if SamePage(a, virt, LevelSize(level)) then None else Translate(mem, root, a)
    {
      BlockIsPage(a, virt, level);
      if Block(a, level) == Block(virt, level) {
        WalkHitsLeaf(mem, root, tags, hi, virt, level, t, ABSENT, a);
        TranslateIsWalk(mem', root, tags, hi, a);
      } else {
        BlockIndex(a, 3);
        WriteElsewhere(mem, root, tags, hi, t, i, ABSENT, root, a);
        SameWalkSameTranslation(mem, tags, mem', tags, root, hi, a);
      }
    }
    if Tight(mem, root, tags, hi) {
      TightIsTree(mem, root, tags, hi);
      TightAfterLeaf(mem, root, tags, hi, t, i, ABSENT);
    }
  }

  /** A page larger than 4 KiB covers the address. */
  ghost predicate CoveredByLarge(mem: Tables, root: nat, a: nat) {
    Translate(mem, root, a).Some? && Translate(mem, root, a).value.pageSize > PAGE_SIZE
  }

  /** The level of the largest page that fits where the request stands. */
  function StepLevel(gibPages: bool, virt: nat, phys: nat, left: nat): (level: nat)
    ensures level <= 2
  {
    if gibPages && Fits(virt, phys, left, SIZE_1G) then 2
    else if Fits(virt, phys, left, SIZE_2M) then 1
    else 0
  }

  /** The page chosen fits the request and stays inside it. */
  lemma StepFits(gibPages: bool, virt: nat, phys: nat, size: nat, done: nat, hi: nat)
    requires done < size && hi <= ENTRIES
    requires virt % PAGE_SIZE == 0 && phys % PAGE_SIZE == 0 && size % PAGE_SIZE == 0 && done % PAGE_SIZE == 0
    requires virt % VIRT_SPAN + size <= hi * Span(3)
    ensures var level := StepLevel(gibPages, virt + done, phys + done, size - done);
            var v := virt % VIRT_SPAN + done;
            && Span(level) > 0 && done + Span(level) <= size && (done + Span(level)) % PAGE_SIZE == 0
            && (phys + done) % Span(level) == 0 && v % Span(level) == 0
            && v + Span(level) <= VIRT_SPAN && (virt + done) % VIRT_SPAN == v && InReach(virt + done, hi)
            && (size == PAGE_SIZE ==> level == 0 && done == 0 && Span(level) == size)
  {
    var at, p, left := virt + done, phys + done, size - done;
    var level := StepLevel(gibPages, at, p, left);
    var v := virt % VIRT_SPAN + done;
    hide InReach, StepLevel;
    PageSums(virt, done);
    PageSums(phys, done);
    PageDifference(size, done);
    SumModulo(virt / VIRT_SPAN, v);
    ReachIsPrefix(at, hi);
    ChosenFits(gibPages, at, p, left);
    OffsetOfResidue(at, LevelSize(level));
    PageSums(done, Span(level));
  }

  /** The page chosen is the one its place in the request gives. */
  lemma StepSizes(gibPages: bool, virt: nat, phys: nat, size: nat, done: nat)
    requires done < size && AtEdge(gibPages, virt % VIRT_SPAN, phys, size, done)
    requires virt % PAGE_SIZE == 0 && phys % PAGE_SIZE == 0 && done % PAGE_SIZE == 0
    ensures var v, level := virt % VIRT_SPAN, StepLevel(gibPages, virt + done, phys + done, size - done);
            && AtEdge(gibPages, v, phys, size, done + Span(level))
            && forall o :: done <= o < done + Span(level) ==> PageSizeAt(gibPages, v, phys, size, o) == LevelSize(level)
  {
    hide AtEdge, PageSizeAt;
    var v, level := virt % VIRT_SPAN, StepLevel(gibPages, virt + done, phys + done, size - done);
    SpanLeavesBlocks(virt, done);
    EdgeToEdge(gibPages, v, phys, size, done, LevelSize(level));
  }

  /** Dropping the bits above 47 leaves an address where it is in its pages. */
  lemma SpanLeavesBlocks(virt: nat, done: nat)
    requires virt % 0x1000 == 0 && done % 0x1000 == 0
    ensures (virt % VIRT_SPAN + done) % 0x1000 == 0
    ensures (virt % VIRT_SPAN + done) % 0x20_0000 == (virt + done) % 0x20_0000
    ensures (virt % VIRT_SPAN + done) % 0x4000_0000 == (virt + done) % 0x4000_0000
  {
    var q, r := virt / VIRT_SPAN, virt % VIRT_SPAN;
    WholeSpans(r, q, done);
    ResidueAligned(virt);
    PageSums(r, done);
  }

  lemma ResidueAligned(virt: nat)
    requires virt % 0x1000 == 0
    ensures virt % VIRT_SPAN % 0x1000 == 0
  {
  }

  lemma WholeSpans(r: nat, q: nat, done: nat)
    ensures (r + done) % 0x20_0000 == (VIRT_SPAN * q + r + done) % 0x20_0000
    ensures (r + done) % 0x4000_0000 == (VIRT_SPAN * q + r + done) % 0x4000_0000
  {
    ShiftedByLarge(r + done, 0x800_0000 * q);
    ShiftedByHuge(r + done, 0x4_0000 * q);
  }

  lemma ShiftedByLarge(x: nat, k: nat)
    ensures (x + 0x20_0000 * k) % 0x20_0000 == x % 0x20_0000
  {
  }

  lemma ShiftedByHuge(x: nat, k: nat)
    ensures (x + 0x4000_0000 * k) % 0x4000_0000 == x % 0x4000_0000
  {
  }

  lemma ChosenFits(gibPages: bool, virt: nat, phys: nat, left: nat)
    requires virt % PAGE_SIZE == 0 && phys % PAGE_SIZE == 0 && left >= PAGE_SIZE
    ensures var level := StepLevel(gibPages, virt, phys, left);
            && Span(level) <= left && virt % Span(level) == 0 && phys % Span(level) == 0
            && Span(level) % PAGE_SIZE == 0 && (left == PAGE_SIZE ==> level == 0)
            && LevelSize(level) == Span(level)
  {
  }

  lemma PageSums(x: nat, y: nat)
    requires x % 0x1000 == 0 && y % 0x1000 == 0
    ensures (x + y) % 0x1000 == 0
  {
  }

  lemma PageDifference(x: nat, y: nat)
    requires y < x && x % 0x1000 == 0 && y % 0x1000 == 0
    ensures (x - y) % 0x1000 == 0 && x - y >= 0x1000
  {
  }

  lemma SumModulo(q: nat, v: nat)
    requires v < VIRT_SPAN
    ensures (VIRT_SPAN * q + v) % VIRT_SPAN == v
  {
  }

  /** A collision met part way was with a page that was there before the request. */
  lemma CollisionWasThere(mem: Tables, mem': Tables, tags': Tags, root: nat, hi: nat, v: nat, phys: nat, done: nat,
                          rights: Rights, memoryType: MemoryType, virt: nat, level: nat)
    requires Tree(mem', root, tags', hi) && Mapped(mem, mem', root, hi, v, phys, done, rights, memoryType)
    requires virt % VIRT_SPAN == v + done && InReach(virt, hi) && CollidesAbove(mem', root, virt, level)
    ensures CoveredByLarge(mem, root, v + done)
  {
    hide Tree;
    IndexOfResidue(virt, 3);
    TranslateIsWalk(mem', root, tags', hi, virt);
    TranslateIgnoresHighBits(mem', root, virt);
    assert Translate(mem', root, v + done) == Translate(mem, root, v + done);
  }

  /** A request short of a frame stopped where nothing resolved before it. */
  lemma NothingWasThere(mem: Tables, mem': Tables, tags': Tags, root: nat, hi: nat, v: nat, phys: nat, done: nat,
                        rights: Rights, memoryType: MemoryType, virt: nat)
    requires Tree(mem', root, tags', hi) && Mapped(mem, mem', root, hi, v, phys, done, rights, memoryType)
    requires virt % VIRT_SPAN == v + done && InReach(virt, hi) && Unwalked(mem', root, virt)
    ensures Translate(mem, root, v + done).None?
  {
    hide Tree;
    IndexOfResidue(virt, 3);
    TranslateIsWalk(mem', root, tags', hi, virt);
    TranslateIgnoresHighBits(mem', root, virt);
    assert Translate(mem', root, v + done) == Translate(mem, root, v + done);
  }

  /** The walk for `virt` ends at no leaf. */
  ghost predicate Unwalked(mem: Tables, root: nat, virt: nat) {
    Walk(mem, root, 3, virt).None?
  }

  lemma UnwalkedIsOld(mem: Tables, mem': Tables, root: nat, hi: nat, virt: nat)
    requires SameWalks(mem, mem', root, hi) && InReach(virt, hi)
    ensures Unwalked(mem', root, virt) ==> Unwalked(mem, root, virt)
  {
  }

  lemma MeetsNothing(s: Snapshot, root: nat, tags: Tags, hi: nat, virt: nat, level: nat, t: nat)
    requires s.Valid() && Tree(s.View(), root, tags, hi) && InReach(virt, hi) && 1 <= level <= 3
    requires PathTable(s.View(), root, virt, level) == Some(t) && t in s.words
    requires !Decode(s.words[t][Index(virt, level)]).present
    ensures Unwalked(s.View(), root, virt)
  {
    PathWalk(s.View(), root, tags, hi, virt, level, virt);
  }

  lemma MeetsLargePage(s: Snapshot, root: nat, tags: Tags, hi: nat, virt: nat, level: nat, t: nat)
    requires s.Valid() && Tree(s.View(), root, tags, hi) && InReach(virt, hi) && 1 <= level <= 3
    requires PathTable(s.View(), root, virt, level) == Some(t) && t in s.words
    requires Decode(s.words[t][Index(virt, level)]).present && Decode(s.words[t][Index(virt, level)]).huge
    ensures Collides(s.View(), root, virt, level)
  {
    PathWalk(s.View(), root, tags, hi, virt, level, virt);
  }

  /** The slot a walk for a reachable address looks at is one of the tree's own. */
  lemma SlotOnPath(mem: Tables, root: nat, tags: Tags, hi: nat, virt: nat, level: nat, t: nat)
    requires Tree(mem, root, tags, hi) && InReach(virt, hi) && level <= 3
    requires t in tags && PathTable(mem, root, virt, level) == Some(t)
    ensures Slot(root, tags, hi, t, Index(virt, level)) && tags[t].level == level
  {
    PathTag(mem, root, tags, hi, virt, level);
  }

  /** Writing one word of one of its tables is a way for a tree to grow. */
  lemma PutGrew(s: Snapshot, root: nat, tags: Tags, hi: nat, t: nat, i: nat, w: u64)
    requires s.Valid() && t in s.words && Slot(root, tags, hi, t, i)
    ensures var s' := s.(words := s.words[t := PutWord(s.words[t], i, w)]);
            s'.Valid() && Grew(s, tags, s', tags, root, hi)
  {
  }

  /** So is taking a frame from the pool and pointing one of its tables at it. */
  lemma TakenGrew(s: Snapshot, taken: Snapshot, root: nat, tags: Tags, hi: nat, t: nat, i: nat, child: nat, w: u64)
    requires s.Valid() && t in s.words && Slot(root, tags, hi, t, i) && tags[t].level >= 1
    requires child in s.free && taken.Valid() && child !in tags
    requires taken == Snapshot(s.free - {child}, s.held + {child}, s.words[child := seq(ENTRIES, _ => 0)], s.bytes)
    ensures t in taken.words
    ensures var s' := taken.(words := taken.words[t := PutWord(taken.words[t], i, w)]);
            s'.Valid() && Grew(s, tags, s', HangTags(tags, t, i, child), root, hi)
  {
    var tags' := HangTags(tags, t, i, child);
    assert tags'.Keys - tags.Keys == {child};
  }

  /** Widening in memory is widening in the tree. */
  lemma StepWidened(s: Snapshot, root: nat, tags: Tags, hi: nat, virt: nat, level: nat, t: nat, needed: Rights)
    requires s.Valid() && Tree(s.View(), root, tags, hi) && InReach(virt, hi) && 1 <= level <= 3
    requires t in tags && PathTable(s.View(), root, virt, level) == Some(t)
    requires t in s.words && Decode(s.words[t][Index(virt, level)]).present && !Decode(s.words[t][Index(virt, level)]).huge
    requires needed.user ==> Open(s.View(), root, tags, t)
    ensures var entry := s.words[t][Index(virt, level)];
            var w := WidenWord(entry, needed);
            && w < 0x1_0000_0000_0000_0000
            && var s' := s.(words := s.words[t := PutWord(s.words[t], Index(virt, level), w)]);
               && s'.Valid() && Grew(s, tags, s', tags, root, hi)
               && Descended(s.View(), tags, s'.View(), tags, root, hi, virt, level, Decode(entry).addr, needed.user)
  {
    hide Tree, Grew, Descended;
    var entry := s.words[t][Index(virt, level)];
    var w := WidenWord(entry, needed);
    DecodeWiden(entry, needed);
    SlotOnPath(s.View(), root, tags, hi, virt, level, t);
    PutGrew(s, root, tags, hi, t, Index(virt, level), w);
    ViewOfWrite(s, t, Index(virt, level), w);
    DescendWidened(s.View(), root, tags, hi, virt, level, t, needed);
  }

  /** Hanging a new zeroed frame in memory is hanging an empty table in the tree. */
  lemma StepHung(s: Snapshot, taken: Snapshot, root: nat, tags: Tags, hi: nat, virt: nat, level: nat, t: nat,
                 child: nat, needed: Rights)
    requires s.Valid() && Tree(s.View(), root, tags, hi) && InReach(virt, hi) && 1 <= level <= 3
    requires t in tags && PathTable(s.View(), root, virt, level) == Some(t)
    requires t in s.words && !Decode(s.words[t][Index(virt, level)]).present
    requires needed.user ==> Open(s.View(), root, tags, t)
    requires child in s.free && taken.Valid()
    requires taken == Snapshot(s.free - {child}, s.held + {child}, s.words[child := seq(ENTRIES, _ => 0)], s.bytes)
    ensures t in taken.words && tags[t].level >= 1
    ensures var w := WidenWord(child, needed);
            && w < 0x1_0000_0000_0000_0000
            && var s' := taken.(words := taken.words[t := PutWord(taken.words[t], Index(virt, level), w)]);
               var tags' := HangTags(tags, t, Index(virt, level), child);
               && s'.Valid() && Grew(s, tags, s', tags', root, hi)
               && Descended(s.View(), tags, s'.View(), tags', root, hi, virt, level, child, needed.user)
  {
    hide Tree, Grew, Descended;
    var i := Index(virt, level);
    var w := WidenWord(child, needed);
    PathTag(s.View(), root, tags, hi, virt, level);
    TagsAreTables(s, root, tags, hi);
    assert child !in tags;
    DecodeTable(child, needed);
    ViewOfNewTable(s, taken, child);
    ViewOfWrite(taken, t, i, w);
    SlotOnPath(s.View(), root, tags, hi, virt, level, t);
    TakenGrew(s, taken, root, tags, hi, t, i, child, w);
    DescendHung(s.View(), root, tags, hi, virt, level, t, child, needed);
  }

  lemma TagsAreTables(s: Snapshot, root: nat, tags: Tags, hi: nat)
    requires Tree(s.View(), root, tags, hi)
    ensures tags.Keys <= s.words.Keys
  {
    forall t | t in tags
      ensures t in s.words
    {
      assert NodeOk(s.View(), root, tags, t);
    }
  }

  /** A page larger than the one asked for already covers `virt`. */
  ghost predicate CollidesAbove(mem: Tables, root: nat, virt: nat, level: nat) {
    && Walk(mem, root, 3, virt).Some?
    && Walk(mem, root, 3, virt).value.level > level
  }

  /** Where every walk starts. */
  lemma RootIsTagged(mem: Tables, root: nat, tags: Tags, hi: nat)
    requires Tree(mem, root, tags, hi)
    ensures root in tags
    ensures forall virt {:trigger PathTable(mem, root, virt, 3)} :: PathTable(mem, root, virt, 3) == Some(root)
    ensures Open(mem, root, tags, root) && SameWalks(mem, mem, root, hi) && hi <= ENTRIES
  {
  }

  lemma SameWalksTwice(mem: Tables, mem': Tables, mem'': Tables, root: nat, hi: nat)
    requires SameWalks(mem, mem', root, hi) && SameWalks(mem', mem'', root, hi)
    ensures SameWalks(mem, mem'', root, hi)
  {
  }

  lemma InstalledAfterSame(mem: Tables, mem': Tables, mem'': Tables, root: nat, hi: nat, virt: nat, level: nat, pte: Pte)
    requires level <= 2 && SameWalks(mem, mem', root, hi) && LeafInstalled(mem', mem'', root, hi, virt, level, pte)
    ensures LeafInstalled(mem, mem'', root, hi, virt, level, pte)
  {
  }

  lemma CollisionIsOld(mem: Tables, mem': Tables, root: nat, hi: nat, virt: nat, level: nat, walk: nat)
    requires SameWalks(mem, mem', root, hi) && InReach(virt, hi) && walk > level
    ensures Collides(mem', root, virt, walk) ==> CollidesAbove(mem, root, virt, level)
  {
  }

  /** Writing the leaf's word in memory installs the leaf in the tree. */
  lemma StepLeaf(s: Snapshot, root: nat, tags: Tags, hi: nat, virt: nat, level: nat, t: nat,
                 phys: nat, rights: Rights, memoryType: MemoryType)
    requires s.Valid() && Tree(s.View(), root, tags, hi) && InReach(virt, hi) && level <= 2
    requires t in tags && PathTable(s.View(), root, virt, level) == Some(t)
    requires phys % Span(level) == 0 && phys < PHYS_LIMIT
    requires rights.user ==> Open(s.View(), root, tags, t)
    ensures t in s.words
    ensures var w := LeafWord(phys, rights, memoryType, level > 0);
            && w < 0x1_0000_0000_0000_0000
            && var s' := s.(words := s.words[t := PutWord(s.words[t], Index(virt, level), w)]);
               && s'.Valid() && Grew(s, tags, s', tags, root, hi) && Tree(s'.View(), root, tags, hi)
               && LeafInstalled(s.View(), s'.View(), root, hi, virt, level, LeafPte(phys, rights, memoryType, level > 0))
               && (level == 0 && Tight(s.View(), root, tags, hi) ==> Tight(s'.View(), root, tags, hi))
  {
    hide Tree;
    hide Tight;
    hide LeafInstalled, Grew;
    TagsAreTables(s, root, tags, hi);
    SlotOnPath(s.View(), root, tags, hi, virt, level, t);
    var w := LeafWord(phys, rights, memoryType, level > 0);
    assert phys % PAGE_SIZE == 0 by { SpanAligned(phys, level); }
    DecodeLeaf(phys, rights, memoryType, level > 0);
    ViewOfWrite(s, t, Index(virt, level), w);
    PutGrew(s, root, tags, hi, t, Index(virt, level), w);
    InstallLeaf(s.View(), root, tags, hi, virt, level, t, LeafPte(phys, rights, memoryType, level > 0));
  }

  lemma SpanAligned(phys: nat, level: nat)
    requires level <= 2 && phys % Span(level) == 0
    ensures phys % PAGE_SIZE == 0
  {
  }

  /** A leaf written where the walk for `virt` stands takes over its block and nothing else. */
  lemma InstallLeaf(mem: Tables, root: nat, tags: Tags, hi: nat, virt: nat, level: nat, t: nat, e: Pte)
    requires Tree(mem, root, tags, hi) && InReach(virt, hi) && level <= 2
    requires t in tags && PathTable(mem, root, virt, level) == Some(t)
    requires e.present && IsLeaf(level, e) && e.addr % Span(level) == 0
    requires e.user ==> Open(mem, root, tags, t)
    ensures t in mem && |mem[t]| == ENTRIES
    ensures var mem' := Write(mem, t, Index(virt, level), e);
            && Tree(mem', root, tags, hi)
            && LeafInstalled(mem, mem', root, hi, virt, level, e)
            && (level == 0 && Tight(mem, root, tags, hi) ==> Tight(mem', root, tags, hi))
  {
    hide Tree;
    hide Tight;
    TableInMemory(mem, root, tags, hi, t);
    PathTag(mem, root, tags, hi, virt, level);
    BlockIndex(virt, level);
    var i := Index(virt, level);
    TreeAfterLeaf(mem, root, tags, hi, t, i, e);
    forall a: nat | InReach(a, hi)
      ensures Walk(Write(mem, t, i, e), root, 3, a) ==
              if Block(a, level) == Block(virt, level) then Some(Leaf(e, level)) else Walk(mem, root, 3, a)
    {
      if Block(a, level) == Block(virt, level) {
        WalkHitsLeaf(mem, root, tags, hi, virt, level, t, e, a);
      } else {
        BlockIndex(a, 3);
        assert tags[root].block == 0 by { RootCoversAll(mem, root, tags, hi); }
        WriteElsewhere(mem, root, tags, hi, t, i, e, root, a);
      }
    }
    if level == 0 && Tight(mem, root, tags, hi) {
      TightIsTree(mem, root, tags, hi);
      TightAfterLeaf(mem, root, tags, hi, t, i, e);
    }
  }

  lemma RootCoversAll(mem: Tables, root: nat, tags: Tags, hi: nat)
    requires Tree(mem, root, tags, hi)
    ensures root in tags && tags[root] == Node(3, 0, root)
  {
  }

  lemma TightIsTree(mem: Tables, root: nat, tags: Tags, hi: nat)
    requires Tight(mem, root, tags, hi)
    ensures Tree(mem, root, tags, hi)
  {
  }

  /** A large page sits where the walk for `virt` needed the table below `level`. */
  ghost predicate Collides(mem: Tables, root: nat, virt: nat, level: nat) {
    && Walk(mem, root, 3, virt).Some?
    && Walk(mem, root, 3, virt).value.level == level
  }

  /** Taking a zeroed frame adds one empty table to the view. */
  lemma ViewOfNewTable(s: Snapshot, s': Snapshot, f: nat)
    requires f !in s.words && s'.words == s.words[f := seq(ENTRIES, _ => 0)]
    ensures s'.View() == s.View()[f := Zeros()]
  {
    ViewOfZeros();
    assert s'.View().Keys == s.View()[f := Zeros()].Keys;
  }
}
