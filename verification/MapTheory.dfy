/** From leaves to bytes: what a run of installed leaves means for every address, stated on the
    translations the processor computes. */
module MapTheory {
  import opened Basics
  import opened Entries
  import opened PageTree
  import opened TreeUpdates

  /** The address resolves to `phys` with exactly these effective rights and this cache type. */
  ghost predicate MapsTo(t: Option<Translation>, phys: nat, rights: Rights, memoryType: MemoryType) {
    t.Some? && t.value.phys == phys && t.value.rights == rights && t.value.memoryType == memoryType
  }

  /** Between `mem` and `mem'`, the bytes `[v, v + done)` of the 48-bit space came to resolve to
      `phys` onwards as asked, and every other address resolves as it did. */
  ghost predicate Mapped(mem: Tables, mem': Tables, root: nat, hi: nat, v: nat, phys: nat, done: nat,
                         rights: Rights, memoryType: MemoryType)
  {
    forall a: nat :: a < VIRT_SPAN && InReach(a, hi) ==>
      if v <= a < v + done
      then MapsTo(Translate(mem', root, a), phys + (a - v), rights, memoryType)
      else Translate(mem', root, a) == Translate(mem, root, a)
  }

  /** Exactly the aligned block around `virt` changed hands: it now ends at `pte`. */
  ghost predicate LeafInstalled(mem: Tables, mem': Tables, root: nat, hi: nat, virt: nat, level: nat, pte: Pte)
    requires level <= 2
  {
    forall a: nat :: InReach(a, hi) ==>
      Walk(mem', root, 3, a) ==
      if Block(a, level) == Block(virt, level) then Some(Leaf(pte, level)) else Walk(mem, root, 3, a)
  }

  /** Two addresses of the 48-bit space lie in one aligned page of `size` bytes. */
  predicate SamePage(a: nat, b: nat, size: nat)
    requires size > 0
  {
    a % VIRT_SPAN / size == b % VIRT_SPAN / size
  }

  lemma BlockIsPage(a: nat, b: nat, level: nat)
    requires level <= 2
    ensures Block(a, level) == Block(b, level) <==> SamePage(a, b, LevelSize(level))
  {
    ShiftIsDivision(a % VIRT_SPAN, level);
    ShiftIsDivision(b % VIRT_SPAN, level);
  }

  /** Between `mem` and `mem'`, exactly the page of `size` bytes around `virt` stopped resolving. */
  ghost predicate Unmapped(mem: Tables, mem': Tables, root: nat, hi: nat, virt: nat, size: nat)
    requires size > 0
  {
    forall a: nat :: InReach(a, hi) ==>
      Translate(mem', root, a) == if SamePage(a, virt, size) then None else Translate(mem, root, a)
  }

  /** Unmapping undoes mapping: installing a leaf over a page nothing resolved in, then removing
      what `virt` resolves to, gives back the original translation of every address. */
  lemma UnmapUndoesMap(mem: Tables, mem': Tables, tags': Tags, mem'': Tables, tags: Tags, root: nat, hi: nat,
                       virt: nat, phys: nat, level: nat, rights: Rights, memoryType: MemoryType)
    requires Tree(mem, root, tags, hi) && Tree(mem', root, tags', hi) && level <= 2 && InReach(virt, hi)
    requires LeafInstalled(mem, mem', root, hi, virt, level, LeafPte(phys, rights, memoryType, level > 0))
    requires forall a: nat :: InReach(a, hi) && SamePage(a, virt, LevelSize(level)) ==> Translate(mem, root, a).None?
    requires Translate(mem', root, virt).Some? && Translate(mem', root, virt).value.pageSize > 0
    requires Unmapped(mem', mem'', root, hi, virt, Translate(mem', root, virt).value.pageSize)
    ensures forall a: nat :: InReach(a, hi) ==> Translate(mem'', root, a) == Translate(mem, root, a)
  {
    hide Tree, Translate;
    assert Walk(mem', root, 3, virt) == Some(Leaf(LeafPte(phys, rights, memoryType, level > 0), level));
    TranslateIsWalk(mem', root, tags', hi, virt);
    forall a: nat | InReach(a, hi)
      ensures Translate(mem'', root, a) == Translate(mem, root, a)
    {
      if !SamePage(a, virt, LevelSize(level)) {
        BlockIsPage(a, virt, level);
        assert Walk(mem', root, 3, a) == Walk(mem, root, 3, a);
        SameWalkSameTranslation(mem, tags, mem', tags', root, hi, a);
      }
    }
  }

  function LeafResult(leaf: Leaf, virt: nat): Translation
    requires leaf.level <= 3
  {
    LeafTranslation(leaf, leaf.pte.GetRights(), virt)
  }

  /** The same leaf for every address is the same translation for every address. */
  lemma SameWalkSameTranslation(mem: Tables, tags: Tags, mem': Tables, tags': Tags, root: nat, hi: nat, a: nat)
    requires Tree(mem, root, tags, hi) && Tree(mem', root, tags', hi) && InReach(a, hi)
    requires Walk(mem', root, 3, a) == Walk(mem, root, 3, a)
    ensures Translate(mem', root, a) == Translate(mem, root, a)
  {
    TranslateIsWalk(mem, root, tags, hi, a);
    TranslateIsWalk(mem', root, tags', hi, a);
  }

  lemma SameWalksMapNothing(mem: Tables, tags: Tags, mem': Tables, tags': Tags, root: nat, hi: nat,
                            v: nat, phys: nat, rights: Rights, memoryType: MemoryType)
    requires Tree(mem, root, tags, hi) && Tree(mem', root, tags', hi) && SameWalks(mem, mem', root, hi)
    ensures Mapped(mem, mem', root, hi, v, phys, 0, rights, memoryType)
  {
    forall a: nat | a < VIRT_SPAN && InReach(a, hi)
      ensures Translate(mem', root, a) == Translate(mem, root, a)
    {
      SameWalkSameTranslation(mem, tags, mem', tags', root, hi, a);
    }
  }

  /** What an installed leaf translates an address of its own block to. */
  lemma LeafBytes(v: nat, phys: nat, level: nat, rights: Rights, memoryType: MemoryType, a: nat)
    requires level <= 2 && v % Span(level) == 0 && phys % Span(level) == 0 && v <= a < v + Span(level)
    ensures LeafResult(Leaf(LeafPte(phys, rights, memoryType, level > 0), level), a) ==
            Translation(phys + (a - v), rights, memoryType, LevelSize(level))
  {
    if level == 0 {
      Aligned0(v, a);
      Aligned0(phys, phys);
    } else if level == 1 {
      Aligned1(v, a);
      Aligned1(phys, phys);
    } else {
      Aligned2(v, a);
      Aligned2(phys, phys);
    }
  }

  lemma Aligned0(v: nat, a: nat)
    requires v % 0x1000 == 0 && v <= a < v + 0x1000
    ensures a % 0x1000 == a - v && v / 0x1000 * 0x1000 == v
  {
  }

  lemma Aligned1(v: nat, a: nat)
    requires v % 0x20_0000 == 0 && v <= a < v + 0x20_0000
    ensures a % 0x20_0000 == a - v && v / 0x20_0000 * 0x20_0000 == v
  {
  }

  lemma Aligned2(v: nat, a: nat)
    requires v % 0x4000_0000 == 0 && v <= a < v + 0x4000_0000
    ensures a % 0x4000_0000 == a - v && v / 0x4000_0000 * 0x4000_0000 == v
  {
  }

  /** Installing the next leaf extends what is mapped by its whole page and disturbs nothing
      else: not what was mapped before it, and nothing outside the request. */
  lemma MappedExtends(mem: Tables, mem': Tables, tags': Tags, mem'': Tables, tags'': Tags,
                      root: nat, hi: nat, v: nat, phys: nat, done: nat, level: nat,
                      rights: Rights, memoryType: MemoryType, virt: nat)
    requires Tree(mem', root, tags', hi) && Tree(mem'', root, tags'', hi)
    requires Mapped(mem, mem', root, hi, v, phys, done, rights, memoryType)
    requires level <= 2 && v + done + Span(level) <= VIRT_SPAN && virt % VIRT_SPAN == v + done
    requires (v + done) % Span(level) == 0 && (phys + done) % Span(level) == 0
    requires LeafInstalled(mem', mem'', root, hi, virt, level, LeafPte(phys + done, rights, memoryType, level > 0))
    ensures Mapped(mem, mem'', root, hi, v, phys, done + Span(level), rights, memoryType)
  {
    hide Tree, Walk, Translate, LeafPte, LeafResult, Span;
    forall a: nat | a < VIRT_SPAN && InReach(a, hi)
      ensures if v <= a < v + (done + Span(level))
              then MapsTo(Translate(mem'', root, a), phys + (a - v), rights, memoryType)
              else Translate(mem'', root, a) == Translate(mem, root, a)
    {
      if v + done <= a < v + done + Span(level) {
        InsideNewLeaf(mem', mem'', tags'', root, hi, v + done, phys + done, level, rights, memoryType, virt, a);
      } else {
        OutsideNewLeaf(mem', tags', mem'', tags'', root, hi, v + done, level,
                       LeafPte(phys + done, rights, memoryType, level > 0), virt, a);
      }
    }
  }

  lemma InsideNewLeaf(mem: Tables, mem': Tables, tags': Tags, root: nat, hi: nat, v: nat, phys: nat, level: nat,
                      rights: Rights, memoryType: MemoryType, virt: nat, a: nat)
    requires Tree(mem', root, tags', hi) && InReach(a, hi) && a < VIRT_SPAN
    requires level <= 2 && virt % VIRT_SPAN == v && v % Span(level) == 0 && phys % Span(level) == 0
    requires LeafInstalled(mem, mem', root, hi, virt, level, LeafPte(phys, rights, memoryType, level > 0))
    requires v <= a < v + Span(level)
    ensures MapsTo(Translate(mem', root, a), phys + (a - v), rights, memoryType)
    ensures Translate(mem', root, a).value.pageSize == LevelSize(level)
  {
    hide Tree, Translate;
    BlockInterval(v, a, level);
    assert Walk(mem', root, 3, a) == Some(Leaf(LeafPte(phys, rights, memoryType, level > 0), level));
    TranslateIsWalk(mem', root, tags', hi, a);
    LeafBytes(v, phys, level, rights, memoryType, a);
  }

  lemma OutsideNewLeaf(mem: Tables, tags: Tags, mem': Tables, tags': Tags, root: nat, hi: nat, v: nat, level: nat,
                       pte: Pte, virt: nat, a: nat)
    requires Tree(mem, root, tags, hi) && Tree(mem', root, tags', hi) && InReach(a, hi) && a < VIRT_SPAN
    requires level <= 2 && virt % VIRT_SPAN == v && v % Span(level) == 0
    requires LeafInstalled(mem, mem', root, hi, virt, level, pte)
    requires !(v <= a < v + Span(level))
    ensures Translate(mem', root, a) == Translate(mem, root, a)
  {
    hide Tree, Translate, Walk;
    BlockInterval(v, a, level);
    assert Walk(mem', root, 3, a) == Walk(mem, root, 3, a);
    SameWalkSameTranslation(mem, tags, mem', tags', root, hi, a);
  }

  /** Steps that move no walk leave what is mapped as it is. */
  lemma MappedUnchanged(mem: Tables, mem': Tables, tags': Tags, mem'': Tables, tags'': Tags,
                        root: nat, hi: nat, v: nat, phys: nat, done: nat, rights: Rights, memoryType: MemoryType)
    requires Tree(mem', root, tags', hi) && Tree(mem'', root, tags'', hi)
    requires Mapped(mem, mem', root, hi, v, phys, done, rights, memoryType) && SameWalks(mem', mem'', root, hi)
    ensures Mapped(mem, mem'', root, hi, v, phys, done, rights, memoryType)
  {
    forall a: nat | a < VIRT_SPAN && InReach(a, hi)
      ensures Translate(mem'', root, a) == Translate(mem', root, a)
    {
      SameWalkSameTranslation(mem', tags', mem'', tags'', root, hi, a);
    }
  }

  /** Which addresses the first `hi` root slots reach. */
  lemma ReachIsPrefix(a: nat, hi: nat)
    requires hi <= ENTRIES
    ensures InReach(a, hi) <==> a % VIRT_SPAN < hi * Span(3)
  {
    IndexOfResidue(a, 3);
    BlockIndex(a, 3);
    ShiftIsDivision(a % VIRT_SPAN, 3);
    QuotientBelow(a % VIRT_SPAN, hi);
  }

  lemma QuotientBelow(x: nat, hi: nat)
    ensures x / 0x80_0000_0000 < hi <==> x < hi * 0x80_0000_0000
  {
  }

  /** The walk looks at 48 bits of the address: the rest make no difference to the answer. */
  lemma TranslateIgnoresHighBits(mem: Tables, root: nat, a: nat)
    ensures Translate(mem, root, a) == Translate(mem, root, a % VIRT_SPAN)
  {
    IgnoresHighBits(mem, root, 3, a, ALL);
  }

  lemma {:induction false} IgnoresHighBits(mem: Tables, table: nat, level: nat, a: nat, effective: Rights)
    requires level <= 3
    ensures TranslateFrom(mem, table, level, a, effective) ==
            TranslateFrom(mem, table, level, a % VIRT_SPAN, effective)
    decreases level
  {
    IndexOfResidue(a, level);
    OffsetOfResidue(a, LevelSize(level));
    if table in mem && |mem[table]| == ENTRIES {
      var e := mem[table][Index(a, level)];
      if e.present && !IsLeaf(level, e) {
        IgnoresHighBits(mem, e.addr, level - 1, a, effective.Intersect(e.GetRights()));
      }
    }
  }

  lemma OffsetOfResidue(a: nat, size: nat)
    requires size == PAGE_SIZE || size == SIZE_2M || size == SIZE_1G
    ensures a % VIRT_SPAN % size == a % size
  {
    if size == PAGE_SIZE {
      Offset0(a);
    } else if size == SIZE_2M {
      Offset1(a);
    } else {
      Offset2(a);
    }
  }

  lemma Offset0(a: nat)
    ensures a % 0x1_0000_0000_0000 % 0x1000 == a % 0x1000
  {
  }

  lemma Offset1(a: nat)
    ensures a % 0x1_0000_0000_0000 % 0x20_0000 == a % 0x20_0000
  {
  }

  lemma Offset2(a: nat)
    ensures a % 0x1_0000_0000_0000 % 0x4000_0000 == a % 0x4000_0000
  {
  }
}
