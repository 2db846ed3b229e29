/** Four-level page tables as the processor walks them: what a tree is, what an address
    resolves to in it, and how one write to one table changes that. Tables are frames of
    512 decoded entries; nothing here depends on how they are stored. */
module PageTree {
  import opened Basics
  import opened Entries

  const ENTRIES: nat := 512

  /** One past the largest virtual address the four index fields distinguish. */
  const VIRT_SPAN: nat := 0x1_0000_0000_0000

  type Tables = map<nat, seq<Pte>>

  /** How many bytes one entry of a level-`level` table covers (0 = PT .. 3 = PML4); at 4,
      how many the whole tree covers. */
  function Span(level: nat): (s: nat)
    requires level <= 4
    ensures s > 0
  {
    if level == 0 then 0x1000
    else if level == 1 then 0x20_0000
    else if level == 2 then 0x4000_0000
    else if level == 3 then 0x80_0000_0000
    else 0x1_0000_0000_0000
  }

  /** `level_size`: the size of the page whose leaf sits at `level`. */
  function LevelSize(level: nat): (s: nat)
    ensures s > 0
  {
    if level == 0 then PAGE_SIZE else if level == 1 then SIZE_2M else SIZE_1G
  }

  /** `virt >> (12 + 9 * level)`. */
  function Shift(virt: nat, level: nat): nat {
    if level == 0 then virt / 0x1000 else Shift(virt, level - 1) / 512
  }

  /** The index into a level-`level` table for `virt`. */
  function Index(virt: nat, level: nat): (i: nat)
    requires level <= 3
    ensures i < ENTRIES
  {
    Shift(virt, level) % 512
  }

  /** The indices are bits 12 to 20, 21 to 29, 30 to 38 and 39 to 47 of the address. */
  lemma IndicesAre(virt: nat)
    ensures Index(virt, 0) == virt / 0x1000 % 512 && Index(virt, 1) == virt / 0x20_0000 % 512
    ensures Index(virt, 2) == virt / 0x4000_0000 % 512 && Index(virt, 3) == virt / 0x80_0000_0000 % 512
  {
    hide Shift;
    ShiftIsDivision(virt, 0);
    ShiftIsDivision(virt, 1);
    ShiftIsDivision(virt, 2);
    ShiftIsDivision(virt, 3);
  }

  /** Which block of `Span(level)` bytes of the 48-bit space `virt` lies in. */
  function Block(virt: nat, level: nat): nat
    requires level <= 4
  {
    Shift(virt % VIRT_SPAN, level)
  }

  lemma BlockIndex(virt: nat, level: nat)
    requires level <= 3
    ensures Block(virt, level) == Block(virt, level + 1) * 512 + Index(virt, level)
    ensures Block(virt, 4) == 0
    ensures Block(virt, 3) == Index(virt, 3)
  {
    IndexOfResidue(virt, level);
    IndexOfResidue(virt, 3);
    TopOfResidue(virt % VIRT_SPAN);
  }

  lemma TopOfResidue(r: nat)
    requires r < VIRT_SPAN
    ensures Shift(r, 4) == 0
  {
    var y0 := r / 0x1000;
    var y1 := y0 / 512;
    var y2 := y1 / 512;
    assert y0 < 0x10_0000_0000;
    assert y1 < 0x800_0000;
    assert y2 < 0x4_0000;
    assert Shift(r, 0) == y0;
    assert Shift(r, 1) == y1;
    assert Shift(r, 2) == y2;
  }

  /** The walk ignores bits 48 and up. */
  lemma IndexOfResidue(virt: nat, level: nat)
    requires level <= 3
    ensures Index(virt % VIRT_SPAN, level) == Index(virt, level)
  {
    ShiftOfSum(virt / VIRT_SPAN, virt % VIRT_SPAN, level);
    var y := Shift(virt % VIRT_SPAN, level);
    var k := virt / VIRT_SPAN * Copies(level);
    assert (512 * k + y) % 512 == y % 512;
  }

  /** How many multiples of 512 the bits above 47 contribute once shifted. */
  function Copies(level: nat): nat
    requires level <= 3
  {
    if level == 0 then 0x800_0000
    else if level == 1 then 0x4_0000
    else if level == 2 then 0x200
    else 1
  }

  lemma ShiftOfSum(q: nat, r: nat, level: nat)
    requires level <= 3
    ensures Shift(VIRT_SPAN * q + r, level) == 512 * (q * Copies(level)) + Shift(r, level)
  {
    if level == 0 {
      assert (0x1_0000_0000_0000 * q + r) / 0x1000 == 0x10_0000_0000 * q + r / 0x1000;
    } else {
      ShiftOfSum(q, r, level - 1);
      ShiftStep(q, Shift(r, level - 1), level);
    }
  }

  lemma ShiftStep(q: nat, y: nat, level: nat)
    requires 1 <= level <= 3
    ensures (512 * (q * Copies(level - 1)) + y) / 512 == 512 * (q * Copies(level)) + y / 512
  {
    var k := q * Copies(level - 1);
    assert (512 * k + y) / 512 == k + y / 512;
  }

  /** Addresses in one block share every coarser block. */
  lemma BlockCoarsens(a: nat, b: nat, level: nat)
    requires level <= 3 && Block(a, level) == Block(b, level)
    ensures Block(a, level + 1) == Block(b, level + 1)
    ensures Index(a, level) == Index(b, level)
  {
    BlockIndex(a, level);
    BlockIndex(b, level);
  }

  /** An aligned block is the interval of addresses it looks like. */
  lemma BlockInterval(v: nat, a: nat, level: nat)
    requires level <= 3 && v < VIRT_SPAN && a < VIRT_SPAN && v % Span(level) == 0
    ensures Block(a, level) == Block(v, level) <==> v <= a < v + Span(level)
  {
    hide Shift;
    BlockIsQuotient(a, level);
    BlockIsQuotient(v, level);
    if level == 0 {
      Interval0(v, a);
    } else if level == 1 {
      Interval1(v, a);
    } else if level == 2 {
      Interval2(v, a);
    } else {
      Interval3(v, a);
    }
  }

  lemma BlockIsQuotient(x: nat, level: nat)
    requires level <= 3 && x < VIRT_SPAN
    ensures Block(x, level) == x / Span(level)
  {
    assert x % VIRT_SPAN == x;
    ShiftIsDivision(x, level);
  }

  lemma ShiftIsDivision(x: nat, level: nat)
    requires level <= 3
    ensures Shift(x, level) == x / Span(level)
  {
    if level > 0 {
      ShiftIsDivision(x, level - 1);
      DivideAgain(x);
    }
  }

  lemma DivideAgain(x: nat)
    ensures x / 0x1000 / 512 == x / 0x20_0000
    ensures x / 0x20_0000 / 512 == x / 0x4000_0000
    ensures x / 0x4000_0000 / 512 == x / 0x80_0000_0000
  {
  }

  lemma Interval0(v: nat, a: nat)
    requires v % 0x1000 == 0
    ensures a / 0x1000 == v / 0x1000 <==> v <= a < v + 0x1000
  {
  }

  lemma Interval1(v: nat, a: nat)
    requires v % 0x20_0000 == 0
    ensures a / 0x20_0000 == v / 0x20_0000 <==> v <= a < v + 0x20_0000
  {
  }

  lemma Interval2(v: nat, a: nat)
    requires v % 0x4000_0000 == 0
    ensures a / 0x4000_0000 == v / 0x4000_0000 <==> v <= a < v + 0x4000_0000
  {
  }

  lemma Interval3(v: nat, a: nat)
    requires v % 0x80_0000_0000 == 0
    ensures a / 0x80_0000_0000 == v / 0x80_0000_0000 <==> v <= a < v + 0x80_0000_0000
  {
  }

  datatype Leaf = Leaf(pte: Pte, level: nat)

  /** Whether the processor takes this present entry as the end of the walk. */
  predicate IsLeaf(level: nat, e: Pte) {
    level == 0 || e.huge
  }

  /** The leaf a walk for `virt` ends at when it stands at `table`, a table of level `level`. */
  function Walk(mem: Tables, table: nat, level: nat, virt: nat): (r: Option<Leaf>)
    requires level <= 3
    ensures r.Some? ==> r.value.level <= level && r.value.pte.present && IsLeaf(r.value.level, r.value.pte)
    decreases level
  {
    if table !in mem || |mem[table]| != ENTRIES then None
    else
      var e := mem[table][Index(virt, level)];
      if !e.present then None
      else if IsLeaf(level, e) then Some(Leaf(e, level))
      else Walk(mem, e.addr, level - 1, virt)
  }

  /** What an address resolves to. */
  datatype Translation = Translation(phys: nat, rights: Rights, memoryType: MemoryType, pageSize: nat)

  /** The answer read off a leaf: its address rounded to its page size plus the offset. */
  function LeafTranslation(leaf: Leaf, rights: Rights, virt: nat): Translation
    requires leaf.level <= 3
  {
    var size := LevelSize(leaf.level);
    Translation(leaf.pte.addr / size * size + virt % size, rights, leaf.pte.GetType(), size)
  }

  /** `translate` from `table` on: the rights are those of every entry passed, combined. */
  function TranslateFrom(mem: Tables, table: nat, level: nat, virt: nat, effective: Rights): Option<Translation>
    requires level <= 3
    decreases level
  {
    if table !in mem || |mem[table]| != ENTRIES then None
    else
      var e := mem[table][Index(virt, level)];
      if !e.present then None
      else
        var rights := effective.Intersect(e.GetRights());
        if IsLeaf(level, e) then Some(LeafTranslation(Leaf(e, level), rights, virt))
        else TranslateFrom(mem, e.addr, level - 1, virt, rights)
  }

  function Translate(mem: Tables, root: nat, virt: nat): Option<Translation> {
    TranslateFrom(mem, root, 3, virt, ALL)
  }

  /** What is known of a table: its level, the block its entries cover, and the table that
      points at it. The map from frames to nodes is what makes a heap of tables a tree. */
  datatype Node = Node(level: nat, block: nat, parent: nat)

  type Tags = map<nat, Node>

  /** No entry of `table` is open to ring 3. */
  ghost predicate NoUser(mem: Tables, table: nat)
    requires table in mem
  {
    forall j :: 0 <= j < |mem[table]| && mem[table][j].present ==> !mem[table][j].user
  }

  /** An entry of table `t` is one this crate could have written: a leaf aligned to its page,
      or a pointer that restricts nothing below it and is open to ring 3 when anything below
      it is. */
  ghost predicate EntryOk(mem: Tables, tags: Tags, t: nat, i: nat, e: Pte)
    requires t in tags && tags.Keys <= mem.Keys
  {
    var n := tags[t];
    if IsLeaf(n.level, e) then
      n.level <= 2 && e.addr % Span(n.level) == 0
    else
      && e.write && e.exec
      && e.addr in tags
      && tags[e.addr] == Node(n.level - 1, n.block * 512 + i, t)
      && (!e.user ==> NoUser(mem, e.addr))
  }

  ghost predicate NodeOk(mem: Tables, root: nat, tags: Tags, t: nat)
    requires t in tags
  {
    && t in mem && |mem[t]| == ENTRIES
    && tags[t].level <= 3
    && (tags[t].level == 3 ==> t == root)
  }

  /** The frames in `tags` form a tree under `root`, looking only at the first `hi` slots of
      the root: all 512 for the kernel's tree, 256 for a process's own half. */
  ghost predicate Tree(mem: Tables, root: nat, tags: Tags, hi: nat) {
    && hi <= ENTRIES
    && root in tags && tags[root] == Node(3, 0, root)
    && (forall t :: t in tags ==> NodeOk(mem, root, tags, t))
    && (forall t, i :: t in tags && 0 <= i < ENTRIES && (t == root ==> i < hi) && mem[t][i].present
          ==> EntryOk(mem, tags, t, i, mem[t][i]))
  }

  /** Every table but the root is pointed at by its parent: nothing in the tree is lost. */
  ghost predicate Tight(mem: Tables, root: nat, tags: Tags, hi: nat) {
    && Tree(mem, root, tags, hi)
    && forall c :: c in tags && c != root ==> Hangs(mem, root, tags, hi, c)
  }

  ghost predicate Hangs(mem: Tables, root: nat, tags: Tags, hi: nat, c: nat)
    requires c in tags && Tree(mem, root, tags, hi)
  {
    var p, i := tags[c].parent, tags[c].block % 512;
    && p in tags
    && tags[c].level < 3
    && tags[p].level == tags[c].level + 1
    && tags[p].block == tags[c].block / 512
    && (p == root ==> i < hi)
    && mem[p][i].present && !IsLeaf(tags[p].level, mem[p][i]) && mem[p][i].addr == c
  }

  /** Addresses whose top-level slot is among the first `hi`. */
  predicate InReach(virt: nat, hi: nat) {
    Index(virt, 3) < hi
  }

  // ---------------------------------------------------------------------------------------
  // Effective rights
  // ---------------------------------------------------------------------------------------

  /** Along a well-built tree the effective rights are the leaf's own: no intermediate strips
      a right, and the user bit of a leaf is never lost or gained on the way down. */
  lemma {:induction false} RightsAreTheLeafs(mem: Tables, root: nat, tags: Tags, hi: nat,
                                             t: nat, virt: nat, effective: Rights)
    requires Tree(mem, root, tags, hi) && t in tags && (t == root ==> InReach(virt, hi))
    requires effective.write && effective.exec && (effective.user || NoUser(mem, t))
    ensures TranslateFrom(mem, t, tags[t].level, virt, effective) ==
            match Walk(mem, t, tags[t].level, virt)
            case None => None
            case Some(leaf) => Some(LeafTranslation(leaf, leaf.pte.GetRights(), virt))
    decreases tags[t].level
  {
    var l := tags[t].level;
    assert NodeOk(mem, root, tags, t);
    var i := Index(virt, l);
    var e := mem[t][i];
    if e.present {
      assert EntryOk(mem, tags, t, i, e);
      if !IsLeaf(l, e) {
        assert NodeOk(mem, root, tags, e.addr);
        RightsAreTheLeafs(mem, root, tags, hi, e.addr, virt, effective.Intersect(e.GetRights()));
      }
    }
  }

  lemma TranslateIsWalk(mem: Tables, root: nat, tags: Tags, hi: nat, virt: nat)
    requires Tree(mem, root, tags, hi) && InReach(virt, hi)
    ensures Translate(mem, root, virt) ==
            match Walk(mem, root, 3, virt)
            case None => None
            case Some(leaf) => Some(LeafTranslation(leaf, leaf.pte.GetRights(), virt))
  {
    RightsAreTheLeafs(mem, root, tags, hi, root, virt, ALL);
  }

  // ---------------------------------------------------------------------------------------
  // One write
  // ---------------------------------------------------------------------------------------

  function Write(mem: Tables, t: nat, i: nat, e: Pte): Tables
    requires t in mem && i < |mem[t]|
  {
    mem[t := mem[t][i := e]]
  }

  /** Whether a walk for `virt` can pass through slot `i` of `t`. */
  predicate Covers(tags: Tags, t: nat, i: nat, virt: nat)
    requires t in tags && tags[t].level <= 3
  {
    Block(virt, tags[t].level) == tags[t].block * 512 + i
  }

  /** A write to one slot changes nothing for an address that slot does not cover. */
  lemma {:induction false} WriteElsewhere(mem: Tables, root: nat, tags: Tags, hi: nat, t: nat, i: nat, e: Pte,
                                          u: nat, virt: nat)
    requires Tree(mem, root, tags, hi) && t in tags && i < ENTRIES && u in tags
    requires Block(virt, tags[u].level + 1) == tags[u].block && (u == root ==> InReach(virt, hi))
    requires !Covers(tags, t, i, virt)
    ensures Walk(Write(mem, t, i, e), u, tags[u].level, virt) == Walk(mem, u, tags[u].level, virt)
    decreases tags[u].level
  {
    var l := tags[u].level;
    BlockIndex(virt, l);
    var k := Index(virt, l);
    var x := mem[u][k];
    assert u == t ==> k != i;
    assert Write(mem, t, i, e)[u][k] == x;
    if x.present && !IsLeaf(l, x) {
      assert EntryOk(mem, tags, u, k, x);
      WriteElsewhere(mem, root, tags, hi, t, i, e, x.addr, virt);
    }
  }

  /** The table of level `level` a walk for `virt` passes through, if it gets that far. */
  function PathTable(mem: Tables, root: nat, virt: nat, level: nat): Option<nat>
    requires level <= 3
    decreases 3 - level
  {
    if level == 3 then Some(root)
    else
      match PathTable(mem, root, virt, level + 1)
      case None => None
      case Some(t) =>
        if t !in mem || |mem[t]| != ENTRIES then None
        else
          var e := mem[t][Index(virt, level + 1)];
          if e.present && !IsLeaf(level + 1, e) then Some(e.addr) else None
  }

  lemma {:induction false} PathTag(mem: Tables, root: nat, tags: Tags, hi: nat, virt: nat, level: nat)
    requires Tree(mem, root, tags, hi) && InReach(virt, hi) && level <= 3
    requires PathTable(mem, root, virt, level).Some?
    ensures PathTable(mem, root, virt, level).value in tags
    ensures tags[PathTable(mem, root, virt, level).value].level == level
    ensures tags[PathTable(mem, root, virt, level).value].block == Block(virt, level + 1)
    decreases 3 - level
  {
    BlockIndex(virt, 3);
    if level < 3 {
      PathTag(mem, root, tags, hi, virt, level + 1);
      var t := PathTable(mem, root, virt, level + 1).value;
      assert EntryOk(mem, tags, t, Index(virt, level + 1), mem[t][Index(virt, level + 1)]);
      BlockIndex(virt, level + 1);
    }
  }

  /** Once a walk has reached a table, the rest of it is the walk from that table. */
  lemma {:induction false} PathWalk(mem: Tables, root: nat, tags: Tags, hi: nat, virt: nat, level: nat, a: nat)
    requires Tree(mem, root, tags, hi) && InReach(virt, hi) && level <= 3
    requires PathTable(mem, root, virt, level).Some?
    requires Block(a, level + 1) == Block(virt, level + 1)
    ensures InReach(a, hi) || level == 3
    ensures PathTable(mem, root, a, level) == PathTable(mem, root, virt, level)
    ensures Walk(mem, root, 3, a) == Walk(mem, PathTable(mem, root, virt, level).value, level, a)
    decreases 3 - level
  {
    if level < 3 {
      BlockCoarsens(a, virt, level + 1);
      PathWalk(mem, root, tags, hi, virt, level + 1, a);
      PathTag(mem, root, tags, hi, virt, level + 1);
      BlockIndex(a, 3);
      BlockIndex(virt, 3);
      if level < 2 { BlockCoarsens(a, virt, level + 2); }
    }
  }

  /** The path down to a level reads only tables above it. */
  lemma {:induction false} PathStable(mem: Tables, mem': Tables, root: nat, tags: Tags, hi: nat, virt: nat, level: nat)
    requires Tree(mem, root, tags, hi) && InReach(virt, hi) && level <= 3
    requires forall u :: u in tags && tags[u].level > level ==> u in mem' && mem'[u] == mem[u]
    ensures PathTable(mem', root, virt, level) == PathTable(mem, root, virt, level)
    decreases 3 - level
  {
    if level < 3 {
      PathStable(mem, mem', root, tags, hi, virt, level + 1);
      if PathTable(mem, root, virt, level + 1).Some? {
        PathTag(mem, root, tags, hi, virt, level + 1);
      }
    }
  }
}
