/** What an address space owns: the flat page map its tables must agree with, the frames it
    took, and how those frames are distributed under the slots of its tree. */
module SpaceTheory {
  import opened Basics
  import opened Entries
  import opened PageTree
  import opened TreeUpdates
  import opened FramePool
  import opened MapTheory

  /** The first PML4 slot of the kernel half: a space owns the slots before it. */
  const KERNEL_PML4_FIRST: nat := 256

  /** One past the last user address, and the last user page. */
  const USER_LIMIT: nat := 0x8000_0000_0000
  const USER_PAGES: nat := 0x8_0000_0000

  /** The page where every space sees the kernel's clock. */
  const CLOCK_PAGE: nat := 0x40_0010

  datatype Page = Page(frame: nat, rights: Rights)

  /** The simple thing a space is: a finite map from virtual pages to frames and rights. */
  type Flat = map<nat, Page>

  function PageLeaf(p: Page): Leaf {
    Leaf(LeafPte(p.frame, p.rights, Normal, false), 0)
  }

  /** The tables resolve exactly what the flat map says, for every address of the lower half. */
  ghost predicate Agrees(mem: Tables, root: nat, flat: Flat) {
    forall a: nat :: InReach(a, KERNEL_PML4_FIRST) ==>
      Walk(mem, root, 3, a) == if Block(a, 0) in flat then Some(PageLeaf(flat[Block(a, 0)])) else None
  }

  /** Every mapped page is a user page of 4 KiB of data, no owned frame is mapped twice, and the
      borrowed one is only the clock's and only read. */
  ghost predicate FlatOk(s: Snapshot, flat: Flat, borrowed: Option<nat>) {
    && (borrowed.Some? ==> borrowed.value in s.bytes)
    && (forall v :: v in flat ==> v < USER_PAGES && flat[v].frame in s.bytes && flat[v].rights.user)
    && (forall v, w :: v in flat && w in flat && v != w && flat[v].frame == flat[w].frame ==> Some(flat[v].frame) == borrowed)
    && (forall v :: v in flat && Some(flat[v].frame) == borrowed ==> v == CLOCK_PAGE && !flat[v].rights.write)
  }

  ghost predicate SpaceOk(s: Snapshot, root: nat, tags: Tags, flat: Flat, borrowed: Option<nat>) {
    && s.Valid()
    && Tight(s.View(), root, tags, KERNEL_PML4_FIRST)
    && Agrees(s.View(), root, flat)
    && FlatOk(s, flat, borrowed)
  }

  /** The data frames a space took: those it maps, but for the borrowed one. */
  ghost function Data(flat: Flat, borrowed: Option<nat>): set<nat> {
    set v | v in flat && Some(flat[v].frame) != borrowed :: flat[v].frame
  }

  /** Every frame a space took from the pool: its tables, the root among them, and its data. */
  ghost function Owned(tags: Tags, flat: Flat, borrowed: Option<nat>): set<nat> {
    tags.Keys + Data(flat, borrowed)
  }

  // ---------------------------------------------------------------------------------------
  // Blocks within blocks
  // ---------------------------------------------------------------------------------------

  /** The block `k` levels up that holds block `b`. */
  function Up(b: nat, k: nat): nat {
    if k == 0 then b else Up(b, k - 1) / 512
  }

  lemma {:induction false} UpOfParent(b: nat, k: nat)
    ensures Up(b / 512, k) == Up(b, k + 1)
  {
    if k > 0 {
      UpOfParent(b, k - 1);
    }
  }

  lemma {:induction false} BlockOfPage(v: nat, level: nat)
    requires v < USER_PAGES && level <= 4
    ensures Block(v * PAGE_SIZE, level) == Up(v, level)
  {
    assert v * PAGE_SIZE % VIRT_SPAN == v * PAGE_SIZE;
    ShiftOfPage(v, level);
  }

  lemma {:induction false} ShiftOfPage(v: nat, level: nat)
    ensures Shift(v * PAGE_SIZE, level) == Up(v, level)
  {
    if level > 0 {
      ShiftOfPage(v, level - 1);
    }
  }

  lemma PageReach(v: nat)
    requires v < USER_PAGES
    ensures InReach(v * PAGE_SIZE, KERNEL_PML4_FIRST) && Block(v * PAGE_SIZE, 0) == v && Up(v, 3) < KERNEL_PML4_FIRST
  {
    BlockOfPage(v, 0);
    BlockOfPage(v, 3);
    BlockIndex(v * PAGE_SIZE, 3);
    var u1 := v / 512;
    var u2 := u1 / 512;
    assert Up(v, 1) == u1 && Up(v, 2) == u2;
    assert u1 < 0x400_0000 && u2 < 0x2_0000;
  }

  // ---------------------------------------------------------------------------------------
  // The frames under a slot
  // ---------------------------------------------------------------------------------------

  /** The table `c` hangs somewhere under slot `k` of a table of level `level`. */
  predicate TableUnder(tags: Tags, c: nat, level: nat, k: nat)
    requires c in tags
  {
    tags[c].level < level && Up(tags[c].block, level - tags[c].level - 1) == k
  }

  /** The owned page `v` is mapped somewhere under slot `k` of a table of level `level`. */
  predicate PageUnder(flat: Flat, borrowed: Option<nat>, v: nat, level: nat, k: nat)
    requires v in flat
  {
    Some(flat[v].frame) != borrowed && Up(v, level) == k
  }

  /** The frames a space took that are found under slot `k`. */
  ghost function InSlot(tags: Tags, flat: Flat, borrowed: Option<nat>, level: nat, k: nat): set<nat> {
    (set c | c in tags && TableUnder(tags, c, level, k))
    + (set v | v in flat && PageUnder(flat, borrowed, v, level, k) :: flat[v].frame)
  }

  /** The frames under the first `n` slots of the table of level `level` that covers `block`. */
  ghost function Below(tags: Tags, flat: Flat, borrowed: Option<nat>, level: nat, block: nat, n: nat): set<nat> {
    if n == 0 then {}
    else Below(tags, flat, borrowed, level, block, n - 1) + InSlot(tags, flat, borrowed, level, block * 512 + (n - 1))
  }

  /** A frame under the first slots is under one of them. */
  lemma {:induction false} BelowMeans(tags: Tags, flat: Flat, borrowed: Option<nat>, level: nat, block: nat, n: nat, f: nat)
    ensures f in Below(tags, flat, borrowed, level, block, n) <==>
            || (exists c :: c in tags && c == f && UnderSome(tags, c, level, block, n))
            || (exists v :: v in flat && flat[v].frame == f && PageUnderSome(flat, borrowed, v, level, block, n))
  {
    if n > 0 {
      BelowMeans(tags, flat, borrowed, level, block, n - 1, f);
    }
  }

  predicate UnderSome(tags: Tags, c: nat, level: nat, block: nat, n: nat)
    requires c in tags
  {
    tags[c].level < level && block * 512 <= Up(tags[c].block, level - tags[c].level - 1) < block * 512 + n
  }

  predicate PageUnderSome(flat: Flat, borrowed: Option<nat>, v: nat, level: nat, block: nat, n: nat)
    requires v in flat
  {
    Some(flat[v].frame) != borrowed && block * 512 <= Up(v, level) < block * 512 + n
  }

  // ---------------------------------------------------------------------------------------
  // Climbing
  // ---------------------------------------------------------------------------------------

  /** A tight tree has one table for a level and block. */
  lemma {:induction false} TagUnique(mem: Tables, root: nat, tags: Tags, hi: nat, c: nat, d: nat)
    requires Tight(mem, root, tags, hi) && c in tags && d in tags
    requires tags[c].level == tags[d].level && tags[c].block == tags[d].block
    ensures c == d
    decreases 3 - tags[c].level
  {
    hide Tight, Tree;
    ParentOf(mem, root, tags, hi, c);
    ParentOf(mem, root, tags, hi, d);
    if tags[c].level < 3 {
      TagUnique(mem, root, tags, hi, tags[c].parent, tags[d].parent);
    }
  }

  /** Above every table hangs one of each higher level, covering the block that holds its own. */
  lemma {:induction false} Climb(mem: Tables, root: nat, tags: Tags, hi: nat, c: nat, level: nat) returns (d: nat)
    requires Tight(mem, root, tags, hi) && c in tags && tags[c].level <= level <= 3
    ensures d in tags && tags[d].level == level && tags[d].block == Up(tags[c].block, level - tags[c].level)
    decreases level - tags[c].level
  {
    if tags[c].level == level {
      return c;
    }
    hide Tight, Tree;
    ParentOf(mem, root, tags, hi, c);
    UpOfParent(tags[c].block, level - tags[c].level - 1);
    d := Climb(mem, root, tags, hi, tags[c].parent, level);
  }

  /** A walk for an address a table covers passes through that table. */
  lemma {:induction false} Reach(mem: Tables, root: nat, tags: Tags, hi: nat, t: nat, a: nat)
    requires Tight(mem, root, tags, hi) && t in tags
    requires Block(a, tags[t].level + 1) == tags[t].block
    ensures PathTable(mem, root, a, tags[t].level) == Some(t) && (t == root || InReach(a, hi))
    decreases 3 - tags[t].level
  {
    hide Tight, Tree;
    ParentOf(mem, root, tags, hi, t);
    var l := tags[t].level;
    if l < 3 {
      BlockIndex(a, l + 1);
      Reach(mem, root, tags, hi, tags[t].parent, a);
    }
  }

  /** The pointer a table hangs by. */
  lemma ParentOf(mem: Tables, root: nat, tags: Tags, hi: nat, t: nat)
    requires Tight(mem, root, tags, hi) && t in tags
    ensures tags[t].level <= 3 && (tags[t].level == 3 ==> t == root)
    ensures root in tags && tags[root].block == 0
    ensures tags[t].level < 3 ==>
              var p, i := tags[t].parent, tags[t].block % 512;
              && p in tags && tags[p].level == tags[t].level + 1 && tags[p].block == tags[t].block / 512
              && (p == root ==> i < hi) && (p == root <==> tags[t].level == 2)
              && p in mem && |mem[p]| == ENTRIES
              && mem[p][i].present && !IsLeaf(tags[p].level, mem[p][i]) && mem[p][i].addr == t
  {
    assert NodeOk(mem, root, tags, t);
    if tags[t].level < 3 {
      assert Hangs(mem, root, tags, hi, t);
      assert NodeOk(mem, root, tags, tags[t].parent);
    }
  }

  // ---------------------------------------------------------------------------------------
  // What one slot holds
  // ---------------------------------------------------------------------------------------

  /** Slot `i` of table `t`, seen through a page mapped under it. */
  lemma PageThroughSlot(s: Snapshot, root: nat, tags: Tags, flat: Flat, borrowed: Option<nat>, t: nat, i: nat, v: nat)
    requires SpaceOk(s, root, tags, flat, borrowed) && t in tags && i < ENTRIES
    requires v in flat && Up(v, tags[t].level) == tags[t].block * 512 + i
    ensures t in s.View() && |s.View()[t]| == ENTRIES && s.View()[t][i].present
    ensures tags[t].level == 0 ==> s.View()[t][i].addr == flat[v].frame
  {
    hide Agrees, Tight, Tree;
    var mem, a, l := s.View(), v * PAGE_SIZE, tags[t].level;
    TightNode(mem, root, tags, KERNEL_PML4_FIRST, t);
    PageReach(v);
    BlockOfPage(v, l);
    BlockOfPage(v, l + 1);
    BlockIndex(a, l);
    Reach(mem, root, tags, KERNEL_PML4_FIRST, t, a);
    PathWalk(mem, root, tags, KERNEL_PML4_FIRST, a, l, a);
    assert Walk(mem, root, 3, a) == Some(PageLeaf(flat[v])) by { AgreesAt(mem, root, flat, a); }
  }

  lemma TightNode(mem: Tables, root: nat, tags: Tags, hi: nat, t: nat)
    requires Tight(mem, root, tags, hi) && t in tags
    ensures Tree(mem, root, tags, hi) && NodeOk(mem, root, tags, t) && NodeOk(mem, root, tags, root)
  {
  }

  lemma AgreesAt(mem: Tables, root: nat, flat: Flat, a: nat)
    requires Agrees(mem, root, flat) && InReach(a, KERNEL_PML4_FIRST)
    ensures Walk(mem, root, 3, a) == if Block(a, 0) in flat then Some(PageLeaf(flat[Block(a, 0)])) else None
  {
  }

  /** Nothing is under an absent slot. */
  lemma EmptySlot(s: Snapshot, root: nat, tags: Tags, flat: Flat, borrowed: Option<nat>, t: nat, i: nat)
    requires SpaceOk(s, root, tags, flat, borrowed) && Slot(root, tags, KERNEL_PML4_FIRST, t, i)
    requires t in s.View() && |s.View()[t]| == ENTRIES && !s.View()[t][i].present
    ensures InSlot(tags, flat, borrowed, tags[t].level, tags[t].block * 512 + i) == {}
  {
    hide Agrees, Tight;
    var mem, l, k := s.View(), tags[t].level, tags[t].block * 512 + i;
    TightNode(mem, root, tags, KERNEL_PML4_FIRST, t);
    forall c | c in tags
      ensures !TableUnder(tags, c, l, k)
    {
      if TableUnder(tags, c, l, k) {
        var d := Climb(mem, root, tags, KERNEL_PML4_FIRST, c, l - 1);
        PointedAt(mem, root, tags, t, i, d);
      }
    }
    forall v | v in flat
      ensures !PageUnder(flat, borrowed, v, l, k)
    {
      if PageUnder(flat, borrowed, v, l, k) {
        PageThroughSlot(s, root, tags, flat, borrowed, t, i, v);
      }
    }
  }

  /** The table for the block under slot `i` is the one slot `i` points at. */
  lemma PointedAt(mem: Tables, root: nat, tags: Tags, t: nat, i: nat, d: nat)
    requires Tight(mem, root, tags, KERNEL_PML4_FIRST) && Slot(root, tags, KERNEL_PML4_FIRST, t, i)
    requires d in tags && tags[d].level + 1 == tags[t].level && tags[d].block == tags[t].block * 512 + i
    ensures t in mem && |mem[t]| == ENTRIES && mem[t][i].present && !IsLeaf(tags[t].level, mem[t][i]) && mem[t][i].addr == d
  {
    hide Tight, Tree;
    ParentOf(mem, root, tags, KERNEL_PML4_FIRST, t);
    ParentOf(mem, root, tags, KERNEL_PML4_FIRST, d);
    TagUnique(mem, root, tags, KERNEL_PML4_FIRST, tags[d].parent, t);
  }

  /** Under a slot of the lowest level is the one page it maps, unless that page is borrowed. */
  lemma LeafSlot(s: Snapshot, root: nat, tags: Tags, flat: Flat, borrowed: Option<nat>, t: nat, i: nat)
    requires SpaceOk(s, root, tags, flat, borrowed) && Slot(root, tags, KERNEL_PML4_FIRST, t, i) && tags[t].level == 0
    requires t in s.View() && |s.View()[t]| == ENTRIES && s.View()[t][i].present
    ensures InSlot(tags, flat, borrowed, 0, tags[t].block * 512 + i) ==
            if Some(s.View()[t][i].addr) == borrowed then {} else {s.View()[t][i].addr}
    ensures s.View()[t][i].addr in s.bytes
  {
    hide Agrees, Tight;
    var mem, k := s.View(), tags[t].block * 512 + i;
    TightNode(mem, root, tags, KERNEL_PML4_FIRST, t);
    LeafIsMapped(s, root, tags, flat, borrowed, t, i);
    PageThroughSlot(s, root, tags, flat, borrowed, t, i, k);
    assert forall c :: c in tags ==> !TableUnder(tags, c, 0, k);
    assert forall v :: v in flat && PageUnder(flat, borrowed, v, 0, k) ==> v == k;
  }

  /** A present entry of the lowest level is a page of the flat map. */
  lemma LeafIsMapped(s: Snapshot, root: nat, tags: Tags, flat: Flat, borrowed: Option<nat>, t: nat, i: nat)
    requires SpaceOk(s, root, tags, flat, borrowed) && Slot(root, tags, KERNEL_PML4_FIRST, t, i) && tags[t].level == 0
    requires t in s.View() && |s.View()[t]| == ENTRIES && s.View()[t][i].present
    ensures tags[t].block * 512 + i in flat
  {
    hide Agrees, Tight, Tree;
    var mem, k := s.View(), tags[t].block * 512 + i;
    TightNode(mem, root, tags, KERNEL_PML4_FIRST, t);
    BlockBound(mem, root, tags, t);
    PageReach(k);
    var a := k * PAGE_SIZE;
    BlockOfPage(k, 1);
    BlockIndex(a, 0);
    Reach(mem, root, tags, KERNEL_PML4_FIRST, t, a);
    PathWalk(mem, root, tags, KERNEL_PML4_FIRST, a, 0, a);
    AgreesAt(mem, root, flat, a);
  }

  /** The blocks of a space's own tables lie in the lower half. */
  lemma {:induction false} BlockBound(mem: Tables, root: nat, tags: Tags, t: nat)
    requires Tight(mem, root, tags, KERNEL_PML4_FIRST) && t in tags
    ensures tags[t].level == 2 ==> tags[t].block < 256
    ensures tags[t].level == 1 ==> tags[t].block < 0x2_0000
    ensures tags[t].level == 0 ==> tags[t].block < 0x400_0000
    decreases 3 - tags[t].level
  {
    hide Tight, Tree;
    ParentOf(mem, root, tags, KERNEL_PML4_FIRST, t);
    if tags[t].level < 3 {
      BlockBound(mem, root, tags, tags[t].parent);
    }
  }

  /** Under a slot that points at a table are that table and everything under its 512 slots. */
  lemma PointerSlot(s: Snapshot, root: nat, tags: Tags, flat: Flat, borrowed: Option<nat>, t: nat, i: nat)
    requires SpaceOk(s, root, tags, flat, borrowed) && Slot(root, tags, KERNEL_PML4_FIRST, t, i) && 1 <= tags[t].level <= 3
    requires t in s.View() && |s.View()[t]| == ENTRIES
    requires s.View()[t][i].present && !s.View()[t][i].huge
    ensures var c, k := s.View()[t][i].addr, tags[t].block * 512 + i;
            && c in tags && tags[c].level == tags[t].level - 1 && tags[c].block == k
            && InSlot(tags, flat, borrowed, tags[t].level, k) == {c} + Below(tags, flat, borrowed, tags[t].level - 1, k, 512)
            && c !in Below(tags, flat, borrowed, tags[t].level - 1, k, 512)
  {
    hide Agrees, Tight, Tree, InSlot, Below, FlatOk;
    var mem, l, k := s.View(), tags[t].level, tags[t].block * 512 + i;
    TightNode(mem, root, tags, KERNEL_PML4_FIRST, t);
    ChildTag(mem, root, tags, t, i);
    var c := mem[t][i].addr;
    forall d | d in tags && tags[d].level == l - 1 && tags[d].block == k
      ensures d == c
    {
      TagUnique(mem, root, tags, KERNEL_PML4_FIRST, c, d);
    }
    NotData(s, root, tags, flat, borrowed, c);
    SlotIsChild(tags, flat, borrowed, l, k, c);
  }

  /** One slot of a table is the child it points at and the 512 slots of that child. */
  lemma SlotIsChild(tags: Tags, flat: Flat, borrowed: Option<nat>, level: nat, k: nat, c: nat)
    requires level >= 1 && c in tags && tags[c].level == level - 1 && tags[c].block == k
    requires forall d :: d in tags && tags[d].level == level - 1 && tags[d].block == k ==> d == c
    requires forall v :: v in flat ==> flat[v].frame != c
    ensures InSlot(tags, flat, borrowed, level, k) == {c} + Below(tags, flat, borrowed, level - 1, k, 512)
    ensures c !in Below(tags, flat, borrowed, level - 1, k, 512)
  {
    hide Below;
    forall d | d in tags
      ensures TableUnder(tags, d, level, k) <==> d == c || UnderSome(tags, d, level - 1, k, 512)
    {
    }
    assert forall v :: v in flat ==>
      (PageUnder(flat, borrowed, v, level, k) <==> PageUnderSome(flat, borrowed, v, level - 1, k, 512));
    forall f
      ensures f in InSlot(tags, flat, borrowed, level, k) <==> f in {c} + Below(tags, flat, borrowed, level - 1, k, 512)
    {
      BelowMeans(tags, flat, borrowed, level - 1, k, 512, f);
    }
    BelowMeans(tags, flat, borrowed, level - 1, k, 512, c);
  }

  lemma ChildTag(mem: Tables, root: nat, tags: Tags, t: nat, i: nat)
    requires Tree(mem, root, tags, KERNEL_PML4_FIRST) && Slot(root, tags, KERNEL_PML4_FIRST, t, i) && tags[t].level >= 1
    requires mem[t][i].present && !mem[t][i].huge
    ensures mem[t][i].addr in tags && tags[mem[t][i].addr] == Node(tags[t].level - 1, tags[t].block * 512 + i, t)
  {
    assert EntryOk(mem, tags, t, i, mem[t][i]);
  }

  /** A table frame is no data frame. */
  lemma NotData(s: Snapshot, root: nat, tags: Tags, flat: Flat, borrowed: Option<nat>, c: nat)
    requires SpaceOk(s, root, tags, flat, borrowed) && c in tags
    ensures c in s.words && c !in s.bytes && c !in Data(flat, borrowed)
    ensures forall v :: v in flat ==> flat[v].frame != c
  {
    TightNode(s.View(), root, tags, KERNEL_PML4_FIRST, c);
  }

  /** Different slots hold different frames. */
  lemma SlotsDisjoint(s: Snapshot, root: nat, tags: Tags, flat: Flat, borrowed: Option<nat>, level: nat, block: nat, n: nat)
    requires SpaceOk(s, root, tags, flat, borrowed)
    ensures Below(tags, flat, borrowed, level, block, n) !! InSlot(tags, flat, borrowed, level, block * 512 + n)
  {
    forall f | f in Below(tags, flat, borrowed, level, block, n)
      ensures f !in InSlot(tags, flat, borrowed, level, block * 512 + n)
    {
      BelowMeans(tags, flat, borrowed, level, block, n, f);
      if f in tags {
        NotData(s, root, tags, flat, borrowed, f);
      }
    }
  }

  /** The root and what is under its lower half are all a space owns. */
  lemma OwnedIsBelow(s: Snapshot, root: nat, tags: Tags, flat: Flat, borrowed: Option<nat>)
    requires SpaceOk(s, root, tags, flat, borrowed)
    ensures root in tags
    ensures Owned(tags, flat, borrowed) == {root} + Below(tags, flat, borrowed, 3, 0, KERNEL_PML4_FIRST)
    ensures root !in Below(tags, flat, borrowed, 3, 0, KERNEL_PML4_FIRST)
  {
    hide Agrees, Tight;
    var mem := s.View();
    var below := Below(tags, flat, borrowed, 3, 0, KERNEL_PML4_FIRST);
    TightNode(mem, root, tags, KERNEL_PML4_FIRST, root) by { RootTagged(s, root, tags, flat, borrowed); }
    forall c | c in tags
      ensures c == root || UnderSome(tags, c, 3, 0, KERNEL_PML4_FIRST)
      ensures c == root ==> !UnderSome(tags, c, 3, 0, KERNEL_PML4_FIRST)
    {
      TightNode(mem, root, tags, KERNEL_PML4_FIRST, c);
      if c != root {
        var d := Climb(mem, root, tags, KERNEL_PML4_FIRST, c, 2);
        BlockBound(mem, root, tags, d);
      }
    }
    forall v | v in flat
      ensures Up(v, 3) < KERNEL_PML4_FIRST
    {
      PageReach(v);
    }
    forall f
      ensures f in Owned(tags, flat, borrowed) <==> f in {root} + below
    {
      BelowMeans(tags, flat, borrowed, 3, 0, KERNEL_PML4_FIRST, f);
    }
    BelowMeans(tags, flat, borrowed, 3, 0, KERNEL_PML4_FIRST, root);
    NotData(s, root, tags, flat, borrowed, root);
  }

  lemma RootTagged(s: Snapshot, root: nat, tags: Tags, flat: Flat, borrowed: Option<nat>)
    requires SpaceOk(s, root, tags, flat, borrowed)
    ensures root in tags && tags[root] == Node(3, 0, root)
  {
  }

  /** A page whose block, `level` up, is `k`. */
  function Down(k: nat, level: nat): nat
    decreases level
  {
    if level == 0 then k else Down(k * 512, level - 1)
  }

  lemma {:induction false} UpDown(k: nat, level: nat)
    ensures Up(Down(k, level), level) == k
    decreases level
  {
    if level > 0 {
      UpDown(k * 512, level - 1);
    }
  }

  /** Spaces map 4 KiB pages only: above the lowest level, a present entry is a pointer. */
  lemma NoLargePages(s: Snapshot, root: nat, tags: Tags, flat: Flat, borrowed: Option<nat>, t: nat, i: nat)
    requires SpaceOk(s, root, tags, flat, borrowed) && Slot(root, tags, KERNEL_PML4_FIRST, t, i) && tags[t].level >= 1
    requires t in s.View() && |s.View()[t]| == ENTRIES && s.View()[t][i].present
    ensures !s.View()[t][i].huge
  {
    hide Agrees, Tight, Tree, FlatOk;
    var mem, l, k := s.View(), tags[t].level, tags[t].block * 512 + i;
    TightNode(mem, root, tags, KERNEL_PML4_FIRST, t);
    if mem[t][i].huge {
      LeafIsLow(mem, root, tags, t, i);
      BlockBound(mem, root, tags, t);
      var v := Down(k, l);
      UpDown(k, l);
      assert Down(k * 512, 0) == k * 512;
      assert l == 2 ==> v == k * 512 * 512;
      assert v < USER_PAGES;
      var a := v * PAGE_SIZE;
      BlockOfPage(v, l);
      BlockOfPage(v, l + 1);
      BlockIndex(a, l);
      Reach(mem, root, tags, KERNEL_PML4_FIRST, t, a);
      PageReach(v);
      PathWalk(mem, root, tags, KERNEL_PML4_FIRST, a, l, a);
      AgreesAt(mem, root, flat, a);
    }
  }

  lemma LeafIsLow(mem: Tables, root: nat, tags: Tags, t: nat, i: nat)
    requires Tree(mem, root, tags, KERNEL_PML4_FIRST) && Slot(root, tags, KERNEL_PML4_FIRST, t, i)
    requires mem[t][i].present && mem[t][i].huge
    ensures tags[t].level <= 2
  {
    assert EntryOk(mem, tags, t, i, mem[t][i]);
  }

  /** A table is not among the frames under its own slots. */
  lemma TableNotBelow(s: Snapshot, root: nat, tags: Tags, flat: Flat, borrowed: Option<nat>, t: nat, n: nat)
    requires SpaceOk(s, root, tags, flat, borrowed) && t in tags
    ensures t !in Below(tags, flat, borrowed, tags[t].level, tags[t].block, n)
  {
    BelowMeans(tags, flat, borrowed, tags[t].level, tags[t].block, n, t);
    NotData(s, root, tags, flat, borrowed, t);
  }

  lemma {:induction false} BelowGrows(tags: Tags, flat: Flat, borrowed: Option<nat>, level: nat, block: nat, n: nat, m: nat)
    requires n <= m
    ensures Below(tags, flat, borrowed, level, block, n) <= Below(tags, flat, borrowed, level, block, m)
    decreases m - n
  {
    if n < m {
      BelowGrows(tags, flat, borrowed, level, block, n, m - 1);
    }
  }

  // ---------------------------------------------------------------------------------------
  // Change and frame
  // ---------------------------------------------------------------------------------------

  /** Whatever an operation on the space with tables `tags` did: it wrote no table of anyone
      else, no data page that existed, and no root slot of the kernel half; and what it took, it
      took from the pool. */
  ghost predicate Isolated(s: Snapshot, tags: Tags, s': Snapshot, tags': Tags, root: nat) {
    && tags.Keys <= tags'.Keys && tags'.Keys - tags.Keys <= s.free
    && s'.free <= s.free && s.held <= s'.held
    && (forall f :: f in s.words && f !in tags ==> f in s'.words && s'.words[f] == s.words[f])
    && (forall f :: f in s.bytes ==> f in s'.bytes && s'.bytes[f] == s.bytes[f])
    && UpperKept(s, s', root, KERNEL_PML4_FIRST)
  }

  /** Frames may have left the pool, but none came back and none in use was touched. */
  ghost predicate Spared(s: Snapshot, s': Snapshot) {
    && s'.free <= s.free && s.held <= s'.held
    && (forall f :: f in s.words ==> f in s'.words && s'.words[f] == s.words[f])
    && (forall f :: f in s.bytes ==> f in s'.bytes && s'.bytes[f] == s.bytes[f])
  }

  lemma IsolatedTwice(s: Snapshot, tags: Tags, s': Snapshot, tags': Tags, s'': Snapshot, tags'': Tags, root: nat)
    requires Isolated(s, tags, s', tags', root) && Isolated(s', tags', s'', tags'', root) && s.Valid()
    ensures Isolated(s, tags, s'', tags'', root)
  {
    forall f | f in s.words && f !in tags
      ensures f in s''.words && s''.words[f] == s.words[f]
    {
      assert f !in tags' by { assert f in s.held; }
    }
  }

  lemma GrewIsIsolated(s: Snapshot, tags: Tags, s': Snapshot, tags': Tags, root: nat)
    requires Grew(s, tags, s', tags', root, KERNEL_PML4_FIRST)
    ensures Isolated(s, tags, s', tags', root)
  {
  }

  /** The pool's side of an operation: everything the space ever took grew by exactly what the pool
      lost. */
  ghost predicate Took(s: Snapshot, taken: set<nat>, s': Snapshot, taken': set<nat>) {
    && taken <= taken' && taken' - taken <= s.free
    && s'.free == s.free - (taken' - taken) && s'.held == s.held + (taken' - taken)
  }

  lemma TookTwice(s: Snapshot, o: set<nat>, s': Snapshot, o': set<nat>, s'': Snapshot, o'': set<nat>)
    requires Took(s, o, s', o') && Took(s', o', s'', o'')
    ensures Took(s, o, s'', o'')
  {
    assert o'' - o == (o' - o) + (o'' - o');
  }

  /** A space took at least what it owns, and nothing of it went back. */
  ghost predicate Accounts(s: Snapshot, tags: Tags, flat: Flat, borrowed: Option<nat>, taken: set<nat>) {
    Owned(tags, flat, borrowed) <= taken <= s.held
  }

  /** The frame a mapping of page `v` takes the place of, if the space took it. */
  ghost function Displaced(flat: Flat, borrowed: Option<nat>, v: nat): set<nat> {
    if v in flat && Some(flat[v].frame) != borrowed then {flat[v].frame} else {}
  }

  // ---------------------------------------------------------------------------------------
  // Building
  // ---------------------------------------------------------------------------------------

  /** A root with nothing in its lower half is a space that maps nothing. */
  lemma EmptySpace(s: Snapshot, root: nat)
    requires s.Valid() && root in s.words
    requires forall i :: 0 <= i < KERNEL_PML4_FIRST ==> s.words[root][i] == 0
    ensures SpaceOk(s, root, map[root := Node(3, 0, root)], map[], None)
  {
    var mem, tags := s.View(), map[root := Node(3, 0, root)];
    DecodeZero();
    forall t | t in tags
      ensures NodeOk(mem, root, tags, t)
    {
    }
    forall a: nat | InReach(a, KERNEL_PML4_FIRST)
      ensures Walk(mem, root, 3, a) == None
    {
      assert mem[root][Index(a, 3)] == ABSENT;
    }
  }

  /** Installing the leaf of a new page makes the tables agree with the flat map that has it. */
  lemma AgreesAfterInstall(mem: Tables, mem': Tables, root: nat, flat: Flat, virt: nat, p: Page)
    requires Agrees(mem, root, flat) && virt % PAGE_SIZE == 0 && virt < USER_LIMIT
    requires LeafInstalled(mem, mem', root, KERNEL_PML4_FIRST, virt, 0, LeafPte(p.frame, p.rights, Normal, false))
    ensures Agrees(mem', root, flat[virt / PAGE_SIZE := p])
  {
    PageNumber(virt);
    forall a: nat | InReach(a, KERNEL_PML4_FIRST)
      ensures Walk(mem', root, 3, a) ==
              if Block(a, 0) in flat[virt / PAGE_SIZE := p] then Some(PageLeaf(flat[virt / PAGE_SIZE := p][Block(a, 0)])) else None
    {
      AgreesAt(mem, root, flat, a);
    }
  }

  lemma PageNumber(virt: nat)
    requires virt % PAGE_SIZE == 0 && virt < USER_LIMIT
    ensures Block(virt, 0) == virt / PAGE_SIZE && virt / PAGE_SIZE < USER_PAGES && virt / PAGE_SIZE * PAGE_SIZE == virt
    ensures InReach(virt, KERNEL_PML4_FIRST) && virt % VIRT_SPAN + PAGE_SIZE <= KERNEL_PML4_FIRST * Span(3)
  {
    ReachIsPrefix(virt, KERNEL_PML4_FIRST);
  }

  /** The frame of a page, unless it is the borrowed one. */
  ghost function Own(p: Page, borrowed: Option<nat>): set<nat> {
    if Some(p.frame) == borrowed then {} else {p.frame}
  }

  /** The flat map with page `v` mapped to a frame nothing else here maps. */
  lemma FlatAfterMap(s: Snapshot, flat: Flat, borrowed: Option<nat>, v: nat, p: Page)
    requires FlatOk(s, flat, borrowed) && v < USER_PAGES && p.frame in s.bytes && p.rights.user
    requires Some(p.frame) == borrowed ==> v == CLOCK_PAGE && !p.rights.write
    requires forall w :: w in flat ==> flat[w].frame != p.frame
    ensures FlatOk(s, flat[v := p], borrowed)
    ensures Data(flat[v := p], borrowed) ==
            Data(flat, borrowed) - Displaced(flat, borrowed, v) + Own(p, borrowed)
  {
    var flat' := flat[v := p];
    forall f | f in Data(flat, borrowed) - Displaced(flat, borrowed, v)
      ensures f in Data(flat', borrowed)
    {
      var w :| w in flat && Some(flat[w].frame) != borrowed && flat[w].frame == f;
      assert flat'[w] == flat[w];
    }
    if Some(p.frame) != borrowed {
      assert flat'[v].frame in Data(flat', borrowed);
    }
  }

  /** The books after page `v` was mapped and tables were added from the pool: what the space lost
      sight of is the frame displaced, and nothing else. */
  lemma Booked(s: Snapshot, s': Snapshot, tags: Tags, tags': Tags, flat: Flat, borrowed: Option<nat>, taken: set<nat>,
               root: nat, v: nat, p: Page)
    requires s.Valid() && FlatOk(s, flat, borrowed) && Accounts(s, tags, flat, borrowed, taken)
    requires tags.Keys <= s.words.Keys && Grew(s, tags, s', tags', root, KERNEL_PML4_FIRST)
    requires v < USER_PAGES && p.frame in s.bytes && p.rights.user && (p.frame in taken || Some(p.frame) == borrowed)
    requires Some(p.frame) == borrowed ==> v == CLOCK_PAGE && !p.rights.write
    requires forall w :: w in flat ==> flat[w].frame != p.frame
    ensures var taken' := taken + tags'.Keys;
            && Took(s, taken, s', taken') && Accounts(s', tags', flat[v := p], borrowed, taken')
            && taken' - Owned(tags', flat[v := p], borrowed) ==
               taken - Owned(tags, flat, borrowed) - Own(p, borrowed) + Displaced(flat, borrowed, v)
  {
    hide Data, FlatOk;
    FlatAfterMap(s, flat, borrowed, v, p);
    TablesBooked(s, s', tags, tags', flat, borrowed, taken, root);
    DisplacedIsData(s, flat, borrowed, v);
    assert Displaced(flat, borrowed, v) !! tags'.Keys;
  }

  lemma DisplacedIsData(s: Snapshot, flat: Flat, borrowed: Option<nat>, v: nat)
    requires FlatOk(s, flat, borrowed)
    ensures Displaced(flat, borrowed, v) <= Data(flat, borrowed) && Displaced(flat, borrowed, v) <= s.bytes.Keys
  {
  }

  /** The books after the clock page was mapped to a frame that is to be the borrowed one: only a frame
      of the space's own that was there before is lost. */
  lemma ClockBooked(s: Snapshot, s': Snapshot, tags: Tags, tags': Tags, flat: Flat, borrowed: Option<nat>, taken: set<nat>,
                    root: nat, p: Page)
    requires s.Valid() && FlatOk(s, flat, borrowed) && Accounts(s, tags, flat, borrowed, taken)
    requires tags.Keys <= s.words.Keys && Grew(s, tags, s', tags', root, KERNEL_PML4_FIRST)
    requires p.frame in s.bytes && p.frame !in taken && p.rights.user && !p.rights.write
    ensures FlatOk(s', flat[CLOCK_PAGE := p], Some(p.frame))
    ensures var taken' := taken + tags'.Keys;
            && Took(s, taken, s', taken') && Accounts(s', tags', flat[CLOCK_PAGE := p], Some(p.frame), taken')
            && taken' - Owned(tags', flat[CLOCK_PAGE := p], Some(p.frame)) ==
               taken - Owned(tags, flat, borrowed) + Displaced(flat, borrowed, CLOCK_PAGE)
  {
    ClockFlat(s, tags, flat, borrowed, taken, p);
    ClockData(flat, borrowed, p);
    TablesBooked(s, s', tags, tags', flat, borrowed, taken, root);
    DisplacedIsData(s, flat, borrowed, CLOCK_PAGE);
    assert Displaced(flat, borrowed, CLOCK_PAGE) !! tags'.Keys;
  }

  lemma ClockFlat(s: Snapshot, tags: Tags, flat: Flat, borrowed: Option<nat>, taken: set<nat>, p: Page)
    requires FlatOk(s, flat, borrowed) && Accounts(s, tags, flat, borrowed, taken)
    requires p.frame in s.bytes && p.frame !in taken && p.rights.user && !p.rights.write
    ensures FlatOk(s, flat[CLOCK_PAGE := p], Some(p.frame))
    ensures forall v :: v in flat && v != CLOCK_PAGE ==> flat[v].frame != p.frame && Some(flat[v].frame) != borrowed
    ensures forall v :: v in flat && flat[v].frame == p.frame ==> borrowed == Some(p.frame)
    ensures forall v, w :: v in flat && w in flat && v != w ==> flat[v].frame != flat[w].frame
  {
    forall v | v in flat
      ensures flat[v].frame == p.frame ==> borrowed == Some(p.frame)
    {
      assert Some(flat[v].frame) != borrowed ==> flat[v].frame in Data(flat, borrowed);
    }
  }

  lemma ClockData(flat: Flat, borrowed: Option<nat>, p: Page)
    requires forall v :: v in flat && v != CLOCK_PAGE ==> flat[v].frame != p.frame && Some(flat[v].frame) != borrowed
    requires forall v, w :: v in flat && w in flat && v != w ==> flat[v].frame != flat[w].frame
    ensures Data(flat[CLOCK_PAGE := p], Some(p.frame)) == Data(flat, borrowed) - Displaced(flat, borrowed, CLOCK_PAGE)
  {
    var flat' := flat[CLOCK_PAGE := p];
    forall f
      ensures f in Data(flat', Some(p.frame)) <==> f in Data(flat, borrowed) - Displaced(flat, borrowed, CLOCK_PAGE)
    {
      if f in Data(flat', Some(p.frame)) {
        var w :| w in flat' && Some(flat'[w].frame) != Some(p.frame) && flat'[w].frame == f;
        assert w in flat && w != CLOCK_PAGE;
      }
      if f in Data(flat, borrowed) - Displaced(flat, borrowed, CLOCK_PAGE) {
        var w :| w in flat && Some(flat[w].frame) != borrowed && flat[w].frame == f;
        assert w in flat' && flat'[w] == flat[w];
      }
    }
  }

  /** Where the clock page is not mapped, no page is on a borrowed frame, so borrowing another one
      changes nothing. */
  lemma NoClockYet(s: Snapshot, tags: Tags, flat: Flat, borrowed: Option<nat>, taken: set<nat>, frame: nat)
    requires FlatOk(s, flat, borrowed) && Accounts(s, tags, flat, borrowed, taken) && CLOCK_PAGE !in flat
    requires frame in s.bytes && frame !in taken
    ensures FlatOk(s, flat, Some(frame)) && Data(flat, Some(frame)) == Data(flat, borrowed)
  {
    forall v | v in flat
      ensures Some(flat[v].frame) != borrowed && flat[v].frame != frame
    {
      assert Some(flat[v].frame) != borrowed ==> flat[v].frame in Data(flat, borrowed);
    }
  }

  /** When nothing got mapped, tables may still have been added. */
  lemma TablesBooked(s: Snapshot, s': Snapshot, tags: Tags, tags': Tags, flat: Flat, borrowed: Option<nat>, taken: set<nat>,
                     root: nat)
    requires s.Valid() && Accounts(s, tags, flat, borrowed, taken) && Grew(s, tags, s', tags', root, KERNEL_PML4_FIRST)
    ensures var taken' := taken + tags'.Keys;
            && Took(s, taken, s', taken') && Accounts(s', tags', flat, borrowed, taken')
            && taken' - Owned(tags', flat, borrowed) == taken - Owned(tags, flat, borrowed)
  {
    var taken' := taken + tags'.Keys;
    assert taken' - taken == tags'.Keys - tags.Keys;
  }
}
