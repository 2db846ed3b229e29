/** Which page size a mapping gets where: the largest whose aligned block lies in the request. */
module PageSizes {
  import opened Basics
  import opened Entries
  import opened PageTree
  import opened TreeUpdates
  import opened MapTheory

  /** The aligned block of `page` bytes around the byte at offset `o` lies inside a request of `size`
      bytes at `v`, and `phys` is as far into such a block as `v` is. */
  predicate BlockFits(v: nat, phys: nat, size: nat, o: nat, page: nat)
    requires page > 0
  {
    v % page == phys % page && v <= v + o - (v + o) % page && v + o - (v + o) % page + page <= v + size
  }

  /** 1 GiB where the processor has it and a block fits, 2 MiB where one fits, 4 KiB elsewhere. */
  function PageSizeAt(gib: bool, v: nat, phys: nat, size: nat, o: nat): nat {
    if gib && BlockFits(v, phys, size, o, 0x4000_0000) then 0x4000_0000
    else if BlockFits(v, phys, size, o, 0x20_0000) then 0x20_0000
    else 0x1000
  }

  /** The first `done` bytes of the request resolve, each in a page of the size its place gives it. */
  ghost predicate Sized(mem: Tables, root: nat, hi: nat, gib: bool, v: nat, phys: nat, size: nat, done: nat) {
    forall a: nat :: v <= a < v + done && a < VIRT_SPAN && InReach(a, hi) ==>
      var t := Translate(mem, root, a);
      t.Some? && t.value.pageSize == PageSizeAt(gib, v, phys, size, a - v)
  }

  /** `done` is not in the middle of a block that fits. */
  predicate AtEdge(gib: bool, v: nat, phys: nat, size: nat, done: nat) {
    && (gib && BlockFits(v, phys, size, done, 0x4000_0000) ==> (v + done) % 0x4000_0000 == 0)
    && (BlockFits(v, phys, size, done, 0x20_0000) ==> (v + done) % 0x20_0000 == 0)
  }

  /** The size the mapper takes at an edge. */
  predicate Takes(gib: bool, v: nat, phys: nat, size: nat, done: nat, page: nat)
    requires done < size
  {
    var huge := gib && (v + done) % 0x4000_0000 == 0 && (phys + done) % 0x4000_0000 == 0 && size - done >= 0x4000_0000;
    var large := (v + done) % 0x20_0000 == 0 && (phys + done) % 0x20_0000 == 0 && size - done >= 0x20_0000;
    page == if huge then 0x4000_0000 else if large then 0x20_0000 else 0x1000
  }

  /** At an edge the page taken is the one its place gives, and the next edge is behind it. */
  lemma EdgeToEdge(gib: bool, v: nat, phys: nat, size: nat, done: nat, page: nat)
    requires done < size && (v + done) % 0x1000 == 0
    requires AtEdge(gib, v, phys, size, done) && Takes(gib, v, phys, size, done, page)
    ensures AtEdge(gib, v, phys, size, done + page)
    ensures forall o :: done <= o < done + page ==> PageSizeAt(gib, v, phys, size, o) == page
  {
    hide BlockFits;
    if gib {
      HugeAtEdge(v, phys, size, done);
    }
    LargeAtEdge(v, phys, size, done);
    NextEdge(v, phys, size, done, page);
    forall o | done <= o < done + page
      ensures PageSizeAt(gib, v, phys, size, o) == page
    {
      WithinPage(v, phys, size, done, page, o);
    }
  }

  lemma HugeAtEdge(v: nat, phys: nat, size: nat, done: nat)
    requires done < size && (BlockFits(v, phys, size, done, 0x4000_0000) ==> (v + done) % 0x4000_0000 == 0)
    ensures BlockFits(v, phys, size, done, 0x4000_0000) <==>
            (v + done) % 0x4000_0000 == 0 && (phys + done) % 0x4000_0000 == 0 && size - done >= 0x4000_0000
  {
  }

  lemma LargeAtEdge(v: nat, phys: nat, size: nat, done: nat)
    requires done < size && (BlockFits(v, phys, size, done, 0x20_0000) ==> (v + done) % 0x20_0000 == 0)
    ensures BlockFits(v, phys, size, done, 0x20_0000) <==>
            (v + done) % 0x20_0000 == 0 && (phys + done) % 0x20_0000 == 0 && size - done >= 0x20_0000
  {
  }

  /** All of a page lies in one block of each size that is no smaller. */
  lemma WithinPage(v: nat, phys: nat, size: nat, done: nat, page: nat, o: nat)
    requires page in {0x1000, 0x20_0000, 0x4000_0000} && (v + done) % page == 0 && done <= o < done + page
    ensures BlockFits(v, phys, size, o, 0x4000_0000) <==> BlockFits(v, phys, size, done, 0x4000_0000)
    ensures page <= 0x20_0000 ==>
              (BlockFits(v, phys, size, o, 0x20_0000) <==> BlockFits(v, phys, size, done, 0x20_0000))
  {
    if page == 0x1000 {
      SmallInLarge(v + done, v + o);
      SmallInHuge(v + done, v + o);
    } else if page == 0x20_0000 {
      LargeInLarge(v + done, v + o);
      LargeInHuge(v + done, v + o);
    } else {
      HugeInHuge(v + done, v + o);
    }
  }

  /** Behind a page a new block begins, or the block it lies in goes on. */
  lemma NextEdge(v: nat, phys: nat, size: nat, done: nat, page: nat)
    requires page in {0x1000, 0x20_0000, 0x4000_0000} && (v + done) % page == 0
    ensures BlockFits(v, phys, size, done + page, 0x4000_0000) ==>
              (v + done + page) % 0x4000_0000 == 0 || BlockFits(v, phys, size, done, 0x4000_0000)
    ensures BlockFits(v, phys, size, done + page, 0x20_0000) ==>
              (v + done + page) % 0x20_0000 == 0 || BlockFits(v, phys, size, done, 0x20_0000)
    ensures page == 0x4000_0000 ==> (v + done + page) % 0x4000_0000 == 0
    ensures page >= 0x20_0000 ==> (v + done + page) % 0x20_0000 == 0
  {
    if page == 0x1000 {
      BehindSmall(v + done);
    } else if page == 0x20_0000 {
      BehindLarge(v + done);
    } else {
      HugeIsLarge(v + done);
    }
  }

  lemma SmallInLarge(x: nat, y: nat)
    requires x % 0x1000 == 0 && x <= y < x + 0x1000
    ensures y - y % 0x20_0000 == x - x % 0x20_0000
  {
  }

  lemma SmallInHuge(x: nat, y: nat)
    requires x % 0x1000 == 0 && x <= y < x + 0x1000
    ensures y - y % 0x4000_0000 == x - x % 0x4000_0000
  {
  }

  lemma LargeInLarge(x: nat, y: nat)
    requires x % 0x20_0000 == 0 && x <= y < x + 0x20_0000
    ensures y - y % 0x20_0000 == x - x % 0x20_0000
  {
  }

  lemma LargeInHuge(x: nat, y: nat)
    requires x % 0x20_0000 == 0 && x <= y < x + 0x20_0000
    ensures y - y % 0x4000_0000 == x - x % 0x4000_0000
  {
  }

  lemma HugeInHuge(x: nat, y: nat)
    requires x % 0x4000_0000 == 0 && x <= y < x + 0x4000_0000
    ensures y - y % 0x4000_0000 == x - x % 0x4000_0000
  {
  }

  lemma BehindSmall(x: nat)
    requires x % 0x1000 == 0
    ensures (x + 0x1000) % 0x20_0000 != 0 ==> x + 0x1000 - (x + 0x1000) % 0x20_0000 == x - x % 0x20_0000
    ensures (x + 0x1000) % 0x4000_0000 != 0 ==> x + 0x1000 - (x + 0x1000) % 0x4000_0000 == x - x % 0x4000_0000
  {
    SmallInLarge(x, x + 0xFFF);
    SmallInHuge(x, x + 0xFFF);
    OneMoreLarge(x + 0xFFF);
    OneMoreHuge(x + 0xFFF);
  }

  lemma OneMoreLarge(y: nat)
    ensures (y + 1) % 0x20_0000 != 0 ==> y + 1 - (y + 1) % 0x20_0000 == y - y % 0x20_0000
  {
  }

  lemma OneMoreHuge(y: nat)
    ensures (y + 1) % 0x4000_0000 != 0 ==> y + 1 - (y + 1) % 0x4000_0000 == y - y % 0x4000_0000
  {
  }

  lemma BehindLarge(x: nat)
    requires x % 0x20_0000 == 0
    ensures (x + 0x20_0000) % 0x20_0000 == 0
    ensures (x + 0x20_0000) % 0x4000_0000 != 0 ==> x + 0x20_0000 - (x + 0x20_0000) % 0x4000_0000 == x - x % 0x4000_0000
  {
    LargeInHuge(x, x + 0x1F_FFFF);
    OneMoreHuge(x + 0x1F_FFFF);
  }

  lemma HugeIsLarge(x: nat)
    requires x % 0x4000_0000 == 0
    ensures (x + 0x4000_0000) % 0x4000_0000 == 0 && (x + 0x4000_0000) % 0x20_0000 == 0
  {
    var q := x / 0x4000_0000;
    assert x + 0x4000_0000 == 0x20_0000 * (512 * q + 512);
  }

  lemma NothingSized(mem: Tables, root: nat, hi: nat, gib: bool, v: nat, phys: nat, size: nat)
    ensures Sized(mem, root, hi, gib, v, phys, size, 0) && AtEdge(gib, v, phys, size, 0)
  {
  }

  /** What is sized stays sized while no walk moves. */
  lemma SizedUnchanged(mem: Tables, tags: Tags, mem': Tables, tags': Tags, root: nat, hi: nat,
                       gib: bool, v: nat, phys: nat, size: nat, done: nat)
    requires Tree(mem, root, tags, hi) && Tree(mem', root, tags', hi) && SameWalks(mem, mem', root, hi)
    requires Sized(mem, root, hi, gib, v, phys, size, done)
    ensures Sized(mem', root, hi, gib, v, phys, size, done)
  {
    hide Tree, Translate, Walk, PageSizeAt;
    forall a: nat | v <= a < v + done && a < VIRT_SPAN && InReach(a, hi)
      ensures Translate(mem', root, a) == Translate(mem, root, a)
    {
      assert Walk(mem', root, 3, a) == Walk(mem, root, 3, a);
      SameWalkSameTranslation(mem, tags, mem', tags', root, hi, a);
    }
  }

  /** The next page is of the size its place gives it, and those before it are left alone. */
  lemma SizedExtends(mem: Tables, tags: Tags, mem': Tables, tags': Tags, root: nat, hi: nat,
                     gib: bool, v: nat, phys: nat, size: nat, done: nat, level: nat, rights: Rights,
                     memoryType: MemoryType, virt: nat)
    requires Tree(mem, root, tags, hi) && Tree(mem', root, tags', hi)
    requires Sized(mem, root, hi, gib, v, phys, size, done)
    requires level <= 2 && v + done + Span(level) <= VIRT_SPAN && virt % VIRT_SPAN == v + done
    requires (v + done) % Span(level) == 0 && (phys + done) % Span(level) == 0
    requires LeafInstalled(mem, mem', root, hi, virt, level, LeafPte(phys + done, rights, memoryType, level > 0))
    requires forall o :: done <= o < done + Span(level) ==> PageSizeAt(gib, v, phys, size, o) == LevelSize(level)
    ensures Sized(mem', root, hi, gib, v, phys, size, done + Span(level))
  {
    hide Tree, Walk, Translate, LeafPte, PageSizeAt, Span, LeafInstalled;
    forall a: nat | v <= a < v + (done + Span(level)) && a < VIRT_SPAN && InReach(a, hi)
      ensures var t := Translate(mem', root, a); t.Some? && t.value.pageSize == PageSizeAt(gib, v, phys, size, a - v)
    {
      if v + done <= a {
        InsideNewLeaf(mem, mem', tags', root, hi, v + done, phys + done, level, rights, memoryType, virt, a);
        assert done <= a - v < done + Span(level);
      } else {
        OutsideNewLeaf(mem, tags, mem', tags', root, hi, v + done, level,
                       LeafPte(phys + done, rights, memoryType, level > 0), virt, a);
      }
    }
  }
}
