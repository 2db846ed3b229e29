/** The three writes the mapper makes - a leaf, a pointer to a new empty table, a widened
    pointer - and the one `unmap` makes: each keeps the tree a tree, and each changes exactly
    the translations it should. */
module TreeUpdates {
  import opened Basics
  import opened Entries
  import opened PageTree

  /** A slot of the tree that may be written: in a tagged table, and among the first `hi` of
      the root. */
  ghost predicate Slot(root: nat, tags: Tags, hi: nat, t: nat, i: nat) {
    t in tags && i < ENTRIES && (t == root ==> i < hi)
  }

  /** The pointer by which `t` hangs is open to ring 3, so `t` may hold user entries. */
  ghost predicate Open(mem: Tables, root: nat, tags: Tags, t: nat)
    requires t in tags
  {
    t == root ||
    (var p := tags[t].parent; p in mem && |mem[p]| == ENTRIES && mem[p][tags[t].block % 512].user)
  }

  /** The one pointer an entry can be found behind: a table's tag names its only parent slot. */
  lemma PointerIsTag(mem: Tables, root: nat, tags: Tags, hi: nat, p: nat, k: nat)
    requires Tree(mem, root, tags, hi) && Slot(root, tags, hi, p, k)
    requires mem[p][k].present && !IsLeaf(tags[p].level, mem[p][k])
    ensures var c := mem[p][k].addr;
            c in tags && c != root && tags[c].parent == p && tags[c].block % 512 == k
  {
    assert EntryOk(mem, tags, p, k, mem[p][k]);
  }

  /** Every pointer to `t` stays good when an entry of `t` is replaced by `e`, provided `t`
      was open to ring 3, the old entry was, or `e` is not. */
  lemma OthersStayOk(mem: Tables, root: nat, tags: Tags, hi: nat, t: nat, i: nat, e: Pte, p: nat, k: nat)
    requires Tree(mem, root, tags, hi) && Slot(root, tags, hi, t, i) && Slot(root, tags, hi, p, k)
    requires e.present && e.user ==> Open(mem, root, tags, t) || (mem[t][i].present && mem[t][i].user)
    requires mem[p][k].present && (p, k) != (t, i)
    ensures EntryOk(Write(mem, t, i, e), tags, p, k, mem[p][k])
  {
    assert EntryOk(mem, tags, p, k, mem[p][k]);
    if !IsLeaf(tags[p].level, mem[p][k]) {
      PointerIsTag(mem, root, tags, hi, p, k);
      var c := mem[p][k].addr;
      if c == t && !mem[p][k].user {
        assert NoUser(mem, c);
        assert !(e.present && e.user);
        assert NoUser(Write(mem, t, i, e), c);
      }
    }
  }

  /** Writing a leaf, or clearing a slot, leaves a tree. */
  lemma TreeAfterLeaf(mem: Tables, root: nat, tags: Tags, hi: nat, t: nat, i: nat, e: Pte)
    requires Tree(mem, root, tags, hi) && Slot(root, tags, hi, t, i)
    requires e.present ==> IsLeaf(tags[t].level, e) && tags[t].level <= 2 && e.addr % Span(tags[t].level) == 0
    requires e.present && e.user ==> Open(mem, root, tags, t)
    ensures Tree(Write(mem, t, i, e), root, tags, hi)
  {
    var mem' := Write(mem, t, i, e);
    forall p | p in tags
      ensures NodeOk(mem', root, tags, p)
    {
      assert NodeOk(mem, root, tags, p);
    }
    forall p, k | p in tags && 0 <= k < ENTRIES && (p == root ==> k < hi) && mem'[p][k].present
      ensures EntryOk(mem', tags, p, k, mem'[p][k])
    {
      if (p, k) != (t, i) {
        OthersStayOk(mem, root, tags, hi, t, i, e, p, k);
      }
    }
  }

  /** Nothing is lost when the slot written did not point at a table. */
  lemma TightAfterLeaf(mem: Tables, root: nat, tags: Tags, hi: nat, t: nat, i: nat, e: Pte)
    requires Tight(mem, root, tags, hi) && Slot(root, tags, hi, t, i)
    requires mem[t][i].present ==> IsLeaf(tags[t].level, mem[t][i])
    requires Tree(Write(mem, t, i, e), root, tags, hi)
    ensures Tight(Write(mem, t, i, e), root, tags, hi)
  {
    var mem' := Write(mem, t, i, e);
    forall c | c in tags && c != root
      ensures Hangs(mem', root, tags, hi, c)
    {
      assert Hangs(mem, root, tags, hi, c);
    }
  }

  /** Widening a pointer leaves a tree. */
  lemma TreeAfterWiden(mem: Tables, root: nat, tags: Tags, hi: nat, t: nat, i: nat, needed: Rights)
    requires Tree(mem, root, tags, hi) && Slot(root, tags, hi, t, i)
    requires mem[t][i].present && !IsLeaf(tags[t].level, mem[t][i])
    requires needed.user ==> Open(mem, root, tags, t)
    ensures Tree(Write(mem, t, i, WidenPte(mem[t][i], needed)), root, tags, hi)
    ensures Tight(mem, root, tags, hi) ==> Tight(Write(mem, t, i, WidenPte(mem[t][i], needed)), root, tags, hi)
  {
    var e := WidenPte(mem[t][i], needed);
    var mem' := Write(mem, t, i, e);
    assert EntryOk(mem, tags, t, i, mem[t][i]);
    forall p | p in tags
      ensures NodeOk(mem', root, tags, p)
    {
      assert NodeOk(mem, root, tags, p);
    }
    PointerIsTag(mem, root, tags, hi, t, i);
    assert e.addr != t by { assert tags[e.addr].level < tags[t].level; }
    forall p, k | p in tags && 0 <= k < ENTRIES && (p == root ==> k < hi) && mem'[p][k].present
      ensures EntryOk(mem', tags, p, k, mem'[p][k])
    {
      if (p, k) != (t, i) {
        OthersStayOk(mem, root, tags, hi, t, i, e, p, k);
      }
    }
    if Tight(mem, root, tags, hi) {
      forall c | c in tags && c != root
        ensures Hangs(mem', root, tags, hi, c)
      {
        assert Hangs(mem, root, tags, hi, c);
      }
    }
  }

  /** Widening a pointer moves no walk: the processor follows the same tables to the same leaf. */
  lemma {:induction false} WalkAfterWiden(mem: Tables, root: nat, tags: Tags, hi: nat, t: nat, i: nat,
                                          needed: Rights, u: nat, level: nat, virt: nat)
    requires Tree(mem, root, tags, hi) && Slot(root, tags, hi, t, i) && level <= 3
    requires mem[t][i].present && !IsLeaf(tags[t].level, mem[t][i])
    requires u in tags && tags[u].level == level && (u == root ==> InReach(virt, hi))
    ensures Walk(Write(mem, t, i, WidenPte(mem[t][i], needed)), u, level, virt) == Walk(mem, u, level, virt)
    decreases level
  {
    var k := Index(virt, level);
    var x := mem[u][k];
    if x.present && !IsLeaf(level, x) {
      assert EntryOk(mem, tags, u, k, x);
      WalkAfterWiden(mem, root, tags, hi, t, i, needed, x.addr, level - 1, virt);
    }
  }

  /** The tree with a new empty table hung at an absent slot. */
  function Hang(mem: Tables, t: nat, i: nat, child: nat, needed: Rights): Tables
    requires t in mem && i < |mem[t]| && child != t
  {
    Write(mem[child := Zeros()], t, i, TablePte(child, needed))
  }

  function Zeros(): (s: seq<Pte>)
    ensures |s| == ENTRIES && forall i :: 0 <= i < ENTRIES ==> s[i] == ABSENT
  {
    seq(ENTRIES, _ => ABSENT)
  }

  function HangTags(tags: Tags, t: nat, i: nat, child: nat): Tags
    requires t in tags && tags[t].level >= 1
  {
    tags[child := Node(tags[t].level - 1, tags[t].block * 512 + i, t)]
  }

  lemma TreeAfterHang(mem: Tables, root: nat, tags: Tags, hi: nat, t: nat, i: nat, child: nat, needed: Rights)
    requires Tree(mem, root, tags, hi) && Slot(root, tags, hi, t, i)
    requires !mem[t][i].present && tags[t].level >= 1 && child !in tags
    requires needed.user ==> Open(mem, root, tags, t)
    ensures Tree(Hang(mem, t, i, child, needed), root, HangTags(tags, t, i, child), hi)
  {
    var mem' := Hang(mem, t, i, child, needed);
    var tags' := HangTags(tags, t, i, child);
    forall p | p in tags'
      ensures NodeOk(mem', root, tags', p)
    {
      assert p != child ==> NodeOk(mem, root, tags, p);
      assert NodeOk(mem, root, tags, t);
    }
    forall p, k | p in tags' && 0 <= k < ENTRIES && (p == root ==> k < hi) && mem'[p][k].present
      ensures EntryOk(mem', tags', p, k, mem'[p][k])
    {
      if p == child {
        assert false;
      } else if (p, k) == (t, i) {
        assert NoUser(mem', child);
      } else {
        OthersStayOk(mem, root, tags, hi, t, i, TablePte(child, needed), p, k);
      }
    }
  }

  lemma TightAfterHang(mem: Tables, root: nat, tags: Tags, hi: nat, t: nat, i: nat, child: nat, needed: Rights)
    requires Tight(mem, root, tags, hi) && Slot(root, tags, hi, t, i)
    requires !mem[t][i].present && tags[t].level >= 1 && child !in tags
    requires Tree(Hang(mem, t, i, child, needed), root, HangTags(tags, t, i, child), hi)
    ensures Tight(Hang(mem, t, i, child, needed), root, HangTags(tags, t, i, child), hi)
  {
    var mem' := Hang(mem, t, i, child, needed);
    var tags' := HangTags(tags, t, i, child);
    forall c | c in tags' && c != root
      ensures Hangs(mem', root, tags', hi, c)
    {
      if c != child {
        assert Hangs(mem, root, tags, hi, c);
      }
    }
  }

  /** A new empty table resolves nothing, and neither did the absent slot it hangs at. */
  lemma {:induction false} WalkAfterHang(mem: Tables, root: nat, tags: Tags, hi: nat, t: nat, i: nat,
                                         child: nat, needed: Rights, u: nat, level: nat, virt: nat)
    requires Tree(mem, root, tags, hi) && Slot(root, tags, hi, t, i) && level <= 3
    requires !mem[t][i].present && tags[t].level >= 1 && child !in tags
    requires u in tags && tags[u].level == level && (u == root ==> InReach(virt, hi))
    ensures Walk(Hang(mem, t, i, child, needed), u, level, virt) == Walk(mem, u, level, virt)
    decreases level
  {
    var mem' := Hang(mem, t, i, child, needed);
    var k := Index(virt, level);
    var x := mem[u][k];
    if (u, k) == (t, i) {
      assert mem'[u][k] == TablePte(child, needed);
      assert Walk(mem', child, level - 1, virt).None?;
    } else {
      assert mem'[u][k] == x;
      if x.present && !IsLeaf(level, x) {
        assert EntryOk(mem, tags, u, k, x);
        WalkAfterHang(mem, root, tags, hi, t, i, child, needed, x.addr, level - 1, virt);
      }
    }
  }

  /** After a leaf is written where a walk for `virt` stands, every address of its block
      resolves to it. */
  lemma WalkHitsLeaf(mem: Tables, root: nat, tags: Tags, hi: nat, virt: nat, level: nat, t: nat, e: Pte, a: nat)
    requires Tree(mem, root, tags, hi) && InReach(virt, hi) && level <= 2
    requires t in tags && PathTable(mem, root, virt, level) == Some(t) && Block(a, level) == Block(virt, level)
    requires e.present ==> IsLeaf(level, e)
    requires Tree(Write(mem, t, Index(virt, level), e), root, tags, hi)
    ensures Walk(Write(mem, t, Index(virt, level), e), root, 3, a) ==
            if e.present then Some(Leaf(e, level)) else None
  {
    PathTag(mem, root, tags, hi, virt, level);
    var mem' := Write(mem, t, Index(virt, level), e);
    PathStable(mem, mem', root, tags, hi, virt, level);
    BlockCoarsens(a, virt, level);
    PathWalk(mem', root, tags, hi, virt, level, a);
  }

  /** No walk through the first `hi` root slots ends anywhere else than it did. */
  ghost predicate SameWalks(mem: Tables, mem': Tables, root: nat, hi: nat) {
    forall a: nat :: InReach(a, hi) ==> Walk(mem', root, 3, a) == Walk(mem, root, 3, a)
  }

  /** What one step down leaves behind: the same translations, and a walk for `virt` that now
      reaches `child`, open to ring 3 if that was asked for. */
  ghost predicate Descended(mem: Tables, tags: Tags, mem': Tables, tags': Tags, root: nat, hi: nat,
                            virt: nat, level: nat, child: nat, user: bool)
  {
    && 1 <= level <= 3
    && Tree(mem', root, tags', hi) && (Tight(mem, root, tags, hi) ==> Tight(mem', root, tags', hi))
    && SameWalks(mem, mem', root, hi)
    && PathTable(mem', root, virt, level - 1) == Some(child) && child in tags'
    && (user ==> Open(mem', root, tags', child))
  }

  lemma TableInMemory(mem: Tables, root: nat, tags: Tags, hi: nat, t: nat)
    requires Tree(mem, root, tags, hi) && t in tags
    ensures t in mem && |mem[t]| == ENTRIES && tags[t].level <= 3 && (tags[t].level == 3 ==> t == root)
    ensures root in tags && tags[root].level == 3 && hi <= ENTRIES
    ensures forall u :: u in tags ==> u in mem
  {
    assert NodeOk(mem, root, tags, t);
    forall u | u in tags
      ensures u in mem
    {
      assert NodeOk(mem, root, tags, u);
    }
  }

  lemma DescendWidened(mem: Tables, root: nat, tags: Tags, hi: nat, virt: nat, level: nat, t: nat, needed: Rights)
    requires Tree(mem, root, tags, hi) && InReach(virt, hi) && 1 <= level <= 3 && t in tags
    requires PathTable(mem, root, virt, level) == Some(t)
    requires mem[t][Index(virt, level)].present && !mem[t][Index(virt, level)].huge
    requires needed.user ==> Open(mem, root, tags, t)
    ensures var e := mem[t][Index(virt, level)];
            Descended(mem, tags, Write(mem, t, Index(virt, level), WidenPte(e, needed)), tags, root, hi,
                      virt, level, e.addr, needed.user)
  {
    hide Tree;
    hide Tight;
    TableInMemory(mem, root, tags, hi, t);
    var i := Index(virt, level);
    var mem' := Write(mem, t, i, WidenPte(mem[t][i], needed));
    PathTag(mem, root, tags, hi, virt, level);
    BlockIndex(virt, 3);
    PointerIsTag(mem, root, tags, hi, t, i);
    TreeAfterWiden(mem, root, tags, hi, t, i, needed);
    forall a: nat | InReach(a, hi)
      ensures Walk(mem', root, 3, a) == Walk(mem, root, 3, a)
    {
      WalkAfterWiden(mem, root, tags, hi, t, i, needed, root, 3, a);
    }
    PathStable(mem, mem', root, tags, hi, virt, level);
  }

  /** The step down through a freshly hung table. */
  lemma PathAfterHang(mem: Tables, root: nat, tags: Tags, hi: nat, virt: nat, level: nat, t: nat, child: nat, needed: Rights)
    requires Tree(mem, root, tags, hi) && InReach(virt, hi) && 1 <= level <= 3 && t in tags
    requires PathTable(mem, root, virt, level) == Some(t) && tags[t].level == level && child !in tags
    ensures t in mem && |mem[t]| == ENTRIES
    ensures PathTable(Hang(mem, t, Index(virt, level), child, needed), root, virt, level - 1) == Some(child)
  {
    TableInMemory(mem, root, tags, hi, t);
    var mem' := Hang(mem, t, Index(virt, level), child, needed);
    PathStable(mem, mem', root, tags, hi, virt, level);
  }

  lemma SameWalksAfterHang(mem: Tables, root: nat, tags: Tags, hi: nat, t: nat, i: nat, child: nat, needed: Rights)
    requires Tree(mem, root, tags, hi) && Slot(root, tags, hi, t, i)
    requires !mem[t][i].present && tags[t].level >= 1 && child !in tags
    ensures SameWalks(mem, Hang(mem, t, i, child, needed), root, hi)
  {
    var mem' := Hang(mem, t, i, child, needed);
    forall a: nat | InReach(a, hi)
      ensures Walk(mem', root, 3, a) == Walk(mem, root, 3, a)
    {
      WalkAfterHang(mem, root, tags, hi, t, i, child, needed, root, 3, a);
    }
  }

  lemma DescendHung(mem: Tables, root: nat, tags: Tags, hi: nat, virt: nat, level: nat, t: nat, child: nat, needed: Rights)
    requires Tree(mem, root, tags, hi) && InReach(virt, hi) && 1 <= level <= 3 && t in tags
    requires PathTable(mem, root, virt, level) == Some(t) && tags[t].level == level && child !in tags
    requires !mem[t][Index(virt, level)].present
    requires needed.user ==> Open(mem, root, tags, t)
    ensures var i := Index(virt, level);
            Descended(mem, tags, Hang(mem, t, i, child, needed), HangTags(tags, t, i, child), root, hi,
                      virt, level, child, needed.user)
  {
    hide Tree;
    hide Tight;
    hide SameWalks;
    TableInMemory(mem, root, tags, hi, t);
    BlockIndex(virt, 3);
    var i := Index(virt, level);
    TreeAfterHang(mem, root, tags, hi, t, i, child, needed);
    if Tight(mem, root, tags, hi) {
      TightAfterHang(mem, root, tags, hi, t, i, child, needed);
    }
    SameWalksAfterHang(mem, root, tags, hi, t, i, child, needed);
    PathAfterHang(mem, root, tags, hi, virt, level, t, child, needed);
  }
}
