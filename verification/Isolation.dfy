/** All the spaces at once: what an operation on one leaves of the others and of the kernel, over
    every run of operations. */
module Isolation {
  import opened Basics
  import opened Entries
  import opened PageTree
  import opened TreeUpdates
  import opened FramePool
  import opened MapTheory
  import opened Mapping
  import opened SpaceTheory
  import opened Loading
  import opened AddressSpaces
  import opened UserSpaces
  import Elf64

  /** An address space as a value; `taken` is every frame the pool lost to it. */
  datatype Space = Space(root: nat, tags: Tags, flat: Flat, borrowed: Option<nat>, taken: set<nat>) {
    ghost predicate Ok(s: Snapshot) {
      SpaceOk(s, root, tags, flat, borrowed) && Accounts(s, tags, flat, borrowed, taken)
    }

    ghost function Own(): set<nat> {
      Owned(tags, flat, borrowed)
    }
  }

  /** The pool, the kernel's own tree, and every space there is. */
  datatype World = World(pool: Snapshot, kernel: nat, kernelTags: Tags, spaces: map<nat, Space>)

  /** Two spaces took nothing in common, and neither borrows what the other took. */
  ghost predicate Apart(a: Space, b: Space) {
    && a.taken !! b.taken
    && (a.borrowed.Some? ==> a.borrowed.value !in b.taken)
    && (b.borrowed.Some? ==> b.borrowed.value !in a.taken)
  }

  ghost predicate SpaceIn(w: World, i: nat)
    requires i in w.spaces
  {
    && w.spaces[i].Ok(w.pool)
    && UpperShared(w.pool, w.spaces[i].root, w.kernel)
    && w.spaces[i].tags.Keys !! w.kernelTags.Keys
  }

  ghost predicate WorldOk(w: World) {
    && w.pool.Valid()
    && Tree(w.pool.View(), w.kernel, w.kernelTags, ENTRIES)
    && (forall i :: i in w.spaces ==> SpaceIn(w, i))
    && (forall i, j :: i in w.spaces && j in w.spaces && i != j ==> Apart(w.spaces[i], w.spaces[j]))
  }

  // ---------------------------------------------------------------------------------------
  // Steps
  // ---------------------------------------------------------------------------------------

  /** Operations on spaces, the kernel mapping memory of its own, a store by a program in ring 3, and
      the kernel writing a frame that is no space's. */
  datatype Step = Create(id: nat) | Change(id: nat) | Destroy(id: nat) | Abandon | KernelMap
                | Store(id: nat, at: nat, value: byte) | Publish(frame: nat, content: seq<byte>)

  /** The step is about this space. */
  predicate About(step: Step, j: nat) {
    (step.Create? || step.Change? || step.Destroy? || step.Store?) && step.id == j
  }

  /** A frame a space may borrow: data of the kernel's, taken by no space. */
  ghost predicate Borrowable(w: World, borrowed: Option<nat>) {
    borrowed.Some? ==> borrowed.value in w.pool.bytes && forall i :: i in w.spaces ==> borrowed.value !in w.spaces[i].taken
  }

  /** What each operation is known to do to the world, in the terms of its own contract. */
  ghost predicate Next(w: World, w': World, step: Step) {
    && w'.kernel == w.kernel && w'.pool.Valid()
    && match step {
         case Create(i) =>
           && i !in w.spaces && i in w'.spaces && w'.spaces == w.spaces[i := w'.spaces[i]] && w'.kernelTags == w.kernelTags
           && Created(w, w'.pool, w'.spaces[i])
         case Change(i) =>
           && i in w.spaces && i in w'.spaces && w'.spaces == w.spaces[i := w'.spaces[i]] && w'.kernelTags == w.kernelTags
           && Changed(w, w'.pool, w.spaces[i], w'.spaces[i])
         case Destroy(i) =>
           && i in w.spaces && w'.spaces == w.spaces - {i} && w'.kernelTags == w.kernelTags
           && Released(w.pool, w'.pool, w.spaces[i].Own())
         case Abandon =>
           w'.spaces == w.spaces && w'.kernelTags == w.kernelTags && Spared(w.pool, w'.pool)
         case KernelMap =>
           && w'.spaces == w.spaces && w.kernel in w.pool.words && w.kernel in w'.pool.words
           && Grew(w.pool, w.kernelTags, w'.pool, w'.kernelTags, w.kernel, ENTRIES)
           && Tree(w'.pool.View(), w.kernel, w'.kernelTags, ENTRIES)
           && w'.pool.words[w.kernel] == w.pool.words[w.kernel]
         case Store(i, a, b) =>
           && i in w.spaces && Permits(w.pool.View(), w.spaces[i].root, a, true)
           && w' == w.(pool := Stored(w.pool, w.spaces[i].root, a, b))
         case Publish(f, content) =>
           f in w.pool.bytes && Borrowable(w, Some(f)) && w' == w.(pool := w.pool.(bytes := w.pool.bytes[f := content]))
       }
  }

  function PutByte(page: seq<byte>, at: nat, b: byte): seq<byte>
    requires at < |page|
  {
    page[..at] + [b] + page[at + 1..]
  }

  /** Memory after a byte has been stored through the tables under `root`. */
  ghost function Stored(s: Snapshot, root: nat, a: nat, b: byte): Snapshot {
    match Translate(s.View(), root, a)
    case None => s
    case Some(t) =>
      if FrameOf(t) in s.bytes && t.phys % 0x1000 < |s.bytes[FrameOf(t)]|
      then s.(bytes := s.bytes[FrameOf(t) := PutByte(s.bytes[FrameOf(t)], t.phys % 0x1000, b)]) else s
  }

  /** A space made by `NewSpace` or `BuildSpace`. */
  ghost predicate Created(w: World, pool': Snapshot, sp: Space) {
    && Isolated(w.pool, map[], pool', sp.tags, sp.root) && sp.Ok(pool')
    && sp.taken <= w.pool.free && Borrowable(w, sp.borrowed)
    && UpperShared(pool', sp.root, w.kernel)
  }

  /** A space changed by `Map`, `Load`, `MapStack`, `SeedId` or `MapClock`, whether it succeeded
      or failed half way: `MapStep`, `LoadStep` and the methods beside them say so of each. */
  ghost predicate Changed(w: World, pool': Snapshot, sp: Space, sp': Space) {
    && sp'.root == sp.root && Isolated(w.pool, sp.tags, pool', sp'.tags, sp.root) && sp'.Ok(pool')
    && sp.taken <= sp'.taken && sp'.taken - sp.taken <= w.pool.free
    && (sp'.borrowed == sp.borrowed || Borrowable(w, sp'.borrowed))
  }

  /** The operations' contracts are the step's: whatever they took came from the pool. */
  lemma OperationIsChange(w: World, pool': Snapshot, sp: Space, sp': Space)
    requires sp'.root == sp.root && Isolated(w.pool, sp.tags, pool', sp'.tags, sp.root) && sp'.Ok(pool')
    requires Took(w.pool, sp.taken, pool', sp'.taken)
    requires sp'.borrowed == sp.borrowed || Borrowable(w, sp'.borrowed)
    ensures Changed(w, pool', sp, sp')
  {
  }

  /** A finished construction is a step too. */
  lemma ConstructionIsCreate(w: World, pool': Snapshot, sp: Space)
    requires sp.Ok(pool') && Isolated(w.pool, map[], pool', sp.tags, sp.root) && Took(w.pool, {}, pool', sp.taken)
    requires UpperShared(pool', sp.root, w.kernel) && Borrowable(w, sp.borrowed)
    ensures Created(w, pool', sp)
  {
    hide SpaceOk, Isolated, UpperShared, Accounts;
    assert sp.taken - {} == sp.taken;
  }

  // ---------------------------------------------------------------------------------------
  // Frames
  // ---------------------------------------------------------------------------------------

  /** The tables among `some` hold what they held. */
  ghost predicate TablesKept(s: Snapshot, s': Snapshot, some: set<nat>) {
    forall t :: t in some && t in s.words ==> t in s'.words && s'.words[t] == s.words[t]
  }

  lemma ViewKept(s: Snapshot, s': Snapshot, root: nat, tags: Tags, hi: nat)
    requires Tree(s.View(), root, tags, hi) && TablesKept(s, s', tags.Keys)
    ensures forall t :: t in tags ==> t in s.View() && t in s'.View() && s'.View()[t] == s.View()[t]
  {
    TagsAreTables(s, root, tags, hi);
  }

  /** A tree is made of its tables and nothing else. */
  lemma TreeKept(mem: Tables, mem': Tables, root: nat, tags: Tags, hi: nat)
    requires Tree(mem, root, tags, hi)
    requires forall t :: t in tags ==> t in mem && t in mem' && mem'[t] == mem[t]
    ensures Tree(mem', root, tags, hi)
    ensures Tight(mem, root, tags, hi) ==> Tight(mem', root, tags, hi)
  {
    forall t | t in tags
      ensures NodeOk(mem', root, tags, t)
    {
      assert NodeOk(mem, root, tags, t);
    }
    forall t, i | t in tags && 0 <= i < ENTRIES && (t == root ==> i < hi) && mem'[t][i].present
      ensures EntryOk(mem', tags, t, i, mem'[t][i])
    {
      assert EntryOk(mem, tags, t, i, mem[t][i]);
    }
    if Tight(mem, root, tags, hi) {
      forall c | c in tags && c != root
        ensures Hangs(mem', root, tags, hi, c)
      {
        assert Hangs(mem, root, tags, hi, c);
      }
    }
  }

  lemma {:induction false} WalkKept(mem: Tables, mem': Tables, root: nat, tags: Tags, hi: nat, t: nat, a: nat)
    requires Tree(mem, root, tags, hi) && t in tags && (t == root ==> InReach(a, hi))
    requires forall u :: u in tags ==> u in mem && u in mem' && mem'[u] == mem[u]
    ensures Walk(mem', t, tags[t].level, a) == Walk(mem, t, tags[t].level, a)
    decreases tags[t].level
  {
    var l := tags[t].level;
    var e := mem[t][Index(a, l)];
    if e.present && !IsLeaf(l, e) {
      assert EntryOk(mem, tags, t, Index(a, l), e);
      WalkKept(mem, mem', root, tags, hi, e.addr, a);
    }
  }

  lemma TranslationsKept(s: Snapshot, s': Snapshot, root: nat, tags: Tags, hi: nat)
    requires Tree(s.View(), root, tags, hi) && TablesKept(s, s', tags.Keys)
    ensures Tree(s'.View(), root, tags, hi)
    ensures SameWalks(s.View(), s'.View(), root, hi)
    ensures forall a: nat :: InReach(a, hi) ==> Translate(s'.View(), root, a) == Translate(s.View(), root, a)
  {
    hide Tree, Translate, Walk;
    ViewKept(s, s', root, tags, hi);
    TreeKept(s.View(), s'.View(), root, tags, hi);
    RootCoversAll(s.View(), root, tags, hi);
    forall a: nat | InReach(a, hi)
      ensures Walk(s'.View(), root, 3, a) == Walk(s.View(), root, 3, a)
      ensures Translate(s'.View(), root, a) == Translate(s.View(), root, a)
    {
      WalkKept(s.View(), s'.View(), root, tags, hi, root, a);
      SameWalkSameTranslation(s.View(), tags, s'.View(), tags, root, hi, a);
    }
  }

  /** The frames a space maps are still there, and hold what they held: all of them, or all of its own. */
  ghost predicate PagesKept(s: Snapshot, s': Snapshot, sp: Space, all: bool) {
    && (forall v :: v in sp.flat && sp.flat[v].frame in s.bytes ==>
          && sp.flat[v].frame in s'.bytes
          && (all || Some(sp.flat[v].frame) != sp.borrowed ==> s'.bytes[sp.flat[v].frame] == s.bytes[sp.flat[v].frame]))
    && (sp.borrowed.Some? && sp.borrowed.value in s.bytes ==> sp.borrowed.value in s'.bytes)
  }

  /** The page at `a` is the one the space borrows. */
  ghost predicate OnBorrowed(sp: Space, a: nat) {
    a / PAGE_SIZE in sp.flat && Some(sp.flat[a / PAGE_SIZE].frame) == sp.borrowed
  }

  /** A space whose tables and pages are left alone is the space it was, byte for byte. */
  lemma SpaceKept(s: Snapshot, s': Snapshot, sp: Space, all: bool)
    requires sp.Ok(s) && s'.Valid() && TablesKept(s, s', sp.tags.Keys) && PagesKept(s, s', sp, all) && sp.taken <= s'.held
    ensures sp.Ok(s')
    ensures forall a: nat :: InReach(a, KERNEL_PML4_FIRST) ==> Translate(s'.View(), sp.root, a) == Translate(s.View(), sp.root, a)
    ensures forall a: nat :: a < USER_LIMIT && (all || !OnBorrowed(sp, a)) ==> ReadByte(s', sp.root, a) == ReadByte(s, sp.root, a)
  {
    hide Tree, Tight, Translate, Agrees, FlatOk;
    var mem, mem' := s.View(), s'.View();
    TightIsTree(mem, sp.root, sp.tags, KERNEL_PML4_FIRST);
    TranslationsKept(s, s', sp.root, sp.tags, KERNEL_PML4_FIRST);
    ViewKept(s, s', sp.root, sp.tags, KERNEL_PML4_FIRST);
    TreeKept(mem, mem', sp.root, sp.tags, KERNEL_PML4_FIRST);
    AgreesAfterSame(mem, mem', sp.root, sp.flat);
    FlatKept(s, s', sp, all);
    forall a: nat | a < USER_LIMIT && (all || !OnBorrowed(sp, a))
      ensures ReadByte(s', sp.root, a) == ReadByte(s, sp.root, a)
    {
      ByteKept(s, s', sp, all, a);
    }
  }

  lemma FlatKept(s: Snapshot, s': Snapshot, sp: Space, all: bool)
    requires FlatOk(s, sp.flat, sp.borrowed) && PagesKept(s, s', sp, all)
    ensures FlatOk(s', sp.flat, sp.borrowed)
  {
  }

  lemma ByteKept(s: Snapshot, s': Snapshot, sp: Space, all: bool, a: nat)
    requires sp.Ok(s) && sp.Ok(s') && PagesKept(s, s', sp, all) && a < USER_LIMIT && (all || !OnBorrowed(sp, a))
    ensures ReadByte(s', sp.root, a) == ReadByte(s, sp.root, a)
  {
    hide SpaceOk, Translate;
    FlatTranslation(s, sp.root, sp.tags, sp.flat, sp.borrowed, a);
    FlatTranslation(s', sp.root, sp.tags, sp.flat, sp.borrowed, a);
    if a / PAGE_SIZE in sp.flat {
      MappedFrame(s, sp.root, sp.tags, sp.flat, sp.borrowed, a / PAGE_SIZE);
      FrameAndOffset(sp.flat[a / PAGE_SIZE].frame, a % PAGE_SIZE);
    }
  }

  lemma MappedFrame(s: Snapshot, root: nat, tags: Tags, flat: Flat, borrowed: Option<nat>, v: nat)
    requires SpaceOk(s, root, tags, flat, borrowed) && v in flat
    ensures flat[v].frame in s.bytes && flat[v].frame % PAGE_SIZE == 0
    ensures Some(flat[v].frame) == borrowed || flat[v].frame in Owned(tags, flat, borrowed)
  {
    assert flat[v].frame in s.held;
  }

  // ---------------------------------------------------------------------------------------
  // One step
  // ---------------------------------------------------------------------------------------

  ghost predicate Spares(step: Step, j: nat) {
    !About(step, j)
  }

  /** The tables and pages of a space no step is about are left alone by it. */
  lemma StepSpares(w: World, w': World, step: Step, j: nat)
    requires WorldOk(w) && Next(w, w', step) && j in w.spaces && Spares(step, j)
    ensures j in w'.spaces && w'.spaces[j] == w.spaces[j]
    ensures TablesKept(w.pool, w'.pool, w.spaces[j].tags.Keys) && PagesKept(w.pool, w'.pool, w.spaces[j], !step.Publish?)
    ensures w.spaces[j].taken <= w'.pool.held
  {
    hide SpaceOk, Tree, UpperShared, UpperKept, Owned, Apart, Stored, Permits;
    var sp := w.spaces[j];
    assert SpaceIn(w, j);
    TakenHeld(w.pool, sp);
    if step.Change? || step.Destroy? || step.Store? {
      assert SpaceIn(w, step.id);
      NothingShared(w.pool, sp, w.spaces[step.id]) by { assert Apart(sp, w.spaces[step.id]); }
      if step.Store? {
        StoreHitsOwn(w.pool, w.spaces[step.id], step.at, step.value);
      }
    }
    if step.Publish? {
      MappedIsTaken(w.pool, sp);
    }
  }

  /** A store changes one byte, of a frame of the program's own space. */
  lemma StoreHitsOwn(s: Snapshot, sp: Space, a: nat, b: byte)
    requires sp.Ok(s) && Permits(s.View(), sp.root, a, true)
    ensures var v, s' := a / PAGE_SIZE, Stored(s, sp.root, a, b);
            && v in sp.flat && Some(sp.flat[v].frame) != sp.borrowed && sp.flat[v].frame in sp.Own()
            && sp.flat[v].frame in s.bytes && |s.bytes[sp.flat[v].frame]| == PAGE_SIZE
            && s' == s.(bytes := s.bytes[sp.flat[v].frame := PutByte(s.bytes[sp.flat[v].frame], a % PAGE_SIZE, b)])
            && s'.View() == s.View()
  {
    hide SpaceOk, Translate;
    FlatTranslation(s, sp.root, sp.tags, sp.flat, sp.borrowed, a);
    BorrowedIsReadOnly(s, sp);
    MappedFrame(s, sp.root, sp.tags, sp.flat, sp.borrowed, a / PAGE_SIZE);
    PageFrame(s, sp.root, sp.tags, sp.flat, sp.borrowed, a / PAGE_SIZE);
    FrameAndOffset(sp.flat[a / PAGE_SIZE].frame, a % PAGE_SIZE);
  }

  lemma BorrowedIsReadOnly(s: Snapshot, sp: Space)
    requires sp.Ok(s)
    ensures forall v :: v in sp.flat && Some(sp.flat[v].frame) == sp.borrowed ==> !sp.flat[v].rights.write
  {
  }

  /** What a space maps, it borrows or has taken. */
  lemma MappedIsTaken(s: Snapshot, sp: Space)
    requires sp.Ok(s)
    ensures forall v :: v in sp.flat ==> Some(sp.flat[v].frame) == sp.borrowed || sp.flat[v].frame in sp.taken
  {
    hide SpaceOk;
    forall v | v in sp.flat
      ensures Some(sp.flat[v].frame) == sp.borrowed || sp.flat[v].frame in sp.taken
    {
      MappedFrame(s, sp.root, sp.tags, sp.flat, sp.borrowed, v);
    }
  }

  /** None of a space's tables and pages is among what a space apart from it owns. */
  lemma NothingShared(s: Snapshot, sp: Space, other: Space)
    requires sp.Ok(s) && other.Ok(s) && Apart(sp, other)
    ensures sp.tags.Keys !! other.Own() && other.tags.Keys <= other.Own()
    ensures forall v :: v in sp.flat ==> sp.flat[v].frame !in other.Own()
    ensures (sp.borrowed.Some? ==> sp.borrowed.value !in other.Own()) && sp.taken !! other.Own()
  {
    hide SpaceOk;
    forall v | v in sp.flat
      ensures sp.flat[v].frame !in other.Own()
    {
      MappedFrame(s, sp.root, sp.tags, sp.flat, sp.borrowed, v);
    }
  }

  /** So are the kernel's, but by the kernel itself. */
  lemma StepSparesKernel(w: World, w': World, step: Step)
    requires WorldOk(w) && Next(w, w', step)
    ensures !step.KernelMap? ==> TablesKept(w.pool, w'.pool, w.kernelTags.Keys)
    ensures w.kernel in w.pool.words && w.kernel in w'.pool.words && w'.pool.words[w.kernel] == w.pool.words[w.kernel]
    ensures w.kernel in w.kernelTags && w.kernelTags.Keys <= w.pool.words.Keys
  {
    hide SpaceOk, Tree, UpperShared, UpperKept, Permits, Translate;
    TagsAreTables(w.pool, w.kernel, w.kernelTags, ENTRIES);
    RootCoversAll(w.pool.View(), w.kernel, w.kernelTags, ENTRIES);
    if step.Change? || step.Destroy? {
      var sp := w.spaces[step.id];
      assert SpaceIn(w, step.id);
      if step.Destroy? {
        OwnedTables(w.pool, sp);
      }
    }
  }

  lemma OwnedTables(s: Snapshot, sp: Space)
    requires sp.Ok(s)
    ensures forall t :: t in s.words && t in sp.Own() ==> t in sp.tags
  {
    hide Tree, Tight, Agrees;
  }

  /** The kernel half of a space's root survives a step that writes neither root's upper slots. */
  lemma SharedKept(s: Snapshot, s': Snapshot, root: nat, kernel: nat)
    requires UpperShared(s, root, kernel) && UpperKept(s, s', root, KERNEL_PML4_FIRST)
    requires kernel in s'.words && s'.words[kernel] == s.words[kernel]
    ensures UpperShared(s', root, kernel)
  {
  }

  lemma RootKept(s: Snapshot, s': Snapshot, tags: Tags, root: nat)
    requires TablesKept(s, s', tags.Keys) && root in tags
    ensures UpperKept(s, s', root, KERNEL_PML4_FIRST)
  {
  }

  /** After any step, a space the step was not about is as it was and still shares the kernel's
      upper half. */
  lemma BystanderOk(w: World, w': World, step: Step, j: nat)
    requires WorldOk(w) && Next(w, w', step) && j in w.spaces && Spares(step, j)
    ensures j in w'.spaces && w'.spaces[j] == w.spaces[j] && SpaceIn(w', j)
    ensures forall a: nat :: a < USER_LIMIT ==>
              && Translate(w'.pool.View(), w.spaces[j].root, a) == Translate(w.pool.View(), w.spaces[j].root, a)
              && (!step.Publish? || !OnBorrowed(w.spaces[j], a) ==>
                    ReadByte(w'.pool, w.spaces[j].root, a) == ReadByte(w.pool, w.spaces[j].root, a))
  {
    hide SpaceOk, Tree, UpperShared, UpperKept, Translate, ReadByte, Permits, Stored;
    var sp := w.spaces[j];
    assert SpaceIn(w, j);
    StepSpares(w, w', step, j);
    StepSparesKernel(w, w', step);
    SpaceKept(w.pool, w'.pool, sp, !step.Publish?);
    RootTagged(w.pool, sp.root, sp.tags, sp.flat, sp.borrowed);
    RootKept(w.pool, w'.pool, sp.tags, sp.root);
    SharedKept(w.pool, w'.pool, sp.root, w.kernel);
    KernelTagsNew(w, w', step, j);
    forall a: nat | a < USER_LIMIT
      ensures InReach(a, KERNEL_PML4_FIRST)
    {
      ReachIsPrefix(a, KERNEL_PML4_FIRST);
    }
  }

  /** The kernel's new tables came from the pool, so they are no space's. */
  lemma KernelTagsNew(w: World, w': World, step: Step, j: nat)
    requires WorldOk(w) && Next(w, w', step) && j in w.spaces
    ensures w.spaces[j].tags.Keys !! w'.kernelTags.Keys
  {
    hide Tree, SpaceOk, Isolated, Created, Changed, Permits, Stored;
    var sp := w.spaces[j];
    assert SpaceIn(w, j);
    TakenHeld(w.pool, sp);
  }

  /** The space a step makes or changes is in order afterwards. */
  lemma ActorOk(w: World, w': World, step: Step)
    requires WorldOk(w) && Next(w, w', step) && (step.Create? || step.Change? || step.Store?)
    ensures SpaceIn(w', step.id)
  {
    hide SpaceOk, Tree, UpperShared, UpperKept, TablesKept, Permits, Stored;
    var sp' := w'.spaces[step.id];
    StepSparesKernel(w, w', step);
    if step.Store? {
      assert SpaceIn(w, step.id);
      StoreKeepsSpace(w, step.id, step.at, step.value);
    }
    if step.Change? {
      assert SpaceIn(w, step.id);
      SharedKept(w.pool, w'.pool, sp'.root, w.kernel);
    }
  }

  lemma StoreKeepsSpace(w: World, i: nat, a: nat, b: byte)
    requires i in w.spaces && SpaceIn(w, i) && Permits(w.pool.View(), w.spaces[i].root, a, true)
    ensures SpaceIn(w.(pool := Stored(w.pool, w.spaces[i].root, a, b)), i)
    ensures Stored(w.pool, w.spaces[i].root, a, b).Valid()
  {
    hide Tight, Tree, Agrees, Permits, Stored;
    var sp, s' := w.spaces[i], Stored(w.pool, w.spaces[i].root, a, b);
    StoreHitsOwn(w.pool, sp, a, b);
    assert FlatOk(s', sp.flat, sp.borrowed);
  }

  /** And apart from every other. */
  lemma ActorApart(w: World, w': World, step: Step, j: nat)
    requires WorldOk(w) && Next(w, w', step) && (step.Create? || step.Change?) && j in w.spaces && j != step.id
    ensures Apart(w'.spaces[step.id], w.spaces[j])
  {
    hide SpaceOk, Tree, UpperShared, Isolated;
    var sp := w.spaces[j];
    assert SpaceIn(w, j);
    TakenHeld(w.pool, sp);
    BorrowedHeld(w.pool, sp);
    if step.Change? {
      assert Apart(w.spaces[step.id], sp);
    }
  }

  lemma TakenHeld(s: Snapshot, sp: Space)
    requires sp.Ok(s)
    ensures sp.Own() <= sp.taken <= s.held && sp.tags.Keys <= sp.taken
  {
  }

  lemma BorrowedHeld(s: Snapshot, sp: Space)
    requires sp.Ok(s)
    ensures s.Valid() && (sp.borrowed.Some? ==> sp.borrowed.value in s.held)
  {
  }

  /** Every step keeps the world in order. */
  lemma StepKeepsWorld(w: World, w': World, step: Step)
    requires WorldOk(w) && Next(w, w', step)
    ensures WorldOk(w')
  {
    hide SpaceOk, Tree, UpperShared, Isolated, Changed, Created, Grew, Released, Apart, Stored, Permits;
    StepSparesKernel(w, w', step);
    if !step.KernelMap? {
      TranslationsKept(w.pool, w'.pool, w.kernel, w.kernelTags, ENTRIES);
    }
    forall i | i in w'.spaces
      ensures SpaceIn(w', i)
    {
      if About(step, i) {
        ActorOk(w, w', step);
      } else {
        BystanderOk(w, w', step, i);
      }
    }
    forall i, j | i in w'.spaces && j in w'.spaces && i != j
      ensures Apart(w'.spaces[i], w'.spaces[j])
    {
      if step.Store? {
        assert Apart(w.spaces[i], w.spaces[j]);
      } else if About(step, i) {
        ActorApart(w, w', step, j);
      } else if About(step, j) {
        ActorApart(w, w', step, i);
        ApartBothWays(w'.spaces[j], w'.spaces[i]);
      }
    }
  }

  /** No operation on a space moves a translation of the kernel's tree, in either half. */
  lemma StepKeepsKernelTree(w: World, w': World, step: Step, a: nat)
    requires WorldOk(w) && Next(w, w', step) && !step.KernelMap?
    ensures Translate(w'.pool.View(), w.kernel, a) == Translate(w.pool.View(), w.kernel, a)
  {
    hide SpaceOk, Tree, Translate, Next;
    StepSparesKernel(w, w', step);
    TranslationsKept(w.pool, w'.pool, w.kernel, w.kernelTags, ENTRIES);
  }

  lemma ApartBothWays(a: Space, b: Space)
    requires Apart(a, b)
    ensures Apart(b, a)
  {
  }

  // ---------------------------------------------------------------------------------------
  // The kernel half
  // ---------------------------------------------------------------------------------------

  /** In every space, every address of the kernel half resolves as it does in the kernel's tree. */
  lemma KernelHalfAgrees(w: World, i: nat, a: nat)
    requires WorldOk(w) && i in w.spaces && !InReach(a, KERNEL_PML4_FIRST)
    ensures Translate(w.pool.View(), w.spaces[i].root, a) == Translate(w.pool.View(), w.kernel, a)
  {
    hide Tree, SpaceOk;
    assert SpaceIn(w, i);
    UpperEntry(w.pool, w.spaces[i].root, w.kernel, Index(a, 3));
  }

  lemma UpperEntry(s: Snapshot, root: nat, kernel: nat, k: nat)
    requires UpperShared(s, root, kernel) && KERNEL_PML4_FIRST <= k < ENTRIES
    ensures root in s.View() && kernel in s.View() && |s.View()[root]| == ENTRIES && |s.View()[kernel]| == ENTRIES
    ensures s.View()[root][k] == s.View()[kernel][k]
  {
  }

  /** The kernel-half slots of `root` that ring 3 could walk into: bit 0, present, and bit 2, ring 3's,
      are both set. */
  ghost function OpenSlots(words: seq<u64>, n: nat): set<nat>
    requires |words| == ENTRIES && n <= ENTRIES
  {
    set i | KERNEL_PML4_FIRST <= i < n && Decode(words[i]).present && Decode(words[i]).user
  }

  /** `user_reachable_kernel_slots`. */
  method UserReachableKernelSlots(frames: Frames, root: nat) returns (count: nat)
    requires frames.Valid() && root in frames.words
    ensures count == |OpenSlots(frames.words[root], ENTRIES)|
    ensures OpenSlots(frames.words[root], ENTRIES) ==
            set i | 256 <= i < 512 && frames.words[root][i] % 2 == 1 && frames.words[root][i] / 4 % 2 == 1
  {
    count := 0;
    var slot := KERNEL_PML4_FIRST;
    OpenIsTwoBits(frames.words[root]);
    assert OpenSlots(frames.words[root], slot) == {};
    while slot < ENTRIES
      invariant KERNEL_PML4_FIRST <= slot <= ENTRIES && count == |OpenSlots(frames.words[root], slot)|
    {
      var entry := Decode(frames.words[root][slot]);
      assert OpenSlots(frames.words[root], slot + 1) ==
             OpenSlots(frames.words[root], slot) + if entry.present && entry.user then {slot} else {};
      if entry.present && entry.user {
        count := count + 1;
      }
      slot := slot + 1;
    }
  }

  lemma OpenIsTwoBits(words: seq<u64>)
    requires |words| == ENTRIES
    ensures OpenSlots(words, ENTRIES) == set i | 256 <= i < 512 && words[i] % 2 == 1 && words[i] / 4 % 2 == 1
  {
    hide Decode;
    forall i | 0 <= i < ENTRIES
      ensures Decode(words[i]).present == (words[i] % 2 == 1) && Decode(words[i]).user == (words[i] / 4 % 2 == 1)
    {
      DecodeIs(words[i]);
    }
  }

  /** When there is none, ring 3 has no right to any address of the kernel half. */
  lemma ClosedKernelHalf(s: Snapshot, root: nat, a: nat)
    requires s.Valid() && root in s.words && OpenSlots(s.words[root], ENTRIES) == {} && !InReach(a, KERNEL_PML4_FIRST)
    ensures Translate(s.View(), root, a).Some? ==> !Translate(s.View(), root, a).value.rights.user
  {
    var k := Index(a, 3);
    var e := s.View()[root][k];
    assert e == Decode(s.words[root][k]);
    if e.present {
      assert k !in OpenSlots(s.words[root], ENTRIES);
      if !IsLeaf(3, e) {
        NeverGainsUser(s.View(), e.addr, 2, a, ALL.Intersect(e.GetRights()));
      }
    }
  }

  /** A right missing on the way down is missing at the end of it. */
  lemma {:induction false} NeverGainsUser(mem: Tables, table: nat, level: nat, a: nat, effective: Rights)
    requires level <= 3 && !effective.user
    ensures var t := TranslateFrom(mem, table, level, a, effective); t.Some? ==> !t.value.rights.user
    decreases level
  {
    if table in mem && |mem[table]| == ENTRIES {
      var e := mem[table][Index(a, level)];
      if e.present && !IsLeaf(level, e) {
        NeverGainsUser(mem, e.addr, level - 1, a, effective.Intersect(e.GetRights()));
      }
    }
  }

  // ---------------------------------------------------------------------------------------
  // Runs
  // ---------------------------------------------------------------------------------------

  ghost predicate IsRun(ws: seq<World>, steps: seq<Step>) {
    && |ws| == |steps| + 1 && WorldOk(ws[0])
    && forall k :: 0 <= k < |steps| ==> Next(ws[k], ws[k + 1], steps[k])
  }

  lemma {:induction false} RunKeepsWorld(ws: seq<World>, steps: seq<Step>, n: nat)
    requires IsRun(ws, steps) && n < |ws|
    ensures WorldOk(ws[n]) && ws[n].kernel == ws[0].kernel
    ensures ws[0].kernel in ws[0].pool.words && ws[0].kernel in ws[n].pool.words
    ensures ws[n].pool.words[ws[0].kernel] == ws[0].pool.words[ws[0].kernel]
  {
    hide WorldOk, Next;
    if n == 0 {
      KernelThere(ws[0]);
    } else {
      RunKeepsWorld(ws, steps, n - 1);
      var w, w', step := ws[n - 1], ws[n], steps[n - 1];
      assert Next(w, w', step) by { assert ws[n - 1 + 1] == ws[n]; }
      StepKeepsWorld(w, w', step);
      StepSparesKernel(w, w', step);
      SameKernel(w, w', step);
    }
  }

  lemma SameKernel(w: World, w': World, step: Step)
    requires Next(w, w', step)
    ensures w'.kernel == w.kernel
  {
  }

  lemma KernelThere(w: World)
    requires WorldOk(w)
    ensures w.kernel in w.pool.words
  {
    TagsAreTables(w.pool, w.kernel, w.kernelTags, ENTRIES);
  }

  /** Isolation over whole runs: whatever is done to other spaces and to the kernel's own tree, and
      whatever the programs in other spaces store, a space nothing is done to resolves every user
      address as before, with the same rights, and reads the same byte there; but for the page it
      borrows, where it reads what the kernel publishes. */
  lemma {:induction false} RunSparesOthers(ws: seq<World>, steps: seq<Step>, n: nat, j: nat, a: nat)
    requires IsRun(ws, steps) && n < |ws| && j in ws[0].spaces && a < USER_LIMIT
    requires forall k :: 0 <= k < n ==> Spares(steps[k], j)
    ensures j in ws[n].spaces && ws[n].spaces[j] == ws[0].spaces[j]
    ensures Translate(ws[n].pool.View(), ws[0].spaces[j].root, a) == Translate(ws[0].pool.View(), ws[0].spaces[j].root, a)
    ensures (forall k :: 0 <= k < n ==> !steps[k].Publish?) || !OnBorrowed(ws[0].spaces[j], a) ==>
              ReadByte(ws[n].pool, ws[0].spaces[j].root, a) == ReadByte(ws[0].pool, ws[0].spaces[j].root, a)
  {
    hide WorldOk, Next, Translate, ReadByte, OnBorrowed;
    if n > 0 {
      RunSparesOthers(ws, steps, n - 1, j, a);
      RunKeepsWorld(ws, steps, n - 1);
      assert Next(ws[n - 1], ws[n], steps[n - 1]) by { assert ws[n - 1 + 1] == ws[n]; }
      BystanderOk(ws[n - 1], ws[n], steps[n - 1], j);
    }
  }

  /** What ring 3 may write, nobody else can reach: in every state of a run, the frame of an address
      that is writable in one space is mapped at no other page, of that space or of another, and is
      no page table, of a space or of the kernel. */
  lemma WritableIsPrivate(ws: seq<World>, steps: seq<Step>, n: nat, i: nat, a: nat, j: nat, b: nat)
    requires IsRun(ws, steps) && n < |ws| && i in ws[n].spaces && j in ws[n].spaces && a < USER_LIMIT && b < USER_LIMIT
    requires Permits(ws[n].pool.View(), ws[n].spaces[i].root, a, true)
    requires Translate(ws[n].pool.View(), ws[n].spaces[j].root, b).Some? && (i != j || a / PAGE_SIZE != b / PAGE_SIZE)
    ensures var w := ws[n];
            var f := FrameOf(Translate(w.pool.View(), w.spaces[i].root, a).value);
            && f != FrameOf(Translate(w.pool.View(), w.spaces[j].root, b).value)
            && f in w.pool.held && f !in w.pool.words
  {
    hide WorldOk, Next, Translate, FrameOf, Permits;
    RunKeepsWorld(ws, steps, n);
    WritableIsOwn(ws[n], i, a, j, b);
  }

  lemma WritableIsOwn(w: World, i: nat, a: nat, j: nat, b: nat)
    requires WorldOk(w) && i in w.spaces && j in w.spaces && a < USER_LIMIT && b < USER_LIMIT
    requires Permits(w.pool.View(), w.spaces[i].root, a, true)
    requires Translate(w.pool.View(), w.spaces[j].root, b).Some? && (i != j || a / PAGE_SIZE != b / PAGE_SIZE)
    ensures var f := FrameOf(Translate(w.pool.View(), w.spaces[i].root, a).value);
            && f != FrameOf(Translate(w.pool.View(), w.spaces[j].root, b).value)
            && f in w.pool.held && f !in w.pool.words
  {
    hide Tree, SpaceOk, UpperShared, Translate, Owned, Stored;
    var sp, other := w.spaces[i], w.spaces[j];
    assert SpaceIn(w, i) && SpaceIn(w, j);
    StoreHitsOwn(w.pool, sp, a, 0);
    FlatTranslation(w.pool, sp.root, sp.tags, sp.flat, sp.borrowed, a);
    FlatTranslation(w.pool, other.root, other.tags, other.flat, other.borrowed, b);
    MappedFrame(w.pool, sp.root, sp.tags, sp.flat, sp.borrowed, a / PAGE_SIZE);
    MappedFrame(w.pool, other.root, other.tags, other.flat, other.borrowed, b / PAGE_SIZE);
    FrameAndOffset(sp.flat[a / PAGE_SIZE].frame, a % PAGE_SIZE);
    FrameAndOffset(other.flat[b / PAGE_SIZE].frame, b % PAGE_SIZE);
    TakenHeld(w.pool, sp);
    TakenHeld(w.pool, other);
    if i == j {
      MappedOnce(w.pool, sp, a / PAGE_SIZE, b / PAGE_SIZE);
    } else {
      assert Apart(sp, other);
    }
  }

  lemma MappedOnce(s: Snapshot, sp: Space, v: nat, u: nat)
    requires sp.Ok(s) && v in sp.flat && u in sp.flat && v != u && Some(sp.flat[v].frame) != sp.borrowed
    ensures sp.flat[v].frame != sp.flat[u].frame
  {
  }

  /** A store that the rights allow is a step: the program reads back what it stored, and no other
      address of any space reads differently. */
  lemma StoreIsStep(w: World, i: nat, a: nat, b: byte, j: nat, a': nat)
    requires WorldOk(w) && i in w.spaces && Permits(w.pool.View(), w.spaces[i].root, a, true)
    requires j in w.spaces && a' < USER_LIMIT
    ensures var w' := w.(pool := Stored(w.pool, w.spaces[i].root, a, b));
            && Next(w, w', Store(i, a, b)) && WorldOk(w')
            && ReadByte(w'.pool, w.spaces[j].root, a') ==
               if j == i && a' == a then Some(b) else ReadByte(w.pool, w.spaces[j].root, a')
  {
    hide WorldOk, Next, SpaceOk, Accounts, Stored, Permits, Translate, OnBorrowed, ReadByte;
    var w' := w.(pool := Stored(w.pool, w.spaces[i].root, a, b));
    StoreIsNext(w, i, a, b);
    StepKeepsWorld(w, w', Store(i, a, b));
    if j == i {
      StoreReadsBack(w.pool, w.spaces[i], a, b, a');
    } else {
      BystanderOk(w, w', Store(i, a, b), j);
    }
  }

  lemma StoreIsNext(w: World, i: nat, a: nat, b: byte)
    requires WorldOk(w) && i in w.spaces && Permits(w.pool.View(), w.spaces[i].root, a, true)
    ensures w.spaces[i].Ok(w.pool) && Next(w, w.(pool := Stored(w.pool, w.spaces[i].root, a, b)), Store(i, a, b))
  {
    hide SpaceOk, Tree, Stored, Permits;
    assert SpaceIn(w, i);
    StoreKeepsSpace(w, i, a, b);
  }

  lemma StoreReadsBack(s: Snapshot, sp: Space, a: nat, b: byte, a': nat)
    requires sp.Ok(s) && Permits(s.View(), sp.root, a, true) && a' < USER_LIMIT
    ensures ReadByte(Stored(s, sp.root, a, b), sp.root, a') == if a' == a then Some(b) else ReadByte(s, sp.root, a')
  {
    hide SpaceOk, Translate, Owned, Stored;
    StoreHitsOwn(s, sp, a, b);
    FlatTranslation(s, sp.root, sp.tags, sp.flat, sp.borrowed, a');
    PageFrame(s, sp.root, sp.tags, sp.flat, sp.borrowed, a / PAGE_SIZE);
    if a' / PAGE_SIZE in sp.flat {
      MappedFrame(s, sp.root, sp.tags, sp.flat, sp.borrowed, a' / PAGE_SIZE);
      FrameAndOffset(sp.flat[a' / PAGE_SIZE].frame, a' % PAGE_SIZE);
      if a' / PAGE_SIZE != a / PAGE_SIZE {
        MappedOnce(s, sp, a / PAGE_SIZE, a' / PAGE_SIZE);
      }
    }
  }

  /** The kernel writing a frame that no space took, the clock's for one, is a step. */
  lemma PublishIsStep(w: World, f: nat, content: seq<byte>)
    requires WorldOk(w) && f in w.pool.bytes && Borrowable(w, Some(f)) && |content| == PAGE_SIZE
    ensures var w' := w.(pool := w.pool.(bytes := w.pool.bytes[f := content]));
            Next(w, w', Publish(f, content)) && WorldOk(w')
  {
    hide WorldOk;
    var w' := w.(pool := w.pool.(bytes := w.pool.bytes[f := content]));
    PoolValid(w);
    StepKeepsWorld(w, w', Publish(f, content));
  }

  /** If no kernel slot is open to ring 3 when a run begins, then at every moment of it, in every
      space there then is, ring 3 has no right to any kernel-half address, and the address resolves
      as it does in the kernel's tree. */
  lemma RunKeepsKernelClosed(ws: seq<World>, steps: seq<Step>, n: nat, i: nat, a: nat)
    requires IsRun(ws, steps) && n < |ws| && i in ws[n].spaces && !InReach(a, KERNEL_PML4_FIRST)
    requires ws[0].kernel in ws[0].pool.words && |ws[0].pool.words[ws[0].kernel]| == ENTRIES
    requires OpenSlots(ws[0].pool.words[ws[0].kernel], ENTRIES) == {}
    ensures var w := ws[n];
            var t := Translate(w.pool.View(), w.spaces[i].root, a);
            t == Translate(w.pool.View(), w.kernel, a) && (t.Some? ==> !t.value.rights.user)
  {
    hide WorldOk, Next, Translate, OpenSlots;
    RunKeepsWorld(ws, steps, n);
    PoolValid(ws[n]);
    KernelHalfAgrees(ws[n], i, a);
    ClosedKernelHalf(ws[n].pool, ws[n].kernel, a);
  }

  lemma PoolValid(w: World)
    requires WorldOk(w)
    ensures w.pool.Valid()
  {
  }

  // ---------------------------------------------------------------------------------------
  // The operations are steps
  // ---------------------------------------------------------------------------------------

  ghost function SpaceOf(space: AddressSpace): Space
    reads space
  {
    Space(space.root, space.tags, space.flat, space.borrowed, space.taken)
  }

  /** The object is space `i` of the world, and the world's pool is the one it draws on. */
  ghost predicate Stands(w: World, i: nat, space: AddressSpace)
    reads space, space.frames
  {
    i in w.spaces && w.spaces[i] == SpaceOf(space) && w.pool == space.frames.Now()
  }

  lemma StandsValid(w: World, i: nat, sp: Space)
    requires WorldOk(w) && i in w.spaces && w.spaces[i] == sp
    ensures sp.Ok(w.pool)
  {
    assert SpaceIn(w, i);
  }

  /** The world after a change to space `i`. */
  ghost function After(w: World, i: nat, pool': Snapshot, sp': Space): World {
    w.(pool := pool', spaces := w.spaces[i := sp'])
  }

  lemma ChangeHappened(w: World, i: nat, pool': Snapshot, sp': Space)
    requires WorldOk(w) && i in w.spaces && Changed(w, pool', w.spaces[i], sp')
    ensures Next(w, After(w, i, pool', sp'), Change(i)) && WorldOk(After(w, i, pool', sp'))
  {
    hide Isolated, WorldOk, SpaceOk;
    var w' := After(w, i, pool', sp');
    SpaceValid(pool', sp'.root, sp'.tags, sp'.flat, sp'.borrowed);
    StepKeepsWorld(w, w', Change(i));
  }

  /** `map` of a frame the space took, or of the one it borrows, is one change to its space. */
  method MapStep(space: AddressSpace, virt: nat, phys: nat, rights: Rights, ghost w: World, ghost i: nat)
    returns (r: Result<(), SpaceError>, ghost w': World)
    requires WorldOk(w) && Stands(w, i, space) && virt % PAGE_SIZE == 0 && virt < USER_LIMIT
    requires phys in space.frames.bytes && forall v :: v in space.flat ==> space.flat[v].frame != phys
    requires phys in space.taken || Some(phys) == space.borrowed
    requires Some(phys) == space.borrowed ==> virt == USER_CLOCK_VA && !rights.write
    modifies space, space.frames
    ensures Next(w, w', Change(i)) && WorldOk(w') && Stands(w', i, space)
  {
    hide WorldOk, SpaceOk, Accounts, Isolated, Took, Grew, Owned, Next, Changed, Displaced, Own;
    StandsValid(w, i, SpaceOf(space));
    r := space.Map(virt, phys, rights);
    GrewIsIsolated(w.pool, w.spaces[i].tags, space.frames.Now(), space.tags, space.root);
    OperationIsChange(w, space.frames.Now(), w.spaces[i], SpaceOf(space));
    w' := After(w, i, space.frames.Now(), SpaceOf(space));
    ChangeHappened(w, i, space.frames.Now(), SpaceOf(space));
  }

  /** `load`, finished or stopped anywhere, is one change to its space. */
  method LoadStep(space: AddressSpace, elf: Elf64.Elf, ghost w: World, ghost i: nat)
    returns (r: Result<(), SpaceError>, ghost w': World)
    requires WorldOk(w) && Stands(w, i, space) && elf.Valid()
    modifies space, space.frames
    ensures Next(w, w', Change(i)) && WorldOk(w') && Stands(w', i, space)
  {
    hide WorldOk, SpaceOk, Accounts, Isolated, Took, Owned, Next, Changed, LostIff, Loaded, Gained, FirstFault;
    StandsValid(w, i, SpaceOf(space));
    r := space.Load(elf);
    OperationIsChange(w, space.frames.Now(), w.spaces[i], SpaceOf(space));
    w' := After(w, i, space.frames.Now(), SpaceOf(space));
    ChangeHappened(w, i, space.frames.Now(), SpaceOf(space));
  }

  /** So is `map_stack`. */
  method MapStackStep(space: AddressSpace, ghost w: World, ghost i: nat) returns (r: Result<(), SpaceError>, ghost w': World)
    requires WorldOk(w) && Stands(w, i, space)
    modifies space, space.frames
    ensures Next(w, w', Change(i)) && WorldOk(w') && Stands(w', i, space)
  {
    hide WorldOk, SpaceOk, Accounts, Isolated, Took, Owned, Next, Changed, Added, Displaced;
    StandsValid(w, i, SpaceOf(space));
    r := space.MapStack();
    OperationIsChange(w, space.frames.Now(), w.spaces[i], SpaceOf(space));
    w' := After(w, i, space.frames.Now(), SpaceOf(space));
    ChangeHappened(w, i, space.frames.Now(), SpaceOf(space));
  }

  /** So is `seed_id`. */
  method SeedIdStep(space: AddressSpace, id: byte, ghost w: World, ghost i: nat)
    returns (r: Result<(), SpaceError>, ghost w': World)
    requires WorldOk(w) && Stands(w, i, space)
    modifies space, space.frames
    ensures Next(w, w', Change(i)) && WorldOk(w') && Stands(w', i, space)
  {
    hide WorldOk, SpaceOk, Accounts, Isolated, Took, Owned, Next, Changed, Added, Displaced;
    StandsValid(w, i, SpaceOf(space));
    r := space.SeedId(id);
    OperationIsChange(w, space.frames.Now(), w.spaces[i], SpaceOf(space));
    w' := After(w, i, space.frames.Now(), SpaceOf(space));
    ChangeHappened(w, i, space.frames.Now(), SpaceOf(space));
  }

  /** And `map_clock`, of a frame of the kernel's, whether or not the space has one already. */
  method MapClockStep(space: AddressSpace, frame: nat, ghost w: World, ghost i: nat)
    returns (r: Result<(), SpaceError>, ghost w': World)
    requires WorldOk(w) && Stands(w, i, space) && Borrowable(w, Some(frame))
    modifies space, space.frames
    ensures Next(w, w', Change(i)) && WorldOk(w') && Stands(w', i, space)
  {
    hide WorldOk, SpaceOk, Isolated, Took, Next, Changed, Displaced;
    StandsValid(w, i, SpaceOf(space));
    r := space.MapClock(frame);
    OperationIsChange(w, space.frames.Now(), w.spaces[i], SpaceOf(space));
    w' := After(w, i, space.frames.Now(), SpaceOf(space));
    ChangeHappened(w, i, space.frames.Now(), SpaceOf(space));
  }

  /** `new` adds an empty space to the world, or changes nothing. */
  method NewSpaceStep(frames: Frames, gibPages: bool, kernelRoot: nat, ghost w: World, ghost i: nat)
    returns (r: Result<AddressSpace, SpaceError>, ghost w': World)
    requires WorldOk(w) && w.pool == frames.Now() && w.kernel == kernelRoot && i !in w.spaces
    modifies frames
    ensures WorldOk(w') && w'.pool == frames.Now()
    ensures r.Ok? ==> r.value.frames == frames && Next(w, w', Create(i)) && Stands(w', i, r.value)
    ensures r.Err? ==> w' == w
  {
    hide WorldOk, SpaceOk, Accounts, Isolated, Took, Owned, UpperShared, Created;
    KernelThere(w);
    PoolValid(w);
    r := NewSpace(frames, kernelRoot, gibPages);
    if r.Err? {
      return r, w;
    }
    var sp := SpaceOf(r.value);
    w' := After(w, i, frames.Now(), sp);
    SpaceValid(frames.Now(), sp.root, sp.tags, sp.flat, sp.borrowed);
    ConstructionIsCreate(w, frames.Now(), sp);
    StepKeepsWorld(w, w', Create(i));
  }

  /** `build_space` adds a space to the world, or is abandoned and leaves the ones there are. */
  method BuildStep(frames: Frames, gibPages: bool, image: seq<byte>, id: byte, clock: nat, ghost w: World, kernelRoot: nat, ghost i: nat)
    returns (r: Result<AddressSpace, SpaceError>, ghost w': World)
    requires WorldOk(w) && w.pool == frames.Now() && w.kernel == kernelRoot && i !in w.spaces
    requires Borrowable(w, Some(clock)) && |image| <= U64_MAX
    modifies frames
    ensures WorldOk(w') && w'.pool == frames.Now()
    ensures r.Ok? ==> r.value.frames == frames && Next(w, w', Create(i)) && Stands(w', i, r.value)
    ensures r.Err? ==> Next(w, w', Abandon)
  {
    hide WorldOk, SpaceOk, Accounts, Isolated, Took, Spared, Owned, UpperShared, Created, Disjoint, Complete, FirstFault, Elf64.Parse;
    KernelThere(w);
    PoolValid(w);
    r := BuildSpace(frames, kernelRoot, gibPages, image, id, clock);
    if r.Ok? {
      var sp := SpaceOf(r.value);
      w' := After(w, i, frames.Now(), sp);
      SpaceValid(frames.Now(), sp.root, sp.tags, sp.flat, sp.borrowed);
      BuiltBorrows(frames.Now(), sp.flat, sp.borrowed, Elf64.Parse(image).value, id, clock);
      ConstructionIsCreate(w, frames.Now(), sp);
      StepKeepsWorld(w, w', Create(i));
    } else {
      w' := w.(pool := frames.Now());
      StepKeepsWorld(w, w', Abandon);
    }
  }

  lemma BuiltBorrows(s: Snapshot, flat: Flat, borrowed: Option<nat>, elf: Elf64.Elf, id: byte, clock: nat)
    requires Complete(s, flat, borrowed, elf, id, clock)
    ensures borrowed == Some(clock)
  {
  }

  /** `destroy` takes its space out of the world. */
  method DestroyStep(space: AddressSpace, ghost w: World, ghost i: nat) returns (freed: nat, ghost w': World)
    requires WorldOk(w) && Stands(w, i, space)
    modifies space.frames
    ensures freed == |w.spaces[i].Own()| && Next(w, w', Destroy(i)) && WorldOk(w') && w'.pool == space.frames.Now()
  {
    hide WorldOk, SpaceOk, Released, Owned;
    StandsValid(w, i, SpaceOf(space));
    freed := space.Destroy();
    w' := w.(pool := space.frames.Now(), spaces := w.spaces - {i});
    StepKeepsWorld(w, w', Destroy(i));
  }

  /** The space resolves every address of the kernel half as the kernel does. */
  ghost predicate SeesKernel(w: World, i: nat)
    requires i in w.spaces
  {
    forall a: nat :: !InReach(a, KERNEL_PML4_FIRST) ==>
      Translate(w.pool.View(), w.spaces[i].root, a) == Translate(w.pool.View(), w.kernel, a)
  }

  /** The kernel mapping memory in its own tree. Under root slots that are taken, and open to ring 3 if
      the mapping is to be, no entry of the root changes and every space goes on sharing them. Under
      any other slot of the kernel half, each space there is already resolves some address otherwise
      than the kernel: so the kernel's half must be complete before the first of them. */
  method KernelMapStep(frames: Frames, kernelRoot: nat, gibPages: bool, virt: nat, phys: nat, size: nat, rights: Rights,
                       memoryType: MemoryType, ghost w: World)
    returns (r: Result<(), MapError>, ghost w': World)
    requires WorldOk(w) && w.pool == frames.Now() && w.kernel == kernelRoot
    requires phys + size <= PHYS_LIMIT && virt % VIRT_SPAN + size <= VIRT_SPAN
    modifies frames
    ensures w'.pool == frames.Now() && w'.spaces == w.spaces && w'.kernel == w.kernel
    ensures RootSlotsTaken(w.pool, kernelRoot, virt, size, rights.user) ==> Next(w, w', KernelMap) && WorldOk(w')
    ensures r.Ok? && KERNEL_PML4_FIRST * Span(3) <= virt % VIRT_SPAN ==>
              forall i :: i in w.spaces ==>
                (SeesKernel(w', i) <==> RootSlotsTaken(w.pool, kernelRoot, virt, size, rights.user))
  {
    hide WorldOk, Tree, Tight, Grew, Mapped, LeafInstalled, SameWalks, RootSlotsTaken, CoveredByLarge, SeesKernel;
    KernelThere(w);
    KernelTree(w);
    var mapper := new Mapper.Adopt(kernelRoot, frames, gibPages, ENTRIES, w.kernelTags);
    ghost var mapped: nat;
    r, mapped := mapper.MapAs(virt, phys, size, rights, memoryType);
    w' := w.(pool := frames.Now(), kernelTags := mapper.tags);
    if RootSlotsTaken(w.pool, kernelRoot, virt, size, rights.user) {
      StepKeepsWorld(w, w', KernelMap);
      AllSeeKernel(w');
    } else if r.Ok? && KERNEL_PML4_FIRST * Span(3) <= virt % VIRT_SPAN {
      forall i | i in w.spaces
        ensures !SeesKernel(w', i)
      {
        NewSlotIsUnseen(w, w', i, virt, phys, size, rights, memoryType);
      }
    }
  }

  lemma AllSeeKernel(w: World)
    requires WorldOk(w)
    ensures forall i :: i in w.spaces ==> SeesKernel(w, i)
  {
    hide WorldOk, Translate;
    forall i, a: nat | i in w.spaces && !InReach(a, KERNEL_PML4_FIRST)
      ensures Translate(w.pool.View(), w.spaces[i].root, a) == Translate(w.pool.View(), w.kernel, a)
    {
      KernelHalfAgrees(w, i, a);
    }
  }

  lemma NewSlotIsUnseen(w: World, w': World, i: nat, virt: nat, phys: nat, size: nat, rights: Rights, memoryType: MemoryType)
    requires WorldOk(w) && i in w.spaces && w'.spaces == w.spaces && w'.kernel == w.kernel && w'.pool.Valid()
    requires Grew(w.pool, w.kernelTags, w'.pool, w'.kernelTags, w.kernel, ENTRIES)
    requires Mapped(w.pool.View(), w'.pool.View(), w.kernel, ENTRIES, virt % VIRT_SPAN, phys, size, rights, memoryType)
    requires KERNEL_PML4_FIRST * Span(3) <= virt % VIRT_SPAN && virt % VIRT_SPAN + size <= VIRT_SPAN
    requires !RootSlotsTaken(w.pool, w.kernel, virt, size, rights.user)
    ensures !SeesKernel(w', i)
  {
    hide WorldOk, Mapped, Grew, RootSlotTaken, Translate, SeesKernel;
    var a: nat :| virt <= a < virt + size && !RootSlotTaken(w.pool, w.kernel, a, rights.user);
    var b := virt % VIRT_SPAN + (a - virt);
    SameSlot(w.pool, w.kernel, virt, a, rights.user);
    KernelResolves(w.pool.View(), w'.pool.View(), w.kernel, virt % VIRT_SPAN, phys, size, rights, memoryType, b);
    SpaceDoesNot(w, w', i, b, rights.user);
    ReachIsPrefix(b, KERNEL_PML4_FIRST);
    Differs(w', i, b);
  }

  lemma SameSlot(s: Snapshot, root: nat, virt: nat, a: nat, user: bool)
    requires virt <= a
    ensures RootSlotTaken(s, root, virt % VIRT_SPAN + (a - virt), user) <==> RootSlotTaken(s, root, a, user)
  {
    var b := virt % VIRT_SPAN + (a - virt);
    assert a % VIRT_SPAN == b % VIRT_SPAN;
    IndexOfResidue(a, 3);
    IndexOfResidue(b, 3);
  }

  lemma KernelResolves(mem: Tables, mem': Tables, root: nat, v: nat, phys: nat, size: nat, rights: Rights,
                       memoryType: MemoryType, b: nat)
    requires Mapped(mem, mem', root, ENTRIES, v, phys, size, rights, memoryType) && v <= b < v + size && b < VIRT_SPAN
    ensures Translate(mem', root, b).Some? && Translate(mem', root, b).value.rights == rights
  {
    hide Translate;
    ReachIsPrefix(b, ENTRIES);
    assert MapsTo(Translate(mem', root, b), phys + (b - v), rights, memoryType);
  }

  lemma SpaceDoesNot(w: World, w': World, i: nat, b: nat, user: bool)
    requires WorldOk(w) && i in w.spaces && w'.pool.Valid()
    requires Grew(w.pool, w.kernelTags, w'.pool, w'.kernelTags, w.kernel, ENTRIES)
    requires !RootSlotTaken(w.pool, w.kernel, b, user) && KERNEL_PML4_FIRST * Span(3) <= b < VIRT_SPAN
    ensures var t := Translate(w'.pool.View(), w.spaces[i].root, b);
            t.None? || (user && !t.value.rights.user)
  {
    hide Tree, SpaceOk;
    var root, k := w.spaces[i].root, Index(b, 3);
    assert SpaceIn(w, i);
    ReachIsPrefix(b, KERNEL_PML4_FIRST);
    RootTagged(w.pool, root, w.spaces[i].tags, w.spaces[i].flat, w.spaces[i].borrowed);
    UpperEntry(w.pool, root, w.kernel, k);
    var e := w'.pool.View()[root][k];
    assert e == Decode(w.pool.words[w.kernel][k]);
    if e.present && !IsLeaf(3, e) {
      NeverGainsUser(w'.pool.View(), e.addr, 2, b, ALL.Intersect(e.GetRights()));
    }
  }

  lemma Differs(w: World, i: nat, b: nat)
    requires i in w.spaces && !InReach(b, KERNEL_PML4_FIRST)
    requires Translate(w.pool.View(), w.spaces[i].root, b) != Translate(w.pool.View(), w.kernel, b)
    ensures !SeesKernel(w, i)
  {
  }

  lemma KernelTree(w: World)
    requires WorldOk(w)
    ensures w.pool.Valid() && Tree(w.pool.View(), w.kernel, w.kernelTags, ENTRIES)
  {
  }
}
