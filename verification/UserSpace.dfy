/** A whole ring-3 space: built around an image, seeded, and given back. */
module UserSpaces {
  import opened Basics
  import opened Entries
  import opened PageTree
  import opened FramePool
  import opened SpaceTheory
  import opened Loading
  import opened AddressSpaces
  import Elf64

  const STACK_PAGE: nat := 0x7_FFFF
  const DATA_PAGE: nat := 0x40_0000

  /** The pages the kernel itself places in every space. */
  ghost function FixedPages(): set<nat> {
    {STACK_PAGE, DATA_PAGE, CLOCK_PAGE}
  }

  /** A space under construction since the pool was `s0`: what it took is what the pool lost, it
      touched nothing of anyone else's, and its upper half is the kernel's. */
  ghost predicate Grown(s0: Snapshot, s: Snapshot, tags: Tags, taken: set<nat>, root: nat, kernelRoot: nat) {
    && s0.Valid() && kernelRoot in s0.words && root in taken
    && Took(s0, {}, s, taken)
    && Isolated(s0, map[], s, tags, root)
    && UpperShared(s, root, kernelRoot)
  }

  lemma GrownStep(s0: Snapshot, s: Snapshot, tags: Tags, taken: set<nat>, s': Snapshot, tags': Tags, taken': set<nat>,
                  root: nat, kernelRoot: nat)
    requires Grown(s0, s, tags, taken, root, kernelRoot)
    requires Isolated(s, tags, s', tags', root) && Took(s, taken, s', taken')
    ensures Grown(s0, s', tags', taken', root, kernelRoot)
  {
    TookTwice(s0, {}, s, taken, s', taken');
    IsolatedTwice(s0, map[], s, tags, s', tags', root);
    assert kernelRoot !in tags;
  }

  /** A construction that stops half way has touched nothing in use, and what it took is gone. */
  lemma StoppedSpares(s0: Snapshot, s: Snapshot, tags: Tags, taken: set<nat>, root: nat, kernelRoot: nat)
    requires Grown(s0, s, tags, taken, root, kernelRoot)
    ensures Spared(s0, s) && s.free == s0.free - taken && s.free != s0.free && s0.free != {}
  {
    hide UpperShared;
    assert taken - {} == taken;
  }

  lemma SparedNone(s: Snapshot)
    ensures Spared(s, s)
  {
  }

  /** Nothing a growing space took or maps is a frame that was in use when it was begun. */
  lemma GrownIsFresh(s0: Snapshot, s: Snapshot, tags: Tags, flat: Flat, taken: set<nat>, root: nat, kernelRoot: nat, f: nat)
    requires Grown(s0, s, tags, taken, root, kernelRoot) && f in s0.bytes && Owned(tags, flat, None) <= taken
    ensures f in s.bytes && f !in taken && forall v :: v in flat ==> flat[v].frame != f
  {
    assert f !in taken - {};
    forall v | v in flat
      ensures flat[v].frame != f
    {
      assert flat[v].frame in Data(flat, None);
    }
  }

  /** Page `v` has these rights and holds these bytes. */
  ghost predicate Holds(s: Snapshot, flat: Flat, v: nat, rights: Rights, content: seq<byte>)
    requires |content| <= PAGE_SIZE
  {
    v in flat && flat[v].rights == rights && flat[v].frame in s.bytes && s.bytes[flat[v].frame] == Padded(content)
  }

  lemma StillHolds(s: Snapshot, tags: Tags, flat: Flat, s': Snapshot, tags': Tags, flat': Flat, root: nat, v: nat,
                   rights: Rights, content: seq<byte>)
    requires |content| <= PAGE_SIZE && Isolated(s, tags, s', tags', root) && Holds(s, flat, v, rights, content)
    requires v in flat' && flat'[v] == flat[v]
    ensures Holds(s', flat', v, rights, content)
  {
  }

  /** The image survives a page mapped after it, and none of it is the borrowed frame. */
  lemma ImageStays(s: Snapshot, tags: Tags, flat: Flat, borrowed: Option<nat>, s': Snapshot, tags': Tags, flat': Flat,
                   borrowed': Option<nat>, root: nat, elf: Elf64.Elf, over: set<nat>, v: nat)
    requires Isolated(s, tags, s', tags', root) && Loaded(s, flat, borrowed, elf, elf.phnum, over)
    requires forall w :: w in flat && w != v ==> w in flat' && flat'[w] == flat[w] && Some(flat[w].frame) != borrowed'
    ensures Loaded(s', flat', borrowed', elf, elf.phnum, over + {v})
  {
    hide Isolated, Elf64.HeaderAt, Elf64.Nth, PageLoaded;
    forall i: nat, w: nat | w !in over + {v} && Wins(elf, elf.phnum, i, w)
      ensures WonBy(s', flat', borrowed', elf, i, w)
    {
      assert Claims(elf, i, w);
      assert WonBy(s, flat, borrowed, elf, i, w);
      StillWon(s, tags, flat, borrowed, s', tags', flat', borrowed', root, Elf64.Nth(elf, i).segment, w);
    }
  }

  lemma StillWon(s: Snapshot, tags: Tags, flat: Flat, borrowed: Option<nat>, s': Snapshot, tags': Tags, flat': Flat,
                 borrowed': Option<nat>, root: nat, segment: Elf64.Segment, v: nat)
    requires Isolated(s, tags, s', tags', root) && segment.vaddr / PAGE_SIZE <= v
    requires PageLoaded(s, flat, borrowed, segment, v - segment.vaddr / PAGE_SIZE)
    requires v in flat ==> v in flat' && flat'[v] == flat[v] && Some(flat[v].frame) != borrowed'
    ensures PageLoaded(s', flat', borrowed', segment, v - segment.vaddr / PAGE_SIZE)
  {
  }

  /** Everything a finished space is: the image but for what the three fixed pages cover, those
      pages, and no other page; and every page but the clock's is the space's own. */
  ghost predicate Complete(s: Snapshot, flat: Flat, borrowed: Option<nat>, elf: Elf64.Elf, id: byte, clock: nat) {
    && Loaded(s, flat, borrowed, elf, elf.phnum, FixedPages())
    && Holds(s, flat, STACK_PAGE, ToUser(RW), [])
    && Holds(s, flat, DATA_PAGE, ToUser(RW), [id])
    && CLOCK_PAGE in flat && flat[CLOCK_PAGE] == Page(clock, ToUser(RO)) && borrowed == Some(clock)
    && (forall v :: v in flat <==> v in FixedPages() || Claimed(elf, elf.phnum, v))
    && (forall v :: v in flat && v != CLOCK_PAGE ==> flat[v].frame != clock)
  }

  /** What `build_space` made of the pool `s0` when it succeeded: a space complete in every page, which
      has lost a frame exactly if two headers claim one page, or one claims a fixed page. */
  ghost predicate Built(s0: Snapshot, s: Snapshot, space: AddressSpace, kernelRoot: nat, elf: Elf64.Elf, id: byte, clock: nat)
    reads space
  {
    && Grown(s0, s, space.tags, space.taken, space.root, kernelRoot)
    && Complete(s, space.flat, space.borrowed, elf, id, clock)
    && (space.Lost() == {} <==> Disjoint(elf, elf.phnum, FixedPages()))
  }

  /** `build_space`. It fails when the image is not one, is at fault, or the pool runs out. What a
      failed construction took is not given back: the pool is as it was exactly if the image was no
      image or there was no frame for a root. */
  method BuildSpace(frames: Frames, kernelRoot: nat, gibPages: bool, image: seq<byte>, id: byte, clock: nat)
    returns (r: Result<AddressSpace, SpaceError>)
    requires frames.Valid() && kernelRoot in frames.words && clock in frames.bytes && |image| <= U64_MAX
    modifies frames
    ensures frames.Valid() && (r.Err? ==> Spared(old(frames.Now()), frames.Now()))
    ensures r.Err? ==> (frames.free == old(frames.free) <==> Elf64.Parse(image).Err? || old(frames.free) == {})
    ensures r.Err? ==>
              || PoolEmpty(r.error, frames.Now())
              || match Elf64.Parse(image) { case Err(e) => r.error == BadImage(e) case Ok(elf) => FirstFault(elf, 0) == Some(r.error) }
    ensures r.Ok? ==>
              && Elf64.Parse(image).Ok? && FirstFault(Elf64.Parse(image).value, 0).None?
              && fresh(r.value) && r.value.frames == frames && r.value.Valid()
              && r.value.entry == Elf64.Parse(image).value.entry
              && Built(old(frames.Now()), frames.Now(), r.value, kernelRoot, Elf64.Parse(image).value, id, clock)
  {
    hide SpaceOk, Isolated, Took, Spared, UpperShared, Loaded, Gained, LostIff, Disjoint, Grown, Owned, Accounts, Built, Data,
         FirstFault, Snapshot.Valid, Elf64.Parse;
    var parsed := Elf64.Parse(image);
    if parsed.Err? {
      SparedNone(frames.Now());
      return Err(BadImage(parsed.error));
    }
    var elf := parsed.value;
    ghost var s0 := frames.Now();
    var made := NewSpace(frames, kernelRoot, gibPages);
    if made.Err? {
      SparedNone(s0);
      return Err(NoFrame);
    }
    var space := made.value;
    Begun(s0, frames.Now(), space.tags, space.root, kernelRoot);
    ghost var s, tags, taken := frames.Now(), space.tags, space.taken;
    ParsedIsValid(image);
    assert space.Lost() == {};
    var loaded := space.Load(elf);
    SpaceValid(frames.Now(), space.root, space.tags, space.flat, space.borrowed);
    GrownStep(s0, s, tags, taken, frames.Now(), space.tags, space.taken, space.root, kernelRoot);
    if loaded.Err? {
      StoppedSpares(s0, frames.Now(), space.tags, space.taken, space.root, kernelRoot);
      return Err(loaded.error);
    }
    var fixed := MapFixed(space, id, clock, s0, kernelRoot, elf);
    SpaceValid(frames.Now(), space.root, space.tags, space.flat, space.borrowed);
    if fixed.Err? {
      StoppedSpares(s0, frames.Now(), space.tags, space.taken, space.root, kernelRoot);
      return Err(fixed.error);
    }
    return Ok(space);
  }

  /** The pages every space gets, over whatever the image put there. */
  method MapFixed(space: AddressSpace, id: byte, clock: nat, ghost s0: Snapshot, ghost kernelRoot: nat, ghost elf: Elf64.Elf)
    returns (r: Result<(), SpaceError>)
    requires space.Valid() && Grown(s0, space.frames.Now(), space.tags, space.taken, space.root, kernelRoot)
    requires clock in s0.bytes && space.borrowed == None
    requires Loaded(space.frames.Now(), space.flat, None, elf, elf.phnum, {}) && Gained(map[], space.flat, elf, elf.phnum)
    requires LostIff({}, space.Lost(), map[], None, elf, elf.phnum)
    modifies space, space.frames
    ensures space.Valid() && space.entry == old(space.entry)
    ensures Grown(s0, space.frames.Now(), space.tags, space.taken, space.root, kernelRoot)
    ensures r.Err? ==> PoolEmpty(r.error, space.frames.Now())
    ensures r.Ok? ==> Built(s0, space.frames.Now(), space, kernelRoot, elf, id, clock)
  {
    hide SpaceOk, Isolated, Took, Added, Loaded, Gained, LostIff, Disjoint, Grown, Owned, Accounts, Displaced, Complete;
    ghost var s1, tags1, flat1, taken1, lost1 := space.frames.Now(), space.tags, space.flat, space.taken, space.Lost();
    r := space.MapStack();
    GrownStep(s0, s1, tags1, taken1, space.frames.Now(), space.tags, space.taken, space.root, kernelRoot);
    if r.Err? {
      return;
    }
    ghost var s2, tags2, flat2, taken2 := space.frames.Now(), space.tags, space.flat, space.taken;
    r := space.SeedId(id);
    GrownStep(s0, s2, tags2, taken2, space.frames.Now(), space.tags, space.taken, space.root, kernelRoot);
    if r.Err? {
      return;
    }
    ghost var s3, tags3, flat3, taken3 := space.frames.Now(), space.tags, space.flat, space.taken;
    OnTheBooks(s3, tags3, flat3, None, taken3);
    GrownIsFresh(s0, s3, tags3, flat3, taken3, space.root, kernelRoot, clock);
    r := space.MapClock(clock);
    GrownStep(s0, s3, tags3, taken3, space.frames.Now(), space.tags, space.taken, space.root, kernelRoot);
    if r.Err? {
      return;
    }
    Finished(s1, tags1, flat1, s2, tags2, flat2, s3, tags3, flat3, space.frames.Now(), space.tags, space.flat,
             space.root, elf, id, clock);
    FinishedLost(s1, flat1, s2, flat2, s3, flat3, elf, id, clock, lost1);
  }

  lemma OnTheBooks(s: Snapshot, tags: Tags, flat: Flat, borrowed: Option<nat>, taken: set<nat>)
    requires Accounts(s, tags, flat, borrowed, taken)
    ensures Owned(tags, flat, borrowed) <= taken
  {
  }

  lemma ParsedIsValid(image: seq<byte>)
    requires |image| <= U64_MAX && Elf64.Parse(image).Ok?
    ensures Elf64.Parse(image).value.Valid()
  {
  }

  lemma Begun(s0: Snapshot, s: Snapshot, tags: Tags, root: nat, kernelRoot: nat)
    requires s0.Valid() && kernelRoot in s0.words
    requires Took(s0, {}, s, {root}) && Isolated(s0, map[], s, tags, root) && UpperShared(s, root, kernelRoot)
    ensures Grown(s0, s, tags, {root}, root, kernelRoot)
  {
  }

  lemma Finished(s1: Snapshot, tags1: Tags, flat1: Flat, s2: Snapshot, tags2: Tags, flat2: Flat,
                 s3: Snapshot, tags3: Tags, flat3: Flat, s4: Snapshot, tags4: Tags, flat4: Flat,
                 root: nat, elf: Elf64.Elf, id: byte, clock: nat)
    requires Loaded(s1, flat1, None, elf, elf.phnum, {}) && Gained(map[], flat1, elf, elf.phnum)
    requires Isolated(s1, tags1, s2, tags2, root) && Added(s1, flat1, s2, flat2, None, USER_STACK, [], ToUser(RW))
    requires Isolated(s2, tags2, s3, tags3, root) && Added(s2, flat2, s3, flat3, None, USER_DATA_VA, [id], ToUser(RW))
    requires Isolated(s3, tags3, s4, tags4, root) && flat4 == flat3[CLOCK_PAGE := Page(clock, ToUser(RO))]
    requires forall v :: v in flat3 ==> flat3[v].frame != clock
    ensures Complete(s4, flat4, Some(clock), elf, id, clock)
  {
    hide Isolated, Loaded, Claimed;
    ImageStays(s1, tags1, flat1, None, s2, tags2, flat2, None, root, elf, {}, STACK_PAGE);
    ImageStays(s2, tags2, flat2, None, s3, tags3, flat3, None, root, elf, {} + {STACK_PAGE}, DATA_PAGE);
    ImageStays(s3, tags3, flat3, None, s4, tags4, flat4, Some(clock), root, elf, {} + {STACK_PAGE} + {DATA_PAGE}, CLOCK_PAGE);
    assert {} + {STACK_PAGE} + {DATA_PAGE} + {CLOCK_PAGE} == FixedPages();
    assert Holds(s2, flat2, STACK_PAGE, ToUser(RW), []);
    StillHolds(s2, tags2, flat2, s3, tags3, flat3, root, STACK_PAGE, ToUser(RW), []);
    StillHolds(s3, tags3, flat3, s4, tags4, flat4, root, STACK_PAGE, ToUser(RW), []);
    StillHolds(s3, tags3, flat3, s4, tags4, flat4, root, DATA_PAGE, ToUser(RW), [id]);
  }

  /** A frame is lost when the image is loaded, or when a fixed page is put over one of its pages. */
  lemma FinishedLost(s1: Snapshot, flat1: Flat, s2: Snapshot, flat2: Flat, s3: Snapshot, flat3: Flat,
                     elf: Elf64.Elf, id: byte, clock: nat, lost: set<nat>)
    requires Gained(map[], flat1, elf, elf.phnum) && LostIff({}, lost, map[], None, elf, elf.phnum)
    requires Added(s1, flat1, s2, flat2, None, USER_STACK, [], ToUser(RW))
    requires Added(s2, flat2, s3, flat3, None, USER_DATA_VA, [id], ToUser(RW))
    requires forall v :: v in flat3 ==> flat3[v].frame != clock
    ensures lost + Displaced(flat1, None, STACK_PAGE) + Displaced(flat2, None, DATA_PAGE) + Displaced(flat3, None, CLOCK_PAGE) == {}
            <==> Disjoint(elf, elf.phnum, FixedPages())
  {
    hide Elf64.HeaderAt, Elf64.Nth, Claims, Claimed, Disjoint;
    DisjointParts(elf, elf.phnum);
    assert OwnPages(map[], None) == {};
    assert Displaced(flat1, None, STACK_PAGE) == {} <==> !Claimed(elf, elf.phnum, STACK_PAGE);
    assert Displaced(flat2, None, DATA_PAGE) == {} <==> !Claimed(elf, elf.phnum, DATA_PAGE);
    assert Displaced(flat3, None, CLOCK_PAGE) == {} <==> !Claimed(elf, elf.phnum, CLOCK_PAGE);
  }

  lemma DisjointParts(elf: Elf64.Elf, n: nat)
    ensures Disjoint(elf, n, FixedPages()) <==>
            && Disjoint(elf, n, {})
            && !Claimed(elf, n, STACK_PAGE) && !Claimed(elf, n, DATA_PAGE) && !Claimed(elf, n, CLOCK_PAGE)
  {
    hide Elf64.HeaderAt, Elf64.Nth, Claims;
  }

  /** Ring 3 finds every byte of every segment of an image that claims no page twice and no fixed one. */
  lemma WholeImage(s: Snapshot, root: nat, tags: Tags, flat: Flat, borrowed: Option<nat>, elf: Elf64.Elf, id: byte, clock: nat,
                   i: nat, segment: Elf64.Segment, k: nat)
    requires SpaceOk(s, root, tags, flat, borrowed) && Complete(s, flat, borrowed, elf, id, clock)
    requires FirstFault(elf, 0).None? && Disjoint(elf, elf.phnum, FixedPages())
    requires i < elf.phnum && Elf64.Nth(elf, i) == Elf64.Loadable(segment) && k < segment.Pages() * PAGE_SIZE
    ensures Delivers(s, root, Owned(tags, flat, borrowed), segment, k)
  {
    hide SpaceOk, Elf64.HeaderAt, Elf64.Nth, Delivers, Loaded, Owned, Wins, Disjoint;
    var v := segment.vaddr / PAGE_SIZE + k / PAGE_SIZE;
    NoFault(elf, i);
    assert Claims(elf, i, v);
    DisjointWins(elf, elf.phnum, FixedPages(), i, v);
    ImageByte(s, root, tags, flat, borrowed, elf, FixedPages(), i, segment, k);
  }

  /** And a range check lets it: every byte of every segment passes for reading, and for writing exactly
      where the segment is writable. */
  lemma ImagePasses(s: Snapshot, root: nat, tags: Tags, flat: Flat, borrowed: Option<nat>, elf: Elf64.Elf, id: byte, clock: nat,
                    i: nat, segment: Elf64.Segment, k: nat)
    requires SpaceOk(s, root, tags, flat, borrowed) && Complete(s, flat, borrowed, elf, id, clock)
    requires FirstFault(elf, 0).None? && Disjoint(elf, elf.phnum, FixedPages())
    requires i < elf.phnum && Elf64.Nth(elf, i) == Elf64.Loadable(segment) && k < segment.memsz
    ensures Touchable(Translate(s.View(), root, segment.vaddr + k), segment.vaddr + k, false)
    ensures Touchable(Translate(s.View(), root, segment.vaddr + k), segment.vaddr + k, true) <==> segment.rights.write
  {
    hide SpaceOk, Elf64.HeaderAt, Elf64.Nth, Loaded, Owned, Wins, Disjoint, Translate, Complete, ReadByte;
    InPages(segment.memsz, k);
    WholeImage(s, root, tags, flat, borrowed, elf, id, clock, i, segment, k);
    NoFault(elf, i);
  }

  lemma InPages(memsz: nat, k: nat)
    requires k < memsz
    ensures k < (memsz + 0xFFF) / 0x1000 * 0x1000
  {
  }

  /** Ring 3 reads `b` at `a`, with these effective rights. */
  ghost predicate Seen(s: Snapshot, root: nat, a: nat, write: bool, exec: bool, b: byte) {
    var t := Translate(s.View(), root, a);
    && t.Some? && t.value.rights.write == write && t.value.rights.exec == exec && t.value.rights.user
    && ReadByte(s, root, a) == Some(b)
  }

  /** Where the fixed pages are and what is on them: a stack of zeros below 0x8000_0000, the id at 16 GiB,
      both to write and not to execute; and the clock 16 pages above the id, only to read. */
  lemma FixedPagesAre(s: Snapshot, root: nat, tags: Tags, flat: Flat, borrowed: Option<nat>, elf: Elf64.Elf, id: byte, clock: nat,
                      k: nat)
    requires SpaceOk(s, root, tags, flat, borrowed) && Complete(s, flat, borrowed, elf, id, clock) && k < 4096
    ensures Seen(s, root, 0x7FFF_F000 + k, true, false, 0)
    ensures Seen(s, root, 0x4_0000_0000 + k, true, false, if k == 0 then id else 0)
    ensures var t := Translate(s.View(), root, 0x4_0001_0000 + k);
            t.Some? && t.value.phys == clock + k && t.value.rights == Rights(false, false, true)
  {
    hide SpaceOk, Loaded, Translate, ReadByte;
    PageSeen(s, root, tags, flat, borrowed, STACK_PAGE, ToUser(RW), [], k);
    PageSeen(s, root, tags, flat, borrowed, DATA_PAGE, ToUser(RW), [id], k);
    FlatTranslation(s, root, tags, flat, borrowed, 0x4_0001_0000 + k);
  }

  lemma PageSeen(s: Snapshot, root: nat, tags: Tags, flat: Flat, borrowed: Option<nat>, v: nat, rights: Rights,
                 content: seq<byte>, k: nat)
    requires SpaceOk(s, root, tags, flat, borrowed) && |content| <= PAGE_SIZE && Holds(s, flat, v, rights, content)
    requires k < PAGE_SIZE && v * 0x1000 + k < USER_LIMIT
    ensures var t := Translate(s.View(), root, v * 0x1000 + k);
            && t.Some? && t.value.rights == rights
            && ReadByte(s, root, v * 0x1000 + k) == Some(if k < |content| then content[k] else 0)
  {
    hide SpaceOk, Translate;
    FlatTranslation(s, root, tags, flat, borrowed, v * 0x1000 + k);
    PageAndOffset(v, k);
    FrameIsAligned(s, root, tags, flat, borrowed, v);
    FrameAndOffset(flat[v].frame, k);
  }

  lemma PageAndOffset(v: nat, k: nat)
    requires k < 0x1000
    ensures (v * 0x1000 + k) / 0x1000 == v && (v * 0x1000 + k) % 0x1000 == k
  {
  }

  lemma FrameIsAligned(s: Snapshot, root: nat, tags: Tags, flat: Flat, borrowed: Option<nat>, v: nat)
    requires SpaceOk(s, root, tags, flat, borrowed) && v in flat
    ensures flat[v].frame % 0x1000 == 0
  {
    assert flat[v].frame in s.held;
  }

  lemma NoFault(elf: Elf64.Elf, i: nat)
    requires FirstFault(elf, 0).None? && i < elf.phnum
    ensures HeaderFault(Elf64.Nth(elf, i)).None?
  {
    hide Elf64.HeaderAt;
  }

  /** Building a space and then destroying it gives the pool back what it had, the same frames, exactly
      if the image claims no page twice and no fixed page; otherwise it is short of the frames the
      space lost. Either way every frame held before is held still, and holds what it held. */
  lemma BuildThenDestroy(s: Snapshot, s': Snapshot, s'': Snapshot, space: AddressSpace, kernelRoot: nat, elf: Elf64.Elf,
                         id: byte, clock: nat)
    requires Built(s, s', space, kernelRoot, elf, id, clock) && space.Owns() <= space.taken
    requires s'.Valid() && Released(s', s'', space.Owns())
    ensures s''.free == s.free - space.Lost() && s''.held == s.held + space.Lost() && space.Lost() <= s.free
    ensures s''.free == s.free <==> Disjoint(elf, elf.phnum, FixedPages())
    ensures forall f :: f in s.words ==> f in s''.words && s''.words[f] == s.words[f]
    ensures forall f :: f in s.bytes ==> f in s''.bytes && s''.bytes[f] == s.bytes[f]
    ensures |s'.free| + |space.taken| == |s.free|
  {
    hide Isolated, Complete, Disjoint, Owned;
    GaveBack(s, s', s'', space.taken, space.Owns());
    KeptThrough(s, s', s'', space.tags, space.taken, space.Owns(), space.root);
  }

  lemma GaveBack(s: Snapshot, s': Snapshot, s'': Snapshot, taken: set<nat>, owned: set<nat>)
    requires s.free !! s.held && Took(s, {}, s', taken) && owned <= taken
    requires s''.free == s'.free + owned && s''.held == s'.held - owned
    ensures s''.free == s.free - (taken - owned) && s''.held == s.held + (taken - owned) && taken <= s.free
    ensures s''.free == s.free <==> taken - owned == {}
    ensures |s'.free| + |taken| == |s.free|
  {
    SetsGaveBack(s.free, s.held, taken, owned);
    assert taken - {} == taken;
    assert s'.free + taken == s.free;
  }

  lemma SetsGaveBack(free: set<nat>, held: set<nat>, taken: set<nat>, owned: set<nat>)
    requires free !! held && owned <= taken <= free
    ensures free - taken + owned == free - (taken - owned) && held + taken - owned == held + (taken - owned)
    ensures free - (taken - owned) == free <==> taken - owned == {}
  {
    forall f | f in taken - owned
      ensures free - (taken - owned) != free
    {
      assert f in free && f !in free - (taken - owned);
    }
  }

  lemma KeptThrough(s: Snapshot, s': Snapshot, s'': Snapshot, tags: Tags, taken: set<nat>, owned: set<nat>, root: nat)
    requires s.Valid() && Took(s, {}, s', taken) && owned <= taken
    requires Isolated(s, map[], s', tags, root) && Released(s', s'', owned)
    ensures forall f :: f in s.words ==> f in s''.words && s''.words[f] == s.words[f]
    ensures forall f :: f in s.bytes ==> f in s''.bytes && s''.bytes[f] == s.bytes[f]
  {
    hide UpperKept;
    assert forall f :: f in s.words || f in s.bytes ==> f in s.held && f !in s.free;
    assert forall f :: f in owned ==> f in taken - {};
  }

  // ---------------------------------------------------------------------------------------
  // An image that claims a page twice
  // ---------------------------------------------------------------------------------------

  /** Eight bytes at a time. */
  function Joined(words: seq<seq<byte>>): seq<byte> {
    if words == [] then [] else words[0] + Joined(words[1..])
  }

  lemma {:induction false} JoinedAt(words: seq<seq<byte>>, i: nat, off: nat, n: nat)
    requires (forall k :: 0 <= k < |words| ==> |words[k]| == 8) && i < |words| && off + n <= 8
    ensures |Joined(words)| == 8 * |words| && ReadLe(Joined(words), 8 * i + off, n) == ReadLe(words[i], off, n)
    decreases |words|
  {
    var rest := Joined(words[1..]);
    assert rest == [] || |words| > 1;
    if |words| > 1 {
      JoinedAt(words[1..], if i > 0 then i - 1 else 0, off, n);
    }
    if i == 0 {
      SliceOfLeft(words[0], rest, off, n);
    } else {
      SliceOfRight(words[0], rest, 8 * (i - 1) + off, n);
    }
  }

  lemma SliceOfLeft(a: seq<byte>, b: seq<byte>, off: nat, n: nat)
    requires off + n <= |a|
    ensures (a + b)[off..off + n] == a[off..off + n]
  {
  }

  lemma SliceOfRight(a: seq<byte>, b: seq<byte>, off: nat, n: nat)
    requires off + n <= |b|
    ensures (a + b)[|a| + off..|a| + off + n] == b[off..off + n]
  {
  }

  /** An executable with a program header for one byte of zeros at 0x1000, readable and no more, and
      the same program header again. */
  const TWICE_WORDS: seq<seq<byte>> := [
    [0x7f, 0x45, 0x4c, 0x46, 2, 1, 0, 0], ZEROS, [2, 0, 62, 0, 0, 0, 0, 0], ZEROS,
    [64, 0, 0, 0, 0, 0, 0, 0], ZEROS, [0, 0, 0, 0, 0, 0, 56, 0], [2, 0, 0, 0, 0, 0, 0, 0],
    [1, 0, 0, 0, 4, 0, 0, 0], ZEROS, [0, 16, 0, 0, 0, 0, 0, 0], ZEROS, ZEROS, [1, 0, 0, 0, 0, 0, 0, 0], ZEROS,
    [1, 0, 0, 0, 4, 0, 0, 0], ZEROS, [0, 16, 0, 0, 0, 0, 0, 0], ZEROS, ZEROS, [1, 0, 0, 0, 0, 0, 0, 0], ZEROS
  ]

  const TWICE: seq<byte> := Joined(TWICE_WORDS)
  const TWICE_ELF: Elf64.Elf := Elf64.Elf(TWICE, 0, 64, 56, 2)

  lemma TwoBytes(w: seq<byte>, off: nat)
    requires |w| == 8 && off + 2 <= 8
    ensures ReadLe(w, off, 2).Some? && ReadLe(w, off, 2).value == 256 * (w[off + 1] as nat) + w[off]
  {
    assert w[off..off + 2] == [w[off], w[off + 1]];
    LittleValues(w[off], w[off + 1]);
  }

  lemma SmallWord(w: seq<byte>)
    requires |w| == 8 && forall k :: 2 <= k < 8 ==> w[k] == 0
    ensures ReadLe(w, 0, 8).Some? && ReadLe(w, 0, 8).value == 256 * (w[1] as nat) + w[0]
  {
    assert w[0..8] == [w[0], w[1], 0, 0, 0, 0, 0, 0];
    LittleValues(w[0], w[1]);
  }

  lemma TwoHalves(w: seq<byte>)
    requires |w| == 8 && w[1] == w[2] == w[3] == w[5] == w[6] == w[7] == 0
    ensures ReadLe(w, 0, 4) == Some(w[0]) && ReadLe(w, 4, 4) == Some(w[4])
  {
    assert w[0..4] == [w[0], 0, 0, 0] && w[4..8] == [w[4], 0, 0, 0];
    LittleValues(w[0], 0);
    LittleValues(w[4], 0);
  }

  lemma TwiceIsElf()
    ensures |TWICE| == 176 && Elf64.Parse(TWICE) == Ok(TWICE_ELF)
  {
    hide ReadLe, Joined;
    MagicBytes();
    TwoBytes(TWICE_WORDS[2], 0);
    TwoBytes(TWICE_WORDS[2], 2);
    TwoBytes(TWICE_WORDS[6], 6);
    TwoBytes(TWICE_WORDS[7], 0);
    SmallWord(TWICE_WORDS[3]);
    SmallWord(TWICE_WORDS[4]);
    JoinedAt(TWICE_WORDS, 2, 0, 2);
    JoinedAt(TWICE_WORDS, 2, 2, 2);
    JoinedAt(TWICE_WORDS, 3, 0, 8);
    JoinedAt(TWICE_WORDS, 4, 0, 8);
    JoinedAt(TWICE_WORDS, 6, 6, 2);
    JoinedAt(TWICE_WORDS, 7, 0, 2);
  }

  lemma MagicBytes()
    ensures |TWICE| >= 8 && TWICE[..4] == [0x7f, 0x45, 0x4c, 0x46] && TWICE[4] == 2 && TWICE[5] == 1
  {
    assert TWICE[..8] == TWICE_WORDS[0];
    assert TWICE[..4] == TWICE[..8][..4];
    assert TWICE[4] == TWICE[..8][4] && TWICE[5] == TWICE[..8][5];
  }

  lemma OneByteHeader(words: seq<seq<byte>>, w: nat)
    requires (forall k :: 0 <= k < |words| ==> |words[k]| == 8) && w + 7 <= |words|
    requires words[w] == [1, 0, 0, 0, 4, 0, 0, 0] && words[w + 1] == words[w + 4] == ZEROS
    requires words[w + 2] == [0, 16, 0, 0, 0, 0, 0, 0] && words[w + 5] == [1, 0, 0, 0, 0, 0, 0, 0]
    ensures Elf64.HeaderAt(Joined(words), 8 * w) ==
            Elf64.Loadable(Elf64.Segment(0x1000, [], 1, Elf64.SegRights(true, false, false)))
  {
    hide ReadLe, Joined;
    TwoHalves(words[w]);
    SmallWord(words[w + 1]);
    SmallWord(words[w + 2]);
    SmallWord(words[w + 5]);
    JoinedAt(words, w, 0, 4);
    JoinedAt(words, w, 4, 4);
    JoinedAt(words, w + 1, 0, 8);
    JoinedAt(words, w + 2, 0, 8);
    JoinedAt(words, w + 4, 0, 8);
    JoinedAt(words, w + 5, 0, 8);
  }

  /** Nothing in the loader objects to such an image, and building it loses a frame. */
  lemma TwiceLosesAFrame(s: Snapshot, s': Snapshot, s'': Snapshot, space: AddressSpace, kernelRoot: nat, id: byte, clock: nat)
    requires Built(s, s', space, kernelRoot, TWICE_ELF, id, clock) && space.Owns() <= space.taken
    requires s'.Valid() && Released(s', s'', space.Owns())
    ensures |TWICE| == 176 && Elf64.Parse(TWICE) == Ok(TWICE_ELF) && FirstFault(TWICE_ELF, 0).None?
    ensures s''.free < s.free
  {
    hide Elf64.Parse, Elf64.HeaderAt, Joined, Built, Released, Disjoint, FirstFault;
    TwiceClashes();
    BuildThenDestroy(s, s', s'', space, kernelRoot, TWICE_ELF, id, clock);
  }

  lemma TwiceClashes()
    ensures |TWICE| == 176 && Elf64.Parse(TWICE) == Ok(TWICE_ELF) && FirstFault(TWICE_ELF, 0).None?
    ensures !Disjoint(TWICE_ELF, TWICE_ELF.phnum, FixedPages())
  {
    hide Elf64.Parse, Elf64.HeaderAt, Joined;
    TwiceIsElf();
    OneByteHeader(TWICE_WORDS, 8);
    OneByteHeader(TWICE_WORDS, 15);
    assert Elf64.Nth(TWICE_ELF, 0) == Elf64.Nth(TWICE_ELF, 1);
    assert FirstFault(TWICE_ELF, 2).None?;
    assert Claims(TWICE_ELF, 0, 1) && Claims(TWICE_ELF, 1, 1);
  }

  /** The same image where the pool has one frame left: the construction fails, and the frame is gone. */
  method LastFrameIsLost(frames: Frames, kernelRoot: nat, gibPages: bool, id: byte, clock: nat)
    returns (r: Result<AddressSpace, SpaceError>)
    requires frames.Valid() && kernelRoot in frames.words && clock in frames.bytes && |frames.free| == 1
    modifies frames
    ensures r.Err? && frames.free != old(frames.free)
  {
    hide Elf64.Parse, Built;
    TwiceIsElf();
    ghost var s := frames.Now();
    r := BuildSpace(frames, kernelRoot, gibPages, TWICE, id, clock);
    if r.Ok? {
      TwoFramesAtLeast(s, frames.Now(), r.value, kernelRoot, TWICE_ELF, id, clock);
      assert false;
    }
  }

  /** A space takes a frame for its root and another for its stack. */
  lemma TwoFramesAtLeast(s: Snapshot, s': Snapshot, space: AddressSpace, kernelRoot: nat, elf: Elf64.Elf, id: byte, clock: nat)
    requires Built(s, s', space, kernelRoot, elf, id, clock)
    requires SpaceOk(s', space.root, space.tags, space.flat, space.borrowed) && space.Owns() <= space.taken
    ensures |s.free| >= 2
  {
    hide SpaceOk, Loaded, Isolated, UpperShared;
    var stack := space.flat[STACK_PAGE].frame;
    RootTagged(s', space.root, space.tags, space.flat, space.borrowed);
    NotData(s', space.root, space.tags, space.flat, space.borrowed, space.root);
    assert stack in Data(space.flat, space.borrowed);
    var two := {space.root, stack};
    assert two <= space.taken - {} <= s.free;
    assert |two| == 2;
    FewerInPart(two, s.free);
  }

  lemma FewerInPart(a: set<nat>, b: set<nat>)
    requires a <= b
    ensures |a| <= |b|
  {
    assert b == a + (b - a);
  }
}
