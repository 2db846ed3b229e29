/** One ring-3 address space: building it, loading an image into it, checking a range in it,
    and giving every frame of it back. */
module AddressSpaces {
  import opened Basics
  import opened Entries
  import opened PageTree
  import opened TreeUpdates
  import opened FramePool
  import opened MapTheory
  import opened Mapping
  import opened SpaceTheory
  import opened Teardown
  import opened Loading
  import Elf64

  const USER_STACK: nat := 0x7FFF_F000
  const USER_DATA_VA: nat := 0x4_0000_0000
  const USER_CLOCK_VA: nat := 0x4_0001_0000

  function ToUser(rights: Rights): Rights {
    rights.(user := true)
  }

  /** The pool's exhaustion, however the caller learns of it. */
  ghost predicate PoolEmpty(e: SpaceError, s: Snapshot) {
    (e == NoFrame || e == MapFailed(OutOfFrames)) && s.free == {}
  }

  /** One page was mapped: at `virt`, with these rights, to a frame that was free and now holds
      `content` and then zeros. */
  ghost predicate Added(s: Snapshot, flat: Flat, s': Snapshot, flat': Flat, borrowed: Option<nat>,
                        virt: nat, content: seq<byte>, rights: Rights)
    requires |content| <= PAGE_SIZE
  {
    var v := virt / PAGE_SIZE;
    && v in flat' && flat' == flat[v := Page(flat'[v].frame, rights)]
    && flat'[v].frame in s.free && Some(flat'[v].frame) != borrowed
    && flat'[v].frame in s'.bytes && s'.bytes[flat'[v].frame] == Padded(content)
  }

  class AddressSpace {
    const frames: Frames
    const root: nat
    const gibPages: bool
    var entry: nat
    var borrowed: Option<nat>
    ghost var tags: Tags
    ghost var flat: Flat
    /** Every frame the pool lost to this space. */
    ghost var taken: set<nat>

    ghost predicate Valid()
      reads this, frames
    {
      SpaceOk(frames.Now(), root, tags, flat, borrowed) && Accounts(frames.Now(), tags, flat, borrowed, taken)
    }

    ghost function Owns(): set<nat>
      reads this
    {
      Owned(tags, flat, borrowed)
    }

    /** The frames it took and no longer has: mapped over, or left behind by a mapping that failed. */
    ghost function Lost(): set<nat>
      reads this
    {
      taken - Owns()
    }

    /** A handle to a tree whose lower half is empty. */
    constructor Handle(frames: Frames, root: nat, gibPages: bool)
      requires SpaceOk(frames.Now(), root, map[root := Node(3, 0, root)], map[], None)
      ensures this.frames == frames && this.root == root && this.gibPages == gibPages && Valid()
      ensures tags == map[root := Node(3, 0, root)] && flat == map[] && borrowed == None
      ensures Owns() == taken == {root}
    {
      this.frames, this.root, this.gibPages := frames, root, gibPages;
      entry, borrowed := 0, None;
      tags, flat, taken := map[root := Node(3, 0, root)], map[], {root};
      new;
      assert Data(map[], None) == {};
      OwnedHeld(frames.Now(), root, tags, flat, borrowed);
    }

    /** Map one page: afterwards the tables resolve the old pages and this one, and the frame the page
        had before, if it had one of the space's own, is out of reach. It fails for want of a frame
        only where nothing was mapped. */
    method Map(virt: nat, phys: nat, rights: Rights) returns (r: Result<(), SpaceError>)
      requires Valid() && virt % PAGE_SIZE == 0 && virt < USER_LIMIT
      requires phys in frames.bytes && forall v :: v in flat ==> flat[v].frame != phys
      requires phys in taken || Some(phys) == borrowed
      requires Some(phys) == borrowed ==> virt == USER_CLOCK_VA && !rights.write
      modifies this`tags, this`flat, this`taken, frames
      ensures Valid() && Grew(old(frames.Now()), old(tags), frames.Now(), tags, root, KERNEL_PML4_FIRST)
      ensures Took(old(frames.Now()), old(taken), frames.Now(), taken)
      ensures r.Ok? ==> flat == old(flat)[virt / PAGE_SIZE := Page(phys, rights)]
      ensures r.Ok? ==> Lost() == old(Lost()) - Own(Page(phys, rights), borrowed) + Displaced(old(flat), borrowed, virt / PAGE_SIZE)
      ensures r.Err? ==> flat == old(flat) && Lost() == old(Lost())
      ensures r == Err(NotUserRights) <==> !rights.user
      ensures r.Err? && rights.user ==> r == Err(MapFailed(OutOfFrames)) && frames.free == {} && virt / PAGE_SIZE !in flat
    {
      hide Tight, Tree, Agrees, FlatOk, Grew, Snapshot.View, Owned, Displaced, Own, Accounts, Took, Data;
      TablesAreWords(frames.Now(), root, tags, flat, borrowed);
      r := MapPage(virt, phys, rights, borrowed);
      taken := taken + tags.Keys;
      BytesKept(old(frames.Now()), old(tags), frames.Now(), tags, root, old(flat), borrowed);
      if r.Err? {
        TablesBooked(old(frames.Now()), frames.Now(), old(tags), tags, flat, borrowed, old(taken), root);
        return;
      }
      PageNumber(virt);
      FlatAfterMap(frames.Now(), old(flat), borrowed, virt / PAGE_SIZE, Page(phys, rights));
      Booked(old(frames.Now()), frames.Now(), old(tags), tags, old(flat), borrowed, old(taken), root, virt / PAGE_SIZE, Page(phys, rights));
    }

    /** The tables' side of it, whatever frame the space borrows or is about to. */
    method MapPage(virt: nat, phys: nat, rights: Rights, ghost b: Option<nat>) returns (r: Result<(), SpaceError>)
      requires SpaceOk(frames.Now(), root, tags, flat, b) && virt % PAGE_SIZE == 0 && virt < USER_LIMIT
      requires phys in frames.bytes
      modifies this`tags, this`flat, frames
      ensures frames.Valid() && Tight(frames.View(), root, tags, KERNEL_PML4_FIRST) && Agrees(frames.View(), root, flat)
      ensures Grew(old(frames.Now()), old(tags), frames.Now(), tags, root, KERNEL_PML4_FIRST)
      ensures flat == if r.Ok? then old(flat)[virt / PAGE_SIZE := Page(phys, rights)] else old(flat)
      ensures r == Err(NotUserRights) <==> !rights.user
      ensures r.Err? && rights.user ==> r == Err(MapFailed(OutOfFrames)) && frames.free == {} && virt / PAGE_SIZE !in flat
    {
      hide Tight, Tree, Agrees, FlatOk, Grew, LeafInstalled, SameWalks, Mapped, Snapshot.View, CoveredByLarge;
      if !rights.user {
        GrewNone(frames.Now(), tags, root, KERNEL_PML4_FIRST);
        return Err(NotUserRights);
      }
      TightIsTree(frames.View(), root, tags, KERNEL_PML4_FIRST);
      PageNumber(virt);
      PhysBound(frames.Now(), phys);
      var mapper := new Mapper.Adopt(root, frames, gibPages, KERNEL_PML4_FIRST, tags);
      var mapped, done := mapper.MapAs(virt, phys, PAGE_SIZE, rights, Normal);
      tags := mapper.tags;
      if mapped.Err? {
        AgreesAfterSame(old(frames.View()), frames.View(), root, flat);
        PageOrNothing(old(frames.Now()), root, old(tags), flat, b, virt, done);
        assert mapped.error != Misaligned;
        assert mapped.error != LargePageCollision;
        NoPart(virt, done);
        return Err(MapFailed(mapped.error));
      }
      AgreesAfterInstall(old(frames.View()), frames.View(), root, flat, virt, Page(phys, rights));
      flat := flat[virt / PAGE_SIZE := Page(phys, rights)];
      return Ok(());
    }

    /** Take a frame, zero it, copy `content` to its start and map it at `virt`: how the loader,
        the stack and the id page each get their frames. */
    method MapFresh(virt: nat, content: seq<byte>, rights: Rights) returns (r: Result<(), SpaceError>)
      requires Valid() && virt % PAGE_SIZE == 0 && virt < USER_LIMIT
      requires |content| <= PAGE_SIZE && rights.user
      modifies this`tags, this`flat, this`taken, frames
      ensures Valid() && Isolated(old(frames.Now()), old(tags), frames.Now(), tags, root)
      ensures Took(old(frames.Now()), old(taken), frames.Now(), taken)
      ensures r.Err? ==> flat == old(flat) && PoolEmpty(r.error, frames.Now())
      ensures r.Ok? ==> Added(old(frames.Now()), old(flat), frames.Now(), flat, borrowed, virt, content, rights)
      ensures r.Ok? ==> Lost() == old(Lost()) + Displaced(old(flat), borrowed, virt / PAGE_SIZE)
    {
      hide Tight, Tree, Agrees, FlatOk, Grew, Isolated, Took, Snapshot.View, Owned, Accounts, Displaced;
      var got := frames.AllocFrame();
      if got.None? {
        GrewNone(frames.Now(), tags, root, KERNEL_PML4_FIRST);
        GrewIsIsolated(frames.Now(), tags, frames.Now(), tags, root);
        NothingYet(frames.Now(), tags, root, taken);
        return Err(NoFrame);
      }
      var frame := got.value;
      FreshIsNobodys(old(frames.Now()), root, tags, flat, borrowed, frame);
      frames.ZeroPage(frame);
      frames.CopyIn(frame, content);
      ghost var s := frames.Now();
      TakenPage(old(frames.Now()), s, root, tags, flat, borrowed, frame, content);
      taken := taken + {frame};
      FrameBooked(old(frames.Now()), s, tags, flat, borrowed, old(taken), frame);
      r := Map(virt, frame, rights);
      GrewIsIsolated(s, old(tags), frames.Now(), tags, root);
      IsolatedTwice(old(frames.Now()), old(tags), s, old(tags), frames.Now(), tags, root);
      GrewBytes(s, old(tags), frames.Now(), tags, root);
      TookTwice(old(frames.Now()), old(taken), s, old(taken) + {frame}, frames.Now(), taken);
    }

    /** One segment: each of its pages gets a fresh frame holding its part of the file, zero from
        the end of the file on, mapped with the segment's rights. What the space had there is lost. */
    method LoadSegment(segment: Elf64.Segment) returns (r: Result<(), SpaceError>)
      requires Valid() && segment.vaddr % PAGE_SIZE == 0 && segment.vaddr + segment.memsz <= USER_LIMIT
      requires |segment.file| <= segment.memsz
      modifies this`tags, this`flat, this`taken, frames
      ensures Valid() && Isolated(old(frames.Now()), old(tags), frames.Now(), tags, root)
      ensures Took(old(frames.Now()), old(taken), frames.Now(), taken)
      ensures r.Err? ==> PoolEmpty(r.error, frames.Now())
      ensures r.Ok? ==> Extends(old(flat), flat, segment, segment.Pages()) && SegmentLoaded(frames.Now(), flat, borrowed, segment)
      ensures r.Ok? ==> Lost() == old(Lost()) + Shadowed(old(flat), borrowed, segment, segment.Pages())
    {
      hide SpaceOk, Isolated, Took, PageLoaded, Extends, Owned, Accounts, Displaced, Shadowed;
      var rights := SegmentRights(segment);
      var copied, page := 0, 0;
      ghost var s0, tags0, flat0, taken0, lost0 := frames.Now(), tags, flat, taken, Lost();
      NothingYet(s0, tags0, root, taken0);
      ShadowedNone(flat0, borrowed, segment, lost0);
      while page < segment.Pages()
        invariant 0 <= page <= segment.Pages() && copied == Min(|segment.file|, page * PAGE_SIZE)
        invariant Valid() && Isolated(s0, tags0, frames.Now(), tags, root) && Took(s0, taken0, frames.Now(), taken)
        invariant Extends(flat0, flat, segment, page) && Lost() == lost0 + Shadowed(flat0, borrowed, segment, page)
        invariant forall k :: 0 <= k < page ==> PageLoaded(frames.Now(), flat, borrowed, segment, k)
      {
        var virt := segment.vaddr + page * PAGE_SIZE;
        var take := Min(PAGE_SIZE, |segment.file| - copied);
        NextPage(segment, page);
        ShadowedNext(flat0, flat, borrowed, segment, page);
        ghost var s, tags1, flat1, taken1 := frames.Now(), tags, flat, taken;
        r := MapFresh(virt, segment.file[copied..copied + take], rights);
        IsolatedTwice(s0, tags0, s, tags1, frames.Now(), tags, root) by { SpaceValid(s0, root, tags0, flat0, old(borrowed)); }
        TookTwice(s0, taken0, s, taken1, frames.Now(), taken);
        if r.Err? {
          return;
        }
        PagesAfter(s, frames.Now(), tags1, tags, root, flat0, flat1, flat, borrowed, segment, page);
        copied := copied + take;
        page := page + 1;
      }
      return Ok(());
    }

    /** `load`. The image is at fault exactly when its first fault is the answer; with no fault the
        load fails only on an empty pool. Where headers claim one page, the last of them has it; a
        frame is lost exactly if some page was claimed twice, or was the space's own already. */
    method Load(elf: Elf64.Elf) returns (r: Result<(), SpaceError>)
      requires Valid() && elf.Valid()
      modifies this, frames
      ensures Valid() && borrowed == old(borrowed) && Isolated(old(frames.Now()), old(tags), frames.Now(), tags, root)
      ensures Took(old(frames.Now()), old(taken), frames.Now(), taken)
      ensures r.Ok? ==> FirstFault(elf, 0).None? && entry == elf.entry
      ensures r.Ok? ==> Loaded(frames.Now(), flat, borrowed, elf, elf.phnum, {}) && Gained(old(flat), flat, elf, elf.phnum)
      ensures r.Ok? ==> LostIff(old(Lost()), Lost(), old(flat), borrowed, elf, elf.phnum)
      ensures r.Err? ==> FirstFault(elf, 0) == Some(r.error) || PoolEmpty(r.error, frames.Now())
    {
      hide SpaceOk, Isolated, Took, Loaded, Gained, Extends, SegmentLoaded, LostIff, Shadowed, Accounts, Owned, Elf64.HeaderAt;
      ghost var s0, tags0, flat0, taken0, lost0 := frames.Now(), tags, flat, taken, Lost();
      NothingYet(s0, tags0, root, taken0);
      NothingLoaded(s0, flat0, borrowed, elf, lost0);
      var segments := new Elf64.Segments(elf);
      while true
        invariant segments.elf == elf && segments.index <= elf.phnum && FirstFault(elf, segments.index) == FirstFault(elf, 0)
        invariant Valid() && Isolated(s0, tags0, frames.Now(), tags, root) && Took(s0, taken0, frames.Now(), taken)
        invariant Loaded(frames.Now(), flat, borrowed, elf, segments.index, {}) && Gained(flat0, flat, elf, segments.index)
        invariant LostIff(lost0, Lost(), flat0, borrowed, elf, segments.index)
        invariant borrowed == old(borrowed)
        decreases elf.phnum - segments.index
      {
        ghost var from := segments.index;
        var next := segments.Next();
        ghost var at := if next.None? then segments.index else segments.index - 1;
        FaultsSkip(elf, from, at);
        LoadedSkip(frames.Now(), flat0, flat, borrowed, elf, from, at, lost0, Lost());
        if next.None? {
          break;
        }
        if next.value.Err? {
          return Err(BadImage(next.value.error));
        }
        var segment := next.value.value;
        if segment.rights.write && segment.rights.exec {
          return Err(WritableAndExecutable);
        }
        if segment.vaddr >= USER_LIMIT || segment.memsz > USER_LIMIT - segment.vaddr {
          return Err(OutsideUserHalf);
        }
        ghost var s, tags1, flat1, taken1, lost1 := frames.Now(), tags, flat, taken, Lost();
        HeaderAligned(elf, at);
        LostIsNoData(tags, flat, borrowed, taken);
        r := LoadSegment(segment);
        IsolatedTwice(s0, tags0, s, tags1, frames.Now(), tags, root) by { SpaceValid(s0, root, tags0, flat0, old(borrowed)); }
        TookTwice(s0, taken0, s, taken1, frames.Now(), taken);
        if r.Err? {
          return;
        }
        LoadedStep(s, frames.Now(), tags1, tags, root, flat1, flat, borrowed, elf, at);
        GainedStep(flat0, flat1, flat, frames.Now(), borrowed, elf, at);
        LostStep(s, flat0, flat1, borrowed, elf, at, lost0, lost1, Lost());
      }
      entry := elf.entry;
      if entry >= USER_LIMIT {
        return Err(BadEntry);
      }
      return Ok(());
    }

    /** `map_stack`. */
    method MapStack() returns (r: Result<(), SpaceError>)
      requires Valid()
      modifies this`tags, this`flat, this`taken, frames
      ensures Valid() && Isolated(old(frames.Now()), old(tags), frames.Now(), tags, root)
      ensures Took(old(frames.Now()), old(taken), frames.Now(), taken)
      ensures r.Err? ==> flat == old(flat) && PoolEmpty(r.error, frames.Now())
      ensures r.Ok? ==> Added(old(frames.Now()), old(flat), frames.Now(), flat, borrowed, USER_STACK, [], ToUser(RW))
      ensures r.Ok? ==> Lost() == old(Lost()) + Displaced(old(flat), borrowed, USER_STACK / PAGE_SIZE)
    {
      r := MapFresh(USER_STACK, [], ToUser(RW));
    }

    /** A page whose first byte is the task's id. */
    method SeedId(id: byte) returns (r: Result<(), SpaceError>)
      requires Valid()
      modifies this`tags, this`flat, this`taken, frames
      ensures Valid() && Isolated(old(frames.Now()), old(tags), frames.Now(), tags, root)
      ensures Took(old(frames.Now()), old(taken), frames.Now(), taken)
      ensures r.Err? ==> flat == old(flat) && PoolEmpty(r.error, frames.Now())
      ensures r.Ok? ==> Added(old(frames.Now()), old(flat), frames.Now(), flat, borrowed, USER_DATA_VA, [id], ToUser(RW))
      ensures r.Ok? ==> Lost() == old(Lost()) + Displaced(old(flat), borrowed, USER_DATA_VA / PAGE_SIZE)
    {
      r := MapFresh(USER_DATA_VA, [id], ToUser(RW));
    }

    /** The kernel's clock page, read-only and not owned: what the space takes for it is tables. A space
        that has one already gives up the frame it borrowed for the new one. */
    method MapClock(frame: nat) returns (r: Result<(), SpaceError>)
      requires Valid() && frame in frames.bytes && frame !in taken
      modifies this`tags, this`flat, this`borrowed, this`taken, frames
      ensures Valid() && Isolated(old(frames.Now()), old(tags), frames.Now(), tags, root)
      ensures Took(old(frames.Now()), old(taken), frames.Now(), taken)
      ensures borrowed == Some(frame) && frame !in Owns()
      ensures r.Err? ==> flat == old(flat) && Lost() == old(Lost()) && PoolEmpty(r.error, frames.Now()) && CLOCK_PAGE !in flat
      ensures r.Ok? ==> flat == old(flat)[CLOCK_PAGE := Page(frame, ToUser(RO))]
      ensures r.Ok? ==> Lost() == old(Lost()) + Displaced(old(flat), old(borrowed), CLOCK_PAGE)
    {
      hide Tight, Tree, Agrees, FlatOk, Grew, Isolated, Took, Snapshot.View, Data, Displaced, Accounts, Owned;
      TablesAreWords(frames.Now(), root, tags, flat, borrowed);
      borrowed := Some(frame);
      r := MapPage(USER_CLOCK_VA, frame, ToUser(RO), old(borrowed));
      taken := taken + tags.Keys;
      GrewIsIsolated(old(frames.Now()), old(tags), frames.Now(), tags, root);
      if r.Err? {
        NoClockYet(old(frames.Now()), old(tags), flat, old(borrowed), old(taken), frame);
        BytesKept(old(frames.Now()), old(tags), frames.Now(), tags, root, flat, borrowed);
        SameOwned(old(tags), tags, flat, old(borrowed), borrowed);
        TablesBooked(old(frames.Now()), frames.Now(), old(tags), tags, flat, old(borrowed), old(taken), root);
        SameAccounts(frames.Now(), tags, flat, old(borrowed), borrowed, taken);
      } else {
        ClockBooked(old(frames.Now()), frames.Now(), old(tags), tags, old(flat), old(borrowed), old(taken), root,
                    Page(frame, ToUser(RO)));
      }
      BorrowedStays(frames.Now(), root, tags, flat, borrowed);
    }

    /** `range_ok`, byte by byte: the answer is yes exactly when each byte of the range is a
        user address that resolves with effective user rights, and write rights if asked. The pages
        looked at are consecutive from the first one the range touches, and each is touched by it. */
    method RangeOk(ptr: u64, len: u64, write: bool) returns (ok: bool, ghost visited: seq<nat>)
      requires Valid()
      ensures ok <==> forall a: nat :: ptr <= a < ptr + len ==> Touchable(Translate(frames.View(), root, a), a, write)
      ensures forall i :: 0 <= i < |visited| ==>
                visited[i] == PageOf(ptr) + i * PAGE_SIZE && Touches(ptr, len, visited[i])
    {
      hide SpaceOk, Permits, Touchable, Tree, Span, InReach, PermitsAnswer, Translate, PageOf;
      PermitsIsTouchable(frames.View(), root, write);
      visited := [];
      if len == 0 {
        return true, visited;
      }
      if ptr >= USER_LIMIT || len > USER_LIMIT - ptr {
        FarByte(frames.View(), root, ptr + len - 1, write);
        ghost var top: nat := ptr + len - 1;
        assert ptr <= top < ptr + len && !Permits(frames.View(), root, top, write);
        return false, visited;
      }
      ReachesUserHalf(frames.Now(), root, tags, flat, borrowed);
      var mapper := new Mapper.Adopt(root, frames, gibPages, KERNEL_PML4_FIRST, tags);
      var first, last := PageOf(ptr), PageOf(ptr + len - 1);
      PagesOrdered(ptr, ptr + len - 1);
      var page := first;
      while true
        invariant mapper.Valid() && mapper.frames == frames
        invariant first <= page <= last && page == PageOf(page) == first + |visited| * PAGE_SIZE
        invariant forall a: nat :: ptr <= a < ptr + len && a < page ==> Permits(frames.View(), root, a, write)
        invariant forall i :: 0 <= i < |visited| ==>
                    visited[i] == first + i * PAGE_SIZE && Touches(ptr, len, visited[i])
        decreases last - page
      {
        RangePage(ptr, len, page);
        ghost var b := Max(ptr, page);
        PermitsPage(frames.Now(), root, tags, flat, borrowed, page, b, write);
        ReachIsPrefix(page, KERNEL_PML4_FIRST);
        var t := mapper.Resolve(page);
        visited := visited + [page];
        if !PermitsAnswer(t, write) {
          assert ptr <= b < ptr + len && !Permits(frames.View(), root, b, write);
          return false, visited;
        }
        forall a: nat | ptr <= a < ptr + len && page <= a < page + PAGE_SIZE
          ensures Permits(frames.View(), root, a, write)
        {
          PermitsPage(frames.Now(), root, tags, flat, borrowed, page, a, write);
        }
        if page == last {
          LastPage(ptr, len);
          return true, visited;
        }
        NextPageUp(page, ptr + len - 1);
        page := page + PAGE_SIZE;
      }
    }

    /** Give back every frame the space owns, and nothing else, each once; the answer is how many. */
    method Destroy() returns (freed: nat)
      requires Valid()
      modifies frames
      ensures frames.Valid() && Released(old(frames.Now()), frames.Now(), Owns()) && freed == |Owns()|
    {
      hide SpaceOk, Released, StillThere, Below, Owned;
      ghost var s := frames.Now();
      ghost var below := Below(tags, flat, borrowed, 3, 0, KERNEL_PML4_FIRST);
      WholeSpace(s, root, tags, flat, borrowed);
      freed := FreeLevel(frames, root, 4, borrowed, s, root, tags, flat);
      HeldAfter(s, frames.Now(), s, {root} + below, below, root);
      ghost var mid := frames.Now();
      frames.FreeFrame(root);
      FreedTable(s, mid, frames.Now(), below, root);
      freed := freed + 1;
    }
  }

  lemma WholeSpace(s: Snapshot, root: nat, tags: Tags, flat: Flat, borrowed: Option<nat>)
    requires SpaceOk(s, root, tags, flat, borrowed)
    ensures s.Valid() && root in tags && tags[root] == Node(3, 0, root)
    ensures var below := Below(tags, flat, borrowed, 3, 0, KERNEL_PML4_FIRST);
            && Owned(tags, flat, borrowed) == {root} + below && root !in below
            && StillThere(s, s, {root} + below)
  {
    hide Tight, Agrees, FlatOk, Below;
    RootTagged(s, root, tags, flat, borrowed);
    OwnedIsBelow(s, root, tags, flat, borrowed);
    OwnedHeld(s, root, tags, flat, borrowed);
  }

  // ---------------------------------------------------------------------------------------
  // The borrowed frame
  // ---------------------------------------------------------------------------------------

  lemma SameOwned(tags: Tags, tags': Tags, flat: Flat, b: Option<nat>, b': Option<nat>)
    requires Data(flat, b') == Data(flat, b)
    ensures Owned(tags, flat, b') == Owned(tags, flat, b) && Owned(tags', flat, b') == Owned(tags', flat, b)
  {
  }

  lemma SameAccounts(s: Snapshot, tags: Tags, flat: Flat, b: Option<nat>, b': Option<nat>, taken: set<nat>)
    requires Owned(tags, flat, b') == Owned(tags, flat, b) && Accounts(s, tags, flat, b, taken)
    ensures Accounts(s, tags, flat, b', taken)
  {
  }

  /** The frame a space only borrows is none of those it owns: giving the space back leaves it. */
  lemma BorrowedStays(s: Snapshot, root: nat, tags: Tags, flat: Flat, borrowed: Option<nat>)
    requires SpaceOk(s, root, tags, flat, borrowed) && borrowed.Some?
    ensures borrowed.value !in Owned(tags, flat, borrowed)
    ensures forall s' :: Released(s, s', Owned(tags, flat, borrowed)) ==>
              borrowed.value in s'.bytes && s'.bytes[borrowed.value] == s.bytes[borrowed.value]
  {
    if borrowed.value in tags {
      NotData(s, root, tags, flat, borrowed, borrowed.value);
    }
  }

  // ---------------------------------------------------------------------------------------
  // Checking a range
  // ---------------------------------------------------------------------------------------

  predicate PermitsAnswer(t: Option<Translation>, write: bool) {
    t.Some? && t.value.rights.user && (!write || t.value.rights.write)
  }

  /** Ring 3 may read the byte at `a`, and write it if asked: it is a user address, and it resolves
      with the effective rights that takes. */
  ghost predicate Permits(mem: Tables, root: nat, a: nat, write: bool) {
    a < USER_LIMIT && PermitsAnswer(Translate(mem, root, a), write)
  }

  /** The same, field by field, of what the address resolves to. */
  predicate Touchable(t: Option<Translation>, a: nat, write: bool) {
    a < 0x8000_0000_0000 && t.Some? && t.value.rights.user == true && (write ==> t.value.rights.write == true)
  }

  lemma PermitsIsTouchable(mem: Tables, root: nat, write: bool)
    ensures forall a: nat :: Permits(mem, root, a, write) <==> Touchable(Translate(mem, root, a), a, write)
  {
    hide Translate;
  }

  /** Some byte of the range lies in the page. */
  predicate Touches(ptr: nat, len: nat, page: nat) {
    page < ptr + len && ptr < page + PAGE_SIZE && len > 0
  }

  function PageOf(a: nat): nat {
    a / 0x1000 * 0x1000
  }

  lemma ReachesUserHalf(s: Snapshot, root: nat, tags: Tags, flat: Flat, borrowed: Option<nat>)
    requires SpaceOk(s, root, tags, flat, borrowed)
    ensures s.Valid() && Tree(s.View(), root, tags, KERNEL_PML4_FIRST)
  {
  }

  /** One answer for a whole page. */
  lemma PermitsPage(s: Snapshot, root: nat, tags: Tags, flat: Flat, borrowed: Option<nat>, page: nat, a: nat, write: bool)
    requires SpaceOk(s, root, tags, flat, borrowed) && page == PageOf(page) && page <= a < page + PAGE_SIZE
    ensures a < USER_LIMIT ==> (Permits(s.View(), root, a, write) <==> PermitsAnswer(Translate(s.View(), root, page), write))
  {
    hide SpaceOk, Translate;
    if a < USER_LIMIT {
      FlatTranslation(s, root, tags, flat, borrowed, a);
      FlatTranslation(s, root, tags, flat, borrowed, page);
      assert a / 0x1000 == page / 0x1000;
    }
  }

  lemma FarByte(mem: Tables, root: nat, a: nat, write: bool)
    requires a >= USER_LIMIT
    ensures !Permits(mem, root, a, write)
  {
  }

  lemma PagesOrdered(a: nat, b: nat)
    requires a <= b
    ensures PageOf(a) <= a && PageOf(PageOf(a)) == PageOf(a) <= PageOf(b)
  {
  }

  lemma RangePage(ptr: nat, len: nat, page: nat)
    requires 0 < len && ptr < USER_LIMIT && len <= USER_LIMIT - ptr
    requires PageOf(ptr) <= page <= PageOf(ptr + len - 1) && page == PageOf(page)
    ensures Touches(ptr, len, page) && page < USER_LIMIT
    ensures page % VIRT_SPAN < KERNEL_PML4_FIRST * Span(3)
    ensures ptr <= Max(ptr, page) < ptr + len && page <= Max(ptr, page) < page + PAGE_SIZE
  {
  }

  lemma LastPage(ptr: nat, len: nat)
    requires 0 < len
    ensures ptr + len <= PageOf(ptr + len - 1) + PAGE_SIZE
  {
  }

  lemma NextPageUp(page: nat, end: nat)
    requires page == PageOf(page) && page < PageOf(end)
    ensures page + PAGE_SIZE <= PageOf(end) && page + PAGE_SIZE == PageOf(page + PAGE_SIZE)
  {
  }

  lemma NothingYet(s: Snapshot, tags: Tags, root: nat, owned: set<nat>)
    ensures Isolated(s, tags, s, tags, root) && Took(s, owned, s, owned)
  {
  }

  /** `AddressSpace::new`: a fresh PML4 whose upper half is a copy of the kernel's entries and
      whose lower half is empty. */
  method NewSpace(frames: Frames, kernelRoot: nat, gibPages: bool) returns (r: Result<AddressSpace, SpaceError>)
    requires frames.Valid() && kernelRoot in frames.words
    modifies frames
    ensures frames.Valid()
    ensures r.Err? ==> frames.Now() == old(frames.Now()) && frames.free == {}
    ensures r.Ok? ==>
              && fresh(r.value) && r.value.frames == frames && r.value.Valid() && r.value.flat == map[]
              && r.value.borrowed == None && r.value.Owns() == r.value.taken == {r.value.root} && r.value.gibPages == gibPages
              && r.value.tags.Keys == {r.value.root}
              && Took(old(frames.Now()), {}, frames.Now(), r.value.taken)
              && Isolated(old(frames.Now()), map[], frames.Now(), r.value.tags, r.value.root)
              && UpperShared(frames.Now(), r.value.root, kernelRoot)
  {
    hide SpaceOk, Took, Isolated, UpperShared, Copied;
    var taken := frames.AllocFrame();
    if taken.None? {
      return Err(NoFrame);
    }
    var root := taken.value;
    assert root != kernelRoot && root !in old(frames.words);
    frames.ZeroTable(root);
    CopyNone(old(frames.Now()), frames.Now(), root, kernelRoot);
    CopyUpper(frames, root, kernelRoot, old(frames.Now()));
    CopiedAll(old(frames.Now()), frames.Now(), root, kernelRoot);
    EmptySpace(frames.Now(), root);
    var space := new AddressSpace.Handle(frames, root, gibPages);
    return Ok(space);
  }

  /** The loop over the kernel's half. */
  method CopyUpper(frames: Frames, root: nat, kernelRoot: nat, ghost s0: Snapshot)
    requires frames.Valid() && Copied(s0, frames.Now(), root, kernelRoot, KERNEL_PML4_FIRST)
    modifies frames
    ensures frames.Valid() && Copied(s0, frames.Now(), root, kernelRoot, ENTRIES)
  {
    hide Copied;
    var slot := KERNEL_PML4_FIRST;
    while slot < ENTRIES
      invariant KERNEL_PML4_FIRST <= slot <= ENTRIES
      invariant frames.Valid() && Copied(s0, frames.Now(), root, kernelRoot, slot)
    {
      ghost var s := frames.Now();
      CopiedHas(s0, s, root, kernelRoot, slot);
      var entry := frames.ReadEntry(kernelRoot, slot);
      frames.WriteEntry(root, slot, entry);
      CopyStep(s0, s, frames.Now(), root, kernelRoot, slot);
      slot := slot + 1;
    }
  }

  /** A new root whose slots before `slot` are done: zero in the lower half, the kernel's words
      from there on. */
  ghost predicate Copied(s: Snapshot, s': Snapshot, root: nat, kernelRoot: nat, slot: nat) {
    && root in s.free && root !in s.words && kernelRoot in s.words
    && s'.free == s.free - {root} && s'.held == s.held + {root} && s'.bytes == s.bytes
    && s'.words.Keys == s.words.Keys + {root} && |s'.words[root]| == ENTRIES && |s.words[kernelRoot]| == ENTRIES
    && (forall f :: f in s.words ==> s'.words[f] == s.words[f])
    && (forall i :: 0 <= i < KERNEL_PML4_FIRST ==> s'.words[root][i] == 0)
    && (forall i :: KERNEL_PML4_FIRST <= i < slot && i < ENTRIES ==> s'.words[root][i] == s.words[kernelRoot][i])
  }

  lemma CopyNone(s: Snapshot, s': Snapshot, root: nat, kernelRoot: nat)
    requires s.Valid() && kernelRoot in s.words && root in s.free
    requires s' == Snapshot(s.free - {root}, s.held + {root}, s.words[root := seq(ENTRIES, _ => 0)], s.bytes)
    ensures Copied(s, s', root, kernelRoot, KERNEL_PML4_FIRST)
  {
  }

  lemma CopiedHas(s: Snapshot, s': Snapshot, root: nat, kernelRoot: nat, slot: nat)
    requires Copied(s, s', root, kernelRoot, slot)
    ensures kernelRoot in s.words && root in s'.words && kernelRoot in s'.words && s'.words[kernelRoot] == s.words[kernelRoot]
  {
  }

  lemma CopyStep(s: Snapshot, mid: Snapshot, s': Snapshot, root: nat, kernelRoot: nat, slot: nat)
    requires Copied(s, mid, root, kernelRoot, slot) && KERNEL_PML4_FIRST <= slot < ENTRIES && kernelRoot in mid.words
    requires s' == mid.(words := mid.words[root := PutWord(mid.words[root], slot, s.words[kernelRoot][slot])])
    ensures Copied(s, s', root, kernelRoot, slot + 1)
  {
  }

  lemma CopiedAll(s: Snapshot, s': Snapshot, root: nat, kernelRoot: nat)
    requires Copied(s, s', root, kernelRoot, ENTRIES)
    ensures root in s'.words && forall i :: 0 <= i < KERNEL_PML4_FIRST ==> s'.words[root][i] == 0
    ensures Took(s, {}, s', {root}) && UpperShared(s', root, kernelRoot)
    ensures Isolated(s, map[], s', map[root := Node(3, 0, root)], root)
  {
  }

  /** The kernel half of `root` is, word for word, the kernel's. */
  ghost predicate UpperShared(s: Snapshot, root: nat, kernelRoot: nat) {
    && root in s.words && kernelRoot in s.words
    && |s.words[root]| == ENTRIES && |s.words[kernelRoot]| == ENTRIES
    && forall i :: KERNEL_PML4_FIRST <= i < ENTRIES ==> s.words[root][i] == s.words[kernelRoot][i]
  }

  /** No address of a space is covered by a page larger than 4 KiB. */
  lemma NoLargePage(s: Snapshot, root: nat, tags: Tags, flat: Flat, borrowed: Option<nat>, a: nat)
    requires SpaceOk(s, root, tags, flat, borrowed)
    ensures a < USER_LIMIT ==> !CoveredByLarge(s.View(), root, a)
  {
    hide SpaceOk;
    if a < USER_LIMIT {
      FlatTranslation(s, root, tags, flat, borrowed, a);
    }
  }

  lemma NoPart(virt: nat, done: nat)
    requires virt < USER_LIMIT && done < 0x1000 && done % 0x1000 == 0
    ensures done == 0 && virt % VIRT_SPAN == virt
  {
  }

  /** Where a page is mapped, something resolves; and what resolves is no large page. */
  lemma PageOrNothing(s: Snapshot, root: nat, tags: Tags, flat: Flat, borrowed: Option<nat>, virt: nat, done: nat)
    requires SpaceOk(s, root, tags, flat, borrowed) && virt < USER_LIMIT
    ensures virt + done < USER_LIMIT ==> !CoveredByLarge(s.View(), root, virt + done)
    ensures done == 0 && Translate(s.View(), root, virt).None? ==> virt / PAGE_SIZE !in flat
  {
    hide SpaceOk, CoveredByLarge, Translate;
    NoLargePage(s, root, tags, flat, borrowed, virt + done);
    FlatTranslation(s, root, tags, flat, borrowed, virt);
  }

  lemma PhysBound(s: Snapshot, f: nat)
    requires s.Valid() && f in s.bytes
    ensures f % PAGE_SIZE == 0 && f + PAGE_SIZE <= PHYS_LIMIT
  {
    assert f in s.held;
  }

  lemma BytesKept(s: Snapshot, tags: Tags, s': Snapshot, tags': Tags, root: nat, flat: Flat, borrowed: Option<nat>)
    requires FlatOk(s, flat, borrowed) && Grew(s, tags, s', tags', root, KERNEL_PML4_FIRST)
    ensures FlatOk(s', flat, borrowed) && s'.bytes == s.bytes
  {
  }

  lemma AgreesAfterSame(mem: Tables, mem': Tables, root: nat, flat: Flat)
    requires Agrees(mem, root, flat) && SameWalks(mem, mem', root, KERNEL_PML4_FIRST)
    ensures Agrees(mem', root, flat)
  {
  }

  lemma FreshIsNobodys(s: Snapshot, root: nat, tags: Tags, flat: Flat, borrowed: Option<nat>, f: nat)
    requires SpaceOk(s, root, tags, flat, borrowed) && f in s.free
    ensures f !in s.words && f !in s.bytes && f !in tags && Some(f) != borrowed
    ensures forall v :: v in flat ==> flat[v].frame != f
  {
    if f in tags {
      NotData(s, root, tags, flat, borrowed, f);
    }
  }

  lemma OwnedHeld(s: Snapshot, root: nat, tags: Tags, flat: Flat, borrowed: Option<nat>)
    requires SpaceOk(s, root, tags, flat, borrowed)
    ensures Owned(tags, flat, borrowed) <= s.held
  {
    forall t | t in tags
      ensures t in s.held
    {
      NotData(s, root, tags, flat, borrowed, t);
    }
  }

  /** A space is still one when a frame has been taken from the pool to hold data. */
  lemma TakenPage(s: Snapshot, s': Snapshot, root: nat, tags: Tags, flat: Flat, borrowed: Option<nat>, f: nat,
                  content: seq<byte>)
    requires SpaceOk(s, root, tags, flat, borrowed) && s'.Valid() && f in s.free && |content| <= PAGE_SIZE
    requires s'.free == s.free - {f} && s'.held == s.held + {f} && s'.words == s.words
    requires s'.bytes == s.bytes[f := seq(PAGE_SIZE, _ => 0)][f := content + seq(PAGE_SIZE, _ => 0)[|content|..]]
    ensures SpaceOk(s', root, tags, flat, borrowed) && s'.bytes[f] == Padded(content)
    ensures Isolated(s, tags, s', tags, root)
  {
    hide Tight, Tree, Agrees;
    assert s'.View() == s.View();
    FreshIsNobodys(s, root, tags, flat, borrowed, f);
    assert s'.bytes[f] == Padded(content);
  }

  lemma GrewBytes(s: Snapshot, tags: Tags, s': Snapshot, tags': Tags, root: nat)
    requires Grew(s, tags, s', tags', root, KERNEL_PML4_FIRST)
    ensures s'.bytes == s.bytes
  {
  }

  lemma TablesAreWords(s: Snapshot, root: nat, tags: Tags, flat: Flat, borrowed: Option<nat>)
    requires SpaceOk(s, root, tags, flat, borrowed)
    ensures tags.Keys <= s.words.Keys
  {
    forall t | t in tags
      ensures t in s.words
    {
      NotData(s, root, tags, flat, borrowed, t);
    }
  }

  /** A frame taken from the pool is on the books before it is mapped. */
  lemma FrameBooked(s: Snapshot, s': Snapshot, tags: Tags, flat: Flat, borrowed: Option<nat>, taken: set<nat>, f: nat)
    requires s.Valid() && f in s.free && Accounts(s, tags, flat, borrowed, taken)
    requires s'.free == s.free - {f} && s'.held == s.held + {f}
    ensures Took(s, taken, s', taken + {f}) && Accounts(s', tags, flat, borrowed, taken + {f})
    ensures taken + {f} - Owned(tags, flat, borrowed) - {f} == taken - Owned(tags, flat, borrowed)
  {
    assert taken + {f} - taken == {f};
  }

  lemma LostIsNoData(tags: Tags, flat: Flat, borrowed: Option<nat>, taken: set<nat>)
    ensures taken - Owned(tags, flat, borrowed) !! Data(flat, borrowed)
  {
  }
}
