/** What loading an image leaves behind: which pages hold which bytes of the file. */
module Loading {
  import opened Basics
  import opened Entries
  import opened PageTree
  import opened TreeUpdates
  import opened FramePool
  import opened MapTheory
  import opened SpaceTheory
  import opened Mapping
  import Elf64

  /** A page that starts with `content` and is zero from there on. */
  function Padded(content: seq<byte>): (p: seq<byte>)
    requires |content| <= PAGE_SIZE
    ensures |p| == PAGE_SIZE
  {
    content + seq(PAGE_SIZE - |content|, _ => 0)
  }

  function SegmentRights(segment: Elf64.Segment): Rights {
    Rights(segment.rights.write, segment.rights.exec, true)
  }

  /** Page `v` of the address space is one of the segment's. */
  predicate InSegment(segment: Elf64.Segment, v: nat) {
    segment.vaddr / PAGE_SIZE <= v < segment.vaddr / PAGE_SIZE + segment.Pages()
  }

  /** The bytes page `k` of a segment must hold. */
  function PageContents(segment: Elf64.Segment, k: nat): (p: seq<byte>)
    ensures |p| == PAGE_SIZE
  {
    var from, to := Min(|segment.file|, k * PAGE_SIZE), Min(|segment.file|, (k + 1) * PAGE_SIZE);
    Padded(segment.file[from..to])
  }

  /** Byte by byte: the file where there is file, zero from there to the end of the page. */
  lemma PageByte(segment: Elf64.Segment, k: nat, j: nat)
    requires j < PAGE_SIZE
    ensures PageContents(segment, k)[j] ==
            if k * PAGE_SIZE + j < |segment.file| then segment.file[k * PAGE_SIZE + j] else 0
  {
  }

  /** Page `k` of the segment is mapped with the segment's rights to a page of the
      right bytes, one the space does not merely borrow. */
  ghost predicate PageLoaded(s: Snapshot, flat: Flat, borrowed: Option<nat>, segment: Elf64.Segment, k: nat) {
    var v := segment.vaddr / PAGE_SIZE + k;
    && v in flat && flat[v].rights == SegmentRights(segment) && Some(flat[v].frame) != borrowed
    && flat[v].frame in s.bytes && s.bytes[flat[v].frame] == PageContents(segment, k)
  }

  ghost predicate SegmentLoaded(s: Snapshot, flat: Flat, borrowed: Option<nat>, segment: Elf64.Segment) {
    forall k :: 0 <= k < segment.Pages() ==> PageLoaded(s, flat, borrowed, segment, k)
  }

  /** The page is one of the segment's first `n`. */
  predicate Within(segment: Elf64.Segment, n: nat, v: nat) {
    segment.vaddr / PAGE_SIZE <= v < segment.vaddr / PAGE_SIZE + n
  }

  /** The flat map changed on none but the first `n` pages of the segment. */
  ghost predicate Extends(flat: Flat, flat': Flat, segment: Elf64.Segment, n: nat) {
    && (forall v :: v in flat && !Within(segment, n, v) ==> v in flat' && flat'[v] == flat[v])
    && (forall v :: v in flat' && !Within(segment, n, v) ==> v in flat)
  }

  /** The frames a space had on the first `n` pages of the segment. */
  ghost function Shadowed(flat: Flat, borrowed: Option<nat>, segment: Elf64.Segment, n: nat): set<nat> {
    set v | v in flat && Within(segment, n, v) && Some(flat[v].frame) != borrowed :: flat[v].frame
  }

  lemma ShadowedNone(flat: Flat, borrowed: Option<nat>, segment: Elf64.Segment, lost: set<nat>)
    ensures Extends(flat, flat, segment, 0) && lost == lost + Shadowed(flat, borrowed, segment, 0)
  {
  }

  /** One more page hides one more frame, if it hides any. */
  lemma ShadowedNext(flat0: Flat, flat: Flat, borrowed: Option<nat>, segment: Elf64.Segment, n: nat)
    requires Extends(flat0, flat, segment, n)
    ensures Shadowed(flat0, borrowed, segment, n + 1) ==
            Shadowed(flat0, borrowed, segment, n) + Displaced(flat, borrowed, segment.vaddr / PAGE_SIZE + n)
  {
    var v := segment.vaddr / PAGE_SIZE + n;
    forall f
      ensures f in Shadowed(flat0, borrowed, segment, n + 1) <==>
              f in Shadowed(flat0, borrowed, segment, n) + Displaced(flat, borrowed, v)
    {
      if f in Shadowed(flat0, borrowed, segment, n + 1) {
        var w :| w in flat0 && Within(segment, n + 1, w) && Some(flat0[w].frame) != borrowed && flat0[w].frame == f;
        assert w == v || Within(segment, n, w);
      }
      if f in Shadowed(flat0, borrowed, segment, n) {
        var w :| w in flat0 && Within(segment, n, w) && Some(flat0[w].frame) != borrowed && flat0[w].frame == f;
        assert Within(segment, n + 1, w);
      }
      if f in Displaced(flat, borrowed, v) {
        assert Within(segment, n + 1, v) && flat0[v] == flat[v];
      }
    }
  }

  lemma SpaceValid(s: Snapshot, root: nat, tags: Tags, flat: Flat, borrowed: Option<nat>)
    requires SpaceOk(s, root, tags, flat, borrowed)
    ensures s.Valid()
  {
  }

  /** The next page of a segment is inside the user half. */
  lemma NextPage(segment: Elf64.Segment, page: nat)
    requires segment.vaddr % PAGE_SIZE == 0 && segment.vaddr + segment.memsz <= USER_LIMIT && page < segment.Pages()
    ensures var virt := segment.vaddr + page * PAGE_SIZE;
            virt % PAGE_SIZE == 0 && virt < USER_LIMIT && virt / PAGE_SIZE == segment.vaddr / PAGE_SIZE + page
  {
    PagePlus(segment.vaddr, page);
    PageInside(segment.memsz, page);
  }

  lemma PagePlus(base: nat, k: nat)
    requires base % 0x1000 == 0
    ensures (base + k * 0x1000) % 0x1000 == 0 && (base + k * 0x1000) / 0x1000 == base / 0x1000 + k
  {
  }

  lemma PageInside(memsz: nat, page: nat)
    requires page < (memsz + 0xFFF) / 0x1000
    ensures page * 0x1000 < memsz
  {
  }

  /** Mapping one more page leaves the pages loaded so far as they are and adds the next. */
  lemma PagesAfter(s: Snapshot, s': Snapshot, tags: Tags, tags': Tags, root: nat, flat0: Flat, flat: Flat, flat': Flat,
                   borrowed: Option<nat>, segment: Elf64.Segment, page: nat)
    requires Isolated(s, tags, s', tags', root) && Extends(flat0, flat, segment, page)
    requires forall k :: 0 <= k < page ==> PageLoaded(s, flat, borrowed, segment, k)
    requires var v := segment.vaddr / PAGE_SIZE + page;
             && v in flat' && flat' == flat[v := Page(flat'[v].frame, SegmentRights(segment))]
             && Some(flat'[v].frame) != borrowed && flat'[v].frame in s'.bytes && s'.bytes[flat'[v].frame] == PageContents(segment, page)
    ensures Extends(flat0, flat', segment, page + 1)
    ensures forall k :: 0 <= k < page + 1 ==> PageLoaded(s', flat', borrowed, segment, k)
  {
    forall k | 0 <= k < page + 1
      ensures PageLoaded(s', flat', borrowed, segment, k)
    {
      if k < page {
        assert PageLoaded(s, flat, borrowed, segment, k);
      }
    }
  }

  // ---------------------------------------------------------------------------------------
  // Whole images
  // ---------------------------------------------------------------------------------------

  datatype SpaceError = NoFrame | BadImage(error: Elf64.ElfError) | WritableAndExecutable | OutsideUserHalf
                      | BadEntry | NotUserRights | MapFailed(cause: MapError)

  /** What the loader objects to in one program header. */
  function HeaderFault(h: Elf64.Header): Option<SpaceError> {
    match h
    case Skipped => None
    case Bad(e) => Some(BadImage(e))
    case Loadable(segment) =>
      if segment.rights.write && segment.rights.exec then Some(WritableAndExecutable)
      else if segment.vaddr >= USER_LIMIT || segment.memsz > USER_LIMIT - segment.vaddr then Some(OutsideUserHalf)
      else None
  }

  /** The first thing wrong with an image from header `i` on; the entry point is looked at last. */
  function FirstFault(elf: Elf64.Elf, i: nat): (fault: Option<SpaceError>)
    requires i <= elf.phnum
    ensures fault.None? ==>
              && elf.entry < USER_LIMIT
              && forall j {:trigger Elf64.Nth(elf, j)} :: i <= j < elf.phnum ==> HeaderFault(Elf64.Nth(elf, j)).None?
    decreases elf.phnum - i
  {
    if i == elf.phnum then if elf.entry >= USER_LIMIT then Some(BadEntry) else None
    else if HeaderFault(Elf64.Nth(elf, i)).Some? then HeaderFault(Elf64.Nth(elf, i))
    else FirstFault(elf, i + 1)
  }

  /** Nothing is wrong with a program header: it is no segment, or one in the file's bounds that is not
      both writable and executable and ends in the user half. */
  predicate Harmless(h: Elf64.Header) {
    match h
    case Skipped => true
    case Bad(_) => false
    case Loadable(segment) =>
      && !(segment.rights.write && segment.rights.exec)
      && segment.vaddr < 0x8000_0000_0000 && segment.vaddr + segment.memsz <= 0x8000_0000_0000
  }

  /** The error a harmful header is reported by: the format's own, then write and execute together, then
      the wrong place. */
  predicate NamedFor(f: SpaceError, h: Elf64.Header) {
    match h
    case Skipped => false
    case Bad(e) => f == BadImage(e)
    case Loadable(segment) =>
      if segment.rights.write && segment.rights.exec then f == WritableAndExecutable else f == OutsideUserHalf
  }

  /** An image is at fault exactly when a header is harmful or the entry point is outside the user half,
      and the fault reported is that of the first harmful header. */
  lemma {:induction false} FirstFaultNames(elf: Elf64.Elf, i: nat)
    requires i <= elf.phnum
    ensures FirstFault(elf, i).None? <==>
            elf.entry < 0x8000_0000_0000 && forall j :: i <= j < elf.phnum ==> Harmless(Elf64.Nth(elf, j))
    ensures FirstFault(elf, i).Some? ==>
              var f := FirstFault(elf, i).value;
              || (f == BadEntry && forall j :: i <= j < elf.phnum ==> Harmless(Elf64.Nth(elf, j)))
              || exists n :: i <= n < elf.phnum && !Harmless(Elf64.Nth(elf, n)) && NamedFor(f, Elf64.Nth(elf, n))
                             && forall j :: i <= j < n ==> Harmless(Elf64.Nth(elf, j))
    decreases elf.phnum - i
  {
    hide Elf64.HeaderAt, Elf64.Nth;
    if i < elf.phnum {
      FirstFaultNames(elf, i + 1);
      HarmlessIff(Elf64.Nth(elf, i));
      if HeaderFault(Elf64.Nth(elf, i)).Some? {
        assert NamedFor(FirstFault(elf, i).value, Elf64.Nth(elf, i));
      } else if FirstFault(elf, i).Some? && FirstFault(elf, i).value != BadEntry {
        var f := FirstFault(elf, i).value;
        var n :| i + 1 <= n < elf.phnum && !Harmless(Elf64.Nth(elf, n)) && NamedFor(f, Elf64.Nth(elf, n))
                 && forall j :: i + 1 <= j < n ==> Harmless(Elf64.Nth(elf, j));
        assert forall j :: i <= j < n ==> Harmless(Elf64.Nth(elf, j));
      }
    }
  }

  lemma HarmlessIff(h: Elf64.Header)
    ensures HeaderFault(h).None? <==> Harmless(h)
    ensures HeaderFault(h).Some? ==> NamedFor(HeaderFault(h).value, h) && HeaderFault(h).value != BadEntry
  {
  }

  lemma {:induction false} FaultsSkip(elf: Elf64.Elf, i: nat, j: nat)
    requires i <= j <= elf.phnum && forall k :: i <= k < j ==> Elf64.Nth(elf, k).Skipped?
    ensures FirstFault(elf, i) == FirstFault(elf, j)
    decreases j - i
  {
    if i < j {
      FaultsSkip(elf, i + 1, j);
    }
  }

  /** Page `v` belongs to the `i`th header of the image. */
  predicate Claims(elf: Elf64.Elf, i: nat, v: nat) {
    Elf64.Nth(elf, i).Loadable? && InSegment(Elf64.Nth(elf, i).segment, v)
  }

  /** Some of the first `n` headers claims the page. */
  predicate Claimed(elf: Elf64.Elf, n: nat, v: nat) {
    exists i :: 0 <= i < n && Claims(elf, i, v)
  }

  /** Of the first `n` headers, the `i`th is the last to claim the page. */
  predicate Wins(elf: Elf64.Elf, n: nat, i: nat, v: nat) {
    i < n && Claims(elf, i, v) && forall j :: i < j < n ==> !Claims(elf, j, v)
  }

  /** No two of the first `n` headers want one page, and none wants a page that is taken already. */
  ghost predicate Disjoint(elf: Elf64.Elf, n: nat, taken: set<nat>) {
    && (forall i: nat, j: nat, v: nat :: 0 <= i < j < n && Claims(elf, i, v) ==> !Claims(elf, j, v))
    && (forall i: nat, v: nat :: 0 <= i < n && v in taken ==> !Claims(elf, i, v))
  }

  /** The pages a space maps to frames of its own. */
  ghost function OwnPages(flat: Flat, borrowed: Option<nat>): set<nat> {
    set v | v in flat && Some(flat[v].frame) != borrowed
  }

  /** The first `n` headers are loaded: each page they claim holds what the last of them to claim it
      puts there, unless something else was put over it. */
  ghost predicate Loaded(s: Snapshot, flat: Flat, borrowed: Option<nat>, elf: Elf64.Elf, n: nat, over: set<nat>) {
    forall i: nat, v: nat :: v !in over && Wins(elf, n, i, v) ==> WonBy(s, flat, borrowed, elf, i, v)
  }

  ghost predicate WonBy(s: Snapshot, flat: Flat, borrowed: Option<nat>, elf: Elf64.Elf, i: nat, v: nat)
    requires Claims(elf, i, v)
  {
    var segment := Elf64.Nth(elf, i).segment;
    PageLoaded(s, flat, borrowed, segment, v - segment.vaddr / PAGE_SIZE)
  }

  /** The flat map gained the pages the first `n` headers claim and changed nowhere else. */
  ghost predicate Gained(flat: Flat, flat': Flat, elf: Elf64.Elf, n: nat) {
    && (forall v :: v in flat' <==> v in flat || Claimed(elf, n, v))
    && (forall v :: v in flat && !Claimed(elf, n, v) ==> flat'[v] == flat[v])
  }

  /** The space lost sight of a frame since `lost` exactly if some page was claimed twice. */
  ghost predicate LostIff(lost: set<nat>, lost': set<nat>, flat: Flat, borrowed: Option<nat>, elf: Elf64.Elf, n: nat) {
    lost <= lost' && (lost' == lost <==> Disjoint(elf, n, OwnPages(flat, borrowed)))
  }

  lemma NothingLoaded(s: Snapshot, flat: Flat, borrowed: Option<nat>, elf: Elf64.Elf, lost: set<nat>)
    ensures Loaded(s, flat, borrowed, elf, 0, {}) && Gained(flat, flat, elf, 0) && LostIff(lost, lost, flat, borrowed, elf, 0)
  {
  }

  lemma LoadedSkip(s: Snapshot, flat0: Flat, flat: Flat, borrowed: Option<nat>, elf: Elf64.Elf, n: nat, m: nat,
                   lost0: set<nat>, lost: set<nat>)
    requires n <= m && Loaded(s, flat, borrowed, elf, n, {}) && Gained(flat0, flat, elf, n)
    requires LostIff(lost0, lost, flat0, borrowed, elf, n)
    requires forall i :: n <= i < m ==> !Elf64.Nth(elf, i).Loadable?
    ensures Loaded(s, flat, borrowed, elf, m, {}) && Gained(flat0, flat, elf, m)
    ensures LostIff(lost0, lost, flat0, borrowed, elf, m)
  {
    forall v: nat
      ensures Claimed(elf, m, v) <==> Claimed(elf, n, v)
    {
      if Claimed(elf, m, v) {
        var i :| 0 <= i < m && Claims(elf, i, v);
        assert i < n;
      }
      if Claimed(elf, n, v) {
        var i :| 0 <= i < n && Claims(elf, i, v);
        assert i < m;
      }
    }
    forall i: nat, v: nat | Wins(elf, m, i, v)
      ensures WonBy(s, flat, borrowed, elf, i, v)
    {
      assert Wins(elf, n, i, v);
    }
  }

  /** One more header: its pages are claimed, and nothing else is. */
  lemma ClaimedNext(elf: Elf64.Elf, n: nat, v: nat)
    ensures Claimed(elf, n + 1, v) <==> Claimed(elf, n, v) || Claims(elf, n, v)
  {
    if Claimed(elf, n, v) {
      var i :| 0 <= i < n && Claims(elf, i, v);
      assert i < n + 1;
    }
  }

  lemma LoadedStep(s: Snapshot, s': Snapshot, tags: Tags, tags': Tags, root: nat, flat: Flat, flat': Flat,
                   borrowed: Option<nat>, elf: Elf64.Elf, n: nat)
    requires Isolated(s, tags, s', tags', root)
    requires Loaded(s, flat, borrowed, elf, n, {}) && Elf64.Nth(elf, n).Loadable?
    requires var segment := Elf64.Nth(elf, n).segment;
             Extends(flat, flat', segment, segment.Pages()) && SegmentLoaded(s', flat', borrowed, segment)
    ensures Loaded(s', flat', borrowed, elf, n + 1, {})
  {
    hide Isolated, PageLoaded, SegmentLoaded, Elf64.HeaderAt, Elf64.Nth;
    var segment := Elf64.Nth(elf, n).segment;
    forall i: nat, v: nat | Wins(elf, n + 1, i, v)
      ensures WonBy(s', flat', borrowed, elf, i, v)
    {
      if i == n {
        PageOfSegment(s', flat', borrowed, segment, v - segment.vaddr / PAGE_SIZE);
      } else {
        assert !Claims(elf, n, v) && Wins(elf, n, i, v);
        assert WonBy(s, flat, borrowed, elf, i, v);
        LoadedIsMapped(s, flat, borrowed, Elf64.Nth(elf, i).segment, v);
        PageStays(s, s', tags, tags', root, flat, flat', borrowed, Elf64.Nth(elf, i).segment, v);
      }
    }
  }

  lemma PageOfSegment(s: Snapshot, flat: Flat, borrowed: Option<nat>, segment: Elf64.Segment, page: nat)
    requires SegmentLoaded(s, flat, borrowed, segment) && page < segment.Pages()
    ensures PageLoaded(s, flat, borrowed, segment, page)
  {
  }

  lemma LoadedIsMapped(s: Snapshot, flat: Flat, borrowed: Option<nat>, segment: Elf64.Segment, v: nat)
    requires segment.vaddr / PAGE_SIZE <= v && PageLoaded(s, flat, borrowed, segment, v - segment.vaddr / PAGE_SIZE)
    ensures v in flat
  {
  }

  /** A page that still maps what it mapped holds what it held. */
  lemma PageStays(s: Snapshot, s': Snapshot, tags: Tags, tags': Tags, root: nat, flat: Flat, flat': Flat,
                  borrowed: Option<nat>, segment: Elf64.Segment, v: nat)
    requires Isolated(s, tags, s', tags', root) && segment.vaddr / PAGE_SIZE <= v
    requires PageLoaded(s, flat, borrowed, segment, v - segment.vaddr / PAGE_SIZE) && v in flat' && flat'[v] == flat[v]
    ensures PageLoaded(s', flat', borrowed, segment, v - segment.vaddr / PAGE_SIZE)
  {
  }

  lemma GainedStep(flat0: Flat, flat: Flat, flat': Flat, s': Snapshot, borrowed: Option<nat>, elf: Elf64.Elf, n: nat)
    requires Gained(flat0, flat, elf, n) && Elf64.Nth(elf, n).Loadable?
    requires var segment := Elf64.Nth(elf, n).segment;
             Extends(flat, flat', segment, segment.Pages()) && SegmentLoaded(s', flat', borrowed, segment)
    ensures Gained(flat0, flat', elf, n + 1)
  {
    hide Claimed, Elf64.HeaderAt;
    var segment := Elf64.Nth(elf, n).segment;
    forall v: nat
      ensures v in flat' <==> v in flat0 || Claimed(elf, n + 1, v)
      ensures v in flat0 && !Claimed(elf, n + 1, v) ==> flat'[v] == flat0[v]
    {
      ClaimedNext(elf, n, v);
      if Claims(elf, n, v) {
        assert PageLoaded(s', flat', borrowed, segment, v - segment.vaddr / PAGE_SIZE);
      }
    }
  }

  /** A header loses frames of the space exactly if it claims a page the space maps to one. */
  lemma LostStep(s: Snapshot, flat0: Flat, flat: Flat, borrowed: Option<nat>, elf: Elf64.Elf, n: nat,
                 lost0: set<nat>, lost: set<nat>, lost': set<nat>)
    requires Loaded(s, flat, borrowed, elf, n, {}) && Gained(flat0, flat, elf, n) && Elf64.Nth(elf, n).Loadable?
    requires LostIff(lost0, lost, flat0, borrowed, elf, n) && lost !! Data(flat, borrowed)
    requires var segment := Elf64.Nth(elf, n).segment;
             lost' == lost + Shadowed(flat, borrowed, segment, segment.Pages())
    ensures LostIff(lost0, lost', flat0, borrowed, elf, n + 1)
  {
    hide Elf64.HeaderAt;
    var segment := Elf64.Nth(elf, n).segment;
    var shadow := Shadowed(flat, borrowed, segment, segment.Pages());
    assert shadow <= Data(flat, borrowed);
    OwnPagesGained(s, flat0, flat, borrowed, elf, n);
    ShadowIff(flat, borrowed, elf, n);
    DisjointNext(elf, n, OwnPages(flat0, borrowed));
    assert lost' == lost0 <==> lost == lost0 && shadow == {};
  }

  lemma ShadowIff(flat: Flat, borrowed: Option<nat>, elf: Elf64.Elf, n: nat)
    requires Elf64.Nth(elf, n).Loadable?
    ensures var segment := Elf64.Nth(elf, n).segment;
            Shadowed(flat, borrowed, segment, segment.Pages()) == {} <==>
            forall v :: v in OwnPages(flat, borrowed) ==> !Claims(elf, n, v)
  {
    hide Elf64.HeaderAt;
    var segment := Elf64.Nth(elf, n).segment;
    var shadow := Shadowed(flat, borrowed, segment, segment.Pages());
    forall v | v in OwnPages(flat, borrowed) && Claims(elf, n, v)
      ensures shadow != {}
    {
      assert Within(segment, segment.Pages(), v) && flat[v].frame in shadow;
    }
    forall f | f in shadow
      ensures exists v :: v in OwnPages(flat, borrowed) && Claims(elf, n, v)
    {
      var v :| v in flat && Within(segment, segment.Pages(), v) && Some(flat[v].frame) != borrowed && flat[v].frame == f;
      assert v in OwnPages(flat, borrowed) && Claims(elf, n, v);
    }
  }

  lemma OwnPagesGained(s: Snapshot, flat0: Flat, flat: Flat, borrowed: Option<nat>, elf: Elf64.Elf, n: nat)
    requires Loaded(s, flat, borrowed, elf, n, {}) && Gained(flat0, flat, elf, n)
    ensures forall v :: v in OwnPages(flat, borrowed) <==> v in OwnPages(flat0, borrowed) || Claimed(elf, n, v)
  {
    hide Elf64.HeaderAt;
    forall v: nat
      ensures v in OwnPages(flat, borrowed) <==> v in OwnPages(flat0, borrowed) || Claimed(elf, n, v)
    {
      if Claimed(elf, n, v) {
        var i := Winner(elf, n, v);
        assert WonBy(s, flat, borrowed, elf, i, v);
      }
    }
  }

  /** A page that is claimed has a last claimant. */
  lemma {:induction false} Winner(elf: Elf64.Elf, n: nat, v: nat) returns (i: nat)
    requires Claimed(elf, n, v)
    ensures Wins(elf, n, i, v)
  {
    hide Elf64.HeaderAt, InSegment;
    ClaimedNext(elf, n - 1, v);
    if Claims(elf, n - 1, v) {
      return n - 1;
    }
    i := Winner(elf, n - 1, v);
  }

  lemma DisjointNext(elf: Elf64.Elf, n: nat, taken: set<nat>)
    ensures Disjoint(elf, n + 1, taken) <==>
            && Disjoint(elf, n, taken)
            && forall v :: v in taken || Claimed(elf, n, v) ==> !Claims(elf, n, v)
  {
    if Disjoint(elf, n + 1, taken) {
      forall v: nat | Claimed(elf, n, v)
        ensures !Claims(elf, n, v)
      {
        var i :| 0 <= i < n && Claims(elf, i, v);
      }
    }
    if Disjoint(elf, n, taken) && forall v :: v in taken || Claimed(elf, n, v) ==> !Claims(elf, n, v) {
      forall i: nat, j: nat, v: nat | 0 <= i < j < n + 1 && Claims(elf, i, v)
        ensures !Claims(elf, j, v)
      {
        assert Claimed(elf, j, v);
      }
    }
  }

  /** Where no page is claimed twice, every claimant wins. */
  lemma DisjointWins(elf: Elf64.Elf, n: nat, taken: set<nat>, i: nat, v: nat)
    requires Disjoint(elf, n, taken) && i < n && Claims(elf, i, v)
    ensures Wins(elf, n, i, v) && v !in taken
  {
  }

  // ---------------------------------------------------------------------------------------
  // Through the tables
  // ---------------------------------------------------------------------------------------

  /** What an address of the lower half resolves to in a space, read off the flat map. */
  lemma FlatTranslation(s: Snapshot, root: nat, tags: Tags, flat: Flat, borrowed: Option<nat>, a: nat)
    requires SpaceOk(s, root, tags, flat, borrowed) && a < USER_LIMIT
    ensures Translate(s.View(), root, a) ==
            if a / PAGE_SIZE in flat
            then Some(Translation(flat[a / PAGE_SIZE].frame + a % PAGE_SIZE, flat[a / PAGE_SIZE].rights, Normal, PAGE_SIZE))
            else None
  {
    hide Tree, Tight, Agrees;
    ReachIsPrefix(a, KERNEL_PML4_FIRST);
    ShiftIsDivision(a, 0);
    TightNode(s.View(), root, tags, KERNEL_PML4_FIRST, root) by { RootTagged(s, root, tags, flat, borrowed); }
    AgreesAt(s.View(), root, flat, a);
    TranslateIsWalk(s.View(), root, tags, KERNEL_PML4_FIRST, a);
    if a / PAGE_SIZE in flat {
      assert flat[a / PAGE_SIZE].frame in s.held;
      RoundsToItself(flat[a / PAGE_SIZE].frame);
    }
  }

  lemma RoundsToItself(f: nat)
    requires f % 0x1000 == 0
    ensures f / 0x1000 * 0x1000 == f
  {
  }

  /** The frame an address resolves to, and the byte of it ring 3 would read there. */
  ghost function FrameOf(t: Translation): nat {
    t.phys / 0x1000 * 0x1000
  }

  ghost function ReadByte(s: Snapshot, root: nat, a: nat): Option<byte> {
    match Translate(s.View(), root, a)
    case None => None
    case Some(t) =>
      if FrameOf(t) in s.bytes && t.phys % 0x1000 < |s.bytes[FrameOf(t)]|
      then Some(s.bytes[FrameOf(t)][t.phys % 0x1000]) else None
  }

  /** What ring 3 reads at `vaddr + k` is byte `k` of the file, or zero past the end of it, from a frame
      of the space's own, with exactly the segment's rights. */
  ghost predicate Delivers(s: Snapshot, root: nat, owned: set<nat>, segment: Elf64.Segment, k: nat) {
    var t := Translate(s.View(), root, segment.vaddr + k);
    && ReadByte(s, root, segment.vaddr + k) == Some(if k < |segment.file| then segment.file[k] else 0)
    && t.Some? && t.value.rights == SegmentRights(segment) && FrameOf(t.value) in owned
  }

  /** The effective rights at `a` are what bits 1 and 0 of the flags of the `i`th program header say of
      writing and executing, and ring 3's. */
  ghost predicate RightsInFile(s: Snapshot, root: nat, elf: Elf64.Elf, i: nat, a: nat) {
    var flags, t := ReadLe(elf.image, elf.phoff + i * elf.phentsize + 4, 4), Translate(s.View(), root, a);
    flags.Some? && t.Some? && t.value.rights == Rights(flags.value / 2 % 2 == 1, flags.value % 2 == 1, true)
  }

  /** Loading preserves the image, to the end of each segment's last page, on every page that no later
      header claims and nothing was put over. */
  lemma ImageByte(s: Snapshot, root: nat, tags: Tags, flat: Flat, borrowed: Option<nat>, elf: Elf64.Elf, over: set<nat>,
                  i: nat, segment: Elf64.Segment, k: nat)
    requires SpaceOk(s, root, tags, flat, borrowed) && Loaded(s, flat, borrowed, elf, elf.phnum, over)
    requires Elf64.Nth(elf, i) == Elf64.Loadable(segment) && HeaderFault(Elf64.Nth(elf, i)).None?
    requires k / PAGE_SIZE < segment.Pages() && segment.vaddr / PAGE_SIZE + k / PAGE_SIZE !in over
    requires Wins(elf, elf.phnum, i, segment.vaddr / PAGE_SIZE + k / PAGE_SIZE)
    ensures Delivers(s, root, Owned(tags, flat, borrowed), segment, k) && !(segment.rights.write && segment.rights.exec)
    ensures RightsInFile(s, root, elf, i, segment.vaddr + k)
  {
    hide SpaceOk, PageLoaded, Translate, ReadByte, Owned, Elf64.HeaderAt, Elf64.Nth, Wins, Loaded;
    HeaderAligned(elf, i);
    FlagsInFile(elf, i, segment);
    WonPage(s, flat, borrowed, elf, over, i, k / PAGE_SIZE);
    LoadedByte(s, root, tags, flat, borrowed, segment, k);
  }

  /** What ring 3 reads of a segment's page that is loaded. */
  lemma LoadedByte(s: Snapshot, root: nat, tags: Tags, flat: Flat, borrowed: Option<nat>, segment: Elf64.Segment, k: nat)
    requires SpaceOk(s, root, tags, flat, borrowed) && PageLoaded(s, flat, borrowed, segment, k / PAGE_SIZE)
    requires segment.vaddr % PAGE_SIZE == 0 && HeaderFault(Elf64.Loadable(segment)).None?
    requires k / PAGE_SIZE < segment.Pages()
    ensures Delivers(s, root, Owned(tags, flat, borrowed), segment, k)
  {
    hide SpaceOk, PageContents, Translate, Owned;
    var a, page := segment.vaddr + k, k / PAGE_SIZE;
    SplitAddress(segment.vaddr, k, segment.memsz);
    FlatTranslation(s, root, tags, flat, borrowed, a);
    PageFrame(s, root, tags, flat, borrowed, a / PAGE_SIZE);
    FrameAndOffset(flat[a / PAGE_SIZE].frame, a % PAGE_SIZE);
    PageByte(segment, page, k % PAGE_SIZE);
  }

  /** The rights of a segment are the bits of its header's flags. */
  lemma FlagsInFile(elf: Elf64.Elf, i: nat, segment: Elf64.Segment)
    requires Elf64.Nth(elf, i) == Elf64.Loadable(segment)
    ensures var flags := ReadLe(elf.image, elf.phoff + i * elf.phentsize + 4, 4);
            && flags.Some? && segment.rights.write == (flags.value / 2 % 2 == 1) && segment.rights.exec == (flags.value % 2 == 1)
  {
  }

  lemma WonPage(s: Snapshot, flat: Flat, borrowed: Option<nat>, elf: Elf64.Elf, over: set<nat>, i: nat, page: nat)
    requires Loaded(s, flat, borrowed, elf, elf.phnum, over) && Elf64.Nth(elf, i).Loadable?
    requires var v := Elf64.Nth(elf, i).segment.vaddr / PAGE_SIZE + page; Wins(elf, elf.phnum, i, v) && v !in over
    ensures PageLoaded(s, flat, borrowed, Elf64.Nth(elf, i).segment, page)
  {
    hide Elf64.HeaderAt, PageLoaded;
    assert WonBy(s, flat, borrowed, elf, i, Elf64.Nth(elf, i).segment.vaddr / PAGE_SIZE + page);
  }

  lemma PageFrame(s: Snapshot, root: nat, tags: Tags, flat: Flat, borrowed: Option<nat>, v: nat)
    requires SpaceOk(s, root, tags, flat, borrowed) && v in flat && Some(flat[v].frame) != borrowed
    ensures flat[v].frame % PAGE_SIZE == 0 && flat[v].frame in Owned(tags, flat, borrowed)
    ensures flat[v].frame in s.bytes && |s.bytes[flat[v].frame]| == PAGE_SIZE
  {
    assert flat[v].frame in s.held;
  }

  lemma HeaderAligned(elf: Elf64.Elf, i: nat)
    requires Elf64.Nth(elf, i).Loadable?
    ensures Elf64.Nth(elf, i).segment.vaddr % PAGE_SIZE == 0
  {
  }

  /** Where byte `k` of a segment lies, and that it lies in the user half. */
  lemma SplitAddress(base: nat, k: nat, memsz: nat)
    requires base % 0x1000 == 0 && k / 0x1000 < (memsz + 0xFFF) / 0x1000
    requires base < 0x8000_0000_0000 && memsz <= 0x8000_0000_0000 - base
    ensures (base + k) / 0x1000 == base / 0x1000 + k / 0x1000 && (base + k) % 0x1000 == k % 0x1000
    ensures k / 0x1000 * 0x1000 + k % 0x1000 == k && base + k < 0x8000_0000_0000
  {
  }

  lemma FrameAndOffset(frame: nat, offset: nat)
    requires frame % 0x1000 == 0 && offset < 0x1000
    ensures (frame + offset) / 0x1000 * 0x1000 == frame && (frame + offset) % 0x1000 == offset
  {
  }
}
