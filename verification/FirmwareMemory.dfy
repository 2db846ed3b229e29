/** From the firmware's descriptors to the frame pool: which memory ends up free. */
module FirmwareMemory {
  import opened Basics
  import opened Counting
  import opened MemoryMaps
  import opened MemMap
  import opened FreeRuns
  import opened FreeMemory

  /** The descriptor says the address is conventional memory. */
  predicate Conventional(d: Descriptor, a: nat) {
    d.ty == 7 && d.phys <= a < d.phys + 4096 * d.pages && a < 0xFFFF_FFFF_FFFF_FFFF
  }

  /** No two descriptors call one address conventional. */
  ghost predicate Apart(ds: seq<Descriptor>) {
    forall i, j, a: nat :: 0 <= i < j < |ds| && Conventional(ds[i], a) ==> !Conventional(ds[j], a)
  }

  function CoversOne(a: nat): MemoryRegion -> nat {
    (r: MemoryRegion) => if r.kind == Usable && Spans(r.start, r.len, a) then 1 else 0
  }

  lemma RegionOf(d: Descriptor, a: nat)
    ensures CoversOne(a)(d.Region()) == if Conventional(d, a) then 1 else 0
  {
  }

  /** Coalescing covers an address as often as the descriptors do. */
  lemma PushCounts(out: seq<MemoryRegion>, d: MemoryRegion, a: nat)
    ensures Sum(Push(out, d), CoversOne(a)) == Sum(out, CoversOne(a)) + CoversOne(a)(d)
  {
    hide Sum, CoversOne;
    if d.len > 0 && out != [] && Merges(out[|out| - 1], d) {
      var rest, prev := out[..|out| - 1], out[|out| - 1];
      MergedCounts(prev, d, a);
      assert out == rest + [prev];
      SumAppend(rest, prev, CoversOne(a));
      SumAppend(rest, prev.(len := SaturatingAdd(prev.len, d.len)), CoversOne(a));
    } else if d.len > 0 {
      SumAppend(out, d, CoversOne(a));
    } else {
      EmptyCounts(d, a);
    }
  }

  lemma MergedCounts(prev: MemoryRegion, d: MemoryRegion, a: nat)
    requires d.len > 0 && Merges(prev, d)
    ensures CoversOne(a)(prev.(len := SaturatingAdd(prev.len, d.len))) == CoversOne(a)(prev) + CoversOne(a)(d)
  {
  }

  lemma EmptyCounts(d: MemoryRegion, a: nat)
    requires d.len == 0
    ensures CoversOne(a)(d) == 0
  {
  }

  lemma {:induction false} PushAllCounts(out: seq<MemoryRegion>, ds: seq<Descriptor>, a: nat)
    ensures Sum(PushAll(out, ds), CoversOne(a)) == Sum(out, CoversOne(a)) + Sum(Regions(ds), CoversOne(a))
    decreases |ds|
  {
    if ds != [] {
      hide Push;
      var d := ds[0].Region();
      PushCounts(out, d, a);
      PushAllCounts(Push(out, d), ds[1..], a);
      assert Regions(ds) == [d] + Regions(ds[1..]);
      SumPrepend(d, Regions(ds[1..]), CoversOne(a));
    }
  }

  lemma {:induction false} SumPrepend<T>(x: T, s: seq<T>, f: T -> nat)
    ensures Sum([x] + s, f) == f(x) + Sum(s, f)
  {
    if s == [] {
      assert ([x] + s)[..0] == [];
    } else {
      SumPrepend(x, s[..|s| - 1], f);
      assert ([x] + s)[..|s|] == [x] + s[..|s| - 1];
    }
  }

  /** Where two elements count, the sum is two at least. */
  lemma {:induction false} TwoCount<T>(s: seq<T>, i: nat, j: nat, f: T -> nat)
    requires i < j < |s| && f(s[i]) == 1 && f(s[j]) == 1
    ensures Sum(s, f) >= 2
  {
    if j < |s| - 1 {
      TwoCount(s[..|s| - 1], i, j, f);
    } else {
      OneCounts(s[..|s| - 1], i, f);
    }
  }

  lemma {:induction false} OneCounts<T>(s: seq<T>, i: nat, f: T -> nat)
    requires i < |s| && f(s[i]) == 1
    ensures Sum(s, f) >= 1
  {
    if i < |s| - 1 {
      OneCounts(s[..|s| - 1], i, f);
    }
  }

  lemma {:induction false} AtMostOne(ds: seq<Descriptor>, a: nat)
    requires Apart(ds)
    ensures Sum(Regions(ds), CoversOne(a)) <= 1
    ensures Sum(Regions(ds), CoversOne(a)) == 1 ==> exists i :: 0 <= i < |ds| && Conventional(ds[i], a)
  {
    if ds != [] {
      var rest, d := ds[..|ds| - 1], ds[|ds| - 1];
      assert Regions(ds)[..|ds| - 1] == Regions(rest);
      AtMostOne(rest, a);
      RegionOf(d, a);
      if Sum(Regions(rest), CoversOne(a)) == 1 {
        var i :| 0 <= i < |rest| && Conventional(rest[i], a);
        assert Conventional(ds[i], a);
      }
    }
  }

  lemma StillApart(ds: seq<Descriptor>)
    requires Apart(ds)
    ensures DisjointRegions(Coalesce(ds))
  {
    var all := Coalesce(ds);
    forall i, j, a: nat | 0 <= i < j < |all| && all[i].kind == Usable && all[j].kind == Usable && Spans(all[i].start, all[i].len, a)
      ensures !Spans(all[j].start, all[j].len, a)
    {
      PushAllCounts([], ds, a);
      AtMostOne(ds, a);
      if Spans(all[j].start, all[j].len, a) {
        TwoCount(all, i, j, CoversOne(a));
      }
    }
  }

  /** An address is usable on the kernel's map exactly when some descriptor calls it conventional. */
  lemma UsableIsConventional(ds: seq<Descriptor>, a: nat)
    ensures UsableAt(Coalesce(ds), a) <==> exists i :: 0 <= i < |ds| && Conventional(ds[i], a)
  {
    hide CoveredAs, UsableAt, Conventional, Coalesce, Regions, TotalBytes;
    Preserved(ds, a);
    UsableIsCovered(Coalesce(ds), a);
    ConventionalIsCovered(ds, a);
  }

  lemma Preserved(ds: seq<Descriptor>, a: nat)
    ensures CoveredAs(Coalesce(ds), Usable, a) <==> CoveredAs(Regions(ds), Usable, a)
  {
    hide CoveredAs;
    PushAllPreserves([], ds, Usable, a);
    NothingCovered(a);
  }

  lemma NothingCovered(a: nat)
    ensures !CoveredAs([], Usable, a)
  {
  }

  lemma UsableIsCovered(all: seq<MemoryRegion>, a: nat)
    ensures UsableAt(all, a) <==> CoveredAs(all, Usable, a)
  {
    if UsableAt(all, a) {
      var k :| 0 <= k < |all| && all[k].kind == Usable && Spans(all[k].start, all[k].len, a);
      assert all[k].Contains(a);
    }
    if CoveredAs(all, Usable, a) {
      var k :| 0 <= k < |all| && all[k].kind == Usable && all[k].Contains(a);
      assert Spans(all[k].start, all[k].len, a);
    }
  }

  lemma ConventionalIsCovered(ds: seq<Descriptor>, a: nat)
    ensures CoveredAs(Regions(ds), Usable, a) <==> exists i :: 0 <= i < |ds| && Conventional(ds[i], a)
  {
    var each := Regions(ds);
    if CoveredAs(each, Usable, a) {
      var i :| 0 <= i < |each| && each[i].kind == Usable && each[i].Contains(a);
      RegionIs(ds[i], a);
      assert Conventional(ds[i], a);
    }
    if i :| 0 <= i < |ds| && Conventional(ds[i], a) {
      RegionIs(ds[i], a);
      assert each[i].kind == Usable && each[i].Contains(a);
    }
  }

  lemma RegionIs(d: Descriptor, a: nat)
    ensures d.Region().kind == Usable && d.Region().Contains(a) <==> Conventional(d, a)
  {
  }

  /** End to end: what the frame pool gets is conventional memory clear of every exclusion; and where no
      two descriptors overlap and there is room for all of them and a piece per exclusion, it gets all
      of that. */
  lemma PoolIsConventional(raw: seq<byte>, stride: nat, exclusions: seq<(u64, u64)>, cap: nat, a: nat)
    requires stride >= 40
    ensures var ds := Descriptors(raw, stride);
            var pool := Compact(Carved(Coalesce(ds), exclusions, cap));
            && (Free(pool, a) ==> (exists i :: 0 <= i < |ds| && Conventional(ds[i], a)) && !ExcludedAt(exclusions, a))
            && (Apart(ds) && |ds| + |exclusions| <= cap ==>
                  (Free(pool, a) <==> (exists i :: 0 <= i < |ds| && Conventional(ds[i], a)) && !ExcludedAt(exclusions, a)))
  {
    hide Compact, Carved, UsableAt, ExcludedAt, Conventional, Free;
    var ds := Descriptors(raw, stride);
    KeptRunsAreFree(Coalesce(ds), exclusions, cap, a);
    UsableIsConventional(ds, a);
    if Apart(ds) && |ds| + |exclusions| <= cap {
      StillApart(ds);
      FreeRunsAreExact(Coalesce(ds), exclusions, cap, a);
    }
  }
}
