/** What the free runs are: usable memory minus the exclusions, address by address. */
module FreeMemory {
  import opened Basics
  import opened MemoryMaps
  import opened FreeRuns

  /** The address lies in the range, which stops short of the last byte of the address space. */
  predicate Spans(start: nat, len: nat, a: nat) {
    start <= a < start + len && a < 0xFFFF_FFFF_FFFF_FFFF
  }

  predicate InRun(run: Pair, a: nat) {
    run.0 <= a < run.1
  }

  /** Some working run covers the address. */
  predicate Covered(s: seq<Pair>, a: nat) {
    exists k :: 0 <= k < |s| && InRun(s[k], a)
  }

  predicate InReported(run: Pair, a: nat) {
    run.0 <= a < run.0 + run.1
  }

  /** Some reported `(start, length)` covers the address. */
  predicate Free(r: seq<Pair>, a: nat) {
    exists k :: 0 <= k < |r| && InReported(r[k], a)
  }

  predicate UsableAt(regions: seq<MemoryRegion>, a: nat) {
    exists k :: 0 <= k < |regions| && regions[k].kind == Usable && Spans(regions[k].start, regions[k].len, a)
  }

  predicate ExcludedBy(ex: (u64, u64), a: nat) {
    Spans(ex.0, ex.1, a)
  }

  predicate ExcludedAt(exclusions: seq<(u64, u64)>, a: nat) {
    exists k :: 0 <= k < |exclusions| && ExcludedBy(exclusions[k], a)
  }

  /** No address lies in two of the runs. */
  predicate Disjoint(s: seq<Pair>) {
    forall i, j :: 0 <= i < j < |s| ==> s[i].1 <= s[j].0 || s[j].1 <= s[i].0 || Empty(s[i]) || Empty(s[j])
  }

  predicate Empty(run: Pair) {
    run.0 >= run.1
  }

  ghost predicate DisjointRegions(regions: seq<MemoryRegion>) {
    forall i, j, a: nat ::
      (0 <= i < j < |regions| && regions[i].kind == Usable && regions[j].kind == Usable && Spans(regions[i].start, regions[i].len, a)) ==>
        !Spans(regions[j].start, regions[j].len, a)
  }

  // ---------------------------------------------------------------------------------------
  // From regions to runs and back
  // ---------------------------------------------------------------------------------------

  lemma {:induction false} RunsAreRegions(regions: seq<MemoryRegion>, a: nat)
    ensures Covered(UsableRuns(regions), a) <==> UsableAt(regions, a)
  {
    if regions != [] {
      var rest, r := regions[..|regions| - 1], regions[|regions| - 1];
      RunsAreRegions(rest, a);
      var s, t := UsableRuns(rest), UsableRuns(regions);
      if Covered(s, a) {
        var k :| 0 <= k < |s| && InRun(s[k], a);
        assert InRun(t[k], a);
      }
      if UsableAt(rest, a) {
        var k :| 0 <= k < |rest| && rest[k].kind == Usable && Spans(rest[k].start, rest[k].len, a);
        assert regions[k].kind == Usable && Spans(regions[k].start, regions[k].len, a);
      }
      if r.kind == Usable && Spans(r.start, r.len, a) {
        assert InRun(t[|s|], a);
      }
    }
  }

  /** Every usable region that is not empty is a run of its own, in its place; nothing else is. */
  lemma RunsInOrder(a: seq<MemoryRegion>, r: MemoryRegion, b: seq<MemoryRegion>)
    ensures UsableRuns(a + [r] + b) ==
            UsableRuns(a) + (if r.kind == Usable && r.len > 0 then [(r.start, Min(r.start + r.len, U64_MAX))] else []) + UsableRuns(b)
  {
    SplitRegions(a + [r], b);
    SplitRegions(a, [r]);
  }

  lemma {:induction false} SplitRegions(a: seq<MemoryRegion>, b: seq<MemoryRegion>)
    ensures UsableRuns(a + b) == UsableRuns(a) + UsableRuns(b)
  {
    if b == [] {
      assert a + b == a;
    } else {
      SplitRegions(a, b[..|b| - 1]);
      assert (a + b)[..|a + b| - 1] == a + b[..|b| - 1];
    }
  }

  lemma {:induction false} RegionsDisjoint(regions: seq<MemoryRegion>)
    requires DisjointRegions(regions)
    ensures Disjoint(UsableRuns(regions))
  {
    if regions != [] {
      var rest, r := regions[..|regions| - 1], regions[|regions| - 1];
      assert DisjointRegions(rest) by {
        forall i, j, a: nat | 0 <= i < j < |rest| && rest[i].kind == Usable && rest[j].kind == Usable && Spans(rest[i].start, rest[i].len, a)
          ensures !Spans(rest[j].start, rest[j].len, a)
        {
          assert Spans(regions[i].start, regions[i].len, a);
        }
      }
      RegionsDisjoint(rest);
      var s := UsableRuns(rest);
      if r.kind == Usable && r.len > 0 {
        forall i | 0 <= i < |s|
          ensures s[i].1 <= r.start || r.End() <= s[i].0 || Empty(s[i]) || Empty((r.start, r.End()))
        {
          var a := Max(s[i].0, r.start);
          assert !(InRun(s[i], a) && Spans(r.start, r.len, a)) by {
            RunsAreRegions(rest, a);
            if InRun(s[i], a) {
              assert Covered(s, a);
              var k :| 0 <= k < |rest| && rest[k].kind == Usable && Spans(rest[k].start, rest[k].len, a);
              assert regions[k] == rest[k];
            }
          }
        }
      }
    }
  }

  lemma {:induction false} CompactKeepsMemory(s: seq<Pair>, a: nat)
    requires WellFormed(s)
    ensures Free(Compact(s), a) <==> Covered(s, a)
  {
    if s != [] {
      var rest, last := s[..|s| - 1], s[|s| - 1];
      CompactKeepsMemory(rest, a);
      var r, t := Compact(rest), Compact(s);
      if Free(r, a) {
        var k :| 0 <= k < |r| && InReported(r[k], a);
        assert InReported(t[k], a);
      }
      if Covered(rest, a) {
        var k :| 0 <= k < |rest| && InRun(rest[k], a);
        assert InRun(s[k], a);
      }
      if InRun(last, a) {
        assert InReported(t[|r|], a);
      }
    }
  }

  // ---------------------------------------------------------------------------------------
  // Carving only ever takes away
  // ---------------------------------------------------------------------------------------

  predicate Inside(inner: Pair, outer: Pair) {
    outer.0 <= inner.0 && inner.1 <= outer.1
  }

  predicate FitsIn(run: Pair, s: seq<Pair>) {
    exists j :: 0 <= j < |s| && Inside(run, s[j])
  }

  /** Every run lies inside a run there was. */
  predicate Shrunk(s: seq<Pair>, r: seq<Pair>) {
    forall k :: 0 <= k < |r| ==> FitsIn(r[k], s)
  }

  lemma FitsTwice(run: Pair, r: seq<Pair>, s: seq<Pair>)
    requires FitsIn(run, r) && Shrunk(s, r)
    ensures FitsIn(run, s)
  {
    var i :| 0 <= i < |r| && Inside(run, r[i]);
    assert FitsIn(r[i], s);
    var j :| 0 <= j < |s| && Inside(r[i], s[j]);
    assert Inside(run, s[j]);
  }

  lemma ShrunkTwice(s: seq<Pair>, r: seq<Pair>, t: seq<Pair>)
    requires Shrunk(s, r) && Shrunk(r, t)
    ensures Shrunk(s, t)
  {
    hide FitsIn;
    forall k | 0 <= k < |t|
      ensures FitsIn(t[k], s)
    {
      FitsTwice(t[k], r, s);
    }
  }

  lemma ShrunkNone(s: seq<Pair>)
    ensures Shrunk(s, s)
  {
    forall k | 0 <= k < |s|
      ensures FitsIn(s[k], s)
    {
      assert Inside(s[k], s[k]);
    }
  }

  predicate Avoids(run: Pair, from: nat, to: nat) {
    run.1 <= from || to <= run.0 || Empty(run)
  }

  /** No run meets the exclusion. */
  predicate Clear(s: seq<Pair>, ex: (u64, u64)) {
    ex.0 < ExclusionEnd(ex) ==> forall k :: 0 <= k < |s| ==> Avoids(s[k], ex.0, ExclusionEnd(ex))
  }

  lemma ClearMeans(s: seq<Pair>, ex: (u64, u64), k: nat, a: nat)
    requires Clear(s, ex) && k < |s| && InRun(s[k], a)
    ensures !ExcludedBy(ex, a)
  {
    if ex.0 < ExclusionEnd(ex) {
      assert Avoids(s[k], ex.0, ExclusionEnd(ex));
    }
  }

  predicate AllClear(s: seq<Pair>, exclusions: seq<(u64, u64)>) {
    forall e :: 0 <= e < |exclusions| ==> Clear(s, exclusions[e])
  }

  lemma StaysClear(s: seq<Pair>, r: seq<Pair>, ex: (u64, u64))
    requires Clear(s, ex) && Shrunk(s, r)
    ensures Clear(r, ex)
  {
    if ex.0 < ExclusionEnd(ex) {
      forall k | 0 <= k < |r|
        ensures Avoids(r[k], ex.0, ExclusionEnd(ex))
      {
        assert FitsIn(r[k], s);
        var j :| 0 <= j < |s| && Inside(r[k], s[j]);
      }
    }
  }

  /** What one carving does: the runs but the `i`th stay, what replaces the `i`th and what is
      appended lie inside it, avoid the interval and do not overlap. */
  lemma CarveAtFacts(s: seq<Pair>, i: nat, from: nat, to: nat, cap: nat)
    requires WellFormed(s) && i < |s| <= cap && from < to
    ensures var r := CarveAt(s, i, from, to, cap);
            && (forall k :: 0 <= k < |s| && k != i ==> r[k] == s[k])
            && Inside(r[i], s[i]) && Avoids(r[i], from, to)
            && (|r| > |s| ==>
                  && Inside(r[|s|], s[i]) && Avoids(r[|s|], from, to) && r[i].1 <= r[|s|].0
                  && s[i].0 < from < to < s[i].1)
  {
  }

  lemma CarveAtShrinks(s: seq<Pair>, i: nat, from: nat, to: nat, cap: nat)
    requires WellFormed(s) && i < |s| <= cap && from < to
    ensures Shrunk(s, CarveAt(s, i, from, to, cap))
  {
    hide CarveAt;
    CarveAtFacts(s, i, from, to, cap);
    var r := CarveAt(s, i, from, to, cap);
    forall k | 0 <= k < |r|
      ensures FitsIn(r[k], s)
    {
      if k < |s| && k != i {
        assert Inside(r[k], s[k]);
      } else {
        assert Inside(r[k], s[i]);
      }
    }
  }

  lemma CarveAtDisjoint(s: seq<Pair>, i: nat, from: nat, to: nat, cap: nat)
    requires WellFormed(s) && i < |s| <= cap && from < to && Disjoint(s)
    ensures Disjoint(CarveAt(s, i, from, to, cap))
  {
    hide CarveAt;
    CarveAtFacts(s, i, from, to, cap);
  }

  /** After the pass over all runs, none meets the interval. */
  lemma {:induction false} CarveFromAvoids(s: seq<Pair>, i: nat, before: nat, from: nat, to: nat, cap: nat)
    requires WellFormed(s) && i <= before <= |s| <= cap && from < to
    requires forall k :: 0 <= k < |s| && !(i <= k < before) ==> Avoids(s[k], from, to)
    ensures var r := CarveFrom(s, i, before, from, to, cap);
            Shrunk(s, r) && (Disjoint(s) ==> Disjoint(r)) && forall k :: 0 <= k < |r| ==> Avoids(r[k], from, to)
    decreases before - i
  {
    hide CarveAt, Shrunk, Disjoint, Avoids, Inside, WellFormed;
    ShrunkNone(s);
    if i < before {
      var s' := CarveAt(s, i, from, to, cap);
      CarveAtFacts(s, i, from, to, cap);
      CarveAtShrinks(s, i, from, to, cap);
      if Disjoint(s) {
        CarveAtDisjoint(s, i, from, to, cap);
      }
      CarveFromAvoids(s', i + 1, before, from, to, cap);
      ShrunkTwice(s, s', CarveFrom(s, i, before, from, to, cap));
    }
  }

  lemma CarveOneIsSafe(s: seq<Pair>, ex: (u64, u64), cap: nat)
    requires WellFormed(s) && |s| <= cap
    ensures var r := CarveOne(s, ex, cap);
            Shrunk(s, r) && (Disjoint(s) ==> Disjoint(r)) && Clear(r, ex)
  {
    hide Disjoint, Shrunk;
    ShrunkNone(s);
    if ex.0 < ExclusionEnd(ex) {
      CarveFromAvoids(s, 0, |s|, ex.0, ExclusionEnd(ex), cap);
    }
  }

  /** Whatever runs there are in the end lie inside the runs there were and meet no exclusion. */
  lemma {:induction false} CarveAllIsSafe(s: seq<Pair>, exclusions: seq<(u64, u64)>, cap: nat)
    requires WellFormed(s) && |s| <= cap
    ensures var r := CarveAll(s, exclusions, cap);
            Shrunk(s, r) && (Disjoint(s) ==> Disjoint(r)) && AllClear(r, exclusions)
    decreases |exclusions|
  {
    hide Disjoint, Shrunk, Clear, WellFormed, CarveOne;
    ShrunkNone(s);
    if exclusions != [] {
      var ex, rest := exclusions[0], exclusions[1..];
      var s' := CarveOne(s, ex, cap);
      CarveOneIsSafe(s, ex, cap);
      CarveAllIsSafe(s', rest, cap);
      var r := CarveAll(s', rest, cap);
      ShrunkTwice(s, s', r);
      StaysClear(s', r, ex);
      forall e | 0 <= e < |exclusions|
        ensures Clear(r, exclusions[e])
      {
        if e > 0 {
          assert exclusions[e] == rest[e - 1];
        }
      }
    }
  }

  /** With only room for the usable regions, or less: every run kept is inside a usable region and
      meets no exclusion, and no run is empty. */
  lemma KeptRunsAreFree(regions: seq<MemoryRegion>, exclusions: seq<(u64, u64)>, cap: nat, a: nat)
    ensures var r := Compact(Carved(regions, exclusions, cap));
            && (Free(r, a) ==> UsableAt(regions, a) && !ExcludedAt(exclusions, a))
            && forall k :: 0 <= k < |r| ==> r[k].1 > 0
  {
    hide Compact, UsableRuns, Carved, UsableAt;
    var runs := Carved(regions, exclusions, cap);
    CompactKeepsMemory(runs, a);
    CompactNonEmpty(runs);
    RunsAreRegions(regions, a);
    if Covered(runs, a) {
      CarvedIsFree(regions, exclusions, cap, a);
    }
  }

  lemma CarvedIsFree(regions: seq<MemoryRegion>, exclusions: seq<(u64, u64)>, cap: nat, a: nat)
    requires Covered(Carved(regions, exclusions, cap), a)
    ensures Covered(UsableRuns(regions), a) && !ExcludedAt(exclusions, a)
  {
    hide CarveAll, UsableRuns;
    var usable, runs := UsableRuns(regions), Carved(regions, exclusions, cap);
    var s := usable[..Min(|usable|, cap)];
    CarveAllIsSafe(s, exclusions, cap);
    var k :| 0 <= k < |runs| && InRun(runs[k], a);
    assert FitsIn(runs[k], s);
    var j :| 0 <= j < |s| && Inside(runs[k], s[j]);
    assert InRun(usable[j], a);
    forall e | 0 <= e < |exclusions|
      ensures !ExcludedBy(exclusions[e], a)
    {
      ClearMeans(runs, exclusions[e], k, a);
    }
  }

  lemma {:induction false} CompactNonEmpty(s: seq<Pair>)
    requires WellFormed(s)
    ensures forall k :: 0 <= k < |Compact(s)| ==> Compact(s)[k].1 > 0
  {
    if s != [] {
      CompactNonEmpty(s[..|s| - 1]);
    }
  }

  // ---------------------------------------------------------------------------------------
  // With room, nothing is lost
  // ---------------------------------------------------------------------------------------

  /** One run, with room for a second piece: exactly the interval is gone from it. */
  lemma CarveAtExact(s: seq<Pair>, i: nat, from: nat, to: nat, cap: nat, a: nat)
    requires WellFormed(s) && i < |s| < cap && from < to
    ensures var r := CarveAt(s, i, from, to, cap);
            InRun(s[i], a) && !(from <= a < to) <==> InRun(r[i], a) || (|r| > |s| && InRun(r[|s|], a))
  {
  }

  lemma CarveAtCovers(s: seq<Pair>, i: nat, from: nat, to: nat, cap: nat, a: nat)
    requires WellFormed(s) && i < |s| < cap && from < to && !(from <= a < to)
    ensures Covered(CarveAt(s, i, from, to, cap), a) <==> Covered(s, a)
  {
    hide CarveAt;
    CarveAtFacts(s, i, from, to, cap);
    CarveAtExact(s, i, from, to, cap, a);
    var r := CarveAt(s, i, from, to, cap);
    if Covered(s, a) {
      var k :| 0 <= k < |s| && InRun(s[k], a);
      if k != i {
        assert InRun(r[k], a);
      } else if InRun(r[i], a) {
      } else {
        assert InRun(r[|s|], a);
      }
    }
    if Covered(r, a) {
      var k :| 0 <= k < |r| && InRun(r[k], a);
      if k < |s| && k != i {
        assert InRun(s[k], a);
      } else {
        assert InRun(s[i], a);
      }
    }
  }

  /** Of disjoint runs, an interval can split only one: one free slot is room enough. */
  lemma {:induction false} CarveFromExact(s: seq<Pair>, i: nat, before: nat, from: nat, to: nat, cap: nat, a: nat)
    requires WellFormed(s) && Disjoint(s) && i <= before <= |s| < cap && from < to && !(from <= a < to)
    ensures var r := CarveFrom(s, i, before, from, to, cap);
            |r| <= |s| + 1 && (Covered(r, a) <==> Covered(s, a))
    decreases before - i
  {
    if i < before {
      hide CarveAt, Covered, Disjoint, Inside, WellFormed, Avoids;
      var s' := CarveAt(s, i, from, to, cap);
      CarveAtFacts(s, i, from, to, cap);
      CarveAtDisjoint(s, i, from, to, cap);
      CarveAtCovers(s, i, from, to, cap, a);
      if |s'| > |s| {
        OthersFar(s, i, from, to);
        CarveFromFar(s', i + 1, before, from, to, cap);
      } else {
        CarveFromExact(s', i + 1, before, from, to, cap, a);
      }
    }
  }

  lemma OthersFar(s: seq<Pair>, i: nat, from: nat, to: nat)
    requires WellFormed(s) && Disjoint(s) && i < |s| && s[i].0 < from < to < s[i].1
    ensures forall k :: 0 <= k < |s| && k != i ==> Avoids(s[k], from, to)
  {
  }

  /** Runs that avoid the interval already, empty ones included, are left as they are. */
  lemma {:induction false} CarveFromFar(s: seq<Pair>, i: nat, before: nat, from: nat, to: nat, cap: nat)
    requires WellFormed(s) && i <= before <= |s| <= cap && from < to
    requires forall k :: i <= k < before ==> Avoids(s[k], from, to)
    ensures CarveFrom(s, i, before, from, to, cap) == s
    decreases before - i
  {
    if i < before {
      CarveEmpty(s, i, from, to, cap);
      CarveFromFar(s, i + 1, before, from, to, cap);
    }
  }

  lemma CarveEmpty(s: seq<Pair>, i: nat, from: nat, to: nat, cap: nat)
    requires WellFormed(s) && i < |s| <= cap && from < to && Avoids(s[i], from, to)
    ensures CarveAt(s, i, from, to, cap) == s
  {
    assert s[i := s[i]] == s;
    if Empty(s[i]) {
      assert s[i] == (s[i].0, s[i].0);
    }
  }

  lemma {:induction false} CarveAllExact(s: seq<Pair>, exclusions: seq<(u64, u64)>, cap: nat, a: nat)
    requires WellFormed(s) && Disjoint(s) && |s| + |exclusions| <= cap && !ExcludedAt(exclusions, a)
    ensures Covered(CarveAll(s, exclusions, cap), a) <==> Covered(s, a)
    decreases |exclusions|
  {
    if exclusions != [] {
      hide Disjoint, Covered;
      var ex, rest := exclusions[0], exclusions[1..];
      assert !ExcludedBy(ex, a);
      assert !ExcludedAt(rest, a) by {
        forall k | 0 <= k < |rest|
          ensures !ExcludedBy(rest[k], a)
        {
          assert rest[k] == exclusions[k + 1];
        }
      }
      var s' := CarveOne(s, ex, cap);
      CarveOneIsSafe(s, ex, cap);
      if ex.0 < ExclusionEnd(ex) {
        CarveFromExact(s, 0, |s|, ex.0, ExclusionEnd(ex), cap, a);
      }
      CarveAllExact(s', rest, cap, a);
    }
  }

  /** Exact subtraction: with disjoint usable regions and room for one run per region and one per
      exclusion, an address is in a reported run exactly when it is usable and not excluded. */
  lemma FreeRunsAreExact(regions: seq<MemoryRegion>, exclusions: seq<(u64, u64)>, cap: nat, a: nat)
    requires DisjointRegions(regions) && |UsableRuns(regions)| + |exclusions| <= cap
    ensures Free(Compact(Carved(regions, exclusions, cap)), a) <==> UsableAt(regions, a) && !ExcludedAt(exclusions, a)
    ensures Reported(regions, exclusions, cap) == |Compact(Carved(regions, exclusions, cap))|
  {
    KeptRunsAreFree(regions, exclusions, cap, a);
    if UsableAt(regions, a) && !ExcludedAt(exclusions, a) {
      var s := UsableRuns(regions);
      assert s[..Min(|s|, cap)] == s;
      RunsAreRegions(regions, a);
      RegionsDisjoint(regions);
      CarveAllExact(s, exclusions, cap, a);
      CompactKeepsMemory(Carved(regions, exclusions, cap), a);
    }
  }

  /** Disjoint usable regions give disjoint runs, whatever room there is. */
  lemma KeptRunsAreDisjoint(regions: seq<MemoryRegion>, exclusions: seq<(u64, u64)>, cap: nat, i: nat, j: nat, a: nat)
    requires DisjointRegions(regions)
    requires i < j < |Compact(Carved(regions, exclusions, cap))|
    ensures var r := Compact(Carved(regions, exclusions, cap)); InReported(r[i], a) ==> !InReported(r[j], a)
  {
    var usable := UsableRuns(regions);
    var s := usable[..Min(|usable|, cap)];
    RegionsDisjoint(regions);
    assert Disjoint(s);
    CarveAllIsSafe(s, exclusions, cap);
    CompactDisjoint(Carved(regions, exclusions, cap), i, j, a);
  }

  /** Where a kept run comes from, in order. */
  lemma {:induction false} CompactOrigin(s: seq<Pair>, i: nat) returns (k: nat)
    requires WellFormed(s) && i < |Compact(s)|
    ensures k < |s| && s[k].0 < s[k].1 && Compact(s)[i] == (s[k].0, s[k].1 - s[k].0)
    ensures |Compact(s[..k])| == i
  {
    var rest := s[..|s| - 1];
    if i < |Compact(rest)| {
      k := CompactOrigin(rest, i);
      assert rest[..k] == s[..k];
    } else {
      k := |s| - 1;
    }
  }

  lemma CompactDisjoint(s: seq<Pair>, i: nat, j: nat, a: nat)
    requires WellFormed(s) && Disjoint(s) && i < j < |Compact(s)|
    ensures InReported(Compact(s)[i], a) ==> !InReported(Compact(s)[j], a)
  {
    var k := CompactOrigin(s, i);
    var l := CompactOrigin(s, j);
    assert k != l;
  }

  // ---------------------------------------------------------------------------------------
  // How many entries a caller may trust
  // ---------------------------------------------------------------------------------------

  /** A reported entry is a run of free memory. */
  ghost predicate Genuine(regions: seq<MemoryRegion>, exclusions: seq<(u64, u64)>, run: Pair) {
    run.1 > 0 && forall a: nat :: InReported(run, a) ==> UsableAt(regions, a) && !ExcludedAt(exclusions, a)
  }

  /** How many entries a caller reads who takes the count at its word, as far as the buffer goes. */
  ghost function Counted(regions: seq<MemoryRegion>, exclusions: seq<(u64, u64)>, cap: nat): nat {
    Min(Reported(regions, exclusions, cap), cap)
  }

  /** If entry `k` is counted, it is there and it is a run of free memory. */
  ghost predicate HonestAt(regions: seq<MemoryRegion>, exclusions: seq<(u64, u64)>, cap: nat, k: nat) {
    var b := Buffer(Carved(regions, exclusions, cap));
    k < Counted(regions, exclusions, cap) ==> k < |b| && Genuine(regions, exclusions, b[k])
  }

  ghost predicate CountIsHonest(regions: seq<MemoryRegion>, exclusions: seq<(u64, u64)>, cap: nat) {
    forall k: nat :: HonestAt(regions, exclusions, cap, k)
  }

  lemma KeptAreGenuine(regions: seq<MemoryRegion>, exclusions: seq<(u64, u64)>, cap: nat, k: nat)
    requires k < |Compact(Carved(regions, exclusions, cap))|
    ensures Genuine(regions, exclusions, Compact(Carved(regions, exclusions, cap))[k])
  {
    var r := Compact(Carved(regions, exclusions, cap));
    KeptRunsAreFree(regions, exclusions, cap, 0);
    forall a: nat | InReported(r[k], a)
      ensures UsableAt(regions, a) && !ExcludedAt(exclusions, a)
    {
      assert Free(r, a);
      KeptRunsAreFree(regions, exclusions, cap, a);
    }
  }

  /** Excluding all of memory empties every run but leaves its start in place. */
  const EVERYTHING: (u64, u64) := (0, U64_MAX)

  lemma {:induction false} EverythingSwallowed(s: seq<Pair>, i: nat, cap: nat)
    requires WellFormed(s) && i <= |s| <= cap
    requires forall k :: 0 <= k < |s| ==> s[k].1 <= U64_MAX && (k < i ==> Empty(s[k]))
    ensures var r := CarveFrom(s, i, |s|, 0, U64_MAX, cap);
            |r| == |s| && forall k :: 0 <= k < |s| ==> Empty(r[k]) && r[k].0 == s[k].0
    decreases |s| - i
  {
    if i < |s| {
      EverythingSwallowed(CarveAt(s, i, 0, U64_MAX, cap), i + 1, cap);
    }
  }

  lemma {:induction false} CompactOfEmpties(s: seq<Pair>)
    requires WellFormed(s) && forall k :: 0 <= k < |s| ==> Empty(s[k])
    ensures Compact(s) == []
  {
    if s != [] {
      CompactOfEmpties(s[..|s| - 1]);
    }
  }

  lemma {:induction false} UsableRunsBounded(regions: seq<MemoryRegion>)
    ensures forall k :: 0 <= k < |UsableRuns(regions)| ==> UsableRuns(regions)[k].1 <= U64_MAX
  {
    if regions != [] {
      UsableRunsBounded(regions[..|regions| - 1]);
    }
  }

  /** With more usable regions than room, the count can be a lie: with all of memory excluded the
      first entry is still counted, and there is no memory for it to be. */
  lemma TooManyRegions(regions: seq<MemoryRegion>, cap: nat)
    requires |UsableRuns(regions)| > cap > 0
    ensures !CountIsHonest(regions, [EVERYTHING], cap)
  {
    var s := UsableRuns(regions)[..cap];
    UsableRunsBounded(regions);
    var runs := CarveFrom(s, 0, cap, 0, U64_MAX, cap);
    EverythingSwallowed(s, 0, cap);
    assert [EVERYTHING][1..] == [];
    assert CarveAll(s, [EVERYTHING], cap) == CarveAll(runs, [EVERYTHING][1..], cap) == runs;
    CompactOfEmpties(runs);
    assert Buffer(runs)[0] == runs[0];
    NothingIsGenuine(regions, runs[0]);
    assert !HonestAt(regions, [EVERYTHING], cap, 0);
  }

  lemma NothingIsGenuine(regions: seq<MemoryRegion>, run: Pair)
    ensures !Genuine(regions, [EVERYTHING], run)
  {
    if run.1 > 0 {
      NowhereFree(regions, run.0);
      assert InReported(run, run.0);
    }
  }

  lemma NowhereFree(regions: seq<MemoryRegion>, a: nat)
    ensures !UsableAt(regions, a) || ExcludedAt([EVERYTHING], a)
  {
    if a < U64_MAX {
      assert ExcludedBy([EVERYTHING][0], a);
    }
  }

  /** Where the usable regions fit, what is counted is what was kept. */
  lemma FittingIsHonest(regions: seq<MemoryRegion>, exclusions: seq<(u64, u64)>, cap: nat, k: nat)
    requires |UsableRuns(regions)| <= cap
    ensures HonestAt(regions, exclusions, cap, k)
  {
    hide Carved, UsableRuns, Genuine, CarveAll, Compact;
    var runs := Carved(regions, exclusions, cap);
    if k < |Compact(runs)| {
      KeptAreGenuine(regions, exclusions, cap, k);
      assert Buffer(runs)[k] == Compact(runs)[k];
    }
  }

  /** Whatever is excluded, the counted entries are runs of free memory: this holds exactly when
      the usable regions fit the buffer, or the buffer has no entries to misread. */
  lemma CountIsHonestIff(regions: seq<MemoryRegion>, cap: nat)
    ensures (forall exclusions :: CountIsHonest(regions, exclusions, cap)) <==> |UsableRuns(regions)| <= cap || cap == 0
  {
    hide HonestAt, UsableRuns;
    if |UsableRuns(regions)| <= cap {
      forall exclusions, k: nat
        ensures HonestAt(regions, exclusions, cap, k)
      {
        FittingIsHonest(regions, exclusions, cap, k);
      }
    } else if cap > 0 {
      TooManyRegions(regions, cap);
    } else {
      forall exclusions, k: nat
        ensures HonestAt(regions, exclusions, cap, k)
      {
        NoRoomNoEntries(regions, exclusions, k);
      }
    }
  }

  lemma NoRoomNoEntries(regions: seq<MemoryRegion>, exclusions: seq<(u64, u64)>, k: nat)
    ensures HonestAt(regions, exclusions, 0, k)
  {
  }

  // ---------------------------------------------------------------------------------------
  // The largest run
  // ---------------------------------------------------------------------------------------

  const MAX_FREE_RUNS: nat := 96
  const NO_RUN: Pair := (0, 0)

  /** The first of the longest entries. */
  function Longest(s: seq<Pair>): (r: Option<Pair>)
    ensures r.None? <==> s == []
    ensures r.Some? ==> exists n :: 0 <= n < |s| && s[n] == r.value && (forall k :: 0 <= k < |s| ==> s[k].1 <= r.value.1)
                                     && forall k :: 0 <= k < n ==> s[k].1 < r.value.1
  {
    if s == [] then None
    else
      var best, last := Longest(s[..|s| - 1]), s[|s| - 1];
      assert s == s[..|s| - 1] + [last];
      assert last == s[|s| - 1];
      if best.None? || last.1 > best.value.1 then Some(last) else best
  }

  lemma BufferHasCounted(regions: seq<MemoryRegion>, exclusions: seq<(u64, u64)>, cap: nat)
    ensures Counted(regions, exclusions, cap) <= |Carved(regions, exclusions, cap)| <= cap
  {
    var usable := UsableRuns(regions);
    assert |usable[..Min(|usable|, cap)]| == Min(|usable|, cap);
  }

  /** The entries `largest_free_run` looks at. */
  ghost function Scratch(regions: seq<MemoryRegion>, exclusions: seq<(u64, u64)>): seq<Pair> {
    BufferHasCounted(regions, exclusions, MAX_FREE_RUNS);
    Buffer(Carved(regions, exclusions, MAX_FREE_RUNS))[..Counted(regions, exclusions, MAX_FREE_RUNS)]
  }

  /** `largest_free_run`: over a scratch buffer of its own, the first of the longest entries counted
      in it. */
  method LargestFreeRun(regions: seq<MemoryRegion>, exclusions: seq<(u64, u64)>) returns (best: Option<Pair>)
    ensures best == Longest(Scratch(regions, exclusions))
  {
    hide Compact, Carved, UsableRuns, Longest, Buffer;
    best := None;
    var scratch: array<Pair> := new Pair[MAX_FREE_RUNS](_ => NO_RUN);
    var found := FreeRuns.FreeRuns(regions, exclusions, scratch);
    BufferHasCounted(regions, exclusions, MAX_FREE_RUNS);
    var n := Min(found, MAX_FREE_RUNS);
    ghost var read := Scratch(regions, exclusions);
    assert scratch[..n] == read by { assert scratch[..n] == scratch[..|Carved(regions, exclusions, MAX_FREE_RUNS)|][..n]; }
    assert read[..0] == [];
    for i := 0 to n
      invariant best == Longest(read[..i]) && scratch[..n] == read
    {
      assert scratch[i] == scratch[..n][i] == read[i];
      OneLonger(read, i);
      if best.None? || scratch[i].1 > best.value.1 {
        best := Some(scratch[i]);
      }
    }
    assert read[..n] == read;
  }

  lemma OneLonger(s: seq<Pair>, i: nat)
    requires i < |s|
    ensures var best := Longest(s[..i]);
            Longest(s[..i + 1]) == if best.None? || s[i].1 > best.value.1 then Some(s[i]) else best
  {
    assert s[..i + 1][..i] == s[..i];
  }

  /** With the usable regions fitting its scratch buffer, the answer is a longest run of free memory,
      and there is none only when nothing is free. */
  lemma LargestIsLargest(regions: seq<MemoryRegion>, exclusions: seq<(u64, u64)>, a: nat)
    requires DisjointRegions(regions) && |UsableRuns(regions)| + |exclusions| <= MAX_FREE_RUNS
    ensures var r := Longest(Scratch(regions, exclusions));
            && (r.None? ==> !(UsableAt(regions, a) && !ExcludedAt(exclusions, a)))
            && (r.Some? ==> Genuine(regions, exclusions, r.value)
                            && forall k :: 0 <= k < |Compact(Carved(regions, exclusions, MAX_FREE_RUNS))| ==>
                                 Compact(Carved(regions, exclusions, MAX_FREE_RUNS))[k].1 <= r.value.1)
  {
    hide Carved, UsableRuns, Genuine, CarveAll, Compact, Longest;
    var runs := Carved(regions, exclusions, MAX_FREE_RUNS);
    FreeRunsAreExact(regions, exclusions, MAX_FREE_RUNS, a);
    assert Scratch(regions, exclusions) == Compact(runs);
    var r := Longest(Compact(runs));
    if r.Some? {
      var k :| 0 <= k < |Compact(runs)| && Compact(runs)[k] == r.value;
      KeptAreGenuine(regions, exclusions, MAX_FREE_RUNS, k);
    }
  }

  /** Whatever is excluded, the answer is a run of free memory or none: exactly when there are no
      more usable regions than the scratch buffer has entries. Past that, with all of memory excluded,
      the answer is an entry left over from before it was. */
  lemma LargestIsFreeIff(regions: seq<MemoryRegion>)
    ensures (forall exclusions :: AnswersFree(regions, exclusions)) <==> |UsableRuns(regions)| <= 96
  {
    hide AnswersFree, UsableRuns;
    if |UsableRuns(regions)| <= MAX_FREE_RUNS {
      forall exclusions
        ensures AnswersFree(regions, exclusions)
      {
        FittingAnswersFree(regions, exclusions);
      }
    } else {
      CrowdedAnswersStale(regions);
    }
  }

  ghost predicate AnswersFree(regions: seq<MemoryRegion>, exclusions: seq<(u64, u64)>) {
    var r := Longest(Scratch(regions, exclusions));
    r.Some? ==> Genuine(regions, exclusions, r.value)
  }

  lemma FittingAnswersFree(regions: seq<MemoryRegion>, exclusions: seq<(u64, u64)>)
    requires |UsableRuns(regions)| <= MAX_FREE_RUNS
    ensures AnswersFree(regions, exclusions)
  {
    hide Carved, UsableRuns, Genuine, CarveAll, Compact, Longest;
    var runs := Carved(regions, exclusions, MAX_FREE_RUNS);
    assert Scratch(regions, exclusions) == Compact(runs);
    var r := Longest(Compact(runs));
    if r.Some? {
      var k :| 0 <= k < |Compact(runs)| && Compact(runs)[k] == r.value;
      KeptAreGenuine(regions, exclusions, MAX_FREE_RUNS, k);
    }
  }

  lemma CrowdedAnswersStale(regions: seq<MemoryRegion>)
    requires |UsableRuns(regions)| > MAX_FREE_RUNS
    ensures !AnswersFree(regions, [EVERYTHING])
  {
    hide Carved, UsableRuns, Genuine, CarveAll, Compact, Longest;
    BufferHasCounted(regions, [EVERYTHING], MAX_FREE_RUNS);
    NothingIsGenuine(regions, Longest(Scratch(regions, [EVERYTHING])).value);
  }
}
