/** Usable memory minus what already lives in it: interval subtraction in a buffer of fixed size. */
module FreeRuns {
  import opened Basics
  import opened MemoryMaps

  /** `(start, end)` while exclusions are applied, `(start, length)` once reported. */
  type Pair = (nat, nat)

  predicate WellFormed(s: seq<Pair>) {
    forall k :: 0 <= k < |s| ==> s[k].0 <= s[k].1
  }

  // ---------------------------------------------------------------------------------------
  // The specification, run by run
  // ---------------------------------------------------------------------------------------

  /** Every usable region as a `(start, end)` pair, in order. */
  function UsableRuns(regions: seq<MemoryRegion>): (s: seq<Pair>)
    ensures WellFormed(s)
    ensures |s| <= |regions|
  {
    if regions == [] then []
    else
      var r := regions[|regions| - 1];
      UsableRuns(regions[..|regions| - 1]) + if r.UsableAtBoot() && r.len > 0 then [(r.start, r.End())] else []
  }

  function Left(run: Pair, from: nat): Pair {
    (run.0, Min(Max(from, run.0), run.1))
  }

  function Right(run: Pair, to: nat): Pair {
    (Max(Min(to, run.1), run.0), run.1)
  }

  function Length(run: Pair): nat
    requires run.0 <= run.1
  {
    run.1 - run.0
  }

  /** Take `[from, to)` out of the `i`th run: what is left of it stays, and a second piece is
      appended if there is room, else the shorter one is dropped. */
  function CarveAt(s: seq<Pair>, i: nat, from: nat, to: nat, cap: nat): (r: seq<Pair>)
    requires WellFormed(s) && i < |s| <= cap
    ensures WellFormed(r) && |s| <= |r| <= |s| + 1 && |r| <= cap
  {
    if to <= s[i].0 || from >= s[i].1 then s
    else
      var left, right := Left(s[i], from), Right(s[i], to);
      if Length(left) > 0 && Length(right) > 0 then
        if |s| < cap then s[i := left] + [right]
        else if Length(left) >= Length(right) then s[i := left] else s[i := right]
      else if Length(left) > 0 then s[i := left]
      else if Length(right) > 0 then s[i := right]
      else s[i := (s[i].0, s[i].0)]
  }

  /** An exclusion inside a run splits it: with room, the left piece stays in its place and the right one
      goes to the end; without, the longer of the two is kept, the left one if they are equal. */
  lemma SplitIs(s: seq<Pair>, i: nat, from: nat, to: nat, cap: nat)
    requires WellFormed(s) && i < |s| <= cap && s[i].0 < from <= to < s[i].1
    ensures var r := CarveAt(s, i, from, to, cap);
            && (forall k :: 0 <= k < |s| && k != i ==> r[k] == s[k])
            && (|s| < cap ==> |r| == |s| + 1 && r[i] == (s[i].0, from) && r[|s|] == (to, s[i].1))
            && (|s| == cap ==> |r| == |s| && r[i] == if from - s[i].0 >= s[i].1 - to then (s[i].0, from) else (to, s[i].1))
  {
  }

  /** The runs from `i` up to `before`, one after the other. */
  function CarveFrom(s: seq<Pair>, i: nat, before: nat, from: nat, to: nat, cap: nat): (r: seq<Pair>)
    requires WellFormed(s) && i <= before <= |s| <= cap
    ensures WellFormed(r) && |s| <= |r| <= cap
    decreases before - i
  {
    if i == before then s else CarveFrom(CarveAt(s, i, from, to, cap), i + 1, before, from, to, cap)
  }

  function ExclusionEnd(ex: (u64, u64)): nat {
    SaturatingAdd(ex.0, ex.1)
  }

  function CarveOne(s: seq<Pair>, ex: (u64, u64), cap: nat): (r: seq<Pair>)
    requires WellFormed(s) && |s| <= cap
    ensures WellFormed(r) && |s| <= |r| <= cap
  {
    if ExclusionEnd(ex) <= ex.0 then s else CarveFrom(s, 0, |s|, ex.0, ExclusionEnd(ex), cap)
  }

  function CarveAll(s: seq<Pair>, exclusions: seq<(u64, u64)>, cap: nat): (r: seq<Pair>)
    requires WellFormed(s) && |s| <= cap
    ensures WellFormed(r) && |s| <= |r| <= cap
    decreases |exclusions|
  {
    if exclusions == [] then s else CarveAll(CarveOne(s, exclusions[0], cap), exclusions[1..], cap)
  }

  /** Drop the empty runs and turn ends into lengths. */
  function Compact(s: seq<Pair>): (r: seq<Pair>)
    requires WellFormed(s)
    ensures |r| <= |s|
  {
    if s == [] then []
    else
      var last := s[|s| - 1];
      Compact(s[..|s| - 1]) + if last.1 > last.0 then [(last.0, last.1 - last.0)] else []
  }

  /** The runs as they stand when the last exclusion has been applied. */
  function Carved(regions: seq<MemoryRegion>, exclusions: seq<(u64, u64)>, cap: nat): (r: seq<Pair>)
    ensures WellFormed(r) && |r| <= cap
  {
    var usable := UsableRuns(regions);
    CarveAll(usable[..Min(|usable|, cap)], exclusions, cap)
  }

  /** What is reported: the number of runs kept, and the regions that never fitted. */
  function Reported(regions: seq<MemoryRegion>, exclusions: seq<(u64, u64)>, cap: nat): nat {
    |Compact(Carved(regions, exclusions, cap))| + Max(0, |UsableRuns(regions)| - cap)
  }

  /** What the buffer holds afterwards: the kept runs, then what compaction left behind them. */
  function Buffer(runs: seq<Pair>): (b: seq<Pair>)
    requires WellFormed(runs)
    ensures |b| == |runs|
  {
    Compact(runs) + runs[|Compact(runs)|..]
  }

  // ---------------------------------------------------------------------------------------
  // The loops over the buffer
  // ---------------------------------------------------------------------------------------

  method FreeRuns(regions: seq<MemoryRegion>, exclusions: seq<(u64, u64)>, out: array<Pair>) returns (count: nat)
    modifies out
    ensures count == Reported(regions, exclusions, out.Length)
    ensures var runs := Carved(regions, exclusions, out.Length);
            out[..|runs|] == Buffer(runs) && out[|runs|..] == old(out[..])[|runs|..]
  {
    ghost var rest := out[..];
    var n := PlaceUsable(regions, out);
    var live := Min(n, out.Length);
    live := CarveExclusions(out, live, exclusions, rest);
    var kept := CompactInPlace(out, live, rest);
    count := kept + Max(0, n - out.Length);
  }

  /** The usable regions go in as `(start, end)` while there is room; all of them are counted. */
  method PlaceUsable(regions: seq<MemoryRegion>, out: array<Pair>) returns (n: nat)
    modifies out
    ensures n == |UsableRuns(regions)|
    ensures out[..Min(n, out.Length)] == UsableRuns(regions)[..Min(n, out.Length)]
    ensures out[Min(n, out.Length)..] == old(out[..])[Min(n, out.Length)..]
  {
    n := 0;
    for r := 0 to |regions|
      invariant n == |UsableRuns(regions[..r])|
      invariant out[..Min(n, out.Length)] == UsableRuns(regions[..r])[..Min(n, out.Length)]
      invariant out[Min(n, out.Length)..] == old(out[..])[Min(n, out.Length)..]
    {
      assert regions[..r + 1][..r] == regions[..r];
      if regions[r].UsableAtBoot() && regions[r].len > 0 {
        if n < out.Length {
          out[n] := (regions[r].start, regions[r].End());
        }
        n := n + 1;
      }
    }
    assert regions[..|regions|] == regions;
  }

  /** Every exclusion in turn. */
  method CarveExclusions(out: array<Pair>, placed: nat, exclusions: seq<(u64, u64)>, ghost rest: seq<Pair>)
    returns (live: nat)
    requires placed <= out.Length == |rest| && WellFormed(out[..placed]) && out[placed..] == rest[placed..]
    modifies out
    ensures placed <= live <= out.Length
    ensures WellFormed(old(out[..placed])) && out[..live] == CarveAll(old(out[..placed]), exclusions, out.Length)
    ensures out[live..] == rest[live..]
  {
    ghost var first := out[..placed];
    live := placed;
    for e := 0 to |exclusions|
      invariant placed <= live <= out.Length && WellFormed(out[..live])
      invariant CarveAll(out[..live], exclusions[e..], out.Length) == CarveAll(first, exclusions, out.Length)
      invariant out[live..] == rest[live..]
    {
      var from, to := exclusions[e].0, ExclusionEnd(exclusions[e]);
      assert exclusions[e..][0] == exclusions[e] && exclusions[e..][1..] == exclusions[e + 1..];
      if to > from {
        live := CarveInPlace(out, live, from, to, rest);
      }
    }
  }

  /** The inner loop: every run there was before this exclusion is carved in place. */
  method CarveInPlace(out: array<Pair>, before: nat, from: nat, to: nat, ghost rest: seq<Pair>) returns (live: nat)
    requires before <= out.Length == |rest| && WellFormed(out[..before]) && out[before..] == rest[before..]
    modifies out
    ensures before <= live <= out.Length
    ensures WellFormed(old(out[..before])) && out[..live] == CarveFrom(old(out[..before]), 0, before, from, to, out.Length)
    ensures out[live..] == rest[live..]
  {
    hide CarveAt, Left, Right;
    ghost var first := out[..before];
    live := before;
    for i := 0 to before
      invariant before <= live <= out.Length && WellFormed(out[..live])
      invariant CarveFrom(out[..live], i, before, from, to, out.Length) == CarveFrom(first, 0, before, from, to, out.Length)
      invariant out[live..] == rest[live..]
    {
      live := CarveStep(out, live, i, from, to);
    }
  }

  /** One run gives up `[from, to)`. */
  method CarveStep(out: array<Pair>, before: nat, i: nat, from: nat, to: nat) returns (live: nat)
    requires i < before <= out.Length && WellFormed(out[..before])
    modifies out
    ensures before <= live <= out.Length && WellFormed(old(out[..before]))
    ensures out[..live] == CarveAt(old(out[..before]), i, from, to, out.Length)
    ensures out[live..] == old(out[..])[live..]
  {
    live := before;
    var run := out[i];
    assert run == out[..before][i];
    if to <= run.0 || from >= run.1 {
      return;
    }
    var left, right := Left(run, from), Right(run, to);
    if Length(left) > 0 && Length(right) > 0 {
      if live < out.Length {
        out[i] := left;
        out[live] := right;
        live := live + 1;
      } else {
        out[i] := if Length(left) >= Length(right) then left else right;
      }
    } else if Length(left) > 0 {
      out[i] := left;
    } else if Length(right) > 0 {
      out[i] := right;
    } else {
      out[i] := (run.0, run.0);
    }
  }

  /** Compaction over the same buffer: what lies behind the kept runs is left as it was. */
  method CompactInPlace(out: array<Pair>, live: nat, ghost rest: seq<Pair>) returns (kept: nat)
    requires live <= out.Length == |rest| && WellFormed(out[..live]) && out[live..] == rest[live..]
    modifies out
    ensures WellFormed(old(out[..live])) && kept == |Compact(old(out[..live]))|
    ensures out[..live] == Buffer(old(out[..live])) && out[live..] == rest[live..]
  {
    hide Compact;
    ghost var runs := out[..live];
    kept := 0;
    assert Compact(runs[..0]) == [] by { CompactNothing(); assert runs[..0] == []; }
    for i := 0 to live
      invariant kept == |Compact(runs[..i])| && kept <= i
      invariant out[..kept] == Compact(runs[..i])
      invariant out[kept..live] == runs[kept..]
      invariant out[live..] == rest[live..]
    {
      CompactNext(runs, i);
      var start, end := out[i].0, out[i].1;
      assert out[i] == out[kept..live][i - kept] == runs[i];
      if end > start {
        out[kept] := (start, end - start);
        kept := kept + 1;
      }
    }
    assert runs[..live] == runs;
    assert out[..live] == out[..kept] + out[kept..live];
  }

  lemma CompactNothing()
    ensures Compact([]) == []
  {
  }

  lemma CompactNext(runs: seq<Pair>, i: nat)
    requires WellFormed(runs) && i < |runs|
    ensures Compact(runs[..i + 1]) ==
            Compact(runs[..i]) + if runs[i].1 > runs[i].0 then [(runs[i].0, runs[i].1 - runs[i].0)] else []
  {
    assert runs[..i + 1][..i] == runs[..i];
  }
}
