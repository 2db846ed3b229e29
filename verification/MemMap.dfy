/** From raw firmware descriptors to regions: what the walk keeps of each address and its kind, and
    when its buffer is big enough. */
module MemMap {
  import opened Basics
  import opened MemoryMaps

  const EFI_PAGE_SIZE: nat := 4096
  const DESCRIPTOR_SIZE: nat := 40

  const RESERVED: nat := 0
  const LOADER_CODE: nat := 1
  const LOADER_DATA: nat := 2
  const CONVENTIONAL: nat := 7
  const UNUSABLE: nat := 8
  const ACPI_RECLAIM: nat := 9
  const ACPI_NVS: nat := 10
  const MMIO: nat := 11
  const MMIO_PORT: nat := 12
  const PAL_CODE: nat := 13

  datatype ConvertError = BadDescriptorSize | TooManyRegions(needed: nat)

  /** Each firmware type's kind; only conventional memory is usable. */
  function Classify(ty: nat): (k: MemoryKind)
    ensures (k == Usable <==> ty == 7) && (k == LoaderReclaimable <==> ty in {1, 2}) && (k == BadMemory <==> ty == 8)
    ensures (k == AcpiReclaimable <==> ty == 9) && (k == AcpiNvs <==> ty == 10)
  {
    if ty == CONVENTIONAL then Usable
    else if ty == ACPI_RECLAIM then AcpiReclaimable
    else if ty == ACPI_NVS then AcpiNvs
    else if ty == UNUSABLE then BadMemory
    else if ty == LOADER_CODE || ty == LOADER_DATA then LoaderReclaimable
    else Reserved
  }

  datatype Descriptor = Descriptor(ty: nat, phys: u64, pages: u64) {
    /** The range it describes; its length saturates. */
    function Region(): MemoryRegion {
      MemoryRegion(phys, SaturatingMul(pages, EFI_PAGE_SIZE), Classify(ty))
    }

    predicate IsAperture() {
      ty == RESERVED || ty == MMIO || ty == MMIO_PORT || ty == PAL_CODE
    }
  }

  /** The descriptor at byte `off`, its fields read by their offsets. */
  function DescriptorAt(raw: seq<byte>, off: nat): Descriptor
    requires off + DESCRIPTOR_SIZE <= |raw|
  {
    WordBounds();
    Descriptor(LeValue(raw[off..off + 4]), LeValue(raw[off + 8..off + 16]), LeValue(raw[off + 24..off + 32]))
  }

  /** The whole descriptors of a map, at the firmware's own stride. */
  function Descriptors(raw: seq<byte>, stride: nat): seq<Descriptor>
    requires stride >= DESCRIPTOR_SIZE
    decreases |raw|
  {
    if |raw| < stride then [] else [DescriptorAt(raw, 0)] + Descriptors(raw[stride..], stride)
  }

  /** Those from byte `off` on. */
  function DescriptorsAt(raw: seq<byte>, stride: nat, off: nat): seq<Descriptor>
    requires stride >= DESCRIPTOR_SIZE && off <= |raw|
  {
    Descriptors(raw[off..], stride)
  }

  lemma DescriptorsFrom(raw: seq<byte>, stride: nat, off: nat)
    requires stride >= DESCRIPTOR_SIZE && off + stride <= |raw|
    ensures DescriptorsAt(raw, stride, off) == [DescriptorAt(raw, off)] + DescriptorsAt(raw, stride, off + stride)
  {
    var rest := raw[off..];
    assert rest[stride..] == raw[off + stride..];
    assert rest[0..4] == raw[off..off + 4] && rest[8..16] == raw[off + 8..off + 16] && rest[24..32] == raw[off + 24..off + 32];
  }

  /** The map holds this descriptor at byte `off`, as the firmware's interface lays it out. */
  predicate HoldsDescriptor(raw: seq<byte>, off: nat, d: Descriptor) {
    && off + 40 <= |raw| && d.ty < 0x1_0000_0000
    && raw[off..off + 4] == Le(d.ty, 4) && raw[off + 8..off + 16] == Le(d.phys, 8) && raw[off + 24..off + 32] == Le(d.pages, 8)
  }

  /** Descriptors laid out `stride` bytes apart, whatever lies between and behind them, are read back. */
  lemma DescriptorsRoundTrip(raw: seq<byte>, stride: nat, ds: seq<Descriptor>)
    requires stride >= 40 && |ds| * stride <= |raw| < |ds| * stride + stride
    requires forall i :: 0 <= i < |ds| ==> HoldsDescriptor(raw, i * stride, ds[i])
    ensures Descriptors(raw, stride) == ds
  {
    DescriptorsFromNth(raw, stride, ds, 0);
    assert raw[0..] == raw && ds[0..] == ds;
  }

  lemma {:induction false} DescriptorsFromNth(raw: seq<byte>, stride: nat, ds: seq<Descriptor>, i: nat)
    requires stride >= 40 && |ds| * stride <= |raw| < |ds| * stride + stride && i <= |ds| && i * stride <= |raw|
    requires forall j :: 0 <= j < |ds| ==> HoldsDescriptor(raw, j * stride, ds[j])
    ensures DescriptorsAt(raw, stride, i * stride) == ds[i..]
    decreases |ds| - i
  {
    hide LeValue, Le;
    if i < |ds| {
      NextOne(i, |ds|, stride);
      DescriptorRoundTrip(raw, i * stride, ds[i]);
      DescriptorsFrom(raw, stride, i * stride);
      DescriptorsFromNth(raw, stride, ds, i + 1);
      assert ds[i..] == [ds[i]] + ds[i + 1..];
    }
  }

  lemma NextOne(i: nat, n: nat, stride: nat)
    requires i < n
    ensures i * stride + stride == (i + 1) * stride <= n * stride
  {
    assert n * stride == (i + 1) * stride + (n - i - 1) * stride;
  }

  lemma DescriptorRoundTrip(raw: seq<byte>, off: nat, d: Descriptor)
    requires HoldsDescriptor(raw, off, d)
    ensures DescriptorAt(raw, off) == d
  {
    WordBounds();
    LeRoundTrip(d.ty, 4);
    LeRoundTrip(d.phys, 8);
    LeRoundTrip(d.pages, 8);
  }

  lemma {:induction false} DescriptorCount(raw: seq<byte>, stride: nat)
    requires stride >= DESCRIPTOR_SIZE
    ensures |Descriptors(raw, stride)| == |raw| / stride
    decreases |raw|
  {
    if |raw| < stride {
      OneLess(|raw|, stride);
    } else {
      DescriptorCount(raw[stride..], stride);
      OneLess(|raw|, stride);
    }
  }

  lemma OneLess(x: nat, d: nat)
    requires d > 0
    ensures x < d ==> x / d == 0
    ensures x >= d ==> x / d == (x - d) / d + 1
  {
    if x >= d {
      var q, r := (x - d) / d, (x - d) % d;
      assert x - d == q * d + r;
      assert (q + 1) * d == q * d + d;
      QuotientIs(x, d, q + 1, r);
    } else {
      QuotientIs(x, d, 0, x);
    }
  }

  predicate Merges(prev: MemoryRegion, d: MemoryRegion) {
    prev.kind == d.kind && prev.End() == d.start
  }

  /** One descriptor's range onto the regions so far. */
  function Push(out: seq<MemoryRegion>, d: MemoryRegion): (r: seq<MemoryRegion>)
    ensures |out| <= |r| <= |out| + 1
  {
    if d.len == 0 then out
    else if out != [] && Merges(out[|out| - 1], d) then
      var prev := out[|out| - 1];
      out[..|out| - 1] + [prev.(len := SaturatingAdd(prev.len, d.len))]
    else out + [d]
  }

  function PushAll(out: seq<MemoryRegion>, ds: seq<Descriptor>): (r: seq<MemoryRegion>)
    ensures |out| <= |r| <= |out| + |ds|
    decreases |ds|
  {
    if ds == [] then out else PushAll(Push(out, ds[0].Region()), ds[1..])
  }

  function Coalesce(ds: seq<Descriptor>): (r: seq<MemoryRegion>) {
    PushAll([], ds)
  }

  /** How far a walk with room for `cap` regions gets: to the end, or to a descriptor it has no room
      for, with others still to come. */
  datatype Walked = Fits(all: seq<MemoryRegion>) | Stuck(placed: seq<MemoryRegion>, at: Descriptor, rest: seq<Descriptor>) {
    /** How many regions a buffer is told it should have had room for. */
    function Needed(): nat
      requires Stuck?
    {
      |placed| + 1 + |rest|
    }
  }

  function Walk(sofar: seq<MemoryRegion>, ds: seq<Descriptor>, cap: nat): Walked
    decreases |ds|
  {
    if ds == [] then Fits(sofar)
    else if |Push(sofar, ds[0].Region())| > cap then Stuck(sofar, ds[0], ds[1..])
    else Walk(Push(sofar, ds[0].Region()), ds[1..], cap)
  }

  /** The buffer starts with what was placed and goes on as before; the answer counts it, or asks for
      that many, one more, and one for every descriptor to come. */
  predicate ConvertedTo(w: Walked, before: seq<MemoryRegion>, after: seq<MemoryRegion>, r: Result<nat, ConvertError>) {
    match w
    case Fits(all) => |all| <= |before| && after == all + before[|all|..] && r == Ok(|all|)
    case Stuck(placed, _, _) => |placed| == |before| && after == placed && r == Err(TooManyRegions(w.Needed()))
  }

  /** `convert`: the regions go into `out` as they are found. */
  method Convert(raw: seq<byte>, stride: nat, out: array<MemoryRegion>) returns (r: Result<nat, ConvertError>)
    modifies out
    ensures stride < 40 ==> r == Err(BadDescriptorSize) && out[..] == old(out[..])
    ensures stride >= 40 ==>
              ConvertedTo(Walk([], Descriptors(raw, stride), out.Length), old(out[..]), out[..], r)
  {
    if stride < DESCRIPTOR_SIZE {
      return Err(BadDescriptorSize);
    }
    AllToCome(raw, stride, out.Length);
    HoldsNothing(out, out[..]);
    r := WalkInto(raw, stride, out, out[..], Walk([], Descriptors(raw, stride), out.Length));
  }

  /** The loop of `Convert`, on a buffer that holds `rest`, whose walk ends as `w`. */
  method WalkInto(raw: seq<byte>, stride: nat, out: array<MemoryRegion>, ghost rest: seq<MemoryRegion>, ghost w: Walked)
    returns (r: Result<nat, ConvertError>)
    requires stride >= DESCRIPTOR_SIZE && Holds(out, [], rest) && Yields([], raw, stride, 0, out.Length, w)
    modifies out
    ensures ConvertedTo(w, rest, out[..], r)
  {
    hide Descriptors, DescriptorsAt, Walk, ConvertedTo, Holds, Yields;
    var n: nat, offset := 0, 0;
    ghost var sofar: seq<MemoryRegion> := [];
    while offset + stride <= |raw|
      invariant offset <= |raw| && n == |sofar|
      invariant Holds(out, sofar, rest) && Yields(sofar, raw, stride, offset, out.Length, w)
      decreases |raw| - offset
    {
      var placed;
      placed, sofar := PlaceNext(raw, stride, offset, out, n, sofar, rest, w);
      if placed.Err? {
        return placed;
      }
      offset := offset + stride;
      n := placed.value;
    }
    Finished(out, sofar, raw, stride, offset, rest, w);
    return Ok(n);
  }

  /** One turn of the walk: the descriptor at `offset` is placed, or there is no room for it and the
      answer is how much room there should have been. */
  method PlaceNext(raw: seq<byte>, stride: nat, offset: nat, out: array<MemoryRegion>, n: nat,
                   ghost sofar: seq<MemoryRegion>, ghost rest: seq<MemoryRegion>, ghost w: Walked)
    returns (r: Result<nat, ConvertError>, ghost sofar': seq<MemoryRegion>)
    requires stride >= DESCRIPTOR_SIZE && offset + stride <= |raw| && n == |sofar|
    requires Holds(out, sofar, rest) && Yields(sofar, raw, stride, offset, out.Length, w)
    modifies out
    ensures r.Ok? ==>
              && r.value == |sofar'| && Holds(out, sofar', rest)
              && Yields(sofar', raw, stride, offset + stride, out.Length, w)
    ensures r.Err? ==> ConvertedTo(w, rest, out[..], r)
  {
    hide Descriptors, DescriptorAt, Push, Descriptor.Region, Whole, ConvertedTo, Holds, Yields;
    var d := DescriptorAt(raw, offset).Region();
    sofar' := Push(sofar, d);
    var placed := PushInto(out, n, d, sofar, rest);
    if placed.None? {
      var needed := n + 1 + Whole(|raw| - (offset + stride), stride);
      Full(out, sofar, raw, stride, offset, w, rest, needed);
      r := Err(TooManyRegions(needed));
    } else {
      StepOver(sofar, raw, stride, offset, out.Length, w);
      r := Ok(placed.value);
    }
  }

  /** Going on from `sofar` at byte `offset`, the walk ends as `w`. */
  ghost predicate Yields(sofar: seq<MemoryRegion>, raw: seq<byte>, stride: nat, offset: nat, cap: nat, w: Walked)
    requires stride >= DESCRIPTOR_SIZE && offset <= |raw|
  {
    Walk(sofar, DescriptorsAt(raw, stride, offset), cap) == w
  }

  /** How many whole descriptors so many bytes are. */
  function Whole(bytes: nat, stride: nat): nat
    requires stride > 0
  {
    bytes / stride
  }

  /** The buffer starts with `all` and goes on as `rest` does. */
  ghost predicate Holds(out: array<MemoryRegion>, all: seq<MemoryRegion>, rest: seq<MemoryRegion>)
    reads out
  {
    |all| <= out.Length == |rest| && out[..] == all + rest[|all|..]
  }

  lemma HoldsNothing(out: array<MemoryRegion>, rest: seq<MemoryRegion>)
    requires out[..] == rest
    ensures Holds(out, [], rest)
  {
  }

  lemma Finished(out: array<MemoryRegion>, sofar: seq<MemoryRegion>, raw: seq<byte>, stride: nat, offset: nat,
                 rest: seq<MemoryRegion>, w: Walked)
    requires stride >= DESCRIPTOR_SIZE && offset <= |raw| < offset + stride
    requires Holds(out, sofar, rest) && Yields(sofar, raw, stride, offset, out.Length, w)
    ensures ConvertedTo(w, rest, out[..], Ok(|sofar|))
  {
    NothingLeft(raw, stride, offset);
  }

  /** Where the buffer is full, the walk is stuck at this descriptor. */
  lemma Full(out: array<MemoryRegion>, sofar: seq<MemoryRegion>, raw: seq<byte>, stride: nat, offset: nat, w: Walked,
             rest: seq<MemoryRegion>, needed: nat)
    requires stride >= DESCRIPTOR_SIZE && offset + stride <= |raw| && Yields(sofar, raw, stride, offset, out.Length, w)
    requires |Push(sofar, DescriptorAt(raw, offset).Region())| > |sofar| == |rest| == out.Length && Holds(out, sofar, rest)
    requires needed == |sofar| + 1 + Whole(|raw| - (offset + stride), stride)
    ensures ConvertedTo(w, rest, out[..], Err(TooManyRegions(needed)))
  {
    hide Push, Descriptors, DescriptorAt;
    DescriptorsFrom(raw, stride, offset);
    var later := DescriptorsAt(raw, stride, offset + stride);
    assert ([DescriptorAt(raw, offset)] + later)[1..] == later;
    DescriptorCount(raw[offset + stride..], stride);
    assert w == Stuck(sofar, DescriptorAt(raw, offset), later);
  }

  /** One range onto the first `n` regions of the buffer: dropped, merged or appended; nothing is
      written when it would have to be appended and there is no room. */
  method PushInto(out: array<MemoryRegion>, n: nat, d: MemoryRegion, ghost sofar: seq<MemoryRegion>, ghost rest: seq<MemoryRegion>)
    returns (r: Option<nat>)
    requires n == |sofar| && Holds(out, sofar, rest)
    modifies out
    ensures r.None? <==> |Push(sofar, d)| > out.Length
    ensures r.Some? ==> r.value == |Push(sofar, d)| && Holds(out, Push(sofar, d), rest)
    ensures r.None? ==> n == out.Length == |rest| && Holds(out, sofar, rest)
  {
    if d.len == 0 {
      return Some(n);
    }
    if n > 0 {
      var prev := out[n - 1];
      if prev.kind == d.kind && prev.End() == d.start {
        out[n - 1] := prev.(len := SaturatingAdd(prev.len, d.len));
        return Some(n);
      }
    }
    if n == out.Length {
      return None;
    }
    out[n] := d;
    return Some(n + 1);
  }

  lemma AllToCome(raw: seq<byte>, stride: nat, cap: nat)
    requires stride >= DESCRIPTOR_SIZE
    ensures Yields([], raw, stride, 0, cap, Walk([], Descriptors(raw, stride), cap))
  {
    FromTheStart(raw, stride);
  }

  lemma FromTheStart(raw: seq<byte>, stride: nat)
    requires stride >= DESCRIPTOR_SIZE
    ensures DescriptorsAt(raw, stride, 0) == Descriptors(raw, stride)
  {
    assert raw[0..] == raw;
  }

  lemma NothingLeft(raw: seq<byte>, stride: nat, offset: nat)
    requires stride >= DESCRIPTOR_SIZE && offset <= |raw| < offset + stride
    ensures DescriptorsAt(raw, stride, offset) == []
  {
  }

  lemma StepOver(sofar: seq<MemoryRegion>, raw: seq<byte>, stride: nat, offset: nat, cap: nat, w: Walked)
    requires stride >= DESCRIPTOR_SIZE && offset + stride <= |raw| && Yields(sofar, raw, stride, offset, cap, w)
    requires |Push(sofar, DescriptorAt(raw, offset).Region())| <= cap
    ensures Yields(Push(sofar, DescriptorAt(raw, offset).Region()), raw, stride, offset + stride, cap, w)
  {
    hide Push, Descriptors, DescriptorAt;
    DescriptorsFrom(raw, stride, offset);
    var rest := DescriptorsAt(raw, stride, offset + stride);
    assert ([DescriptorAt(raw, offset)] + rest)[1..] == rest;
  }

  // ---------------------------------------------------------------------------------------
  // The walk and the room it needs
  // ---------------------------------------------------------------------------------------

  lemma {:induction false} WalkIsPushAll(sofar: seq<MemoryRegion>, ds: seq<Descriptor>, cap: nat)
    requires |sofar| <= cap
    ensures match Walk(sofar, ds, cap)
            case Fits(all) => all == PushAll(sofar, ds) && |all| <= cap
            case Stuck(placed, at, rest) =>
              && |placed| == cap && at.Region().len > 0 && (placed != [] ==> !Merges(placed[|placed| - 1], at.Region()))
              && PushAll(sofar, ds) == PushAll(placed + [at.Region()], rest)
    decreases |ds|
  {
    if ds != [] {
      var next := Push(sofar, ds[0].Region());
      if |next| <= cap {
        WalkIsPushAll(next, ds[1..], cap);
      }
    }
  }

  /** The walk writes the whole coalesced map when that fits, and gets stuck exactly when it does
      not; the room it then asks for is more than there was, and enough. */
  lemma WalkFitsIff(ds: seq<Descriptor>, cap: nat)
    ensures Walk([], ds, cap) == Fits(Coalesce(ds)) <==> |Coalesce(ds)| <= cap
    ensures Walk([], ds, cap).Stuck? <==> |Coalesce(ds)| > cap
    ensures Walk([], ds, cap).Stuck? ==> cap < |Coalesce(ds)| <= Walk([], ds, cap).Needed()
  {
    WalkIsPushAll([], ds, cap);
  }

  /** Each of these descriptors is a range of its own: not empty, and not a continuation of the one
      before it. */
  predicate NoneContinues(prev: MemoryRegion, ds: seq<Descriptor>)
    decreases |ds|
  {
    ds == [] || (ds[0].Region().len > 0 && !Merges(prev, ds[0].Region()) && NoneContinues(ds[0].Region(), ds[1..]))
  }

  lemma {:induction false} OneEachIff(out: seq<MemoryRegion>, ds: seq<Descriptor>)
    requires out != []
    ensures |PushAll(out, ds)| == |out| + |ds| <==> NoneContinues(out[|out| - 1], ds)
    decreases |ds|
  {
    if ds != [] {
      var d := ds[0].Region();
      if d.len > 0 && !Merges(out[|out| - 1], d) {
        OneEachIff(out + [d], ds[1..]);
      }
    }
  }

  /** The number a too small buffer is told is what the map needs exactly when every descriptor after
      the one that did not fit is a range of its own: not empty, and not a continuation of the one
      before it. Otherwise it is more. */
  lemma ShortfallIsExactIff(ds: seq<Descriptor>, cap: nat)
    requires Walk([], ds, cap).Stuck?
    ensures var w := Walk([], ds, cap);
            && |Coalesce(ds)| <= w.Needed()
            && (|Coalesce(ds)| == w.Needed() <==> NoneContinues(w.at.Region(), w.rest))
  {
    WalkIsPushAll([], ds, cap);
    var w := Walk([], ds, cap);
    OneEachIff(w.placed + [w.at.Region()], w.rest);
  }

  /** One conventional page: its descriptor as the firmware writes it, 4 KiB at `page * 4096`. */
  function OnePage(page: byte): seq<byte>
    requires page < 16
  {
    [CONVENTIONAL, 0, 0, 0] + ZEROS[..4] + [0, 16 * page, 0, 0, 0, 0, 0, 0] + ZEROS + [1, 0, 0, 0, 0, 0, 0, 0] + ZEROS
  }

  lemma OnePageIs(page: byte, more: seq<byte>)
    requires page < 16
    ensures |OnePage(page)| == DESCRIPTOR_SIZE
    ensures Descriptors(OnePage(page) + more, DESCRIPTOR_SIZE) ==
            [Descriptor(CONVENTIONAL, page * 4096, 1)] + Descriptors(more, DESCRIPTOR_SIZE)
  {
    var raw := OnePage(page) + more;
    assert raw[0..4] == [CONVENTIONAL, 0, 0, 0];
    assert raw[8..16] == [0, 16 * page, 0, 0, 0, 0, 0, 0];
    assert raw[24..32] == [1, 0, 0, 0, 0, 0, 0, 0];
    LittleValues(CONVENTIONAL, 0);
    LittleValues(0, 16 * page);
    LittleValues(1, 0);
    assert raw[DESCRIPTOR_SIZE..] == more;
  }

  /** It can be more: of two adjacent pages of one kind, a buffer with no room is told it needs two
      regions, and one is enough. */
  lemma ShortfallCanOverstate(r: Result<nat, ConvertError>)
    requires ConvertedTo(Walk([], Descriptors(OnePage(0) + OnePage(1), DESCRIPTOR_SIZE), 0), [], [], r)
    ensures r == Err(TooManyRegions(2))
    ensures Coalesce(Descriptors(OnePage(0) + OnePage(1), DESCRIPTOR_SIZE)) == [MemoryRegion(0, 8192, Usable)]
  {
    hide Descriptors, Walk, Coalesce, OnePage;
    OnePageIs(0, OnePage(1));
    OnePageIs(1, []);
    assert OnePage(1) + [] == OnePage(1);
    NothingDescribed();
    var ds := Descriptors(OnePage(0) + OnePage(1), DESCRIPTOR_SIZE);
    assert ds == [Descriptor(CONVENTIONAL, 0, 1), Descriptor(CONVENTIONAL, 4096, 1)];
    TwoPages();
  }

  lemma NothingDescribed()
    ensures Descriptors([], DESCRIPTOR_SIZE) == []
  {
  }

  lemma TwoPages()
    ensures var ds := [Descriptor(CONVENTIONAL, 0, 1), Descriptor(CONVENTIONAL, 4096, 1)];
            Walk([], ds, 0) == Stuck([], ds[0], [ds[1]]) && Coalesce(ds) == [MemoryRegion(0, 8192, Usable)]
  {
    var a, b := Descriptor(CONVENTIONAL, 0, 1), Descriptor(CONVENTIONAL, 4096, 1);
    assert [a, b][1..] == [b] && [b][1..] == [];
    var first := Push([], a.Region());
    assert first == [MemoryRegion(0, 4096, Usable)];
    assert PushAll(first, [b]) == Push(first, b.Region());
  }

  // ---------------------------------------------------------------------------------------
  // What coalescing preserves
  // ---------------------------------------------------------------------------------------

  /** Some region of this kind covers the address. */
  predicate CoveredAs(s: seq<MemoryRegion>, kind: MemoryKind, a: nat) {
    exists k :: 0 <= k < |s| && s[k].kind == kind && s[k].Contains(a)
  }

  function Regions(ds: seq<Descriptor>): (s: seq<MemoryRegion>)
    ensures |s| == |ds| && forall k :: 0 <= k < |s| ==> s[k] == ds[k].Region()
  {
    seq(|ds|, k requires 0 <= k < |ds| => ds[k].Region())
  }

  function TotalBytes(s: seq<MemoryRegion>): nat {
    if s == [] then 0 else TotalBytes(s[..|s| - 1]) + s[|s| - 1].len
  }

  lemma TotalOfOneMore(s: seq<MemoryRegion>, d: MemoryRegion)
    ensures TotalBytes(s + [d]) == TotalBytes(s) + d.len
  {
    assert (s + [d])[..|s|] == s;
  }

  /** The length of what `d` is merged into can take its length as well. */
  predicate LengthFits(out: seq<MemoryRegion>, d: MemoryRegion) {
    d.len > 0 && out != [] && Merges(out[|out| - 1], d) ==> out[|out| - 1].len + d.len <= U64_MAX
  }

  /** One more descriptor: its addresses join its kind's, its bytes the total, unless a length
      saturates. */
  lemma PushPreserves(out: seq<MemoryRegion>, d: MemoryRegion, kind: MemoryKind, a: nat)
    ensures CoveredAs(Push(out, d), kind, a) <==> CoveredAs(out, kind, a) || (d.kind == kind && d.Contains(a))
    ensures TotalBytes(Push(out, d)) <= TotalBytes(out) + d.len
    ensures TotalBytes(Push(out, d)) == TotalBytes(out) + d.len <==> LengthFits(out, d)
  {
    hide CoveredAs, TotalBytes;
    if d.len == 0 {
      assert !d.Contains(a);
    } else if out != [] && Merges(out[|out| - 1], d) {
      MergePreserves(out[..|out| - 1], out[|out| - 1], d, kind, a);
      assert out == out[..|out| - 1] + [out[|out| - 1]];
    } else {
      TotalOfOneMore(out, d);
      CoveredByLast(out, d, kind, a);
    }
  }

  lemma MergePreserves(rest: seq<MemoryRegion>, prev: MemoryRegion, d: MemoryRegion, kind: MemoryKind, a: nat)
    requires d.len > 0 && Merges(prev, d)
    ensures var merged := prev.(len := SaturatingAdd(prev.len, d.len));
            && (CoveredAs(rest + [merged], kind, a) <==> CoveredAs(rest + [prev], kind, a) || (d.kind == kind && d.Contains(a)))
            && TotalBytes(rest + [merged]) <= TotalBytes(rest + [prev]) + d.len
            && (TotalBytes(rest + [merged]) == TotalBytes(rest + [prev]) + d.len <==> prev.len + d.len <= U64_MAX)
  {
    hide CoveredAs, TotalBytes;
    var merged := prev.(len := SaturatingAdd(prev.len, d.len));
    TotalOfOneMore(rest, prev);
    TotalOfOneMore(rest, merged);
    CoveredByLast(rest, prev, kind, a);
    CoveredByLast(rest, merged, kind, a);
  }

  lemma CoveredByLast(s: seq<MemoryRegion>, d: MemoryRegion, kind: MemoryKind, a: nat)
    ensures CoveredAs(s + [d], kind, a) <==> CoveredAs(s, kind, a) || (d.kind == kind && d.Contains(a))
  {
    var t := s + [d];
    assert t[|s|] == d;
    if CoveredAs(s, kind, a) {
      var k :| 0 <= k < |s| && s[k].kind == kind && s[k].Contains(a);
      assert t[k] == s[k];
    }
  }

  lemma CoveredByFirst(ds: seq<Descriptor>, kind: MemoryKind, a: nat)
    requires ds != []
    ensures CoveredAs(Regions(ds), kind, a) <==>
            CoveredAs(Regions(ds[1..]), kind, a) || (ds[0].Region().kind == kind && ds[0].Region().Contains(a))
    ensures TotalBytes(Regions(ds)) == ds[0].Region().len + TotalBytes(Regions(ds[1..]))
  {
    hide CoveredAs, TotalBytes;
    var s, t := Regions(ds), Regions(ds[1..]);
    assert s == [ds[0].Region()] + t;
    CoveredInFront(ds[0].Region(), t, kind, a);
    TotalFromFront(s);
    assert s[1..] == t;
  }

  lemma CoveredInFront(d: MemoryRegion, t: seq<MemoryRegion>, kind: MemoryKind, a: nat)
    ensures CoveredAs([d] + t, kind, a) <==> CoveredAs(t, kind, a) || (d.kind == kind && d.Contains(a))
  {
    var s := [d] + t;
    if CoveredAs(t, kind, a) {
      var k :| 0 <= k < |t| && t[k].kind == kind && t[k].Contains(a);
      assert s[k + 1] == t[k];
    }
    assert s[0] == d;
  }

  lemma {:induction false} TotalFromFront(s: seq<MemoryRegion>)
    requires s != []
    ensures TotalBytes(s) == s[0].len + TotalBytes(s[1..])
    decreases |s|
  {
    if |s| > 1 {
      var rest := s[..|s| - 1];
      TotalFromFront(rest);
      assert s[1..][..|s| - 2] == rest[1..];
    } else {
      assert s[..0] == [] == s[1..];
    }
  }

  /** No length saturates on the way: every merged region can take what is merged into it. */
  predicate LengthsFit(out: seq<MemoryRegion>, ds: seq<Descriptor>)
    decreases |ds|
  {
    ds == [] || (LengthFits(out, ds[0].Region()) && LengthsFit(Push(out, ds[0].Region()), ds[1..]))
  }

  /** Whatever was there already, coalescing more descriptors onto it adds exactly their addresses,
      kind by kind, and their bytes, all of them exactly when no length saturates. */
  lemma {:induction false} PushAllPreserves(out: seq<MemoryRegion>, ds: seq<Descriptor>, kind: MemoryKind, a: nat)
    ensures CoveredAs(PushAll(out, ds), kind, a) <==> CoveredAs(out, kind, a) || CoveredAs(Regions(ds), kind, a)
    ensures TotalBytes(PushAll(out, ds)) <= TotalBytes(out) + TotalBytes(Regions(ds))
    ensures TotalBytes(PushAll(out, ds)) == TotalBytes(out) + TotalBytes(Regions(ds)) <==> LengthsFit(out, ds)
    decreases |ds|
  {
    if ds != [] {
      hide Push, LengthFits;
      var d := ds[0].Region();
      PushPreserves(out, d, kind, a);
      PushAllPreserves(Push(out, d), ds[1..], kind, a);
      CoveredByFirst(ds, kind, a);
    }
  }

  /** Converting preserves meaning: an address is covered with a kind afterwards exactly when some
      descriptor of that kind covers it; and the bytes add up to the same total exactly when no length
      saturates. */
  lemma ConvertPreserves(raw: seq<byte>, stride: nat, kind: MemoryKind, a: nat)
    requires stride >= DESCRIPTOR_SIZE
    ensures var ds := Descriptors(raw, stride);
            && (CoveredAs(Coalesce(ds), kind, a) <==> CoveredAs(Regions(ds), kind, a))
            && (TotalBytes(Coalesce(ds)) == TotalBytes(Regions(ds)) <==> LengthsFit([], ds))
  {
    PushAllPreserves([], Descriptors(raw, stride), kind, a);
  }

  predicate NoOverflow(s: seq<MemoryRegion>) {
    forall k :: 0 <= k < |s| ==> s[k].start + s[k].len <= U64_MAX
  }

  /** None does where no descriptor reaches past the top of the address space. */
  lemma {:induction false} OrdinaryMapsFit(out: seq<MemoryRegion>, ds: seq<Descriptor>)
    requires NoOverflow(out) && NoOverflow(Regions(ds))
    ensures LengthsFit(out, ds)
    decreases |ds|
  {
    if ds != [] {
      var d := ds[0].Region();
      assert d == Regions(ds)[0];
      forall k | 0 <= k < |ds[1..]|
        ensures Regions(ds[1..])[k] == Regions(ds)[k + 1]
      {
      }
      OrdinaryMapsFit(Push(out, d), ds[1..]);
    }
  }

  /** The two halves of the address space: merged, they are a byte short. */
  lemma TopByteIsDropped()
    ensures var ds := [Descriptor(CONVENTIONAL, 0, 0x8_0000_0000_0000), Descriptor(CONVENTIONAL, 0x8000_0000_0000_0000, 0x8_0000_0000_0000)];
            !LengthsFit([], ds) && TotalBytes(Coalesce(ds)) < TotalBytes(Regions(ds))
  {
    var a := Descriptor(CONVENTIONAL, 0, 0x8_0000_0000_0000);
    var b := Descriptor(CONVENTIONAL, 0x8000_0000_0000_0000, 0x8_0000_0000_0000);
    assert [a, b][1..] == [b] && [b][1..] == [];
    assert Push([], a.Region()) == [MemoryRegion(0, 0x8000_0000_0000_0000, Usable)];
    PushAllPreserves([], [a, b], Usable, 0);
  }

  predicate Separate(s: seq<MemoryRegion>) {
    && (forall k :: 0 <= k < |s| ==> s[k].len > 0)
    && (forall k :: 0 < k < |s| ==> !Merges(s[k - 1], s[k]))
  }

  lemma {:induction false} StaysSeparate(out: seq<MemoryRegion>, ds: seq<Descriptor>)
    requires Separate(out)
    ensures Separate(PushAll(out, ds))
    decreases |ds|
  {
    if ds != [] {
      StaysSeparate(Push(out, ds[0].Region()), ds[1..]);
    }
  }

  /** No region of the result is empty, and no two neighbours could still be merged. */
  lemma NothingLeftToMerge(ds: seq<Descriptor>)
    ensures Separate(Coalesce(ds))
  {
    StaysSeparate([], ds);
  }

  /** One slot per descriptor is always room enough: the walk cannot fail. */
  lemma OneSlotEach(raw: seq<byte>, stride: nat, capacity: nat)
    requires stride >= DESCRIPTOR_SIZE && capacity >= |raw| / stride
    ensures Walk([], Descriptors(raw, stride), capacity) == Fits(Coalesce(Descriptors(raw, stride)))
  {
    DescriptorCount(raw, stride);
    WalkFitsIff(Descriptors(raw, stride), capacity);
  }

  // ---------------------------------------------------------------------------------------
  // How far memory reaches
  // ---------------------------------------------------------------------------------------

  /** One past the last byte of what a descriptor describes, or the top of the address space. */
  function TopOf(d: Descriptor): nat {
    Min(d.phys + 4096 * d.pages, 0xFFFF_FFFF_FFFF_FFFF)
  }

  /** Every type counts as memory but reserved ranges, device windows and firmware code: types 0, 11, 12
      and 13. */
  predicate IsMemory(d: Descriptor) {
    d.ty !in {0, 11, 12, 13}
  }

  lemma RegionTop(d: Descriptor)
    ensures d.Region().End() == TopOf(d) && (d.IsAperture() <==> !IsMemory(d))
  {
  }

  /** The least multiple of `align` that no memory reaches past, or the top of the address space
      when there is none below it. */
  method HighestRamAddress(raw: seq<byte>, stride: nat, align: u64) returns (r: Result<nat, ConvertError>)
    ensures if stride < 40 then r == Err(BadDescriptorSize) else r.Ok?
    ensures r.Ok? ==> forall d :: d in Descriptors(raw, stride) && IsMemory(d) ==> TopOf(d) <= r.value
    ensures r.Ok? && r.value < U64_MAX ==> align > 0 && r.value % align == 0
    ensures r.Ok? && 0 < align <= r.value < U64_MAX ==>
              exists d :: d in Descriptors(raw, stride) && IsMemory(d) && TopOf(d) > r.value - align
    ensures r.Ok? && r.value == U64_MAX && align > 0 ==>
              exists d :: d in Descriptors(raw, stride) && IsMemory(d) && TopOf(d) > U64_MAX - align
  {
    if stride < DESCRIPTOR_SIZE {
      return Err(BadDescriptorSize);
    }
    hide Descriptors, DescriptorsAt, DescriptorAt, Descriptor.Region, NextMultiple, TopOf, IsMemory, Descriptor.IsAperture;
    var hi, offset := 0, 0;
    ghost var seen: seq<Descriptor>, all := [], Descriptors(raw, stride);
    FromTheStart(raw, stride);
    while offset + stride <= |raw|
      invariant offset <= |raw| && 0 <= hi <= U64_MAX
      invariant seen + DescriptorsAt(raw, stride, offset) == all
      invariant forall d :: d in seen && IsMemory(d) ==> TopOf(d) <= hi
      invariant hi > 0 ==> exists d :: d in seen && IsMemory(d) && TopOf(d) == hi
      decreases |raw| - offset
    {
      var d := DescriptorAt(raw, offset);
      DescriptorsFrom(raw, stride, offset);
      RegionTop(d);
      offset := offset + stride;
      seen := seen + [d];
      if d.IsAperture() {
        continue;
      }
      hi := Max(hi, d.Region().End());
    }
    NothingLeft(raw, stride, offset);
    assert seen == all;
    ReachIsNext(all, hi, align);
    return Ok(NextMultiple(hi, align));
  }

  /** What the next multiple means for memory that reaches to `hi`. */
  lemma ReachIsNext(ds: seq<Descriptor>, hi: nat, align: u64)
    requires hi <= U64_MAX && (forall d :: d in ds && IsMemory(d) ==> TopOf(d) <= hi)
    requires hi > 0 ==> exists d :: d in ds && IsMemory(d) && TopOf(d) == hi
    ensures var r := NextMultiple(hi, align);
            && (forall d :: d in ds && IsMemory(d) ==> TopOf(d) <= r)
            && (r < U64_MAX ==> align > 0 && r % align == 0)
            && (0 < align <= r < U64_MAX ==> exists d :: d in ds && IsMemory(d) && TopOf(d) > r - align)
            && (r == U64_MAX && align > 0 ==> exists d :: d in ds && IsMemory(d) && TopOf(d) > U64_MAX - align)
  {
    hide NextMultiple, TopOf, IsMemory;
    NextMultipleMeans(hi, align);
    if hi > 0 {
      var d :| d in ds && IsMemory(d) && TopOf(d) == hi;
    }
  }

  /** `checked_next_multiple_of(..).unwrap_or(u64::MAX)`. */
  function NextMultiple(x: nat, align: u64): nat {
    if align == 0 then U64_MAX
    else
      var r := (x + align - 1) / align * align;
      if r > U64_MAX then U64_MAX else r
  }

  lemma NextMultipleMeans(x: nat, align: u64)
    requires x <= U64_MAX
    ensures x <= NextMultiple(x, align)
    ensures NextMultiple(x, align) < U64_MAX ==> align > 0 && NextMultiple(x, align) % align == 0
    ensures NextMultiple(x, align) < U64_MAX && NextMultiple(x, align) >= align ==> x > NextMultiple(x, align) - align
    ensures NextMultiple(x, align) == U64_MAX ==> align == 0 || x > U64_MAX - align
  {
    if align > 0 {
      var q, rem := (x + align - 1) / align, (x + align - 1) % align;
      assert x + align - 1 == q * align + rem;
      assert (q * align) % align == 0 by { MultipleOf(q, align); }
    }
  }

  lemma MultipleOf(q: nat, d: nat)
    requires d > 0
    ensures (q * d) % d == 0
  {
    QuotientIs(q * d, d, q, 0);
    assert q * d == (q * d) / d * d + (q * d) % d;
  }
}
