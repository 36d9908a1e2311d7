/** Reading the boot memory map: which frames get a page, which are usable, and the page totals. */
module PmmMap {
  import opened MemoryMap
  import opened PmmFacts
  import opened Statuses

  const LOW_FRAMES := 256
  const FRAME_LIMIT := 0x4_0000_0000
  const SPAN_FRAMES := 1024
  const MAX_SPANS := 128
  const MAX_USABLE := 256
  const MAX_RECLAIM := 16

  function Min(a: nat, b: nat): nat {
    if a < b then a else b
  }

  function Max(a: nat, b: nat): nat {
    if a > b then a else b
  }

  function SpanDown(p: nat): (q: nat)
    ensures q % SPAN_FRAMES == 0 && q <= p < q + SPAN_FRAMES
  {
    p - p % SPAN_FRAMES
  }

  function SpanUp(p: nat): (q: nat)
    ensures q % SPAN_FRAMES == 0 && p <= q < p + SPAN_FRAMES
  {
    SpanDown(p + SPAN_FRAMES - 1)
  }

  predicate IsManaged(kind: nat) {
    kind in {USABLE, LOADER_RECLAIM, KERNEL, INITRD, ACPI_RECLAIM}
  }

  function First(r: Region): nat {
    r.base / PAGE
  }

  function End(r: Region): nat {
    (r.base + r.length) / PAGE
  }

  predicate Scannable(r: Region) {
    r.base % PAGE == 0 == r.length % PAGE && USABLE <= r.kind <= FRAMEBUFFER
  }

  /** Regions in ascending order without overlap. */
  ghost predicate Ordered(regions: seq<Region>) {
    forall i, j | 0 <= i < j < |regions| :: regions[i].base + regions[i].length <= regions[j].base
  }

  // ----- what a scan must find -----

  ghost function PagesOf(regions: seq<Region>, kind: nat): nat {
    if regions == [] then 0
    else
      var last := regions[|regions| - 1];
      PagesOf(regions[..|regions| - 1], kind) + if last.kind == kind then last.length / PAGE else 0
  }

  /** The frames of a usable region that the allocator may hand out. */
  function Clipped(r: Region): Span {
    Span(Max(First(r), LOW_FRAMES), Min(End(r), FRAME_LIMIT))
  }

  ghost predicate GivesUsable(r: Region) {
    r.kind == USABLE && Clipped(r).start < Clipped(r).end
  }

  ghost function UsableOf(regions: seq<Region>): seq<Span> {
    if regions == [] then []
    else
      var last := regions[|regions| - 1];
      UsableOf(regions[..|regions| - 1]) + if GivesUsable(last) then [Clipped(last)] else []
  }

  ghost function OfKind(regions: seq<Region>, kind: nat): seq<Region> {
    if regions == [] then []
    else
      var last := regions[|regions| - 1];
      OfKind(regions[..|regions| - 1], kind) + if last.kind == kind then [last] else []
  }

  ghost function Frames(spans: seq<Span>): int {
    if spans == [] then 0
    else Frames(spans[..|spans| - 1]) + spans[|spans| - 1].end - spans[|spans| - 1].start
  }

  /** The frame is in the same whole top-order block as some frame of the region. */
  ghost predicate Backs(r: Region, p: nat) {
    IsManaged(r.kind) && First(r) < Min(End(r), FRAME_LIMIT)
      && SpanDown(First(r)) <= p < SpanUp(Min(End(r), FRAME_LIMIT))
  }

  ghost predicate Backed(regions: seq<Region>, p: nat) {
    exists i | 0 <= i < |regions| :: Backs(regions[i], p)
  }

  ghost function SpansOf(regions: seq<Region>): seq<Span> {
    if regions == [] then []
    else
      var last := regions[|regions| - 1];
      var spans := SpansOf(regions[..|regions| - 1]);
      if IsManaged(last.kind) && First(last) < Min(End(last), FRAME_LIMIT)
      then AddSpan(spans, First(last), Min(End(last), FRAME_LIMIT)) else spans
  }

  /** Widens the range to whole top-order blocks and joins it to the last span when they touch. */
  function AddSpan(spans: seq<Span>, first: nat, end: nat): seq<Span> {
    var s, e := SpanDown(first), SpanUp(end);
    if spans != [] && s <= spans[|spans| - 1].end
    then spans[|spans| - 1 := spans[|spans| - 1].(end := Max(spans[|spans| - 1].end, e))]
    else spans + [Span(s, e)]
  }

  lemma DownMonotone(a: nat, b: nat)
    requires a <= b
    ensures SpanDown(a) <= SpanDown(b)
  {
  }

  /** The spans end in a block that starts no later than frame `limit`. */
  ghost predicate SpansUpTo(spans: seq<Span>, limit: nat) {
    SpansOk(spans) && (spans != [] ==> spans[|spans| - 1].start <= SpanDown(limit))
  }

  lemma AddSpanCovers(spans: seq<Span>, first: nat, end: nat, limit: nat)
    requires SpansUpTo(spans, limit) && limit <= first < end
    ensures SpansUpTo(AddSpan(spans, first, end), end) && |spans| <= |AddSpan(spans, first, end)|
    ensures forall p: nat :: InSpans(AddSpan(spans, first, end), p) <==>
            InSpans(spans, p) || SpanDown(first) <= p < SpanUp(end)
  {
    hide SpanDown, SpanUp;
    var s, e := SpanDown(first), SpanUp(end);
    var r := AddSpan(spans, first, end);
    DownMonotone(limit, first);
    DownMonotone(first, end);
    assert s < e;
    forall p: nat ensures InSpans(r, p) <==> InSpans(spans, p) || s <= p < e {
      AddSpanAt(spans, first, end, p);
    }
  }

  lemma AddSpanAt(spans: seq<Span>, first: nat, end: nat, p: nat)
    requires spans != [] ==> spans[|spans| - 1].start <= SpanDown(first)
    ensures InSpans(AddSpan(spans, first, end), p) <==> InSpans(spans, p) || SpanDown(first) <= p < SpanUp(end)
  {
    hide SpanDown, SpanUp;
    var s, e := SpanDown(first), SpanUp(end);
    var r := AddSpan(spans, first, end);
    if InSpans(spans, p) {
      var i :| 0 <= i < |spans| && spans[i].start <= p < spans[i].end;
      assert r[i].start <= p < r[i].end;
    }
    if InSpans(r, p) {
      var i :| 0 <= i < |r| && r[i].start <= p < r[i].end;
      assert i < |r| - 1 ==> spans[i] == r[i];
      assert i == |r| - 1 && |r| == |spans| ==> spans[i].start <= p;
    }
    assert s <= p < e ==> r[|r| - 1].start <= p < r[|r| - 1].end;
  }

  // ----- totals -----

  /** Frames of a usable region below 1 MiB, which are withheld. */
  function LowPart(r: Region): nat {
    if r.kind == USABLE && First(r) < Min(End(r), LOW_FRAMES) then Min(End(r), LOW_FRAMES) - First(r) else 0
  }

  /** Frames of a usable region beyond the direct map, which cannot be reached. */
  function HighPart(r: Region): nat {
    if r.kind == USABLE && Max(First(r), FRAME_LIMIT) < End(r) then End(r) - Max(First(r), FRAME_LIMIT) else 0
  }

  ghost function LowOf(regions: seq<Region>): nat {
    if regions == [] then 0 else LowOf(regions[..|regions| - 1]) + LowPart(regions[|regions| - 1])
  }

  ghost function HighOf(regions: seq<Region>): nat {
    if regions == [] then 0 else HighOf(regions[..|regions| - 1]) + HighPart(regions[|regions| - 1])
  }

  /** Every usable frame is withheld, out of reach, or in one of the usable ranges. */
  lemma {:induction false} UsableSplits(regions: seq<Region>)
    requires forall i | 0 <= i < |regions| :: Scannable(regions[i])
    ensures PagesOf(regions, USABLE) == LowOf(regions) + HighOf(regions) + Frames(UsableOf(regions))
  {
    hide First, End, Clipped;
    if regions == [] {
    } else {
      var init, last := regions[..|regions| - 1], regions[|regions| - 1];
      assert Scannable(last);
      UsableSplits(init);
      if GivesUsable(last) {
        FramesAdd(UsableOf(init), Clipped(last));
      } else {
        assert UsableOf(regions) == UsableOf(init);
      }
      if last.kind == USABLE {
        RegionSplits(last);
      }
    }
  }

  lemma RegionSplits(r: Region)
    requires Scannable(r) && r.kind == USABLE
    ensures r.length / PAGE == LowPart(r) + HighPart(r) + if GivesUsable(r) then Clipped(r).end - Clipped(r).start
            else 0
  {
    hide First, End;
    PageCount(r);
  }

  lemma FramesAdd(spans: seq<Span>, s: Span)
    ensures Frames(spans + [s]) == Frames(spans) + s.end - s.start
  {
    assert (spans + [s])[..|spans|] == spans;
  }

  // ----- the scan -----

  datatype Scan = Scan(spans: seq<Span>, usable: seq<Span>, loader: seq<Region>, acpi: seq<Region>,
                       acpiDropped: nat, low: nat, unmapped: nat, typePages: seq<nat>)

  function Take(regions: seq<Region>, n: nat): seq<Region> {
    if |regions| <= n then regions else regions[..n]
  }

  ghost function SumPages(regions: seq<Region>): nat {
    if regions == [] then 0 else SumPages(regions[..|regions| - 1]) + regions[|regions| - 1].length / PAGE
  }

  /** The record holds exactly what the regions say. */
  ghost predicate Scanned(regions: seq<Region>, m: Scan) {
    && m.spans == SpansOf(regions) && m.usable == UsableOf(regions)
    && m.loader == OfKind(regions, LOADER_RECLAIM) && m.acpi == Take(OfKind(regions, ACPI_RECLAIM), MAX_RECLAIM)
    && m.acpiDropped + SumPages(m.acpi) == PagesOf(regions, ACPI_RECLAIM)
    && m.low == LowOf(regions) && m.unmapped == HighOf(regions)
    && |m.typePages| == FRAMEBUFFER + 1 && forall t | USABLE <= t <= FRAMEBUFFER ::
       m.typePages[t] == PagesOf(regions, t)
  }

  ghost predicate Fits(regions: seq<Region>) {
    && (forall i | 0 <= i < |regions| :: Scannable(regions[i]))
    && |UsableOf(regions)| <= MAX_USABLE && |OfKind(regions, LOADER_RECLAIM)| <= MAX_RECLAIM
       && |SpansOf(regions)| <= MAX_SPANS
  }

  lemma {:induction false} PrefixShorter(regions: seq<Region>, i: nat)
    requires i <= |regions|
    ensures |UsableOf(regions[..i])| <= |UsableOf(regions)| && |SpansOf(regions[..i])| <= |SpansOf(regions)|
    ensures |OfKind(regions[..i], LOADER_RECLAIM)| <= |OfKind(regions, LOADER_RECLAIM)|
    decreases |regions|
  {
    if i == |regions| {
      assert regions[..i] == regions;
    } else {
      var init := regions[..|regions| - 1];
      assert init[..i] == regions[..i];
      PrefixShorter(init, i);
    }
  }

  /** One region's worth of each field. */
  lemma ScanOne(regions: seq<Region>, i: nat)
    requires i < |regions|
    ensures var m, n, r := regions[..i], regions[..i + 1], regions[i];
            && UsableOf(n) == UsableOf(m) + (if GivesUsable(r) then [Clipped(r)] else [])
            && (forall t :: OfKind(n, t) == OfKind(m, t) + if r.kind == t then [r] else [])
            && (forall t :: PagesOf(n, t) == PagesOf(m, t) + if r.kind == t then r.length / PAGE else 0)
            && LowOf(n) == LowOf(m) + LowPart(r) && HighOf(n) == HighOf(m) + HighPart(r)
            && SpansOf(n) == if IsManaged(r.kind) && First(r) < Min(End(r), FRAME_LIMIT)
                             then AddSpan(SpansOf(m), First(r), Min(End(r), FRAME_LIMIT)) else SpansOf(m)
  {
    assert regions[..i + 1][..i] == regions[..i];
  }

  lemma SumPagesAdd(regions: seq<Region>, r: Region)
    ensures SumPages(regions + [r]) == SumPages(regions) + r.length / PAGE
  {
    assert (regions + [r])[..|regions|] == regions;
  }

  lemma NotFitting(regions: seq<Region>, i: nat)
    requires i <= |regions| && !Fits(regions[..i])
    ensures !Fits(regions)
  {
    PrefixShorter(regions, i);
    if forall k | 0 <= k < |regions| :: Scannable(regions[k]) {
      assert forall k | 0 <= k < i :: regions[..i][k] == regions[k];
    }
  }

  lemma FitsOne(regions: seq<Region>, i: nat)
    requires i < |regions| && Fits(regions[..i]) && Scannable(regions[i])
    requires |UsableOf(regions[..i + 1])| <= MAX_USABLE && |OfKind(regions[..i + 1], LOADER_RECLAIM)| <= MAX_RECLAIM
    requires |SpansOf(regions[..i + 1])| <= MAX_SPANS
    ensures Fits(regions[..i + 1])
  {
    var m, n := regions[..i], regions[..i + 1];
    forall k | 0 <= k < |n| ensures Scannable(n[k]) {
      assert k < i ==> n[k] == m[k];
    }
  }

  method MapScan(regions: seq<Region>) returns (status: Status, m: Scan)
    ensures status == Ok <==> Fits(regions)
    ensures status == Ok || status == ErrInvalid
    ensures status == Ok ==> Scanned(regions, m) && m.low + m.unmapped + Frames(m.usable) == m.typePages[USABLE]
  {
    hide UsableOf, OfKind, PagesOf, LowOf, HighOf, SpansOf, AddSpan, SumPages, Frames, First, End;
    m := Scan([], [], [], [], 0, 0, 0, seq(FRAMEBUFFER + 1, i => 0));
    ScanNone(m);
    var i := 0;
    while i < |regions|
      invariant 0 <= i <= |regions| && Scanned(regions[..i], m) && Fits(regions[..i])
    {
      var r := regions[i];
      ScanOne(regions, i);
      if r.base % PAGE != 0 || r.length % PAGE != 0 || r.kind < USABLE || r.kind > FRAMEBUFFER {
        assert !Scannable(regions[i]);
        return ErrInvalid, m;
      }
      PageCount(r);
      m := m.(typePages := m.typePages[r.kind := m.typePages[r.kind] + (End(r) - First(r))]);
      if r.kind == LOADER_RECLAIM {
        if |m.loader| >= MAX_RECLAIM {
          NotFitting(regions, i + 1);
          return ErrInvalid, m;
        }
        m := m.(loader := m.loader + [r]);
      }
      if r.kind == ACPI_RECLAIM {
        if |m.acpi| >= MAX_RECLAIM {
          m := m.(acpiDropped := m.acpiDropped + (End(r) - First(r)));
        } else {
          SumPagesAdd(m.acpi, r);
          m := m.(acpi := m.acpi + [r]);
        }
      }
      if r.kind == USABLE {
        m := m.(low := m.low + LowPart(r));
        var s := Clipped(r);
        if s.start < s.end {
          if |m.usable| >= MAX_USABLE {
            NotFitting(regions, i + 1);
            return ErrInvalid, m;
          }
          m := m.(usable := m.usable + [s]);
        }
        m := m.(unmapped := m.unmapped + HighPart(r));
      }
      if IsManaged(r.kind) && First(r) < Min(End(r), FRAME_LIMIT) {
        var spans := AddSpan(m.spans, First(r), Min(End(r), FRAME_LIMIT));
        if |spans| > MAX_SPANS {
          NotFitting(regions, i + 1);
          return ErrInvalid, m;
        }
        m := m.(spans := spans);
      }
      FitsOne(regions, i);
      i := i + 1;
    }
    assert regions[..i] == regions;
    UsableSplits(regions);
    status := Ok;
  }

  lemma ScanNone(m: Scan)
    requires m == Scan([], [], [], [], 0, 0, 0, seq(FRAMEBUFFER + 1, i => 0))
    ensures Scanned([], m) && Fits([])
  {
  }

  lemma PageCount(r: Region)
    requires Scannable(r)
    ensures End(r) - First(r) == r.length / PAGE >= 0
  {
  }

  // ----- what the scan's result guarantees -----

  ghost predicate EndsBy(regions: seq<Region>, limit: nat) {
    forall i | 0 <= i < |regions| :: End(regions[i]) <= limit
  }

  lemma OrderedInit(regions: seq<Region>)
    requires Ordered(regions) && regions != []
    ensures Ordered(regions[..|regions| - 1]) && EndsBy(regions[..|regions| - 1], First(regions[|regions| - 1]))
  {
    var n := |regions| - 1;
    forall i | 0 <= i < n ensures End(regions[i]) <= First(regions[n]) {
      assert regions[i].base + regions[i].length <= regions[n].base;
    }
  }

  /** The spans are disjoint runs of whole top-order blocks, and hold exactly the blocks that touch managed memory. */
  lemma {:induction false} SpansBacked(regions: seq<Region>, limit: nat)
    requires Ordered(regions) && EndsBy(regions, limit)
    ensures SpansUpTo(SpansOf(regions), limit)
    ensures forall p: nat :: InSpans(SpansOf(regions), p) <==> Backed(regions, p)
    decreases |regions|
  {
    hide First, End, AddSpan, SpanDown, SpanUp;
    if regions == [] {
    } else {
      var init, last := regions[..|regions| - 1], regions[|regions| - 1];
      OrderedInit(regions);
      SpansBacked(init, First(last));
      assert End(last) <= limit;
      forall p: nat ensures Backed(regions, p) <==> Backed(init, p) || Backs(last, p) {
        BackedLast(regions, p);
      }
      if IsManaged(last.kind) && First(last) < Min(End(last), FRAME_LIMIT) {
        AddSpanCovers(SpansOf(init), First(last), Min(End(last), FRAME_LIMIT), First(last));
        DownMonotone(Min(End(last), FRAME_LIMIT), limit);
      } else {
        FirstBeforeEnd(last);
        DownMonotone(First(last), limit);
      }
    }
  }

  lemma FirstBeforeEnd(r: Region)
    ensures First(r) <= End(r)
  {
  }

  lemma BackedLast(regions: seq<Region>, p: nat)
    requires regions != []
    ensures Backed(regions, p) <==> Backed(regions[..|regions| - 1], p) || Backs(regions[|regions| - 1], p)
  {
    hide Backs;
    var init := regions[..|regions| - 1];
    if Backed(init, p) {
      var i :| 0 <= i < |init| && Backs(init[i], p);
      assert Backs(regions[i], p);
    }
    if Backed(regions, p) {
      var i :| 0 <= i < |regions| && Backs(regions[i], p);
      assert i < |init| ==> init[i] == regions[i];
    }
  }

  /** The frames of a region inside the allocator's window. */
  predicate Within(r: Region, p: nat) {
    Clipped(r).start <= p < Clipped(r).end
  }

  lemma WithinBacked(regions: seq<Region>, i: nat, p: nat)
    requires i < |regions| && IsManaged(regions[i].kind) && Within(regions[i], p)
    ensures Backed(regions, p)
  {
    assert Backs(regions[i], p);
  }

  /** Each usable range comes from a usable region, and they ascend without overlap. */
  ghost predicate Ascending(spans: seq<Span>) {
    && (forall i | 0 <= i < |spans| :: spans[i].start < spans[i].end)
    && (forall i, j | 0 <= i < j < |spans| :: spans[i].end <= spans[j].start)
  }

  lemma {:induction false} UsableAscends(regions: seq<Region>, limit: nat)
    requires Ordered(regions) && EndsBy(regions, limit)
    ensures Ascending(UsableOf(regions)) && forall i | 0 <= i < |UsableOf(regions)| :: UsableOf(regions)[i].end <= limit
    ensures forall i | 0 <= i < |UsableOf(regions)| :: FromUsable(regions, UsableOf(regions)[i])
    decreases |regions|
  {
    hide First, End;
    if regions == [] {
    } else {
      var init, last := regions[..|regions| - 1], regions[|regions| - 1];
      OrderedInit(regions);
      UsableAscends(init, First(last));
      assert End(last) <= limit;
      FirstBeforeEnd(last);
      forall i | 0 <= i < |UsableOf(regions)| ensures FromUsable(regions, UsableOf(regions)[i]) {
        if i < |UsableOf(init)| {
          FromUsableLonger(regions, UsableOf(init)[i]);
        } else {
          assert UsableOf(regions)[i] == Clipped(regions[|regions| - 1]);
        }
      }
    }
  }

  ghost predicate FromUsable(regions: seq<Region>, s: Span) {
    exists i | 0 <= i < |regions| :: regions[i].kind == USABLE && Clipped(regions[i]) == s
  }

  lemma FromUsableLonger(regions: seq<Region>, s: Span)
    requires regions != [] && FromUsable(regions[..|regions| - 1], s)
    ensures FromUsable(regions, s)
  {
    var init := regions[..|regions| - 1];
    var i :| 0 <= i < |init| && init[i].kind == USABLE && Clipped(init[i]) == s;
    assert regions[i] == init[i];
  }

  lemma {:induction false} OfKindSum(regions: seq<Region>, kind: nat)
    ensures SumPages(OfKind(regions, kind)) == PagesOf(regions, kind)
  {
    if regions == [] {
    } else {
      var init, last := regions[..|regions| - 1], regions[|regions| - 1];
      OfKindSum(init, kind);
      if last.kind == kind {
        SumPagesAdd(OfKind(init, kind), last);
      } else {
        assert OfKind(regions, kind) == OfKind(init, kind);
      }
    }
  }

  /** The regions of one kind are some of the regions. */
  lemma {:induction false} OfKindFrom(regions: seq<Region>, kind: nat, k: nat)
    requires k < |OfKind(regions, kind)|
    ensures OfKind(regions, kind)[k] in regions && OfKind(regions, kind)[k].kind == kind
    decreases |regions|
  {
    var init, last := regions[..|regions| - 1], regions[|regions| - 1];
    assert regions == init + [last];
    if k < |OfKind(init, kind)| {
      OfKindFrom(init, kind, k);
    }
  }

  /** They keep the order. */
  lemma {:induction false} OfKindOrdered(regions: seq<Region>, kind: nat)
    requires Ordered(regions)
    ensures Ordered(OfKind(regions, kind))
    decreases |regions|
  {
    if regions == [] {
    } else {
      var n := |regions| - 1;
      var init, last := regions[..n], regions[n];
      OrderedInit(regions);
      OfKindOrdered(init, kind);
      var before := OfKind(init, kind);
      forall k | 0 <= k < |before| ensures before[k].base + before[k].length <= last.base {
        OfKindFrom(init, kind, k);
        var i :| 0 <= i < n && regions[i] == before[k];
      }
    }
  }

  lemma NoFrameShared(r: Region, s: Region, p: nat)
    requires r.base + r.length <= s.base && Within(r, p)
    ensures !Within(s, p)
  {
  }

  /** Two different regions share no frame. */
  lemma FrameInOne(regions: seq<Region>, i: nat, j: nat, p: nat)
    requires Ordered(regions) && i < |regions| && j < |regions| && Within(regions[i], p) && Within(regions[j], p)
    ensures i == j
  {
    hide Within;
    if i < j {
      NoFrameShared(regions[i], regions[j], p);
    } else if j < i {
      NoFrameShared(regions[j], regions[i], p);
    }
  }
}
