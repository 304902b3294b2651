/** Executable spans and the contiguous regions they cut a document into. */
module Regions {
  import opened Common

  datatype CodeSpan = CodeSpan(
    start: nat,
    endInclusive: nat,
    virtualStart: Option<nat>,
    virtualEndInclusive: Option<nat>,
    name: Option<string>,
    executable: bool)
  {
    predicate Contains(offset: nat) {
      start <= offset <= endInclusive
    }

    function VirtualAddressForOffset(offset: nat): Option<nat> {
      if Contains(offset) && virtualStart.Some? then Some(SatAdd(virtualStart.value, offset - start)) else None
    }
  }

  const DATA_ROW_BYTES: nat := 8

  function RawRegion(start: nat, endInclusive: nat): CodeSpan {
    CodeSpan(start, endInclusive, None, None, Some("<raw>"), false)
  }

  // ----- the order in which spans claim bytes: by start, then by length, then as listed

  ghost predicate WellFormed(spans: seq<CodeSpan>) {
    forall s :: s in spans ==> s.start <= s.endInclusive
  }

  predicate Before(a: CodeSpan, b: CodeSpan) {
    a.start < b.start || (a.start == b.start && a.endInclusive - a.start <= b.endInclusive - b.start)
  }

  ghost predicate Sorted(spans: seq<CodeSpan>) {
    forall i, j :: 0 <= i < j < |spans| ==> Before(spans[i], spans[j])
  }

  // `x` placed before the first later element: equal keys keep their order.
  function InsertSpan(x: CodeSpan, spans: seq<CodeSpan>): seq<CodeSpan> {
    if spans == [] || Before(x, spans[0]) then [x] + spans else [spans[0]] + InsertSpan(x, spans[1..])
  }

  /** Stable sort by (start, length). */
  function SortSpans(spans: seq<CodeSpan>): seq<CodeSpan> {
    if spans == [] then [] else InsertSpan(spans[0], SortSpans(spans[1..]))
  }

  lemma {:induction false} SortedTail(spans: seq<CodeSpan>)
    requires spans != [] && Sorted(spans)
    ensures Sorted(spans[1..]) && forall s :: s in spans[1..] ==> Before(spans[0], s)
  {
    assert forall i :: 0 <= i < |spans[1..]| ==> spans[1..][i] == spans[i + 1];
  }

  lemma {:induction false} SortedCons(x: CodeSpan, spans: seq<CodeSpan>)
    requires Sorted(spans) && forall s :: s in spans ==> Before(x, s)
    ensures Sorted([x] + spans)
  {
    var all := [x] + spans;
    forall i, j | 0 <= i < j < |all| ensures Before(all[i], all[j]) {
      assert all[j] == spans[j - 1] && spans[j - 1] in spans;
    }
  }

  lemma {:induction false} InsertKeepsSorted(x: CodeSpan, spans: seq<CodeSpan>)
    requires Sorted(spans)
    ensures Sorted(InsertSpan(x, spans))
    ensures forall s :: s in InsertSpan(x, spans) <==> s == x || s in spans
  {
    if spans == [] {
      assert InsertSpan(x, spans) == [x];
    } else {
      SortedTail(spans);
      assert forall s :: s in spans <==> s == spans[0] || s in spans[1..];
      if Before(x, spans[0]) {
        SortedCons(x, spans);
      } else {
        InsertKeepsSorted(x, spans[1..]);
        SortedCons(spans[0], InsertSpan(x, spans[1..]));
      }
    }
  }

  /** Sorting orders the spans and loses none of them. */
  lemma {:induction false} SortSorts(spans: seq<CodeSpan>)
    ensures Sorted(SortSpans(spans))
    ensures forall i, j :: 0 <= i < j < |SortSpans(spans)| ==>
      var a, b := SortSpans(spans)[i], SortSpans(spans)[j];
      a.start <= b.start && (a.start == b.start ==> a.endInclusive <= b.endInclusive)
    ensures forall s :: s in SortSpans(spans) <==> s in spans
  {
    if spans != [] {
      SortSorts(spans[1..]);
      InsertKeepsSorted(spans[0], SortSpans(spans[1..]));
      assert forall s :: s in spans <==> s == spans[0] || s in spans[1..];
    }
  }

  // The spans of one place, in list order.
  ghost function SamePlace(spans: seq<CodeSpan>, start: nat, endInclusive: nat): seq<CodeSpan> {
    if spans == [] then []
    else
      (if spans[0].start == start && spans[0].endInclusive == endInclusive then [spans[0]] else [])
      + SamePlace(spans[1..], start, endInclusive)
  }

  lemma {:induction false} InsertStable(x: CodeSpan, spans: seq<CodeSpan>, start: nat, endInclusive: nat)
    ensures SamePlace(InsertSpan(x, spans), start, endInclusive) ==
      SamePlace([x], start, endInclusive) + SamePlace(spans, start, endInclusive)
  {
    if spans == [] || Before(x, spans[0]) {
      assert ([x] + spans)[1..] == spans && [x][1..] == [];
    } else {
      InsertStable(x, spans[1..], start, endInclusive);
      assert InsertSpan(x, spans)[1..] == InsertSpan(x, spans[1..]) && [x][1..] == [];
    }
  }

  /** Spans of the same place keep their order, and none is lost or doubled. */
  lemma {:induction false} SortStable(spans: seq<CodeSpan>, start: nat, endInclusive: nat)
    ensures SamePlace(SortSpans(spans), start, endInclusive) == SamePlace(spans, start, endInclusive)
  {
    if spans != [] {
      SortStable(spans[1..], start, endInclusive);
      InsertStable(spans[0], SortSpans(spans[1..]), start, endInclusive);
      assert [spans[0]][1..] == [];
    }
  }

  // The first span, in list order, that contains an offset.
  ghost function FirstContaining(spans: seq<CodeSpan>, offset: nat): Option<CodeSpan> {
    if spans == [] then None
    else if spans[0].Contains(offset) then Some(spans[0])
    else FirstContaining(spans[1..], offset)
  }

  lemma {:induction false} FirstContainingFacts(spans: seq<CodeSpan>, offset: nat)
    ensures FirstContaining(spans, offset).Some? ==>
      FirstContaining(spans, offset).value in spans && FirstContaining(spans, offset).value.Contains(offset)
    ensures FirstContaining(spans, offset).None? <==> forall s :: s in spans ==> !s.Contains(offset)
  {
    if spans != [] {
      FirstContainingFacts(spans[1..], offset);
      assert forall s :: s in spans <==> s == spans[0] || s in spans[1..];
    }
  }

  // ----- regions

  // The regions from `cursor` on, given the sorted spans that have not claimed their bytes yet.
  function Walk(spans: seq<CodeSpan>, cursor: nat, docLen: nat): seq<CodeSpan>
    requires docLen > 0
  {
    var fileEnd := docLen - 1;
    if spans == [] || cursor > fileEnd then
      if cursor <= fileEnd then [RawRegion(cursor, fileEnd)] else []
    else if spans[0].start > fileEnd then Walk(spans[1..], cursor, docLen)
    else
      Gap(spans[0], cursor) + Claim(spans[0], cursor, fileEnd) + Walk(spans[1..], After(spans[0], cursor, fileEnd), docLen)
  }

  // The raw bytes before a span starts.
  function Gap(span: CodeSpan, cursor: nat): seq<CodeSpan> {
    if span.start > cursor then [RawRegion(cursor, span.start - 1)] else []
  }

  // What a span still gets once everything before `cursor` is taken.
  function Claim(span: CodeSpan, cursor: nat, fileEnd: nat): seq<CodeSpan> {
    var start, end := Max(span.start, cursor), Min(span.endInclusive, fileEnd);
    if start <= end then
      [span.(start := start, endInclusive := end,
             virtualStart := span.VirtualAddressForOffset(start),
             virtualEndInclusive := span.VirtualAddressForOffset(end))]
    else []
  }

  function After(span: CodeSpan, cursor: nat, fileEnd: nat): nat {
    var start, end := Max(span.start, cursor), Min(span.endInclusive, fileEnd);
    if start <= end then end + 1 else cursor
  }

  lemma {:induction false} Regroup<T>(a: seq<T>, b: seq<T>, c: seq<T>, d: seq<T>)
    ensures a + b + c + d == a + (b + c + d)
  {
  }

  /** Cut the document into regions, span by span in sorted order. */
  method VisibleRegions(spans: seq<CodeSpan>, docLen: nat) returns (regions: seq<CodeSpan>)
    requires WellFormed(spans)
    ensures regions == RegionsOf(spans, docLen)
  {
    if docLen == 0 {
      return [];
    }
    var sorted := SortSpans(spans);
    regions := [];
    var cursor: nat := 0;
    var fileEnd := docLen - 1;
    var i := 0;
    while i < |sorted|
      invariant 0 <= i <= |sorted| && cursor <= fileEnd
      invariant regions + Walk(sorted[i..], cursor, docLen) == Walk(sorted, 0, docLen)
    {
      var span := sorted[i];
      ghost var was, rest := regions, sorted[i + 1..];
      assert sorted[i..][0] == span && sorted[i..][1..] == rest;
      i := i + 1;
      if span.start > fileEnd {
        continue;
      }
      ghost var next := After(span, cursor, fileEnd);
      Regroup(was, Gap(span, cursor), Claim(span, cursor, fileEnd), Walk(rest, next, docLen));
      regions := regions + Gap(span, cursor) + Claim(span, cursor, fileEnd);
      cursor := After(span, cursor, fileEnd);
      if cursor > fileEnd {
        break;
      }
    }
    if cursor <= fileEnd {
      regions := regions + [RawRegion(cursor, fileEnd)];
    }
  }

  function RegionsOf(spans: seq<CodeSpan>, docLen: nat): seq<CodeSpan> {
    if docLen == 0 then [] else Walk(SortSpans(spans), 0, docLen)
  }

  // Contiguous, non-empty regions that cover `from..docLen`.
  ghost predicate Tiles(regions: seq<CodeSpan>, from: nat, docLen: nat) {
    && (from >= docLen ==> regions == [])
    && (from < docLen ==> regions != [] && regions[0].start == from && regions[|regions| - 1].endInclusive == docLen - 1)
    && (forall k :: 0 <= k < |regions| ==> regions[k].start <= regions[k].endInclusive)
    && (forall k :: 0 <= k < |regions| - 1 ==> regions[k + 1].start == regions[k].endInclusive + 1)
  }

  // How one offset of a region is described, given the span that owns it.
  ghost predicate Describes(region: CodeSpan, owner: Option<CodeSpan>, offset: nat) {
    match owner
    case None => region == RawRegion(region.start, region.endInclusive)
    case Some(span) =>
      && region.name == span.name && region.executable == span.executable
      && region.VirtualAddressForOffset(offset) == span.VirtualAddressForOffset(offset)
      && region.virtualEndInclusive == span.VirtualAddressForOffset(region.endInclusive)
  }

  ghost predicate Faithful(regions: seq<CodeSpan>, spans: seq<CodeSpan>) {
    forall k, o :: 0 <= k < |regions| && regions[k].Contains(o) ==> Describes(regions[k], FirstContaining(spans, o), o)
  }

  lemma {:induction false} TilesJoin(front: seq<CodeSpan>, back: seq<CodeSpan>, from: nat, mid: nat, docLen: nat)
    requires from < mid <= docLen && Tiles(front, from, mid) && Tiles(back, mid, docLen)
    ensures Tiles(front + back, from, docLen)
  {
    var all := front + back;
    forall k | 0 <= k < |all| - 1 ensures all[k + 1].start == all[k].endInclusive + 1 {
      if k + 1 == |front| { assert all[k + 1] == back[0]; }
    }
  }

  lemma {:induction false} FaithfulJoin(front: seq<CodeSpan>, back: seq<CodeSpan>, spans: seq<CodeSpan>)
    requires Faithful(front, spans) && Faithful(back, spans)
    ensures Faithful(front + back, spans)
  {
    var all := front + back;
    forall k, o | 0 <= k < |all| && all[k].Contains(o) ensures Describes(all[k], FirstContaining(spans, o), o) {
      if k < |front| { assert all[k] == front[k]; } else { assert all[k] == back[k - |front|]; }
    }
  }

  // Regions from `cursor` on are described the same way whether or not spans that ended before are listed.
  lemma {:induction false} FaithfulSkip(regions: seq<CodeSpan>, spans: seq<CodeSpan>, cursor: nat, docLen: nat)
    requires spans != [] && Faithful(regions, spans[1..]) && Tiles(regions, cursor, docLen)
    requires forall o :: cursor <= o < docLen ==> !spans[0].Contains(o)
    ensures Faithful(regions, spans)
  {
    forall k, o | 0 <= k < |regions| && regions[k].Contains(o) ensures Describes(regions[k], FirstContaining(spans, o), o) {
      TilesBounds(regions, cursor, docLen, k);
      assert !spans[0].Contains(o);
      assert Describes(regions[k], FirstContaining(spans[1..], o), o);
    }
  }

  lemma {:induction false} TilesBounds(regions: seq<CodeSpan>, from: nat, docLen: nat, k: nat)
    requires Tiles(regions, from, docLen) && k < |regions|
    ensures from <= regions[k].start <= regions[k].endInclusive < docLen
    decreases |regions| - k
  {
    TilesLower(regions, from, docLen, k);
    if k + 1 < |regions| {
      TilesBounds(regions, from, docLen, k + 1);
    }
  }

  lemma {:induction false} TilesLower(regions: seq<CodeSpan>, from: nat, docLen: nat, k: nat)
    requires Tiles(regions, from, docLen) && k < |regions|
    ensures from <= regions[k].start
  {
    if k > 0 {
      TilesLower(regions, from, docLen, k - 1);
    }
  }

  lemma {:induction false} OneRegion(region: CodeSpan, spans: seq<CodeSpan>)
    requires region.start <= region.endInclusive
    requires forall o :: region.Contains(o) ==> Describes(region, FirstContaining(spans, o), o)
    ensures Tiles([region], region.start, region.endInclusive + 1) && Faithful([region], spans)
  {
  }

  lemma {:induction false} WalkPartitions(spans: seq<CodeSpan>, cursor: nat, docLen: nat)
    requires WellFormed(spans) && Sorted(spans) && cursor <= docLen && docLen > 0
    ensures Tiles(Walk(spans, cursor, docLen), cursor, docLen)
    ensures Faithful(Walk(spans, cursor, docLen), spans)
  {
    var fileEnd := docLen - 1;
    if spans == [] || cursor > fileEnd {
      if cursor <= fileEnd { OneRegion(RawRegion(cursor, fileEnd), spans); }
    } else {
      var span, rest := spans[0], spans[1..];
      assert span in spans;
      SortedTail(spans);
      if span.start > fileEnd {
        WalkPartitions(rest, cursor, docLen);
        FaithfulSkip(Walk(rest, cursor, docLen), spans, cursor, docLen);
      } else {
        var next := After(span, cursor, fileEnd);
        WalkPartitions(rest, next, docLen);
        var back := Walk(rest, next, docLen);
        FaithfulSkip(back, spans, next, docLen);
        ClaimPartitions(spans, cursor, docLen, back);
      }
    }
  }

  // What a span claims is described by that span.
  lemma {:induction false} ClaimFaithful(spans: seq<CodeSpan>, cursor: nat, fileEnd: nat)
    requires spans != [] && Claim(spans[0], cursor, fileEnd) != []
    ensures
      var claim := Claim(spans[0], cursor, fileEnd);
      Tiles(claim, claim[0].start, After(spans[0], cursor, fileEnd)) && Faithful(claim, spans)
  {
    var claim := Claim(spans[0], cursor, fileEnd);
    assert claim == [claim[0]];
    OneRegion(claim[0], spans);
  }

  // Before the first of the sorted spans starts, every byte is raw.
  lemma {:induction false} GapFaithful(spans: seq<CodeSpan>, cursor: nat)
    requires Sorted(spans) && spans != [] && cursor < spans[0].start
    ensures Tiles(Gap(spans[0], cursor), cursor, spans[0].start) && Faithful(Gap(spans[0], cursor), spans)
  {
    var gap := Gap(spans[0], cursor);
    assert gap == [gap[0]];
    forall o | gap[0].Contains(o) ensures FirstContaining(spans, o).None? {
      FirstContainingFacts(spans, o);
      SortedTail(spans);
      assert forall s :: s in spans <==> s == spans[0] || s in spans[1..];
    }
    OneRegion(gap[0], spans);
  }

  lemma {:induction false} ClaimPartitions(spans: seq<CodeSpan>, cursor: nat, docLen: nat, back: seq<CodeSpan>)
    requires WellFormed(spans) && Sorted(spans) && spans != [] && cursor < docLen && spans[0].start < docLen
    requires Tiles(back, After(spans[0], cursor, docLen - 1), docLen) && Faithful(back, spans)
    ensures Tiles(Gap(spans[0], cursor) + Claim(spans[0], cursor, docLen - 1) + back, cursor, docLen)
    ensures Faithful(Gap(spans[0], cursor) + Claim(spans[0], cursor, docLen - 1) + back, spans)
  {
    hide Tiles, Faithful;
    var span, fileEnd := spans[0], docLen - 1;
    assert span in spans;
    var gap, claim := Gap(span, cursor), Claim(span, cursor, fileEnd);
    if claim == [] {
      assert gap + claim + back == back;
    } else {
      ClaimFaithful(spans, cursor, fileEnd);
      TilesJoin(claim, back, claim[0].start, After(span, cursor, fileEnd), docLen);
      FaithfulJoin(claim, back, spans);
      if gap == [] {
        assert gap + claim + back == claim + back;
      } else {
        GapFaithful(spans, cursor);
        TilesJoin(gap, claim + back, cursor, span.start, docLen);
        FaithfulJoin(gap, claim + back, spans);
        assert gap + claim + back == gap + (claim + back);
      }
    }
  }

  /**
   * For any well-formed spans, overlapping or nested, the regions tile the document, and each byte is
   * described by the first span containing it in (start, length) order, or is raw when there is none.
   */
  lemma {:induction false} RegionsPartition(spans: seq<CodeSpan>, docLen: nat)
    requires WellFormed(spans)
    ensures Tiles(RegionsOf(spans, docLen), 0, docLen)
    ensures Faithful(RegionsOf(spans, docLen), SortSpans(spans))
  {
    if docLen > 0 {
      SortSorts(spans);
      WalkPartitions(SortSpans(spans), 0, docLen);
    }
  }

  // ----- lookups

  /** The first region that contains an offset or starts after it. */
  function RegionContainingOrAfter(regions: seq<CodeSpan>, offset: nat): Option<CodeSpan> {
    if regions == [] then None
    else if regions[0].Contains(offset) || regions[0].start >= offset then Some(regions[0])
    else RegionContainingOrAfter(regions[1..], offset)
  }

  /** In a tiling, every offset of the document lies in the region that the lookup finds. */
  lemma {:induction false} RegionFound(regions: seq<CodeSpan>, from: nat, docLen: nat, offset: nat) returns (k: nat)
    requires Tiles(regions, from, docLen) && from <= offset < docLen
    ensures k < |regions| && regions[k].Contains(offset)
    ensures RegionContainingOrAfter(regions, offset) == Some(regions[k])
  {
    if regions[0].Contains(offset) {
      k := 0;
    } else {
      var tail := regions[1..];
      assert forall i :: 0 <= i < |tail| ==> tail[i] == regions[i + 1];
      var j := RegionFound(tail, regions[0].endInclusive + 1, docLen, offset);
      k := j + 1;
    }
  }

  // Start of the 8-byte data row that holds an offset, counted from the start of its region.
  function DataRowStart(regionStart: nat, offset: nat): nat {
    regionStart + SatSub(offset, regionStart) / DATA_ROW_BYTES * DATA_ROW_BYTES
  }

  /** A byte belongs to the data row that starts at most seven bytes before it, a whole number of rows into the region. */
  lemma {:induction false} DataRowStartAligned(regionStart: nat, offset: nat)
    requires regionStart <= offset
    ensures DataRowStart(regionStart, offset) <= offset < DataRowStart(regionStart, offset) + DATA_ROW_BYTES
    ensures offset < regionStart + DATA_ROW_BYTES ==> DataRowStart(regionStart, offset) == regionStart
    ensures offset >= regionStart + DATA_ROW_BYTES ==>
      DataRowStart(regionStart, offset) == DataRowStart(regionStart + DATA_ROW_BYTES, offset)
  {
  }

  // ----- disjoint spans: every region is a whole span or the whole gap between two

  predicate Overlap(a: CodeSpan, b: CodeSpan) {
    a.start <= b.endInclusive && b.start <= a.endInclusive
  }

  ghost predicate Disjoint(spans: seq<CodeSpan>) {
    && WellFormed(spans)
    && forall i, j :: 0 <= i < j < |spans| ==> !Overlap(spans[i], spans[j])
  }

  // `region` is one listed span, cut only by the end of the document.
  ghost predicate WholeSpan(region: CodeSpan, span: CodeSpan, docLen: nat) {
    && region.start == span.start
    && region.endInclusive == Min(span.endInclusive, docLen - 1)
    && region.executable == span.executable
  }

  // `region` is a maximal run of bytes that no span contains.
  ghost predicate WholeGap(region: CodeSpan, spans: seq<CodeSpan>, docLen: nat) {
    && !region.executable
    && (forall s :: s in spans ==> s.endInclusive < region.start || region.endInclusive < s.start)
    && (region.endInclusive == docLen - 1 || exists s :: s in spans && s.start == region.endInclusive + 1)
  }

  ghost predicate Whole(region: CodeSpan, spans: seq<CodeSpan>, docLen: nat) {
    WholeGap(region, spans, docLen) || exists s :: s in spans && WholeSpan(region, s, docLen)
  }

  // Spans listed in sorted order, each ending before the next one starts.
  ghost predicate Ranked(spans: seq<CodeSpan>) {
    forall i, j :: 0 <= i < j < |spans| ==> spans[i].endInclusive < spans[j].start
  }

  lemma {:induction false} RankedTail(spans: seq<CodeSpan>)
    requires spans != [] && Ranked(spans)
    ensures Ranked(spans[1..]) && forall s :: s in spans[1..] ==> spans[0].endInclusive < s.start
  {
    assert forall i :: 0 <= i < |spans[1..]| ==> spans[1..][i] == spans[i + 1];
  }

  lemma {:induction false} RankedCons(x: CodeSpan, spans: seq<CodeSpan>)
    requires Ranked(spans) && forall s :: s in spans ==> x.endInclusive < s.start
    ensures Ranked([x] + spans)
  {
    var all := [x] + spans;
    forall i, j | 0 <= i < j < |all| ensures all[i].endInclusive < all[j].start {
      assert all[j] == spans[j - 1] && spans[j - 1] in spans;
    }
  }

  lemma {:induction false} InsertKeepsRanked(x: CodeSpan, spans: seq<CodeSpan>)
    requires Ranked(spans) && WellFormed(spans) && x.start <= x.endInclusive
    requires forall s :: s in spans ==> !Overlap(x, s)
    ensures Ranked(InsertSpan(x, spans))
    ensures forall s :: s in InsertSpan(x, spans) <==> s == x || s in spans
  {
    hide Ranked;
    if spans == [] {
      RankedCons(x, spans);
      assert InsertSpan(x, spans) == [x] + spans;
    } else {
      var tail := spans[1..];
      RankedTail(spans);
      assert spans[0] in spans;
      assert forall s :: s in spans <==> s == spans[0] || s in tail;
      if Before(x, spans[0]) {
        RankedCons(x, spans);
      } else {
        InsertKeepsRanked(x, tail);
        RankedCons(spans[0], InsertSpan(x, tail));
      }
    }
  }

  lemma {:induction false} SortRanks(spans: seq<CodeSpan>)
    requires Disjoint(spans)
    ensures Ranked(SortSpans(spans)) && WellFormed(SortSpans(spans))
    ensures forall s :: s in SortSpans(spans) <==> s in spans
  {
    SortSorts(spans);
    if spans != [] {
      var tail := spans[1..];
      assert forall i :: 0 <= i < |tail| ==> tail[i] == spans[i + 1];
      assert forall s :: s in spans <==> s == spans[0] || s in tail;
      SortRanks(tail);
      InsertKeepsRanked(spans[0], SortSpans(tail));
    }
  }

  // What the walk knows: `done` spans end before the cursor, the others start at or after it.
  ghost predicate Split(done: seq<CodeSpan>, spans: seq<CodeSpan>, cursor: nat) {
    && (forall s :: s in done ==> s.endInclusive < cursor)
    && (forall s :: s in spans ==> cursor <= s.start)
  }

  lemma {:induction false} WalkIsWhole(done: seq<CodeSpan>, spans: seq<CodeSpan>, cursor: nat, docLen: nat)
    requires WellFormed(spans) && Ranked(spans) && docLen > 0 && Split(done, spans, cursor)
    ensures forall r :: r in Walk(spans, cursor, docLen) ==> Whole(r, done + spans, docLen)
    decreases |spans|
  {
    var fileEnd := docLen - 1;
    if spans != [] && cursor <= fileEnd && spans[0].start <= fileEnd {
      hide Ranked;
      var span, rest := spans[0], spans[1..];
      RankedTail(spans);
      assert span in spans && forall s :: s in spans <==> s == span || s in rest;
      var next := After(span, cursor, fileEnd);
      if next > fileEnd {
        assert Walk(rest, next, docLen) == [];
      } else {
        WalkIsWhole(done + [span], rest, next, docLen);
        assert done + [span] + rest == done + spans;
      }
      forall r | r in Claim(span, cursor, fileEnd) ensures Whole(r, done + spans, docLen) {
        assert WholeSpan(r, span, docLen) && span in done + spans;
      }
      forall r | r in Gap(span, cursor) ensures Whole(r, done + spans, docLen) {
        assert span in done + spans;
        assert WholeGap(r, done + spans, docLen);
      }
    } else if cursor <= fileEnd {
      TailIsGap(done, spans, cursor, docLen);
    }
  }

  // When every remaining span starts past the document, the rest of it is one gap.
  lemma {:induction false} TailIsGap(done: seq<CodeSpan>, spans: seq<CodeSpan>, cursor: nat, docLen: nat)
    requires WellFormed(spans) && Ranked(spans) && docLen > 0 && Split(done, spans, cursor) && cursor < docLen
    requires spans != [] ==> spans[0].start >= docLen
    ensures Walk(spans, cursor, docLen) == [RawRegion(cursor, docLen - 1)]
    ensures WholeGap(RawRegion(cursor, docLen - 1), done + spans, docLen)
    decreases |spans|
  {
    if spans != [] {
      var rest := spans[1..];
      assert spans[0] in spans && forall i :: 0 <= i < |rest| ==> rest[i] == spans[i + 1];
      TailIsGap(done, rest, cursor, docLen);
    }
  }

  /** With disjoint spans, every region is one listed span or a whole gap: no region cuts a span in two. */
  lemma {:induction false} RegionsAreWhole(spans: seq<CodeSpan>, docLen: nat)
    requires Disjoint(spans)
    ensures forall r :: r in RegionsOf(spans, docLen) ==> Whole(r, spans, docLen)
  {
    if docLen > 0 {
      var sorted := SortSpans(spans);
      SortRanks(spans);
      WalkIsWhole([], sorted, 0, docLen);
      assert [] + sorted == sorted;
      forall r | r in RegionsOf(spans, docLen) ensures Whole(r, spans, docLen) {
        assert Whole(r, sorted, docLen);
      }
    }
  }
}
