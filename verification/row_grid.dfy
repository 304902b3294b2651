/**
 * Where rows start: the canonical chain of row boundaries, and when the regions of a document can be
 * trusted to fall on it. A fresh cache starts decoding at region starts, and takes the eight-byte grid of a
 * data region for its rows; the spans decide exactly when that is right for every decoder.
 */
module RowGrids {
  import opened Common
  import opened Regions
  import opened Decoding
  import opened Streaming

  // ----- the canonical chain of row starts

  // Decoding row after row from `from` reaches the boundary `to`.
  ghost predicate Reaches(l: Listing, from: nat, to: nat)
    decreases SatSub(to, from)
  {
    from == to || (from < to && from < |l.doc| && Reaches(l, l.RowAt(from).End(), to))
  }

  // A boundary of the chain that sets out from `base`.
  ghost predicate OnChain(l: Listing, base: nat, offset: nat) {
    offset < |l.doc| && Reaches(l, base, offset)
  }

  // The start of the row, among those from `from` on, that covers `x`.
  ghost function Covering(l: Listing, from: nat, x: nat): nat
    requires from <= x < |l.doc|
    decreases x - from
  {
    if x < l.RowAt(from).End() then from else Covering(l, l.RowAt(from).End(), x)
  }

  lemma {:induction false} ReachStep(l: Listing, from: nat, to: nat)
    requires Reaches(l, from, to) && to < |l.doc|
    ensures Reaches(l, from, l.RowAt(to).End())
    decreases SatSub(to, from)
  {
    hide Listing.RowAt;
    if from < to {
      ReachStep(l, l.RowAt(from).End(), to);
    }
  }

  lemma {:induction false} ReachJoin(l: Listing, from: nat, mid: nat, to: nat)
    requires Reaches(l, from, mid) && Reaches(l, mid, to)
    ensures Reaches(l, from, to)
    decreases SatSub(mid, from)
  {
    hide Listing.RowAt;
    if from < mid {
      ReachJoin(l, l.RowAt(from).End(), mid, to);
      ReachesForward(l, mid, to);
    }
  }

  lemma {:induction false} ReachesForward(l: Listing, from: nat, to: nat)
    requires Reaches(l, from, to)
    ensures from <= to
  {
  }

  /** Two boundaries of one chain: the later one is reached from the earlier one. */
  lemma {:induction false} ChainIsOrdered(l: Listing, from: nat, a: nat, b: nat)
    requires Reaches(l, from, a) && Reaches(l, from, b) && a <= b
    ensures Reaches(l, a, b)
    decreases SatSub(a, from)
  {
    hide Listing.RowAt;
    if from < a {
      ChainIsOrdered(l, l.RowAt(from).End(), a, b);
    }
  }

  lemma {:induction false} CoveringFacts(l: Listing, from: nat, x: nat)
    requires from <= x < |l.doc|
    ensures
      var c := Covering(l, from, x);
      Reaches(l, from, c) && from <= c <= x < l.RowAt(c).End()
    decreases x - from
  {
    hide Listing.RowAt;
    if x >= l.RowAt(from).End() {
      CoveringFacts(l, l.RowAt(from).End(), x);
    }
  }

  /** Rows of one chain never overlap: only one of them covers a given byte. */
  lemma {:induction false} CoveringUnique(l: Listing, from: nat, c: nat, x: nat)
    requires Reaches(l, from, c) && c <= x < |l.doc| && x < l.RowAt(c).End() && from <= x
    ensures Covering(l, from, x) == c
    decreases SatSub(c, from)
  {
    hide Listing.RowAt;
    ReachesForward(l, from, c);
    if from < c {
      ReachesForward(l, l.RowAt(from).End(), c);
      CoveringUnique(l, l.RowAt(from).End(), c, x);
    }
  }

  // Nothing starts inside a row.
  lemma {:induction false} NoneInside(l: Listing, base: nat, c: nat, o: nat)
    requires Reaches(l, base, c) && c < |l.doc| && Reaches(l, base, o) && c < o
    ensures l.RowAt(c).End() <= o
  {
    hide Listing.RowAt;
    ChainIsOrdered(l, base, c, o);
    ReachesForward(l, l.RowAt(c).End(), o);
  }

  // ----- the pace of the spans

  // One byte through code, at most a data row through data.
  function StrideAt(l: Listing, offset: nat): (n: nat)
    requires offset < |l.doc|
    ensures n > 0
  {
    var span := l.CurrentSpan(offset);
    if span.executable then 1 else Min(DATA_ROW_BYTES, span.endInclusive - offset + 1)
  }

  ghost predicate Paced(l: Listing, from: nat, to: nat)
    decreases SatSub(to, from)
  {
    from == to || (from < to && from < |l.doc| && Paced(l, from + StrideAt(l, from), to))
  }

  // Some instruction may run across `s`.
  ghost predicate Cuttable(l: Listing, s: nat) {
    0 < s < |l.doc| && Paced(l, 0, s - 1) && l.CurrentSpan(s - 1).executable && l.CurrentSpan(s - 1).endInclusive >= s
  }

  // The row at a grid position of a data region ends where the grid says.
  ghost predicate FitsGrid(l: Listing, r: CodeSpan, g: nat)
    requires g < |l.doc|
  {
    var span := l.CurrentSpan(g);
    if span.executable then span.endInclusive == g == r.endInclusive
    else Min(DATA_ROW_BYTES, span.endInclusive - g + 1) == Min(DATA_ROW_BYTES, r.endInclusive - g + 1)
  }

  ghost predicate OnGrid(r: CodeSpan, g: nat) {
    r.start <= g <= r.endInclusive && DataRowStart(r.start, g) == g
  }

  // Walking the spans meets every region start, no instruction can run across one, and every data region's
  // rows fit its grid.
  ghost predicate Gridded(l: Listing) {
    && WellFormed(l.info.spans)
    && forall r :: r in RegionsOf(l.info.spans, |l.doc|) ==> RegionFits(l, r)
  }

  ghost predicate RegionFits(l: Listing, r: CodeSpan) {
    && Paced(l, 0, r.start) && !Cuttable(l, r.start)
    && (!r.executable ==> forall g: nat :: g < |l.doc| && OnGrid(r, g) ==> FitsGrid(l, r, g))
  }

  lemma {:induction false} PacedForward(l: Listing, from: nat, to: nat)
    requires Paced(l, from, to)
    ensures from <= to
  {
  }

  lemma {:induction false} PacedJoin(l: Listing, from: nat, mid: nat, to: nat)
    requires Paced(l, from, mid) && Paced(l, mid, to)
    ensures Paced(l, from, to)
    decreases SatSub(mid, from)
  {
    hide StrideAt;
    if from < mid {
      PacedJoin(l, from + StrideAt(l, from), mid, to);
      PacedForward(l, mid, to);
    }
  }

  // The walk does not stop inside a step.
  lemma {:induction false} PacedNoneInside(l: Listing, from: nat, a: nat, b: nat)
    requires Paced(l, from, a) && Paced(l, from, b) && a < b && a < |l.doc|
    ensures a + StrideAt(l, a) <= b
    decreases SatSub(a, from)
  {
    hide StrideAt;
    if from == a {
      PacedForward(l, a + StrideAt(l, a), b);
    } else {
      PacedForward(l, from, a);
      PacedNoneInside(l, from + StrideAt(l, from), a, b);
    }
  }

  lemma {:induction false} PacedCode(l: Listing, from: nat, to: nat)
    requires from <= to <= |l.doc| && forall o: nat :: from <= o < to ==> l.CurrentSpan(o).executable
    ensures Paced(l, from, to)
    decreases SatSub(to, from)
  {
    hide Listing.CurrentSpan;
    if from < to {
      PacedCode(l, from + 1, to);
    }
  }

  // ----- rows and the pace

  lemma {:induction false} DataRowEnds(l: Listing, offset: nat)
    requires offset < |l.doc| && !l.CurrentSpan(offset).executable
    ensures l.RowAt(offset).End() == offset + StrideAt(l, offset)
  {
    hide Listing.CurrentSpan;
  }

  lemma {:induction false} RowIsShort(l: Listing, offset: nat)
    requires SelfDelimiting(l.backend) && offset < |l.doc|
    ensures l.RowAt(offset).End() <= offset + MAX_ROW_BYTES
    ensures l.RowAt(offset).End() <= l.CurrentSpan(offset).endInclusive + 1 <= |l.doc|
  {
    hide Listing.CurrentSpan, SelfDelimiting;
    l.RowStaysInSpan(offset);
    var span := l.CurrentSpan(offset);
    var read := l.Read(offset, Min(l.backend.maxInstructionBytes, span.endInclusive - offset + 1));
    CleanReads(l.backend, l.DecodeAddress(span, offset), read);
  }

  lemma {:induction false} CodeCarries(l: Listing, from: nat, offset: nat)
    requires l.Streamable() && from <= offset < |l.doc| && l.CurrentSpan(from).executable && offset <= l.WindowEnd(from)
    ensures l.CurrentSpan(offset).executable && l.Carries(from, offset)
    ensures l.CurrentSpan(offset).endInclusive >= Min(l.WindowEnd(from), offset + MAX_ROW_BYTES - 1)
  {
    hide Sound, Listing.CurrentSpan;
    assert l.Carries(from, offset);
  }

  // A code row passes through code only, and its window reaches its end.
  lemma {:induction false} CodeRowPaced(l: Listing, from: nat)
    requires l.Streamable() && from < |l.doc| && l.CurrentSpan(from).executable
    ensures l.RowAt(from).End() <= l.WindowEnd(from) + 1 && Paced(l, from, l.RowAt(from).End())
    ensures forall o: nat :: from <= o < l.RowAt(from).End() ==> l.CurrentSpan(o).executable && Paced(l, from, o)
  {
    hide Listing.CurrentSpan, Listing.Streamable, Listing.RowAt;
    l.SoundStreams();
    hide SelfDelimiting, BlocksAreRuns, Listing.Carries;
    RowIsShort(l, from);
    var end := l.RowAt(from).End();
    forall o: nat | from <= o < end ensures l.CurrentSpan(o).executable {
      CodeCarries(l, from, o);
    }
    forall o: nat | from <= o <= end ensures Paced(l, from, o) {
      PacedCode(l, from, o);
    }
  }

  /** Every decoder's row boundaries lie on the walk of the spans. */
  lemma {:induction false} BoundariesArePaced(l: Listing, from: nat, to: nat)
    requires l.Streamable() && Reaches(l, from, to)
    ensures Paced(l, from, to)
    decreases SatSub(to, from)
  {
    hide Listing.Streamable, Listing.RowAt, StrideAt, Listing.CurrentSpan;
    if from < to {
      var next := l.RowAt(from).End();
      if l.CurrentSpan(from).executable {
        CodeRowPaced(l, from);
      } else {
        DataRowEnds(l, from);
      }
      BoundariesArePaced(l, next, to);
      PacedForward(l, next, to);
      if l.CurrentSpan(from).executable {
        PacedJoin(l, from, next, to);
      }
    }
  }

  /** And a stop of the walk that no instruction can run across is a boundary of every decoder. */
  lemma {:induction false} SureBoundary(l: Listing, s: nat)
    requires l.Streamable() && s < |l.doc| && Paced(l, 0, s) && !Cuttable(l, s)
    ensures Reaches(l, 0, s)
  {
    hide Listing.Streamable, Listing.RowAt, StrideAt, Listing.CurrentSpan, Paced, Reaches;
    var c := Covering(l, 0, s);
    CoveringFacts(l, 0, s);
    if c < s {
      BoundariesArePaced(l, 0, c);
      if l.CurrentSpan(c).executable {
        CodeRowPaced(l, c);
        CodeCarries(l, c, s - 1);
        PacedJoin(l, 0, c, s - 1);
      } else {
        DataRowEnds(l, c);
        PacedNoneInside(l, 0, c, s);
      }
    }
  }

  // ----- the answer of a fresh cache

  // The region an offset lies in.
  ghost function RegionAt(l: Listing, offset: nat): CodeSpan
    requires WellFormed(l.info.spans) && offset < |l.doc|
  {
    RegionOfOffset(l, offset);
    RegionContainingOrAfter(RegionsOf(l.info.spans, |l.doc|), offset).value
  }

  lemma {:induction false} RegionOfOffset(l: Listing, offset: nat)
    requires WellFormed(l.info.spans) && offset < |l.doc|
    ensures
      var regions := RegionsOf(l.info.spans, |l.doc|);
      var found := RegionContainingOrAfter(regions, offset);
      found.Some? && found.value in regions && found.value.Contains(offset) && found.value.endInclusive < |l.doc|
  {
    var regions := RegionsOf(l.info.spans, |l.doc|);
    RegionsPartition(l.info.spans, |l.doc|);
    var k := RegionFound(regions, 0, |l.doc|, offset);
    TilesBounds(regions, 0, |l.doc|, k);
  }

  // Where the rows of a cache that has decoded nothing yet set out from, asked for an offset.
  ghost function FreshBase(l: Listing, offset: nat): nat
    requires WellFormed(l.info.spans) && offset < |l.doc|
  {
    var r := RegionAt(l, offset);
    if r.executable then r.start else DataRowStart(r.start, offset)
  }

  // The row it answers with: the grid position in a data region, else the row met from the region's start.
  ghost function FreshStart(l: Listing, offset: nat): nat
    requires WellFormed(l.info.spans) && offset < |l.doc|
  {
    var r := RegionAt(l, offset);
    RegionOfOffset(l, offset);
    if r.executable then Covering(l, r.start, offset) else DataRowStart(r.start, offset)
  }

  // Fresh caches answer with the row of the listing that covers the offset.
  ghost predicate Canonical(l: Listing) {
    WellFormed(l.info.spans) && forall o: nat :: o < |l.doc| ==> FreshStart(l, o) == Covering(l, 0, o)
  }

  lemma {:induction false} RegionsFit(l: Listing, offset: nat)
    requires Gridded(l) && offset < |l.doc|
    ensures RegionFits(l, RegionAt(l, offset))
  {
    RegionOfOffset(l, offset);
    hide RegionFits;
  }

  /** On the grid of a data region every row starts where the grid says. */
  lemma {:induction false} DataRowReached(l: Listing, r: CodeSpan, from: nat, offset: nat)
    requires l.Streamable() && r.endInclusive < |l.doc| && OnGrid(r, from) && from <= offset <= r.endInclusive
    requires forall g: nat :: g < |l.doc| && OnGrid(r, g) ==> FitsGrid(l, r, g)
    ensures
      var start := DataRowStart(from, offset);
      start <= offset && Reaches(l, from, start) && offset < l.RowAt(start).End()
    decreases offset - from
  {
    hide Listing.RowAt, Listing.Streamable, DataRowStart, FitsGrid, Listing.CurrentSpan;
    DataRowStartAligned(from, offset);
    GridRowEnds(l, r, from);
    if offset >= from + DATA_ROW_BYTES {
      GridNext(r, from);
      DataRowReached(l, r, from + DATA_ROW_BYTES, offset);
    }
  }

  lemma {:induction false} GridNext(r: CodeSpan, g: nat)
    requires OnGrid(r, g) && g + DATA_ROW_BYTES <= r.endInclusive
    ensures OnGrid(r, g + DATA_ROW_BYTES)
  {
  }

  lemma {:induction false} GridRowEnds(l: Listing, r: CodeSpan, g: nat)
    requires l.Streamable() && r.endInclusive < |l.doc| && OnGrid(r, g) && FitsGrid(l, r, g)
    ensures l.RowAt(g).End() == Min(g + DATA_ROW_BYTES, r.endInclusive + 1)
  {
    hide Listing.RowAt, Listing.Streamable, Listing.CurrentSpan;
    l.SoundStreams();
    if l.CurrentSpan(g).executable {
      RowIsShort(l, g);
    } else {
      DataRowEnds(l, g);
    }
  }

  lemma {:induction false} GridOfRegion(r: CodeSpan, offset: nat)
    requires r.Contains(offset)
    ensures OnGrid(r, r.start) && OnGrid(r, DataRowStart(r.start, offset))
    ensures DataRowStart(r.start, offset) <= offset < DataRowStart(r.start, offset) + DATA_ROW_BYTES
  {
  }

  /** When the spans are gridded, the row a fresh cache answers with is the one that covers the offset. */
  lemma {:induction false} FreshIsCovering(l: Listing, offset: nat)
    requires l.Streamable() && Gridded(l) && offset < |l.doc|
    ensures FreshStart(l, offset) == Covering(l, 0, offset)
    ensures Reaches(l, 0, RegionAt(l, offset).start) && Reaches(l, 0, FreshBase(l, offset))
  {
    hide Listing.Streamable, Listing.RowAt, Covering, Reaches, DataRowStart, FitsGrid, RegionAt, Gridded;
    GriddedSpans(l);
    var r := RegionAt(l, offset);
    RegionsFit(l, offset);
    RegionHolds(l, offset);
    SureBoundary(l, r.start);
    if r.executable {
      CoveringFacts(l, r.start, offset);
      ReachJoin(l, 0, r.start, Covering(l, r.start, offset));
      CoveringUnique(l, 0, Covering(l, r.start, offset), offset);
    } else {
      GridOfRegion(r, offset);
      DataRowReached(l, r, r.start, offset);
      ReachJoin(l, 0, r.start, DataRowStart(r.start, offset));
      CoveringUnique(l, 0, DataRowStart(r.start, offset), offset);
    }
  }

  lemma {:induction false} GriddedSpans(l: Listing)
    requires Gridded(l)
    ensures WellFormed(l.info.spans)
  {
    hide RegionFits;
  }

  lemma {:induction false} RegionHolds(l: Listing, offset: nat)
    requires WellFormed(l.info.spans) && offset < |l.doc|
    ensures RegionAt(l, offset) in RegionsOf(l.info.spans, |l.doc|)
    ensures RegionAt(l, offset).Contains(offset) && RegionAt(l, offset).endInclusive < |l.doc|
  {
    RegionOfOffset(l, offset);
  }

  lemma {:induction false} LookupIs(regions: seq<CodeSpan>, from: nat, docLen: nat, k: nat, offset: nat)
    requires Tiles(regions, from, docLen) && k < |regions| && regions[k].Contains(offset)
    ensures RegionContainingOrAfter(regions, offset) == Some(regions[k])
    decreases k
  {
    if k > 0 {
      var tail := regions[1..];
      assert forall i :: 0 <= i < |tail| ==> tail[i] == regions[i + 1];
      TilesBounds(regions, from, docLen, 0);
      TilesBounds(regions, from, docLen, k);
      TilesBounds(regions, from, docLen, 1);
      TilesBounds(tail, regions[0].endInclusive + 1, docLen, k - 1);
      LookupIs(tail, regions[0].endInclusive + 1, docLen, k - 1, offset);
    }
  }

  lemma {:induction false} RegionIs(l: Listing, r: CodeSpan, offset: nat)
    requires WellFormed(l.info.spans) && r in RegionsOf(l.info.spans, |l.doc|) && r.Contains(offset)
    ensures r.start <= offset <= r.endInclusive < |l.doc| && RegionAt(l, offset) == r
  {
    var regions := RegionsOf(l.info.spans, |l.doc|);
    RegionsPartition(l.info.spans, |l.doc|);
    var k :| 0 <= k < |regions| && regions[k] == r;
    TilesBounds(regions, 0, |l.doc|, k);
    LookupIs(regions, 0, |l.doc|, k, offset);
  }

  // The next region starts right after one that ends inside the document.
  lemma {:induction false} RegionAfter(l: Listing, r: CodeSpan) returns (next: CodeSpan)
    requires WellFormed(l.info.spans) && r in RegionsOf(l.info.spans, |l.doc|) && r.endInclusive + 1 < |l.doc|
    ensures next in RegionsOf(l.info.spans, |l.doc|) && next.start == r.endInclusive + 1 && next.Contains(next.start)
  {
    var regions := RegionsOf(l.info.spans, |l.doc|);
    RegionsPartition(l.info.spans, |l.doc|);
    var k :| 0 <= k < |regions| && regions[k] == r;
    TilesBounds(regions, 0, |l.doc|, k);
    next := regions[k + 1];
    TilesBounds(regions, 0, |l.doc|, k + 1);
  }

  lemma {:induction false} RegionNonEmpty(l: Listing, r: CodeSpan)
    requires WellFormed(l.info.spans) && r in RegionsOf(l.info.spans, |l.doc|)
    ensures r.Contains(r.start) && r.endInclusive < |l.doc|
  {
    var regions := RegionsOf(l.info.spans, |l.doc|);
    RegionsPartition(l.info.spans, |l.doc|);
    var k :| 0 <= k < |regions| && regions[k] == r;
    TilesBounds(regions, 0, |l.doc|, k);
  }

  // ----- the condition is needed

  // Canonical answers make every region start a row boundary.
  lemma {:induction false} StartsAreBoundaries(l: Listing, r: CodeSpan)
    requires Canonical(l) && r in RegionsOf(l.info.spans, |l.doc|)
    ensures r.start < |l.doc| && Reaches(l, 0, r.start)
  {
    hide RegionsOf, Listing.RowAt, Reaches, RegionAt;
    RegionNonEmpty(l, r);
    RegionIs(l, r, r.start);
    assert FreshStart(l, r.start) == r.start;
    CoveringFacts(l, 0, r.start);
  }

  // And every grid position of a data region.
  lemma {:induction false} GridIsBoundary(l: Listing, r: CodeSpan, g: nat, offset: nat)
    requires Canonical(l) && r in RegionsOf(l.info.spans, |l.doc|) && !r.executable
    requires OnGrid(r, g) && g <= offset < g + DATA_ROW_BYTES && offset <= r.endInclusive
    ensures offset < |l.doc| && Reaches(l, 0, g) && offset < l.RowAt(g).End()
  {
    hide RegionsOf, Listing.RowAt, Reaches, RegionAt;
    RegionIs(l, r, offset);
    assert DataRowStart(r.start, offset) == g;
    CoveringFacts(l, 0, offset);
  }

  // With canonical answers a data region's row at a grid position ends where the grid says.
  lemma {:induction false} CanonicalGridRow(l: Listing, r: CodeSpan, g: nat)
    requires Canonical(l) && SelfDelimiting(l.backend) && r in RegionsOf(l.info.spans, |l.doc|) && !r.executable && OnGrid(r, g)
    ensures r.endInclusive < |l.doc| && Reaches(l, 0, g)
    ensures l.RowAt(g).End() == Min(g + DATA_ROW_BYTES, r.endInclusive + 1)
  {
    hide RegionsOf, Listing.RowAt, Reaches, FreshStart, Covering, SelfDelimiting;
    var e := Min(g + DATA_ROW_BYTES, r.endInclusive + 1);
    RegionNonEmpty(l, r);
    GridIsBoundary(l, r, g, e - 1);
    if e == r.endInclusive + 1 {
      if e < |l.doc| {
        var next := RegionAfter(l, r);
        StartsAreBoundaries(l, next);
        NoneInside(l, 0, g, e);
      } else {
        RowIsShort(l, g);
      }
    } else {
      GridNext(r, g);
      GridIsBoundary(l, r, e, e);
      NoneInside(l, 0, g, e);
    }
  }

  ghost predicate CanonicalWith(l: Listing, b: Backend) {
    Canonical(l.(backend := b))
  }

  // Two bytes at the last offset before `s`, one byte elsewhere: its row runs across `s`.
  lemma {:induction false} CutIsCrossed(l: Listing, s: nat)
    requires l.Streamable() && Cuttable(l, s)
    requires l.backend == Targeted(l.DecodeAddress(l.CurrentSpan(s - 1), s - 1), 2)
    ensures !Reaches(l, 0, s)
  {
    hide Listing.CurrentSpan, Listing.Streamable, Reaches, Paced, StrideAt, Covering, Listing.RowAt;
    TargetMet(l, s - 1);
    TargetedRow(l, s - 1, l.DecodeAddress(l.CurrentSpan(s - 1), s - 1));
    if Reaches(l, 0, s) {
      NoneInside(l, 0, s - 1, s);
    }
  }

  // The decoder's rows meet the offset it is targeted at.
  lemma {:induction false} TargetMet(l: Listing, t: nat)
    requires l.Streamable() && t < |l.doc| && Paced(l, 0, t) && l.CurrentSpan(t).executable
    requires l.backend == Targeted(l.DecodeAddress(l.CurrentSpan(t), t), 2)
    ensures Reaches(l, 0, t)
  {
    hide Listing.CurrentSpan, Listing.Streamable, Reaches, Paced, StrideAt, Covering, Listing.RowAt;
    var c := Covering(l, 0, t);
    CoveringFacts(l, 0, t);
    if c < t {
      BoundariesArePaced(l, 0, c);
      if l.CurrentSpan(c).executable {
        CodeRowPaced(l, c);
        TargetedRow(l, c, l.DecodeAddress(l.CurrentSpan(t), t));
        CodeCarries(l, c, t);
      } else {
        DataRowEnds(l, c);
        PacedNoneInside(l, 0, c, t);
      }
    }
  }

  // Rows of the targeted decoder: two bytes exactly at its address, where they fit the span.
  lemma {:induction false} TargetedRow(l: Listing, offset: nat, target: nat)
    requires offset < |l.doc| && l.CurrentSpan(offset).executable && l.backend == Targeted(target, 2)
    ensures
      var span := l.CurrentSpan(offset);
      l.RowAt(offset).End() ==
        if l.DecodeAddress(span, offset) == target && span.endInclusive > offset then offset + 2 else offset + 1
  {
    hide Listing.CurrentSpan;
  }

  // ----- decoders aside

  lemma {:induction false} PacedSpansOnly(l: Listing, b: Backend, from: nat, to: nat)
    ensures Paced(l.(backend := b), from, to) <==> Paced(l, from, to)
    decreases SatSub(to, from)
  {
    if from < to && from < |l.doc| {
      SpansOnly(l, b, from);
      hide Listing.CurrentSpan;
      PacedSpansOnly(l, b, from + StrideAt(l, from), to);
    }
  }

  lemma {:induction false} GriddedSpansOnly(l: Listing, b: Backend)
    ensures Gridded(l.(backend := b)) <==> Gridded(l)
  {
    hide Listing.CurrentSpan;
    var other := l.(backend := b);
    forall r: CodeSpan ensures RegionFits(other, r) <==> RegionFits(l, r) {
      PacedSpansOnly(l, b, 0, r.start);
      if 0 < r.start < |l.doc| {
        PacedSpansOnly(l, b, 0, r.start - 1);
        SpansOnly(l, b, r.start - 1);
      }
      forall g: nat | g < |l.doc| ensures FitsGrid(other, r, g) <==> FitsGrid(l, r, g) {
        SpansOnly(l, b, g);
      }
    }
    hide RegionFits;
  }

  // ----- exactly when

  lemma {:induction false} NotCut(l: Listing, r: CodeSpan)
    requires l.Carried() && |l.doc| <= U64_MAX && WellFormed(l.info.spans) && r in RegionsOf(l.info.spans, |l.doc|)
    requires forall b :: Sound(b) ==> CanonicalWith(l, b)
    ensures !Cuttable(l, r.start)
  {
    hide Listing.CurrentSpan, RegionsOf, Sound, Reaches, Paced, Canonical, Listing.Carried;
    if Cuttable(l, r.start) {
      var s := r.start;
      var b := Targeted(l.DecodeAddress(l.CurrentSpan(s - 1), s - 1), 2);
      var other := l.(backend := b);
      TargetedIsSound(l.DecodeAddress(l.CurrentSpan(s - 1), s - 1), 2);
      CarriedByAll(l, b);
      SpansOnly(l, b, s - 1);
      PacedSpansOnly(l, b, 0, s - 1);
      CutIsCrossed(other, s);
      assert CanonicalWith(l, b);
      StartsAreBoundaries(other, r);
    }
  }

  lemma {:induction false} OneByte(l: Listing) returns (other: Listing)
    requires l.Carried() && |l.doc| <= U64_MAX && forall b :: Sound(b) ==> CanonicalWith(l, b)
    ensures other == l.(backend := Targeted(0, 1)) && other.Streamable() && Canonical(other)
  {
    hide Sound, Canonical, Listing.Carried;
    TargetedIsSound(0, 1);
    CarriedByAll(l, Targeted(0, 1));
    other := l.(backend := Targeted(0, 1));
    assert CanonicalWith(l, Targeted(0, 1));
  }

  lemma {:induction false} RowsFitGrid(l: Listing, r: CodeSpan, g: nat)
    requires l.Carried() && |l.doc| <= U64_MAX && WellFormed(l.info.spans) && r in RegionsOf(l.info.spans, |l.doc|)
    requires forall b :: Sound(b) ==> CanonicalWith(l, b)
    requires !r.executable && g < |l.doc| && OnGrid(r, g)
    ensures FitsGrid(l, r, g)
  {
    hide Listing.CurrentSpan, RegionsOf, Sound, Reaches, Paced, Canonical, Listing.Carried, DataRowStart, Listing.RowAt;
    var other := OneByte(l);
    SpansOnly(l, Targeted(0, 1), g);
    other.SoundStreams();
    CanonicalGridRow(other, r, g);
    if l.CurrentSpan(g).executable {
      OneByteRow(other, g);
      if l.CurrentSpan(g).endInclusive > g {
        BoundariesArePaced(other, 0, g);
        PacedSpansOnly(l, Targeted(0, 1), 0, g);
        var next := RegionAfter(l, r);
        NotCut(l, next);
      }
    } else {
      DataRowEnds(other, g);
    }
  }

  lemma {:induction false} OneByteRow(l: Listing, offset: nat)
    requires offset < |l.doc| && l.CurrentSpan(offset).executable && l.backend == Targeted(0, 1)
    ensures l.RowAt(offset).End() == offset + 1
  {
    hide Listing.CurrentSpan;
  }

  /** The condition is needed: where it fails, a fresh cache with some sound decoder misses the covering row. */
  lemma {:induction false} GriddedNeeded(l: Listing)
    requires l.Carried() && |l.doc| <= U64_MAX && WellFormed(l.info.spans)
    requires forall b :: Sound(b) ==> CanonicalWith(l, b)
    ensures Gridded(l)
  {
    hide RegionsOf, Sound, Canonical, Listing.Carried, Cuttable, FitsGrid, Paced, Reaches;
    var other := OneByte(l);
    forall r | r in RegionsOf(l.info.spans, |l.doc|) ensures RegionFits(l, r) {
      NotCut(l, r);
      StartsAreBoundaries(other, r);
      BoundariesArePaced(other, 0, r.start);
      PacedSpansOnly(l, Targeted(0, 1), 0, r.start);
      if !r.executable {
        forall g: nat | g < |l.doc| && OnGrid(r, g) ensures FitsGrid(l, r, g) {
          RowsFitGrid(l, r, g);
        }
      }
    }
  }

  /**
   * Exactly then: the spans are gridded if and only if a fresh cache answers with the row that covers the
   * offset, for every sound decoder and every offset.
   */
  lemma {:induction false} GridExact(l: Listing)
    requires l.Carried() && |l.doc| <= U64_MAX && WellFormed(l.info.spans)
    ensures Gridded(l) <==> forall b :: Sound(b) ==> CanonicalWith(l, b)
  {
    hide Gridded, Sound, Listing.Carried, FreshStart, Covering;
    if Gridded(l) {
      forall b | Sound(b) ensures CanonicalWith(l, b) {
        GriddedSpansOnly(l, b);
        CarriedByAll(l, b);
        forall o: nat | o < |l.doc| ensures FreshStart(l.(backend := b), o) == Covering(l.(backend := b), 0, o) {
          FreshIsCovering(l.(backend := b), o);
        }
      }
    } else if forall b :: Sound(b) ==> CanonicalWith(l, b) {
      GriddedNeeded(l);
    }
  }

  /** Where the spans are not gridded, some sound decoder and offset show it. */
  lemma {:induction false} UngriddedMisses(l: Listing) returns (b: Backend, o: nat)
    requires l.Carried() && |l.doc| <= U64_MAX && WellFormed(l.info.spans) && !Gridded(l)
    ensures Sound(b) && l.(backend := b).Streamable() && o < |l.doc|
    ensures FreshStart(l.(backend := b), o) != Covering(l.(backend := b), 0, o)
  {
    hide Gridded, Sound, Listing.Carried, FreshStart, Covering;
    GridExact(l);
    b :| Sound(b) && !CanonicalWith(l, b);
    CarriedByAll(l, b);
    o :| o < |l.doc| && FreshStart(l.(backend := b), o) != Covering(l.(backend := b), 0, o);
  }

  // ----- disjoint spans

  /** Inside a whole region, the span that decodes a byte ends where the region ends. */
  lemma {:induction false} SpanInRegion(l: Listing, r: CodeSpan, offset: nat)
    requires Disjoint(l.info.spans) && Whole(r, l.info.spans, |l.doc|) && r.Contains(offset) && r.endInclusive < |l.doc|
    ensures
      var span := l.CurrentSpan(offset);
      span.executable == r.executable
      && if exists s :: s in l.info.spans && s.Contains(offset) then span.endInclusive == r.endInclusive
         else !r.executable && span.endInclusive == Min(r.endInclusive, offset + DATA_ROW_BYTES - 1)
  {
    var spans := l.info.spans;
    SpanContainingFacts(spans, offset);
    NextStartFacts(spans, offset);
    if WholeGap(r, spans, |l.doc|) {
      GapEnd(l, r, offset);
    } else {
      var s :| s in spans && WholeSpan(r, s, |l.doc|);
      var found := SpanContaining(spans, offset);
      assert s.Contains(offset) && Overlap(s, found.value) && Overlap(found.value, s);
      assert s == found.value;
    }
  }

  lemma {:induction false} GapEnd(l: Listing, r: CodeSpan, offset: nat)
    requires Disjoint(l.info.spans) && WholeGap(r, l.info.spans, |l.doc|) && r.Contains(offset) && r.endInclusive < |l.doc|
    ensures forall s :: s in l.info.spans ==> !s.Contains(offset)
    ensures l.CurrentSpan(offset) == RawRegion(offset, Min(r.endInclusive, offset + DATA_ROW_BYTES - 1))
  {
    var spans := l.info.spans;
    SpanContainingFacts(spans, offset);
    NextStartFacts(spans, offset);
    forall s | s in spans ensures s.start <= offset || r.endInclusive < s.start {
      assert s.start <= s.endInclusive;
    }
  }

  lemma {:induction false} StrideInRegion(l: Listing, r: CodeSpan, offset: nat)
    requires Disjoint(l.info.spans) && Whole(r, l.info.spans, |l.doc|) && r.Contains(offset) && r.endInclusive < |l.doc|
    ensures offset + StrideAt(l, offset) <= r.endInclusive + 1
    ensures !r.executable ==> FitsGrid(l, r, offset)
    ensures l.CurrentSpan(offset).executable && offset == r.endInclusive ==> l.CurrentSpan(offset).endInclusive == offset
  {
    hide Listing.CurrentSpan, Disjoint, Whole;
    SpanInRegion(l, r, offset);
  }

  lemma {:induction false} RegionPaced(l: Listing, r: CodeSpan, offset: nat)
    requires Disjoint(l.info.spans) && Whole(r, l.info.spans, |l.doc|) && r.start <= offset <= r.endInclusive + 1 <= |l.doc|
    ensures Paced(l, offset, r.endInclusive + 1)
    decreases SatSub(r.endInclusive + 1, offset)
  {
    hide Disjoint, Whole, StrideAt;
    if offset <= r.endInclusive {
      StrideInRegion(l, r, offset);
      RegionPaced(l, r, offset + StrideAt(l, offset));
    }
  }

  lemma {:induction false} StartsPaced(l: Listing, regions: seq<CodeSpan>, k: nat)
    requires Disjoint(l.info.spans) && Tiles(regions, 0, |l.doc|) && k < |regions|
    requires forall r :: r in regions ==> Whole(r, l.info.spans, |l.doc|)
    ensures Paced(l, 0, regions[k].start) && !Cuttable(l, regions[k].start)
  {
    hide Disjoint, Whole, Listing.CurrentSpan;
    if k > 0 {
      var r := regions[k - 1];
      TilesBounds(regions, 0, |l.doc|, k - 1);
      StartsPaced(l, regions, k - 1);
      RegionPaced(l, r, r.start);
      PacedJoin(l, 0, r.start, regions[k].start);
      StrideInRegion(l, r, r.endInclusive);
    }
  }

  /** Disjoint spans are gridded. */
  lemma {:induction false} DisjointIsGridded(l: Listing)
    requires Disjoint(l.info.spans)
    ensures Gridded(l)
  {
    var regions := RegionsOf(l.info.spans, |l.doc|);
    DisjointFacts(l.info.spans);
    RegionsPartition(l.info.spans, |l.doc|);
    RegionsAreWhole(l.info.spans, |l.doc|);
    hide Disjoint, Whole, Paced, Cuttable, FitsGrid, RegionsOf;
    forall r | r in regions ensures RegionFits(l, r) {
      var k :| 0 <= k < |regions| && regions[k] == r;
      TilesBounds(regions, 0, |l.doc|, k);
      StartsPaced(l, regions, k);
      forall g: nat | !r.executable && g < |l.doc| && OnGrid(r, g) ensures FitsGrid(l, r, g) {
        StrideInRegion(l, r, g);
      }
    }
  }

  lemma {:induction false} DisjointFacts(spans: seq<CodeSpan>)
    requires Disjoint(spans)
    ensures WellFormed(spans)
  {
  }

  // ----- a section inside data

  function DataSpan(start: nat, endInclusive: nat): CodeSpan {
    CodeSpan(start, endInclusive, None, None, None, false)
  }

  function Nested(doc: seq<Byte>): Listing {
    Bare(doc, [DataSpan(0, 15), DataSpan(8, 11)])
  }

  lemma {:induction false} NestedSpans(doc: seq<Byte>, offset: nat)
    requires |doc| == 16 && offset < 16
    ensures Nested(doc).CurrentSpan(offset) == if 8 <= offset <= 11 then DataSpan(8, 11) else DataSpan(0, 15)
  {
    var spans := [DataSpan(0, 15), DataSpan(8, 11)];
    SpanContainingFacts(spans, offset);
    assert spans[0] in spans && spans[1] in spans;
  }

  lemma {:induction false} NestedRegion(doc: seq<Byte>)
    requires |doc| == 16
    ensures RegionsOf(Nested(doc).info.spans, 16) == [DataSpan(0, 15)]
  {
    var outer, inner := DataSpan(0, 15), DataSpan(8, 11);
    assert [outer, inner][1..] == [inner] && [inner][1..] == [];
    assert SortSpans([inner]) == [inner];
    assert SortSpans([outer, inner]) == [outer, inner];
    assert Walk([inner], 16, 16) == [];
    assert Claim(outer, 0, 15) == [outer];
  }

  lemma {:induction false} NestedStreams(doc: seq<Byte>)
    requires |doc| == 16
    ensures Nested(doc).Streamable() && WellFormed(Nested(doc).info.spans)
  {
    TargetedIsSound(0, 1);
    hide Sound, Listing.CurrentSpan;
    forall from: nat | from < 16 ensures !Nested(doc).CurrentSpan(from).executable {
      NestedSpans(doc, from);
    }
  }

  /**
   * Sixteen data bytes with four of them listed again as a span of their own: asked for byte 13, a fresh
   * cache answers with the row of bytes 8 to 11, and the row that holds byte 13 starts at 12.
   */
  lemma {:induction false} NestedDataExample(doc: seq<Byte>)
    requires |doc| == 16
    ensures
      var l := Nested(doc);
      && l.Streamable() && WellFormed(l.info.spans)
      && FreshStart(l, 13) == 8 && l.RowAt(8).End() == 12 && Covering(l, 0, 13) == 12
      && !Gridded(l)
  {
    var l := Nested(doc);
    NestedStreams(doc);
    NestedRegion(doc);
    RegionIs(l, DataSpan(0, 15), 13);
    NestedSpans(doc, 0);
    NestedSpans(doc, 8);
    NestedSpans(doc, 12);
    hide Listing.CurrentSpan, Listing.Streamable, Gridded, RegionAt, RegionsOf;
    DataRowEnds(l, 0);
    DataRowEnds(l, 8);
    DataRowEnds(l, 12);
    assert DataRowStart(0, 13) == 8;
    if Gridded(l) {
      FreshIsCovering(l, 13);
    }
  }
}
