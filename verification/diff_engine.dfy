/**
 * The streaming diff: equal runs, resynchronisation at anchors, unresolved blocks and tails. `Diff` says
 * which hunks two streams have; `Engine` finds them with bounded buffers.
 */
module DiffEngines {
  import opened Common
  import opened DiffSources
  import opened DiffAnchors

  datatype HunkKind = Replace | OnlyCurrent | OnlyOther | Unresolved

  datatype Hunk = Hunk(
    kind: HunkKind,
    currentStart: nat,
    currentLen: nat,
    displaySpans: seq<(nat, nat)>,
    otherOffset: nat,
    otherLen: nat,
    currentPreview: seq<Byte>,
    otherPreview: seq<Byte>,
    before: Option<nat>,
    after: Option<nat>)
  {
    function CurrentEnd(): nat {
      currentStart + currentLen
    }

    function OtherEnd(): nat {
      otherOffset + otherLen
    }
  }

  function HunkFrom(kind: HunkKind, current: Side, other: Side, before: Option<nat>, after: Option<nat>): Hunk {
    Hunk(kind, current.start, current.len, current.displaySpans, other.start, other.len, current.preview, other.preview, before, after)
  }

  // The kind of a hunk whose sides are not both empty.
  function KindOf(noCurrent: bool, noOther: bool): HunkKind {
    if noOther then OnlyCurrent else if noCurrent then OnlyOther else Replace
  }

  // Where a hunk lies: from (i, j) up to (ni, nj).
  datatype Cut = Cut(kind: HunkKind, i: nat, j: nat, ni: nat, nj: nat)

  datatype Diff = Diff(left: seq<DiffByte>, right: seq<DiffByte>, opts: Options, hash: Hash) {
    ghost predicate Valid() {
      Numbered(left) && Numbered(right) && opts.Normal()
    }

    ghost predicate At(i: nat, j: nat) {
      i <= |left| && j <= |right|
    }

    // Both streams have a byte here.
    ghost predicate Inside(i: nat, j: nat) {
      i < |left| && j < |right|
    }

    // ----- which hunks there are

    ghost function EqualRun(i: nat, j: nat): (n: nat)
      requires At(i, j)
      ensures At(i + n, j + n)
      ensures Inside(i + n, j + n) ==> left[i + n].byte != right[j + n].byte
      decreases |left| - i
    {
      if Inside(i, j) && left[i].byte == right[j].byte then 1 + EqualRun(i + 1, j + 1) else 0
    }

    lemma {:induction false} EqualRunStep(i: nat, j: nat)
      requires At(i, j)
      ensures EqualRun(i, j) == if Inside(i, j) && left[i].byte == right[j].byte then 1 + EqualRun(i + 1, j + 1) else 0
    {
    }

    ghost function MismatchRun(i: nat, j: nat): (n: nat)
      requires At(i, j)
      ensures At(i + n, j + n)
      ensures Inside(i + n, j + n) ==> left[i + n].byte == right[j + n].byte
      decreases |left| - i
    {
      if Inside(i, j) && left[i].byte != right[j].byte then 1 + MismatchRun(i + 1, j + 1) else 0
    }

    ghost function LeftWindow(i: nat): seq<Byte>
      requires i <= |left|
    {
      BytesOf(left[i..Min(i + opts.LookaheadLen(), |left|)])
    }

    ghost function RightWindow(j: nat): seq<Byte>
      requires j <= |right|
    {
      BytesOf(right[j..Min(j + opts.LookaheadLen(), |right|)])
    }

    // The anchor found from (i, j), if there is one.
    ghost function AnchorAt(i: nat, j: nat): Option<Anchor>
      requires At(i, j)
    {
      if exists a :: IndexedSearch(LeftWindow(i), RightWindow(j), opts, hash, Some(a)) then
        var a :| IndexedSearch(LeftWindow(i), RightWindow(j), opts, hash, Some(a));
        Some(a)
      else None
    }

    lemma {:induction false} AnchorIs(i: nat, j: nat, found: Option<Anchor>)
      requires At(i, j) && IndexedSearch(LeftWindow(i), RightWindow(j), opts, hash, found)
      ensures AnchorAt(i, j) == found
    {
      hide Findable, Diff.LeftWindow, Diff.RightWindow;
    }

    lemma {:induction false} AnchorIsFound(i: nat, j: nat)
      requires At(i, j)
      ensures IndexedSearch(LeftWindow(i), RightWindow(j), opts, hash, AnchorAt(i, j))
    {
      hide Findable, Diff.LeftWindow, Diff.RightWindow;
      if a :| Findable(LeftWindow(i), RightWindow(j), opts, hash, a) {
        var best := BestExists(LeftWindow(i), RightWindow(j), opts, hash, a);
      }
    }

    /**
     * With no crowded bucket in the window, the anchor is the choice that a search of every pair of skips
     * makes over the whole rest of both streams.
     */
    lemma {:induction false} AnchorIsBruteForce(i: nat, j: nat)
      requires Valid() && At(i, j) && |left| <= U64_MAX && |right| <= U64_MAX
      requires Uncrowded(RightWindow(j), opts, hash)
      ensures BruteForce(BytesOf(left[i..]), BytesOf(right[j..]), opts, AnchorAt(i, j))
    {
      hide Diff.AnchorAt, BruteForce, IndexedSearch, Uncrowded, Numbered;
      var l, r, found := BytesOf(left[i..]), BytesOf(right[j..]), AnchorAt(i, j);
      var n := opts.LookaheadLen();
      AnchorIsFound(i, j);
      IndexIsBruteForce(LeftWindow(i), RightWindow(j), opts, hash, found);
      assert l[..Min(n, |l|)] == LeftWindow(i);
      assert r[..Min(n, |r|)] == RightWindow(j);
      LookaheadSuffices(l, r, opts, found);
    }

    // One mismatch run with no shift, and one byte more when it runs into the end of one side.
    ghost function StrictCut(i: nat, j: nat): (c: Cut)
      requires Inside(i, j) && left[i].byte != right[j].byte
    {
      var n := MismatchRun(i, j);
      var (ni, nj) := (i + n, j + n);
      Cut(Replace, i, j, if ni < |left| && nj == |right| then ni + 1 else ni, if ni == |left| && nj < |right| then nj + 1 else nj)
    }

    // Pairs from (i, j) up to (m, n) were taken, all of them mismatches.
    ghost predicate Taken(i: nat, j: nat, m: nat, n: nat, current: seq<DiffByte>, other: seq<DiffByte>) {
      && Inside(i, j) && left[i].byte != right[j].byte
      && At(m, n) && m - i == n - j >= 0
      && current == left[i..m] && other == right[j..n]
      && MismatchRun(i, j) == m - i + MismatchRun(m, n)
    }

    lemma {:induction false} TakenNone(i: nat, j: nat)
      requires Inside(i, j) && left[i].byte != right[j].byte
      ensures Taken(i, j, i, j, [], [])
    {
    }

    lemma {:induction false} TakenPair(i: nat, j: nat, m: nat, n: nat, current: seq<DiffByte>, other: seq<DiffByte>)
      requires Taken(i, j, m, n, current, other) && Inside(m, n) && left[m].byte != right[n].byte
      ensures Taken(i, j, m + 1, n + 1, current + [left[m]], other + [right[n]])
    {
    }

    // The run is over: what was taken, with one byte more where one side ran out, is the strict cut.
    lemma {:induction false} TakenAll(i: nat, j: nat, m: nat, n: nat, current: seq<DiffByte>, other: seq<DiffByte>)
      requires Taken(i, j, m, n, current, other) && (Inside(m, n) ==> left[m].byte == right[n].byte)
      ensures
        var c := StrictCut(i, j);
        && c.i == i && c.j == j && Forward(c) && current != [] && other != []
        && c.ni == (if m < |left| && n == |right| then m + 1 else m)
        && c.nj == (if m == |left| && n < |right| then n + 1 else n)
        && left[i..c.ni] == (if c.ni > m then current + [left[m]] else current)
        && right[j..c.nj] == (if c.nj > n then other + [right[n]] else other)
    {
      assert MismatchRun(m, n) == 0;
    }

    ghost function AnchorCut(i: nat, j: nat, a: Anchor): Cut {
      Cut(if a.rightSkip == 0 then OnlyCurrent else if a.leftSkip == 0 then OnlyOther else Replace, i, j, i + a.leftSkip, j + a.rightSkip)
    }

    ghost function UnresolvedCut(i: nat, j: nat): Cut
      requires At(i, j)
    {
      var block := opts.UnresolvedBlockLen();
      Cut(Unresolved, i, j, Min(i + block, |left|), Min(j + block, |right|))
    }

    // How the diff moves on from a mismatch.
    ghost function NextCut(i: nat, j: nat): (c: Cut)
      requires Inside(i, j) && left[i].byte != right[j].byte
      ensures Forward(c) && c.i == i && c.j == j
    {
      if opts.maxShift == 0 then StrictCut(i, j)
      else
        var a := AnchorAt(i, j);
        if a.Some? then
          AnchorFits(i, j, a.value);
          AnchorCut(i, j, a.value)
        else UnresolvedCut(i, j)
    }

    // A cut that takes something and stays inside both streams.
    ghost predicate Forward(c: Cut) {
      c.i <= c.ni <= |left| && c.j <= c.nj <= |right| && c.i + c.j < c.ni + c.nj
    }

    lemma {:induction false} AnchorFits(i: nat, j: nat, a: Anchor)
      requires At(i, j) && IndexedSearch(LeftWindow(i), RightWindow(j), opts, hash, Some(a))
      ensures Forward(AnchorCut(i, j, a)) && i + a.leftSkip <= |left| && j + a.rightSkip <= |right| && a.leftSkip + a.rightSkip > 0
    {
      hide Bucket, LowInformation, FollowingEqual;
      assert Aligns(LeftWindow(i), RightWindow(j), opts, a);
    }

    ghost function HunkOf(c: Cut): Hunk
      requires Forward(c)
    {
      var current, other := Summary(left[c.i..c.ni], c.i, opts.previewLen), Summary(right[c.j..c.nj], c.j, opts.previewLen);
      HunkFrom(c.kind, current, other, LastDisplay(left[..c.i]), DisplayAt(c.ni))
    }

    ghost function DisplayAt(i: nat): Option<nat> {
      if i < |left| then left[i].displayOffset else None
    }

    // The hunks from (i, j) on, with no cap.
    ghost function Hunks(i: nat, j: nat): seq<Hunk>
      requires At(i, j)
      decreases |left| - i + |right| - j
    {
      var n := EqualRun(i, j);
      var (i', j') := (i + n, j + n);
      if i' == |left| && j' == |right| then []
      else if i' == |left| then [HunkOf(Cut(OnlyOther, i', j', i', |right|))]
      else if j' == |right| then [HunkOf(Cut(OnlyCurrent, i', j', |left|, j'))]
      else
        var c := NextCut(i', j');
        [HunkOf(c)] + Hunks(c.ni, c.nj)
    }

    // ----- what the hunks mean

    ghost predicate SameBytes(i: nat, j: nat, n: nat) {
      i + n <= |left| && j + n <= |right| && BytesOf(left)[i..i + n] == BytesOf(right)[j..j + n]
    }

    /**
     * The hunks from (i, j) on, in order: before each, and after the last, the streams hold the same
     * number of equal bytes; each takes at least one byte and ends inside both streams.
     */
    ghost predicate Script(hunks: seq<Hunk>, i: nat, j: nat)
      decreases |hunks|
    {
      if hunks == [] then
        At(i, j) && |left| - i == |right| - j && SameBytes(i, j, |left| - i)
      else
        var h := hunks[0];
        && i <= h.currentStart && h.currentStart - i == h.otherOffset - j
        && SameBytes(i, j, h.currentStart - i)
        && h.CurrentEnd() <= |left| && h.OtherEnd() <= |right|
        && h.currentLen + h.otherLen > 0
        && Script(hunks[1..], h.CurrentEnd(), h.OtherEnd())
    }

    lemma {:induction false} SameBytesStep(i: nat, j: nat, n: nat)
      requires Inside(i, j) && left[i].byte == right[j].byte && SameBytes(i + 1, j + 1, n)
      ensures SameBytes(i, j, n + 1)
    {
      var l, r := BytesOf(left), BytesOf(right);
      assert l[i..i + (n + 1)] == [l[i]] + l[i + 1..i + 1 + n];
      assert r[j..j + (n + 1)] == [r[j]] + r[j + 1..j + 1 + n];
    }

    lemma {:induction false} EqualRunSame(i: nat, j: nat)
      requires At(i, j)
      ensures SameBytes(i, j, EqualRun(i, j))
      decreases |left| - i
    {
      hide Diff.SameBytes;
      if Inside(i, j) && left[i].byte == right[j].byte {
        EqualRunSame(i + 1, j + 1);
        SameBytesStep(i, j, EqualRun(i + 1, j + 1));
      } else {
        SameNone(i, j);
      }
    }

    lemma {:induction false} SameNone(i: nat, j: nat)
      requires At(i, j)
      ensures SameBytes(i, j, 0)
    {
    }

    /** A hunk sits where its cut says, whichever of its sides is empty. */
    lemma {:induction false} HunkPlace(c: Cut)
      requires Valid() && Forward(c)
      ensures
        var h := HunkOf(c);
        && h.kind == c.kind && h.currentStart == c.i && h.otherOffset == c.j && h.CurrentEnd() == c.ni && h.OtherEnd() == c.nj
        && h.currentLen + h.otherLen > 0
    {
      SummaryFacts(left[c.i..c.ni], c.i, opts.previewLen);
      SummaryFacts(right[c.j..c.nj], c.j, opts.previewLen);
      hide Summary, Expand, DisplaysOf, Maximal, LastDisplay;
    }

    // What is displayed last in a stretch of the current stream that ends at `end`.
    ghost predicate ShownBefore(end: nat, shown: Option<nat>)
      requires end <= |left|
    {
      match shown
      case None => forall k :: 0 <= k < end ==> left[k].displayOffset.None?
      case Some(at) =>
        exists k :: 0 <= k < end && left[k].displayOffset == Some(at) && forall m :: k < m < end ==> left[m].displayOffset.None?
    }

    // The fields of a hunk say what the streams hold in its two ranges, and what is displayed around it.
    ghost predicate Describes(h: Hunk) {
      && h.CurrentEnd() <= |left| && h.OtherEnd() <= |right|
      && h.currentPreview == BytesOf(left[h.currentStart..Min(h.currentStart + opts.previewLen, h.CurrentEnd())])
      && h.otherPreview == BytesOf(right[h.otherOffset..Min(h.otherOffset + opts.previewLen, h.OtherEnd())])
      && Expand(h.displaySpans) == DisplaysOf(left[h.currentStart..h.CurrentEnd()]) && Maximal(h.displaySpans)
      && ShownBefore(h.currentStart, h.before)
      && h.after == if h.CurrentEnd() < |left| then left[h.CurrentEnd()].displayOffset else None
    }

    lemma {:induction false} LastShown(end: nat)
      requires end <= |left|
      ensures ShownBefore(end, LastDisplay(left[..end]))
    {
      var k := LastDisplayFacts(left[..end]);
      if k > 0 {
        assert left[..end][k - 1] == left[k - 1];
        assert forall m :: k - 1 < m < end ==> left[m] == left[..end][m];
      } else {
        assert forall m :: 0 <= m < end ==> left[m] == left[..end][m];
      }
    }

    lemma {:induction false} PreviewIs(stream: seq<DiffByte>, from: nat, end: nat, n: nat)
      requires from <= end <= |stream|
      ensures BytesOf(stream[from..end])[..Min(n, end - from)] == BytesOf(stream[from..Min(from + n, end)])
    {
      assert |stream[from..end]| == end - from;
    }

    lemma {:induction false} HunkDescribed(c: Cut)
      requires Valid() && Forward(c)
      ensures Describes(HunkOf(c))
    {
      hide Summary, Expand, DisplaysOf, Maximal, LastDisplay, Diff.ShownBefore, Numbered, BytesOf;
      HunkPlace(c);
      LastShown(c.i);
      SummaryFacts(left[c.i..c.ni], c.i, opts.previewLen);
      SummaryFacts(right[c.j..c.nj], c.j, opts.previewLen);
      PreviewIs(left, c.i, c.ni, opts.previewLen);
      PreviewIs(right, c.j, c.nj, opts.previewLen);
    }

    /** Every hunk is described by its own fields. */
    lemma {:induction false} HunksDescribed(i: nat, j: nat)
      requires Valid() && At(i, j)
      ensures forall h :: h in Hunks(i, j) ==> Describes(h)
      decreases |left| - i + |right| - j
    {
      hide Diff.EqualRun, Diff.Hunks, Diff.CutAt, Diff.HunkOf, Diff.Describes;
      var n := EqualRun(i, j);
      HunksStep(i, j);
      if i + n < |left| || j + n < |right| {
        var c := CutAt(i + n, j + n);
        HunkDescribed(c);
        HunksDescribed(c.ni, c.nj);
      }
    }

    // And so is every hunk that the cap leaves.
    lemma {:induction false} CappedDescribed(hunks: seq<Hunk>, truncated: bool)
      requires Valid() && Capped(Hunks(0, 0), opts.hunkCap, hunks, truncated)
      ensures forall h :: h in hunks ==> Describes(h)
    {
      hide Diff.Hunks, Diff.Describes;
      HunksDescribed(0, 0);
    }

    // The cut that starts at a mismatch or at the end of one stream.
    ghost function CutAt(i: nat, j: nat): (c: Cut)
      requires At(i, j) && (i < |left| || j < |right|)
      requires Inside(i, j) ==> left[i].byte != right[j].byte
      ensures Forward(c) && c.i == i && c.j == j
    {
      if i == |left| then Cut(OnlyOther, i, j, i, |right|)
      else if j == |right| then Cut(OnlyCurrent, i, j, |left|, j)
      else NextCut(i, j)
    }

    lemma {:induction false} HunksStep(i: nat, j: nat)
      requires At(i, j)
      ensures
        var n := EqualRun(i, j);
        if i + n == |left| && j + n == |right| then Hunks(i, j) == []
        else
          var c := CutAt(i + n, j + n);
          Hunks(i, j) == [HunkOf(c)] + Hunks(c.ni, c.nj)
    {
      hide Diff.NextCut, Diff.HunkOf;
      var n := EqualRun(i, j);
      if (i + n == |left|) != (j + n == |right|) {
        assert Hunks(|left|, |right|) == [];
      }
    }

    lemma {:induction false} HunksEnd()
      ensures Hunks(|left|, |right|) == []
    {
    }

    /** The emitted hunks are an edit script: ordered, disjoint, and with nothing but equal bytes between them. */
    lemma {:induction false} HunksAreScript(i: nat, j: nat)
      requires Valid() && At(i, j)
      ensures Script(Hunks(i, j), i, j)
      decreases |left| - i + |right| - j
    {
      hide Diff.SameBytes, Diff.EqualRun, Diff.Hunks, Diff.CutAt, Diff.HunkOf;
      var n := EqualRun(i, j);
      EqualRunSame(i, j);
      HunksStep(i, j);
      if i + n < |left| || j + n < |right| {
        var c := CutAt(i + n, j + n);
        HunkPlace(c);
        HunksAreScript(c.ni, c.nj);
        assert Hunks(i, j)[1..] == Hunks(c.ni, c.nj);
      }
    }

    // The current stream with each hunk's bytes replaced by the other side's.
    ghost function Spliced(hunks: seq<Hunk>, i: nat): seq<Byte>
      decreases |hunks|
    {
      if hunks == [] then if i <= |left| then BytesOf(left)[i..] else []
      else
        var h := hunks[0];
        if i <= h.currentStart <= |left| && h.OtherEnd() <= |right| then
          BytesOf(left)[i..h.currentStart] + BytesOf(right)[h.otherOffset..h.OtherEnd()] + Spliced(hunks[1..], h.CurrentEnd())
        else []
    }

    /** Splicing the other side's ranges into the current stream rebuilds the other stream. */
    lemma {:induction false} SplicedIsOther(hunks: seq<Hunk>, i: nat, j: nat)
      requires Script(hunks, i, j) && At(i, j)
      ensures Spliced(hunks, i) == BytesOf(right)[j..]
      decreases |hunks|
    {
      var l, r := BytesOf(left), BytesOf(right);
      if hunks == [] {
        assert l[i..] == l[i..i + (|left| - i)] && r[j..] == r[j..j + (|left| - i)];
      } else {
        var h := hunks[0];
        SplicedIsOther(hunks[1..], h.CurrentEnd(), h.OtherEnd());
        assert l[i..h.currentStart] == l[i..i + (h.currentStart - i)] == r[j..j + (h.currentStart - i)] == r[j..h.otherOffset];
        SplitThree(r, j, h.otherOffset, h.OtherEnd());
      }
    }

    /** There are no hunks exactly when the streams hold the same bytes. */
    lemma {:induction false} NoHunksWhenEqual()
      requires Valid()
      ensures Hunks(0, 0) == [] <==> BytesOf(left) == BytesOf(right)
    {
      hide Diff.SameBytes, Diff.Hunks, Diff.CutAt, Diff.HunkOf, Diff.Script;
      var l, r := BytesOf(left), BytesOf(right);
      assert l[0..] == l && r[0..] == r;
      HunksStep(0, 0);
      if Hunks(0, 0) == [] {
        HunksAreScript(0, 0);
        SplicedIsOther([], 0, 0);
      }
      if l == r {
        EqualRunWhole(0);
      }
    }

    lemma {:induction false} EqualRunWhole(i: nat)
      requires BytesOf(left) == BytesOf(right) && i <= |left|
      ensures |left| == |right| && EqualRun(i, i) == |left| - i
      decreases |left| - i
    {
      assert |left| == |BytesOf(left)| == |right|;
      if i < |left| {
        assert BytesOf(left)[i] == BytesOf(right)[i];
        EqualRunWhole(i + 1);
      }
    }

    // The hunk was closed by an anchor: it is neither unresolved nor the tail of a stream.
    ghost predicate Anchored(h: Hunk) {
      h.kind != Unresolved && h.CurrentEnd() < |left| && h.OtherEnd() < |right|
    }

    // A slice of a window is a slice of the stream.
    lemma {:induction false} WindowSlice(stream: seq<DiffByte>, from: nat, end: nat, a: nat, b: nat)
      requires from <= end <= |stream| && a <= b <= end - from
      ensures BytesOf(stream[from..end])[a..b] == BytesOf(stream)[from + a..from + b]
    {
    }

    lemma {:induction false} FoundAligns(i: nat, j: nat, a: Anchor)
      requires At(i, j) && IndexedSearch(LeftWindow(i), RightWindow(j), opts, hash, Some(a))
      ensures Aligns(LeftWindow(i), RightWindow(j), opts, a)
    {
      hide Aligns, Bucket, Diff.LeftWindow, Diff.RightWindow;
    }

    lemma {:induction false} AnchorAgrees(i: nat, j: nat, a: Anchor)
      requires At(i, j) && IndexedSearch(LeftWindow(i), RightWindow(j), opts, hash, Some(a))
      ensures SameBytes(i + a.leftSkip, j + a.rightSkip, opts.anchorLen + opts.verifyLen)
    {
      hide Aligns, Bucket, IndexedSearch;
      var n := opts.anchorLen + opts.verifyLen;
      FoundAligns(i, j, a);
      AlignedAgree(LeftWindow(i), RightWindow(j), opts, a);
      WindowSlice(left, i, Min(i + opts.LookaheadLen(), |left|), a.leftSkip, a.leftSkip + n);
      WindowSlice(right, j, Min(j + opts.LookaheadLen(), |right|), a.rightSkip, a.rightSkip + n);
    }

    lemma {:induction false} NextCutAgrees(i: nat, j: nat)
      requires opts.maxShift > 0 && Inside(i, j) && left[i].byte != right[j].byte
      ensures
        var c := NextCut(i, j);
        c.kind == Unresolved || SameBytes(c.ni, c.nj, opts.anchorLen + opts.verifyLen)
    {
      hide Diff.SameBytes, Diff.LeftWindow, Diff.RightWindow, IndexedSearch;
      if AnchorAt(i, j).Some? {
        AnchorAgrees(i, j, AnchorAt(i, j).value);
      }
    }

    lemma {:induction false} CutAgrees(i: nat, j: nat)
      requires Valid() && opts.maxShift > 0 && At(i, j) && (i < |left| || j < |right|)
      requires Inside(i, j) ==> left[i].byte != right[j].byte
      ensures
        var h := HunkOf(CutAt(i, j));
        Anchored(h) ==> SameBytes(h.CurrentEnd(), h.OtherEnd(), opts.anchorLen + opts.verifyLen)
    {
      hide Diff.HunkOf, Diff.SameBytes, Diff.NextCut, Diff.Valid;
      HunkPlace(CutAt(i, j));
      if Inside(i, j) {
        NextCutAgrees(i, j);
      }
    }

    /** After every hunk closed by an anchor the streams agree on at least the anchor and the verified bytes. */
    lemma {:induction false} AnchoredHunksAgree(i: nat, j: nat)
      requires Valid() && opts.maxShift > 0 && At(i, j)
      ensures forall h :: h in Hunks(i, j) && Anchored(h) ==> SameBytes(h.CurrentEnd(), h.OtherEnd(), opts.anchorLen + opts.verifyLen)
      decreases |left| - i + |right| - j
    {
      hide Diff.SameBytes, Diff.EqualRun, Diff.Hunks, Diff.CutAt, Diff.HunkOf;
      var n := EqualRun(i, j);
      HunksStep(i, j);
      if i + n < |left| || j + n < |right| {
        var c := CutAt(i + n, j + n);
        CutAgrees(i + n, j + n);
        AnchoredHunksAgree(c.ni, c.nj);
      }
    }

    lemma {:induction false} NoAnchorNothingFits(i: nat, j: nat)
      requires At(i, j) && AnchorAt(i, j).None?
      ensures forall a :: !Findable(LeftWindow(i), RightWindow(j), opts, hash, a)
    {
      hide Findable, Diff.LeftWindow, Diff.RightWindow, IndexedSearch;
      forall a | Findable(LeftWindow(i), RightWindow(j), opts, hash, a) ensures false {
        var best := BestExists(LeftWindow(i), RightWindow(j), opts, hash, a);
      }
    }

    // A hunk's kind tells which of its sides hold bytes, and an unresolved one had nothing to line up with.
    ghost predicate KindFits(h: Hunk) {
      match h.kind
      case OnlyCurrent => h.currentLen > 0 && h.otherLen == 0
      case OnlyOther => h.currentLen == 0 && h.otherLen > 0
      case Replace => h.currentLen > 0 && h.otherLen > 0
      case Unresolved =>
        && h.currentLen > 0 && h.otherLen > 0 && opts.maxShift > 0
        && At(h.currentStart, h.otherOffset)
        && forall a :: !Findable(LeftWindow(h.currentStart), RightWindow(h.otherOffset), opts, hash, a)
    }

    lemma {:induction false} CutKindFits(i: nat, j: nat)
      requires Valid() && At(i, j) && (i < |left| || j < |right|)
      requires Inside(i, j) ==> left[i].byte != right[j].byte
      ensures KindFits(HunkOf(CutAt(i, j)))
    {
      HunkPlace(CutAt(i, j));
      hide Diff.HunkOf, Diff.LeftWindow, Diff.RightWindow, IndexedSearch, Findable, Diff.Valid, Diff.AnchorAt;
      if Inside(i, j) && opts.maxShift > 0 {
        if AnchorAt(i, j).None? {
          NoAnchorNothingFits(i, j);
        } else {
          AnchorAtFits(i, j);
        }
      }
    }

    lemma {:induction false} AnchorAtFits(i: nat, j: nat)
      requires At(i, j) && AnchorAt(i, j).Some?
      ensures Forward(AnchorCut(i, j, AnchorAt(i, j).value))
      ensures AnchorAt(i, j).value.leftSkip + AnchorAt(i, j).value.rightSkip > 0
    {
      hide IndexedSearch, Diff.LeftWindow, Diff.RightWindow;
      AnchorFits(i, j, AnchorAt(i, j).value);
    }

    /** Every hunk is of the kind its sides show; one is left unresolved only where no anchor can be found. */
    lemma {:induction false} KindsFit(i: nat, j: nat)
      requires Valid() && At(i, j)
      ensures forall h :: h in Hunks(i, j) ==> KindFits(h)
      decreases |left| - i + |right| - j
    {
      hide Diff.EqualRun, Diff.Hunks, Diff.CutAt, Diff.HunkOf, Diff.KindFits;
      var n := EqualRun(i, j);
      HunksStep(i, j);
      if i + n < |left| || j + n < |right| {
        var c := CutAt(i + n, j + n);
        CutKindFits(i + n, j + n);
        KindsFit(c.ni, c.nj);
      }
    }

    // How far a hunk that starts at (i, j) goes, and why. A tail takes the rest of its stream.
    ghost predicate TailRight(h: Hunk, i: nat, j: nat) {
      if i == |left| then h.kind == OnlyOther && h.CurrentEnd() == i && h.OtherEnd() == |right|
      else h.kind == OnlyCurrent && h.CurrentEnd() == |left| && h.OtherEnd() == j
    }

    // With no shift it takes differing bytes pair by pair, up to a pair that agrees or the end of a stream, and
    // there one byte more of the other.
    ghost predicate StrictRight(h: Hunk, i: nat, j: nat) {
      var n := Min(h.currentLen, h.otherLen);
      && n > 0 && h.kind == Replace && At(i + n, j + n)
      && (forall k {:trigger left[k]} :: i <= k < i + n ==> left[k].byte != right[j + (k - i)].byte)
      && h.currentLen == (if i + n < |left| && j + n == |right| then n + 1 else n)
      && h.otherLen == (if j + n < |right| && i + n == |left| then n + 1 else n)
      && (Inside(i + n, j + n) ==> left[i + n].byte == right[j + n].byte)
    }

    // Where nothing lines up, a block of both sides.
    ghost predicate UnresolvedRight(h: Hunk, i: nat, j: nat) {
      && At(i, j) && (forall a :: !Findable(LeftWindow(i), RightWindow(j), opts, hash, a))
      && h.currentLen == Min(|left| - i, Max(DEFAULT_CHUNK_SIZE, opts.maxShift * 4))
      && h.otherLen == Min(|right| - j, Max(DEFAULT_CHUNK_SIZE, opts.maxShift * 4))
    }

    // Otherwise up to the anchor that the search finds.
    ghost predicate AnchoredRight(h: Hunk, i: nat, j: nat) {
      && At(i, j)
      && (exists n: nat :: IndexedSearch(LeftWindow(i), RightWindow(j), opts, hash, Some(Anchor(h.currentLen, h.otherLen, n))))
      && h.kind == (if h.otherLen == 0 then OnlyCurrent else if h.currentLen == 0 then OnlyOther else Replace)
    }

    ghost predicate Chosen(h: Hunk) {
      var i, j := h.currentStart, h.otherOffset;
      At(i, j) &&
      if !Inside(i, j) then TailRight(h, i, j)
      else
        && left[i].byte != right[j].byte
        && if opts.maxShift == 0 then StrictRight(h, i, j)
           else if h.kind.Unresolved? then UnresolvedRight(h, i, j)
           else AnchoredRight(h, i, j)
    }

    lemma {:induction false} TailChosen(i: nat, j: nat)
      requires Valid() && At(i, j) && !Inside(i, j) && (i < |left| || j < |right|)
      ensures Chosen(HunkOf(CutAt(i, j)))
    {
      HunkPlace(CutAt(i, j));
      hide Diff.HunkOf, Diff.Valid, Diff.StrictRight, Diff.UnresolvedRight, Diff.AnchoredRight;
    }

    lemma {:induction false} StrictChosen(i: nat, j: nat)
      requires Valid() && Inside(i, j) && left[i].byte != right[j].byte && opts.maxShift == 0
      ensures Chosen(HunkOf(CutAt(i, j)))
    {
      HunkPlace(CutAt(i, j));
      hide Diff.HunkOf, Diff.Valid, Diff.UnresolvedRight, Diff.AnchoredRight;
      MismatchRunDiffers(i, j);
    }

    lemma {:induction false} UnresolvedChosen(i: nat, j: nat)
      requires Valid() && Inside(i, j) && left[i].byte != right[j].byte && opts.maxShift > 0 && AnchorAt(i, j).None?
      ensures Chosen(HunkOf(CutAt(i, j)))
    {
      hide Diff.HunkOf, Diff.LeftWindow, Diff.RightWindow, IndexedSearch, Findable, Diff.AnchorAt, Diff.StrictRight, Numbered;
      HunkPlace(CutAt(i, j));
      NoAnchorNothingFits(i, j);
      assert opts.maxShift * 4 <= U64_MAX;
    }

    lemma {:induction false} AnchoredChosen(i: nat, j: nat)
      requires Valid() && Inside(i, j) && left[i].byte != right[j].byte && opts.maxShift > 0 && AnchorAt(i, j).Some?
      ensures Chosen(HunkOf(CutAt(i, j)))
    {
      hide Diff.HunkOf, Diff.LeftWindow, Diff.RightWindow, IndexedSearch, Findable, Diff.AnchorAt, Diff.StrictRight, Numbered;
      var a := AnchorAt(i, j).value;
      AnchorAtFits(i, j);
      AnchorIsFound(i, j);
      HunkPlace(CutAt(i, j));
      assert AnchorAt(i, j) == Some(Anchor(a.leftSkip, a.rightSkip, a.followingEqual));
    }

    /** Every hunk reaches as far as its kind says, and no farther: the whole diff, told hunk by hunk. */
    lemma {:induction false} HunksChosen(i: nat, j: nat)
      requires Valid() && At(i, j)
      ensures forall h :: h in Hunks(i, j) ==> Chosen(h)
      decreases |left| - i + |right| - j
    {
      hide Diff.EqualRun, Diff.Hunks, Diff.CutAt, Diff.HunkOf, Diff.Chosen, Diff.Valid, Diff.AnchorAt;
      var n := EqualRun(i, j);
      HunksStep(i, j);
      if i + n < |left| || j + n < |right| {
        var c := CutAt(i + n, j + n);
        if !Inside(i + n, j + n) {
          TailChosen(i + n, j + n);
        } else if opts.maxShift == 0 {
          StrictChosen(i + n, j + n);
        } else if AnchorAt(i + n, j + n).None? {
          UnresolvedChosen(i + n, j + n);
        } else {
          AnchoredChosen(i + n, j + n);
        }
        HunksChosen(c.ni, c.nj);
      }
    }

    // ----- without resynchronisation

    // Some hunk covers this offset, on both sides.
    ghost predicate Marked(hunks: seq<Hunk>, p: nat) {
      exists h :: h in hunks && Covers(h, p)
    }

    ghost predicate Touched(hunks: seq<Hunk>, p: nat) {
      exists h :: h in hunks && Reaches(h, p)
    }

    lemma {:induction false} MismatchRunDiffers(i: nat, j: nat)
      requires At(i, j)
      ensures forall k {:trigger left[k]} :: i <= k < i + MismatchRun(i, j) ==> left[k].byte != right[j + (k - i)].byte
      decreases |left| - i
    {
      if Inside(i, j) && left[i].byte != right[j].byte {
        MismatchRunDiffers(i + 1, j + 1);
      }
    }

    lemma {:induction false} EqualRunEqual(i: nat, j: nat)
      requires At(i, j)
      ensures forall k {:trigger left[k]} :: i <= k < i + EqualRun(i, j) ==> left[k].byte == right[j + (k - i)].byte
      decreases |left| - i
    {
      if Inside(i, j) && left[i].byte == right[j].byte {
        EqualRunEqual(i + 1, j + 1);
      }
    }

    // The two sides are in step until one of them ends.
    ghost predicate InStep(i: nat, j: nat) {
      At(i, j) && (i == j || (i == |left| && j > i) || (j == |right| && i > j))
    }

    lemma {:induction false} StrictCutFacts(i: nat)
      requires Valid() && opts.maxShift == 0 && i < |left| && i < |right| && left[i].byte != right[i].byte
      ensures
        var c := CutAt(i, i);
        var shared := Min(|left|, |right|);
        && InStep(c.ni, c.nj)
        && (Inside(c.ni, c.nj) ==> c.ni == c.nj)
        && (forall p: nat :: i <= p < shared && p < c.ni ==> left[p].byte != right[p].byte)
        && Min(c.ni, shared) == Min(c.nj, shared)
    {
      MismatchRunDiffers(i, i);
    }

    ghost predicate Covers(h: Hunk, p: nat) {
      h.currentStart <= p < h.CurrentEnd() && h.otherOffset <= p < h.OtherEnd()
    }

    ghost predicate Reaches(h: Hunk, p: nat) {
      h.currentStart <= p < h.CurrentEnd() || h.otherOffset <= p < h.OtherEnd()
    }

    lemma {:induction false} MarkedCons(h: Hunk, rest: seq<Hunk>, p: nat)
      ensures Marked([h] + rest, p) <==> Covers(h, p) || Marked(rest, p)
      ensures Touched([h] + rest, p) <==> Reaches(h, p) || Touched(rest, p)
    {
      hide Diff.Covers, Diff.Reaches;
      assert forall x :: x in [h] + rest <==> x == h || x in rest;
    }

    lemma {:induction false} NoneMarked(p: nat)
      ensures !Marked([], p) && !Touched([], p)
    {
    }

    /**
     * With no shift allowed, an offset below both lengths lies in a hunk exactly when the bytes differ there,
     * and then the hunk covers it on both sides.
     */
    lemma {:induction false} StrictMarksMismatches(i: nat, j: nat, p: nat)
      requires Valid() && opts.maxShift == 0 && InStep(i, j) && p < |left| && p < |right|
      requires Inside(i, j) ==> i == j
      ensures p >= i && p >= j ==> (Marked(Hunks(i, j), p) <==> left[p].byte != right[p].byte)
      ensures Touched(Hunks(i, j), p) ==> p >= i && p >= j
      ensures Touched(Hunks(i, j), p) ==> Marked(Hunks(i, j), p)
      decreases |left| - i + |right| - j
    {
      hide Diff.SameBytes, Diff.EqualRun, Diff.Hunks, Diff.CutAt, Diff.HunkOf;
      var n := EqualRun(i, j);
      HunksStep(i, j);
      EqualRunEqual(i, j);
      if i + n < |left| || j + n < |right| {
        var c := CutAt(i + n, j + n);
        var h := HunkOf(c);
        HunkPlace(c);
        var rest := Hunks(c.ni, c.nj);
        MarkedCons(h, rest, p);
        hide Diff.Marked, Diff.Touched;
        if Inside(i + n, j + n) {
          StrictCutFacts(i + n);
          StrictMarksMismatches(c.ni, c.nj, p);
        } else {
          NoneMarked(p);
          TailCut(i + n, j + n);
          assert rest == [] by { HunksStep(c.ni, c.nj); EqualRunAtEnd(c.ni, c.nj); }
        }
      }
    }

    lemma {:induction false} TailCut(i: nat, j: nat)
      requires At(i, j) && !Inside(i, j) && (i < |left| || j < |right|)
      ensures CutAt(i, j).ni == |left| && CutAt(i, j).nj == |right|
    {
    }

    lemma {:induction false} EqualRunAtEnd(i: nat, j: nat)
      requires At(i, j) && !Inside(i, j)
      ensures EqualRun(i, j) == 0
    {
    }

    // ----- how much is read at a time does not matter

    // The same streams and options, read in chunks of another size.
    ghost function Chunked(size: nat): Diff {
      this.(opts := opts.(chunkSize := size))
    }

    lemma {:induction false} FindableIgnoresChunks(l: seq<Byte>, r: seq<Byte>, size: nat, a: Anchor)
      ensures Findable(l, r, opts, hash, a) <==> Findable(l, r, opts.(chunkSize := size), hash, a)
    {
      hide LowInformation, FollowingEqual;
    }

    lemma {:induction false} SearchIgnoresChunks(l: seq<Byte>, r: seq<Byte>, size: nat, found: Option<Anchor>)
      ensures IndexedSearch(l, r, opts, hash, found) <==> IndexedSearch(l, r, opts.(chunkSize := size), hash, found)
    {
      hide Findable;
      forall a ensures Findable(l, r, opts, hash, a) <==> Findable(l, r, opts.(chunkSize := size), hash, a) {
        FindableIgnoresChunks(l, r, size, a);
      }
    }

    lemma {:induction false} AnchorIgnoresChunks(i: nat, j: nat, size: nat)
      requires At(i, j)
      ensures Chunked(size).AnchorAt(i, j) == AnchorAt(i, j)
    {
      var d, l, r := Chunked(size), LeftWindow(i), RightWindow(j);
      assert d.LeftWindow(i) == l && d.RightWindow(j) == r;
      hide IndexedSearch, Diff.LeftWindow, Diff.RightWindow;
      forall a: Anchor ensures IndexedSearch(l, r, opts, hash, Some(a)) <==> IndexedSearch(l, r, d.opts, hash, Some(a)) {
        SearchIgnoresChunks(l, r, size, Some(a));
      }
      if AnchorAt(i, j).Some? {
        d.AnchorIs(i, j, AnchorAt(i, j));
      }
    }

    lemma {:induction false} EqualRunIgnoresChunks(i: nat, j: nat, size: nat)
      requires At(i, j)
      ensures Chunked(size).EqualRun(i, j) == EqualRun(i, j)
      decreases |left| - i
    {
      if Inside(i, j) && left[i].byte == right[j].byte {
        EqualRunIgnoresChunks(i + 1, j + 1, size);
      }
    }

    lemma {:induction false} MismatchRunIgnoresChunks(i: nat, j: nat, size: nat)
      requires At(i, j)
      ensures Chunked(size).MismatchRun(i, j) == MismatchRun(i, j)
      decreases |left| - i
    {
      if Inside(i, j) && left[i].byte != right[j].byte {
        MismatchRunIgnoresChunks(i + 1, j + 1, size);
      }
    }

    lemma {:induction false} CutIgnoresChunks(i: nat, j: nat, size: nat)
      requires At(i, j) && (i < |left| || j < |right|)
      requires Inside(i, j) ==> left[i].byte != right[j].byte
      ensures Chunked(size).CutAt(i, j) == CutAt(i, j) && Chunked(size).HunkOf(CutAt(i, j)) == HunkOf(CutAt(i, j))
    {
      hide Diff.AnchorAt, Diff.MismatchRun, Summary, LastDisplay;
      AnchorIgnoresChunks(i, j, size);
      MismatchRunIgnoresChunks(i, j, size);
    }

    /** The hunks depend on the two streams and the other options only, not on the chunk size. */
    lemma {:induction false} HunksIgnoreChunks(i: nat, j: nat, size: nat)
      requires At(i, j)
      ensures Chunked(size).Hunks(i, j) == Hunks(i, j)
      decreases |left| - i + |right| - j
    {
      hide Diff.EqualRun, Diff.Hunks, Diff.CutAt, Diff.HunkOf;
      var n := EqualRun(i, j);
      EqualRunIgnoresChunks(i, j, size);
      HunksStep(i, j);
      Chunked(size).HunksStep(i, j);
      if i + n < |left| || j + n < |right| {
        var c := CutAt(i + n, j + n);
        CutIgnoresChunks(i + n, j + n, size);
        HunksIgnoreChunks(c.ni, c.nj, size);
      }
    }

    /**
     * A complete diff is an edit script of the two streams: splicing its other-side ranges into the current
     * stream rebuilds the other stream.
     */
    lemma {:induction false} CompleteDiffRebuilds(hunks: seq<Hunk>)
      requires Valid() && Capped(Hunks(0, 0), opts.hunkCap, hunks, false)
      ensures Script(hunks, 0, 0) && Spliced(hunks, 0) == BytesOf(right)
    {
      hide Diff.Hunks, Diff.Script, Diff.Spliced;
      assert hunks == Hunks(0, 0);
      HunksAreScript(0, 0);
      SplicedIsOther(hunks, 0, 0);
      assert BytesOf(right)[0..] == BytesOf(right);
    }
  }

  lemma {:induction false} SplitThree<T>(s: seq<T>, a: nat, b: nat, c: nat)
    requires a <= b <= c <= |s|
    ensures s[a..] == s[a..b] + s[b..c] + s[c..]
  {
  }

  /** What a diff reports: the hunks that fit under the cap, and whether there were more. */
  datatype DiffResult = DiffResult(hunks: seq<Hunk>, truncated: bool)

  ghost predicate Capped(all: seq<Hunk>, cap: nat, hunks: seq<Hunk>, truncated: bool) {
    hunks == all[..Min(cap, |all|)] && (truncated <==> |all| > cap)
  }

  lemma {:induction false} CappedSnoc(all: seq<Hunk>, h: Hunk, cap: nat, hunks: seq<Hunk>, truncated: bool)
    requires Capped(all, cap, hunks, truncated)
    ensures Capped(all + [h], cap, if |hunks| >= cap then hunks else hunks + [h], truncated || |hunks| >= cap)
  {
  }

  lemma {:induction false} CappedMore(all: seq<Hunk>, rest: seq<Hunk>, cap: nat, hunks: seq<Hunk>, truncated: bool)
    requires Capped(all, cap, hunks, truncated) && truncated
    ensures Capped(all + rest, cap, hunks, truncated)
  {
  }

  // A summary starts where its first byte does; the given start only places an empty run.
  lemma {:induction false} SummaryStart(bytes: seq<DiffByte>, a: nat, b: nat, previewLen: nat)
    requires bytes != []
    ensures Summary(bytes, a, previewLen) == Summary(bytes, b, previewLen)
    decreases |bytes|
  {
    var front := bytes[..|bytes| - 1];
    if front != [] {
      SummaryStart(front, a, b, previewLen);
    }
  }

  class Engine {
    const left: BufferedSource
    const right: BufferedSource
    const opts: Options
    const hash: Hash
    var hunks: seq<Hunk>
    var truncated: bool
    // Every hunk so far, the ones over the cap included.
    ghost var emitted: seq<Hunk>

    ghost function Subject(): Diff {
      Diff(left.stream, right.stream, opts, hash)
    }

    ghost predicate Valid()
      reads this, left, right
    {
      && left != right && left.Valid() && right.Valid()
      && Subject().Valid() && Subject().At(left.pos, right.pos)
      && Capped(emitted, opts.hunkCap, hunks, truncated)
    }

    constructor (left: BufferedSource, right: BufferedSource, opts: Options, hash: Hash)
      requires left != right && left.Valid() && right.Valid() && left.pos == 0 && right.pos == 0
      requires Numbered(left.stream) && Numbered(right.stream) && opts.Normal()
      ensures Valid() && emitted == []
      ensures this.left == left && this.right == right && this.opts == opts && this.hash == hash
    {
      this.left, this.right, this.opts, this.hash := left, right, opts, hash;
      hunks, truncated, emitted := [], false, [];
    }

    // Both sources keep their place while they read ahead.
    method ConsumeEqualRun()
      requires Valid()
      modifies left, right
      ensures Valid()
      ensures
        var n := Subject().EqualRun(old(left.pos), old(right.pos));
        left.pos == old(left.pos) + n && right.pos == old(right.pos) + n
    {
      hide BufferedSource.Valid, Diff.Valid, Capped, Diff.EqualRun;
      ghost var i, j := left.pos, right.pos;
      while true
        invariant Valid()
        invariant left.pos - i == right.pos - j >= 0
        invariant Subject().EqualRun(i, j) == left.pos - i + Subject().EqualRun(left.pos, right.pos)
        decreases |left.stream| - left.pos
      {
        var l := left.Peek(0);
        var r := right.Peek(0);
        Subject().EqualRunStep(left.pos, right.pos);
        if l.None? || r.None? || l.value.byte != r.value.byte {
          break;
        }
        var x := left.ConsumeOne();
        var y := right.ConsumeOne();
      }
    }

    // The summary of one side of a hunk that ends where its source stands.
    method SideOf(source: BufferedSource, bytes: seq<DiffByte>, ghost from: nat) returns (side: Side)
      requires source.Valid() && from <= source.pos <= |source.stream| && bytes == source.stream[from..source.pos]
      ensures side == Summary(source.stream[from..source.pos], from, opts.previewLen)
    {
      hide BufferedSource.Valid, Summary;
      if bytes == [] {
        side := EmptyAt(source.NextStreamOffset());
        SummaryOfNone(bytes, from, opts.previewLen);
      } else {
        side := FromBytes(bytes, opts.previewLen);
        SummaryStart(bytes, 0, from, opts.previewLen);
      }
    }

    /** Report the bytes both sides just consumed, unless the cap is reached. */
    method PushHunk(kind: HunkKind, current: seq<DiffByte>, other: seq<DiffByte>, before: Option<nat>,
          after: Option<nat>, ghost c: Cut)
      requires Valid() && Subject().Forward(c) && c.kind == kind && c.ni == left.pos && c.nj == right.pos
      requires current == left.stream[c.i..c.ni] && other == right.stream[c.j..c.nj]
      requires before == LastDisplay(left.stream[..c.i]) && after == Subject().DisplayAt(c.ni)
      modifies this`hunks, this`truncated, this`emitted
      ensures Valid() && emitted == old(emitted) + [Subject().HunkOf(c)]
    {
      hide BufferedSource.Valid, Summary, LastDisplay, Capped, Diff.Valid;
      if current == [] && other == [] {
        return;
      }
      var currentSide := SideOf(left, current, c.i);
      var otherSide := SideOf(right, other, c.j);
      PushHunkSummary(kind, currentSide, otherSide, before, after, c);
    }

    method PushHunkSummary(kind: HunkKind, current: Side, other: Side, before: Option<nat>, after: Option<nat>,
          ghost c: Cut)
      requires Valid() && Subject().Forward(c)
      requires HunkFrom(kind, current, other, before, after) == Subject().HunkOf(c)
      modifies this`hunks, this`truncated, this`emitted
      ensures Valid() && emitted == old(emitted) + [Subject().HunkOf(c)]
    {
      hide BufferedSource.Valid, Summary, LastDisplay, Capped, Diff.HunkOf;
      ghost var h := Subject().HunkOf(c);
      Subject().HunkPlace(c);
      if current.len == 0 && other.len == 0 {
        return;
      }
      CappedSnoc(emitted, h, opts.hunkCap, hunks, truncated);
      emitted := emitted + [h];
      if |hunks| >= opts.hunkCap {
        truncated := true;
        return;
      }
      hunks := hunks + [HunkFrom(kind, current, other, before, after)];
    }

    // A mismatch, with bytes left on both sides.
    ghost predicate AtMismatch()
      reads this, left, right
    {
      && Valid() && Subject().Inside(left.pos, right.pos)
      && left.stream[left.pos].byte != right.stream[right.pos].byte
    }

    // Both sources stand at the end of a cut, and its hunk was reported last.
    twostate predicate Reported(c: Cut)
      reads this, left, right
    {
      && Valid() && Subject().Forward(c)
      && left.pos == c.ni && right.pos == c.nj
      && emitted == old(emitted) + [Subject().HunkOf(c)]
    }

    /** Take differing bytes pairwise until the sides agree again, and one byte more if one side has run out. */
    method TakeMismatchRun() returns (current: seq<DiffByte>, other: seq<DiffByte>)
      requires AtMismatch()
      modifies left, right
      ensures Valid()
      ensures
        var c := Subject().StrictCut(old(left.pos), old(right.pos));
        && left.pos == c.ni && right.pos == c.nj && Subject().Forward(c)
        && current == left.stream[c.i..c.ni] && other == right.stream[c.j..c.nj] && current != [] && other != []
    {
      hide BufferedSource.Valid, Diff.Valid, Capped, Diff.MismatchRun, Diff.Taken, Diff.StrictCut;
      ghost var i, j, d := left.pos, right.pos, Subject();
      current, other := [], [];
      d.TakenNone(i, j);
      while true
        invariant Valid() && d.Taken(i, j, left.pos, right.pos, current, other)
        decreases |left.stream| - left.pos
      {
        var l := left.Peek(0);
        var r := right.Peek(0);
        if l.Some? && r.Some? {
          if l.value.byte == r.value.byte {
            d.TakenAll(i, j, left.pos, right.pos, current, other);
            break;
          }
          d.TakenPair(i, j, left.pos, right.pos, current, other);
          var x := left.ConsumeOne();
          var y := right.ConsumeOne();
          current, other := current + x, other + y;
        } else {
          d.TakenAll(i, j, left.pos, right.pos, current, other);
          if l.Some? {
            var x := left.ConsumeOne();
            current := current + x;
          } else if r.Some? {
            var y := right.ConsumeOne();
            other := other + y;
          }
          break;
        }
      }
    }

    method EmitStrictMismatchRun()
      requires AtMismatch() && opts.maxShift == 0
      modifies this, left, right
      ensures Reported(Subject().NextCut(old(left.pos), old(right.pos)))
    {
      hide BufferedSource.Valid, Diff.Valid, Capped, LastDisplay, Diff.HunkOf;
      ghost var c := Subject().StrictCut(left.pos, right.pos);
      var before := LastDisplayOf(left);
      var current, other := TakeMismatchRun();
      var after := DisplayHere();
      PushHunk(KindOf(current == [], other == []), current, other, before, after, c);
    }

    // Where the next byte of the current document is displayed.
    method DisplayHere() returns (display: Option<nat>)
      requires Valid()
      modifies left
      ensures Valid() && left.pos == old(left.pos) && display == Subject().DisplayAt(left.pos)
    {
      hide BufferedSource.Valid, Diff.Valid, Capped;
      var b := left.Peek(0);
      display := if b.Some? then b.value.displayOffset else None;
    }

    method EmitUnresolvedBlock()
      requires AtMismatch() && opts.maxShift > 0 && Subject().AnchorAt(left.pos, right.pos).None?
      modifies this, left, right
      ensures Reported(Subject().NextCut(old(left.pos), old(right.pos)))
    {
      hide BufferedSource.Valid, Diff.Valid, Capped, Diff.AnchorAt, LastDisplay, Diff.HunkOf;
      ghost var c := Subject().UnresolvedCut(left.pos, right.pos);
      var block := opts.UnresolvedBlockLen();
      var before := LastDisplayOf(left);
      var current := left.Consume(block);
      var other := right.Consume(block);
      var after := DisplayHere();
      PushHunk(Unresolved, current, other, before, after, c);
    }

    method EmitToAnchor(a: Anchor)
      requires AtMismatch() && opts.maxShift > 0 && Subject().AnchorAt(left.pos, right.pos) == Some(a)
      modifies this, left, right
      ensures Reported(Subject().NextCut(old(left.pos), old(right.pos)))
    {
      hide BufferedSource.Valid, Diff.Valid, Capped, LastDisplay, Diff.HunkOf, IndexedSearch;
      Subject().AnchorFits(left.pos, right.pos, a);
      ghost var c := Subject().AnchorCut(left.pos, right.pos, a);
      var before := LastDisplayOf(left);
      var current := left.Consume(a.leftSkip);
      var other := right.Consume(a.rightSkip);
      var after := DisplayHere();
      if current == [] && other == [] {
        return;
      }
      PushHunk(KindOf(current == [], other == []), current, other, before, after, c);
    }

    method EmitRestOnlyCurrent()
      requires Valid() && left.pos < |left.stream| && right.pos == |right.stream|
      modifies this, left, right
      ensures Reported(Cut(OnlyCurrent, old(left.pos), old(right.pos), |left.stream|, |right.stream|))
    {
      hide BufferedSource.Valid, Diff.Valid, Capped, LastDisplay, Summary;
      ghost var c := Cut(OnlyCurrent, left.pos, right.pos, |left.stream|, |right.stream|);
      var before := LastDisplayOf(left);
      var current := left.ConsumeAllSummary(opts.previewLen);
      assert left.stream[c.i..] == left.stream[c.i..c.ni];
      var other := SideOf(right, [], c.j);
      var after := DisplayHere();
      PushHunkSummary(OnlyCurrent, current, other, before, after, c);
    }

    method EmitRestOnlyOther()
      requires Valid() && left.pos == |left.stream| && right.pos < |right.stream|
      modifies this, left, right
      ensures Reported(Cut(OnlyOther, old(left.pos), old(right.pos), |left.stream|, |right.stream|))
    {
      hide BufferedSource.Valid, Diff.Valid, Capped, LastDisplay, Summary;
      ghost var c := Cut(OnlyOther, left.pos, right.pos, |left.stream|, |right.stream|);
      var before := LastDisplayOf(left);
      var current := SideOf(left, [], c.i);
      var other := right.ConsumeAllSummary(opts.previewLen);
      assert right.stream[c.j..] == right.stream[c.j..c.nj];
      var after := DisplayHere();
      PushHunkSummary(OnlyOther, current, other, before, after, c);
    }

    /** Look ahead on both sides for the place where they line up again. */
    method FindNextAnchor() returns (found: Option<Anchor>)
      requires Valid()
      modifies left, right
      ensures Valid() && left.pos == old(left.pos) && right.pos == old(right.pos)
      ensures found == Subject().AnchorAt(left.pos, right.pos)
    {
      hide BufferedSource.Valid, Capped, IndexedSearch, Diff.AnchorAt, Numbered;
      var lookahead := opts.LookaheadLen();
      left.FillAtLeast(lookahead);
      right.FillAtLeast(lookahead);
      var leftWindow := BytesOf(left.Window(lookahead));
      var rightWindow := BytesOf(right.Window(lookahead));
      assert leftWindow == Subject().LeftWindow(left.pos);
      assert rightWindow == Subject().RightWindow(right.pos);
      found := FindAnchor(leftWindow, rightWindow, opts, hash);
      Subject().AnchorIs(left.pos, right.pos, found);
    }

    /**
     * The whole diff. It reports the two streams' hunks, in order, up to the cap, and says it was truncated
     * exactly when there were more; how much was read at a time does not matter.
     */
    method Run() returns (result: DiffResult)
      requires Valid() && left.pos == 0 && right.pos == 0 && emitted == []
      modifies this, left, right
      ensures Capped(Subject().Hunks(0, 0), opts.hunkCap, result.hunks, result.truncated)
      ensures forall h :: h in result.hunks ==> Subject().Describes(h)
    {
      hide BufferedSource.Valid, Diff.Valid, Capped, Diff.EqualRun, Diff.Hunks, Diff.HunkOf, Diff.NextCut, Diff.AnchorAt;
      hide Diff.Describes;
      ghost var d := Subject();
      while true
        invariant Valid() && emitted + d.Hunks(left.pos, right.pos) == d.Hunks(0, 0)
        decreases |left.stream| - left.pos + |right.stream| - right.pos
      {
        ghost var i, j, was := left.pos, right.pos, emitted;
        d.HunksStep(i, j);
        ConsumeEqualRun();
        var leftEnd := left.IsEof();
        var rightEnd := right.IsEof();
        if leftEnd && rightEnd {
          assert emitted == emitted + [] == d.Hunks(0, 0);
          break;
        }
        ghost var c := d.CutAt(left.pos, right.pos);
        d.HunksEnd();
        if leftEnd {
          EmitRestOnlyOther();
          assert emitted == was + ([d.HunkOf(c)] + []);
          break;
        }
        if rightEnd {
          EmitRestOnlyCurrent();
          assert emitted == was + ([d.HunkOf(c)] + []);
          break;
        }
        if truncated {
          CappedMore(emitted, d.Hunks(i, j), opts.hunkCap, hunks, truncated);
          break;
        }
        if opts.maxShift == 0 {
          EmitStrictMismatchRun();
        } else {
          var found := FindNextAnchor();
          match found
          case Some(anchor) => EmitToAnchor(anchor);
          case None => EmitUnresolvedBlock();
        }
        assert was + ([d.HunkOf(c)] + d.Hunks(c.ni, c.nj)) == emitted + d.Hunks(c.ni, c.nj);
      }
      result := DiffResult(hunks, truncated);
      d.CappedDescribed(result.hunks, result.truncated);
    }

    method LastDisplayOf(source: BufferedSource) returns (display: Option<nat>)
      requires source.Valid()
      ensures source.pos <= |source.stream| && display == LastDisplay(source.stream[..source.pos])
    {
      display := source.lastDisplay;
    }
  }

  /** Compare two streams. */
  method DiffStreams(left: seq<DiffByte>, right: seq<DiffByte>, options: Options,
        hash: Hash) returns (result: DiffResult)
    requires Numbered(left) && Numbered(right)
    ensures Capped(Diff(left, right, options.Normalized(), hash).Hunks(0, 0), options.Normalized().hunkCap, result.hunks, result.truncated)
    ensures forall h :: h in result.hunks ==> Diff(left, right, options.Normalized(), hash).Describes(h)
  {
    hide Diff.Hunks, Diff.Describes, Capped;
    var opts := options.Normalized();
    var l := new BufferedSource(left, opts.chunkSize);
    var r := new BufferedSource(right, opts.chunkSize);
    var engine := new Engine(l, r, opts, hash);
    result := engine.Run();
  }
}