/**
 * The resumable mismatch search: steps of a bounded size over the displayed cells, a primary range and a
 * wrapped one, with the other file compared byte by byte at the logical offset.
 */
module Mismatches {
  import opened Common

  const DIFF_MISMATCH_CHUNK: nat := 64 * 1024

  // One displayed cell; deleted cells are shown but have no logical offset.
  datatype Cell = Cell(byte: Byte, deleted: bool)

  // How many live cells are displayed before `d`.
  function Rank(cells: seq<Cell>, d: nat): nat
    requires d <= |cells|
  {
    if d == 0 then 0 else Rank(cells, d - 1) + if cells[d - 1].deleted then 0 else 1
  }

  function LogicalOffset(cells: seq<Cell>, d: nat): Option<nat> {
    if d < |cells| && !cells[d].deleted then Some(Rank(cells, d)) else None
  }

  // A live cell whose byte is not the other file's byte at its logical offset.
  ghost predicate Mismatch(cells: seq<Cell>, other: seq<Byte>, d: nat) {
    && d < |cells| && !cells[d].deleted
    && (Rank(cells, d) >= |other| || other[Rank(cells, d)] != cells[d].byte)
  }

  ghost predicate NoMismatch(cells: seq<Cell>, other: seq<Byte>, from: nat, end: nat) {
    forall d: nat :: from <= d < end ==> !Mismatch(cells, other, d)
  }

  // ----- one chunk

  function ReadOther(other: seq<Byte>, logicalStart: nat, len: nat): seq<Byte> {
    if len == 0 || logicalStart >= |other| then [] else other[logicalStart..logicalStart + Min(|other| - logicalStart, len)]
  }

  // `current[k]` has no equal byte opposite it.
  ghost predicate Differs(current: seq<Byte>, other: seq<Byte>, k: nat) {
    k < |current| && (k >= |other| || current[k] != other[k])
  }

  /** The first byte of `current` that has no equal byte opposite it. */
  method FirstForwardDiffIndex(current: seq<Byte>, other: seq<Byte>) returns (found: Option<nat>)
    ensures found.None? ==> forall k: nat :: !Differs(current, other, k)
    ensures found.Some? ==> Differs(current, other, found.value) && forall k: nat :: k < found.value ==> !Differs(current, other, k)
  {
    var shared := Min(|current|, |other|);
    if current[..shared] == other[..shared] {
      assert forall k :: 0 <= k < shared ==> current[..shared][k] == other[..shared][k];
      return if |current| > |other| then Some(|other|) else None;
    }
    for index := 0 to shared
      invariant forall k: nat :: k < index ==> !Differs(current, other, k)
    {
      if current[index] != other[index] {
        return Some(index);
      }
    }
    return if |current| > |other| then Some(|other|) else None;
  }

  /** The last byte of `current` that has no equal byte opposite it. */
  method FirstBackwardDiffIndex(current: seq<Byte>, other: seq<Byte>) returns (found: Option<nat>)
    ensures found.None? ==> forall k: nat :: !Differs(current, other, k)
    ensures found.Some? ==> Differs(current, other, found.value) && forall k: nat :: k > found.value ==> !Differs(current, other, k)
  {
    if |current| > |other| {
      return Some(|current| - 1);
    }
    var shared := Min(|current|, |other|);
    if current[..shared] == other[..shared] {
      assert forall k :: 0 <= k < shared ==> current[..shared][k] == other[..shared][k];
      return None;
    }
    var index := |current|;
    while index > 0
      invariant index <= |current| && forall k: nat :: k >= index ==> !Differs(current, other, k)
    {
      index := index - 1;
      if current[index] != other[index] {
        return Some(index);
      }
    }
    return None;
  }

  // The displayed positions of the live cells of a chunk, in order.
  function LiveOffsets(cells: seq<Cell>, from: nat, end: nat): seq<nat>
    requires from <= end <= |cells|
  {
    if from == end then []
    else LiveOffsets(cells, from, end - 1) + if cells[end - 1].deleted then [] else [end - 1]
  }

  function LiveBytes(cells: seq<Cell>, from: nat, end: nat): seq<Byte>
    requires from <= end <= |cells|
  {
    if from == end then []
    else LiveBytes(cells, from, end - 1) + if cells[end - 1].deleted then [] else [cells[end - 1].byte]
  }

  // `offsets` and `bytes` are live cells of [from, end) in order, with consecutive logical offsets.
  ghost predicate LiveRun(cells: seq<Cell>, from: nat, end: nat, offsets: seq<nat>, bytes: seq<Byte>)
    requires from <= end <= |cells|
  {
    && |offsets| == |bytes| == Rank(cells, end) - Rank(cells, from)
    && (forall k :: 0 <= k < |offsets| ==> LiveAt(cells, from, end, offsets[k], bytes[k], k))
    && (forall i, j :: 0 <= i < j < |offsets| ==> offsets[i] < offsets[j])
    && (forall d: nat :: from <= d < end && !cells[d].deleted ==> d in offsets)
  }

  ghost predicate LiveAt(cells: seq<Cell>, from: nat, end: nat, d: nat, byte: Byte, k: nat)
    requires from <= end <= |cells|
  {
    from <= d < end && !cells[d].deleted && cells[d].byte == byte && Rank(cells, d) == Rank(cells, from) + k
  }

  /** The live cells of a chunk have consecutive logical offsets from the rank of its start. */
  lemma {:induction false} LiveFacts(cells: seq<Cell>, from: nat, end: nat)
    requires from <= end <= |cells|
    ensures LiveRun(cells, from, end, LiveOffsets(cells, from, end), LiveBytes(cells, from, end))
    decreases end
  {
    if from < end {
      LiveFacts(cells, from, end - 1);
      LiveRunStep(cells, from, end, LiveOffsets(cells, from, end - 1), LiveBytes(cells, from, end - 1));
    }
  }

  lemma {:induction false} LiveRunStep(cells: seq<Cell>, from: nat, end: nat, offsets: seq<nat>, bytes: seq<Byte>)
    requires from < end <= |cells| && LiveRun(cells, from, end - 1, offsets, bytes)
    ensures
      var last := cells[end - 1];
      LiveRun(cells, from, end, offsets + if last.deleted then [] else [end - 1], bytes + if last.deleted then [] else [last.byte])
  {
    assert Rank(cells, end) == Rank(cells, end - 1) + if cells[end - 1].deleted then 0 else 1;
    hide Rank;
    assert offsets + [] == offsets && bytes + [] == bytes;
    forall k | 0 <= k < |offsets| ensures LiveAt(cells, from, end, offsets[k], bytes[k], k) {
      assert LiveAt(cells, from, end - 1, offsets[k], bytes[k], k);
    }
  }

  // In a chunk without deleted cells every position is live.
  lemma {:induction false} AllLive(cells: seq<Cell>, from: nat, end: nat)
    requires from <= end <= |cells| && forall d :: from <= d < end ==> !cells[d].deleted
    ensures LiveOffsets(cells, from, end) == seq(end - from, k requires 0 <= k < end - from => from + k)
    ensures Rank(cells, end) == Rank(cells, from) + (end - from)
    decreases end
  {
    if from < end {
      AllLive(cells, from, end - 1);
    }
  }

  /** A difference inside a chunk is a mismatch at the cell's displayed position, and only there. */
  lemma {:induction false} ChunkDiffers(cells: seq<Cell>, other: seq<Byte>, from: nat, end: nat, k: nat)
    requires from <= end <= |cells| && k < |LiveOffsets(cells, from, end)|
    ensures
      var offsets, bytes := LiveOffsets(cells, from, end), LiveBytes(cells, from, end);
      |bytes| == |offsets| && offsets[k] < |cells| &&
      (Mismatch(cells, other, offsets[k]) <==> Differs(bytes, ReadOther(other, Rank(cells, from), |bytes|), k))
  {
    hide LiveOffsets, LiveBytes, Rank;
    LiveFacts(cells, from, end);
    assert LiveAt(cells, from, end, LiveOffsets(cells, from, end)[k], LiveBytes(cells, from, end)[k], k);
  }

  // What a chunk's comparison says about its positions.
  ghost predicate ChunkResult(cells: seq<Cell>, other: seq<Byte>, from: nat, end: nat, found: Option<nat>,
        forward: bool) {
    match found
    case None => NoMismatch(cells, other, from, end)
    case Some(d) =>
      from <= d < end && Mismatch(cells, other, d)
      && if forward then NoMismatch(cells, other, from, d) else NoMismatch(cells, other, d + 1, end)
  }

  lemma {:induction false} ChunkSearched(cells: seq<Cell>, other: seq<Byte>, from: nat, end: nat, index: Option<nat>,
        forward: bool)
    requires from <= end <= |cells|
    requires
      var bytes := LiveBytes(cells, from, end);
      var against := ReadOther(other, Rank(cells, from), |bytes|);
      match index
      case None => forall k: nat :: !Differs(bytes, against, k)
      case Some(found) =>
        Differs(bytes, against, found)
        && forall k: nat :: (if forward then k < found else k > found) ==> !Differs(bytes, against, k)
    ensures
      var offsets := LiveOffsets(cells, from, end);
      match index
      case None => ChunkResult(cells, other, from, end, None, forward)
      case Some(found) => found < |offsets| && ChunkResult(cells, other, from, end, Some(offsets[found]), forward)
  {
    hide LiveOffsets, LiveBytes, Rank, ReadOther;
    LiveFacts(cells, from, end);
    var offsets, bytes := LiveOffsets(cells, from, end), LiveBytes(cells, from, end);
    forall k | 0 <= k < |offsets|
      ensures from <= offsets[k] < end
      ensures Mismatch(cells, other, offsets[k]) <==> Differs(bytes, ReadOther(other, Rank(cells, from), |bytes|), k)
    {
      assert LiveAt(cells, from, end, offsets[k], bytes[k], k);
      ChunkDiffers(cells, other, from, end, k);
    }
    hide Mismatch, LiveAt, Differs;
    forall d: nat | from <= d < end && Mismatch(cells, other, d) ensures exists k :: 0 <= k < |offsets| && offsets[k] == d {
      assert d in offsets by { MismatchIsLive(cells, other, d); }
    }
  }

  lemma {:induction false} MismatchIsLive(cells: seq<Cell>, other: seq<Byte>, d: nat)
    requires Mismatch(cells, other, d)
    ensures d < |cells| && !cells[d].deleted
  {
  }

  ghost predicate NoDeleted(cells: seq<Cell>, from: nat, end: nat) {
    end <= |cells| && forall d :: from <= d < end ==> !cells[d].deleted
  }

  lemma {:induction false} FastChunk(cells: seq<Cell>, from: nat, end: nat, k: nat)
    requires from < end && NoDeleted(cells, from, end)
    ensures LogicalOffset(cells, from) == Some(Rank(cells, from)) && Rank(cells, end) == Rank(cells, from) + (end - from)
    ensures |LiveBytes(cells, from, end)| == end - from
    ensures k < |LiveOffsets(cells, from, end)| ==> LiveOffsets(cells, from, end)[k] == from + k
  {
    AllLive(cells, from, end);
    LiveFacts(cells, from, end);
  }

  lemma {:induction false} SlowChunk(cells: seq<Cell>, from: nat, end: nat)
    requires from <= end <= |cells|
    ensures |LiveOffsets(cells, from, end)| == |LiveBytes(cells, from, end)| == Rank(cells, end) - Rank(cells, from)
    ensures LiveOffsets(cells, from, end) != [] ==>
      LogicalOffset(cells, LiveOffsets(cells, from, end)[0]) == Some(Rank(cells, from))
  {
    LiveFacts(cells, from, end);
    var offsets, bytes := LiveOffsets(cells, from, end), LiveBytes(cells, from, end);
    if offsets != [] {
      assert LiveAt(cells, from, end, offsets[0], bytes[0], 0);
    }
  }

  // Compare one chunk with the other file; `known` is its logical start when the walk already knows it.
  method SearchChunk(cells: seq<Cell>, other: seq<Byte>, from: nat, end: nat, fast: bool, known: Option<nat>,
        forward: bool)
    returns (found: Option<nat>, next: Option<nat>)
    requires from < end <= |cells| && (fast ==> NoDeleted(cells, from, end))
    requires known.Some? ==> known.value == Rank(cells, from)
    ensures ChunkResult(cells, other, from, end, found, forward)
    ensures found.None? && next.Some? ==> next.value == Rank(cells, end)
  {
    hide ChunkResult, Rank, LiveOffsets, LiveBytes, LogicalOffset, NoDeleted, Differs;
    var offsets, current := LiveOffsets(cells, from, end), LiveBytes(cells, from, end);
    SlowChunk(cells, from, end);
    if fast {
      FastChunk(cells, from, end, 0);
    }
    if current == [] {
      ChunkSearched(cells, other, from, end, None, forward) by { NothingDiffers(ReadOther(other, Rank(cells, from), 0)); }
      return None, known;
    }
    var start := if known.Some? then known else LogicalOffset(cells, if fast then from else offsets[0]);
    if start.None? {
      return None, None;
    }
    var against := ReadOther(other, start.value, |current|);
    var index: Option<nat>;
    if forward {
      index := FirstForwardDiffIndex(current, against);
    } else {
      index := FirstBackwardDiffIndex(current, against);
    }
    ChunkSearched(cells, other, from, end, index, forward);
    next := Some(start.value + |current|);
    if index.None? {
      found := None;
    } else if fast {
      FastChunk(cells, from, end, index.value);
      found := Some(from + index.value);
    } else {
      found := Some(offsets[index.value]);
    }
  }

  lemma {:induction false} NothingDiffers(other: seq<Byte>)
    ensures forall k: nat :: !Differs([], other, k)
  {
  }

  // ----- one step of the search

  datatype ScanStep = ScanStep(found: Option<nat>, next: Option<nat>, scanned: nat)

  // The walker cuts a range into chunks of its own choice and may take its fast path where no cell is deleted.
  method CutChunk(cells: seq<Cell>, from: nat, end: nat) returns (n: nat, fast: bool)
    requires from < end <= |cells|
    ensures 0 < n <= Min(DIFF_MISMATCH_CHUNK, end - from)
  {
    n :| 0 < n <= Min(DIFF_MISMATCH_CHUNK, end - from) by { assert 0 < 1 <= Min(DIFF_MISMATCH_CHUNK, end - from); }
    fast := *;
  }

  predicate AnyDeleted(cells: seq<Cell>, from: nat, end: nat)
    requires from <= end <= |cells|
  {
    exists d :: from <= d < end && cells[d].deleted
  }

  lemma {:induction false} ChunksJoin(cells: seq<Cell>, other: seq<Byte>, a: nat, b: nat, c: nat, found: Option<nat>)
    requires a <= b <= c
    ensures NoMismatch(cells, other, a, b) && ChunkResult(cells, other, b, c, found, true) ==> ChunkResult(cells, other, a, c, found, true)
    ensures NoMismatch(cells, other, b, c) && ChunkResult(cells, other, a, b, found, false) ==>
      ChunkResult(cells, other, a, c, found, false)
  {
    hide Mismatch;
  }

  lemma {:induction false} RankWithoutDeleted(cells: seq<Cell>, d: nat)
    requires d <= |cells| && forall i :: 0 <= i < d ==> !cells[i].deleted
    ensures Rank(cells, d) == d
  {
    if d > 0 {
      RankWithoutDeleted(cells, d - 1);
    }
  }

  /** Search at most `maxBytes` positions forward for the first mismatch. */
  method FindMismatchForwardStep(cells: seq<Cell>, other: seq<Byte>, hasTombstones: bool, start: nat,
        endInclusive: nat, maxBytes: nat)
    returns (step: ScanStep)
    requires |cells| <= U64_MAX && (!hasTombstones ==> forall d :: 0 <= d < |cells| ==> !cells[d].deleted)
    ensures ForwardStep(cells, other, start, endInclusive, maxBytes, step)
  {
    hide ChunkResult, NoMismatch, Mismatch, Rank;
    if start > endInclusive || maxBytes == 0 || start >= |cells| {
      return ScanStep(None, None, 0);
    }
    var end: nat := Min(endInclusive, |cells| - 1);
    var stepEnd: nat := Min(SatAdd(start, SatSub(maxBytes, 1)), end);
    var found: Option<nat> := None;
    var nextLogical: Option<nat> := if hasTombstones then None else Some(start);
    if !hasTombstones {
      RankWithoutDeleted(cells, start);
    }
    var pos := start;
    NothingBetween(cells, other, start);
    while pos <= stepEnd
      invariant start <= pos <= stepEnd + 1
      invariant found.None? && NoMismatch(cells, other, start, pos)
      invariant nextLogical.Some? ==> nextLogical.value == Rank(cells, pos)
    {
      var n, fast := CutChunk(cells, pos, stepEnd + 1);
      fast := fast && !AnyDeleted(cells, pos, pos + n);
      found, nextLogical := SearchChunk(cells, other, pos, pos + n, fast, nextLogical, true);
      ChunksJoin(cells, other, start, pos, pos + n, found);
      if found.Some? {
        NothingAfter(cells, other, start, pos + n, stepEnd + 1, found.value);
        break;
      }
      NothingFound(cells, other, start, pos + n, true);
      pos := pos + n;
    }
    if found.None? {
      NothingFound(cells, other, start, stepEnd + 1, true);
    }
    step := ScanStep(found, if found.None? && stepEnd < end then Some(stepEnd + 1) else None, stepEnd - start + 1);
  }

  // What a forward step reports: the first mismatch of its stretch, where to go on, and how far it looked.
  ghost predicate ForwardStep(cells: seq<Cell>, other: seq<Byte>, start: nat, endInclusive: nat, maxBytes: nat,
        step: ScanStep) {
    if start > endInclusive || maxBytes == 0 || start >= |cells| then step == ScanStep(None, None, 0)
    else
      var end := Min(endInclusive, |cells| - 1);
      var stepEnd := Min(SatAdd(start, SatSub(maxBytes, 1)), end);
      && ChunkResult(cells, other, start, stepEnd + 1, step.found, true)
      && step.next == (if step.found.None? && stepEnd < end then Some(stepEnd + 1) else None)
      && step.scanned == stepEnd - start + 1
  }

  ghost predicate BackwardStep(cells: seq<Cell>, other: seq<Byte>, rangeStart: nat, endInclusive: nat, maxBytes: nat,
        step: ScanStep) {
    if cells == [] || rangeStart > endInclusive || maxBytes == 0 then step == ScanStep(None, None, 0)
    else
      var end := Min(endInclusive, |cells| - 1);
      var stepStart := Max(SatSub(end, SatSub(maxBytes, 1)), rangeStart);
      && ChunkResult(cells, other, stepStart, end + 1, step.found, false)
      && step.next == (if step.found.None? && stepStart > rangeStart then Some(stepStart - 1) else None)
      && step.scanned == end - stepStart + 1
  }

  lemma {:induction false} NothingBetween(cells: seq<Cell>, other: seq<Byte>, d: nat)
    ensures NoMismatch(cells, other, d, d)
  {
  }

  lemma {:induction false} NothingFound(cells: seq<Cell>, other: seq<Byte>, from: nat, end: nat, forward: bool)
    ensures ChunkResult(cells, other, from, end, None, forward) <==> NoMismatch(cells, other, from, end)
  {
  }

  lemma {:induction false} NothingAfter(cells: seq<Cell>, other: seq<Byte>, from: nat, mid: nat, end: nat, found: nat)
    requires ChunkResult(cells, other, from, mid, Some(found), true) && mid <= end
    ensures ChunkResult(cells, other, from, end, Some(found), true)
  {
  }

  lemma {:induction false} NothingBefore(cells: seq<Cell>, other: seq<Byte>, from: nat, mid: nat, end: nat, found: nat)
    requires ChunkResult(cells, other, mid, end, Some(found), false) && from <= mid
    ensures ChunkResult(cells, other, from, end, Some(found), false)
  {
  }

  /** Search at most `maxBytes` positions backward, from the end of the range, for the last mismatch. */
  method FindMismatchBackwardStep(cells: seq<Cell>, other: seq<Byte>, rangeStart: nat, endInclusive: nat, maxBytes: nat)
    returns (step: ScanStep)
    requires rangeStart < |cells| || cells == []
    ensures BackwardStep(cells, other, rangeStart, endInclusive, maxBytes, step)
  {
    hide ChunkResult, NoMismatch, Mismatch, Rank;
    if cells == [] || rangeStart > endInclusive || maxBytes == 0 {
      return ScanStep(None, None, 0);
    }
    var end: nat := Min(endInclusive, |cells| - 1);
    var stepStart: nat := Max(SatSub(end, SatSub(maxBytes, 1)), rangeStart);
    var found: Option<nat> := None;
    var stop := end + 1;
    NothingBetween(cells, other, stop);
    while stop > stepStart
      invariant stepStart <= stop <= end + 1
      invariant found.None? && NoMismatch(cells, other, stop, end + 1)
    {
      var n, fast := CutChunk(cells, stepStart, stop);
      fast := fast && !AnyDeleted(cells, stop - n, stop);
      ghost var next: Option<nat>;
      found, next := SearchChunk(cells, other, stop - n, stop, fast, None, false);
      ChunksJoin(cells, other, stop - n, stop, end + 1, found);
      if found.Some? {
        NothingBefore(cells, other, stepStart, stop - n, end + 1, found.value);
        break;
      }
      NothingFound(cells, other, stop - n, end + 1, false);
      stop := stop - n;
    }
    if found.None? {
      NothingFound(cells, other, stepStart, end + 1, false);
    }
    step := ScanStep(found, if found.None? && stepStart > rangeStart then Some(stepStart - 1) else None, end - stepStart + 1);
  }

  // ----- the search across steps

  datatype Direction = Forward | Backward

  datatype Phase = Primary | Wrapped

  datatype Scan = Scan(direction: Direction, phase: Phase, origin: nat, rangeStart: nat, rangeEnd: nat, cursor: nat) {
    /** Go on with the other side of the origin; false when that was already done. */
    function AdvanceToWrap(docLen: nat): (Scan, bool) {
      if phase == Wrapped || docLen == 0 then (this, false)
      else
        var last: nat := docLen - 1;
        var next := match direction
          case Forward => this.(phase := Wrapped, rangeStart := 0, rangeEnd := Min(origin, last), cursor := 0)
          case Backward => this.(phase := Wrapped, rangeStart := Min(origin, last), rangeEnd := last, cursor := last);
        (next, next.rangeStart <= next.rangeEnd)
    }
  }

  function NewScan(direction: Direction, origin: nat, docLen: nat): Option<Scan> {
    if docLen == 0 then None
    else
      var last: nat := docLen - 1;
      var held: nat := Min(origin, last);
      Some(match direction
           case Forward =>
             var start := SatAdd(origin, 1);
             if start <= last then Scan(Forward, Primary, held, start, last, start) else Scan(Forward, Wrapped, held, 0, last, 0)
           case Backward =>
             if origin > 0 then Scan(Backward, Primary, held, 0, origin - 1, origin - 1) else Scan(Backward, Primary, held, 0, 0, 0))
  }

  // How far `d` lies from the origin, going around the document in the search's direction.
  function Distance(direction: Direction, docLen: nat, origin: nat, d: nat): int {
    match direction
    case Forward => if d > origin then d - origin else d - origin + docLen
    case Backward => if d < origin then origin - d else origin - d + docLen
  }

  // `found` is the mismatch met first when going around the document from the origin.
  ghost predicate Nearest(cells: seq<Cell>, other: seq<Byte>, direction: Direction, origin: nat, found: Option<nat>) {
    match found
    case None => NoMismatch(cells, other, 0, |cells|)
    case Some(d) =>
      Mismatch(cells, other, d)
      && forall e: nat :: Mismatch(cells, other, e) ==> Distance(direction, |cells|, origin, d) <= Distance(direction, |cells|, origin, e)
  }

  // What the search answers: going backward from offset 0, that offset itself is looked at first.
  ghost predicate Answer(cells: seq<Cell>, other: seq<Byte>, direction: Direction, origin: nat, found: Option<nat>) {
    if direction == Backward && origin == 0 && Mismatch(cells, other, 0) then found == Some(0)
    else Nearest(cells, other, direction, origin, found)
  }

  /**
   * The answer is the nearest mismatch around the document, except exactly when the search goes backward
   * from offset 0, that byte differs, and so does another.
   */
  lemma {:induction false} AnswerIsNearest(cells: seq<Cell>, other: seq<Byte>, direction: Direction, origin: nat,
        found: Option<nat>)
    requires Answer(cells, other, direction, origin, found)
    ensures Nearest(cells, other, direction, origin, found) <==>
      !(direction == Backward && origin == 0 && Mismatch(cells, other, 0) && !NoMismatch(cells, other, 1, |cells|))
  {
    hide Mismatch;
    if direction == Backward && origin == 0 && Mismatch(cells, other, 0) && !NoMismatch(cells, other, 1, |cells|) {
      var e: nat :| 1 <= e < |cells| && Mismatch(cells, other, e);
      assert Distance(Backward, |cells|, 0, e) < Distance(Backward, |cells|, 0, 0);
    } else if direction == Backward && origin == 0 && Mismatch(cells, other, 0) {
      forall e: nat | Mismatch(cells, other, e) ensures e == 0 {
        MismatchIsLive(cells, other, e);
      }
    }
  }

  /** Two differing bytes, searched backward from offset 0: the search stays at 0, though offset 1 comes first. */
  lemma {:induction false} BackwardFromZeroExample()
    ensures
      var cells, other := [Cell(1, false), Cell(1, false)], [0, 0];
      && Answer(cells, other, Backward, 0, Some(0)) && !Nearest(cells, other, Backward, 0, Some(0))
      && Nearest(cells, other, Backward, 0, Some(1))
  {
    var cells, other := [Cell(1, false), Cell(1, false)], [0, 0];
    assert Rank(cells, 1) == 1;
    assert Mismatch(cells, other, 0) && Mismatch(cells, other, 1);
    forall e: nat | Mismatch(cells, other, e) ensures e < 2 {
    }
  }

  /** There is only one answer, so the size of the steps that reach it does not matter. */
  lemma {:induction false} AnswerIsUnique(cells: seq<Cell>, other: seq<Byte>, direction: Direction, origin: nat,
        a: Option<nat>, b: Option<nat>)
    requires Answer(cells, other, direction, origin, a) && Answer(cells, other, direction, origin, b)
    ensures a == b
  {
    forall e: nat | Mismatch(cells, other, e) ensures e < |cells| {
      MismatchIsLive(cells, other, e);
    }
    hide Mismatch;
  }

  // What is known while a search is pending: nothing between its start and its cursor differs.
  ghost predicate Pending(cells: seq<Cell>, other: seq<Byte>, origin: nat, scan: Scan) {
    && |cells| > 0
    && scan.origin == Min(origin, |cells| - 1)
    && match (scan.direction, scan.phase)
       case (Forward, Primary) =>
         && origin < scan.cursor < |cells| && scan.rangeEnd == |cells| - 1
         && NoMismatch(cells, other, origin + 1, scan.cursor)
       case (Forward, Wrapped) =>
         && scan.cursor <= scan.rangeEnd == scan.origin
         && NoMismatch(cells, other, origin + 1, |cells|) && NoMismatch(cells, other, 0, scan.cursor)
       case (Backward, Primary) =>
         && scan.rangeStart == 0
         && (if origin == 0 then scan.cursor == 0 else scan.cursor < origin && NoMismatch(cells, other, scan.cursor + 1, origin))
       case (Backward, Wrapped) =>
         && scan.rangeStart == scan.origin <= scan.cursor < |cells|
         && NoMismatch(cells, other, 0, if origin == 0 then 1 else origin) && NoMismatch(cells, other, scan.cursor + 1, |cells|)
  }

  // Positions still to look at, the wrapped range included.
  ghost function Left(docLen: nat, scan: Scan): nat {
    match (scan.direction, scan.phase)
    case (Forward, Primary) => SatSub(docLen, scan.cursor) + docLen + 1
    case (Forward, Wrapped) => SatSub(docLen, scan.cursor)
    case (Backward, Primary) => scan.cursor + docLen + 1
    case (Backward, Wrapped) => scan.cursor
  }

  lemma {:induction false} NewScanPending(cells: seq<Cell>, other: seq<Byte>, direction: Direction, origin: nat)
    requires 0 < |cells| <= U64_MAX
    ensures Pending(cells, other, origin, NewScan(direction, origin, |cells|).value)
    ensures NewScan(direction, origin, |cells|).value.direction == direction
  {
    hide Mismatch;
  }

  // The step a pending search takes.
  ghost predicate StepOf(cells: seq<Cell>, other: seq<Byte>, scan: Scan, budget: nat, step: ScanStep) {
    match scan.direction
    case Forward => ForwardStep(cells, other, scan.cursor, scan.rangeEnd, budget, step)
    case Backward => BackwardStep(cells, other, scan.rangeStart, scan.cursor, budget, step)
  }

  lemma {:induction false} FoundIsAnswer(cells: seq<Cell>, other: seq<Byte>, origin: nat, scan: Scan, budget: nat,
        step: ScanStep)
    requires |cells| <= U64_MAX && budget > 0
    requires Pending(cells, other, origin, scan) && StepOf(cells, other, scan, budget, step) && step.found.Some?
    ensures Answer(cells, other, scan.direction, origin, step.found)
  {
    var d := step.found.value;
    forall e: nat | Mismatch(cells, other, e) ensures e < |cells| {
      MismatchIsLive(cells, other, e);
    }
    hide Mismatch;
    assert Mismatch(cells, other, d);
  }

  lemma {:induction false} NextIsPending(cells: seq<Cell>, other: seq<Byte>, origin: nat, scan: Scan, budget: nat,
        step: ScanStep)
    requires |cells| <= U64_MAX && budget > 0
    requires Pending(cells, other, origin, scan) && StepOf(cells, other, scan, budget, step) && step.next.Some?
    ensures Pending(cells, other, origin, scan.(cursor := step.next.value))
    ensures Left(|cells|, scan.(cursor := step.next.value)) < Left(|cells|, scan)
  {
    forall e: nat | Mismatch(cells, other, e) ensures e < |cells| {
      MismatchIsLive(cells, other, e);
    }
    hide Mismatch;
  }

  lemma {:induction false} EndWrapsOrAnswers(cells: seq<Cell>, other: seq<Byte>, origin: nat, scan: Scan,
        budget: nat, step: ScanStep)
    requires |cells| <= U64_MAX && budget > 0
    requires Pending(cells, other, origin, scan) && StepOf(cells, other, scan, budget, step) && step.found.None? && step.next.None?
    ensures
      var (next, more) := scan.AdvanceToWrap(|cells|);
      if more then Pending(cells, other, origin, next) && Left(|cells|, next) < Left(|cells|, scan) && next.direction == scan.direction
      else Answer(cells, other, scan.direction, origin, None)
  {
    hide Mismatch;
    forall e: nat | Mismatch(cells, other, e) ensures e < |cells| {
      MismatchIsLive(cells, other, e);
    }
  }

  datatype Report = NoReport | NoBytes | Scanning | FoundAt(target: nat) | NoDifference

  /** The diff page's search state: the cursor, the search in progress, and what was last reported. */
  class MismatchSearch {
    const cells: seq<Cell>
    const other: seq<Byte>
    const hasTombstones: bool
    const budget: nat
    var cursor: nat
    var pending: Option<Scan>
    var report: Report
    // Where the pending search set out from.
    ghost var asked: nat

    ghost predicate Valid()
      reads this
    {
      && |cells| <= U64_MAX && budget > 0
      && (!hasTombstones ==> forall d :: 0 <= d < |cells| ==> !cells[d].deleted)
      && (pending.Some? ==> Pending(cells, other, asked, pending.value))
    }

    constructor (cells: seq<Cell>, other: seq<Byte>, hasTombstones: bool, budget: nat, cursor: nat)
      requires |cells| <= U64_MAX && budget > 0
      requires !hasTombstones ==> forall d :: 0 <= d < |cells| ==> !cells[d].deleted
      ensures Valid() && pending.None? && this.cells == cells && this.other == other && this.cursor == cursor
    {
      this.cells, this.other, this.hasTombstones, this.budget, this.cursor := cells, other, hasTombstones, budget, cursor;
      pending, report, asked := None, NoReport, 0;
    }

    // The outcome of one more step of a search that was pending.
    ghost predicate Moved(scan: Scan, from: nat)
      reads this
    {
      match report
      case Scanning => pending.Some? && cursor == from && pending.value.direction == scan.direction
                       && Left(|cells|, pending.value) < Left(|cells|, scan)
      case FoundAt(d) => pending.None? && cursor == d && Answer(cells, other, scan.direction, asked, Some(d))
      case NoDifference => pending.None? && cursor == from && Answer(cells, other, scan.direction, asked, None)
      case NoBytes => cells == [] && pending.None? && cursor == from
      case NoReport => false
    }

    /** Take one step of the pending search, if there is one. */
    method ContinueScan()
      requires Valid()
      modifies this
      ensures Valid() && asked == old(asked)
      ensures old(pending).None? ==> pending.None? && cursor == old(cursor) && report == old(report)
      ensures old(pending).Some? ==> Moved(old(pending).value, old(cursor))
    {
      hide Pending, StepOf, Answer, Left;
      if pending.None? {
        return;
      }
      var scan := pending.value;
      pending := None;
      if cells == [] {
        report := NoBytes;
        return;
      }
      PendingRanges(cells, other, asked, scan);
      var step: ScanStep;
      match scan.direction {
        case Forward => step := FindMismatchForwardStep(cells, other, hasTombstones, scan.cursor, scan.rangeEnd, budget);
        case Backward => step := FindMismatchBackwardStep(cells, other, scan.rangeStart, scan.cursor, budget);
      }
      assert StepOf(cells, other, scan, budget, step) by { StepIs(cells, other, scan, budget, step); }
      if step.found.Some? {
        FoundIsAnswer(cells, other, asked, scan, budget, step);
        cursor, report := step.found.value, FoundAt(step.found.value);
        return;
      }
      if step.next.Some? {
        NextIsPending(cells, other, asked, scan, budget, step);
        pending, report := Some(scan.(cursor := step.next.value)), Scanning;
        return;
      }
      EndWrapsOrAnswers(cells, other, asked, scan, budget, step);
      var (next, more) := scan.AdvanceToWrap(|cells|);
      if more {
        pending, report := Some(next), Scanning;
        return;
      }
      report := NoDifference;
    }

    /** Start a search from the cursor and take its first step. */
    method JumpToMismatch(direction: Direction)
      requires Valid()
      modifies this
      ensures Valid()
      ensures cells == [] ==> report == NoBytes && cursor == old(cursor) && pending == old(pending)
      ensures cells != [] ==> asked == old(cursor) && Moved(NewScan(direction, old(cursor), |cells|).value, old(cursor))
    {
      hide Pending, Answer, Left;
      if cells == [] {
        report := NoBytes;
        return;
      }
      var scan := NewScan(direction, cursor, |cells|);
      NewScanPending(cells, other, direction, cursor);
      pending, asked, report := scan, cursor, Scanning;
      ContinueScan();
    }

    /**
     * A search left to run: it ends, on the answer, whatever the step size. It reports that nothing differs
     * only when no displayed byte does.
     */
    method SearchToEnd(direction: Direction)
      requires Valid() && cells != []
      modifies this
      ensures Valid() && pending.None?
      ensures
        match report
        case FoundAt(d) => cursor == d && Answer(cells, other, direction, old(cursor), Some(d))
        case NoDifference => cursor == old(cursor) && NoMismatch(cells, other, 0, |cells|)
        case _ => false
    {
      hide Pending, Left, Mismatch;
      ghost var first := NewScan(direction, cursor, |cells|).value;
      NewScanPending(cells, other, direction, cursor);
      JumpToMismatch(direction);
      while pending.Some?
        invariant Valid() && asked == old(cursor)
        invariant exists scan: Scan :: scan.direction == direction && Moved(scan, old(cursor))
        decreases if pending.Some? then Left(|cells|, pending.value) else 0, pending.Some?
      {
        ContinueScan();
      }
    }
  }

  lemma {:induction false} PendingRanges(cells: seq<Cell>, other: seq<Byte>, origin: nat, scan: Scan)
    requires Pending(cells, other, origin, scan)
    ensures scan.direction == Backward ==> scan.rangeStart < |cells|
    ensures cells != []
  {
    hide NoMismatch;
  }

  lemma {:induction false} StepIs(cells: seq<Cell>, other: seq<Byte>, scan: Scan, budget: nat, step: ScanStep)
    requires scan.direction == Forward ==> ForwardStep(cells, other, scan.cursor, scan.rangeEnd, budget, step)
    requires scan.direction == Backward ==> BackwardStep(cells, other, scan.rangeStart, scan.cursor, budget, step)
    ensures StepOf(cells, other, scan, budget, step)
  {
  }
}
