/**
 * What the diff reads: a stream behind a look-ahead buffer, and the summary of a run of its bytes.
 */
module DiffSources {
  import opened Common

  datatype DiffByte = DiffByte(streamOffset: nat, displayOffset: Option<nat>, byte: Byte)

  // Offsets number the stream from 0.
  ghost predicate Numbered(stream: seq<DiffByte>) {
    |stream| <= U64_MAX && forall k :: 0 <= k < |stream| ==> stream[k].streamOffset == k
  }

  // The last displayed position in a run of bytes.
  function LastDisplay(bytes: seq<DiffByte>): Option<nat> {
    if bytes == [] then None
    else if bytes[|bytes| - 1].displayOffset.Some? then bytes[|bytes| - 1].displayOffset
    else LastDisplay(bytes[..|bytes| - 1])
  }

  /** It is the display position of the last byte that has one. */
  lemma {:induction false} LastDisplayFacts(bytes: seq<DiffByte>) returns (k: nat)
    ensures k <= |bytes| && forall j :: k <= j < |bytes| ==> bytes[j].displayOffset.None?
    ensures LastDisplay(bytes) == if k == 0 then None else bytes[k - 1].displayOffset
    ensures k > 0 ==> bytes[k - 1].displayOffset.Some?
  {
    if bytes == [] {
      k := 0;
    } else if bytes[|bytes| - 1].displayOffset.Some? {
      k := |bytes|;
    } else {
      k := LastDisplayFacts(bytes[..|bytes| - 1]);
    }
  }

  lemma {:induction false} LastDisplaySnoc(bytes: seq<DiffByte>, b: DiffByte)
    ensures LastDisplay(bytes + [b]) == if b.displayOffset.Some? then b.displayOffset else LastDisplay(bytes)
  {
    assert (bytes + [b])[..|bytes|] == bytes;
  }

  // ----- one side of a hunk

  datatype Side = Side(start: nat, len: nat, preview: seq<Byte>, displaySpans: seq<(nat, nat)>)

  function EmptyAt(start: nat): Side {
    Side(start, 0, [], [])
  }

  function AddDisplay(spans: seq<(nat, nat)>, display: nat): seq<(nat, nat)> {
    if spans != [] && spans[|spans| - 1].0 + spans[|spans| - 1].1 == display
    then spans[..|spans| - 1] + [(spans[|spans| - 1].0, spans[|spans| - 1].1 + 1)]
    else spans + [(display, 1)]
  }

  function Push(side: Side, b: DiffByte, previewLen: nat): Side {
    Side(
      if side.len == 0 then b.streamOffset else side.start,
      side.len + 1,
      if |side.preview| < previewLen then side.preview + [b.byte] else side.preview,
      if b.displayOffset.Some? then AddDisplay(side.displaySpans, b.displayOffset.value) else side.displaySpans)
  }

  /** A run of bytes, summarised; an empty run sits at `start`. */
  function Summary(bytes: seq<DiffByte>, start: nat, previewLen: nat): Side {
    if bytes == [] then EmptyAt(start)
    else Push(Summary(bytes[..|bytes| - 1], start, previewLen), bytes[|bytes| - 1], previewLen)
  }

  lemma {:induction false} SummaryOfNone(bytes: seq<DiffByte>, start: nat, previewLen: nat)
    requires bytes == []
    ensures Summary(bytes, start, previewLen) == EmptyAt(start)
  {
  }

  lemma {:induction false} SummarySnoc(bytes: seq<DiffByte>, b: DiffByte, start: nat, previewLen: nat)
    ensures Summary(bytes + [b], start, previewLen) == Push(Summary(bytes, start, previewLen), b, previewLen)
  {
    var all := bytes + [b];
    assert all[..|all| - 1] == bytes && all[|all| - 1] == b;
  }

  function BytesOf(bytes: seq<DiffByte>): (s: seq<Byte>)
    ensures |s| == |bytes| && forall k :: 0 <= k < |s| ==> s[k] == bytes[k].byte
  {
    seq(|bytes|, k requires 0 <= k < |bytes| => bytes[k].byte)
  }

  // The displayed positions of a run, in order.
  ghost function DisplaysOf(bytes: seq<DiffByte>): seq<nat> {
    if bytes == [] then []
    else
      var last := bytes[|bytes| - 1].displayOffset;
      DisplaysOf(bytes[..|bytes| - 1]) + if last.Some? then [last.value] else []
  }

  ghost function Positions(start: nat, len: nat): (s: seq<nat>)
    ensures |s| == len
  {
    seq(len, k requires 0 <= k < len => start + k)
  }

  // The positions a list of spans stands for.
  ghost function Expand(spans: seq<(nat, nat)>): seq<nat> {
    if spans == [] then []
    else Expand(spans[..|spans| - 1]) + Positions(spans[|spans| - 1].0, spans[|spans| - 1].1)
  }

  // Non-empty spans, none of which continues the one before it.
  ghost predicate Maximal(spans: seq<(nat, nat)>) {
    && (forall k :: 0 <= k < |spans| ==> spans[k].1 > 0)
    && (forall k :: 0 < k < |spans| ==> spans[k - 1].0 + spans[k - 1].1 != spans[k].0)
  }

  lemma {:induction false} ExpandSnoc(spans: seq<(nat, nat)>, start: nat, len: nat)
    ensures Expand(spans + [(start, len)]) == Expand(spans) + Positions(start, len)
  {
    assert (spans + [(start, len)])[..|spans|] == spans;
  }

  lemma {:induction false} PositionsSnoc(start: nat, len: nat)
    ensures Positions(start, len + 1) == Positions(start, len) + [start + len]
  {
  }

  lemma {:induction false} AddDisplayExpands(spans: seq<(nat, nat)>, display: nat)
    ensures Expand(AddDisplay(spans, display)) == Expand(spans) + [display]
  {
    hide Expand, Positions;
    if spans != [] && spans[|spans| - 1].0 + spans[|spans| - 1].1 == display {
      var front, start, len := spans[..|spans| - 1], spans[|spans| - 1].0, spans[|spans| - 1].1;
      assert spans == front + [(start, len)];
      ExpandSnoc(front, start, len);
      ExpandSnoc(front, start, len + 1);
      PositionsSnoc(start, len);
    } else {
      ExpandSnoc(spans, display, 1);
      PositionsSnoc(display, 0);
      assert Positions(display, 0) == [];
    }
  }

  lemma {:induction false} AddDisplayMaximal(spans: seq<(nat, nat)>, display: nat)
    requires Maximal(spans)
    ensures Maximal(AddDisplay(spans, display))
  {
  }

  lemma {:induction false} SummaryDisplays(bytes: seq<DiffByte>, start: nat, previewLen: nat)
    ensures
      var spans := Summary(bytes, start, previewLen).displaySpans;
      Expand(spans) == DisplaysOf(bytes) && Maximal(spans)
  {
    hide AddDisplay, Maximal;
    if bytes != [] {
      var front, b := bytes[..|bytes| - 1], bytes[|bytes| - 1];
      SummaryDisplays(front, start, previewLen);
      if b.displayOffset.Some? {
        AddDisplayExpands(Summary(front, start, previewLen).displaySpans, b.displayOffset.value);
        AddDisplayMaximal(Summary(front, start, previewLen).displaySpans, b.displayOffset.value);
      }
    } else {
      MaximalNone();
    }
  }

  lemma {:induction false} MaximalNone()
    ensures Maximal([])
  {
  }

  lemma {:induction false} SummaryBytes(bytes: seq<DiffByte>, start: nat, previewLen: nat)
    ensures
      var side := Summary(bytes, start, previewLen);
      && side.len == |bytes| && side.start == (if bytes == [] then start else bytes[0].streamOffset)
      && side.preview == BytesOf(bytes)[..Min(previewLen, |bytes|)]
  {
    hide AddDisplay;
    if bytes != [] {
      var front, b := bytes[..|bytes| - 1], bytes[|bytes| - 1];
      SummaryBytes(front, start, previewLen);
      assert BytesOf(bytes) == BytesOf(front) + [b.byte];
    }
  }

  /**
   * A summary says where the run starts, how long it is, its first bytes, and, as maximal spans, exactly
   * the positions it is displayed at.
   */
  lemma {:induction false} SummaryFacts(bytes: seq<DiffByte>, start: nat, previewLen: nat)
    ensures
      var side := Summary(bytes, start, previewLen);
      && side.len == |bytes| && side.start == (if bytes == [] then start else bytes[0].streamOffset)
      && side.preview == BytesOf(bytes)[..Min(previewLen, |bytes|)]
      && Expand(side.displaySpans) == DisplaysOf(bytes) && Maximal(side.displaySpans)
  {
    SummaryBytes(bytes, start, previewLen);
    SummaryDisplays(bytes, start, previewLen);
  }

  /** Summarise a run of bytes. */
  method FromBytes(bytes: seq<DiffByte>, previewLen: nat) returns (side: Side)
    ensures side == Summary(bytes, 0, previewLen)
  {
    side := EmptyAt(if bytes != [] then bytes[0].streamOffset else 0);
    for i := 0 to |bytes|
      invariant side == if i == 0 then EmptyAt(if bytes != [] then bytes[0].streamOffset else 0) else Summary(bytes[..i], 0, previewLen)
    {
      assert bytes[..i + 1] == bytes[..i] + [bytes[i]];
      SummarySnoc(bytes[..i], bytes[i], 0, previewLen);
      side := Push(side, bytes[i], previewLen);
    }
    assert bytes[..|bytes|] == bytes;
  }

  // ----- the stream behind its buffer

  lemma {:induction false} Popped(stream: seq<DiffByte>, from: nat, pos: nat, read: nat, buffer: seq<DiffByte>)
    requires from <= pos < read <= |stream| && buffer == stream[pos..read]
    ensures buffer[0] == stream[pos] && buffer[1..] == stream[pos + 1..read]
    ensures stream[..pos + 1] == stream[..pos] + [buffer[0]]
    ensures stream[from..pos + 1] == stream[from..pos] + [buffer[0]]
  {
  }

  // Summarise one more stretch of a stream.
  method PushAll(side: Side, ghost stream: seq<DiffByte>, ghost start: nat, ghost from: nat, bytes: seq<DiffByte>,
        previewLen: nat)
    returns (grown: Side)
    requires start <= from && from + |bytes| <= |stream| && bytes == stream[from..from + |bytes|]
    requires side == Summary(stream[start..from], start, previewLen)
    ensures grown == Summary(stream[start..from + |bytes|], start, previewLen)
  {
    grown := side;
    for i := 0 to |bytes|
      invariant grown == Summary(stream[start..from + i], start, previewLen)
    {
      assert stream[start..from + i + 1] == stream[start..from + i] + [bytes[i]];
      SummarySnoc(stream[start..from + i], bytes[i], start, previewLen);
      grown := Push(grown, bytes[i], previewLen);
    }
  }

  // The bytes from `pos` to `read` are buffered; the ones before were consumed.
  ghost predicate Buffered(stream: seq<DiffByte>, pos: nat, read: nat, buffer: seq<DiffByte>,
        lastDisplay: Option<nat>) {
    && Numbered(stream)
    && pos <= read <= |stream|
    && buffer == stream[pos..read]
    && lastDisplay == LastDisplay(stream[..pos])
  }

  lemma {:induction false} BufferedStart(stream: seq<DiffByte>)
    requires Numbered(stream)
    ensures Buffered(stream, 0, 0, [], None)
  {
  }

  lemma {:induction false} BufferedFacts(stream: seq<DiffByte>, pos: nat, read: nat, buffer: seq<DiffByte>,
        lastDisplay: Option<nat>)
    requires Buffered(stream, pos, read, buffer, lastDisplay)
    ensures pos + |buffer| == read <= |stream| <= U64_MAX && buffer == stream[pos..read]
    ensures lastDisplay == LastDisplay(stream[..pos])
    ensures buffer != [] ==> buffer[0].streamOffset == pos
  {
    hide LastDisplay;
  }

  // Reading more of the stream: the buffer grows at the back.
  lemma {:induction false} BufferedRead(stream: seq<DiffByte>, pos: nat, read: nat, buffer: seq<DiffByte>,
        lastDisplay: Option<nat>, bytes: seq<DiffByte>)
    requires Buffered(stream, pos, read, buffer, lastDisplay)
    requires read + |bytes| <= |stream| && bytes == stream[read..read + |bytes|] && bytes != []
    ensures Buffered(stream, pos, read + |bytes|, buffer + bytes, lastDisplay)
    ensures SatAdd(bytes[|bytes| - 1].streamOffset, 1) == read + |bytes|
  {
    hide LastDisplay;
    assert stream[pos..read + |bytes|] == stream[pos..read] + bytes;
    assert bytes[|bytes| - 1] == stream[read + |bytes| - 1];
  }

  // Consuming one byte: the buffer shrinks at the front.
  lemma {:induction false} BufferedPop(stream: seq<DiffByte>, pos: nat, read: nat, buffer: seq<DiffByte>,
        lastDisplay: Option<nat>)
    requires Buffered(stream, pos, read, buffer, lastDisplay) && buffer != []
    ensures
      var b := buffer[0];
      Buffered(stream, pos + 1, read, buffer[1..], if b.displayOffset.Some? then b.displayOffset else lastDisplay)
  {
    Popped(stream, pos, pos, read, buffer);
    LastDisplaySnoc(stream[..pos], buffer[0]);
  }

  /**
   * A source and the bytes read ahead of it. `stream` is everything the source will ever return and `read`
   * how much of it has been returned; `chunkSize` bounds one read. What has been consumed, then the buffer,
   * then what the source still holds, is always the stream.
   */
  class BufferedSource {
    const stream: seq<DiffByte>
    const chunkSize: nat
    var read: nat
    var buffer: seq<DiffByte>
    var eof: bool
    var nextOffset: nat
    var lastDisplay: Option<nat>
    ghost var pos: nat

    ghost predicate Valid()
      reads this
    {
      && Buffered(stream, pos, read, buffer, lastDisplay)
      && chunkSize > 0
      && (eof ==> read == |stream|)
      && nextOffset == read
    }

    constructor (stream: seq<DiffByte>, chunkSize: nat)
      requires Numbered(stream) && chunkSize > 0
      ensures Valid() && pos == 0 && this.stream == stream && this.chunkSize == chunkSize
    {
      hide Buffered, Numbered;
      this.stream, this.chunkSize := stream, chunkSize;
      read, buffer, eof, nextOffset, lastDisplay, pos := 0, [], false, 0, None, 0;
      BufferedStart(stream);
    }

    // The source: up to `maxBytes` bytes, at its own choice how many, and none only at the end.
    method ReadNext(maxBytes: nat) returns (bytes: seq<DiffByte>)
      requires read <= |stream|
      modifies this`read
      ensures old(read) <= read <= |stream| && bytes == stream[old(read)..read] && |bytes| <= maxBytes
      ensures bytes == [] <==> maxBytes == 0 || old(read) == |stream|
    {
      var most := Min(maxBytes, |stream| - read);
      var n: nat :| n <= most && (most > 0 ==> n > 0) by { assert most <= most; }
      bytes := stream[read..read + n];
      read := read + n;
    }

    /** Read ahead until `wanted` bytes are buffered or the stream ends, and never more than that. */
    method FillAtLeast(wanted: nat)
      requires Valid()
      modifies this`read, this`buffer, this`eof, this`nextOffset
      ensures Valid() && read == pos + |buffer| <= |stream|
      ensures |buffer| >= wanted || (eof && read == |stream|)
      ensures |buffer| <= Max(old(|buffer|), wanted)
    {
      hide Buffered;
      BufferedFacts(stream, pos, read, buffer, lastDisplay);
      while !eof && |buffer| < wanted
        invariant Valid() && read == pos + |buffer| <= |stream| && |buffer| <= Max(old(|buffer|), wanted)
        decreases |stream| - read, if eof then 0 else 1
      {
        var need := Min(Max(wanted - |buffer|, 1), chunkSize);
        ghost var was := read;
        var bytes := ReadNext(need);
        if bytes == [] {
          eof := true;
          break;
        }
        BufferedRead(stream, pos, was, buffer, lastDisplay, bytes);
        nextOffset := SatAdd(bytes[|bytes| - 1].streamOffset, 1);
        buffer := buffer + bytes;
      }
    }

    method Peek(idx: nat) returns (b: Option<DiffByte>)
      requires Valid()
      modifies this`read, this`buffer, this`eof, this`nextOffset
      ensures Valid() && pos <= |stream|
      ensures b == if pos + idx < |stream| then Some(stream[pos + idx]) else None
    {
      hide Buffered;
      FillAtLeast(idx + 1);
      BufferedFacts(stream, pos, read, buffer, lastDisplay);
      b := if idx < |buffer| then Some(buffer[idx]) else None;
    }

    method IsEof() returns (end: bool)
      requires Valid()
      modifies this`read, this`buffer, this`eof, this`nextOffset
      ensures Valid() && pos <= |stream| && (end <==> pos == |stream|)
    {
      hide Buffered;
      FillAtLeast(1);
      end := eof && buffer == [];
    }

    /** Take the next bytes off the stream, fewer at its end. */
    method Consume(count: nat) returns (out: seq<DiffByte>)
      requires Valid()
      modifies this
      ensures Valid() && old(pos) <= pos == Min(old(pos) + count, |stream|) && out == stream[old(pos)..pos]
    {
      hide Buffered, LastDisplay;
      FillAtLeast(count);
      var actual := Min(count, |buffer|);
      out := [];
      ghost var from := pos;
      for i := 0 to actual
        invariant Valid() && pos == from + i && read == pos + |buffer| <= |stream| && |buffer| >= actual - i
        invariant out == stream[from..pos]
        invariant |buffer| + i >= count || read == |stream|
      {
        BufferedFacts(stream, pos, read, buffer, lastDisplay);
        BufferedPop(stream, pos, read, buffer, lastDisplay);
        Popped(stream, from, pos, read, buffer);
        var b := buffer[0];
        buffer := buffer[1..];
        pos := pos + 1;
        if b.displayOffset.Some? {
          lastDisplay := b.displayOffset;
        }
        out := out + [b];
      }
    }

    // `Consume(1)` with a byte left.
    method ConsumeOne() returns (out: seq<DiffByte>)
      requires Valid() && pos < |stream|
      modifies this
      ensures Valid() && pos == old(pos) + 1 <= |stream| && out == [stream[old(pos)]]
    {
      hide Buffered;
      out := Consume(1);
    }

    /** Take everything that is left, keeping only its summary. */
    method ConsumeAllSummary(previewLen: nat) returns (side: Side)
      requires Valid()
      modifies this
      ensures Valid() && old(pos) <= pos == |stream|
      ensures side == Summary(stream[old(pos)..], old(pos), previewLen)
    {
      hide Buffered, Summary;
      var start := NextStreamOffset();
      BufferedFacts(stream, pos, read, buffer, lastDisplay);
      side := EmptyAt(start);
      SummaryOfNone(stream[pos..pos], start, previewLen);
      ghost var from := pos;
      while true
        invariant Valid() && from <= pos <= |stream| && side == Summary(stream[from..pos], from, previewLen)
        decreases |stream| - pos
      {
        FillAtLeast(chunkSize);
        if buffer == [] {
          break;
        }
        ghost var at := pos;
        var bytes := Consume(|buffer|);
        side := PushAll(side, stream, from, at, bytes, previewLen);
      }
      assert stream[from..pos] == stream[from..];
    }

    function Window(count: nat): (w: seq<DiffByte>)
      requires Valid()
      reads this
      ensures |w| == Min(count, |buffer|)
      ensures pos + |w| <= |stream| && w == stream[pos..pos + |w|]
    {
      buffer[..Min(count, |buffer|)]
    }

    function NextStreamOffset(): (offset: nat)
      requires Valid()
      reads this
      ensures offset == pos
    {
      if buffer != [] then buffer[0].streamOffset else nextOffset
    }
  }

  // ----- the reference source: a byte vector

  ghost function VecStream(bytes: seq<Byte>, displayBase: Option<nat>): (stream: seq<DiffByte>)
    ensures |stream| == |bytes|
    ensures forall k :: 0 <= k < |bytes| ==> stream[k].streamOffset == k && stream[k].byte == bytes[k]
    ensures forall k :: 0 <= k < |bytes| ==>
      stream[k].displayOffset == if displayBase.Some? then Some(displayBase.value + k) else None
  {
    seq(|bytes|, k requires 0 <= k < |bytes| =>
      DiffByte(k, if displayBase.Some? then Some(displayBase.value + k) else None, bytes[k]))
  }

  class VecDiffSource {
    const bytes: seq<Byte>
    const displayBase: Option<nat>
    var index: nat

    constructor (bytes: seq<Byte>, displayBase: Option<nat>)
      ensures this.bytes == bytes && this.displayBase == displayBase && index == 0
    {
      this.bytes, this.displayBase, index := bytes, displayBase, 0;
    }

    /** Reads hand out the numbered stream piece by piece, as a buffered source expects of its source. */
    method ReadNext(maxBytes: nat) returns (out: seq<DiffByte>)
      requires index <= |bytes|
      modifies this
      ensures old(index) <= index <= |bytes| && out == VecStream(bytes, displayBase)[old(index)..index] && |out| <= maxBytes
      ensures out == [] <==> maxBytes == 0 || old(index) == |bytes|
    {
      if maxBytes == 0 || index >= |bytes| {
        return [];
      }
      var end := Min(index + maxBytes, |bytes|);
      var start := index;
      index := end;
      out := seq(end - start, k requires 0 <= k < end - start =>
        DiffByte(start + k, if displayBase.Some? then Some(displayBase.value + (start + k)) else None,
              bytes[start + k]));
    }
  }
}
