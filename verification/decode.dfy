/**
 * Decoding a document into rows: the row-at-a-time listing, and the streaming decoder that reads
 * 64 KiB windows and must produce the same rows.
 */
module Decoding {
  import opened Common
  import opened Regions

  datatype DirectTarget = DirectTarget(call: bool, virtualAddress: nat, displayName: Option<string>)

  datatype Decoded = Decoded(bytes: seq<Byte>, text: string, target: Option<DirectTarget>)

  datatype RowKind = Instruction | Data | Invalid

  datatype Row = Row(
    offset: nat,
    virtualAddress: Option<nat>,
    bytes: seq<Byte>,
    assemblyText: string,
    text: string,
    symbolizedNames: seq<string>,
    symbolLabel: Option<string>,
    directTarget: Option<DirectTarget>,
    spanName: Option<string>,
    kind: RowKind)
  {
    function Len(): (n: nat)
      ensures n >= 1
    {
      Max(|bytes|, 1)
    }

    function End(): nat {
      offset + Len()
    }

    // The row without any name in it.
    function Nameless(): Row {
      this.(text := "", symbolizedNames := [], symbolLabel := None,
            directTarget := if directTarget.Some? then Some(directTarget.value.(displayName := None)) else None)
    }
  }

  // What the listing needs of the executable: its spans, names by address, and how text is rendered.
  datatype Info = Info(
    spans: seq<CodeSpan>,
    hasNames: bool,
    displayName: nat -> Option<string>,
    symbolize: string -> (string, seq<string>),
    formatBytes: seq<Byte> -> string)

  // A decoder for one instruction set. Addresses are unsigned 64-bit.
  datatype Backend = Backend(
    maxInstructionBytes: nat,
    decodeOne: (nat, seq<Byte>) -> Option<Decoded>,
    decodeBlock: (nat, seq<Byte>, nat) -> seq<Decoded>)

  const DECODE_WINDOW_BYTES: nat := 64 * 1024

  // A row holds at most this many bytes.
  const MAX_ROW_BYTES: nat := 16

  function Wrap(address: nat): nat {
    address % (U64_MAX + 1)
  }

  predicate Clean(d: Option<Decoded>) {
    d.Some? && d.value.bytes != []
  }

  // ----- what a backend promises

  // A clean decode consumes a prefix of its input and depends on nothing after that prefix.
  ghost predicate SelfDelimiting(b: Backend) {
    && b.maxInstructionBytes > 0
    && (forall a, bytes :: Clean(b.decodeOne(a, bytes)) ==> ReadsOwnBytes(b, a, bytes))
    && (forall a, bytes, more :: Clean(b.decodeOne(a, bytes)) ==> b.decodeOne(a, bytes + more) == b.decodeOne(a, bytes))
  }

  ghost predicate ReadsOwnBytes(b: Backend, address: nat, bytes: seq<Byte>)
    requires Clean(b.decodeOne(address, bytes))
  {
    var d := b.decodeOne(address, bytes).value;
    && d.bytes <= bytes
    && |d.bytes| <= b.maxInstructionBytes && |d.bytes| <= MAX_ROW_BYTES
    && b.decodeOne(address, d.bytes) == Some(d)
  }

  // Each instruction of a run is the clean decode of what the ones before it left.
  ghost predicate CleanRun(b: Backend, address: nat, bytes: seq<Byte>, run: seq<Decoded>)
    decreases |run|
  {
    run != [] ==>
      && b.decodeOne(address, bytes) == Some(run[0])
      && 0 < |run[0].bytes| <= |bytes|
      && CleanRun(b, Wrap(address + |run[0].bytes|), bytes[|run[0].bytes|..], run[1..])
  }

  ghost predicate BlocksAreRuns(b: Backend) {
    forall a, bytes, n :: IsBlock(b, a, bytes, n, b.decodeBlock(a, bytes, n))
  }

  ghost predicate IsBlock(b: Backend, address: nat, bytes: seq<Byte>, n: nat, run: seq<Decoded>) {
    |run| <= n && CleanRun(b, address, bytes, run)
  }

  ghost predicate Sound(b: Backend) {
    SelfDelimiting(b) && BlocksAreRuns(b)
  }

  // Nothing more could be decoded after this run.
  ghost predicate RunStops(b: Backend, address: nat, bytes: seq<Byte>, n: nat, run: seq<Decoded>)
    requires CleanRun(b, address, bytes, run)
    decreases |run|
  {
    if run == [] then n == 0 || bytes == [] || !Clean(b.decodeOne(address, bytes))
    else
      n > 0 &&
      RunStops(b, Wrap(address + |run[0].bytes|), bytes[|run[0].bytes|..], n - 1, run[1..])
  }

  function DefaultBlock(one: (nat, seq<Byte>) -> Option<Decoded>, address: nat, bytes: seq<Byte>, n: nat): seq<Decoded>
    decreases n
  {
    if n == 0 || bytes == [] then []
    else
      var d := one(address, bytes);
      if !Clean(d) || |d.value.bytes| > |bytes| then []
      else
        var len := |d.value.bytes|;
        [d.value] + DefaultBlock(one, Wrap(address + len), bytes[len..], n - 1)
  }

  lemma {:induction false} DefaultBlockIsRun(b: Backend, address: nat, bytes: seq<Byte>, n: nat)
    ensures IsBlock(b, address, bytes, n, DefaultBlock(b.decodeOne, address, bytes, n))
    ensures SelfDelimiting(b) ==> RunStops(b, address, bytes, n, DefaultBlock(b.decodeOne, address, bytes, n))
    decreases n
  {
    var d := b.decodeOne(address, bytes);
    if n > 0 && bytes != [] && Clean(d) && |d.value.bytes| <= |bytes| {
      var len := |d.value.bytes|;
      DefaultBlockIsRun(b, Wrap(address + len), bytes[len..], n - 1);
      var run := DefaultBlock(b.decodeOne, address, bytes, n);
      assert run[1..] == DefaultBlock(b.decodeOne, Wrap(address + len), bytes[len..], n - 1);
    } else if SelfDelimiting(b) && n > 0 && bytes != [] && Clean(d) {
      assert ReadsOwnBytes(b, address, bytes);
    }
  }

  lemma {:induction false} WrapAdd(a: nat, x: nat, y: nat)
    ensures Wrap(Wrap(a + x) + y) == Wrap(a + x + y)
  {
  }

  lemma {:induction false} WrapSmall(a: nat)
    requires a <= U64_MAX
    ensures Wrap(a + 0) == a
  {
  }

  lemma {:induction false} CleanReads(b: Backend, address: nat, bytes: seq<Byte>)
    requires SelfDelimiting(b)
    ensures b.maxInstructionBytes > 0 && (Clean(b.decodeOne(address, bytes)) ==> ReadsOwnBytes(b, address, bytes))
  {
  }

  lemma {:induction false} CleanExtends(b: Backend, address: nat, bytes: seq<Byte>, more: seq<Byte>)
    requires SelfDelimiting(b)
    ensures Clean(b.decodeOne(address, bytes)) ==> b.decodeOne(address, bytes + more) == b.decodeOne(address, bytes)
  {
  }

  // Input beyond the longest instruction makes no difference.
  lemma {:induction false} TruncatedDecode(b: Backend, address: nat, rest: seq<Byte>)
    requires SelfDelimiting(b)
    ensures
      var read := rest[..Min(b.maxInstructionBytes, |rest|)];
      && (Clean(b.decodeOne(address, read)) <==> Clean(b.decodeOne(address, rest)))
      && (Clean(b.decodeOne(address, rest)) ==> b.decodeOne(address, read) == b.decodeOne(address, rest))
  {
    hide SelfDelimiting;
    var k := Min(b.maxInstructionBytes, |rest|);
    CleanReads(b, address, rest);
    assert rest == rest[..k] + rest[k..];
    CleanExtends(b, address, rest[..k], rest[k..]);
    if Clean(b.decodeOne(address, rest)) {
      var own := b.decodeOne(address, rest).value.bytes;
      assert rest[..k] == own + rest[..k][|own|..];
      CleanExtends(b, address, own, rest[..k][|own|..]);
    }
  }

  lemma {:induction false} BlockStep(b: Backend, address: nat, bytes: seq<Byte>, n: nat, d: Decoded)
    requires n > 0 && b.decodeOne(address, bytes) == Some(d) && 0 < |d.bytes| <= |bytes|
    ensures DefaultBlock(b.decodeOne, address, bytes, n)
         == [d] + DefaultBlock(b.decodeOne, Wrap(address + |d.bytes|), bytes[|d.bytes|..], n - 1)
  {
  }

  lemma {:induction false} BlockStops(b: Backend, address: nat, bytes: seq<Byte>, n: nat)
    requires n == 0 || bytes == [] || !Clean(b.decodeOne(address, bytes))
    ensures DefaultBlock(b.decodeOne, address, bytes, n) == []
  {
  }

  /** The block decoder a backend gets when it has none of its own: one instruction after another. */
  method DecodeBlockDefault(b: Backend, address: nat, bytes: seq<Byte>,
        maxInstructions: nat) returns (out: seq<Decoded>)
    requires SelfDelimiting(b) && address <= U64_MAX
    ensures IsBlock(b, address, bytes, maxInstructions, out)
    ensures RunStops(b, address, bytes, maxInstructions, out)
  {
    hide DefaultBlock, SelfDelimiting, CleanRun, RunStops, Wrap;
    ghost var all := DefaultBlock(b.decodeOne, address, bytes, maxInstructions);
    out := [];
    var pos: nat := 0;
    WrapSmall(address);
    assert bytes[0..] == bytes;
    while |out| < maxInstructions && pos < |bytes|
      invariant pos <= |bytes| && |out| <= maxInstructions
      invariant out + DefaultBlock(b.decodeOne, Wrap(address + pos), bytes[pos..], maxInstructions - |out|)
             == all
    {
      var d := b.decodeOne(Wrap(address + pos), bytes[pos..]);
      if !Clean(d) {
        BlockStops(b, Wrap(address + pos), bytes[pos..], maxInstructions - |out|);
        break;
      }
      CleanReads(b, Wrap(address + pos), bytes[pos..]);
      assert ReadsOwnBytes(b, Wrap(address + pos), bytes[pos..]);
      var len := |d.value.bytes|;
      WrapAdd(address, pos, len);
      assert bytes[pos..][len..] == bytes[pos + len..];
      ghost var was := out;
      BlockStep(b, Wrap(address + pos), bytes[pos..], maxInstructions - |out|, d.value);
      pos := pos + len;
      out := out + [d.value];
      Regroup(was, [d.value], DefaultBlock(b.decodeOne, Wrap(address + pos), bytes[pos..], maxInstructions - |out|),
            []);
    }
    BlockStops(b, Wrap(address + pos), bytes[pos..], maxInstructions - |out|);
    assert out + [] == out;
    DefaultBlockIsRun(b, address, bytes, maxInstructions);
  }

  // ----- spans as the decoder looks them up

  /** The shortest span that contains an offset; the first of several equally short ones. */
  function SpanContaining(spans: seq<CodeSpan>, offset: nat): Option<CodeSpan> {
    if spans == [] then None
    else
      var rest := SpanContaining(spans[1..], offset);
      if spans[0].Contains(offset) && (rest.None? || SpanLen(spans[0]) <= SpanLen(rest.value)) then Some(spans[0]) else rest
  }

  function SpanLen(s: CodeSpan): int {
    s.endInclusive - s.start
  }

  /** Where the next span after an offset starts. */
  function NextStart(spans: seq<CodeSpan>, offset: nat): Option<nat> {
    if spans == [] then None
    else
      var rest := NextStart(spans[1..], offset);
      if spans[0].start > offset && (rest.None? || spans[0].start <= rest.value) then Some(spans[0].start) else rest
  }

  lemma {:induction false} SpanContainingFacts(spans: seq<CodeSpan>, offset: nat)
    ensures
      match SpanContaining(spans, offset)
      case None => forall s :: s in spans ==> !s.Contains(offset)
      case Some(span) =>
        span in spans && span.Contains(offset)
        && forall s :: s in spans && s.Contains(offset) ==> SpanLen(span) <= SpanLen(s)
  {
    if spans != [] {
      SpanContainingFacts(spans[1..], offset);
      assert forall s :: s in spans <==> s == spans[0] || s in spans[1..];
    }
  }

  // Among equally short spans the first is found.
  lemma {:induction false} FirstShortest(spans: seq<CodeSpan>, offset: nat) returns (k: nat)
    requires SpanContaining(spans, offset).Some?
    ensures k < |spans| && SpanContaining(spans, offset) == Some(spans[k]) && spans[k].Contains(offset)
    ensures forall j :: 0 <= j < |spans| && spans[j].Contains(offset) ==>
      SpanLen(spans[k]) <= SpanLen(spans[j]) && (j < k ==> SpanLen(spans[k]) < SpanLen(spans[j]))
  {
    hide SpanLen;
    var rest := SpanContaining(spans[1..], offset);
    SpanContainingFacts(spans[1..], offset);
    if rest.Some? {
      k := FirstShortest(spans[1..], offset);
    }
    assert forall j :: 0 < j < |spans| ==> spans[j] == spans[1..][j - 1];
    var first := spans[0].Contains(offset) && (rest.None? || SpanLen(spans[0]) <= SpanLen(rest.value));
    k := if first then 0 else k + 1;
  }

  lemma {:induction false} NextStartFacts(spans: seq<CodeSpan>, offset: nat)
    ensures
      match NextStart(spans, offset)
      case None => forall s :: s in spans ==> s.start <= offset
      case Some(next) =>
        next > offset && (exists s :: s in spans && s.start == next)
        && forall s :: s in spans && s.start > offset ==> next <= s.start
  {
    if spans != [] {
      NextStartFacts(spans[1..], offset);
      assert forall s :: s in spans <==> s == spans[0] || s in spans[1..];
    }
  }

  /** A document, what is known about it and the decoder in use: everything the rows are made from. */
  datatype Listing = Listing(doc: seq<Byte>, info: Info, backend: Backend) {
    // ----- one row

    function Read(offset: nat, len: nat): seq<Byte> {
      if offset >= |doc| then [] else doc[offset..Min(offset + len, |doc|)]
    }

    function CurrentSpan(offset: nat): (span: CodeSpan)
      requires offset < |doc|
      ensures span.Contains(offset) && span.endInclusive < |doc|
    {
      var last := |doc| - 1;
      var found := SpanContaining(info.spans, offset);
      var next := NextStart(info.spans, offset);
      SpanContainingFacts(info.spans, offset);
      NextStartFacts(info.spans, offset);
      if found.Some? then found.value.(endInclusive := Min(found.value.endInclusive, last))
      else if next.Some? then RawRegion(offset, Min(Min(next.value - 1, last), offset + DATA_ROW_BYTES - 1))
      else RawRegion(offset, Min(last, offset + DATA_ROW_BYTES - 1))
    }

    // The span at index `k` contains the offset, and is the first among the shortest that do.
    ghost predicate Governs(k: nat, offset: nat) {
      && k < |info.spans| && info.spans[k].Contains(offset)
      && forall j :: 0 <= j < |info.spans| && info.spans[j].Contains(offset) ==>
           SpanLen(info.spans[k]) <= SpanLen(info.spans[j]) && (j < k ==> SpanLen(info.spans[k]) < SpanLen(info.spans[j]))
    }

    /**
     * An offset is governed by the first of the shortest listed spans around it, as far as the document goes.
     * Where there is none, by raw data up to the next span, for one data row at most.
     */
    lemma {:induction false} CurrentSpanFacts(offset: nat)
      requires offset < |doc|
      ensures
        var span := CurrentSpan(offset);
        if exists s :: s in info.spans && s.Contains(offset) then
          exists k: nat :: Governs(k, offset) && span == info.spans[k].(endInclusive := Min(info.spans[k].endInclusive, |doc| - 1))
        else
          && span.start == offset && !span.executable && span.virtualStart.None? && span.name == Some("<raw>")
          && span.endInclusive <= offset + DATA_ROW_BYTES - 1
          && (forall s :: s in info.spans && s.start > offset ==> span.endInclusive < s.start)
          && (span.endInclusive == offset + DATA_ROW_BYTES - 1 || span.endInclusive == |doc| - 1
              || exists s :: s in info.spans && s.start == span.endInclusive + 1)
    {
      SpanContainingFacts(info.spans, offset);
      NextStartFacts(info.spans, offset);
      if SpanContaining(info.spans, offset).Some? {
        var k := FirstShortest(info.spans, offset);
        assert Governs(k, offset);
      }
    }

    function DecodeAddress(span: CodeSpan, offset: nat): nat {
      var va := span.VirtualAddressForOffset(offset);
      if va.Some? then va.value else offset
    }

    function LabelFor(virtualAddress: Option<nat>): Option<string> {
      if !info.hasNames || virtualAddress.None? then None else info.displayName(virtualAddress.value)
    }

    function ResolveTarget(target: Option<DirectTarget>): Option<DirectTarget> {
      if !info.hasNames || target.None? then target
      else Some(target.value.(displayName := info.displayName(target.value.virtualAddress)))
    }

    function RowFromDecoded(offset: nat, span: CodeSpan, d: Decoded): Row {
      var va := span.VirtualAddressForOffset(offset);
      var (text, names) := if info.hasNames then info.symbolize(d.text) else (d.text, []);
      Row(offset, va, d.bytes, d.text, text, names, LabelFor(va), ResolveTarget(d.target), span.name, Instruction)
    }

    function PlainRow(offset: nat, span: CodeSpan, bytes: seq<Byte>, kind: RowKind): Row {
      var va := span.VirtualAddressForOffset(offset);
      var text := info.formatBytes(bytes);
      Row(offset, va, bytes, text, text, [], LabelFor(va), None, span.name, kind)
    }

    function DecodeDataRow(offset: nat, span: CodeSpan): Row
      requires span.Contains(offset)
    {
      PlainRow(offset, span, Read(offset, Min(DATA_ROW_BYTES, span.endInclusive - offset + 1)), Data)
    }

    function DecodeInstructionRow(offset: nat, span: CodeSpan): Row
      requires span.Contains(offset)
    {
      var bytes := Read(offset, Min(backend.maxInstructionBytes, span.endInclusive - offset + 1));
      if bytes == [] then PlainRow(offset, span, [], Data)
      else
        var d := backend.decodeOne(DecodeAddress(span, offset), bytes);
        if Clean(d) then RowFromDecoded(offset, span, d.value) else PlainRow(offset, span, [bytes[0]], Invalid)
    }

    /** The row that starts at an offset. */
    function RowAt(offset: nat): (row: Row)
      requires offset < |doc|
      ensures row.offset == offset
    {
      var span := CurrentSpan(offset);
      if span.executable then DecodeInstructionRow(offset, span) else DecodeDataRow(offset, span)
    }

    /** The canonical listing: `n` rows, or all that remain, each starting where the last one ended. */
    function Chain(offset: nat, n: nat): seq<Row>
      decreases n
    {
      if n == 0 || offset >= |doc| then [] else [RowAt(offset)] + Chain(RowAt(offset).End(), n - 1)
    }

    // ----- the streaming decoder

    // The rows of a decoded block, laid end to end from `offset`.
    function BlockRows(offset: nat, span: CodeSpan, block: seq<Decoded>): seq<Row>
      decreases |block|
    {
      if block == [] then []
      else
        var row := RowFromDecoded(offset, span, block[0]);
        [row] + BlockRows(row.End(), span, block[1..])
    }

    function Window(offset: nat, span: CodeSpan): seq<Byte>
      requires span.Contains(offset)
    {
      Read(offset, Min(DECODE_WINDOW_BYTES, span.endInclusive - offset + 1))
    }

    function BlockAt(offset: nat, n: nat): seq<Decoded>
      requires offset < |doc|
    {
      var span := CurrentSpan(offset);
      backend.decodeBlock(DecodeAddress(span, offset), Window(offset, span), n)
    }

    // The rows the streaming decoder emits in one turn of its loop.
    function Burst(offset: nat, n: nat): (rows: seq<Row>)
      requires n > 0 && offset < |doc|
      ensures 0 < |rows| <= n
    {
      var span := CurrentSpan(offset);
      var block := BlockAt(offset, n);
      if !span.executable then [DecodeDataRow(offset, span)]
      else if block == [] then [DecodeInstructionRow(offset, span)]
      else
        BlockRowsLen(offset, span, block[..Min(n, |block|)]);
        BlockRows(offset, span, block[..Min(n, |block|)])
    }

    function Streamed(offset: nat, n: nat): seq<Row>
      decreases n
    {
      if n == 0 || offset >= |doc| then []
      else
        var rows := Burst(offset, n);
        rows + Streamed(rows[|rows| - 1].End(), n - |rows|)
    }

    lemma {:induction false} StreamStep(offset: nat, n: nat, rows: seq<Row>)
      requires n > 0 && offset < |doc| && rows == Burst(offset, n)
      ensures Streamed(offset, n) == rows + Streamed(rows[|rows| - 1].End(), n - |rows|)
    {
      hide Listing.Burst;
    }

    lemma {:induction false} BurstOfData(offset: nat, n: nat)
      requires n > 0 && offset < |doc| && !CurrentSpan(offset).executable
      ensures Burst(offset, n) == [DecodeDataRow(offset, CurrentSpan(offset))]
    {
    }

    lemma {:induction false} BurstOfCode(offset: nat, n: nat)
      requires n > 0 && offset < |doc| && CurrentSpan(offset).executable
      ensures
        var span, block := CurrentSpan(offset), BlockAt(offset, n);
        Burst(offset, n) ==
          if block == [] then [DecodeInstructionRow(offset, span)] else BlockRows(offset, span, block[..Min(n, |block|)])
    {
    }

    lemma {:induction false} StreamEnds(offset: nat, n: nat)
      requires n == 0 || offset >= |doc|
      ensures Streamed(offset, n) == []
    {
    }

    lemma {:induction false} BlockRowsLen(offset: nat, span: CodeSpan, block: seq<Decoded>)
      ensures |BlockRows(offset, span, block)| == |block|
      decreases |block|
    {
      if block != [] {
        BlockRowsLen(RowFromDecoded(offset, span, block[0]).End(), span, block[1..]);
      }
    }

    /** Decode `maxRows` rows from an offset, a window at a time. */
    method DecodeRegionRows(start: nat, maxRows: nat) returns (rows: seq<Row>)
      ensures rows == if doc == [] then [] else Streamed(Min(start, |doc| - 1), maxRows)
    {
      hide Listing.Streamed, Listing.Burst, Listing.BlockRows, Listing.BlockAt, Listing.CurrentSpan;
      hide Listing.DecodeDataRow, Listing.DecodeInstructionRow;
      if maxRows == 0 || doc == [] {
        if doc != [] { StreamEnds(Min(start, |doc| - 1), maxRows); }
        return [];
      }
      rows := [];
      var offset: nat := Min(start, |doc| - 1);
      ghost var first := offset;
      while |rows| < maxRows && offset < |doc|
        invariant |rows| <= maxRows
        invariant rows + Streamed(offset, maxRows - |rows|) == Streamed(first, maxRows)
        decreases maxRows - |rows|
      {
        ghost var was, from := rows, offset;
        var span := CurrentSpan(offset);
        if !span.executable {
          var row := DecodeDataRow(offset, span);
          offset := row.End();
          rows := rows + [row];
          BurstOfData(from, maxRows - |was|);
        } else {
          var block := BlockAt(offset, maxRows - |rows|);
          if block == [] {
            var row := DecodeInstructionRow(offset, span);
            offset := row.End();
            rows := rows + [row];
            BurstOfCode(from, maxRows - |was|);
          } else {
            BurstOfCode(from, maxRows - |was|);
            rows, offset := PushBlock(rows, maxRows, offset, span, block);
          }
        }
        ghost var burst := Burst(from, maxRows - |was|);
        assert rows == was + burst && offset == burst[|burst| - 1].End();
        StreamStep(from, maxRows - |was|, burst);
        Regroup(was, burst, Streamed(offset, maxRows - |rows|), []);
      }
      assert Streamed(offset, maxRows - |rows|) == [] by { StreamEnds(offset, maxRows - |rows|); }
    }

    method PushBlock(pushed: seq<Row>, maxRows: nat, start: nat, span: CodeSpan, block: seq<Decoded>)
      returns (rows: seq<Row>, offset: nat)
      requires block != [] && |pushed| < maxRows
      ensures rows == pushed + BlockRows(start, span, block[..Min(maxRows - |pushed|, |block|)])
      ensures |rows| > |pushed| && offset == rows[|rows| - 1].End()
    {
      hide Listing.RowFromDecoded;
      rows, offset := pushed, start;
      ghost var kept := block[..Min(maxRows - |pushed|, |block|)];
      for i := 0 to |block|
        invariant i <= |kept| && |rows| == |pushed| + i
        invariant rows + BlockRows(offset, span, kept[i..]) == pushed + BlockRows(start, span, kept)
        invariant offset == if i == 0 then start else rows[|rows| - 1].End()
      {
        if |rows| >= maxRows {
          break;
        }
        assert kept[i..][0] == block[i] && kept[i..][1..] == kept[i + 1..];
        var row := RowFromDecoded(offset, span, block[i]);
        offset := row.End();
        rows := rows + [row];
      }
    }

    // ----- streaming refines row-at-a-time decoding

    // The last offset of the window that is read at `from`.
    function WindowEnd(from: nat): nat
      requires from < |doc|
    {
      Min(CurrentSpan(from).endInclusive, from + DECODE_WINDOW_BYTES - 1)
    }

    // What the window read at `from` says about `offset` is what the span in force there says: code of the
    // same name at the same address, counted without overflow, and room for a whole row.
    ghost predicate Carries(from: nat, offset: nat)
      requires from <= offset < |doc|
    {
      var s, t := CurrentSpan(from), CurrentSpan(offset);
      && t.executable && t.name == s.name
      && t.VirtualAddressForOffset(offset) == s.VirtualAddressForOffset(offset)
      && (s.virtualStart.Some? ==> s.VirtualAddressForOffset(from).value + (offset - from) <= U64_MAX)
      && t.endInclusive >= Min(WindowEnd(from), offset + MAX_ROW_BYTES - 1)
    }

    ghost predicate Carried() {
      forall from: nat, offset: nat ::
        from <= offset < |doc| && CurrentSpan(from).executable && offset <= WindowEnd(from) ==> Carries(from, offset)
    }

    ghost predicate Streamable() {
      Sound(backend) && Carried() && |doc| <= U64_MAX
    }

    // The address the streaming decoder counts to is the one the row decoded alone starts from.
    lemma {:induction false} CarriedAddress(from: nat, offset: nat)
      requires from <= offset < |doc| <= U64_MAX && CurrentSpan(from).Contains(offset) && Carries(from, offset)
      ensures Wrap(DecodeAddress(CurrentSpan(from), from) + (offset - from)) == DecodeAddress(CurrentSpan(offset), offset)
    {
      hide Listing.CurrentSpan;
    }

    // What the window shows decodes like what the single-row path reads, when the span has room for it.
    lemma {:induction false} SameInstruction(offset: nat, span: CodeSpan, stop: nat, d: Decoded)
      requires SelfDelimiting(backend) && offset < stop <= |doc| && span.Contains(offset) && span.endInclusive < |doc|
      requires backend.decodeOne(DecodeAddress(span, offset), doc[offset..stop]) == Some(d) && d.bytes != []
      requires span.endInclusive + 1 >= Min(stop, offset + MAX_ROW_BYTES)
      ensures DecodeInstructionRow(offset, span) == RowFromDecoded(offset, span, d)
      ensures offset + |d.bytes| <= stop && d.bytes == doc[offset..offset + |d.bytes|]
    {
      hide SelfDelimiting, Listing.DecodeAddress, Listing.RowFromDecoded;
      var address := DecodeAddress(span, offset);
      CleanReads(backend, address, doc[offset..stop]);
      var read := Read(offset, Min(backend.maxInstructionBytes, span.endInclusive - offset + 1));
      assert d.bytes == doc[offset..stop][..|d.bytes|] == doc[offset..offset + |d.bytes|];
      assert read == d.bytes + read[|d.bytes|..];
      CleanExtends(backend, address, d.bytes, read[|d.bytes|..]);
    }

    lemma {:induction false} SoundStreams()
      requires Streamable()
      ensures SelfDelimiting(backend) && BlocksAreRuns(backend) && |doc| <= U64_MAX
      ensures forall from: nat, offset: nat ::
        from <= offset < |doc| && CurrentSpan(from).executable && offset <= WindowEnd(from) ==> Carries(from, offset)
    {
    }

    // `block` is a clean run over the window read at `from`, from `offset` up to `stop`.
    ghost predicate RunInWindow(from: nat, offset: nat, stop: nat, block: seq<Decoded>) {
      && from < |doc| && CurrentSpan(from).executable
      && from <= offset <= stop <= WindowEnd(from) + 1
      && (offset == stop ==> block == [])
      && (offset < stop ==>
            CleanRun(backend, Wrap(DecodeAddress(CurrentSpan(from), from) + (offset - from)), doc[offset..stop], block))
    }

    // The first instruction of a run is the row decoded there alone.
    lemma {:induction false} FirstRowOfRun(from: nat, offset: nat, stop: nat, block: seq<Decoded>)
      requires Streamable() && RunInWindow(from, offset, stop, block) && block != []
      ensures offset < |doc| && RowAt(offset) == RowFromDecoded(offset, CurrentSpan(from), block[0])
      ensures 0 < |block[0].bytes| <= stop - offset
    {
      hide Streamable, Listing.DecodeInstructionRow, Listing.CurrentSpan, Wrap, SelfDelimiting, BlocksAreRuns;
      hide Listing.DecodeAddress;
      SoundStreams();
      assert Carries(from, offset);
      CarriedAddress(from, offset);
      SameInstruction(offset, CurrentSpan(offset), stop, block[0]);
    }

    lemma {:induction false} RestOfRun(from: nat, offset: nat, stop: nat, block: seq<Decoded>)
      requires RunInWindow(from, offset, stop, block) && block != [] && 0 < |block[0].bytes| <= stop - offset
      ensures RunInWindow(from, offset + |block[0].bytes|, stop, block[1..])
    {
      hide Listing.CurrentSpan, Wrap, Listing.DecodeAddress;
      var len, base := |block[0].bytes|, DecodeAddress(CurrentSpan(from), from);
      WrapAdd(base, offset - from, len);
      assert doc[offset..stop][len..] == doc[offset + len..stop];
      assert CleanRun(backend, Wrap(base + (offset + len - from)), doc[offset + len..stop], block[1..]);
      if offset + len == stop {
        assert block[1..] == [];
      }
    }

    lemma {:induction false} BlockIsChain(from: nat, offset: nat, stop: nat, block: seq<Decoded>)
      requires Streamable() && RunInWindow(from, offset, stop, block)
      ensures BlockRows(offset, CurrentSpan(from), block) == Chain(offset, |block|)
      decreases |block|
    {
      hide Streamable, Listing.RunInWindow, Listing.CurrentSpan, Listing.RowAt;
      if block != [] {
        FirstRowOfRun(from, offset, stop, block);
        RestOfRun(from, offset, stop, block);
        BlockIsChain(from, offset + |block[0].bytes|, stop, block[1..]);
      }
    }

    lemma {:induction false} ChainLen(offset: nat, n: nat)
      ensures |Chain(offset, n)| <= n
      decreases n
    {
      hide Listing.RowAt;
      if n > 0 && offset < |doc| {
        ChainLen(RowAt(offset).End(), n - 1);
      }
    }

    lemma {:induction false} ChainSplit(offset: nat, k: nat, n: nat)
      requires k <= n && |Chain(offset, k)| == k && k > 0
      ensures Chain(offset, n) == Chain(offset, k) + Chain(Chain(offset, k)[k - 1].End(), n - k)
      decreases n
    {
      hide Listing.RowAt;
      var row := RowAt(offset);
      if k > 1 {
        ChainSplit(row.End(), k - 1, n - 1);
        assert Chain(offset, k)[k - 1] == Chain(row.End(), k - 1)[k - 2];
      } else {
        assert Chain(offset, 1) == [row] + Chain(row.End(), 0);
      }
    }

    lemma {:induction false} BlockInWindow(offset: nat, n: nat)
      requires Streamable() && offset < |doc| && CurrentSpan(offset).executable
      ensures |BlockAt(offset, n)| <= n
      ensures RunInWindow(offset, offset, offset + |Window(offset, CurrentSpan(offset))|, BlockAt(offset, n))
    {
      hide Streamable, Listing.CurrentSpan, SelfDelimiting;
      SoundStreams();
      var address, window := DecodeAddress(CurrentSpan(offset), offset), Window(offset, CurrentSpan(offset));
      assert IsBlock(backend, address, window, n, BlockAt(offset, n));
      assert window == doc[offset..offset + |window|];
      WrapSmall(address);
    }

    lemma {:induction false} BurstIsChain(offset: nat, n: nat)
      requires Streamable() && n > 0 && offset < |doc|
      ensures Burst(offset, n) == Chain(offset, |Burst(offset, n)|)
    {
      hide Streamable, Listing.RunInWindow, Listing.CurrentSpan, Listing.BlockAt;
      var span, block := CurrentSpan(offset), BlockAt(offset, n);
      if !span.executable || block == [] {
        var row := RowAt(offset);
        assert Chain(offset, 1) == [row] + Chain(row.End(), 0);
      } else {
        BlockInWindow(offset, n);
        assert block[..Min(n, |block|)] == block;
        BlockRowsLen(offset, span, block);
        BlockIsChain(offset, offset, offset + |Window(offset, span)|, block);
      }
    }

    /** Where every window carries its span's description, streaming emits exactly the rows decoded one at a time. */
    lemma {:induction false} StreamedIsChain(offset: nat, n: nat)
      requires Streamable()
      ensures Streamed(offset, n) == Chain(offset, n)
      decreases n
    {
      hide Streamable, Listing.Burst, Listing.RowAt;
      if n > 0 && offset < |doc| {
        var rows := Burst(offset, n);
        BurstIsChain(offset, n);
        ChainSplit(offset, |rows|, n);
        StreamedIsChain(rows[|rows| - 1].End(), n - |rows|);
      }
    }

    // ----- what every listing keeps

    /** A row shows exactly the document's bytes from its offset on, one to sixteen, and ends inside its span. */
    lemma {:induction false} RowStaysInSpan(offset: nat)
      requires SelfDelimiting(backend) && offset < |doc|
      ensures
        var row := RowAt(offset);
        row.End() == offset + |row.bytes| && row.End() <= CurrentSpan(offset).endInclusive + 1 <= |doc|
        && |row.bytes| <= MAX_ROW_BYTES && row.bytes == doc[offset..row.End()]
    {
      hide Listing.CurrentSpan, SelfDelimiting;
      var span := CurrentSpan(offset);
      CleanReads(backend, 0, []);
      if span.executable {
        var address := DecodeAddress(span, offset);
        var bytes := Read(offset, Min(backend.maxInstructionBytes, span.endInclusive - offset + 1));
        CleanReads(backend, address, bytes);
      }
    }

    /**
     * Reading no more than the longest instruction loses nothing: the row is what the decoder makes of the
     * whole rest of the span, and one raw byte where that does not decode.
     */
    lemma {:induction false} RowDecodesTheRest(offset: nat)
      requires SelfDelimiting(backend) && offset < |doc| && CurrentSpan(offset).executable
      ensures
        var span := CurrentSpan(offset);
        var d := backend.decodeOne(DecodeAddress(span, offset), doc[offset..span.endInclusive + 1]);
        if Clean(d) then RowAt(offset) == RowFromDecoded(offset, span, d.value)
        else RowAt(offset).kind == Invalid && RowAt(offset).bytes == [doc[offset]]
    {
      hide Listing.CurrentSpan, SelfDelimiting, Listing.RowFromDecoded, Clean;
      var span := CurrentSpan(offset);
      var rest := doc[offset..span.endInclusive + 1];
      CleanReads(backend, 0, []);
      TruncatedDecode(backend, DecodeAddress(span, offset), rest);
      assert Read(offset, Min(backend.maxInstructionBytes, span.endInclusive - offset + 1))
        == rest[..Min(backend.maxInstructionBytes, |rest|)];
    }

    // ----- what a row says

    // A row tells its place: the address of its offset, saturated, the name of that address, and the span's name.
    ghost predicate Placed(row: Row, offset: nat, span: CodeSpan) {
      && row.offset == offset && row.spanName == span.name
      && (row.virtualAddress.Some? <==> span.virtualStart.Some? && span.Contains(offset))
      && (row.virtualAddress.Some? && offset >= span.start ==>
            row.virtualAddress.value == Min(span.virtualStart.value + (offset - span.start), U64_MAX))
      && row.symbolLabel == if info.hasNames && row.virtualAddress.Some? then info.displayName(row.virtualAddress.value) else None
    }

    // It shows a decoded instruction: its bytes and text, with names in the text and at the target if there are names.
    ghost predicate ShowsInstruction(row: Row, d: Decoded) {
      && row.kind == Instruction && row.bytes == d.bytes && row.assemblyText == d.text
      && (if info.hasNames then (row.text, row.symbolizedNames) == info.symbolize(d.text)
          else row.text == d.text && row.symbolizedNames == [])
      && (row.directTarget.Some? <==> d.target.Some?)
      && (d.target.Some? ==>
            && row.directTarget.value.call == d.target.value.call
            && row.directTarget.value.virtualAddress == d.target.value.virtualAddress
            && row.directTarget.value.displayName ==
                 if info.hasNames then info.displayName(d.target.value.virtualAddress) else d.target.value.displayName)
    }

    // It shows raw bytes, with no target and no names in the text.
    ghost predicate ShowsBytes(row: Row, bytes: seq<Byte>, kind: RowKind) {
      && row.kind == kind && row.bytes == bytes && row.directTarget == None
      && row.text == row.assemblyText == info.formatBytes(bytes) && row.symbolizedNames == []
    }

    /** A row is placed by its span; it shows what the rest of the span decodes to, one undecodable byte, or data. */
    lemma {:induction false} RowFields(offset: nat)
      requires SelfDelimiting(backend) && offset < |doc|
      ensures
        var row, span := RowAt(offset), CurrentSpan(offset);
        var d := backend.decodeOne(DecodeAddress(span, offset), doc[offset..span.endInclusive + 1]);
        && Placed(row, offset, span)
        && DecodeAddress(span, offset) == (if row.virtualAddress.Some? then row.virtualAddress.value else offset)
        && if !span.executable then
             ShowsBytes(row, doc[offset..Min(offset + DATA_ROW_BYTES, span.endInclusive + 1)], Data)
           else if Clean(d) then ShowsInstruction(row, d.value)
           else ShowsBytes(row, [doc[offset]], Invalid)
    {
      hide Listing.CurrentSpan, SelfDelimiting;
      var span := CurrentSpan(offset);
      if span.executable {
        hide Listing.RowFromDecoded, Clean, Listing.Placed, Listing.ShowsInstruction;
        RowDecodesTheRest(offset);
        var d := backend.decodeOne(DecodeAddress(span, offset), doc[offset..span.endInclusive + 1]);
        if Clean(d) {
          InstructionFields(offset, span, d.value);
        } else {
          InvalidFields(offset);
        }
      } else {
        assert Read(offset, Min(DATA_ROW_BYTES, span.endInclusive - offset + 1))
          == doc[offset..Min(offset + DATA_ROW_BYTES, span.endInclusive + 1)];
      }
    }

    lemma {:induction false} InvalidFields(offset: nat)
      requires SelfDelimiting(backend) && offset < |doc| && CurrentSpan(offset).executable && RowAt(offset).kind == Invalid
      requires RowAt(offset).bytes == [doc[offset]]
      ensures Placed(RowAt(offset), offset, CurrentSpan(offset)) && ShowsBytes(RowAt(offset), [doc[offset]], Invalid)
    {
      hide Listing.CurrentSpan, SelfDelimiting, Clean;
    }

    // The address that the streaming decoder gives an offset of the window it reads at `from`.
    function StreamedAddress(from: nat, offset: nat): nat
      requires from <= offset && from < |doc|
    {
      var base := DecodeAddress(CurrentSpan(from), from);
      if offset == from then base else Wrap(base + (offset - from))
    }

    // A row of a streamed listing: placed by the span at the start of its window, it shows what the rest of
    // that span decodes to at the address counted from there. Other rows are those of the start itself.
    ghost predicate StreamedRow(row: Row, from: nat)
    {
      from < |doc| && from <= row.offset <= CurrentSpan(from).endInclusive &&
      var span, o := CurrentSpan(from), row.offset;
      var d := backend.decodeOne(StreamedAddress(from, o), doc[o..span.endInclusive + 1]);
      && Placed(row, o, span)
      && if !span.executable then
           o == from && ShowsBytes(row, doc[o..Min(o + DATA_ROW_BYTES, span.endInclusive + 1)], Data)
         else if Clean(d) then ShowsInstruction(row, d.value)
         else o == from && ShowsBytes(row, [doc[o]], Invalid)
    }

    lemma {:induction false} InstructionFields(offset: nat, span: CodeSpan, d: Decoded)
      ensures
        var row := RowFromDecoded(offset, span, d);
        Placed(row, offset, span) && ShowsInstruction(row, d) && row.End() == offset + Max(|d.bytes|, 1)
    {
    }

    // An instruction of the window, decoded from what is left of it, is what the rest of the span decodes to.
    lemma {:induction false} WindowDecode(address: nat, offset: nat, stop: nat, end: nat, d: Decoded)
      requires SelfDelimiting(backend) && offset < stop <= end <= |doc|
      requires backend.decodeOne(address, doc[offset..stop]) == Some(d) && d.bytes != []
      ensures backend.decodeOne(address, doc[offset..end]) == Some(d)
    {
      hide SelfDelimiting;
      CleanExtends(backend, address, doc[offset..stop], doc[stop..end]);
      assert doc[offset..stop] + doc[stop..end] == doc[offset..end];
    }

    lemma {:induction false} BlockFields(from: nat, offset: nat, stop: nat, address: nat, block: seq<Decoded>)
      requires SelfDelimiting(backend) && from <= offset && from < |doc| && address == StreamedAddress(from, offset)
      requires offset <= stop <= CurrentSpan(from).endInclusive + 1 && CurrentSpan(from).executable
      requires CleanRun(backend, address, doc[offset..stop], block)
      ensures forall row :: row in BlockRows(offset, CurrentSpan(from), block) ==> StreamedRow(row, from)
      decreases |block|
    {
      hide SelfDelimiting, Listing.CurrentSpan, Listing.DecodeAddress, Wrap, Listing.RowFromDecoded, Listing.Placed;
      hide Listing.ShowsInstruction, Listing.ShowsBytes;
      if block != [] {
        var span, len := CurrentSpan(from), |block[0].bytes|;
        var row := RowFromDecoded(offset, span, block[0]);
        InstructionFields(offset, span, block[0]);
        WindowDecode(address, offset, stop, span.endInclusive + 1, block[0]);
        WrapAdd(DecodeAddress(span, from), offset - from, len);
        assert doc[offset..stop][len..] == doc[offset + len..stop];
        BlockFields(from, row.End(), stop, Wrap(address + len), block[1..]);
      }
    }

    lemma {:induction false} BurstFields(offset: nat, n: nat)
      requires Sound(backend) && n > 0 && offset < |doc|
      ensures forall row :: row in Burst(offset, n) ==> StreamedRow(row, offset)
    {
      hide Listing.CurrentSpan, SelfDelimiting, Listing.BlockAt, Listing.BlockRows, Listing.Placed, Listing.ShowsInstruction;
      hide Listing.ShowsBytes, CleanRun, Wrap, BlocksAreRuns, Listing.RowAt;
      var span, block := CurrentSpan(offset), BlockAt(offset, n);
      if span.executable && block != [] {
        BlockIsRun(offset, n);
        assert block[..Min(n, |block|)] == block;
        BlockFields(offset, offset, WindowEnd(offset) + 1, DecodeAddress(span, offset), block);
      } else {
        RowFields(offset);
        RowAlone(offset);
      }
    }

    /** So is every streamed row, with the span that governs the start of the window it was decoded in. */
    lemma {:induction false} StreamedFields(offset: nat, n: nat)
      requires Sound(backend)
      ensures forall row :: row in Streamed(offset, n) ==> exists from: nat :: StreamedRow(row, from)
      decreases n
    {
      hide Sound, Listing.Burst, Listing.StreamedRow;
      if n > 0 && offset < |doc| {
        var rows := Burst(offset, n);
        BurstFields(offset, n);
        StreamedFields(rows[|rows| - 1].End(), n - |rows|);
      }
    }

    /** Names only decorate: with other names a row keeps its bytes, addresses, assembly text, target and kind. */
    lemma {:induction false} NamesOnlyDecorate(other: Listing, offset: nat)
      requires other == this.(info := other.info) && other.info.spans == info.spans && other.info.formatBytes == info.formatBytes
      requires offset < |doc|
      ensures other.RowAt(offset).Nameless() == RowAt(offset).Nameless()
    {
      assert other.CurrentSpan(offset) == CurrentSpan(offset);
      hide Listing.CurrentSpan;
    }

    /** So names never move a row boundary. */
    lemma {:induction false} NamesKeepBoundaries(other: Listing, offset: nat, n: nat)
      requires other == this.(info := other.info) && other.info.spans == info.spans && other.info.formatBytes == info.formatBytes
      ensures |other.Chain(offset, n)| == |Chain(offset, n)|
      ensures forall k :: 0 <= k < |Chain(offset, n)| ==> other.Chain(offset, n)[k].Nameless() == Chain(offset, n)[k].Nameless()
      decreases n
    {
      hide Listing.RowAt;
      if n > 0 && offset < |doc| {
        NamesOnlyDecorate(other, offset);
        assert other.RowAt(offset).Nameless().End() == RowAt(offset).Nameless().End();
        assert other.RowAt(offset).End() == RowAt(offset).End();
        NamesKeepBoundaries(other, RowAt(offset).End(), n - 1);
      }
    }

    // Rows that start at `from` and follow one another without a gap, each showing the document's bytes,
    // at most sixteen of them.
    ghost predicate Contiguous(rows: seq<Row>, from: nat)
      decreases |rows|
    {
      rows != [] ==>
        && rows[0].offset == from
        && from < rows[0].End() <= Min(|doc|, from + MAX_ROW_BYTES) && rows[0].bytes == doc[from..rows[0].End()]
        && Contiguous(rows[1..], rows[0].End())
    }

    /** The listing skips no byte and repeats none, and only stops early at the end of the document. */
    lemma {:induction false} ChainContiguous(offset: nat, n: nat)
      requires SelfDelimiting(backend) && offset <= |doc|
      ensures Contiguous(Chain(offset, n), offset)
      ensures |Chain(offset, n)| < n ==>
        if Chain(offset, n) == [] then offset == |doc| else Chain(offset, n)[|Chain(offset, n)| - 1].End() == |doc|
      decreases n
    {
      hide SelfDelimiting, Listing.CurrentSpan, Listing.RowAt;
      if n > 0 && offset < |doc| {
        RowStaysInSpan(offset);
        ChainContiguous(RowAt(offset).End(), n - 1);
        assert Chain(offset, n)[1..] == Chain(RowAt(offset).End(), n - 1);
      }
    }

    lemma {:induction false} ContiguousJoin(a: seq<Row>, b: seq<Row>, from: nat)
      requires Contiguous(a, from) && a != [] && Contiguous(b, a[|a| - 1].End())
      ensures Contiguous(a + b, from)
    {
      assert (a + b)[0] == a[0] && (a + b)[1..] == a[1..] + b;
      if |a| > 1 {
        ContiguousJoin(a[1..], b, a[0].End());
      } else {
        assert (a + b)[1..] == b;
      }
    }

    lemma {:induction false} FirstContiguous(offset: nat, stop: nat, address: nat, span: CodeSpan, block: seq<Decoded>)
      requires SelfDelimiting(backend) && offset <= stop <= |doc|
      requires block != [] && CleanRun(backend, address, doc[offset..stop], block)
      ensures
        var row := RowFromDecoded(offset, span, block[0]);
        && offset < row.End() <= Min(stop, offset + MAX_ROW_BYTES) && row.offset == offset && row.bytes == doc[offset..row.End()]
        && CleanRun(backend, Wrap(address + |block[0].bytes|), doc[row.End()..stop], block[1..])
    {
      hide SelfDelimiting, Wrap;
      CleanReads(backend, address, doc[offset..stop]);
      var len := |block[0].bytes|;
      assert block[0].bytes == doc[offset..stop][..len] == doc[offset..offset + len];
      assert doc[offset..stop][len..] == doc[offset + len..stop];
    }

    lemma {:induction false} BlockContiguous(offset: nat, stop: nat, address: nat, span: CodeSpan, block: seq<Decoded>)
      requires SelfDelimiting(backend) && offset <= stop <= |doc| && CleanRun(backend, address, doc[offset..stop], block)
      ensures Contiguous(BlockRows(offset, span, block), offset)
      decreases |block|
    {
      hide SelfDelimiting, Wrap, CleanRun, Listing.RowFromDecoded;
      if block != [] {
        FirstContiguous(offset, stop, address, span, block);
        var row := RowFromDecoded(offset, span, block[0]);
        BlockContiguous(row.End(), stop, Wrap(address + |block[0].bytes|), span, block[1..]);
      }
    }

    lemma {:induction false} BlockIsRun(offset: nat, n: nat)
      requires Sound(backend) && offset < |doc|
      ensures |BlockAt(offset, n)| <= n
      ensures
        var span := CurrentSpan(offset);
        CleanRun(backend, DecodeAddress(span, offset), doc[offset..WindowEnd(offset) + 1], BlockAt(offset, n))
    {
      hide Listing.CurrentSpan, SelfDelimiting, CleanRun;
      var address, window := DecodeAddress(CurrentSpan(offset), offset), Window(offset, CurrentSpan(offset));
      assert IsBlock(backend, address, window, n, BlockAt(offset, n));
      assert window == doc[offset..WindowEnd(offset) + 1];
    }

    lemma {:induction false} BurstContiguous(offset: nat, n: nat)
      requires Sound(backend) && n > 0 && offset < |doc|
      ensures Contiguous(Burst(offset, n), offset)
    {
      hide Listing.CurrentSpan, SelfDelimiting, BlocksAreRuns, CleanRun, Listing.RowAt;
      var span, block := CurrentSpan(offset), BlockAt(offset, n);
      if !span.executable || block == [] {
        RowStaysInSpan(offset);
        RowAlone(offset);
      } else {
        BlockIsRun(offset, n);
        assert block[..Min(n, |block|)] == block;
        BlockContiguous(offset, WindowEnd(offset) + 1, DecodeAddress(span, offset), span, block);
      }
    }

    lemma {:induction false} RowAlone(offset: nat)
      requires offset < |doc|
      ensures
        var span := CurrentSpan(offset);
        RowAt(offset) == if span.executable then DecodeInstructionRow(offset, span) else DecodeDataRow(offset, span)
    {
    }

    /** Whatever the spans, a streamed listing too skips no byte and repeats none, and goes on to the end of the document. */
    lemma {:induction false} StreamedContiguous(offset: nat, n: nat)
      requires Sound(backend) && offset <= |doc|
      ensures Contiguous(Streamed(offset, n), offset)
      ensures |Streamed(offset, n)| < n ==>
        if Streamed(offset, n) == [] then offset == |doc| else Streamed(offset, n)[|Streamed(offset, n)| - 1].End() == |doc|
      decreases n
    {
      hide Sound, Listing.Burst;
      if n > 0 && offset < |doc| {
        var rows := Burst(offset, n);
        BurstContiguous(offset, n);
        EndInside(rows, offset);
        var next := rows[|rows| - 1].End();
        StreamedContiguous(next, n - |rows|);
        ContiguousJoin(rows, Streamed(next, n - |rows|), offset);
      }
    }

    lemma {:induction false} EndInside(rows: seq<Row>, from: nat)
      requires Contiguous(rows, from) && rows != []
      ensures from < rows[|rows| - 1].End() <= |doc|
    {
      if |rows| > 1 {
        EndInside(rows[1..], rows[0].End());
      }
    }
  }

  // ----- where streaming and row-at-a-time decoding part

  /**
   * Along a span the streaming decoder counts addresses modulo 2^64, while a single row saturates:
   * the two agree at every offset of the span exactly when its last address fits in 64 bits.
   */
  lemma {:induction false} AddressesAgree(span: CodeSpan)
    requires span.start <= span.endInclusive && span.virtualStart.Some? && span.virtualStart.value <= U64_MAX
    ensures
      (forall o: nat :: span.Contains(o) ==> span.VirtualAddressForOffset(o) == Some(Wrap(span.virtualStart.value + (o - span.start))))
      <==> span.virtualStart.value + (span.endInclusive - span.start) <= U64_MAX
  {
    var first := span.virtualStart.value;
    if first + (span.endInclusive - span.start) > U64_MAX {
      var o := span.start + (U64_MAX + 1 - first);
      assert span.Contains(o) && Wrap(first + (o - span.start)) == 0;
    }
  }

}
