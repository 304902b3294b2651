/**
 * When streaming and row-at-a-time decoding agree: the condition on the spans that `Decoding` proves
 * enough is also needed, and what it comes to for disjoint spans and for nested ones.
 */
module Streaming {
  import opened Common
  import opened Regions
  import opened Decoding

  // ----- a decoder that tells one address from the others

  // `len` bytes at the target address, one byte anywhere else.
  function TargetedOne(target: nat, len: nat, address: nat, bytes: seq<Byte>): Option<Decoded>
    requires len > 0
  {
    var n := if address == target then len else 1;
    if |bytes| < n then None else Some(Decoded(bytes[..n], if address == target then "target" else "other", None))
  }

  function Targeted(target: nat, len: nat): Backend
    requires len > 0
  {
    var one := (a: nat, bytes: seq<Byte>) => TargetedOne(target, len, a, bytes);
    Backend(len, one, (a: nat, bytes: seq<Byte>, n: nat) => DefaultBlock(one, a, bytes, n))
  }

  lemma {:induction false} TargetedIsSound(target: nat, len: nat)
    requires 0 < len <= MAX_ROW_BYTES
    ensures Sound(Targeted(target, len))
  {
    var b := Targeted(target, len);
    forall a, bytes | Clean(b.decodeOne(a, bytes)) ensures ReadsOwnBytes(b, a, bytes) {
      var n := if a == target then len else 1;
      assert bytes[..n][..n] == bytes[..n];
    }
    forall a, bytes, more | Clean(b.decodeOne(a, bytes)) ensures b.decodeOne(a, bytes + more) == b.decodeOne(a, bytes) {
      var n := if a == target then len else 1;
      assert (bytes + more)[..n] == bytes[..n];
    }
    forall a, bytes, n ensures IsBlock(b, a, bytes, n, b.decodeBlock(a, bytes, n)) {
      DefaultBlockIsRun(b, a, bytes, n);
    }
  }

  lemma {:induction false} WrapDistinct(a: nat, i: nat, k: nat)
    requires i < k <= i + U64_MAX
    ensures Wrap(a + i) != Wrap(a + k)
  {
  }

  // A window whose first `k` bytes decode one by one, and whose next bytes are the target.
  lemma {:induction false} TargetedBlock(target: nat, len: nat, address: nat, window: seq<Byte>, k: nat, n: nat)
    requires k < n && len > 0 && k + len <= |window| && k <= U64_MAX && address <= U64_MAX && target == Wrap(address + k)
    ensures
      var block := DefaultBlock(Targeted(target, len).decodeOne, address, window, n);
      && k < |block| <= n && block[k] == Decoded(window[k..k + len], "target", None)
      && forall i :: 0 <= i < k ==> |block[i].bytes| == 1
    decreases k
  {
    hide DefaultBlock, Wrap;
    WrapSmall(address);
    if k == 0 {
      TargetedStep(target, len, address, window, n);
      DefaultBlockIsRun(Targeted(target, len), Wrap(address + len), window[len..], n - 1);
    } else {
      WrapDistinct(address, 0, k);
      TargetedStep(target, len, address, window, n);
      WrapAdd(address, 1, k - 1);
      WrapBound(address + 1);
      TargetedBlock(target, len, Wrap(address + 1), window[1..], k - 1, n - 1);
      assert window[1..][k - 1..k - 1 + len] == window[k..k + len];
    }
  }

  lemma {:induction false} TargetedStep(target: nat, len: nat, address: nat, window: seq<Byte>, n: nat)
    requires len > 0 && n > 0 && |window| >= len
    ensures
      var size := if address == target then len else 1;
      var one := Targeted(target, len).decodeOne;
      DefaultBlock(one, address, window, n)
        == [Decoded(window[..size], if address == target then "target" else "other", None)]
           + DefaultBlock(one, Wrap(address + size), window[size..], n - 1)
  {
    hide DefaultBlock, Wrap;
    BlockStep(Targeted(target, len), address, window, n, TargetedOne(target, len, address, window).value);
  }

  lemma {:induction false} WrapBound(a: nat)
    ensures Wrap(a) <= U64_MAX
  {
  }

  // After one-byte instructions the rows of a block stand one byte apart.
  lemma {:induction false} BlockRowsAt(l: Listing, offset: nat, span: CodeSpan, block: seq<Decoded>, k: nat)
    requires k < |block| && forall i :: 0 <= i < k ==> |block[i].bytes| == 1
    ensures |l.BlockRows(offset, span, block)| == |block|
    ensures l.BlockRows(offset, span, block)[k] == l.RowFromDecoded(offset + k, span, block[k])
    decreases k
  {
    l.BlockRowsLen(offset, span, block);
    if k > 0 {
      BlockRowsAt(l, offset + 1, span, block[1..], k - 1);
    }
  }

  lemma {:induction false} WindowIs(l: Listing, from: nat)
    requires from < |l.doc|
    ensures from <= l.WindowEnd(from) < |l.doc| && l.WindowEnd(from) - from < DECODE_WINDOW_BYTES
    ensures l.Window(from, l.CurrentSpan(from)) == l.doc[from..l.WindowEnd(from) + 1]
  {
    hide Listing.CurrentSpan;
  }

  lemma {:induction false} AddressFits(l: Listing, offset: nat)
    requires offset < |l.doc| <= U64_MAX
    ensures l.DecodeAddress(l.CurrentSpan(offset), offset) <= U64_MAX
  {
    hide Listing.CurrentSpan;
  }

  // The row streamed `k` bytes into the window read at `from` is the target's.
  lemma {:induction false} StreamedTarget(l: Listing, from: nat, k: nat, len: nat, n: nat)
    requires k < n && |l.doc| <= U64_MAX && from < |l.doc| && l.CurrentSpan(from).executable
    requires len > 0 && from + k + len <= l.WindowEnd(from) + 1
    requires l.backend == Targeted(Wrap(l.DecodeAddress(l.CurrentSpan(from), from) + k), len)
    ensures
      var d := Decoded(l.doc[from + k..from + k + len], "target", None);
      |l.Streamed(from, n)| > k
      && l.Streamed(from, n)[k] == l.RowFromDecoded(from + k, l.CurrentSpan(from), d)
  {
    hide Listing.CurrentSpan, Wrap, DefaultBlock, Listing.Streamed, Listing.Burst, Listing.BlockRows;
    hide Listing.RowFromDecoded, Listing.DecodeAddress, Listing.Window, Listing.WindowEnd;
    var span := l.CurrentSpan(from);
    var address, window := l.DecodeAddress(span, from), l.Window(from, span);
    AddressFits(l, from);
    WindowIs(l, from);
    SliceOfSlice(l.doc, from, l.WindowEnd(from) + 1, k, k + len);
    TargetedBlock(Wrap(address + k), len, address, window, k, n);
    var block := l.BlockAt(from, n);
    assert block[..Min(n, |block|)] == block;
    BlockRowsAt(l, from, span, block, k);
    l.BurstOfCode(from, n);
    l.StreamStep(from, n, l.Burst(from, n));
  }

  // Every row of the listing is the row decoded at its own offset.
  lemma {:induction false} ChainRowAt(l: Listing, offset: nat, n: nat, k: nat)
    requires k < |l.Chain(offset, n)|
    ensures
      var row := l.Chain(offset, n)[k];
      row.offset < |l.doc| && row == l.RowAt(row.offset)
    decreases n
  {
    hide Listing.RowAt;
    if k > 0 {
      ChainRowAt(l, l.RowAt(offset).End(), n - 1, k - 1);
    }
  }

  // If the target row at `offset` is also the row decoded there alone, the window carries its description.
  lemma {:induction false} SameRowCarries(l: Listing, from: nat, offset: nat, target: nat, len: nat, d: Decoded)
    requires from <= offset < |l.doc| <= U64_MAX && offset <= l.WindowEnd(from) && len > 0
    requires target == Wrap(l.DecodeAddress(l.CurrentSpan(from), from) + (offset - from)) && l.backend == Targeted(target, len)
    requires l.RowAt(offset) == l.RowFromDecoded(offset, l.CurrentSpan(from), d) && d.text == "target" && |d.bytes| == len
    requires l.CurrentSpan(offset).endInclusive < Min(l.WindowEnd(from), offset + MAX_ROW_BYTES - 1) ==>
      len == l.CurrentSpan(offset).endInclusive - offset + 2
    ensures l.Carries(from, offset)
  {
    hide Listing.CurrentSpan;
    var s, t := l.CurrentSpan(from), l.CurrentSpan(offset);
    assert t.executable;
    var read := l.Read(offset, Min(len, t.endInclusive - offset + 1));
    assert l.backend.decodeOne(l.DecodeAddress(t, offset), read).Some?;
    assert l.DecodeAddress(t, offset) == target;
  }

  // The length of the target instruction that shows a window is cut short, or one byte.
  function TargetLen(l: Listing, from: nat, offset: nat): (len: nat)
    requires from <= offset < |l.doc| && offset <= l.WindowEnd(from)
    ensures 0 < len <= MAX_ROW_BYTES && offset + len <= l.WindowEnd(from) + 1
  {
    var end := l.CurrentSpan(offset).endInclusive;
    if end < Min(l.WindowEnd(from), offset + MAX_ROW_BYTES - 1) then end - offset + 2 else 1
  }

  // However many rows are asked for, the target's row is streamed, and is not the one decoded there alone.
  lemma {:induction false} TargetDiverges(l: Listing, from: nat, offset: nat, n: nat)
    requires from <= offset < |l.doc| <= U64_MAX && l.CurrentSpan(from).executable && offset <= l.WindowEnd(from)
    requires l.backend == Targeted(Wrap(l.DecodeAddress(l.CurrentSpan(from), from) + (offset - from)), TargetLen(l, from, offset))
    requires !l.Carries(from, offset) && offset - from < n
    ensures Misses(l, from, offset, n)
  {
    hide Listing.Streamed, Listing.Chain, Listing.RowAt, Wrap, Listing.CurrentSpan, Listing.Carries, Listing.RowFromDecoded;
    hide Listing.WindowEnd, Listing.DecodeAddress;
    var k, len := offset - from, TargetLen(l, from, offset);
    WindowIs(l, from);
    var d := Decoded(l.doc[offset..offset + len], "target", None);
    StreamedTarget(l, from, k, len, n);
    if l.Streamed(from, n)[..k + 1] == l.Chain(from, k + 1) {
      assert l.Chain(from, k + 1)[k] == l.Streamed(from, n)[k];
      ChainRowAt(l, from, k + 1, k);
      RowOffset(l, offset, l.CurrentSpan(from), d);
      SameRowCarries(l, from, offset, Wrap(l.DecodeAddress(l.CurrentSpan(from), from) + (offset - from)), len, d);
      assert false;
    }
  }

  // `n` rows streamed from `from` include the one that many bytes further on, and up to there are not the listing's.
  ghost predicate Misses(l: Listing, from: nat, offset: nat, n: nat) {
    from <= offset
    && var k := offset - from;
    k < |l.Streamed(from, n)| && l.Streamed(from, n)[..k + 1] != l.Chain(from, k + 1)
  }

  lemma {:induction false} RowOffset(l: Listing, offset: nat, span: CodeSpan, d: Decoded)
    ensures l.RowFromDecoded(offset, span, d).offset == offset
  {
  }

  // The decoder that tells the offset from the others as the window read at `from` counts addresses.
  function TargetAt(l: Listing, from: nat, offset: nat): Backend
    requires from <= offset < |l.doc| && offset <= l.WindowEnd(from)
  {
    Targeted(Wrap(l.DecodeAddress(l.CurrentSpan(from), from) + (offset - from)), TargetLen(l, from, offset))
  }

  /**
   * The condition is needed everywhere: where a window does not carry the description of an offset, some
   * sound decoder streams other rows than are decoded one at a time, however many rows are asked for.
   */
  lemma {:induction false} StreamingMisses(l: Listing, from: nat, offset: nat)
    requires from <= offset < |l.doc| <= U64_MAX && l.CurrentSpan(from).executable && offset <= l.WindowEnd(from)
    requires !l.Carries(from, offset)
    ensures Sound(TargetAt(l, from, offset))
    ensures forall n :: n > offset - from ==> Misses(l.(backend := TargetAt(l, from, offset)), from, offset, n)
  {
    hide Listing.CurrentSpan, Misses, Wrap, Sound, Targeted, TargetLen, Listing.Carries;
    hide Listing.WindowEnd, Listing.DecodeAddress;
    var len := TargetLen(l, from, offset);
    var target := Wrap(l.DecodeAddress(l.CurrentSpan(from), from) + (offset - from));
    var b := Targeted(target, len);
    TargetedIsSound(target, len);
    SpansOnly(l, b, from);
    SpansOnly(l, b, offset);
    CarriesSpansOnly(l, b, from, offset);
    forall n | n > offset - from ensures Misses(l.(backend := b), from, offset, n) {
      TargetDiverges(l.(backend := b), from, offset, n);
    }
  }

  /** In particular some number of streamed rows is not the listing. */
  lemma {:induction false} StreamingNeeds(l: Listing, from: nat, offset: nat) returns (b: Backend, n: nat)
    requires from <= offset < |l.doc| <= U64_MAX && l.CurrentSpan(from).executable && offset <= l.WindowEnd(from)
    requires !l.Carries(from, offset)
    ensures Sound(b) && l.(backend := b).Streamed(from, n) != l.(backend := b).Chain(from, n)
  {
    hide Listing.CurrentSpan, Listing.Streamed, Listing.Chain, Sound, Listing.Carries, Listing.WindowEnd, TargetAt;
    StreamingMisses(l, from, offset);
    b, n := TargetAt(l, from, offset), offset - from + 1;
    assert Misses(l.(backend := b), from, offset, n);
    l.(backend := b).ChainLen(from, n);
  }

  // Spans, windows and the condition do not look at the decoder.
  lemma {:induction false} SpansOnly(l: Listing, b: Backend, offset: nat)
    requires offset < |l.doc|
    ensures l.(backend := b).CurrentSpan(offset) == l.CurrentSpan(offset)
    ensures l.(backend := b).WindowEnd(offset) == l.WindowEnd(offset)
  {
  }

  lemma {:induction false} CarriesSpansOnly(l: Listing, b: Backend, from: nat, offset: nat)
    requires from <= offset < |l.doc| && offset <= l.WindowEnd(from)
    ensures l.(backend := b).Carries(from, offset) <==> l.Carries(from, offset)
    ensures offset <= l.(backend := b).WindowEnd(from) && TargetLen(l.(backend := b), from, offset) == TargetLen(l, from, offset)
    ensures l.(backend := b).DecodeAddress(l.CurrentSpan(from), from) == l.DecodeAddress(l.CurrentSpan(from), from)
  {
    SpansOnly(l, b, from);
    SpansOnly(l, b, offset);
    hide Listing.CurrentSpan;
  }

  ghost predicate StreamsAlike(l: Listing, b: Backend, offset: nat, n: nat) {
    l.(backend := b).Streamed(offset, n) == l.(backend := b).Chain(offset, n)
  }

  lemma {:induction false} CarriedByAll(l: Listing, b: Backend)
    ensures l.(backend := b).Carried() <==> l.Carried()
  {
    var other := l.(backend := b);
    forall offset: nat | offset < |l.doc| ensures other.CurrentSpan(offset) == l.CurrentSpan(offset) {
      SpansOnly(l, b, offset);
    }
    hide Listing.CurrentSpan;
    forall from: nat, offset: nat | from <= offset < |l.doc| ensures other.Carries(from, offset) <==> l.Carries(from, offset) {
    }
  }

  /** Exactly then: all sound decoders stream what they decode one row at a time if and only if every window carries. */
  lemma {:induction false} StreamingExact(l: Listing)
    requires |l.doc| <= U64_MAX
    ensures l.Carried() <==> forall b: Backend, offset: nat, n: nat :: Sound(b) ==> StreamsAlike(l, b, offset, n)
  {
    hide Listing.CurrentSpan, Listing.Streamed, Listing.Chain, Sound, Listing.Carries;
    if l.Carried() {
      forall b: Backend, offset: nat, n: nat | Sound(b) ensures StreamsAlike(l, b, offset, n) {
        CarriedByAll(l, b);
        l.(backend := b).StreamedIsChain(offset, n);
      }
    } else {
      var from: nat, offset: nat :|
        from <= offset < |l.doc| && l.CurrentSpan(from).executable && offset <= l.WindowEnd(from) && !l.Carries(from, offset);
      var b, n := StreamingNeeds(l, from, offset);
      assert !StreamsAlike(l, b, from, n);
    }
  }

  // ----- disjoint spans, and sections inside segments

  // No executable span runs past the last 64-bit address.
  ghost predicate AddressesFit(l: Listing) {
    forall s :: s in l.info.spans && s.executable && s.virtualStart.Some? && s.start < |l.doc| ==>
      s.virtualStart.value + (Min(s.endInclusive, |l.doc| - 1) - s.start) <= U64_MAX
  }

  lemma {:induction false} SpanOwns(l: Listing, span: CodeSpan, offset: nat)
    requires Disjoint(l.info.spans) && span in l.info.spans && span.Contains(offset) && offset < |l.doc|
    ensures l.CurrentSpan(offset) == span.(endInclusive := Min(span.endInclusive, |l.doc| - 1))
  {
    SpanContainingFacts(l.info.spans, offset);
    var found := SpanContaining(l.info.spans, offset).value;
    assert Overlap(span, found) && Overlap(found, span);
  }

  lemma {:induction false} ExecutableIsListed(l: Listing, offset: nat) returns (span: CodeSpan)
    requires offset < |l.doc| && l.CurrentSpan(offset).executable
    ensures span in l.info.spans && span.executable && span.Contains(offset)
  {
    SpanContainingFacts(l.info.spans, offset);
    span := SpanContaining(l.info.spans, offset).value;
  }

  /** For disjoint spans the condition comes down to the addresses: each executable span must fit in 64 bits. */
  lemma {:induction false} DisjointCarries(l: Listing)
    requires Disjoint(l.info.spans)
    requires forall s :: s in l.info.spans && s.virtualStart.Some? ==> s.virtualStart.value <= U64_MAX
    ensures l.Carried() <==> AddressesFit(l)
  {
    hide Disjoint, Listing.CurrentSpan;
    if AddressesFit(l) {
      forall from: nat, offset: nat
        | from <= offset < |l.doc| && l.CurrentSpan(from).executable && offset <= l.WindowEnd(from)
        ensures l.Carries(from, offset)
      {
        var span := ExecutableIsListed(l, from);
        SpanOwns(l, span, from);
        SpanOwns(l, span, offset);
      }
    } else {
      var span :| span in l.info.spans && span.executable && span.virtualStart.Some? && span.start < |l.doc|
        && span.virtualStart.value + (Min(span.endInclusive, |l.doc| - 1) - span.start) > U64_MAX;
      var top := span.start + (U64_MAX - span.virtualStart.value);
      SpanOwns(l, span, top);
      SpanOwns(l, span, top + 1);
      assert top + 1 <= l.WindowEnd(top) && !l.Carries(top, top + 1);
    }
  }

  function Bare(doc: seq<Byte>, spans: seq<CodeSpan>): Listing {
    Listing(doc, Info(spans, false, a => None, t => (t, []), b => ""), Targeted(0, 1))
  }

  /** Documents without spans, and with any one executable span that fits, meet what streaming asks for. */
  lemma {:induction false} PlainListingsStream(doc: seq<Byte>, span: CodeSpan)
    requires |doc| <= U64_MAX && span.start <= span.endInclusive
    requires span.virtualStart.Some? ==> span.virtualStart.value + (span.endInclusive - span.start) <= U64_MAX
    ensures Bare(doc, []).Streamable() && Bare(doc, [span]).Streamable()
  {
    TargetedIsSound(0, 1);
    DisjointCarries(Bare(doc, []));
    DisjointCarries(Bare(doc, [span]));
    hide Sound, Listing.Carried;
  }

  /**
   * A linked ELF lists its sections and each loaded segment around them. Wherever code of a segment runs into
   * a section of another name, some sound decoder streams the section's first row under the segment's name.
   */
  lemma {:induction false} SectionInSegmentDiverges(l: Listing, segment: CodeSpan, section: CodeSpan) returns (b: Backend, n: nat)
    requires 0 < section.start < |l.doc| <= U64_MAX && segment.executable && section.name != segment.name
    requires SpanContaining(l.info.spans, section.start - 1) == Some(segment) && segment.Contains(section.start)
    requires SpanContaining(l.info.spans, section.start) == Some(section)
    ensures Sound(b) && l.(backend := b).Streamed(section.start - 1, n) != l.(backend := b).Chain(section.start - 1, n)
  {
    var at := section.start;
    assert l.CurrentSpan(at - 1).name == segment.name && l.CurrentSpan(at - 1).executable && l.CurrentSpan(at - 1).Contains(at);
    assert l.CurrentSpan(at).name == section.name;
    hide Listing.CurrentSpan, Listing.Streamed, Listing.Chain, Sound, SpanContaining;
    b, n := StreamingNeeds(l, at - 1, at);
  }

  /**
   * A segment, two sections inside it and the section names outside: before each section whose neighbour
   * leaves a byte of padding, that is the case.
   */
  lemma {:induction false} LinkedLayout(segment: CodeSpan, first: CodeSpan, second: CodeSpan, names: CodeSpan)
    requires segment.start <= first.start <= first.endInclusive < second.start - 1 < second.endInclusive < segment.endInclusive
    requires segment.endInclusive < names.start <= names.endInclusive
    ensures
      var spans := [first, segment, second, names];
      && SpanContaining(spans, second.start - 1) == Some(segment) && segment.Contains(second.start)
      && SpanContaining(spans, second.start) == Some(second)
  {
    var spans := [first, segment, second, names];
    SpanContainingFacts(spans, second.start - 1);
    SpanContainingFacts(spans, second.start);
    assert spans[1] in spans && spans[2] in spans;
    hide SpanContaining;
  }
}
