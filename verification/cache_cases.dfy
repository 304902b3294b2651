/**
 * Two things a row cache does on particular spans: where a window does not carry, a fresh cache passes on
 * what was streamed; and where rows of two grids interleave, a cache can end up over its limit.
 */
module CacheCases {
  import opened Common
  import opened Regions
  import opened Decoding
  import opened Streaming
  import opened RowGrids
  import opened DisasmCaches

  // ----- filling, step by step

  // Inserted rows are genuine.
  lemma {:induction false} WithGenuine(l: Listing, rows: map<nat, Row>, decoded: seq<Row>)
    requires GenuineMap(l, rows) && AllGenuine(l, decoded)
    ensures GenuineMap(l, WithRows(rows, decoded))
    decreases |decoded|
  {
    hide Genuine;
    if decoded != [] {
      WithGenuine(l, rows, decoded[..|decoded| - 1]);
    }
  }

  lemma {:induction false} InsertedGenuine(l: Listing, rows: map<nat, Row>, decoded: seq<Row>, lo: nat, cursor: nat, limit: nat)
    requires GenuineMap(l, rows) && AllGenuine(l, decoded)
    ensures GenuineMap(l, Inserted(rows, decoded, lo, cursor, limit))
  {
    hide Genuine, WithRows, Trimmed, AllGenuine, Farther;
    WithGenuine(l, rows, decoded);
    TrimmedFacts(WithRows(rows, decoded), limit, cursor, lo, cursor);
  }

  // Walking over cached rows changes nothing.
  lemma {:induction false} FilledThrough(l: Listing, rows: map<nat, Row>, start: nat, target: nat, cached: nat, cursor: nat,
        limit: nat, n: nat, next: nat)
    requires GenuineMap(l, rows) && Leads(rows, cursor, n, next) && cached + n <= target
    ensures Filled(l, rows, start, target, cached, cursor, limit) == Filled(l, rows, start, target, cached + n, next, limit)
    decreases n
  {
    hide Listing.Carried, Listing.RowAt, Filled;
    if n > 0 {
      assert Genuine(l, cursor, rows[cursor]);
      FilledHit(l, rows, start, target, cached, cursor, limit);
      FilledThrough(l, rows, start, target, cached + 1, rows[cursor].End(), limit, n - 1, next);
    }
  }

  // Rows that the fill loop has passed stay as they are.
  lemma {:induction false} FilledKeeps(l: Listing, rows: map<nat, Row>, start: nat, target: nat, cached: nat, cursor: nat,
        limit: nat)
    requires Usable(l) && GenuineMap(l, rows) && start <= cursor
    ensures
      var final := Filled(l, rows, start, target, cached, cursor, limit);
      GenuineMap(l, final) && forall o :: o in rows && start <= o < cursor ==> o in final && final[o] == rows[o]
    decreases SatSub(|l.doc|, cursor), if cursor in rows then 0 else 1
  {
    hide Usable, Listing.Carried, Listing.RowAt, Filled, Listing.Streamed, Inserted, AllGenuine, GenuineMap;
    if cached >= target || cursor >= |l.doc| {
      FilledDone(l, rows, start, target, cached, cursor, limit);
    } else if cursor in rows {
      GenuineAt(l, rows, cursor);
      FilledHit(l, rows, start, target, cached, cursor, limit);
      FilledKeeps(l, rows, start, target, cached + 1, rows[cursor].End(), limit);
    } else {
      var decoded := l.Streamed(cursor, Batch(target - cached));
      StreamedFacts(l, cursor, Batch(target - cached));
      InsertedKeeps(l, rows, decoded, start, cursor, limit);
      FilledMiss(l, rows, start, target, cached, cursor, limit);
      FilledKeeps(l, Inserted(rows, decoded, start, cursor, limit), start, target, cached, cursor, limit);
    }
  }

  lemma {:induction false} GenuineAt(l: Listing, rows: map<nat, Row>, o: nat)
    requires GenuineMap(l, rows) && o in rows
    ensures rows[o].offset == o < rows[o].End() <= |l.doc| && (l.Carried() ==> rows[o] == l.RowAt(o))
  {
    hide Listing.Carried, Listing.RowAt;
    assert Genuine(l, o, rows[o]);
  }

  lemma {:induction false} StreamedFacts(l: Listing, cursor: nat, n: nat)
    requires Usable(l) && cursor < |l.doc| && n > 0
    ensures
      var decoded := l.Streamed(cursor, n);
      && AllGenuine(l, decoded) && decoded != [] && decoded[0].offset == cursor
      && forall r :: r in decoded ==> cursor <= r.offset
  {
    hide Usable, Listing.Carried, Listing.Streamed, AllGenuine;
    ReachesSelf(l, cursor);
    DecodedFacts(l, cursor, cursor, n);
  }

  lemma {:induction false} InsertedKeeps(l: Listing, rows: map<nat, Row>, decoded: seq<Row>, start: nat, cursor: nat, limit: nat)
    requires GenuineMap(l, rows) && AllGenuine(l, decoded) && start <= cursor
    requires decoded != [] && decoded[0].offset == cursor && forall r :: r in decoded ==> cursor <= r.offset
    ensures
      var now := Inserted(rows, decoded, start, cursor, limit);
      && GenuineMap(l, now) && cursor in now
      && forall o :: o in rows && start <= o < cursor ==> o in now && now[o] == rows[o]
  {
    hide GenuineMap, AllGenuine, WithRows, Trimmed;
    InsertedGenuine(l, rows, decoded, start, cursor, limit);
    TrimmedFacts(WithRows(rows, decoded), limit, cursor, start, cursor);
    InsertedRows(rows, Inserted(rows, decoded, start, cursor, limit), decoded, start, cursor);
  }

  // ----- a fresh cache passes on what was streamed

  lemma {:induction false} WithNone(decoded: seq<Row>)
    ensures |WithRows(map[], decoded)| <= |decoded|
  {
    if decoded != [] {
      var front := decoded[..|decoded| - 1];
      WithNone(front);
      var row := decoded[|decoded| - 1];
      assert WithRows(map[], decoded).Keys == WithRows(map[], front).Keys + {row.offset};
      SubsetSize(WithRows(map[], decoded).Keys - {row.offset}, WithRows(map[], front).Keys);
    }
  }

  // A run of rows, end to end, is met in order once it is cached.
  lemma {:induction false} RunIsMet(l: Listing, rows: map<nat, Row>, decoded: seq<Row>, from: nat)
    requires l.Contiguous(decoded, from) && forall r :: r in decoded ==> r.offset in rows && rows[r.offset] == r
    ensures Leads(rows, from, |decoded|, if decoded == [] then from else decoded[|decoded| - 1].End())
    ensures RowsMet(rows, from, |decoded|) == decoded
    decreases |decoded|
  {
    if decoded != [] {
      assert decoded[0] in decoded;
      RunIsMet(l, rows, decoded[1..], decoded[0].End());
    }
  }

  // Caching such a run keeps each of its rows.
  lemma {:induction false} RunIsCached(l: Listing, rows: map<nat, Row>, decoded: seq<Row>, from: nat)
    requires l.Contiguous(decoded, from)
    ensures forall r :: r in decoded ==> r.offset in WithRows(rows, decoded) && WithRows(rows, decoded)[r.offset] == r
    decreases |decoded|
  {
    if decoded != [] {
      var k := |decoded| - 1;
      FrontContiguous(l, decoded, from);
      RunIsCached(l, rows, decoded[..k], from);
      forall r | r in decoded ensures r.offset in WithRows(rows, decoded) && WithRows(rows, decoded)[r.offset] == r {
        if r in decoded[..k] && r.offset == decoded[k].offset {
          BeforeLast(l, decoded, from, r);
        }
      }
    }
  }

  lemma {:induction false} FrontContiguous(l: Listing, decoded: seq<Row>, from: nat)
    requires l.Contiguous(decoded, from) && decoded != []
    ensures l.Contiguous(decoded[..|decoded| - 1], from)
    decreases |decoded|
  {
    if |decoded| > 1 {
      FrontContiguous(l, decoded[1..], decoded[0].End());
      assert decoded[..|decoded| - 1][1..] == decoded[1..][..|decoded| - 2];
    }
  }

  lemma {:induction false} BeforeLast(l: Listing, decoded: seq<Row>, from: nat, r: Row)
    requires l.Contiguous(decoded, from) && decoded != [] && r in decoded[..|decoded| - 1]
    ensures r.offset < decoded[|decoded| - 1].offset
    decreases |decoded|
  {
    var last := decoded[|decoded| - 1];
    ContiguousRows(l, decoded[1..], decoded[0].End());
    assert last in decoded[1..];
    if r != decoded[0] {
      var i :| 0 <= i < |decoded| - 1 && decoded[i] == r;
      assert decoded[1..][..|decoded| - 2][i - 1] == r;
      BeforeLast(l, decoded[1..], decoded[0].End(), r);
    }
  }

  // The rows met first, where more may be cached behind them.
  lemma {:induction false} MetAgain(rows: map<nat, Row>, final: map<nat, Row>, from: nat, n: nat, m: nat, next: nat)
    requires Leads(rows, from, n, next) && m <= n
    requires forall r :: r in RowsMet(rows, from, n) ==> r.offset in final && final[r.offset] == r
    requires forall o :: o in rows ==> rows[o].offset == o
    ensures |RowsMet(rows, from, n)| == n && RowsMet(final, from, m) == RowsMet(rows, from, n)[..m]
    decreases n
  {
    if n > 0 {
      var met := RowsMet(rows, from, n);
      assert met == [rows[from]] + RowsMet(rows, rows[from].End(), n - 1);
      assert met[0] in met && met[1..] == RowsMet(rows, rows[from].End(), n - 1);
      if m > 0 {
        MetAgain(rows, final, rows[from].End(), n - 1, m - 1, next);
        assert met[..m] == [rows[from]] + met[1..][..m - 1];
      } else {
        MetAgain(rows, final, rows[from].End(), n - 1, 0, next);
      }
    }
  }

  // What a fresh cache holds when the search for the start of a code region ends.
  lemma {:induction false} FreshSought(l: Listing, r: CodeSpan, limit: nat)
    requires Usable(l) && WellFormed(l.info.spans) && r in RegionsOf(l.info.spans, |l.doc|) && r.executable
    requires limit >= PREFETCH_ROWS
    ensures r.start < |l.doc|
    ensures
      var decoded := l.Streamed(r.start, PREFETCH_ROWS);
      Located(l, map[], StartsOf(RegionsOf(l.info.spans, |l.doc|)), r.start, limit) == Search(WithRows(map[], decoded), Some(r.start))
  {
    hide Usable, RegionsOf, RegionAt, Listing.Streamed, WithRows, AllGenuine, Listing.Carried;
    RegionNonEmpty(l, r);
    RegionIs(l, r, r.start);
    FreshAnswer(l, r.start);
    var decoded, none: map<nat, Row> := l.Streamed(r.start, PREFETCH_ROWS), map[];
    StreamedFacts(l, r.start, PREFETCH_ROWS);
    StreamedAtMost(l, r.start, PREFETCH_ROWS);
    WithNone(decoded);
    TrimStep(WithRows(none, decoded), limit, r.start, r.start, r.start);
    InsertedKeeps(l, none, decoded, r.start, r.start, limit);
    GenuineAt(l, WithRows(none, decoded), r.start);
    SoughtStep(l, none, r.start, r.endInclusive, r.start, limit);
    assert none.Keys == {};
  }

  lemma {:induction false} StreamedAtMost(l: Listing, from: nat, n: nat)
    ensures |l.Streamed(from, n)| <= n
    decreases n
  {
    hide Listing.Burst;
    if n > 0 && from < |l.doc| {
      var rows := l.Burst(from, n);
      StreamedAtMost(l, rows[|rows| - 1].End(), n - |rows|);
    }
  }

  // And what it answers there.
  lemma {:induction false} FreshAnswersStreamed(l: Listing, from: nat, k: nat, limit: nat, final: map<nat, Row>)
    requires Usable(l) && from < |l.doc| && k < PREFETCH_ROWS <= limit
    requires final ==
      Filled(l, WithRows(map[], l.Streamed(from, PREFETCH_ROWS)), from, Target(k + 1, limit), 0, from, limit)
    ensures
      var decoded := l.Streamed(from, PREFETCH_ROWS);
      RowsMet(final, from, k + 1) == decoded[..Min(k + 1, |decoded|)]
  {
    hide Usable, Listing.Streamed, WithRows, AllGenuine, Listing.Carried, Filled, Leads, RowsMet, GenuineMap, Listing.Contiguous;
    var decoded, none: map<nat, Row> := l.Streamed(from, PREFETCH_ROWS), map[];
    var rows, n := WithRows(none, decoded), |decoded|;
    assert Sound(l.backend) by { UsableSound(l); }
    StreamedFacts(l, from, PREFETCH_ROWS);
    var next := decoded[n - 1].End();
    StreamedAtMost(l, from, PREFETCH_ROWS);
    l.StreamedContiguous(from, PREFETCH_ROWS);
    NoneGenuine(l);
    WithGenuine(l, none, decoded);
    RunIsCached(l, none, decoded, from);
    RunIsMet(l, rows, decoded, from);
    LeadsOn(l, rows, from, n, next);
    FilledThrough(l, rows, from, Target(k + 1, limit), 0, from, limit, n, next);
    FilledKeeps(l, rows, from, Target(k + 1, limit), n, next, limit);
    StaysMet(l, decoded, from, rows, final);
    GenuineOffsets(l, rows);
    MetAgain(rows, final, from, n, Min(k + 1, n), next);
    if n < k + 1 {
      MetToTheEnd(l, rows, final, decoded, from, next, k + 1);
    }
  }

  lemma {:induction false} UsableSound(l: Listing)
    requires Usable(l)
    ensures Sound(l.backend)
  {
  }

  lemma {:induction false} NoneGenuine(l: Listing)
    ensures GenuineMap(l, map[])
  {
  }

  lemma {:induction false} GenuineOffsets(l: Listing, rows: map<nat, Row>)
    requires GenuineMap(l, rows)
    ensures forall o :: o in rows ==> rows[o].offset == o
  {
    forall o | o in rows ensures rows[o].offset == o {
      GenuineAt(l, rows, o);
    }
  }

  // Each row of the run lies before its end, and so stays cached.
  lemma {:induction false} StaysMet(l: Listing, decoded: seq<Row>, from: nat, rows: map<nat, Row>, final: map<nat, Row>)
    requires decoded != [] && l.Contiguous(decoded, from)
    requires forall r :: r in decoded ==> r.offset in rows && rows[r.offset] == r
    requires forall o :: o in rows && from <= o < decoded[|decoded| - 1].End() ==> o in final && final[o] == rows[o]
    ensures forall r :: r in decoded ==> r.offset in final && final[r.offset] == r
  {
    var k := |decoded| - 1;
    ContiguousRows(l, decoded, from);
    forall r | r in decoded ensures r.offset in final && final[r.offset] == r {
      if r != decoded[k] {
        var i :| 0 <= i < |decoded| && decoded[i] == r;
        assert decoded[..k][i] == r;
        BeforeLast(l, decoded, from, r);
      }
      assert decoded[k] in decoded;
    }
  }

  // A run that ends with the document is all there is to meet.
  lemma {:induction false} MetToTheEnd(l: Listing, rows: map<nat, Row>, final: map<nat, Row>, decoded: seq<Row>, from: nat,
        next: nat, m: nat)
    requires GenuineMap(l, final) && l.Contiguous(decoded, from) && decoded != [] && next == decoded[|decoded| - 1].End() == |l.doc|
    requires (forall r :: r in decoded ==> r.offset in final && final[r.offset] == r) && |decoded| <= m
    ensures RowsMet(final, from, m) == decoded
  {
    hide GenuineMap, Listing.Contiguous, Leads, RowsMet;
    RunIsMet(l, final, decoded, from);
    if |l.doc| in final {
      GenuineAt(l, final, |l.doc|);
      assert false;
    }
    MetAll(final, from, |decoded|, next, m);
  }

  /**
   * Asked for up to 32 rows of a code region from its start on, a fresh cache of any limit answers with
   * the rows streamed from there, whatever the spans.
   */
  method FreshStreamed(l: Listing, r: CodeSpan, k: nat, limit: nat) returns (answer: seq<Row>)
    requires Usable(l) && r in RegionsOf(l.info.spans, |l.doc|) && r.executable && k < PREFETCH_ROWS
    ensures
      var decoded := l.Streamed(r.start, PREFETCH_ROWS);
      answer == decoded[..Min(k + 1, |decoded|)]
  {
    hide Usable, RegionsOf, Listing.Streamed, Listing.Carried, Exact, Healthy, Located, Filled, RowsMet, WithRows;
    hide Unbroken, OwnRows, FreshListing, CanonicalListing;
    UsableSpans(l);
    var cache := new DisasmCache(l, limit);
    HealthyFacts(l, cache.rows, cache.checkpoints, cache.regionStarts, cache.maxRows);
    FreshSought(l, r, cache.maxRows);
    answer := cache.CollectRows(l, r.start, k + 1);
    FreshAnswersStreamed(l, r.start, k, cache.maxRows, cache.rows);
  }

  /**
   * So wherever the window at the start of a code region does not carry one of the offsets that these rows
   * reach, some sound decoder makes a fresh cache answer with rows that are not the listing's.
   */
  method FreshMisses(l: Listing, r: CodeSpan, offset: nat, limit: nat) returns (b: Backend, answer: seq<Row>)
    requires WellFormed(l.info.spans) && |l.doc| <= U64_MAX && r in RegionsOf(l.info.spans, |l.doc|) && r.executable
    requires r.start <= offset < |l.doc| && offset - r.start < PREFETCH_ROWS
    requires l.CurrentSpan(r.start).executable && offset <= l.WindowEnd(r.start) && !l.Carries(r.start, offset)
    ensures Sound(b) && answer != l.(backend := b).Chain(r.start, offset - r.start + 1)
  {
    hide Listing.CurrentSpan, Listing.Streamed, Listing.Carries, Listing.WindowEnd, Sound, TargetAt, RegionsOf, Listing.Chain;
    b := TargetAt(l, r.start, offset);
    StreamingMisses(l, r.start, offset);
    assert Misses(l.(backend := b), r.start, offset, PREFETCH_ROWS);
    answer := FreshStreamed(l.(backend := b), r, offset - r.start, limit);
  }

  // ----- rows of two grids

  // Six hundred data bytes, four of them listed again.
  function Striped(doc: seq<Byte>): Listing {
    Bare(doc, [DataSpan(0, 599), DataSpan(8, 11)])
  }

  lemma {:induction false} StripedSpans(doc: seq<Byte>, offset: nat)
    requires |doc| == 600 && offset < 600
    ensures Striped(doc).CurrentSpan(offset) == if 8 <= offset <= 11 then DataSpan(8, 11) else DataSpan(0, 599)
  {
    var spans := [DataSpan(0, 599), DataSpan(8, 11)];
    SpanContainingFacts(spans, offset);
    assert spans[0] in spans && spans[1] in spans;
  }

  lemma {:induction false} StripedRegion(doc: seq<Byte>)
    requires |doc| == 600
    ensures RegionsOf(Striped(doc).info.spans, 600) == [DataSpan(0, 599)]
  {
    var outer, inner := DataSpan(0, 599), DataSpan(8, 11);
    assert [outer, inner][1..] == [inner] && [inner][1..] == [];
    assert SortSpans([inner]) == [inner];
    assert SortSpans([outer, inner]) == [outer, inner];
    assert Walk([inner], 600, 600) == [];
    assert Claim(outer, 0, 599) == [outer];
  }

  lemma {:induction false} StripedStreams(doc: seq<Byte>)
    requires |doc| == 600
    ensures Striped(doc).Streamable() && Striped(doc).Carried() && Usable(Striped(doc)) && |Striped(doc).doc| == 600
  {
    TargetedIsSound(0, 1);
    hide Sound, Listing.CurrentSpan;
    forall from: nat | from < 600 ensures !Striped(doc).CurrentSpan(from).executable {
      StripedSpans(doc, from);
    }
  }

  // Rows are eight bytes long, but for the listed four and the last.
  lemma {:induction false} StripedRow(doc: seq<Byte>, offset: nat)
    requires |doc| == 600 && offset < 600
    ensures Striped(doc).RowAt(offset).offset == offset
    ensures 12 <= offset <= 592 || offset == 0 ==> Striped(doc).RowAt(offset).End() == offset + 8
    ensures offset == 8 ==> Striped(doc).RowAt(offset).End() == 12
  {
    StripedSpans(doc, offset);
    hide Listing.CurrentSpan;
    DataRowEnds(Striped(doc), offset);
  }

  // `n` offsets, eight apart.
  ghost function Steps(from: nat, n: nat): set<nat>
    decreases n
  {
    if n == 0 then {} else {from} + Steps(from + 8, n - 1)
  }

  lemma {:induction false} StepsAre(from: nat, n: nat, o: nat)
    ensures o in Steps(from, n) <==> from <= o < from + 8 * n && (o - from) % 8 == 0
    decreases n
  {
    if n > 0 {
      StepsAre(from + 8, n - 1, o);
    }
  }

  lemma {:induction false} StepsCount(from: nat, n: nat)
    ensures |Steps(from, n)| == n
    decreases n
  {
    if n > 0 {
      StepsCount(from + 8, n - 1);
      StepsAre(from + 8, n - 1, from);
    }
  }

  ghost function OffsetsOf(rows: seq<Row>): set<nat> {
    set r | r in rows :: r.offset
  }

  lemma {:induction false} WithRowsKeys(rows: map<nat, Row>, decoded: seq<Row>)
    ensures WithRows(rows, decoded).Keys == rows.Keys + OffsetsOf(decoded)
    decreases |decoded|
  {
    if decoded != [] {
      var k := |decoded| - 1;
      WithRowsKeys(rows, decoded[..k]);
      assert decoded == decoded[..k] + [decoded[k]];
      assert OffsetsOf(decoded) == OffsetsOf(decoded[..k]) + {decoded[k].offset};
    }
  }

  lemma {:induction false} ConsOffsets(row: Row, rows: seq<Row>)
    ensures OffsetsOf([row] + rows) == {row.offset} + OffsetsOf(rows)
  {
  }

  // Listing from past the four bytes goes eight bytes a row.
  lemma {:induction false} StripedChain(doc: seq<Byte>, from: nat, n: nat)
    requires |doc| == 600 && 12 <= from && from + 8 * n <= 600
    ensures OffsetsOf(Striped(doc).Chain(from, n)) == Steps(from, n)
    decreases n
  {
    hide Listing.RowAt;
    if n > 0 {
      StripedRow(doc, from);
      StripedChain(doc, from + 8, n - 1);
      ConsOffsets(Striped(doc).RowAt(from), Striped(doc).Chain(from + 8, n - 1));
    }
  }

  // Listing from the start shows the four bytes alone.
  lemma {:induction false} StripedStart(doc: seq<Byte>)
    requires |doc| == 600
    ensures OffsetsOf(Striped(doc).Chain(0, 32)) == {0, 8} + Steps(12, 30)
  {
    hide Listing.RowAt, Steps;
    var l := Striped(doc);
    StripedRow(doc, 0);
    StripedRow(doc, 8);
    StripedChain(doc, 12, 30);
    assert l.Chain(0, 32) == [l.RowAt(0)] + l.Chain(8, 31);
    assert l.Chain(8, 31) == [l.RowAt(8)] + l.Chain(12, 30);
    ConsOffsets(l.RowAt(0), l.Chain(8, 31));
    ConsOffsets(l.RowAt(8), l.Chain(12, 30));
  }

  lemma {:induction false} StripedStreamed(doc: seq<Byte>, from: nat)
    requires |doc| == 600
    ensures Striped(doc).Streamed(from, 32) == Striped(doc).Chain(from, 32)
  {
    StripedStreams(doc);
    hide Listing.Streamable, Listing.Chain, Listing.Streamed;
    Striped(doc).StreamedIsChain(from, 32);
  }

  lemma {:induction false} StripedHit(doc: seq<Byte>, rows: map<nat, Row>, o: nat)
    requires |doc| == 600 && GenuineMap(Striped(doc), rows) && o in rows
    ensures 12 <= o <= 592 || o == 0 ==> rows[o].End() == o + 8
    ensures o == 8 ==> rows[o].End() == 12
  {
    hide Listing.RowAt, GenuineMap, Listing.Carried, Striped, Listing.Streamable, Usable;
    StripedStreams(doc);
    GenuineAt(Striped(doc), rows, o);
    StripedRow(doc, o);
  }

  // Cached rows eight bytes apart lead from one to the next.
  lemma {:induction false} StripedLeads(doc: seq<Byte>, rows: map<nat, Row>, from: nat, n: nat)
    requires |doc| == 600 && GenuineMap(Striped(doc), rows) && Steps(from, n) <= rows.Keys && 12 <= from && from + 8 * n <= 600
    ensures Leads(rows, from, n, from + 8 * n)
    decreases n
  {
    hide GenuineMap, Striped;
    if n > 0 {
      StripedHit(doc, rows, from);
      StripedLeads(doc, rows, from + 8, n - 1);
    }
  }

  // ----- the first call

  // Thirty-two rows from 16 on fill the cache.
  lemma {:induction false} StripedFirst(doc: seq<Byte>)
    requires |doc| == 600
    ensures
      var rows := Filled(Striped(doc), map[], 16, 32, 0, 16, 32);
      GenuineMap(Striped(doc), rows) && rows.Keys == Steps(16, 32)
  {
    hide Listing.Chain, Listing.Streamed, Filled, Steps, WithRows, AllGenuine, GenuineMap, Usable, Leads, Listing.Streamable;
    hide Striped, Trimmed, Listing.Carried, OffsetsOf, FarthestOf, Loose;
    var l, none: map<nat, Row> := Striped(doc), map[];
    StripedStreams(doc);
    StripedStreamed(doc, 16);
    StripedChain(doc, 16, 32);
    StreamedFacts(l, 16, 32);
    var decoded := l.Streamed(16, 32);
    var rows := WithRows(none, decoded);
    NoneGenuine(l);
    WithRowsKeys(none, decoded);
    StepsCount(16, 32);
    assert rows.Keys == Steps(16, 32) && |rows| == |rows.Keys|;
    TrimStep(rows, 32, 16, 16, 16);
    InsertedKeeps(l, none, decoded, 16, 16, 32);
    FilledMiss(l, none, 16, 32, 0, 16, 32);
    StripedLeads(doc, rows, 16, 32);
    FilledThrough(l, rows, 16, 32, 0, 16, 32, 32, 272);
    FilledDone(l, rows, 16, 32, 32, 272, 32);
  }

  // ----- the second call

  // The thirty-two smallest offsets of both grids.
  ghost function Kept32(): set<nat> {
    {0, 8} + Steps(12, 15) + Steps(16, 15)
  }

  lemma {:induction false} KeptCount()
    ensures |Kept32()| == 32
  {
    hide Steps;
    StepsCount(12, 15);
    StepsCount(16, 15);
    forall o ensures !(o in Steps(12, 15) && o in Steps(16, 15)) && (o in Steps(12, 15) + Steps(16, 15) ==> o >= 12) {
      StepsAre(12, 15, o);
      StepsAre(16, 15, o);
    }
    assert |Steps(12, 15) + Steps(16, 15)| == 30;
    assert {0, 8} !! Steps(12, 15) + Steps(16, 15);
    assert Kept32() == {0, 8} + (Steps(12, 15) + Steps(16, 15));
  }

  // Among the offsets of both grids, all others lie past 131.
  lemma {:induction false} KeptAreNearest(o: nat)
    requires o in {0, 8} + Steps(12, 30) + Steps(16, 32)
    ensures o in Kept32() <==> o <= 131
  {
    hide Steps;
    StepsAre(12, 30, o);
    StepsAre(16, 32, o);
    StepsAre(12, 15, o);
    StepsAre(16, 15, o);
  }

  lemma {:induction false} KeptAmong(o: nat)
    requires o in Kept32()
    ensures o in {0, 8} + Steps(12, 30) + Steps(16, 32) && o <= 131
  {
    hide Steps;
    StepsAre(12, 30, o);
    StepsAre(16, 32, o);
    StepsAre(12, 15, o);
    StepsAre(16, 15, o);
  }

  // Pruning both grids around offset 0 keeps those.
  lemma {:induction false} StripedTrimmed(full: map<nat, Row>)
    requires full.Keys == {0, 8} + Steps(12, 30) + Steps(16, 32)
    ensures Trimmed(full, 32, 0, 0, 0).Keys == Kept32()
  {
    hide Steps, Trimmed, Kept32, Pruned;
    var kept := Trimmed(full, 32, 0, 0, 0);
    TrimmedFacts(full, 32, 0, 0, 0);
    ProtectedRange(full, 0, 0);
    KeptCount();
    forall o | o in Kept32() ensures o in full {
      KeptAmong(o);
    }
    SubsetSize(Kept32(), full.Keys);
    assert |kept| == |kept.Keys| && |full| == |full.Keys|;
    forall o | o in Kept32() ensures o in kept {
      NearestKept(full, kept, o);
    }
    SameSize(Kept32(), kept.Keys);
  }

  // A dropped row would leave more than the limit nearer ones.
  lemma {:induction false} NearestKept(full: map<nat, Row>, kept: map<nat, Row>, o: nat)
    requires full.Keys == {0, 8} + Steps(12, 30) + Steps(16, 32) && o in Kept32()
    requires Pruned(full, kept, 0, 0, 0) && |kept.Keys| == 32
    ensures o in kept
  {
    hide Steps, Kept32;
    KeptAmong(o);
    KeptCount();
    if o !in kept {
      if j :| j in kept && j !in Kept32() {
        KeptAreNearest(j);
      } else {
        SubsetSize(kept.Keys, Kept32() - {o});
      }
    }
  }

  lemma {:induction false} SameSize(a: set<nat>, b: set<nat>)
    requires a <= b && |a| == |b|
    ensures a == b
  {
    if x :| x in b && x !in a {
      SubsetSize(a, b - {x});
    }
  }

  // A missing row behind a full cache is one too many, as all before it are protected.
  lemma {:induction false} OverflowStep(doc: seq<Byte>, rows: map<nat, Row>, cached: nat, cursor: nat,
        limit: nat) returns (now: map<nat, Row>)
    requires |doc| == 600 && GenuineMap(Striped(doc), rows) && cached < limit == 32 && 12 <= cursor <= 592
    requires AllBefore(rows, cursor) && |rows| >= limit
    ensures GenuineMap(Striped(doc), now) && AllBefore(now, cursor + 8) && |now| == |rows| + 1
    ensures Filled(Striped(doc), rows, 0, limit, cached, cursor, limit)
         == Filled(Striped(doc), now, 0, limit, cached + 1, cursor + 8, limit)
  {
    hide Listing.Streamed, Filled, AllGenuine, GenuineMap, Usable, Striped, Inserted, Listing.Streamable, Listing.Carried;
    var l := Striped(doc);
    StripedStreams(doc);
    var decoded := l.Streamed(cursor, Batch(limit - cached));
    StreamedFacts(l, cursor, Batch(limit - cached));
    now := Inserted(rows, decoded, 0, cursor, limit);
    InsertedKeeps(l, rows, decoded, 0, cursor, limit);
    OneMore(rows, decoded, cursor);
    FilledMiss(l, rows, 0, limit, cached, cursor, limit);
    StripedHit(doc, now, cursor);
    FilledHit(l, now, 0, limit, cached, cursor, limit);
  }

  // From there on each row that is still wanted is one more.
  lemma {:induction false} StripedOverflow(doc: seq<Byte>, rows: map<nat, Row>, left: nat, cursor: nat, limit: nat)
    requires |doc| == 600 && GenuineMap(Striped(doc), rows) && left <= limit == 32 && 12 <= cursor <= 600 - 8 * left
    requires AllBefore(rows, cursor) && |rows| >= limit
    ensures |Filled(Striped(doc), rows, 0, limit, limit - left, cursor, limit)| == |rows| + left
    decreases left
  {
    hide Filled, GenuineMap, Striped, AllBefore;
    if left == 0 {
      FilledDone(Striped(doc), rows, 0, limit, limit, cursor, limit);
    } else {
      var now := OverflowStep(doc, rows, limit - left, cursor, limit);
      StripedOverflow(doc, now, left - 1, cursor + 8, limit);
    }
  }

  ghost predicate AllBefore(rows: map<nat, Row>, cursor: nat) {
    forall o :: o in rows ==> o < cursor
  }

  // A run inserted behind a full cache leaves the cache and the run's first row.
  lemma {:induction false} OneMore(rows: map<nat, Row>, decoded: seq<Row>, cursor: nat)
    requires (forall o :: o in rows ==> o < cursor) && |rows| >= 32 && decoded != [] && decoded[0].offset == cursor
    requires forall r :: r in decoded ==> cursor <= r.offset
    ensures Inserted(rows, decoded, 0, cursor, 32).Keys == rows.Keys + {cursor}
    ensures |Inserted(rows, decoded, 0, cursor, 32)| == |rows| + 1
  {
    hide Trimmed, WithRows, Farther, Protected;
    var full := WithRows(rows, decoded);
    TrimmedFacts(full, 32, cursor, 0, cursor);
    RangeOfRun(rows, decoded, cursor);
    assert |rows.Keys + {cursor}| == |rows| + 1 by { assert |rows| == |rows.Keys| && cursor !in rows.Keys; }
    KeepsRange(full, Inserted(rows, decoded, 0, cursor, 32), cursor, rows.Keys + {cursor});
  }

  lemma {:induction false} RangeOfRun(rows: map<nat, Row>, decoded: seq<Row>, cursor: nat)
    requires (forall o :: o in rows ==> o < cursor) && decoded != [] && decoded[0].offset == cursor
    requires forall r :: r in decoded ==> cursor <= r.offset
    ensures Protected(WithRows(rows, decoded), 0, cursor) == rows.Keys + {cursor}
  {
    hide WithRows;
    WithRowsKeys(rows, decoded);
    assert decoded[0] in decoded;
  }

  // Where more than the limit is protected, pruning leaves just that.
  lemma {:induction false} KeepsRange(full: map<nat, Row>, now: map<nat, Row>, cursor: nat, range: set<nat>)
    requires Pruned(full, now, cursor, 0, cursor) && range == Protected(full, 0, cursor) && |range| > 32
    requires |now| == Min(|full|, Max(32, |range|))
    ensures now.Keys == range && |now| == |range|
  {
    hide Farther;
    SubsetSize(range, full.Keys);
    assert |now| == |now.Keys| && |full| == |full.Keys|;
    SameSize(range, now.Keys);
  }

  // The rows decoded at 0 join the others, and the nearest thirty-two stay.
  lemma {:induction false} StripedBoth(doc: seq<Byte>, rows: map<nat, Row>) returns (now: map<nat, Row>)
    requires |doc| == 600 && GenuineMap(Striped(doc), rows) && rows.Keys == Steps(16, 32)
    ensures GenuineMap(Striped(doc), now) && now.Keys == Kept32()
    ensures Filled(Striped(doc), rows, 0, 32, 0, 0, 32) == Filled(Striped(doc), now, 0, 32, 0, 0, 32)
  {
    hide Listing.Chain, Listing.Streamed, Listing.RowAt, Listing.Carried, Filled, Steps, WithRows, Trimmed, AllGenuine, GenuineMap;
    hide Usable, Listing.Streamable, Striped, OffsetsOf, Kept32;
    var l := Striped(doc);
    StripedStreams(doc);
    StripedStreamed(doc, 0);
    StripedStart(doc);
    StreamedFacts(l, 0, 32);
    var decoded := l.Streamed(0, 32);
    WithRowsKeys(rows, decoded);
    assert WithRows(rows, decoded).Keys == {0, 8} + Steps(12, 30) + Steps(16, 32);
    StripedTrimmed(WithRows(rows, decoded));
    now := Inserted(rows, decoded, 0, 0, 32);
    InsertedKeeps(l, rows, decoded, 0, 0, 32);
    assert 0 !in rows by { StepsAre(16, 32, 0); }
    FilledMiss(l, rows, 0, 32, 0, 0, 32);
  }

  // Thirty-two rows from 0 on, after the other thirty-two.
  lemma {:induction false} StripedSecond(doc: seq<Byte>, rows: map<nat, Row>)
    requires |doc| == 600 && GenuineMap(Striped(doc), rows) && rows.Keys == Steps(16, 32)
    ensures |Filled(Striped(doc), rows, 0, 32, 0, 0, 32)| == 47
  {
    hide Filled, Steps, GenuineMap, Leads, Striped, Kept32;
    var now := StripedBoth(doc, rows);
    StripedWalk(doc, now);
    FilledThrough(Striped(doc), now, 0, 32, 0, 0, 32, 17, 132);
    KeptCount();
    forall o | o in now ensures o < 132 {
      KeptAmong(o);
    }
    assert |now| == |now.Keys|;
    StripedOverflow(doc, now, 15, 132, 32);
  }

  // The rows of the listing among them lead up to 132.
  lemma {:induction false} StripedWalk(doc: seq<Byte>, now: map<nat, Row>)
    requires |doc| == 600 && GenuineMap(Striped(doc), now) && now.Keys == Kept32()
    ensures Leads(now, 0, 17, 132)
  {
    hide Listing.RowAt, Listing.Carried, Steps, GenuineMap, Listing.Streamable, Usable, Striped;
    StripedHit(doc, now, 0);
    StripedHit(doc, now, 8);
    StripedLeads(doc, now, 12, 15);
    assert Leads(now, 8, 16, 132);
  }

  // Asked in a data region, a cache with no row over the offset sets out from the grid.
  lemma {:induction false} StripedLocated(doc: seq<Byte>, rows: map<nat, Row>, points: set<nat>, offset: nat)
    requires |doc| == 600 && (offset == 0 || offset == 16) && (forall o :: o in rows ==> o > offset)
    ensures WellFormed(Striped(doc).info.spans)
    ensures Located(Striped(doc), rows, points, offset, 32) == Search(rows, Some(offset))
  {
    StripedRegion(doc);
    hide RegionsOf, RegionAt;
    RegionIs(Striped(doc), DataSpan(0, 599), offset);
  }

  /**
   * The limit is 32. Thirty-two rows from 16 on, then thirty-two rows from 0 on: the first call leaves 32 rows
   * cached and the second 47, because rows of both grids lie in the range that it protects.
   */
  method StripedOverfull(doc: seq<Byte>) returns (cache: DisasmCache, first: nat)
    requires |doc| == 600
    ensures fresh(cache) && cache.Valid(Striped(doc)) && cache.maxRows == 32
    ensures first == 32 && |cache.rows| == 47
  {
    hide Usable, Healthy, Exact, Filled, Located, RowsMet, Unbroken, OwnRows, FreshListing, CanonicalListing, Steps, GenuineMap;
    hide Listing.Carried, RegionsOf;
    var l := Striped(doc);
    StripedStreams(doc);
    cache := new DisasmCache(l, 32);
    StripedLocated(doc, map[], cache.checkpoints, 16);
    var rows := cache.CollectRows(l, 16, 32);
    StripedFirst(doc);
    StepsCount(16, 32);
    assert |cache.rows| == |cache.rows.Keys|;
    first := |cache.rows|;
    StepsFrom(16, 32);
    StripedLocated(doc, cache.rows, cache.checkpoints, 0);
    StripedSecond(doc, cache.rows);
    rows := cache.CollectRows(l, 0, 32);
  }

  lemma {:induction false} StepsFrom(from: nat, n: nat)
    ensures forall o :: o in Steps(from, n) ==> o >= from
  {
    hide Steps;
    forall o | o in Steps(from, n) ensures o >= from {
      StepsAre(from, n, o);
    }
  }
}
