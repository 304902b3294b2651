/**
 * The bounded cache of decoded rows. Whatever the spans, an answer is an unbroken run of rows that show the
 * document. Where streaming is exact the rows are the decoder's own at their offsets, and when the spans are
 * gridded too all of them lie on one canonical chain: whatever was cached or pruned before, an answer is the
 * same as decoding from scratch. When they are not, what was asked before can change the answer.
 */
module DisasmCaches {
  import opened Common
  import opened Regions
  import opened Decoding
  import opened Streaming
  import opened RowGrids

  const PREFETCH_ROWS: nat := 32
  const CHECKPOINT_STRIDE: nat := 32

  // ----- rows of the chain, as the cache collects them

  lemma {:induction false} ChainEnds(l: Listing, offset: nat, n: nat, m: nat)
    requires n <= m && |l.Chain(offset, n)| == n
    requires (if n == 0 then offset else l.Chain(offset, n)[n - 1].End()) >= |l.doc|
    ensures l.Chain(offset, m) == l.Chain(offset, n)
    decreases n
  {
    hide Listing.RowAt;
    if n > 0 {
      var next := l.RowAt(offset).End();
      assert l.Chain(offset, n)[1..] == l.Chain(next, n - 1);
      ChainEnds(l, next, n - 1, m - 1);
    }
  }

  lemma {:induction false} ChainGrows(l: Listing, offset: nat, n: nat, end: nat)
    requires |l.Chain(offset, n)| == n && end == (if n == 0 then offset else l.Chain(offset, n)[n - 1].End()) && end < |l.doc|
    ensures l.Chain(offset, n + 1) == l.Chain(offset, n) + [l.RowAt(end)]
    decreases n
  {
    hide Listing.RowAt;
    if n > 0 {
      var next := l.RowAt(offset).End();
      assert l.Chain(offset, n)[1..] == l.Chain(next, n - 1);
      ChainGrows(l, next, n - 1, end);
    } else {
      assert l.Chain(l.RowAt(offset).End(), 0) == [];
    }
  }

  /** Every row of a listing that starts on the chain is the chain's own row at its offset. */
  lemma {:induction false} ChainRowsOnChain(l: Listing, base: nat, offset: nat, n: nat)
    requires Reaches(l, base, offset)
    ensures forall r :: r in l.Chain(offset, n) ==> OnChain(l, base, r.offset) && r == l.RowAt(r.offset)
    decreases n
  {
    hide Listing.RowAt, Reaches;
    if n > 0 && offset < |l.doc| {
      ReachStep(l, base, offset);
      ChainRowsOnChain(l, base, l.RowAt(offset).End(), n - 1);
    }
  }

  // The row that covers a byte is among the rows listed from before it.
  lemma {:induction false} CoveringListed(l: Listing, from: nat, x: nat, n: nat)
    requires from <= x < |l.doc| && n > x - from
    ensures exists r :: r in l.Chain(from, n) && r.offset == Covering(l, from, x)
    decreases n
  {
    hide Listing.RowAt;
    var next := l.RowAt(from).End();
    assert l.Chain(from, n)[0] == l.RowAt(from) && l.Chain(from, n)[1..] == l.Chain(next, n - 1);
    if x >= next {
      CoveringListed(l, next, x, n - 1);
      var r :| r in l.Chain(next, n - 1) && r.offset == Covering(l, next, x);
      assert r in l.Chain(from, n);
    } else {
      assert l.Chain(from, n)[0].offset == from;
    }
  }

  // ----- the far end of a set of offsets

  // `k` goes before `j`: it is farther from the anchor, or as far and later.
  ghost predicate Farther(k: nat, j: nat, anchor: nat) {
    AbsDiff(k, anchor) > AbsDiff(j, anchor) || (AbsDiff(k, anchor) == AbsDiff(j, anchor) && k >= j)
  }

  lemma {:induction false} MinExists(s: set<nat>) returns (m: nat)
    requires s != {}
    ensures m in s && forall k :: k in s ==> m <= k
    decreases |s|
  {
    var x :| x in s;
    var rest := s - {x};
    if rest == {} {
      assert s == {x};
      m := x;
    } else {
      var y := MinExists(rest);
      m := if x <= y then x else y;
      assert forall k :: k in s ==> k == x || k in rest;
    }
  }

  lemma {:induction false} MaxExists(s: set<nat>) returns (m: nat)
    requires s != {}
    ensures m in s && forall k :: k in s ==> k <= m
    decreases |s|
  {
    var x :| x in s;
    var rest := s - {x};
    if rest == {} {
      assert s == {x};
      m := x;
    } else {
      var y := MaxExists(rest);
      m := if x >= y then x else y;
      assert forall k :: k in s ==> k == x || k in rest;
    }
  }

  lemma {:induction false} MaxIs(s: set<nat>)
    requires s != {}
    ensures exists m :: m in s && forall k :: k in s ==> k <= m
  {
    var m := MaxExists(s);
  }

  lemma {:induction false} MinIs(s: set<nat>)
    requires s != {}
    ensures exists m :: m in s && forall k :: k in s ==> m <= k
  {
    var m := MinExists(s);
  }

  ghost function First(s: set<nat>): (m: nat)
    requires s != {}
    ensures m in s && forall k :: k in s ==> m <= k
  {
    MinIs(s);
    var m :| m in s && forall k :: k in s ==> m <= k;
    m
  }

  ghost function Last(s: set<nat>): (m: nat)
    requires s != {}
    ensures m in s && forall k :: k in s ==> k <= m
  {
    MaxIs(s);
    var m :| m in s && forall k :: k in s ==> k <= m;
    m
  }

  // The offset that goes first: the first or the last one, whichever lies farther from the anchor.
  ghost function FarthestOf(s: set<nat>, anchor: nat): (o: nat)
    requires s != {}
    ensures o in s && forall j :: j in s ==> Farther(o, j, anchor)
  {
    if AbsDiff(First(s), anchor) > AbsDiff(Last(s), anchor) then First(s) else Last(s)
  }

  /** Pick the first or the last offset, whichever lies farther from the anchor; the last on a tie. */
  method FarEnd(s: set<nat>, anchor: nat) returns (remove: nat)
    requires s != {}
    ensures remove == FarthestOf(s, anchor)
    ensures remove in s && forall j :: j in s ==>
      AbsDiff(remove, anchor) > AbsDiff(j, anchor) || (AbsDiff(remove, anchor) == AbsDiff(j, anchor) && remove >= j)
  {
    ghost var lo := MinExists(s);
    var first :| first in s && forall k :: k in s ==> first <= k;
    ghost var hi := MaxExists(s);
    var last :| last in s && forall k :: k in s ==> k <= last;
    remove := if AbsDiff(first, anchor) > AbsDiff(last, anchor) then first else last;
  }

  // The greatest offset of a set within bounds.
  ghost function LastOf(s: set<nat>, lo: nat, hi: nat): (found: Option<nat>)
    ensures found.None? ==> forall k :: k in s ==> k < lo || hi < k
    ensures found.Some? ==> (found.value in s && lo <= found.value <= hi && forall k :: k in s && k <= hi ==> k <= found.value)
  {
    var within := set k | k in s && lo <= k <= hi;
    assert forall k :: k in s && lo <= k <= hi ==> k in within;
    if within == {} then None
    else
      MaxIs(within);
      var last :| last in within && forall k :: k in within ==> k <= last;
      Some(last)
  }

  /** Look it up. */
  method LastWithin(s: set<nat>, lo: nat, hi: nat) returns (found: Option<nat>)
    ensures found == LastOf(s, lo, hi)
  {
    var within := set k | k in s && lo <= k <= hi;
    assert forall k :: k in s && lo <= k <= hi ==> k in within;
    if within == {} {
      return None;
    }
    MaxIs(within);
    var last :| last in within && forall k :: k in within ==> k <= last;
    return Some(last);
  }

  // ----- the cache

  // What every listing asks for: spans that are not reversed and a decoder that keeps its promises.
  ghost predicate Usable(l: Listing) {
    Sound(l.backend) && |l.doc| <= U64_MAX && WellFormed(l.info.spans)
  }

  // A row that shows the document at its offset, no more than a row can; the decoder's own row there, where
  // streaming is exact.
  ghost predicate Genuine(l: Listing, offset: nat, row: Row) {
    && row.offset == offset < row.End() <= Min(|l.doc|, offset + MAX_ROW_BYTES) && row.bytes == l.doc[offset..row.End()]
    && (l.Carried() ==> row == l.RowAt(offset))
  }

  ghost predicate AllGenuine(l: Listing, rows: seq<Row>) {
    forall r :: r in rows ==> Genuine(l, r.offset, r)
  }

  // The rows start on the chain that sets out from `base`.
  ghost predicate ChainRows(l: Listing, base: nat, rows: seq<Row>) {
    forall r :: r in rows ==> OnChain(l, base, r.offset)
  }

  // What holds of any listing: cached rows show the document, and every region start is a checkpoint.
  ghost predicate Consistent(l: Listing, rows: map<nat, Row>, checkpoints: set<nat>, regionStarts: set<nat>) {
    && Usable(l)
    && (forall o :: o in rows ==> Genuine(l, o, rows[o]))
    && (forall o :: o in checkpoints ==> o < |l.doc|)
    && regionStarts == StartsOf(RegionsOf(l.info.spans, |l.doc|))
    && regionStarts <= checkpoints
  }

  // Everything in `s` is a row start of one chain.
  ghost predicate AllOn(l: Listing, base: nat, s: set<nat>) {
    forall o :: o in s ==> OnChain(l, base, o)
  }

  // Whatever is new in `after` starts a row of one chain.
  ghost predicate Grown(l: Listing, base: nat, before: set<nat>, after: set<nat>) {
    forall o :: o in after ==> o in before || OnChain(l, base, o)
  }

  // The cache holds rows of one chain only, within its limit.
  ghost predicate Snug(l: Listing, base: nat, rows: map<nat, Row>, maxRows: nat) {
    AllOn(l, base, rows.Keys) && |rows| <= maxRows
  }

  // `path` holds every row start of a chain from `lo` up to `end`.
  ghost predicate HoldsPath(l: Listing, base: nat, path: set<nat>, lo: nat, end: nat) {
    forall o: nat :: OnChain(l, base, o) && lo <= o < end ==> o in path
  }

  // ----- walking cached rows

  // Going from row to row, `n` cached rows lead from `start` to `cursor`.
  ghost predicate Leads(rows: map<nat, Row>, start: nat, n: nat, cursor: nat)
    decreases n
  {
    if n == 0 then start == cursor
    else start in rows && Leads(rows, rows[start].End(), n - 1, cursor)
  }

  // The cached rows met from `start` on, at most `n` of them.
  ghost function RowsMet(rows: map<nat, Row>, start: nat, n: nat): seq<Row>
    decreases n
  {
    if n == 0 || start !in rows then [] else [rows[start]] + RowsMet(rows, rows[start].End(), n - 1)
  }

  // `n` rows from `start` on are cached, or all that remain.
  ghost predicate Holds(l: Listing, rows: map<nat, Row>, start: nat, n: nat)
    decreases n
  {
    n == 0 || start >= |l.doc| || (start in rows && Holds(l, rows, rows[start].End(), n - 1))
  }

  ghost predicate GenuineMap(l: Listing, rows: map<nat, Row>) {
    forall o :: o in rows ==> Genuine(l, o, rows[o])
  }

  lemma {:induction false} LeadsOn(l: Listing, rows: map<nat, Row>, start: nat, n: nat, cursor: nat)
    requires GenuineMap(l, rows) && Leads(rows, start, n, cursor) && start <= |l.doc|
    ensures start <= cursor <= |l.doc|
    decreases n
  {
    hide Listing.Carried, Listing.RowAt;
    if n > 0 {
      LeadsOn(l, rows, rows[start].End(), n - 1, cursor);
    }
  }

  lemma {:induction false} LeadsStep(rows: map<nat, Row>, start: nat, n: nat, cursor: nat)
    requires Leads(rows, start, n, cursor) && cursor in rows
    ensures Leads(rows, start, n + 1, rows[cursor].End())
    ensures RowsMet(rows, start, n + 1) == RowsMet(rows, start, n) + [rows[cursor]]
    decreases n
  {
    if n > 0 {
      LeadsStep(rows, rows[start].End(), n - 1, cursor);
    }
  }

  // Rows before the cursor that stayed cached still lead to it.
  lemma {:induction false} LeadsKept(l: Listing, rows: map<nat, Row>, kept: map<nat, Row>, start: nat, n: nat, cursor: nat)
    requires GenuineMap(l, rows) && Leads(rows, start, n, cursor) && start <= |l.doc|
    requires forall o :: o in rows && start <= o < cursor ==> o in kept && kept[o] == rows[o]
    ensures Leads(kept, start, n, cursor)
    decreases n
  {
    hide Listing.Carried, Listing.RowAt;
    if n > 0 {
      LeadsOn(l, rows, rows[start].End(), n - 1, cursor);
      LeadsKept(l, rows, kept, rows[start].End(), n - 1, cursor);
    }
  }

  // A walk that is long enough, or has reached the end of the document, is all that was wanted.
  lemma {:induction false} LeadsHolds(l: Listing, rows: map<nat, Row>, start: nat, n: nat, cursor: nat, target: nat)
    requires Leads(rows, start, n, cursor) && n <= target && (n == target || cursor >= |l.doc|)
    ensures Holds(l, rows, start, target)
    decreases n
  {
    if n > 0 {
      LeadsHolds(l, rows, rows[start].End(), n - 1, cursor, target - 1);
    }
  }

  // A walk over rows of which `target` are held stops early only at the end of the document.
  lemma {:induction false} HeldNext(l: Listing, rows: map<nat, Row>, start: nat, n: nat, cursor: nat, target: nat)
    requires GenuineMap(l, rows) && Holds(l, rows, start, target)
    requires Leads(rows, start, n, cursor) && n < target && cursor !in rows
    ensures cursor >= |l.doc|
    decreases n
  {
    hide Listing.Carried, Listing.RowAt;
    if n > 0 {
      assert Genuine(l, start, rows[start]);
      HeldNext(l, rows, rows[start].End(), n - 1, cursor, target - 1);
    }
  }

  /** The rows of a walk follow one another without a gap. */
  lemma {:induction false} WalkContiguous(l: Listing, rows: map<nat, Row>, start: nat, n: nat, cursor: nat)
    requires GenuineMap(l, rows) && Leads(rows, start, n, cursor)
    ensures |RowsMet(rows, start, n)| == n && l.Contiguous(RowsMet(rows, start, n), start)
    ensures cursor == if n == 0 then start else RowsMet(rows, start, n)[n - 1].End()
    decreases n
  {
    hide Listing.Carried, Listing.RowAt;
    if n > 0 {
      WalkContiguous(l, rows, rows[start].End(), n - 1, cursor);
      assert RowsMet(rows, start, n)[1..] == RowsMet(rows, rows[start].End(), n - 1);
    }
  }

  /** Where streaming is exact, they are the listing's own rows. */
  lemma {:induction false} WalkIsChain(l: Listing, rows: map<nat, Row>, start: nat, n: nat, cursor: nat)
    requires GenuineMap(l, rows) && Leads(rows, start, n, cursor) && l.Carried()
    ensures RowsMet(rows, start, n) == l.Chain(start, n)
    decreases n
  {
    hide Listing.Carried, Listing.RowAt;
    if n > 0 {
      assert Genuine(l, start, rows[start]);
      WalkIsChain(l, rows, rows[start].End(), n - 1, cursor);
    }
  }

  // A walk of `n` rows meets `n` cached offsets.
  lemma {:induction false} WalkCounts(l: Listing, rows: map<nat, Row>, start: nat, n: nat, cursor: nat)
      returns (path: set<nat>)
    requires GenuineMap(l, rows) && Leads(rows, start, n, cursor)
    ensures path <= rows.Keys && |path| == n && (forall o :: o in path ==> start <= o) && n <= |rows|
    ensures forall r :: r in RowsMet(rows, start, n) ==> r.offset in path
    decreases n
  {
    hide Listing.Carried, Listing.RowAt;
    if n == 0 {
      path := {};
    } else {
      assert Genuine(l, start, rows[start]);
      var rest := WalkCounts(l, rows, rows[start].End(), n - 1, cursor);
      path := rest + {start};
    }
    SubsetSize(path, rows.Keys);
  }

  // `path` holds the row starts of one chain that a walk has met.
  ghost predicate Trail(l: Listing, base: nat, start: nat, n: nat, cursor: nat, path: set<nat>) {
    && Reaches(l, base, cursor) && start <= cursor
    && |path| == n && HoldsPath(l, base, path, start, cursor) && (forall o :: o in path ==> start <= o < cursor)
  }

  lemma {:induction false} TrailNone(l: Listing, base: nat, start: nat)
    requires Reaches(l, base, start)
    ensures Trail(l, base, start, 0, start, {})
  {
  }

  lemma {:induction false} TrailStep(l: Listing, base: nat, start: nat, n: nat, cursor: nat, path: set<nat>)
    requires Trail(l, base, start, n, cursor, path) && cursor < |l.doc|
    ensures Trail(l, base, start, n + 1, l.RowAt(cursor).End(), path + {cursor})
    ensures HoldsPath(l, base, path + {cursor}, start, cursor + 1) && |path + {cursor}| == n + 1
    ensures OnChain(l, base, cursor) && start <= cursor
  {
    hide Listing.RowAt, Reaches;
    var next := l.RowAt(cursor).End();
    ReachStep(l, base, cursor);
    forall o: nat | OnChain(l, base, o) && start <= o < next ensures o in path + {cursor} {
      if o > cursor {
        NoneInside(l, base, cursor, o);
      }
    }
    assert cursor !in path;
  }

  ghost function StartsOf(regions: seq<CodeSpan>): set<nat> {
    set r | r in regions :: r.start
  }

  // The cached offsets of a protected range.
  ghost function Protected(rows: map<nat, Row>, lo: nat, hi: nat): set<nat> {
    set o | o in rows && lo <= o <= hi
  }

  // `kept` is what is left of `rows` after the farthest unprotected rows were dropped.
  ghost predicate Pruned(rows: map<nat, Row>, kept: map<nat, Row>, anchor: nat, lo: nat, hi: nat) {
    && (forall o :: o in kept ==> o in rows && kept[o] == rows[o])
    && (forall o :: o in rows && lo <= o <= hi ==> o in kept)
    && (forall o, j :: o in rows && o !in kept && j in kept && !(lo <= j <= hi) ==> Farther(o, j, anchor))
  }

  // The offsets that may be dropped.
  ghost function Loose(rows: map<nat, Row>, lo: nat, hi: nat): set<nat> {
    set o | o in rows && !(lo <= o <= hi)
  }

  lemma {:induction false} DropOne(rows: map<nat, Row>, o: nat)
    requires o in rows
    ensures |rows - {o}| == |rows| - 1 && (rows - {o}).Keys == rows.Keys - {o}
  {
    assert (rows - {o}).Keys == rows.Keys - {o} && |rows| == |rows.Keys| && |rows - {o}| == |(rows - {o}).Keys|;
  }

  // What pruning leaves: the farthest unprotected row goes until the rest fits or is protected.
  ghost function Trimmed(rows: map<nat, Row>, limit: nat, anchor: nat, lo: nat, hi: nat): map<nat, Row>
    decreases |rows|
  {
    if |rows| <= limit || Loose(rows, lo, hi) == {} then rows
    else
      var o := FarthestOf(Loose(rows, lo, hi), anchor);
      DropOne(rows, o);
      Trimmed(rows - {o}, limit, anchor, lo, hi)
  }

  lemma {:induction false} TrimStep(rows: map<nat, Row>, limit: nat, anchor: nat, lo: nat, hi: nat)
    ensures
      Trimmed(rows, limit, anchor, lo, hi) ==
        if |rows| <= limit || Loose(rows, lo, hi) == {} then rows
        else Trimmed(rows - {FarthestOf(Loose(rows, lo, hi), anchor)}, limit, anchor, lo, hi)
  {
  }

  /** Pruning drops the farthest rows, keeps the protected ones, and is over the limit exactly by what they are over it. */
  lemma {:induction false} TrimmedFacts(rows: map<nat, Row>, limit: nat, anchor: nat, lo: nat, hi: nat)
    ensures Pruned(rows, Trimmed(rows, limit, anchor, lo, hi), anchor, lo, hi)
    ensures |Trimmed(rows, limit, anchor, lo, hi)| == Min(|rows|, Max(limit, |Protected(rows, lo, hi)|))
    decreases |rows|
  {
    hide Farther, Trimmed, FarthestOf;
    TrimStep(rows, limit, anchor, lo, hi);
    SubsetSize(Protected(rows, lo, hi), rows.Keys);
    if Loose(rows, lo, hi) == {} {
      forall o | o in rows ensures o in Protected(rows, lo, hi) {
        assert o !in Loose(rows, lo, hi);
      }
      assert Protected(rows, lo, hi) == rows.Keys;
    } else if |rows| > limit {
      var o := FarthestOf(Loose(rows, lo, hi), anchor);
      DropOne(rows, o);
      TrimmedFacts(rows - {o}, limit, anchor, lo, hi);
      assert Protected(rows - {o}, lo, hi) == Protected(rows, lo, hi);
      SubsetSize(Protected(rows, lo, hi), (rows - {o}).Keys);
      TrimDrops(rows, Trimmed(rows - {o}, limit, anchor, lo, hi), anchor, lo, hi);
    }
  }

  lemma {:induction false} TrimDrops(rows: map<nat, Row>, kept: map<nat, Row>, anchor: nat, lo: nat, hi: nat)
    requires Loose(rows, lo, hi) != {} && Pruned(rows - {FarthestOf(Loose(rows, lo, hi), anchor)}, kept, anchor, lo, hi)
    ensures Pruned(rows, kept, anchor, lo, hi)
  {
    hide Farther, FarthestOf;
    var far := FarthestOf(Loose(rows, lo, hi), anchor);
    forall o, j | o in rows && o !in kept && j in kept && !(lo <= j <= hi) ensures Farther(o, j, anchor) {
      assert j in Loose(rows, lo, hi);
    }
  }

  // A protected range holds no more rows than offsets.
  lemma {:induction false} ProtectedRange(rows: map<nat, Row>, lo: nat, hi: nat)
    requires lo <= hi
    ensures |Protected(rows, lo, hi)| <= hi - lo + 1
    decreases hi - lo
  {
    if lo == hi {
      SubsetSize(Protected(rows, lo, hi), {lo});
    } else {
      ProtectedRange(rows, lo, hi - 1);
      SubsetSize(Protected(rows, lo, hi), Protected(rows, lo, hi - 1) + {hi});
    }
  }

  // The cached rows with a decoded run added.
  ghost function WithRows(rows: map<nat, Row>, decoded: seq<Row>): map<nat, Row> {
    if decoded == [] then rows
    else
      var row := decoded[|decoded| - 1];
      WithRows(rows, decoded[..|decoded| - 1])[row.offset := row]
  }

  // Where a decoded run leaves checkpoints: at its first row and every 32 rows from there.
  ghost function Strides(decoded: seq<Row>): set<nat> {
    if decoded == [] then {}
    else
      var k := |decoded| - 1;
      Strides(decoded[..k]) + if k % CHECKPOINT_STRIDE == 0 then {decoded[k].offset} else {}
  }

  /** A run leaves checkpoints at its rows 0, 32, 64 and so on, and nowhere else. */
  lemma {:induction false} StridesMean(decoded: seq<Row>)
    ensures forall k :: 0 <= k < |decoded| && k % 32 == 0 ==> decoded[k].offset in Strides(decoded)
    ensures forall o :: o in Strides(decoded) ==> exists k :: 0 <= k < |decoded| && k % 32 == 0 && decoded[k].offset == o
  {
    if decoded != [] {
      var k := |decoded| - 1;
      StridesMean(decoded[..k]);
      assert forall i :: 0 <= i < k ==> decoded[..k][i] == decoded[i];
    }
  }

  // `kept` is what is left of `points` once at most `limit` of them, the nearest, are not region starts.
  ghost predicate PrunedPoints(points: set<nat>, kept: set<nat>, starts: set<nat>, anchor: nat, limit: nat) {
    && kept <= points && points * starts <= kept
    && |kept - starts| == Min(|points - starts|, limit)
    && forall o, j :: o in points - kept && j in kept - starts ==> Farther(o, j, anchor)
  }

  lemma {:induction false} PrunedPointsFacts(points: set<nat>, kept: set<nat>, starts: set<nat>, anchor: nat, limit: nat)
    requires PrunedPoints(points, kept, starts, anchor, limit)
    ensures kept <= points && points * starts <= kept && |kept - starts| <= limit
  {
  }

  lemma {:induction false} WithRowsHolds(rows: map<nat, Row>, decoded: seq<Row>, k: nat)
    ensures forall o :: o in rows ==> o in WithRows(rows, decoded)
    ensures k < |decoded| ==> decoded[k].offset in WithRows(rows, decoded)
    decreases |decoded|
  {
    if decoded != [] {
      WithRowsHolds(rows, decoded[..|decoded| - 1], k);
    }
  }

  lemma {:induction false} RunOfNone(rows: map<nat, Row>)
    ensures WithRows(rows, []) == rows && Strides([]) == {}
  {
  }

  lemma {:induction false} RunSnoc(rows: map<nat, Row>, decoded: seq<Row>, i: nat)
    requires i < |decoded|
    ensures WithRows(rows, decoded[..i + 1]) == WithRows(rows, decoded[..i])[decoded[i].offset := decoded[i]]
    ensures Strides(decoded[..i + 1]) == Strides(decoded[..i]) + if i % CHECKPOINT_STRIDE == 0 then {decoded[i].offset} else {}
  {
    assert decoded[..i + 1][..i] == decoded[..i];
  }

  lemma {:induction false} RunKeys(l: Listing, base: nat, rows: map<nat, Row>, decoded: seq<Row>)
    requires ChainRows(l, base, decoded)
    ensures Grown(l, base, rows.Keys, WithRows(rows, decoded).Keys) && AllOn(l, base, Strides(decoded))
    decreases |decoded|
  {
    hide OnChain;
    if decoded != [] {
      RunKeys(l, base, rows, decoded[..|decoded| - 1]);
    }
  }

  // Decoded rows that all start at or after `cursor` leave the rows before it alone.
  lemma {:induction false} RunKeepsBefore(rows: map<nat, Row>, decoded: seq<Row>, cursor: nat)
    requires forall r :: r in decoded ==> cursor <= r.offset
    ensures forall o :: o in rows && o < cursor ==> o in WithRows(rows, decoded) && WithRows(rows, decoded)[o] == rows[o]
    decreases |decoded|
  {
    if decoded != [] {
      RunKeepsBefore(rows, decoded[..|decoded| - 1], cursor);
    }
  }

  lemma {:induction false} ConsistentAdd(l: Listing, rows: map<nat, Row>, checkpoints: set<nat>,
        regionStarts: set<nat>, row: Row)
    requires Consistent(l, rows, checkpoints, regionStarts) && Genuine(l, row.offset, row)
    ensures Consistent(l, rows[row.offset := row], checkpoints, regionStarts)
    ensures Consistent(l, rows[row.offset := row], checkpoints + {row.offset}, regionStarts)
  {
    hide Usable, RegionsOf, Listing.RowAt, Listing.Carried;
    assert row.offset < |l.doc|;
    hide Genuine;
  }

  lemma {:induction false} ConsistentFacts(l: Listing, rows: map<nat, Row>, checkpoints: set<nat>,
        regionStarts: set<nat>)
    requires Consistent(l, rows, checkpoints, regionStarts)
    ensures Usable(l) && WellFormed(l.info.spans) && regionStarts <= checkpoints && GenuineMap(l, rows)
    ensures regionStarts == StartsOf(RegionsOf(l.info.spans, |l.doc|))
    ensures forall o :: o in checkpoints ==> o < |l.doc|
    ensures l.Carried() ==> l.Streamable()
  {
    hide Sound, Genuine, RegionsOf, Listing.Carried;
  }

  lemma {:induction false} ConsistentShrink(l: Listing, rows: map<nat, Row>, kept: map<nat, Row>,
        checkpoints: set<nat>, points: set<nat>, regionStarts: set<nat>)
    requires Consistent(l, rows, checkpoints, regionStarts) && points <= checkpoints && regionStarts <= points
    requires forall o :: o in kept ==> o in rows && kept[o] == rows[o]
    ensures Consistent(l, kept, points, regionStarts)
  {
    hide Usable, Genuine, RegionsOf;
  }

  // The protected rows of one chain are on the path.
  lemma {:induction false} ProtectedOnPath(l: Listing, base: nat, rows: map<nat, Row>, path: set<nat>, lo: nat, hi: nat)
    requires AllOn(l, base, rows.Keys) && HoldsPath(l, base, path, lo, hi + 1)
    ensures |Protected(rows, lo, hi)| <= |path|
  {
    hide OnChain;
    SubsetSize(Protected(rows, lo, hi), path);
  }

  lemma {:induction false} GrownTwice(l: Listing, base: nat, a: set<nat>, b: set<nat>, c: set<nat>)
    requires Grown(l, base, a, b) && Grown(l, base, b, c)
    ensures Grown(l, base, a, c)
    ensures AllOn(l, base, a) ==> AllOn(l, base, c)
  {
    hide OnChain;
  }

  // ----- which row answers

  // The last cached row up to an offset reaches over it.
  ghost predicate CachedOver(rows: map<nat, Row>, offset: nat) {
    LastOf(rows.Keys, 0, offset).Some? && offset < rows[LastOf(rows.Keys, 0, offset).value].End()
  }

  // Where the search for an offset's row sets out from: the cached row that covers it, else the grid of its
  // data region, else the last cached row or checkpoint of its region.
  ghost function SetOut(l: Listing, rows: map<nat, Row>, points: set<nat>, offset: nat): nat
    requires WellFormed(l.info.spans) && offset < |l.doc|
  {
    var prev, r := LastOf(rows.Keys, 0, offset), RegionAt(l, offset);
    if CachedOver(rows, offset) then prev.value
    else if !r.executable then DataRowStart(r.start, offset)
    else if prev.Some? && prev.value >= r.start then prev.value
    else if LastOf(points, r.start, offset).Some? then LastOf(points, r.start, offset).value
    else r.start
  }

  lemma {:induction false} SetOutBefore(l: Listing, rows: map<nat, Row>, points: set<nat>, offset: nat)
    requires WellFormed(l.info.spans) && offset < |l.doc|
    ensures SetOut(l, rows, points, offset) <= offset
  {
    hide RegionAt;
    RegionHolds(l, offset);
  }

  /**
   * In a data region the search sets out from the grid, unless a cached row reaches over the offset. In code it
   * sets out from the last cached row up to the offset, if that lies in the region; else from the last
   * checkpoint of the region up to it; and from the start of the region where there is neither.
   */
  lemma {:induction false} SetOutFacts(l: Listing, rows: map<nat, Row>, points: set<nat>, offset: nat)
    requires WellFormed(l.info.spans) && offset < |l.doc|
    ensures
      var from, r := SetOut(l, rows, points, offset), RegionAt(l, offset);
      && from <= offset
      && (CachedOver(rows, offset) ==> from in rows && offset < rows[from].End())
      && (!CachedOver(rows, offset) && !r.executable ==> from == DataRowStart(r.start, offset))
      && (r.executable ==> (forall o :: o in rows && from < o <= offset ==> o < r.start))
      && (r.executable && from !in rows ==>
            && r.start <= from && (from in points || from == r.start)
            && (forall o :: o in rows && o <= offset ==> o < r.start)
            && (forall o :: o in points && from < o <= offset ==> o < r.start))
  {
    hide RegionAt;
    RegionHolds(l, offset);
  }

  // The row that answers for an offset. In a data region it need not cover the offset.
  ghost function StartFor(l: Listing, rows: map<nat, Row>, points: set<nat>, offset: nat): nat
    requires WellFormed(l.info.spans) && offset < |l.doc|
  {
    SetOutBefore(l, rows, points, offset);
    var from := SetOut(l, rows, points, offset);
    if CachedOver(rows, offset) || !RegionAt(l, offset).executable then from else Covering(l, from, offset)
  }

  lemma {:induction false} StartReached(l: Listing, rows: map<nat, Row>, points: set<nat>, offset: nat)
    requires WellFormed(l.info.spans) && offset < |l.doc|
    ensures
      var s, from := StartFor(l, rows, points, offset), SetOut(l, rows, points, offset);
      from <= s <= offset && Reaches(l, from, s)
  {
    hide RegionAt, Listing.RowAt, Reaches, SetOut, CachedOver;
    var from := SetOut(l, rows, points, offset);
    SetOutBefore(l, rows, points, offset);
    CoveringFacts(l, from, offset);
    ReachesSelf(l, from);
  }

  lemma {:induction false} ReachesSelf(l: Listing, from: nat)
    ensures Reaches(l, from, from)
  {
  }

  /** With nothing cached, and no checkpoints but the region starts, the fresh row answers. */
  lemma {:induction false} FreshAnswer(l: Listing, offset: nat)
    requires WellFormed(l.info.spans) && offset < |l.doc|
    ensures
      var starts := StartsOf(RegionsOf(l.info.spans, |l.doc|));
      SetOut(l, map[], starts, offset) == FreshBase(l, offset) && StartFor(l, map[], starts, offset) == FreshStart(l, offset)
  {
    hide RegionAt, RegionsOf, Listing.RowAt, Covering;
    var starts, r := StartsOf(RegionsOf(l.info.spans, |l.doc|)), RegionAt(l, offset);
    RegionHolds(l, offset);
    var point := LastOf(starts, r.start, offset);
    assert r.start in starts;
    if point.Some? {
      var q :| q in RegionsOf(l.info.spans, |l.doc|) && q.start == point.value;
      RegionNonEmpty(l, q);
      RegionIs(l, q, q.start);
      RegionIs(l, r, q.start);
    }
  }

  /** Where the rows cached are canonical and one of them covers the offset, it answers. */
  lemma {:induction false} CachedAnswer(l: Listing, rows: map<nat, Row>, points: set<nat>, offset: nat)
    requires l.Carried() && WellFormed(l.info.spans) && GenuineMap(l, rows) && offset < |l.doc|
    requires AllOn(l, 0, rows.Keys) && Covering(l, 0, offset) in rows
    ensures StartFor(l, rows, points, offset) == Covering(l, 0, offset) == SetOut(l, rows, points, offset)
  {
    hide RegionAt, Listing.RowAt, Covering, Reaches, Listing.Carried;
    var c, prev := Covering(l, 0, offset), LastOf(rows.Keys, 0, offset);
    CoveringFacts(l, 0, offset);
    assert Genuine(l, c, rows[c]);
    if c < prev.value {
      NoneInside(l, 0, c, prev.value);
    }
  }

  // Streaming is exact and the spans are gridded.
  ghost predicate Exact(l: Listing) {
    l.Carried() && Gridded(l)
  }

  /** On gridded spans whatever is cached, as long as it is canonical, the covering row answers. */
  lemma {:induction false} GriddedAnswer(l: Listing, rows: map<nat, Row>, points: set<nat>, offset: nat)
    requires Usable(l) && Exact(l) && GenuineMap(l, rows) && offset < |l.doc|
    requires AllOn(l, 0, rows.Keys) && AllOn(l, 0, points)
    ensures StartFor(l, rows, points, offset) == Covering(l, 0, offset)
    ensures Reaches(l, 0, SetOut(l, rows, points, offset))
  {
    hide RegionAt, Listing.RowAt, Covering, Reaches, Gridded, Sound, Listing.Carried;
    assert l.Streamable();
    hide Listing.Streamable;
    var prev, r := LastOf(rows.Keys, 0, offset), RegionAt(l, offset);
    FreshIsCovering(l, offset);
    if CachedOver(rows, offset) {
      assert Genuine(l, prev.value, rows[prev.value]);
      CoveringUnique(l, 0, prev.value, offset);
    } else if r.executable {
      var from := SetOut(l, rows, points, offset);
      SetOutBefore(l, rows, points, offset);
      CoveringFacts(l, from, offset);
      ReachJoin(l, 0, from, Covering(l, from, offset));
      CoveringUnique(l, 0, Covering(l, from, offset), offset);
    }
  }

  // The chain that an answer keeps to.
  ghost function Base(l: Listing, rows: map<nat, Row>, points: set<nat>, offset: nat): nat
    requires WellFormed(l.info.spans) && offset < |l.doc|
  {
    if Exact(l) then 0 else SetOut(l, rows, points, offset)
  }

  lemma {:induction false} AnswerFacts(l: Listing, rows: map<nat, Row>, checkpoints: set<nat>, regionStarts: set<nat>,
        offset: nat, maxRows: nat)
    requires Consistent(l, rows, checkpoints, regionStarts) && offset < |l.doc| && WellFormed(l.info.spans)
    requires Exact(l) ==> Snug(l, 0, rows, maxRows) && AllOn(l, 0, checkpoints)
    ensures
      var s, base := StartFor(l, rows, checkpoints, offset), Base(l, rows, checkpoints, offset);
      && Reaches(l, base, SetOut(l, rows, checkpoints, offset)) && OnChain(l, base, s) && s <= offset
      && (Exact(l) ==> base == 0 && s == Covering(l, 0, offset) && Snug(l, base, rows, maxRows))
      && (rows == map[] && checkpoints == regionStarts ==> s == FreshStart(l, offset) && Snug(l, base, rows, maxRows))
  {
    hide SetOut, StartFor, FreshStart, Exact, Reaches, Covering, Consistent, RegionAt, GenuineMap, Usable, Listing.Carried;
    ConsistentFacts(l, rows, checkpoints, regionStarts);
    var from := SetOut(l, rows, checkpoints, offset);
    StartReached(l, rows, checkpoints, offset);
    ReachesSelf(l, from);
    if Exact(l) {
      GriddedAnswer(l, rows, checkpoints, offset);
      ReachJoin(l, 0, from, StartFor(l, rows, checkpoints, offset));
    }
    if rows == map[] {
      assert rows.Keys == {};
      FreshAnswer(l, offset);
    }
  }

  lemma {:induction false} FirstOfChain(l: Listing, offset: nat)
    requires offset < |l.doc|
    ensures |l.Chain(offset, 1)| == 1 && l.Chain(offset, 1)[0].offset == offset
  {
    assert l.Chain(offset, 1)[0] == l.RowAt(offset);
  }

  lemma {:induction false} FreshStartInside(l: Listing, offset: nat)
    requires WellFormed(l.info.spans) && offset < |l.doc|
    ensures FreshStart(l, offset) <= offset
  {
    hide RegionAt, Listing.RowAt;
    RegionHolds(l, offset);
    if RegionAt(l, offset).executable {
      CoveringFacts(l, RegionAt(l, offset).start, offset);
    }
  }

  // The first row asked for at the start of the document is the first row.
  lemma {:induction false} FreshAtZero(l: Listing)
    requires WellFormed(l.info.spans) && l.doc != []
    ensures
      var starts := StartsOf(RegionsOf(l.info.spans, |l.doc|));
      SetOut(l, map[], starts, 0) == 0 == StartFor(l, map[], starts, 0) == Covering(l, 0, 0) == Base(l, map[], starts, 0)
  {
    hide RegionAt, Exact, SetOut;
    SetOutBefore(l, map[], StartsOf(RegionsOf(l.info.spans, |l.doc|)), 0);
    StartReached(l, map[], StartsOf(RegionsOf(l.info.spans, |l.doc|)), 0);
  }

  // Region starts lie in the document, and on the chain when everything is canonical.
  lemma {:induction false} FreshIsConsistent(l: Listing)
    requires Usable(l)
    ensures
      var starts := StartsOf(RegionsOf(l.info.spans, |l.doc|));
      Consistent(l, map[], starts, starts) && (Exact(l) ==> AllOn(l, 0, starts)) && AllOn(l, 0, {})
  {
    hide Gridded, Sound, Listing.Carried, Reaches, RegionsOf, RegionAt;
    forall r | r in RegionsOf(l.info.spans, |l.doc|) ensures r.start < |l.doc| && (Exact(l) ==> OnChain(l, 0, r.start)) {
      RegionNonEmpty(l, r);
      RegionIs(l, r, r.start);
      if Exact(l) {
        assert l.Streamable();
        FreshIsCovering(l, r.start);
      }
    }
  }

  // ----- decoding for the cache

  lemma {:induction false} ContiguousRows(l: Listing, rows: seq<Row>, from: nat)
    requires l.Contiguous(rows, from)
    ensures forall r :: r in rows ==>
      from <= r.offset < r.End() <= Min(|l.doc|, r.offset + MAX_ROW_BYTES) && r.bytes == l.doc[r.offset..r.End()]
  {
    if rows != [] {
      ContiguousRows(l, rows[1..], rows[0].End());
      assert forall r :: r in rows <==> r == rows[0] || r in rows[1..];
    }
  }

  // The rows decoded from an offset show the document from there on, and lie on its chain where streaming is exact.
  lemma {:induction false} DecodedFacts(l: Listing, base: nat, cursor: nat, batch: nat)
    requires Usable(l) && cursor < |l.doc| && batch > 0 && (l.Carried() ==> Reaches(l, base, cursor))
    ensures
      var decoded := l.Streamed(cursor, batch);
      && AllGenuine(l, decoded) && decoded != [] && decoded[0].offset == cursor
      && (forall r :: r in decoded ==> cursor <= r.offset)
      && (l.Carried() ==> ChainRows(l, base, decoded))
  {
    hide Sound, Listing.Carried, Listing.RowAt, Listing.Streamed, Reaches, Listing.Chain;
    l.StreamedContiguous(cursor, batch);
    ContiguousRows(l, l.Streamed(cursor, batch), cursor);
    if l.Carried() {
      l.StreamedIsChain(cursor, batch);
      ChainRowsOnChain(l, base, cursor, batch);
    }
  }

  // Following one row of a trail, where there is one.
  lemma {:induction false} TrailOn(l: Listing, base: nat, start: nat, n: nat, cursor: nat, path: set<nat>)
    requires l.Carried() ==> Trail(l, base, start, n, cursor, path)
    requires cursor < |l.doc|
    ensures l.Carried() ==>
      && Trail(l, base, start, n + 1, l.RowAt(cursor).End(), path + {cursor})
      && HoldsPath(l, base, path + {cursor}, start, cursor + 1) && |path + {cursor}| == n + 1
      && Reaches(l, base, cursor) && start <= cursor
  {
    hide Listing.Carried, Listing.RowAt, HoldsPath, Reaches;
    if l.Carried() {
      TrailStep(l, base, start, n, cursor, path);
    }
  }

  lemma {:induction false} FirstMet(l: Listing, rows: map<nat, Row>, first: nat, n: nat, cursor: nat)
    requires GenuineMap(l, rows) && Leads(rows, first, n, cursor)
    ensures n > 0 ==>
      RowsMet(rows, first, n) != [] && first in rows && RowsMet(rows, first, n)[0] == rows[first] && rows[first].offset == first
  {
    hide Listing.Carried, Listing.RowAt;
  }

  // Over rows that hold what was wanted, the walk that collects them has them all.
  lemma {:induction false} CollectedAll(l: Listing, rows: map<nat, Row>, first: nat, n: nat, cursor: nat, rowCount: nat,
        maxRows: nat)
    requires GenuineMap(l, rows) && Leads(rows, first, n, cursor) && n <= rowCount && first < |l.doc|
    requires maxRows > 0 && Holds(l, rows, first, Min(rowCount + PREFETCH_ROWS, maxRows)) && (n == rowCount || cursor !in rows)
    ensures
      var result := RowsMet(rows, first, n);
      && |result| == n && n <= |rows| && l.Contiguous(result, first) && (forall r :: r in result ==> r.offset in rows)
      && (n > 0 ==> first in rows && result[0] == rows[first] && result[0].offset == first)
      && (n < Min(rowCount, maxRows) ==> n > 0 && result[n - 1].End() == |l.doc|)
      && (l.Carried() ==> result == l.Chain(first, Max(n, Min(rowCount, maxRows))))
  {
    hide GenuineMap, Listing.Carried, Leads, RowsMet, Holds, Listing.Chain;
    WalkContiguous(l, rows, first, n, cursor);
    var path := WalkCounts(l, rows, first, n, cursor);
    FirstMet(l, rows, first, n, cursor);
    LeadsOn(l, rows, first, n, cursor);
    if n < Min(rowCount, maxRows) {
      HeldNext(l, rows, first, n, cursor, Min(rowCount + PREFETCH_ROWS, maxRows));
    }
    if l.Carried() {
      WalkIsChain(l, rows, first, n, cursor);
      if n < Min(rowCount, maxRows) {
        ChainEnds(l, first, n, Min(rowCount, maxRows));
      }
    }
  }

  // What a pruned insertion keeps: the protected rows before the run, and the run's first row.
  lemma {:induction false} InsertedRows(was: map<nat, Row>, now: map<nat, Row>, decoded: seq<Row>, lo: nat, cursor: nat)
    requires decoded != [] && decoded[0].offset == cursor && lo <= cursor
    requires (forall r :: r in decoded ==> cursor <= r.offset) && Pruned(WithRows(was, decoded), now, cursor, lo, cursor)
    ensures forall o :: o in was && lo <= o < cursor ==> o in now && now[o] == was[o]
    ensures cursor in now
  {
    hide Farther, WithRows;
    WithRowsHolds(was, decoded, 0);
    RunKeepsBefore(was, decoded, cursor);
  }

  // And a run of one chain keeps to it, within the limit if the rest does.
  lemma {:induction false} InsertedOnChain(l: Listing, base: nat, was: map<nat, Row>, now: map<nat, Row>,
        points: set<nat>, pointsNow: set<nat>, decoded: seq<Row>, lo: nat, cursor: nat, path: set<nat>, maxRows: nat)
    requires ChainRows(l, base, decoded) && |path| <= maxRows && HoldsPath(l, base, path, lo, cursor + 1)
    requires Pruned(WithRows(was, decoded), now, cursor, lo, cursor) && pointsNow <= points + Strides(decoded)
    requires |now| == Min(|WithRows(was, decoded)|, Max(maxRows, |Protected(WithRows(was, decoded), lo, cursor)|))
    ensures Grown(l, base, was.Keys, now.Keys) && Grown(l, base, points, pointsNow)
    ensures Snug(l, base, was, maxRows) ==> Snug(l, base, now, maxRows)
    ensures AllOn(l, base, points) ==> AllOn(l, base, pointsNow)
  {
    hide Farther, WithRows, Strides, OnChain, HoldsPath, ChainRows;
    RunKeys(l, base, was, decoded);
    if Snug(l, base, was, maxRows) {
      ProtectedOnPath(l, base, WithRows(was, decoded), path, lo, cursor);
    }
  }

  // The rows once a run that starts at the cursor was inserted, rows from `lo` to the cursor protected.
  ghost function Inserted(rows: map<nat, Row>, decoded: seq<Row>, lo: nat, cursor: nat, limit: nat): map<nat, Row> {
    Trimmed(WithRows(rows, decoded), limit, cursor, lo, cursor)
  }

  // How many rows are decoded at a time: those still missing, but at least 32 and at most 256.
  function Batch(missing: nat): (n: nat)
    ensures PREFETCH_ROWS <= n <= 256 && Min(missing, 256) <= n <= Max(missing, PREFETCH_ROWS)
  {
    Max(PREFETCH_ROWS, Min(256, missing))
  }

  // What is cached once the rows from `start` on were wanted, and `cached` of them were met up to the cursor.
  ghost function Filled(l: Listing, rows: map<nat, Row>, start: nat, target: nat, cached: nat, cursor: nat,
      limit: nat): map<nat, Row>
    decreases SatSub(|l.doc|, cursor), if cursor in rows then 0 else 1
  {
    if cached >= target || cursor >= |l.doc| then rows
    else if cursor in rows then
      if rows[cursor].End() <= cursor then rows
      else Filled(l, rows, start, target, cached + 1, rows[cursor].End(), limit)
    else
      var now := Inserted(rows, l.Streamed(cursor, Batch(target - cached)), start, cursor, limit);
      if cursor in now then Filled(l, now, start, target, cached, cursor, limit) else now
  }

  lemma {:induction false} FilledDone(l: Listing, rows: map<nat, Row>, start: nat, target: nat, cached: nat, cursor: nat,
        limit: nat)
    requires cached >= target || cursor >= |l.doc|
    ensures Filled(l, rows, start, target, cached, cursor, limit) == rows
  {
  }

  lemma {:induction false} FilledHit(l: Listing, rows: map<nat, Row>, start: nat, target: nat, cached: nat, cursor: nat,
        limit: nat)
    requires cached < target && cursor < |l.doc| && cursor in rows && rows[cursor].End() > cursor
    ensures Filled(l, rows, start, target, cached, cursor, limit)
         == Filled(l, rows, start, target, cached + 1, rows[cursor].End(), limit)
  {
  }

  lemma {:induction false} FilledMiss(l: Listing, rows: map<nat, Row>, start: nat, target: nat, cached: nat, cursor: nat,
        limit: nat)
    requires cached < target && cursor < |l.doc| && cursor !in rows
    requires cursor in Inserted(rows, l.Streamed(cursor, Batch(target - cached)), start, cursor, limit)
    ensures Filled(l, rows, start, target, cached, cursor, limit) ==
      Filled(l, Inserted(rows, l.Streamed(cursor, Batch(target - cached)), start, cursor, limit), start, target, cached, cursor, limit)
  {
    hide Inserted, Listing.Streamed;
  }

  // What a search leaves cached, and the row it finds.
  datatype Search = Search(rows: map<nat, Row>, found: Option<nat>)

  // The rows cached and the row found when code is walked from the cursor to the row that covers the offset.
  ghost function Sought(l: Listing, rows: map<nat, Row>, cursor: nat, regionEnd: nat, offset: nat,
      limit: nat): Search
    decreases SatSub(offset + 1, cursor)
  {
    var now := if cursor in rows then rows else Inserted(rows, l.Streamed(cursor, PREFETCH_ROWS), cursor, cursor, limit);
    if cursor !in now then Search(now, None)
    else if offset < now[cursor].End() then Search(now, Some(now[cursor].offset))
    else if now[cursor].End() <= cursor || now[cursor].End() > regionEnd || cursor > offset then Search(now, None)
    else Sought(l, now, now[cursor].End(), regionEnd, offset, limit)
  }

  lemma {:induction false} SoughtStep(l: Listing, rows: map<nat, Row>, cursor: nat, regionEnd: nat, offset: nat, limit: nat)
    ensures
      var now := if cursor in rows then rows else Inserted(rows, l.Streamed(cursor, PREFETCH_ROWS), cursor, cursor, limit);
      cursor in now && cursor < now[cursor].End() ==>
        Sought(l, rows, cursor, regionEnd, offset, limit) ==
          if offset < now[cursor].End() then Search(now, Some(now[cursor].offset))
          else if now[cursor].End() > regionEnd then Search(now, None)
          else Sought(l, now, now[cursor].End(), regionEnd, offset, limit)
  {
    hide Inserted, Listing.Streamed;
  }

  // The rows cached and the row found when an offset is looked up.
  ghost function Located(l: Listing, rows: map<nat, Row>, points: set<nat>, offset: nat,
      limit: nat): Search
    requires WellFormed(l.info.spans) && offset < |l.doc|
  {
    var from := SetOut(l, rows, points, offset);
    if CachedOver(rows, offset) || !RegionAt(l, offset).executable then Search(rows, Some(from))
    else Sought(l, rows, from, RegionAt(l, offset).endInclusive, offset, limit)
  }

  // ----- what a call for rows promises

  // The offset that is looked up.
  function Within(l: Listing, start: nat): nat {
    if l.doc == [] then 0 else Min(start, |l.doc| - 1)
  }

  // What a call answers and leaves cached, row for row.
  ghost predicate Collected(l: Listing, was: map<nat, Row>, points: set<nat>, start: nat, rowCount: nat, maxRows: nat,
      now: map<nat, Row>, result: seq<Row>)
  {
    if l.doc == [] || rowCount == 0 then result == [] && now == was
    else
      WellFormed(l.info.spans) &&
      var Search(seen, first) := Located(l, was, points, Within(l, start), maxRows);
      && first.Some? && result == RowsMet(now, first.value, rowCount)
      && now == Filled(l, seen, first.value, Target(rowCount, maxRows), 0, first.value, maxRows)
  }

  // An unbroken run of rows that show the document, from at or before the offset, short only at its end.
  ghost predicate Unbroken(l: Listing, start: nat, rowCount: nat, maxRows: nat, result: seq<Row>) {
    l.doc != [] && rowCount > 0 ==>
      && WellFormed(l.info.spans) && result != [] && |result| <= rowCount
      && l.Contiguous(result, result[0].offset) && result[0].offset <= Within(l, start)
      && (RegionAt(l, Within(l, start)).executable ==> Within(l, start) < result[0].End())
      && (|result| < Min(rowCount, maxRows) ==> result[|result| - 1].End() == |l.doc|)
  }

  // The decoder's own rows from the one that answers, and new cached rows on one chain.
  ghost predicate OwnRows(l: Listing, was: map<nat, Row>, points: set<nat>, start: nat, rowCount: nat, maxRows: nat,
      now: map<nat, Row>, result: seq<Row>)
  {
    l.doc != [] ==>
      && WellFormed(l.info.spans)
      && result == l.Chain(StartFor(l, was, points, Within(l, start)), Max(|result|, Min(rowCount, maxRows)))
      && Grown(l, Base(l, was, points, Within(l, start)), was.Keys, now.Keys)
  }

  // The listing as a fresh cache starts it.
  ghost function FreshListing(l: Listing, start: nat, n: nat): seq<Row> {
    if l.doc == [] || !WellFormed(l.info.spans) then [] else l.Chain(FreshStart(l, Within(l, start)), n)
  }

  // The listing from the row that covers an offset.
  ghost function CanonicalListing(l: Listing, start: nat, n: nat): seq<Row> {
    if l.doc == [] then [] else l.Chain(Covering(l, 0, Within(l, start)), n)
  }

  /**
   * What a call answers: the rows the search and the walk meet, which are an unbroken run that shows the
   * document. Where streaming is exact they are the decoder's own, from a fresh cache those of its region,
   * and on gridded spans those of the canonical listing.
   */
  ghost predicate Answers(l: Listing, was: map<nat, Row>, points: set<nat>, regionStarts: set<nat>, start: nat,
      rowCount: nat, maxRows: nat, now: map<nat, Row>, result: seq<Row>)
  {
    && Collected(l, was, points, start, rowCount, maxRows, now, result)
    && Unbroken(l, start, rowCount, maxRows, result)
    && (l.Carried() ==> OwnRows(l, was, points, start, rowCount, maxRows, now, result))
    && (l.Carried() && was == map[] && points == regionStarts ==> result == FreshListing(l, start, Min(rowCount, maxRows)))
    && (Exact(l) ==> result == CanonicalListing(l, start, Min(rowCount, maxRows)))
    && forall r :: r in result ==> r.offset in now
  }

  // What the search and the walk establish about an answer: the cache `seen` and the row `first` that the
  // search ends with, and what the walk from there leaves cached and returns.
  ghost predicate Parts(l: Listing, was: map<nat, Row>, points: set<nat>, regionStarts: set<nat>, offset: nat,
      rowCount: nat, maxRows: nat, seen: map<nat, Row>, first: nat, now: map<nat, Row>, result: seq<Row>)
    requires WellFormed(l.info.spans) && offset < |l.doc|
  {
    var s, base := StartFor(l, was, points, offset), Base(l, was, points, offset);
    && Search(seen, Some(first)) == Located(l, was, points, offset, maxRows) && first <= offset
    && (RegionAt(l, offset).executable ==> first in seen && offset < seen[first].End())
    && now == Filled(l, seen, first, Target(rowCount, maxRows), 0, first, maxRows)
    && result == RowsMet(now, first, rowCount) && l.Contiguous(result, first)
    && (|result| < Min(rowCount, maxRows) ==> result != [] && result[|result| - 1].End() == |l.doc|)
    && (result != [] ==> result[0].offset == first && (first in seen ==> result[0] == seen[first]))
    && (forall r :: r in result ==> r.offset in now)
    && (l.Carried() ==>
          && first == s && result == l.Chain(first, Max(|result|, Min(rowCount, maxRows))) && Grown(l, base, was.Keys, now.Keys)
          && (Snug(l, base, was, maxRows) ==> |result| <= maxRows))
    && (Exact(l) ==> s == Covering(l, 0, offset) && Snug(l, base, was, maxRows))
    && (was == map[] && points == regionStarts ==> s == FreshStart(l, offset) && Snug(l, base, was, maxRows))
  }

  lemma {:induction false} Answered(l: Listing, was: map<nat, Row>, points: set<nat>, regionStarts: set<nat>, start: nat,
        rowCount: nat, maxRows: nat, seen: map<nat, Row>, first: nat, now: map<nat, Row>, result: seq<Row>)
    requires l.doc != [] && rowCount > 0 && maxRows > 0 && WellFormed(l.info.spans) && |result| <= rowCount
    requires Parts(l, was, points, regionStarts, Within(l, start), rowCount, maxRows, seen, first, now, result)
    ensures Answers(l, was, points, regionStarts, start, rowCount, maxRows, now, result)
  {
    hide Listing.Carried, Gridded, Listing.Chain, StartFor, Base, Located, Filled, RowsMet, RegionAt, Listing.Contiguous, Grown;
    hide FreshStart, Covering, Snug;
  }

  lemma {:induction false} PartsHold(l: Listing, was: map<nat, Row>, points: set<nat>, regionStarts: set<nat>, offset: nat,
        rowCount: nat, maxRows: nat, seen: map<nat, Row>, first: nat, now: map<nat, Row>, pointsNow: set<nat>, result: seq<Row>)
    requires WellFormed(l.info.spans) && offset < |l.doc|
    requires FoundRow(l, was, points, offset, maxRows, seen, Some(first))
    requires WalkedFrom(l, seen, first, rowCount, maxRows, now, result)
    requires
      var s, base := StartFor(l, was, points, offset), Base(l, was, points, offset);
      && Kept(l, base, was, points, now, pointsNow, maxRows)
      && (Exact(l) ==> s == Covering(l, 0, offset) && Snug(l, base, was, maxRows))
      && (was == map[] && points == regionStarts ==> s == FreshStart(l, offset) && Snug(l, base, was, maxRows))
    ensures Parts(l, was, points, regionStarts, offset, rowCount, maxRows, seen, first, now, result)
    ensures |now| <= Max(|was|, Room(rowCount, maxRows)) && |result| <= rowCount
  {
    hide Listing.Carried, Gridded, Listing.Chain, StartFor, Base, Located, Filled, RowsMet, RegionAt, Listing.Contiguous;
    hide FreshStart, Covering, AllOn, Grown, CachedOver, DataRowStart;
  }

  lemma {:induction false} NothingAsked(l: Listing, was: map<nat, Row>, points: set<nat>, regionStarts: set<nat>,
        start: nat, rowCount: nat, maxRows: nat)
    requires (l.doc == [] || rowCount == 0) && WellFormed(l.info.spans)
    ensures Answers(l, was, points, regionStarts, start, rowCount, maxRows, was, [])
  {
    hide StartFor, Base, RegionAt, OnChain, FreshStart, Covering, Listing.Carried, Gridded;
  }

  // A walk that ends at a missing row has met all there is to meet.
  lemma {:induction false} MetAll(rows: map<nat, Row>, start: nat, n: nat, cursor: nat, m: nat)
    requires Leads(rows, start, n, cursor) && n <= m && (n == m || cursor !in rows)
    ensures RowsMet(rows, start, n) == RowsMet(rows, start, m)
    decreases n
  {
    if n > 0 {
      MetAll(rows, rows[start].End(), n - 1, cursor, m - 1);
    }
  }

  // ----- what the cache keeps

  // What every call keeps, whatever was asked before: for any spans no more rows than sixteen times the
  // limit. Where everything is exact, all that is cached is canonical and the cache stays within its limit.
  ghost predicate Healthy(l: Listing, rows: map<nat, Row>, checkpoints: set<nat>, regionStarts: set<nat>, maxRows: nat) {
    && Consistent(l, rows, checkpoints, regionStarts)
    && maxRows >= PREFETCH_ROWS
    && |checkpoints - regionStarts| <= maxRows
    && |rows| <= MAX_ROW_BYTES * maxRows
    && (Exact(l) ==> Snug(l, 0, rows, maxRows) && AllOn(l, 0, checkpoints))
  }

  // What calls keep of the rows and checkpoints cached before: where streaming is exact, whatever is new
  // lies on one chain, and a cache that held one chain within its limit still does.
  ghost predicate Kept(l: Listing, base: nat, was: map<nat, Row>, points: set<nat>, now: map<nat, Row>,
      pointsNow: set<nat>, maxRows: nat)
  {
    && (l.Carried() ==> Grown(l, base, was.Keys, now.Keys) && Grown(l, base, points, pointsNow))
    && (l.Carried() && Snug(l, base, was, maxRows) ==> Snug(l, base, now, maxRows))
  }

  lemma {:induction false} KeptNone(l: Listing, base: nat, rows: map<nat, Row>, checkpoints: set<nat>, maxRows: nat)
    ensures Kept(l, base, rows, checkpoints, rows, checkpoints, maxRows)
  {
    hide Snug, Listing.Carried, OnChain;
  }

  lemma {:induction false} KeptTwice(l: Listing, base: nat, was: map<nat, Row>, points: set<nat>, mid: map<nat, Row>,
        midPoints: set<nat>, now: map<nat, Row>, pointsNow: set<nat>, maxRows: nat)
    requires Kept(l, base, was, points, mid, midPoints, maxRows) && Kept(l, base, mid, midPoints, now, pointsNow, maxRows)
    ensures Kept(l, base, was, points, now, pointsNow, maxRows)
  {
    hide Snug, Listing.Carried, Grown;
    if l.Carried() {
      GrownTwice(l, base, was.Keys, mid.Keys, now.Keys);
      GrownTwice(l, base, points, midPoints, pointsNow);
    }
  }

  // On exact listings everything new is canonical too.
  lemma {:induction false} KeptHealthy(l: Listing, base: nat, was: map<nat, Row>, points: set<nat>, now: map<nat, Row>,
        pointsNow: set<nat>, regionStarts: set<nat>, maxRows: nat)
    requires Healthy(l, was, points, regionStarts, maxRows) && (Exact(l) ==> base == 0)
    requires Kept(l, base, was, points, now, pointsNow, maxRows) && Consistent(l, now, pointsNow, regionStarts)
    requires |pointsNow - regionStarts| <= maxRows && |now| <= MAX_ROW_BYTES * maxRows
    ensures Healthy(l, now, pointsNow, regionStarts, maxRows)
  {
    hide Consistent, Gridded, Listing.Carried, Snug, OnChain;
  }

  lemma {:induction false} HealthyFacts(l: Listing, rows: map<nat, Row>, checkpoints: set<nat>, regionStarts: set<nat>,
        maxRows: nat)
    requires Healthy(l, rows, checkpoints, regionStarts, maxRows)
    ensures Usable(l) && WellFormed(l.info.spans) && GenuineMap(l, rows) && maxRows >= PREFETCH_ROWS
    ensures Consistent(l, rows, checkpoints, regionStarts) && |rows| <= MAX_ROW_BYTES * maxRows
    ensures regionStarts == StartsOf(RegionsOf(l.info.spans, |l.doc|)) && forall o :: o in checkpoints ==> o < |l.doc|
    ensures Exact(l) ==> Snug(l, 0, rows, maxRows) && AllOn(l, 0, checkpoints)
  {
    hide Consistent, GenuineMap, Exact, Usable, RegionsOf, Snug;
    ConsistentFacts(l, rows, checkpoints, regionStarts);
  }

  // ----- the fill loop

  // The rows that a call for so many may leave cached: the limit, or all offsets that its rows may span.
  function Room(rowCount: nat, maxRows: nat): (n: nat)
    ensures n >= maxRows
  {
    Max(maxRows, MAX_ROW_BYTES * Target(rowCount, maxRows))
  }

  function Target(rowCount: nat, maxRows: nat): nat {
    Min(rowCount + PREFETCH_ROWS, maxRows)
  }

  // Of the rows wanted from `start` on, `cached` were met up to the cursor; what was cached first is `was`.
  ghost predicate Filling(l: Listing, base: nat, was: map<nat, Row>, now: map<nat, Row>, start: nat, target: nat,
      cached: nat, cursor: nat, path: set<nat>, maxRows: nat)
  {
    && GenuineMap(l, now) && start < |l.doc| && cached <= target <= maxRows
    && start <= cursor <= start + MAX_ROW_BYTES * cached && Leads(now, start, cached, cursor)
    && Filled(l, now, start, target, cached, cursor, maxRows) == Filled(l, was, start, target, 0, start, maxRows)
    && |now| <= Max(|was|, Max(maxRows, MAX_ROW_BYTES * target))
    && (l.Carried() ==> Trail(l, base, start, cached, cursor, path))
    && (start in was ==> start in now && now[start] == was[start] && if cached == 0 then cursor == start else start < cursor)
  }

  lemma {:induction false} FillingNone(l: Listing, base: nat, rows: map<nat, Row>, start: nat, target: nat, maxRows: nat)
    requires GenuineMap(l, rows) && start < |l.doc| && target <= maxRows && (l.Carried() ==> Reaches(l, base, start))
    ensures Filling(l, base, rows, rows, start, target, 0, start, {}, maxRows)
  {
    hide GenuineMap, Listing.Carried, Trail, Filled, Reaches;
    if l.Carried() {
      TrailNone(l, base, start);
    }
  }

  // The row at the cursor is cached: go on behind it.
  lemma {:induction false} FillingHit(l: Listing, base: nat, was: map<nat, Row>, now: map<nat, Row>, start: nat, target: nat,
        cached: nat, cursor: nat, path: set<nat>, maxRows: nat)
    requires Filling(l, base, was, now, start, target, cached, cursor, path, maxRows)
    requires cached < target && cursor < |l.doc| && cursor in now
    ensures cursor < now[cursor].End() <= |l.doc|
    ensures Filling(l, base, was, now, start, target, cached + 1, now[cursor].End(), path + {cursor}, maxRows)
  {
    hide Listing.Carried, Trail, Filled, Leads, Listing.RowAt;
    assert Genuine(l, cursor, now[cursor]);
    hide GenuineMap;
    LeadsStep(now, start, cached, cursor);
    FilledHit(l, now, start, target, cached, cursor, maxRows);
    TrailOn(l, base, start, cached, cursor, path);
  }

  // What an insertion at the cursor needs to know of the walk.
  lemma {:induction false} FillingPath(l: Listing, base: nat, was: map<nat, Row>, now: map<nat, Row>, start: nat, target: nat,
        cached: nat, cursor: nat, path: set<nat>, maxRows: nat)
    requires Filling(l, base, was, now, start, target, cached, cursor, path, maxRows) && cached < target && cursor < |l.doc|
    ensures start <= cursor && cursor - start < MAX_ROW_BYTES * maxRows
    ensures l.Carried() ==>
      Reaches(l, base, cursor) && |path + {cursor}| <= maxRows && HoldsPath(l, base, path + {cursor}, start, cursor + 1)
  {
    hide Listing.Carried, Trail, Filled, Leads, Listing.RowAt, GenuineMap, HoldsPath, Reaches;
    TrailOn(l, base, start, cached, cursor, path);
  }

  // What an insertion from `lo` to the cursor does to the cached rows.
  ghost predicate Insertion(was: map<nat, Row>, decoded: seq<Row>, lo: nat, cursor: nat, maxRows: nat, now: map<nat, Row>) {
    && lo <= cursor && now == Inserted(was, decoded, lo, cursor, maxRows) && |now| <= Max(maxRows, cursor - lo + 1)
    && Pruned(WithRows(was, decoded), now, cursor, lo, cursor)
    && (forall o :: o in was && lo <= o < cursor ==> o in now && now[o] == was[o])
    && cursor in now
  }

  // The row at the cursor was missing, and a run from there was inserted: go on at the cursor.
  lemma {:induction false} FillingMiss(l: Listing, base: nat, was: map<nat, Row>, mid: map<nat, Row>, start: nat, target: nat,
        cached: nat, cursor: nat, path: set<nat>, maxRows: nat, now: map<nat, Row>)
    requires Filling(l, base, was, mid, start, target, cached, cursor, path, maxRows) && GenuineMap(l, now)
    requires cached < target && cursor < |l.doc| && cursor !in mid
    requires Insertion(mid, l.Streamed(cursor, Batch(target - cached)), start, cursor, maxRows, now)
    ensures Filling(l, base, was, now, start, target, cached, cursor, path, maxRows)
  {
    hide GenuineMap, Listing.Carried, Trail, Filled, Leads, Inserted, Listing.Streamed;
    FilledMiss(l, mid, start, target, cached, cursor, maxRows);
    LeadsKept(l, mid, now, start, cached, cursor);
  }

  lemma {:induction false} FillingEnd(l: Listing, base: nat, was: map<nat, Row>, now: map<nat, Row>, start: nat, target: nat,
        cached: nat, cursor: nat, path: set<nat>, maxRows: nat)
    requires Filling(l, base, was, now, start, target, cached, cursor, path, maxRows) && (cached == target || cursor >= |l.doc|)
    ensures FilledUp(l, was, start, target, maxRows, now)
  {
    hide GenuineMap, Listing.Carried, Trail, Filled, Leads, Holds;
    FilledDone(l, now, start, target, cached, cursor, maxRows);
    LeadsHolds(l, now, start, cached, cursor, target);
  }

  // The wanted rows are cached, exactly as the loop leaves them, in no more room than they may span.
  ghost predicate FilledUp(l: Listing, was: map<nat, Row>, start: nat, target: nat, maxRows: nat, now: map<nat, Row>) {
    && now == Filled(l, was, start, target, 0, start, maxRows) && Holds(l, now, start, target)
    && |now| <= Max(|was|, Max(maxRows, MAX_ROW_BYTES * target))
    && (start in was ==> start in now && now[start] == was[start])
  }

  // ----- the search for a row

  ghost predicate Covers(rows: map<nat, Row>, s: nat, offset: nat) {
    s in rows && s <= offset < rows[s].End()
  }

  // The search has come to the cursor.
  ghost predicate Seeking(l: Listing, base: nat, was: map<nat, Row>, now: map<nat, Row>, from: nat, cursor: nat,
      regionEnd: nat, offset: nat, maxRows: nat)
  {
    && cursor <= offset && |now| <= Max(|was|, maxRows)
    && Sought(l, now, cursor, regionEnd, offset, maxRows) == Sought(l, was, from, regionEnd, offset, maxRows)
    && (l.Carried() ==> Reaches(l, base, cursor) && Reaches(l, from, cursor))
  }

  lemma {:induction false} SeekingNone(l: Listing, base: nat, rows: map<nat, Row>, from: nat, regionEnd: nat, offset: nat,
        maxRows: nat)
    requires from <= offset && (l.Carried() ==> Reaches(l, base, from))
    ensures Seeking(l, base, rows, rows, from, from, regionEnd, offset, maxRows)
  {
    hide Listing.Carried, Sought, Reaches;
    ReachesSelf(l, from);
  }

  // The cursor's row, cached before or just now.
  ghost predicate CursorRow(l: Listing, mid: map<nat, Row>, cursor: nat, maxRows: nat, now: map<nat, Row>) {
    if cursor in mid then now == mid
    else Insertion(mid, l.Streamed(cursor, PREFETCH_ROWS), cursor, cursor, maxRows, now)
  }

  lemma {:induction false} SeekingStep(l: Listing, base: nat, was: map<nat, Row>, mid: map<nat, Row>, from: nat, cursor: nat,
        regionEnd: nat, offset: nat, maxRows: nat, now: map<nat, Row>)
    requires Seeking(l, base, was, mid, from, cursor, regionEnd, offset, maxRows) && offset <= regionEnd < |l.doc|
    requires GenuineMap(l, now) && CursorRow(l, mid, cursor, maxRows, now) && maxRows > 0 && from <= offset
    ensures cursor in now && now[cursor].offset == cursor < now[cursor].End()
    ensures
      if offset < now[cursor].End() then SoughtRow(l, was, from, regionEnd, offset, maxRows, now, Some(cursor))
      else Seeking(l, base, was, now, from, now[cursor].End(), regionEnd, offset, maxRows)
  {
    hide Listing.Carried, Sought, Reaches, Inserted, Listing.Streamed, Covering, Listing.RowAt;
    assert cursor in now && Genuine(l, cursor, now[cursor]);
    hide GenuineMap;
    SoughtStep(l, mid, cursor, regionEnd, offset, maxRows);
    if l.Carried() {
      if offset < now[cursor].End() {
        CoveringUnique(l, from, cursor, offset);
      } else {
        ReachStep(l, base, cursor);
        ReachStep(l, from, cursor);
      }
    }
  }

  // The search ends on a row that covers the offset, the listing's own where streaming is exact.
  ghost predicate SoughtRow(l: Listing, was: map<nat, Row>, from: nat, regionEnd: nat, offset: nat, maxRows: nat,
      now: map<nat, Row>, found: Option<nat>)
    requires from <= offset < |l.doc|
  {
    && found.Some? && Covers(now, found.value, offset) && |now| <= Max(|was|, maxRows)
    && Search(now, found) == Sought(l, was, from, regionEnd, offset, maxRows)
    && (l.Carried() ==> found.value == Covering(l, from, offset))
  }

  // The row that answers for an offset. A cached row that reaches over it, or a walk through code, gives one
  // that covers it; a data region gives its grid.
  ghost predicate FoundRow(l: Listing, was: map<nat, Row>, points: set<nat>, offset: nat, maxRows: nat,
      now: map<nat, Row>, found: Option<nat>)
    requires WellFormed(l.info.spans) && offset < |l.doc|
  {
    && found.Some? && found.value <= offset && |now| <= Max(|was|, maxRows)
    && Search(now, found) == Located(l, was, points, offset, maxRows)
    && (if CachedOver(was, offset) || RegionAt(l, offset).executable then Covers(now, found.value, offset)
        else found.value == DataRowStart(RegionAt(l, offset).start, offset))
    && (l.Carried() ==> found.value == StartFor(l, was, points, offset))
  }

  lemma {:induction false} FoundAtOnce(l: Listing, was: map<nat, Row>, points: set<nat>, offset: nat, maxRows: nat)
    requires WellFormed(l.info.spans) && offset < |l.doc| && (CachedOver(was, offset) || !RegionAt(l, offset).executable)
    ensures FoundRow(l, was, points, offset, maxRows, was, Some(SetOut(l, was, points, offset)))
  {
    hide RegionAt, Listing.Carried;
    SetOutBefore(l, was, points, offset);
  }

  lemma {:induction false} FoundBySearch(l: Listing, was: map<nat, Row>, points: set<nat>, offset: nat, maxRows: nat,
        now: map<nat, Row>, found: Option<nat>)
    requires WellFormed(l.info.spans) && offset < |l.doc| && !CachedOver(was, offset) && RegionAt(l, offset).executable
    requires SetOut(l, was, points, offset) <= offset
    requires SoughtRow(l, was, SetOut(l, was, points, offset), RegionAt(l, offset).endInclusive, offset, maxRows, now, found)
    ensures FoundRow(l, was, points, offset, maxRows, now, found)
  {
    hide RegionAt, Listing.Carried, Covering, Sought, SetOut, CachedOver;
  }

  // What the walk from `first` leaves cached and returns.
  ghost predicate WalkedFrom(l: Listing, was: map<nat, Row>, first: nat, rowCount: nat, maxRows: nat,
      now: map<nat, Row>, result: seq<Row>)
  {
    && now == Filled(l, was, first, Target(rowCount, maxRows), 0, first, maxRows) && result == RowsMet(now, first, rowCount)
    && |now| <= Max(|was|, Room(rowCount, maxRows)) && |result| <= rowCount && |result| <= |now|
    && l.Contiguous(result, first) && (forall r :: r in result ==> r.offset in now)
    && (|result| < Min(rowCount, maxRows) ==> result != [] && result[|result| - 1].End() == |l.doc|)
    && (result != [] ==> result[0].offset == first && (first in was ==> result[0] == was[first]))
    && (l.Carried() ==> result == l.Chain(first, Max(|result|, Min(rowCount, maxRows))))
  }

  lemma {:induction false} WalkedTo(l: Listing, was: map<nat, Row>, first: nat, rowCount: nat, maxRows: nat,
        now: map<nat, Row>, n: nat, cursor: nat)
    requires GenuineMap(l, now) && FilledUp(l, was, first, Target(rowCount, maxRows), maxRows, now) && maxRows > 0
    requires Leads(now, first, n, cursor) && n <= rowCount && first < |l.doc| && (n == rowCount || cursor !in now)
    ensures WalkedFrom(l, was, first, rowCount, maxRows, now, RowsMet(now, first, n))
  {
    hide GenuineMap, Listing.Carried, Leads, RowsMet, Holds, Listing.Chain, Filled, Listing.Contiguous;
    MetAll(now, first, n, cursor, rowCount);
    CollectedAll(l, now, first, n, cursor, rowCount, maxRows);
  }

  class DisasmCache {
    var rows: map<nat, Row>
    var checkpoints: set<nat>
    var regionStarts: set<nat>
    const maxRows: nat

    // What every call keeps.
    ghost predicate Valid(l: Listing)
      reads this
    {
      Healthy(l, rows, checkpoints, regionStarts, maxRows)
    }

    constructor (l: Listing, limit: nat)
      requires Usable(l)
      ensures Valid(l) && maxRows == Max(limit, PREFETCH_ROWS) && rows == map[] && checkpoints == regionStarts
    {
      maxRows := Max(limit, PREFETCH_ROWS);
      rows, checkpoints, regionStarts := map[], {}, {};
      new;
      Reset(l);
    }

    method Reset(l: Listing)
      requires Usable(l) && maxRows >= PREFETCH_ROWS
      modifies this
      ensures Valid(l) && rows == map[] && checkpoints == regionStarts
    {
      hide Exact, Sound, Consistent, RegionsOf, AllOn;
      rows, checkpoints, regionStarts := map[], {}, {};
      var regions := VisibleRegions(l.info.spans, |l.doc|);
      for i := 0 to |regions|
        invariant rows == map[] && checkpoints == regionStarts == StartsOf(regions[..i])
      {
        assert forall r :: r in regions[..i + 1] <==> r in regions[..i] || r == regions[i];
        checkpoints := checkpoints + {regions[i].start};
        regionStarts := regionStarts + {regions[i].start};
      }
      assert regions[..|regions|] == regions && checkpoints - regionStarts == {};
      FreshIsConsistent(l);
      assert rows.Keys == {};
    }

    /** Drop the farthest unprotected rows until the cache fits, or only protected rows are left. */
    method PruneRowsAround(anchor: nat, lo: nat, hi: nat)
      modifies this`rows
      ensures rows == Trimmed(old(rows), maxRows, anchor, lo, hi)
      ensures Pruned(old(rows), rows, anchor, lo, hi)
      ensures |rows| == Min(old(|rows|), Max(maxRows, |Protected(old(rows), lo, hi)|))
    {
      hide Trimmed, FarthestOf, Farther;
      ghost var was := rows;
      TrimmedFacts(was, maxRows, anchor, lo, hi);
      while |rows| > maxRows
        invariant Trimmed(rows, maxRows, anchor, lo, hi) == Trimmed(was, maxRows, anchor, lo, hi)
        decreases |rows|
      {
        TrimStep(rows, maxRows, anchor, lo, hi);
        var loose := set o | o in rows && !(lo <= o <= hi);
        if loose == {} {
          break;
        }
        var remove := FarEnd(loose, anchor);
        DropOne(rows, remove);
        rows := rows - {remove};
      }
      TrimStep(rows, maxRows, anchor, lo, hi);
    }

    /** Drop the farthest checkpoints that are not region starts until the rest fits. */
    method PruneCheckpointsAround(anchor: nat)
      modifies this`checkpoints
      ensures PrunedPoints(old(checkpoints), checkpoints, regionStarts, anchor, maxRows)
    {
      ghost var was := checkpoints;
      while |checkpoints - regionStarts| > maxRows
        invariant checkpoints <= was && was * regionStarts <= checkpoints
        invariant checkpoints == was || |checkpoints - regionStarts| >= maxRows
        invariant forall o, j :: o in was - checkpoints && j in checkpoints - regionStarts ==> Farther(o, j, anchor)
        decreases |checkpoints - regionStarts|
      {
        var loose := checkpoints - regionStarts;
        var remove := FarEnd(loose, anchor);
        checkpoints := checkpoints - {remove};
        assert checkpoints - regionStarts == loose - {remove};
      }
    }

    // Add a run of decoded rows, and a checkpoint at every 32nd one.
    method AddRun(l: Listing, decoded: seq<Row>)
      requires Consistent(l, rows, checkpoints, regionStarts) && AllGenuine(l, decoded)
      modifies this`rows, this`checkpoints
      ensures Consistent(l, rows, checkpoints, regionStarts)
      ensures rows == WithRows(old(rows), decoded) && checkpoints == old(checkpoints) + Strides(decoded)
    {
      hide Consistent, Genuine, WithRows, Strides;
      RunOfNone(rows);
      for i := 0 to |decoded|
        invariant Consistent(l, rows, checkpoints, regionStarts)
        invariant rows == WithRows(old(rows), decoded[..i]) && checkpoints == old(checkpoints) + Strides(decoded[..i])
      {
        var row := decoded[i];
        assert row in decoded;
        RunSnoc(old(rows), decoded, i);
        ConsistentAdd(l, rows, checkpoints, regionStarts, row);
        if i == 0 || i % CHECKPOINT_STRIDE == 0 {
          checkpoints := checkpoints + {row.offset};
        }
        rows := rows[row.offset := row];
      }
      assert decoded[..|decoded|] == decoded;
    }

    /**
     * Add a run of decoded rows and shrink back to the limits, the farthest rows and checkpoints first.
     * The rows are over the limit afterwards exactly when more than the limit are protected.
     */
    method InsertRows(l: Listing, decoded: seq<Row>, anchor: nat, lo: nat, hi: nat)
      requires Consistent(l, rows, checkpoints, regionStarts) && AllGenuine(l, decoded)
      modifies this`rows, this`checkpoints
      ensures Consistent(l, rows, checkpoints, regionStarts)
      ensures rows == Trimmed(WithRows(old(rows), decoded), maxRows, anchor, lo, hi)
      ensures Pruned(WithRows(old(rows), decoded), rows, anchor, lo, hi)
      ensures |rows| == Min(|WithRows(old(rows), decoded)|, Max(maxRows, |Protected(WithRows(old(rows), decoded), lo, hi)|))
      ensures PrunedPoints(old(checkpoints) + Strides(decoded), checkpoints, regionStarts, anchor, maxRows)
    {
      hide Consistent, AllGenuine, Farther, WithRows, Strides, PrunedPoints, Trimmed;
      AddRun(l, decoded);
      ghost var full, points := rows, checkpoints;
      ConsistentFacts(l, rows, checkpoints, regionStarts);
      PruneRowsAround(anchor, lo, hi);
      PruneCheckpointsAround(anchor);
      PrunedPointsFacts(points, checkpoints, regionStarts, anchor, maxRows);
      ConsistentShrink(l, full, rows, points, checkpoints, regionStarts);
    }

    // Insert a run that starts at the cursor: what was protected, and the cursor's own row, stay cached.
    // `path` holds every row start of the chain in the protected range.
    method InsertFrom(l: Listing, decoded: seq<Row>, lo: nat, cursor: nat, ghost base: nat, ghost path: set<nat>)
      requires Valid(l) && (Exact(l) ==> base == 0)
      requires AllGenuine(l, decoded) && decoded != [] && decoded[0].offset == cursor && lo <= cursor
      requires (forall r :: r in decoded ==> cursor <= r.offset) && cursor - lo < MAX_ROW_BYTES * maxRows
      requires l.Carried() ==>
        ChainRows(l, base, decoded) && |path| <= maxRows && HoldsPath(l, base, path, lo, cursor + 1)
      modifies this`rows, this`checkpoints
      ensures Valid(l) && Kept(l, base, old(rows), old(checkpoints), rows, checkpoints, maxRows)
      ensures Insertion(old(rows), decoded, lo, cursor, maxRows, rows)
    {
      hide Healthy, AllGenuine, ChainRows, HoldsPath, Pruned, PrunedPoints, Exact, Listing.Carried, AllOn, Grown, WithRows;
      hide Strides, Trimmed, Consistent;
      ghost var was, points := rows, checkpoints;
      HealthyFacts(l, rows, checkpoints, regionStarts, maxRows);
      InsertRows(l, decoded, cursor, lo, cursor);
      PrunedPointsFacts(points + Strides(decoded), checkpoints, regionStarts, cursor, maxRows);
      InsertedRows(was, rows, decoded, lo, cursor);
      ProtectedRange(WithRows(was, decoded), lo, cursor);
      if l.Carried() {
        InsertedOnChain(l, base, was, rows, points, checkpoints, decoded, lo, cursor, path, maxRows);
      }
      KeptHealthy(l, base, was, points, rows, checkpoints, regionStarts, maxRows);
    }

    /** Decode and cache the rows that follow `start`, a batch at a time. */
    method EnsureRowsCached(l: Listing, start: nat, rowCount: nat, ghost base: nat)
      requires Valid(l) && (Exact(l) ==> base == 0) && start < |l.doc| && (l.Carried() ==> Reaches(l, base, start))
      modifies this`rows, this`checkpoints
      ensures Valid(l) && Kept(l, base, old(rows), old(checkpoints), rows, checkpoints, maxRows)
      ensures FilledUp(l, old(rows), start, Target(rowCount, maxRows), maxRows, rows)
      ensures Holds(l, rows, start, Min(rowCount + 32, maxRows))
    {
      hide Healthy, Kept, Filling, FilledUp, Insertion, ChainRows, AllGenuine, Listing.Carried, Exact, HoldsPath, Reaches;
      hide GenuineMap, Usable, Batch, Listing.Streamed, Consistent, Snug, AllOn, RegionsOf;
      var targetRows := Min(rowCount + PREFETCH_ROWS, maxRows);
      var cursor, cached: nat := start, 0;
      ghost var was, wasPoints, path: set<nat> := rows, checkpoints, {};
      HealthyFacts(l, rows, checkpoints, regionStarts, maxRows);
      KeptNone(l, base, rows, checkpoints, maxRows);
      FillingNone(l, base, rows, start, targetRows, maxRows);
      while cached < targetRows && cursor < |l.doc|
        invariant Valid(l) && Kept(l, base, was, wasPoints, rows, checkpoints, maxRows) && cached <= targetRows
        invariant Filling(l, base, was, rows, start, targetRows, cached, cursor, path, maxRows)
        decreases |l.doc| - cursor, if cursor in rows then 0 else 1
      {
        if cursor in rows {
          FillingHit(l, base, was, rows, start, targetRows, cached, cursor, path, maxRows);
          cached := cached + 1;
          path := path + {cursor};
          var next := rows[cursor].End();
          if next <= cursor {
            break;
          }
          cursor := next;
          continue;
        }
        HealthyFacts(l, rows, checkpoints, regionStarts, maxRows);
        FillingPath(l, base, was, rows, start, targetRows, cached, cursor, path, maxRows);
        var batch := Batch(targetRows - cached);
        var decoded := Decode(l, base, cursor, batch);
        if decoded == [] {
          break;
        }
        ghost var mid, midPoints := rows, checkpoints;
        InsertFrom(l, decoded, start, cursor, base, path + {cursor});
        HealthyFacts(l, rows, checkpoints, regionStarts, maxRows);
        KeptTwice(l, base, was, wasPoints, mid, midPoints, rows, checkpoints, maxRows);
        FillingMiss(l, base, was, mid, start, targetRows, cached, cursor, path, maxRows, rows);
        InsertionHolds(mid, decoded, start, cursor, maxRows, rows);
      }
      FillingEnd(l, base, was, rows, start, targetRows, cached, cursor, path, maxRows);
      FilledHolds(l, was, start, targetRows, maxRows, rows);
    }

    static lemma {:induction false} FilledHolds(l: Listing, was: map<nat, Row>, start: nat, target: nat, maxRows: nat,
          now: map<nat, Row>)
      requires FilledUp(l, was, start, target, maxRows, now)
      ensures Holds(l, now, start, target)
    {
    }

    static lemma {:induction false} InsertionHolds(was: map<nat, Row>, decoded: seq<Row>, lo: nat, cursor: nat,
          maxRows: nat, now: map<nat, Row>)
      requires Insertion(was, decoded, lo, cursor, maxRows, now)
      ensures cursor in now
    {
    }

    // Decode a run of rows from an offset of the document.
    static method Decode(l: Listing, ghost base: nat, cursor: nat, batch: nat) returns (decoded: seq<Row>)
      requires Usable(l) && cursor < |l.doc| && batch > 0 && (l.Carried() ==> Reaches(l, base, cursor))
      ensures decoded == l.Streamed(cursor, batch)
      ensures AllGenuine(l, decoded) && decoded != [] && decoded[0].offset == cursor
      ensures forall r :: r in decoded ==> cursor <= r.offset
      ensures l.Carried() ==> ChainRows(l, base, decoded)
    {
      hide AllGenuine, ChainRows, Usable, Listing.Carried, Reaches, Listing.Streamed;
      decoded := l.DecodeRegionRows(cursor, batch);
      DecodedFacts(l, base, cursor, batch);
    }

    /**
     * The start of the row that answers for an offset. A cached row that reaches over it, or a walk through
     * code, gives a row that covers it; a data region gives its grid.
     */
    method RowStartCoveringOrAfter(l: Listing, at: nat, ghost base: nat) returns (found: Option<nat>)
      requires Valid(l) && (Exact(l) ==> base == 0) && WellFormed(l.info.spans)
      requires l.doc != [] && l.Carried() ==> Reaches(l, base, SetOut(l, rows, checkpoints, Min(at, |l.doc| - 1)))
      modifies this`rows, this`checkpoints
      ensures Valid(l) && Kept(l, base, old(rows), old(checkpoints), rows, checkpoints, maxRows)
      ensures l.doc == [] ==> found == None && rows == old(rows)
      ensures l.doc != [] ==> FoundRow(l, old(rows), old(checkpoints), Min(at, |l.doc| - 1), maxRows, rows, found)
    {
      hide Healthy, Kept, Listing.Carried, Reaches, RegionsOf, Exact, SoughtRow, Sought, FoundRow, RegionAt;
      hide GenuineMap, Usable, Consistent, Snug, AllOn;
      KeptNone(l, base, rows, checkpoints, maxRows);
      if l.doc == [] {
        return None;
      }
      var offset: nat := Min(at, |l.doc| - 1);
      RegionHolds(l, offset);
      LookedUp(l, rows, checkpoints, offset);
      var prev := LastWithin(rows.Keys, 0, offset);
      if prev.Some? {
        if offset < rows[prev.value].End() {
          FoundAtOnce(l, rows, checkpoints, offset, maxRows);
          return prev;
        }
      }
      var regions := VisibleRegions(l.info.spans, |l.doc|);
      var found' := RegionContainingOrAfter(regions, offset);
      var region := found'.value;
      if !region.executable {
        FoundAtOnce(l, rows, checkpoints, offset, maxRows);
        return Some(DataRowStart(region.start, Max(offset, region.start)));
      }
      var cursor := region.start;
      if prev.Some? && prev.value >= region.start {
        cursor := prev.value;
      } else {
        var point := LastWithin(checkpoints, region.start, offset);
        if point.Some? {
          cursor := point.value;
        }
      }
      SetOutBefore(l, rows, checkpoints, offset);
      ghost var was, points := rows, checkpoints;
      found := Advance(l, cursor, region.endInclusive, offset, base);
      FoundBySearch(l, was, points, offset, maxRows, rows, found);
    }

    // The region that the lookup finds is the one the offset lies in.
    static lemma {:induction false} LookedUp(l: Listing, rows: map<nat, Row>, points: set<nat>, offset: nat)
      requires WellFormed(l.info.spans) && offset < |l.doc|
      ensures RegionContainingOrAfter(RegionsOf(l.info.spans, |l.doc|), offset) == Some(RegionAt(l, offset))
    {
      RegionOfOffset(l, offset);
    }

    // Walk from a row start at or before `offset` to a row that covers it.
    method Advance(l: Listing, from: nat, regionEnd: nat, offset: nat, ghost base: nat) returns (found: Option<nat>)
      requires Valid(l) && (Exact(l) ==> base == 0) && from <= offset <= regionEnd < |l.doc|
      requires l.Carried() ==> Reaches(l, base, from)
      modifies this`rows, this`checkpoints
      ensures Valid(l) && Kept(l, base, old(rows), old(checkpoints), rows, checkpoints, maxRows)
      ensures SoughtRow(l, old(rows), from, regionEnd, offset, maxRows, rows, found)
    {
      hide Healthy, Kept, Insertion, ChainRows, AllGenuine, Listing.Carried, Exact, HoldsPath, Reaches, SoughtRow, Seeking;
      hide GenuineMap, Usable, Listing.Streamed, Consistent, Snug, AllOn, RegionsOf, Sought;
      var cursor := from;
      ghost var was, wasPoints := rows, checkpoints;
      HealthyFacts(l, rows, checkpoints, regionStarts, maxRows);
      KeptNone(l, base, rows, checkpoints, maxRows);
      SeekingNone(l, base, rows, from, regionEnd, offset, maxRows);
      while true
        invariant Valid(l) && Kept(l, base, was, wasPoints, rows, checkpoints, maxRows) && cursor <= offset
        invariant Seeking(l, base, was, rows, from, cursor, regionEnd, offset, maxRows)
        decreases offset - cursor
      {
        ghost var mid, midPoints := rows, checkpoints;
        HealthyFacts(l, rows, checkpoints, regionStarts, maxRows);
        if cursor !in rows {
          SeekingOn(l, base, was, rows, from, cursor, regionEnd, offset, maxRows);
          var decoded := Decode(l, base, cursor, Max(PREFETCH_ROWS, 8));
          if decoded == [] {
            return None;
          }
          OwnPath(l, base, cursor);
          InsertFrom(l, decoded, cursor, cursor, base, {cursor});
          KeptTwice(l, base, was, wasPoints, mid, midPoints, rows, checkpoints, maxRows);
          HealthyFacts(l, rows, checkpoints, regionStarts, maxRows);
        }
        SeekingStep(l, base, was, mid, from, cursor, regionEnd, offset, maxRows, rows);
        var row := rows[cursor];
        if offset < row.End() {
          return Some(row.offset);
        }
        var next := row.End();
        if next <= cursor || next > regionEnd {
          return None;
        }
        cursor := next;
      }
      return None;
    }

    static lemma {:induction false} SeekingOn(l: Listing, base: nat, was: map<nat, Row>, now: map<nat, Row>, from: nat,
          cursor: nat, regionEnd: nat, offset: nat, maxRows: nat)
      requires Seeking(l, base, was, now, from, cursor, regionEnd, offset, maxRows)
      ensures l.Carried() ==> Reaches(l, base, cursor)
    {
      hide Listing.Carried, Sought, Reaches;
    }

    static lemma {:induction false} OwnPath(l: Listing, base: nat, cursor: nat)
      ensures HoldsPath(l, base, {cursor}, cursor, cursor + 1)
    {
    }

    // The run of rows an answer consists of, and what the cache holds afterwards.
    method CollectFrom(l: Listing, first: nat, rowCount: nat, ghost base: nat) returns (result: seq<Row>)
      requires Valid(l) && (Exact(l) ==> base == 0) && first < |l.doc| && (l.Carried() ==> Reaches(l, base, first))
      modifies this`rows, this`checkpoints
      ensures Valid(l) && Kept(l, base, old(rows), old(checkpoints), rows, checkpoints, maxRows)
      ensures WalkedFrom(l, old(rows), first, rowCount, maxRows, rows, result)
    {
      hide Healthy, Kept, FilledUp, WalkedFrom, Listing.Carried, Exact, Reaches, Leads, RowsMet, GenuineMap, Usable, Consistent;
      hide Snug, AllOn, RegionsOf;
      EnsureRowsCached(l, first, rowCount, base);
      HealthyFacts(l, rows, checkpoints, regionStarts, maxRows);
      var cursor := first;
      WalkNone(rows, first);
      ghost var held, points := rows, checkpoints;
      result := [];
      while |result| < rowCount
        invariant rows == held && checkpoints == points && |result| <= rowCount
        invariant Leads(rows, first, |result|, cursor) && result == RowsMet(rows, first, |result|)
        decreases rowCount - |result|
      {
        if cursor !in rows {
          break;
        }
        GenuineHere(l, rows, cursor);
        LeadsStep(rows, first, |result|, cursor);
        var next := rows[cursor].End();
        result := result + [rows[cursor]];
        if next <= cursor {
          break;
        }
        cursor := next;
      }
      WalkedTo(l, old(rows), first, rowCount, maxRows, rows, |result|, cursor);
    }

    static lemma {:induction false} WalkNone(rows: map<nat, Row>, start: nat)
      ensures RowsMet(rows, start, 0) == [] && Leads(rows, start, 0, start)
    {
    }

    static lemma {:induction false} GenuineHere(l: Listing, rows: map<nat, Row>, cursor: nat)
      requires GenuineMap(l, rows) && cursor in rows
      ensures cursor < rows[cursor].End()
    {
      hide Listing.Carried, Listing.RowAt;
      assert Genuine(l, cursor, rows[cursor]);
    }

    /**
     * The rows from the one that answers for `start` on: an unbroken run that shows the document, `rowCount`
     * rows, or as many as remain, or as the cache can hold. Where streaming is exact they are the decoder's
     * own, and a fresh cache starts at the row its region gives; on gridded spans that is the row that
     * covers `start`, however the cache was filled and pruned before. A cache within its limit stays within
     * it whenever the rows asked for, and 32 more, could not span more offsets than the limit.
     */
    method CollectRows(l: Listing, start: nat, rowCount: nat) returns (result: seq<Row>)
      requires Valid(l)
      modifies this`rows, this`checkpoints
      ensures Valid(l) && |rows| <= Max(old(|rows|), Room(rowCount, maxRows)) && |result| <= rowCount
      ensures Answers(l, old(rows), old(checkpoints), regionStarts, start, rowCount, maxRows, rows, result)
    {
      hide Healthy, Usable, Listing.Carried, Exact, GenuineMap, Snug, Parts, Answers, Room, RegionsOf, Consistent, AllOn;
      HealthyFacts(l, rows, checkpoints, regionStarts, maxRows);
      ghost var was, points := rows, checkpoints;
      if l.doc == [] || rowCount == 0 {
        NothingAsked(l, was, points, regionStarts, start, rowCount, maxRows);
        return [];
      }
      ghost var seen, first;
      result, seen, first := CollectSome(l, Min(start, |l.doc| - 1), rowCount);
      Answered(l, was, points, regionStarts, start, rowCount, maxRows, seen, first, rows, result);
    }

    // The same for rows that exist.
    method CollectSome(l: Listing, offset: nat, rowCount: nat)
      returns (result: seq<Row>, ghost seen: map<nat, Row>, ghost first: nat)
      requires Valid(l) && offset < |l.doc| && rowCount > 0 && WellFormed(l.info.spans)
      modifies this`rows, this`checkpoints
      ensures Valid(l) && |rows| <= Max(old(|rows|), Room(rowCount, maxRows)) && |result| <= rowCount
      ensures Parts(l, old(rows), old(checkpoints), regionStarts, offset, rowCount, maxRows, seen, first, rows, result)
    {
      hide Healthy, Usable, Listing.Carried, Exact, GenuineMap, Snug, Parts, Room, RegionsOf, Consistent, AllOn, Kept, Reaches;
      hide FoundRow, WalkedFrom, StartFor, SetOut, Base, Covering, FreshStart;
      HealthyFacts(l, rows, checkpoints, regionStarts, maxRows);
      ghost var was, points := rows, checkpoints;
      ghost var base := Base(l, rows, checkpoints, offset);
      AnswerFacts(l, rows, checkpoints, regionStarts, offset, maxRows);
      var found := RowStartCoveringOrAfter(l, offset, base);
      ghost var seenPoints := checkpoints;
      FoundInside(l, was, points, offset, maxRows, rows, found, base);
      seen, first := rows, found.value;
      result := CollectFrom(l, found.value, rowCount, base);
      KeptTwice(l, base, was, points, seen, seenPoints, rows, checkpoints, maxRows);
      PartsHold(l, was, points, regionStarts, offset, rowCount, maxRows, seen, first, rows, checkpoints, result);
    }

    static lemma {:induction false} FoundInside(l: Listing, was: map<nat, Row>, points: set<nat>, offset: nat,
          maxRows: nat, now: map<nat, Row>, found: Option<nat>, base: nat)
      requires WellFormed(l.info.spans) && offset < |l.doc| && FoundRow(l, was, points, offset, maxRows, now, found)
      requires Reaches(l, base, StartFor(l, was, points, offset))
      ensures found.Some? && found.value < |l.doc| && (l.Carried() ==> Reaches(l, base, found.value))
    {
      hide Listing.Carried, Reaches, StartFor, RegionAt, CachedOver, Located;
    }
  }

  /** Where everything is exact, two caches of one listing, filled, pruned and sized differently, give the same rows. */
  method SameAnswer(l: Listing, a: DisasmCache, b: DisasmCache, start: nat, rowCount: nat) returns (x: seq<Row>,
        y: seq<Row>)
    requires a != b && a.Valid(l) && b.Valid(l) && Exact(l) && rowCount <= a.maxRows && rowCount <= b.maxRows
    modifies a, b
    ensures a.Valid(l) && b.Valid(l) && x == y
    ensures x == CanonicalListing(l, start, rowCount)
  {
    hide Consistent, Exact, Collected, Unbroken, OwnRows, FreshListing, CanonicalListing;
    x := a.CollectRows(l, start, rowCount);
    y := b.CollectRows(l, start, rowCount);
  }

  // The answer of a fresh cache.
  method Cold(l: Listing, limit: nat, offset: nat) returns (answer: seq<Row>)
    requires Usable(l) && l.Carried() && offset < |l.doc|
    ensures |answer| == 1 && answer[0].offset == FreshStart(l, offset)
  {
    hide Usable, Listing.Carried, Listing.Chain, FreshStart, Exact, Consistent, Collected, Unbroken, OwnRows, CanonicalListing;
    UsableSpans(l);
    var cache := new DisasmCache(l, limit);
    FreshStartInside(l, offset);
    FirstOfChain(l, FreshStart(l, offset));
    answer := cache.CollectRows(l, offset, 1);
  }

  lemma {:induction false} UsableSpans(l: Listing)
    requires Usable(l)
    ensures WellFormed(l.info.spans)
  {
  }

  // A cache that holds nothing but rows of the listing, one that starts at `at` among them.
  ghost predicate Listed(l: Listing, rows: map<nat, Row>, at: nat) {
    GenuineMap(l, rows) && AllOn(l, 0, rows.Keys) && at in rows && at < |l.doc| && Reaches(l, 0, at)
  }

  // It answers there, and what it adds are more rows of the listing.
  lemma {:induction false} ListedMore(l: Listing, rows: map<nat, Row>, points: set<nat>, at: nat, n: nat, maxRows: nat,
        now: map<nat, Row>, result: seq<Row>)
    requires l.Carried() && WellFormed(l.info.spans) && Listed(l, rows, at) && GenuineMap(l, now)
    requires OwnRows(l, rows, points, at, n, maxRows, now, result) && |result| <= n <= maxRows
    ensures result == l.Chain(at, n) && AllOn(l, 0, now.Keys)
  {
    hide Listing.Carried, GenuineMap, Listing.Chain, Covering, StartFor, SetOut, Listing.RowAt, Reaches, Base;
    CoveringFacts(l, at, at);
    assert Covering(l, 0, at) == at by { OwnCovering(l, at); }
    CachedAnswer(l, rows, points, at);
    BaseIs(l, rows, points, at);
    GrownFrom(l, Base(l, rows, points, at), rows.Keys, now.Keys);
  }

  lemma {:induction false} OwnCovering(l: Listing, at: nat)
    requires at < |l.doc| && Reaches(l, 0, at)
    ensures Covering(l, 0, at) == at
  {
    hide Covering, Reaches;
    CoveringUnique(l, 0, at, at);
  }

  lemma {:induction false} BaseIs(l: Listing, rows: map<nat, Row>, points: set<nat>, at: nat)
    requires WellFormed(l.info.spans) && at < |l.doc| && Reaches(l, 0, at) && SetOut(l, rows, points, at) == at
    ensures Reaches(l, 0, Base(l, rows, points, at))
  {
    hide SetOut, Exact;
  }

  lemma {:induction false} GrownFrom(l: Listing, base: nat, before: set<nat>, after: set<nat>)
    requires Reaches(l, 0, base) && Grown(l, base, before, after) && AllOn(l, 0, before)
    ensures AllOn(l, 0, after)
  {
    hide Reaches;
    forall o | o in after ensures OnChain(l, 0, o) {
      if o !in before {
        ReachJoin(l, 0, base, o);
      }
    }
  }

  // The first row asked of a fresh cache is the first of the document.
  lemma {:induction false} ListedFirst(l: Listing, starts: set<nat>, maxRows: nat, now: map<nat, Row>, result: seq<Row>)
    requires WellFormed(l.info.spans) && l.doc != [] && starts == StartsOf(RegionsOf(l.info.spans, |l.doc|)) && maxRows > 0
    requires GenuineMap(l, now) && OwnRows(l, map[], starts, 0, 1, maxRows, now, result) && |result| <= 1
    requires forall r :: r in result ==> r.offset in now
    ensures Listed(l, now, 0)
  {
    hide GenuineMap, Listing.Chain, Covering, StartFor, Reaches, Base, RegionsOf;
    var none: map<nat, Row> := map[];
    assert none.Keys == {};
    FreshAtZero(l);
    FirstOfChain(l, 0);
    ReachesSelf(l, 0);
    GrownFrom(l, 0, none.Keys, now.Keys);
    assert result[0] in result;
  }

  // Two rows of the listing: the first covers the offset, or the second starts at or before it.
  lemma {:induction false} NextListed(l: Listing, at: nat, offset: nat)
    requires Reaches(l, 0, at) && at <= offset < |l.doc|
    ensures
      var pair := l.Chain(at, 2);
      && pair != [] && pair[0].offset == at
      && if offset < pair[0].End() then at == Covering(l, 0, offset)
         else |pair| == 2 && at < pair[1].offset <= offset && Reaches(l, 0, pair[1].offset)
  {
    hide Listing.RowAt, Reaches, Covering;
    var end := l.RowAt(at).End();
    assert l.Chain(at, 2)[0] == l.RowAt(at) && l.Chain(at, 2)[1..] == l.Chain(end, 1);
    if offset < end {
      CoveringUnique(l, 0, at, offset);
    } else {
      ReachStep(l, 0, at);
      FirstOfChain(l, end);
      assert l.Chain(at, 2)[1] == l.Chain(end, 1)[0];
    }
  }

  lemma {:induction false} ListedAt(l: Listing, rows: map<nat, Row>, at: nat)
    requires GenuineMap(l, rows) && AllOn(l, 0, rows.Keys) && at in rows && at < |l.doc| && Reaches(l, 0, at)
    ensures Listed(l, rows, at)
  {
  }

  // A cache of any limit that has listed the document, row after row, up to the one that covers the offset.
  method ListedUpTo(l: Listing, limit: nat, offset: nat) returns (cache: DisasmCache)
    requires Usable(l) && l.Carried() && WellFormed(l.info.spans) && offset < |l.doc|
    ensures fresh(cache) && cache.Valid(l) && cache.maxRows == Max(limit, PREFETCH_ROWS)
    ensures Listed(l, cache.rows, Covering(l, 0, offset))
  {
    hide Usable, Listing.Carried, Listing.Chain, Covering, Exact, Consistent, Collected, Unbroken, OwnRows, FreshListing;
    hide CanonicalListing, Listed, GenuineMap, RegionsOf, Snug, AllOn, Reaches;
    cache := new DisasmCache(l, limit);
    var at := 0;
    ListFirst(l, cache);
    ReachesSelf(l, 0);
    while true
      invariant fresh(cache) && cache.Valid(l) && cache.maxRows == Max(limit, PREFETCH_ROWS)
      invariant Listed(l, cache.rows, at) && at <= offset && Reaches(l, 0, at)
      decreases offset - at
    {
      var pair := ListPair(l, cache, at);
      NextListed(l, at, offset);
      if offset < pair[0].End() {
        return;
      }
      at := pair[1].offset;
    }
  }

  method ListFirst(l: Listing, cache: DisasmCache)
    requires cache.Valid(l) && l.Carried() && l.doc != [] && cache.rows == map[] && cache.checkpoints == cache.regionStarts
    modifies cache`rows, cache`checkpoints
    ensures cache.Valid(l) && Listed(l, cache.rows, 0)
  {
    hide Usable, Listing.Carried, Listing.Chain, Exact, Consistent, Collected, Unbroken, OwnRows, FreshListing;
    hide CanonicalListing, Listed, GenuineMap, RegionsOf, Snug, AllOn;
    ConsistentFacts(l, cache.rows, cache.checkpoints, cache.regionStarts);
    ghost var starts := cache.checkpoints;
    var listed := cache.CollectRows(l, 0, 1);
    ConsistentFacts(l, cache.rows, cache.checkpoints, cache.regionStarts);
    ListedFirst(l, starts, cache.maxRows, cache.rows, listed);
  }

  method ListPair(l: Listing, cache: DisasmCache, at: nat) returns (pair: seq<Row>)
    requires cache.Valid(l) && l.Carried() && Listed(l, cache.rows, at)
    modifies cache`rows, cache`checkpoints
    ensures cache.Valid(l) && pair == l.Chain(at, 2)
    ensures forall r :: r in pair && Reaches(l, 0, r.offset) && r.offset < |l.doc| ==> Listed(l, cache.rows, r.offset)
  {
    hide Usable, Listing.Carried, Listing.Chain, Exact, Consistent, Collected, Unbroken, OwnRows, FreshListing;
    hide CanonicalListing, Listed, GenuineMap, Snug, AllOn, Reaches;
    ConsistentFacts(l, cache.rows, cache.checkpoints, cache.regionStarts);
    ghost var was, points := cache.rows, cache.checkpoints;
    pair := cache.CollectRows(l, at, 2);
    ConsistentFacts(l, cache.rows, cache.checkpoints, cache.regionStarts);
    ListedMore(l, was, points, at, 2, cache.maxRows, cache.rows, pair);
    forall r | r in pair && Reaches(l, 0, r.offset) && r.offset < |l.doc| ensures Listed(l, cache.rows, r.offset) {
      ListedAt(l, cache.rows, r.offset);
    }
  }

  // Its answer.
  method Warm(l: Listing, limit: nat, offset: nat) returns (answer: seq<Row>)
    requires Usable(l) && l.Carried() && offset < |l.doc|
    ensures |answer| == 1 && answer[0].offset == Covering(l, 0, offset)
  {
    hide Usable, Listing.Carried, Listing.Chain, Covering, Exact, Consistent, Collected, Unbroken, OwnRows, FreshListing;
    hide CanonicalListing, Listed, GenuineMap, Snug, AllOn;
    UsableSpans(l);
    var cache := ListedUpTo(l, limit, offset);
    ghost var was, points := cache.rows, cache.checkpoints;
    answer := cache.CollectRows(l, offset, 1);
    WarmAnswer(l, was, points, offset, cache.maxRows, cache.rows, answer);
  }

  lemma {:induction false} WarmAnswer(l: Listing, rows: map<nat, Row>, points: set<nat>, offset: nat, maxRows: nat,
        now: map<nat, Row>, answer: seq<Row>)
    requires l.Carried() && WellFormed(l.info.spans) && offset < |l.doc| && Listed(l, rows, Covering(l, 0, offset))
    requires OwnRows(l, rows, points, offset, 1, maxRows, now, answer) && |answer| <= 1 <= maxRows
    ensures |answer| == 1 && answer[0].offset == Covering(l, 0, offset)
  {
    hide Listing.Carried, GenuineMap, Listing.Chain, Covering, StartFor, Base, Grown;
    CachedAnswer(l, rows, points, offset);
    FirstOfChain(l, Covering(l, 0, offset));
  }

  /**
   * Elsewhere the answer depends on what was asked before, whatever the limit: wherever a fresh cache misses
   * the covering row, one that has listed the document row after row up to there finds it.
   * `RowGrids.UngriddedMisses` gives such a decoder and offset for every listing that is not gridded.
   */
  method HistoryMatters(l: Listing, limit: nat, offset: nat) returns (cold: seq<Row>, warm: seq<Row>)
    requires Usable(l) && l.Carried() && offset < |l.doc|
    requires FreshStart(l, offset) != Covering(l, 0, offset)
    ensures |cold| == |warm| == 1 && cold != warm
    ensures cold[0].offset == FreshStart(l, offset) && warm[0].offset == Covering(l, 0, offset)
  {
    hide Usable, Listing.Carried, Covering, FreshStart;
    UsableSpans(l);
    cold := Cold(l, limit, offset);
    warm := Warm(l, limit, offset);
  }

  /** The sixteen bytes of `RowGrids.NestedDataExample`: the fresh answer for byte 13 does not hold it, the warm one does. */
  method NestedHistory(doc: seq<Byte>, limit: nat) returns (cold: seq<Row>, warm: seq<Row>)
    requires |doc| == 16
    ensures |cold| == |warm| == 1 && cold[0].offset == 8 && warm[0].offset == 12
  {
    NestedDataExample(doc);
    cold, warm := HistoryMatters(Nested(doc), limit, 13);
  }
}
