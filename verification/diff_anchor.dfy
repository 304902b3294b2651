/**
 * Where two streams line up again: a k-gram search through a hash index, and what it must agree with,
 * a search of every pair of skips.
 */
module DiffAnchors {
  import opened Common

  const DEFAULT_CHUNK_SIZE: nat := 64 * 1024
  const MAX_SHIFT_HARD_CAP: nat := 1024 * 1024
  const CANDIDATES_PER_HASH_CAP: nat := 32
  const TIE_FOLLOWING_SAMPLE: nat := 64

  datatype Options = Options(maxShift: nat, anchorLen: nat, verifyLen: nat, hunkCap: nat, previewLen: nat, chunkSize: nat) {
    function Normalized(): (o: Options)
      ensures o.Normal() && o.verifyLen == verifyLen && (Normal() ==> o == this)
      ensures o.maxShift == if maxShift <= MAX_SHIFT_HARD_CAP then maxShift else MAX_SHIFT_HARD_CAP
      ensures o.anchorLen == (if anchorLen == 0 then 1 else anchorLen) && o.hunkCap == (if hunkCap == 0 then 1 else hunkCap)
      ensures o.previewLen == (if previewLen == 0 then 1 else previewLen) && o.chunkSize == (if chunkSize == 0 then 1 else chunkSize)
    {
      Options(Min(maxShift, MAX_SHIFT_HARD_CAP), Max(anchorLen, 1), verifyLen, Max(hunkCap, 1), Max(previewLen, 1), Max(chunkSize, 1))
    }

    predicate Normal() {
      maxShift <= MAX_SHIFT_HARD_CAP && anchorLen > 0 && hunkCap > 0 && previewLen > 0 && chunkSize > 0
    }

    function UnresolvedBlockLen(): (n: nat)
      ensures n >= DEFAULT_CHUNK_SIZE
    {
      Max(DEFAULT_CHUNK_SIZE, Min(maxShift * 4, U64_MAX))
    }

    function LookaheadLen(): (n: nat)
      ensures n > 0
    {
      Max(SatAdd(SatAdd(SatAdd(maxShift, anchorLen), verifyLen), TIE_FOLLOWING_SAMPLE), 1)
    }
  }

  // ----- k-grams

  /** A run of one repeated byte says nothing about where it came from. */
  predicate LowInformation(bytes: seq<Byte>) {
    bytes != [] && forall k :: 0 <= k < |bytes| ==> bytes[k] == bytes[0]
  }

  predicate Informative(w: seq<Byte>, pos: nat, len: nat) {
    pos + len <= |w| && !LowInformation(w[pos..pos + len])
  }

  /** A k-gram is informative exactly when it holds two different bytes, or none. */
  lemma {:induction false} InformativeExact(w: seq<Byte>, pos: nat, len: nat)
    requires pos + len <= |w|
    ensures Informative(w, pos, len) <==> len == 0 || exists i, j :: pos <= i < j < pos + len && w[i] != w[j]
  {
    var kgram := w[pos..pos + len];
    if len > 0 && !LowInformation(kgram) {
      var k :| 0 <= k < len && kgram[k] != kgram[0];
      assert w[pos] != w[pos + k];
    }
    if i, j :| pos <= i < j < pos + len && w[i] != w[j] {
      assert kgram[i - pos] != kgram[j - pos];
    }
  }

  function FollowingEqual(l: seq<Byte>, r: seq<Byte>, limit: nat): (n: nat) {
    if limit == 0 || l == [] || r == [] || l[0] != r[0] then 0 else 1 + FollowingEqual(l[1..], r[1..], limit - 1)
  }

  /** The count of equal bytes is exact: that many agree, and it stops at a difference, an end or the limit. */
  lemma {:induction false} FollowingEqualFacts(l: seq<Byte>, r: seq<Byte>, limit: nat)
    ensures
      var n := FollowingEqual(l, r, limit);
      && n <= limit && n <= |l| && n <= |r| && l[..n] == r[..n]
      && (n == limit || n == |l| || n == |r| || l[n] != r[n])
    decreases limit
  {
    if limit > 0 && l != [] && r != [] && l[0] == r[0] {
      FollowingEqualFacts(l[1..], r[1..], limit - 1);
      var n := FollowingEqual(l[1..], r[1..], limit - 1);
      assert l[..n + 1] == [l[0]] + l[1..][..n] && r[..n + 1] == [r[0]] + r[1..][..n];
    }
  }

  // ----- candidates

  datatype Anchor = Anchor(leftSkip: nat, rightSkip: nat, followingEqual: nat) {
    function Score(): nat {
      leftSkip + rightSkip
    }

    predicate BetterThan(other: Anchor) {
      || Score() < other.Score()
      || (Score() == other.Score() && AbsDiff(leftSkip, rightSkip) < AbsDiff(other.leftSkip, other.rightSkip))
      || (Score() == other.Score() && AbsDiff(leftSkip, rightSkip) == AbsDiff(other.leftSkip, other.rightSkip)
          && followingEqual > other.followingEqual)
    }

    predicate FoundBefore(other: Anchor) {
      leftSkip < other.leftSkip || (leftSkip == other.leftSkip && rightSkip < other.rightSkip)
    }

    // What makes `this` the choice over `other`: it is better, or as good and found first.
    ghost predicate Beats(other: Anchor) {
      BetterThan(other) || (!other.BetterThan(this) && FoundBefore(other))
    }
  }

  // Skipping these bytes on each side lines the streams up: an informative k-gram and what follows agree.
  ghost predicate Aligns(l: seq<Byte>, r: seq<Byte>, opts: Options, a: Anchor) {
    && a.leftSkip <= opts.maxShift && a.rightSkip <= opts.maxShift
    && (a.leftSkip > 0 || a.rightSkip > 0)
    && Informative(l, a.leftSkip, opts.anchorLen)
    && a.rightSkip + opts.anchorLen <= |r|
    && l[a.leftSkip..a.leftSkip + opts.anchorLen] == r[a.rightSkip..a.rightSkip + opts.anchorLen]
    && a.followingEqual == FollowingEqual(
         l[a.leftSkip + opts.anchorLen..], r[a.rightSkip + opts.anchorLen..], opts.verifyLen + TIE_FOLLOWING_SAMPLE)
    && a.followingEqual >= opts.verifyLen
  }

  /** The choice a search of all pairs makes: none if nothing aligns, else the one that beats every other. */
  ghost predicate BruteForce(l: seq<Byte>, r: seq<Byte>, opts: Options, found: Option<Anchor>) {
    match found
    case None => forall a :: !Aligns(l, r, opts, a)
    case Some(best) => Aligns(l, r, opts, best) && forall a :: Aligns(l, r, opts, a) ==> a == best || best.Beats(a)
  }

  // ----- the index

  type Hash = seq<Byte> -> nat

  // The informative positions below `n` whose k-gram hashes to `h`, in order.
  ghost function PositionsOf(r: seq<Byte>, len: nat, hash: Hash, h: nat, n: nat): seq<nat> {
    if n == 0 then []
    else
      PositionsOf(r, len, hash, h, n - 1) +
      if Informative(r, n - 1, len) && hash(r[n - 1..n - 1 + len]) == h then [n - 1] else []
  }

  // One past the last right position that the index takes in.
  ghost function SearchLimit(r: seq<Byte>, opts: Options): (n: nat)
    ensures n <= opts.maxShift + 1 && (n <= |r| || n == 1) && (n == opts.maxShift + 1 || n == |r| || |r| == 0)
  {
    Min(opts.maxShift, SatSub(|r|, 1)) + 1
  }

  function Cap(positions: seq<nat>): seq<nat> {
    positions[..Min(|positions|, CANDIDATES_PER_HASH_CAP)]
  }

  // What the index keeps for a hash.
  ghost function Bucket(r: seq<Byte>, opts: Options, hash: Hash, h: nat): seq<nat> {
    Cap(PositionsOf(r, opts.anchorLen, hash, h, SearchLimit(r, opts)))
  }

  lemma {:induction false} PositionsStep(r: seq<Byte>, len: nat, hash: Hash, h: nat, n: nat)
    requires n > 0
    ensures
      var front := PositionsOf(r, len, hash, h, n - 1);
      PositionsOf(r, len, hash, h, n) ==
        if Informative(r, n - 1, len) && hash(r[n - 1..n - 1 + len]) == h then front + [n - 1] else front
  {
  }

  // The informative positions below `n` whose k-gram hashes to `h`, and no others.
  lemma {:induction false} PositionsMean(r: seq<Byte>, len: nat, hash: Hash, h: nat, n: nat, p: nat)
    ensures p in PositionsOf(r, len, hash, h, n) <==> p < n && Informative(r, p, len) && hash(r[p..p + len]) == h
  {
    hide Informative;
    InformativeFits(r, p, len);
    if n > 0 {
      InformativeFits(r, n - 1, len);
      PositionsStep(r, len, hash, h, n);
      hide PositionsOf;
      PositionsMean(r, len, hash, h, n - 1, p);
    }
  }

  lemma {:induction false} PositionsSorted(r: seq<Byte>, len: nat, hash: Hash, h: nat, n: nat)
    ensures Ascending(PositionsOf(r, len, hash, h, n), n)
  {
    hide Informative;
    if n > 0 {
      InformativeFits(r, n - 1, len);
      PositionsStep(r, len, hash, h, n);
      PositionsSorted(r, len, hash, h, n - 1);
    }
  }

  ghost predicate Ascending(ps: seq<nat>, n: nat) {
    (forall i :: 0 <= i < |ps| ==> ps[i] < n) && forall i, j :: 0 <= i < j < |ps| ==> ps[i] < ps[j]
  }

  lemma {:induction false} InformativeFits(w: seq<Byte>, pos: nat, len: nat)
    ensures Informative(w, pos, len) ==> pos + len <= |w|
  {
  }

  // An alignment the index can lead to: its right position was kept.
  ghost predicate Findable(l: seq<Byte>, r: seq<Byte>, opts: Options, hash: Hash, a: Anchor) {
    && Aligns(l, r, opts, a)
    && a.rightSkip in Bucket(r, opts, hash, hash(l[a.leftSkip..a.leftSkip + opts.anchorLen]))
  }

  ghost predicate IndexedSearch(l: seq<Byte>, r: seq<Byte>, opts: Options, hash: Hash, found: Option<Anchor>) {
    match found
    case None => forall a :: !Findable(l, r, opts, hash, a)
    case Some(best) => Findable(l, r, opts, hash, best) && forall a :: Findable(l, r, opts, hash, a) ==> a == best || best.Beats(a)
  }

  // No hash value has more informative positions than the index keeps.
  ghost predicate Uncrowded(r: seq<Byte>, opts: Options, hash: Hash) {
    forall h :: |PositionsOf(r, opts.anchorLen, hash, h, SearchLimit(r, opts))| <= CANDIDATES_PER_HASH_CAP
  }

  lemma {:induction false} AlignedIsInformative(l: seq<Byte>, r: seq<Byte>, opts: Options, a: Anchor)
    requires Aligns(l, r, opts, a) && opts.anchorLen > 0
    ensures a.leftSkip + opts.anchorLen <= |l| && a.rightSkip < SearchLimit(r, opts)
    ensures Informative(r, a.rightSkip, opts.anchorLen) && a.rightSkip + opts.anchorLen <= |r|
    ensures l[a.leftSkip..a.leftSkip + opts.anchorLen] == r[a.rightSkip..a.rightSkip + opts.anchorLen]
  {
  }

  lemma {:induction false} KeptWhenUncrowded(r: seq<Byte>, opts: Options, hash: Hash, p: nat)
    requires Uncrowded(r, opts, hash) && p < SearchLimit(r, opts)
    requires Informative(r, p, opts.anchorLen) && p + opts.anchorLen <= |r|
    ensures p in Bucket(r, opts, hash, hash(r[p..p + opts.anchorLen]))
  {
    hide Informative, PositionsOf, SearchLimit;
    var h, n := hash(r[p..p + opts.anchorLen]), SearchLimit(r, opts);
    PositionsMean(r, opts.anchorLen, hash, h, n, p);
    var ps := PositionsOf(r, opts.anchorLen, hash, h, n);
    assert Cap(ps) == ps;
  }

  lemma {:induction false} UncrowdedFindsAll(l: seq<Byte>, r: seq<Byte>, opts: Options, hash: Hash, a: Anchor)
    requires Aligns(l, r, opts, a) && opts.anchorLen > 0 && Uncrowded(r, opts, hash)
    ensures Findable(l, r, opts, hash, a)
  {
    AlignedIsInformative(l, r, opts, a);
    hide Aligns, Informative, Bucket, Uncrowded, SearchLimit;
    KeptWhenUncrowded(r, opts, hash, a.rightSkip);
  }

  /** Whatever the hash, with no crowded bucket the index finds what a search of all pairs finds. */
  lemma {:induction false} IndexIsBruteForce(l: seq<Byte>, r: seq<Byte>, opts: Options, hash: Hash,
        found: Option<Anchor>)
    requires opts.anchorLen > 0 && Uncrowded(r, opts, hash)
    ensures IndexedSearch(l, r, opts, hash, found) <==> BruteForce(l, r, opts, found)
  {
    forall a ensures Findable(l, r, opts, hash, a) <==> Aligns(l, r, opts, a) {
      if Aligns(l, r, opts, a) {
        UncrowdedFindsAll(l, r, opts, hash, a);
      }
    }
  }

  lemma {:induction false} OneWinner(l: seq<Byte>, r: seq<Byte>, opts: Options, a: Option<Anchor>, b: Option<Anchor>)
    requires BruteForce(l, r, opts, a) && BruteForce(l, r, opts, b)
    ensures a == b
  {
  }

  lemma {:induction false} OneIndexedWinner(l: seq<Byte>, r: seq<Byte>, opts: Options, hash: Hash, a: Option<Anchor>,
        b: Option<Anchor>)
    requires IndexedSearch(l, r, opts, hash, a) && IndexedSearch(l, r, opts, hash, b)
    ensures a == b
  {
  }

  /**
   * The choice in full: fewer bytes skipped in all, then the more even skips, then the longer run of equal
   * bytes after the anchor, then the smaller left skip, then the smaller right skip.
   */
  lemma {:induction false} BeatsIsLexicographic(a: Anchor, b: Anchor)
    ensures
      a.Beats(b) <==>
        if a.leftSkip + a.rightSkip != b.leftSkip + b.rightSkip then a.leftSkip + a.rightSkip < b.leftSkip + b.rightSkip
        else if AbsDiff(a.leftSkip, a.rightSkip) != AbsDiff(b.leftSkip, b.rightSkip) then
          AbsDiff(a.leftSkip, a.rightSkip) < AbsDiff(b.leftSkip, b.rightSkip)
        else if a.followingEqual != b.followingEqual then a.followingEqual > b.followingEqual
        else if a.leftSkip != b.leftSkip then a.leftSkip < b.leftSkip
        else a.rightSkip < b.rightSkip
  {
  }

  lemma {:induction false} BeatsIsTotal(a: Anchor, b: Anchor)
    requires a.leftSkip != b.leftSkip || a.rightSkip != b.rightSkip
    ensures a.Beats(b) || b.Beats(a)
  {
  }

  lemma {:induction false} FindableFacts(l: seq<Byte>, r: seq<Byte>, opts: Options, hash: Hash, a: Anchor, b: Anchor)
    requires Findable(l, r, opts, hash, a) && Findable(l, r, opts, hash, b)
    ensures a.followingEqual <= opts.verifyLen + TIE_FOLLOWING_SAMPLE
    ensures a.leftSkip == b.leftSkip && a.rightSkip == b.rightSkip ==> a == b
  {
    FollowingEqualFacts(l[a.leftSkip + opts.anchorLen..], r[a.rightSkip + opts.anchorLen..],
          opts.verifyLen + TIE_FOLLOWING_SAMPLE);
    hide FollowingEqual, LowInformation, Bucket;
  }

  /** Where anything can be found, there is a best choice: the search comes back empty only when nothing aligns. */
  lemma {:induction false} BestExists(l: seq<Byte>, r: seq<Byte>, opts: Options, hash: Hash,
        a: Anchor) returns (best: Anchor)
    requires Findable(l, r, opts, hash, a)
    ensures IndexedSearch(l, r, opts, hash, Some(best))
    decreases a.Score(), AbsDiff(a.leftSkip, a.rightSkip), opts.verifyLen + TIE_FOLLOWING_SAMPLE - a.followingEqual, a.leftSkip
  {
    hide Findable;
    FindableFacts(l, r, opts, hash, a, a);
    if forall b :: Findable(l, r, opts, hash, b) ==> b == a || a.Beats(b) {
      best := a;
    } else {
      var b :| Findable(l, r, opts, hash, b) && b != a && !a.Beats(b);
      FindableFacts(l, r, opts, hash, b, a);
      BeatsIsTotal(a, b);
      best := BestExists(l, r, opts, hash, b);
    }
  }

  /** With crowded buckets, the index still finds the best pair exactly when that pair's right position was kept. */
  lemma {:induction false} IndexMissesOnlyDropped(l: seq<Byte>, r: seq<Byte>, opts: Options, hash: Hash,
        brute: Option<Anchor>, found: Option<Anchor>)
    requires BruteForce(l, r, opts, brute) && IndexedSearch(l, r, opts, hash, found)
    ensures found == brute <==>
      brute.None? ||
      brute.value.rightSkip in
        Bucket(r, opts, hash, hash(l[brute.value.leftSkip..brute.value.leftSkip + opts.anchorLen]))
  {
    hide Bucket;
    if brute.Some? && Findable(l, r, opts, hash, brute.value) {
      assert IndexedSearch(l, r, opts, hash, brute);
      OneIndexedWinner(l, r, opts, hash, found, brute);
    }
  }

  /** After an alignment the streams agree on at least the k-gram and the verified bytes. */
  lemma {:induction false} AlignedAgree(l: seq<Byte>, r: seq<Byte>, opts: Options, a: Anchor)
    requires Aligns(l, r, opts, a)
    ensures
      var n := opts.anchorLen + opts.verifyLen;
      a.leftSkip + n <= |l| && a.rightSkip + n <= |r| && l[a.leftSkip..a.leftSkip + n] == r[a.rightSkip..a.rightSkip + n]
  {
    hide FollowingEqual, LowInformation;
    var k, n := opts.anchorLen, opts.anchorLen + opts.verifyLen;
    var lt, rt := l[a.leftSkip + k..], r[a.rightSkip + k..];
    FollowingEqualFacts(lt, rt, opts.verifyLen + TIE_FOLLOWING_SAMPLE);
    assert lt[..opts.verifyLen] == lt[..a.followingEqual][..opts.verifyLen];
    assert rt[..opts.verifyLen] == rt[..a.followingEqual][..opts.verifyLen];
    assert l[a.leftSkip..a.leftSkip + n] == l[a.leftSkip..a.leftSkip + k] + lt[..opts.verifyLen];
    assert r[a.rightSkip..a.rightSkip + n] == r[a.rightSkip..a.rightSkip + k] + rt[..opts.verifyLen];
  }

  // Cutting two runs at or past the limit does not change how many bytes agree.
  lemma {:induction false} FollowingTruncated(l: seq<Byte>, r: seq<Byte>, m: nat, n: nat, limit: nat)
    requires m <= |l| && n <= |r| && (m >= limit || m == |l|) && (n >= limit || n == |r|)
    ensures FollowingEqual(l[..m], r[..n], limit) == FollowingEqual(l, r, limit)
    decreases limit
  {
    if limit > 0 && l != [] && r != [] && l[0] == r[0] {
      FollowingTruncated(l[1..], r[1..], m - 1, n - 1, limit - 1);
      assert l[..m][1..] == l[1..][..m - 1] && r[..n][1..] == r[1..][..n - 1];
    }
  }

  // A window long enough to hold every anchor, what is verified after it and the tie-breaking sample.
  ghost predicate HoldsSearch(s: seq<Byte>, len: nat, opts: Options) {
    len <= |s| && (len == |s| || len >= opts.maxShift + opts.anchorLen + opts.verifyLen + TIE_FOLLOWING_SAMPLE)
  }

  lemma {:induction false} WindowAligns(l: seq<Byte>, r: seq<Byte>, m: nat, n: nat, opts: Options, a: Anchor)
    requires HoldsSearch(l, m, opts) && HoldsSearch(r, n, opts)
    ensures Aligns(l[..m], r[..n], opts, a) <==> Aligns(l, r, opts, a)
  {
    hide LowInformation, FollowingEqual;
    var k := opts.anchorLen;
    if a.leftSkip <= opts.maxShift && a.rightSkip <= opts.maxShift && a.leftSkip + k <= |l| && a.rightSkip + k <= |r| {
      assert l[..m][a.leftSkip..a.leftSkip + k] == l[a.leftSkip..a.leftSkip + k];
      assert r[..n][a.rightSkip..a.rightSkip + k] == r[a.rightSkip..a.rightSkip + k];
      var lt, rt := l[a.leftSkip + k..], r[a.rightSkip + k..];
      assert l[..m][a.leftSkip + k..] == lt[..m - a.leftSkip - k];
      assert r[..n][a.rightSkip + k..] == rt[..n - a.rightSkip - k];
      FollowingTruncated(lt, rt, m - a.leftSkip - k, n - a.rightSkip - k, opts.verifyLen + TIE_FOLLOWING_SAMPLE);
    }
  }

  /** Looking ahead no farther than `LookaheadLen` loses nothing: it finds what a search of the whole rest would. */
  lemma {:induction false} LookaheadSuffices(l: seq<Byte>, r: seq<Byte>, opts: Options, found: Option<Anchor>)
    requires |l| <= U64_MAX && |r| <= U64_MAX
    ensures
      var n := opts.LookaheadLen();
      BruteForce(l[..Min(n, |l|)], r[..Min(n, |r|)], opts, found) <==> BruteForce(l, r, opts, found)
  {
    hide Aligns;
    var m, n := Min(opts.LookaheadLen(), |l|), Min(opts.LookaheadLen(), |r|);
    forall a ensures Aligns(l[..m], r[..n], opts, a) <==> Aligns(l, r, opts, a) {
      WindowAligns(l, r, m, n, opts, a);
    }
  }

  /** A one-byte k-gram is never informative, so an anchor length of 1 never resynchronises. */
  lemma {:induction false} OneByteNeverAligns(l: seq<Byte>, r: seq<Byte>, opts: Options)
    requires opts.anchorLen == 1
    ensures forall a :: !Aligns(l, r, opts, a)
  {
  }

  lemma {:induction false} FollowingSelf(t: seq<Byte>, limit: nat)
    ensures FollowingEqual(t, t, limit) == Min(|t|, limit)
    decreases limit
  {
    if limit > 0 && t != [] {
      FollowingSelf(t[1..], limit - 1);
    }
  }

  /** Bytes inserted ahead of an informative run are skipped: the run is recognised behind them. */
  lemma {:induction false} InsertionAligns(inserted: seq<Byte>, run: seq<Byte>, opts: Options) returns (a: Anchor)
    requires 0 < |inserted| <= opts.maxShift && Informative(run, 0, opts.anchorLen)
    requires |run| >= opts.anchorLen + opts.verifyLen
    ensures a.leftSkip == |inserted| && a.rightSkip == 0 && Aligns(inserted + run, run, opts, a)
  {
    var k, l := opts.anchorLen, inserted + run;
    var rest := run[k..];
    assert l[|inserted|..|inserted| + k] == run[0..k] && l[|inserted| + k..] == rest;
    FollowingSelf(rest, opts.verifyLen + TIE_FOLLOWING_SAMPLE);
    a := Anchor(|inserted|, 0, FollowingEqual(rest, rest, opts.verifyLen + TIE_FOLLOWING_SAMPLE));
  }

  /** So streams can line up again exactly when anchors are longer than one byte. */
  lemma {:induction false} AnchorLengthExact(opts: Options)
    requires opts.anchorLen > 0 && opts.maxShift > 0
    ensures opts.anchorLen > 1 <==> exists l, r, a :: Aligns(l, r, opts, a)
  {
    hide Aligns, FollowingEqual;
    if opts.anchorLen > 1 {
      var run: seq<Byte> := [1] + seq(opts.anchorLen + opts.verifyLen - 1, i => 0);
      assert run[0..opts.anchorLen][0] == 1 && run[0..opts.anchorLen][1] == 0;
      var a := InsertionAligns([2], run, opts);
      assert Aligns([2] + run, run, opts, a);
    } else {
      forall l, r, a ensures !Aligns(l, r, opts, a) {
        OneByteNeverAligns(l, r, opts);
      }
    }
  }

  // ----- the search

  function BucketIn(index: map<nat, seq<nat>>, h: nat): seq<nat> {
    if h in index then index[h] else []
  }

  // The index holds what it should for the positions below `n`.
  ghost predicate IndexOf(index: map<nat, seq<nat>>, r: seq<Byte>, opts: Options, hash: Hash, n: nat) {
    forall h :: BucketIn(index, h) == Cap(PositionsOf(r, opts.anchorLen, hash, h, n))
  }

  lemma {:induction false} NoMorePositions(r: seq<Byte>, len: nat, hash: Hash, h: nat, from: nat, n: nat)
    requires from + len > |r| && from <= n
    ensures PositionsOf(r, len, hash, h, n) == PositionsOf(r, len, hash, h, from)
    decreases n
  {
    if from < n {
      NoMorePositions(r, len, hash, h, from, n - 1);
    }
  }

  lemma {:induction false} CapSnoc(ps: seq<nat>, p: nat)
    ensures Cap(ps + [p]) == if |Cap(ps)| < CANDIDATES_PER_HASH_CAP then Cap(ps) + [p] else Cap(ps)
  {
  }

  lemma {:induction false} IndexEmpty(r: seq<Byte>, opts: Options, hash: Hash)
    ensures IndexOf(map[], r, opts, hash, 0)
  {
  }

  lemma {:induction false} IndexEnd(index: map<nat, seq<nat>>, r: seq<Byte>, opts: Options, hash: Hash, pos: nat,
        n: nat)
    requires IndexOf(index, r, opts, hash, pos) && pos + opts.anchorLen > |r| && pos <= n
    ensures IndexOf(index, r, opts, hash, n)
  {
    forall h: nat ensures BucketIn(index, h) == Cap(PositionsOf(r, opts.anchorLen, hash, h, n)) {
      NoMorePositions(r, opts.anchorLen, hash, h, pos, n);
    }
  }

  lemma {:induction false} IndexSkip(index: map<nat, seq<nat>>, r: seq<Byte>, opts: Options, hash: Hash, pos: nat)
    requires IndexOf(index, r, opts, hash, pos) && !Informative(r, pos, opts.anchorLen)
    ensures IndexOf(index, r, opts, hash, pos + 1)
  {
    hide Informative;
    forall h: nat ensures BucketIn(index, h) == Cap(PositionsOf(r, opts.anchorLen, hash, h, pos + 1)) {
      assert PositionsOf(r, opts.anchorLen, hash, h, pos + 1) == PositionsOf(r, opts.anchorLen, hash, h, pos);
    }
  }

  lemma {:induction false} IndexAdd(index: map<nat, seq<nat>>, r: seq<Byte>, opts: Options, hash: Hash, pos: nat)
    requires IndexOf(index, r, opts, hash, pos) && Informative(r, pos, opts.anchorLen) && pos + opts.anchorLen <= |r|
    ensures
      var h := hash(r[pos..pos + opts.anchorLen]);
      var entry := BucketIn(index, h);
      IndexOf(index[h := if |entry| < CANDIDATES_PER_HASH_CAP then entry + [pos] else entry], r, opts, hash, pos + 1)
  {
    hide Informative, Cap;
    var at := hash(r[pos..pos + opts.anchorLen]);
    var entry := BucketIn(index, at);
    var grown := index[at := if |entry| < CANDIDATES_PER_HASH_CAP then entry + [pos] else entry];
    forall h: nat ensures BucketIn(grown, h) == Cap(PositionsOf(r, opts.anchorLen, hash, h, pos + 1)) {
      var ps := PositionsOf(r, opts.anchorLen, hash, h, pos);
      assert BucketIn(index, h) == Cap(ps);
      CapSnoc(ps, pos);
      assert PositionsOf(r, opts.anchorLen, hash, h, pos + 1) == ps + if at == h then [pos] else [];
      assert ps + [] == ps;
    }
  }

  /** Index the informative k-grams of the right window by hash, at most 32 for each hash value. */
  method IndexRight(r: seq<Byte>, opts: Options, hash: Hash) returns (index: map<nat, seq<nat>>)
    requires opts.anchorLen > 0 && opts.anchorLen <= |r|
    ensures IndexOf(index, r, opts, hash, SearchLimit(r, opts))
  {
    hide IndexOf;
    index := map[];
    IndexEmpty(r, opts, hash);
    var k := opts.anchorLen;
    var maxRightSkip := Min(opts.maxShift, SatSub(|r|, 1));
    for pos := 0 to maxRightSkip + 1
      invariant IndexOf(index, r, opts, hash, pos)
    {
      if pos + k > |r| {
        IndexEnd(index, r, opts, hash, pos, maxRightSkip + 1);
        return;
      }
      var bytes := r[pos..pos + k];
      if LowInformation(bytes) {
        IndexSkip(index, r, opts, hash, pos);
        continue;
      }
      IndexAdd(index, r, opts, hash, pos);
      var h := hash(bytes);
      var entry := BucketIn(index, h);
      if |entry| < CANDIDATES_PER_HASH_CAP {
        entry := entry + [pos];
      }
      index := index[h := entry];
    }
  }

  // `seen` are the alignments examined so far, in search order, and `best` the choice among them.
  ghost predicate BestOf(seen: seq<Anchor>, best: Option<Anchor>) {
    && (forall i, j :: 0 <= i < j < |seen| ==> seen[i].FoundBefore(seen[j]))
    && match best
       case None => seen == []
       case Some(b) => b in seen && forall a :: a in seen ==> a == b || b.Beats(a)
  }

  lemma {:induction false} BestOfSnoc(seen: seq<Anchor>, best: Option<Anchor>, c: Anchor)
    requires BestOf(seen, best) && forall a :: a in seen ==> a.FoundBefore(c)
    ensures BestOf(seen + [c], if best.None? || c.BetterThan(best.value) then Some(c) else best)
  {
    var next := if best.None? || c.BetterThan(best.value) then c else best.value;
    assert next in seen + [c];
    forall a | a in seen + [c] ensures a == next || next.Beats(a) {
      if a in seen && a != next && best.Some? && next == c {
        BeatsThrough(c, best.value, a);
      }
    }
  }

  lemma {:induction false} BeatsThrough(c: Anchor, best: Anchor, a: Anchor)
    requires c.BetterThan(best) && (a == best || best.Beats(a))
    ensures c.Beats(a)
  {
  }

  // Every alignment the search could have met before (leftPos, rightPos) has been examined, and nothing else.
  ghost predicate Examined(l: seq<Byte>, r: seq<Byte>, opts: Options, hash: Hash, seen: seq<Anchor>, leftPos: nat,
        done: seq<nat>) {
    && (forall a :: a in seen ==> Findable(l, r, opts, hash, a) && (a.leftSkip < leftPos || (a.leftSkip == leftPos && a.rightSkip in done)))
    && (forall a :: Findable(l, r, opts, hash, a) && (a.leftSkip < leftPos || (a.leftSkip == leftPos && a.rightSkip in done)) ==> a in seen)
  }

  lemma {:induction false} ExaminedNone(l: seq<Byte>, r: seq<Byte>, opts: Options, hash: Hash)
    ensures Examined(l, r, opts, hash, [], 0, [])
  {
  }

  // A left position is finished once its whole bucket was tried.
  lemma {:induction false} ExaminedNextLeft(l: seq<Byte>, r: seq<Byte>, opts: Options, hash: Hash, seen: seq<Anchor>,
        leftPos: nat, done: seq<nat>)
    requires Examined(l, r, opts, hash, seen, leftPos, done)
    requires forall a :: Findable(l, r, opts, hash, a) && a.leftSkip == leftPos ==> a.rightSkip in done
    ensures Examined(l, r, opts, hash, seen, leftPos + 1, [])
  {
    hide Findable;
  }

  lemma {:induction false} ExaminedAll(l: seq<Byte>, r: seq<Byte>, opts: Options, hash: Hash, seen: seq<Anchor>,
        leftPos: nat, best: Option<Anchor>)
    requires Examined(l, r, opts, hash, seen, leftPos, []) && BestOf(seen, best)
    requires forall a :: Findable(l, r, opts, hash, a) ==> a.leftSkip < leftPos
    ensures IndexedSearch(l, r, opts, hash, best)
  {
    hide Findable;
    if best.Some? {
      assert best.value in seen;
    }
  }

  // One more right position of the bucket, which aligned as `c` or did not align.
  lemma {:induction false} ExaminedNextRight(l: seq<Byte>, r: seq<Byte>, opts: Options, hash: Hash,
        seen: seq<Anchor>, leftPos: nat, done: seq<nat>, rightPos: nat, c: Option<Anchor>)
    requires Examined(l, r, opts, hash, seen, leftPos, done)
    requires c.Some? ==> Findable(l, r, opts, hash, c.value) && c.value.leftSkip == leftPos && c.value.rightSkip == rightPos
    requires forall a :: Findable(l, r, opts, hash, a) && a.leftSkip == leftPos && a.rightSkip == rightPos ==> c == Some(a)
    ensures Examined(l, r, opts, hash, if c.Some? then seen + [c.value] else seen, leftPos, done + [rightPos])
  {
    hide Findable;
  }

  // The alignment at a pair of positions whose k-grams share a hash, if there is one.
  function Candidate(l: seq<Byte>, r: seq<Byte>, opts: Options, leftPos: nat, rightPos: nat): Option<Anchor>
    requires leftPos + opts.anchorLen <= |l| && rightPos + opts.anchorLen <= |r|
  {
    var k := opts.anchorLen;
    if leftPos == 0 && rightPos == 0 then None
    else if l[leftPos..leftPos + k] != r[rightPos..rightPos + k] then None
    else
      var following := FollowingEqual(l[leftPos + k..], r[rightPos + k..], opts.verifyLen + TIE_FOLLOWING_SAMPLE);
      if following < opts.verifyLen then None else Some(Anchor(leftPos, rightPos, following))
  }

  lemma {:induction false} CandidateAligns(l: seq<Byte>, r: seq<Byte>, opts: Options, leftPos: nat, rightPos: nat)
    requires leftPos <= opts.maxShift && rightPos <= opts.maxShift
    requires Informative(l, leftPos, opts.anchorLen) && leftPos + opts.anchorLen <= |l| && rightPos + opts.anchorLen <= |r|
    ensures
      match Candidate(l, r, opts, leftPos, rightPos)
      case None => forall a :: Aligns(l, r, opts, a) ==> a.leftSkip != leftPos || a.rightSkip != rightPos
      case Some(c) =>
        Aligns(l, r, opts, c) && c.leftSkip == leftPos && c.rightSkip == rightPos
        && forall a :: Aligns(l, r, opts, a) && a.leftSkip == leftPos && a.rightSkip == rightPos ==> a == c
  {
    hide LowInformation, FollowingEqual;
  }

  lemma {:induction false} BucketFacts(r: seq<Byte>, opts: Options, hash: Hash, h: nat)
    ensures
      var ps := Bucket(r, opts, hash, h);
      && (forall i :: 0 <= i < |ps| ==> ps[i] <= opts.maxShift && ps[i] + opts.anchorLen <= |r|)
      && (forall i, j :: 0 <= i < j < |ps| ==> ps[i] < ps[j])
  {
    var n := SearchLimit(r, opts);
    PositionsSorted(r, opts.anchorLen, hash, h, n);
    hide Informative;
    var ps := PositionsOf(r, opts.anchorLen, hash, h, n);
    forall i | 0 <= i < |ps| ensures ps[i] + opts.anchorLen <= |r| {
      PositionsMean(r, opts.anchorLen, hash, h, n, ps[i]);
      InformativeFits(r, ps[i], opts.anchorLen);
    }
  }

  // Try every indexed right position for one left position.
  method TryBucket(l: seq<Byte>, r: seq<Byte>, opts: Options, hash: Hash, leftPos: nat, positions: seq<nat>,
                   start: Option<Anchor>, ghost from: seq<Anchor>)
    returns (best: Option<Anchor>, ghost seen: seq<Anchor>)
    requires leftPos <= opts.maxShift && Informative(l, leftPos, opts.anchorLen) && leftPos + opts.anchorLen <= |l|
    requires positions == Bucket(r, opts, hash, hash(l[leftPos..leftPos + opts.anchorLen]))
    requires Examined(l, r, opts, hash, from, leftPos, []) && BestOf(from, start)
    ensures Examined(l, r, opts, hash, seen, leftPos + 1, []) && BestOf(seen, best)
  {
    hide Examined, BestOf, Bucket, Informative, Aligns, Candidate;
    best, seen := start, from;
    BucketFacts(r, opts, hash, hash(l[leftPos..leftPos + opts.anchorLen]));
    for i := 0 to |positions|
      invariant Examined(l, r, opts, hash, seen, leftPos, positions[..i]) && BestOf(seen, best)
    {
      var rightPos := positions[i];
      var candidate := Candidate(l, r, opts, leftPos, rightPos);
      CandidateAligns(l, r, opts, leftPos, rightPos);
      assert rightPos in positions;
      ExaminedNextRight(l, r, opts, hash, seen, leftPos, positions[..i], rightPos, candidate);
      assert positions[..i + 1] == positions[..i] + [rightPos];
      if candidate.Some? {
        ExaminedBefore(l, r, opts, hash, seen, leftPos, positions, i, candidate.value);
        BestOfSnoc(seen, best, candidate.value);
        if best.None? || candidate.value.BetterThan(best.value) {
          best := candidate;
        }
        seen := seen + [candidate.value];
      }
    }
    assert positions[..|positions|] == positions;
    ExaminedNextLeft(l, r, opts, hash, seen, leftPos, positions);
  }

  lemma {:induction false} ExaminedBefore(l: seq<Byte>, r: seq<Byte>, opts: Options, hash: Hash, seen: seq<Anchor>,
        leftPos: nat, positions: seq<nat>, i: nat, c: Anchor)
    requires i < |positions| && forall m, n :: 0 <= m < n < |positions| ==> positions[m] < positions[n]
    requires Examined(l, r, opts, hash, seen, leftPos, positions[..i]) && c.leftSkip == leftPos && c.rightSkip == positions[i]
    ensures forall a :: a in seen ==> a.FoundBefore(c)
  {
    hide Findable;
  }

  /** The skips after which the two windows line up best, found through the hash index. */
  method FindAnchor(l: seq<Byte>, r: seq<Byte>, opts: Options, hash: Hash) returns (best: Option<Anchor>)
    requires opts.anchorLen > 0
    ensures IndexedSearch(l, r, opts, hash, best)
  {
    hide Examined, BestOf, Bucket, Informative, IndexOf, Findable, Aligns, IndexedSearch;
    var k := opts.anchorLen;
    FindableFits(l, r, opts, hash);
    best := None;
    ghost var seen: seq<Anchor> := [];
    ExaminedNone(l, r, opts, hash);
    BestOfNone();
    if |l| < k || |r| < k {
      ExaminedAll(l, r, opts, hash, seen, 0, best);
      return None;
    }
    var maxLeftSkip := Min(opts.maxShift, SatSub(|l|, 1));
    var index := IndexRight(r, opts, hash);
    for leftPos := 0 to maxLeftSkip + 1
      invariant Examined(l, r, opts, hash, seen, leftPos, []) && BestOf(seen, best)
    {
      if leftPos + k > |l| {
        ExaminedAll(l, r, opts, hash, seen, leftPos, best);
        return;
      }
      var leftAnchor := l[leftPos..leftPos + k];
      if LowInformation(leftAnchor) {
        SkipLeft(l, r, opts, hash, seen, leftPos);
        continue;
      }
      var positions := BucketIn(index, hash(leftAnchor));
      IndexedBucket(index, r, opts, hash, hash(leftAnchor));
      InformativeHere(l, leftPos, k);
      best, seen := TryBucket(l, r, opts, hash, leftPos, positions, best, seen);
    }
    ExaminedAll(l, r, opts, hash, seen, maxLeftSkip + 1, best);
  }

  lemma {:induction false} BestOfNone()
    ensures BestOf([], None)
  {
  }

  lemma {:induction false} InformativeHere(w: seq<Byte>, pos: nat, len: nat)
    requires pos + len <= |w| && !LowInformation(w[pos..pos + len])
    ensures Informative(w, pos, len)
  {
  }

  lemma {:induction false} FindableFits(l: seq<Byte>, r: seq<Byte>, opts: Options, hash: Hash)
    requires opts.anchorLen > 0
    ensures forall a :: Findable(l, r, opts, hash, a) ==>
      a.leftSkip <= opts.maxShift && a.leftSkip + opts.anchorLen <= |l| && opts.anchorLen <= |r|
  {
    hide LowInformation, FollowingEqual, Bucket;
  }

  lemma {:induction false} SkipLeft(l: seq<Byte>, r: seq<Byte>, opts: Options, hash: Hash, seen: seq<Anchor>,
        leftPos: nat)
    requires Examined(l, r, opts, hash, seen, leftPos, [])
    requires leftPos + opts.anchorLen <= |l| && LowInformation(l[leftPos..leftPos + opts.anchorLen])
    ensures Examined(l, r, opts, hash, seen, leftPos + 1, [])
  {
    hide LowInformation, FollowingEqual, Bucket, Examined;
    forall a | Findable(l, r, opts, hash, a) ensures a.leftSkip != leftPos {
    }
    ExaminedNextLeft(l, r, opts, hash, seen, leftPos, []);
  }

  lemma {:induction false} IndexedBucket(index: map<nat, seq<nat>>, r: seq<Byte>, opts: Options, hash: Hash, h: nat)
    requires IndexOf(index, r, opts, hash, SearchLimit(r, opts))
    ensures BucketIn(index, h) == Bucket(r, opts, hash, h)
  {
  }
}
