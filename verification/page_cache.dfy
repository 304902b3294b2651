/** A generation-stamped page cache: reads equal the file, and eviction is true least-recently-used. */
module PageCaches {
  import opened Common

  datatype CachedPage = CachedPage(data: seq<Byte>, lastUsed: nat)

  datatype CacheStats = CacheStats(readRangeCalls: nat, pageHits: nat, pageMisses: nat, bytesReturned: nat)

  // ----- reference policy: the distinct pages of an access trace, most recent first

  ghost function Touched(trace: seq<nat>): set<nat> {
    set i | 0 <= i < |trace| :: trace[i]
  }

  ghost function Drop(s: seq<nat>, p: nat): seq<nat> {
    if s == [] then [] else (if s[0] == p then [] else [s[0]]) + Drop(s[1..], p)
  }

  ghost function Recent(trace: seq<nat>): seq<nat> {
    if trace == [] then []
    else
      var k := |trace| - 1;
      [trace[k]] + Drop(Recent(trace[..k]), trace[k])
  }

  // The `capacity` most recently touched distinct pages.
  ghost function MostRecent(trace: seq<nat>, capacity: nat): set<nat> {
    var r := Recent(trace);
    set i | 0 <= i < |r| && i < capacity :: r[i]
  }

  // One past the position of the last access to `p`; 0 when it was never touched.
  ghost function LastTouch(trace: seq<nat>, p: nat): nat {
    if trace == [] then 0
    else if trace[|trace| - 1] == p then |trace|
    else LastTouch(trace[..|trace| - 1], p)
  }

  lemma {:induction false} LastTouchFacts(trace: seq<nat>, p: nat)
    ensures LastTouch(trace, p) <= |trace|
    ensures LastTouch(trace, p) > 0 ==> trace[LastTouch(trace, p) - 1] == p
    ensures LastTouch(trace, p) == 0 <==> p !in Touched(trace)
  {
    if trace != [] {
      var k := |trace| - 1;
      LastTouchFacts(trace[..k], p);
      assert trace == trace[..k] + [trace[k]];
      TouchedSnoc(trace[..k], trace[k]);
    }
  }

  // How many accesses find their page among the `capacity` most recent ones.
  ghost function HitCount(trace: seq<nat>, capacity: nat): nat {
    if trace == [] then 0
    else
      var k := |trace| - 1;
      HitCount(trace[..k], capacity) + if trace[k] in MostRecent(trace[..k], capacity) then 1 else 0
  }

  // No touched page outside `keys` was used later than a page inside.
  ghost predicate NewestFirst(keys: set<nat>, trace: seq<nat>) {
    && keys <= Touched(trace)
    && forall q, r :: q in keys && r in Touched(trace) && r !in keys ==> LastTouch(trace, r) < LastTouch(trace, q)
  }

  ghost predicate IsTop(keys: set<nat>, trace: seq<nat>, capacity: nat) {
    NewestFirst(keys, trace) && |keys| == Min(capacity, |Touched(trace)|)
  }

  // ----- properties of the reference policy

  /** A top set for a smaller capacity lies inside every top set for a larger one. */
  lemma {:induction false} TopGrows(small: set<nat>, large: set<nat>, trace: seq<nat>, c1: nat, c2: nat)
    requires IsTop(small, trace, c1) && IsTop(large, trace, c2) && c1 <= c2
    ensures small <= large
  {
    if q :| q in small && q !in large {
      forall r | r in large ensures r in small {
        assert LastTouch(trace, q) < LastTouch(trace, r);
      }
      SubsetSize(large + {q}, small);
    }
  }

  lemma {:induction false} DropKeeps(s: seq<nat>, p: nat)
    ensures forall x :: x in Drop(s, p) <==> x in s && x != p
  {
    if s != [] {
      DropKeeps(s[1..], p);
      assert forall x :: x in s <==> x == s[0] || x in s[1..];
    }
  }

  // The list is sorted by last use, newest first.
  ghost predicate ByLastTouch(s: seq<nat>, trace: seq<nat>) {
    forall i, j :: 0 <= i < j < |s| ==> LastTouch(trace, s[j]) < LastTouch(trace, s[i])
  }

  lemma {:induction false} SortedTail(s: seq<nat>, trace: seq<nat>)
    requires s != [] && ByLastTouch(s, trace)
    ensures ByLastTouch(s[1..], trace)
    ensures forall x :: x in s[1..] ==> LastTouch(trace, x) < LastTouch(trace, s[0])
  {
    assert forall i :: 0 <= i < |s[1..]| ==> s[1..][i] == s[i + 1];
  }

  lemma {:induction false} SortedCons(x: nat, d: seq<nat>, trace: seq<nat>)
    requires ByLastTouch(d, trace) && forall y :: y in d ==> LastTouch(trace, y) < LastTouch(trace, x)
    ensures ByLastTouch([x] + d, trace)
  {
    var s := [x] + d;
    forall i, j | 0 <= i < j < |s| ensures LastTouch(trace, s[j]) < LastTouch(trace, s[i]) {
      assert s[j] == d[j - 1] && d[j - 1] in d;
      if i > 0 { assert s[i] == d[i - 1]; }
    }
  }

  lemma {:induction false} DropSorted(s: seq<nat>, p: nat, trace: seq<nat>)
    requires ByLastTouch(s, trace)
    ensures ByLastTouch(Drop(s, p), trace)
  {
    if s != [] {
      SortedTail(s, trace);
      DropSorted(s[1..], p, trace);
      DropKeeps(s[1..], p);
      if s[0] != p {
        SortedCons(s[0], Drop(s[1..], p), trace);
      }
    }
  }

  /** The recency list holds each touched page once, ordered by last use. */
  lemma {:induction false} RecentOrdered(trace: seq<nat>)
    ensures forall x :: x in Recent(trace) <==> x in Touched(trace)
    ensures ByLastTouch(Recent(trace), trace)
  {
    if trace != [] {
      var k := |trace| - 1;
      var front, p := trace[..k], trace[k];
      assert trace == front + [p];
      RecentOrdered(front);
      DropKeeps(Recent(front), p);
      DropSorted(Recent(front), p, front);
      TouchedSnoc(front, p);
      var d := Drop(Recent(front), p);
      forall x ensures LastTouch(trace, x) == if x == p then |front| + 1 else LastTouch(front, x) {
        LastTouchSnoc(front, p, x);
        LastTouchFacts(front, x);
      }
      assert forall i :: 0 <= i < |d| ==> d[i] in d && d[i] != p;
      SortedCons(p, d, trace);
      assert forall x :: x in [p] + d <==> x == p || x in d;
    }
  }

  lemma {:induction false} TouchedSnoc(front: seq<nat>, p: nat)
    ensures Touched(front + [p]) == Touched(front) + {p}
  {
    var t := front + [p];
    assert t[|front|] == p;
    assert forall i :: 0 <= i < |front| ==> t[i] == front[i];
  }

  lemma {:induction false} PrefixSetSize(s: seq<nat>, n: nat)
    requires n <= |s|
    requires forall i, j :: 0 <= i < j < |s| ==> s[i] != s[j]
    ensures |set i | 0 <= i < n :: s[i]| == n
  {
    if n > 0 {
      PrefixSetSize(s, n - 1);
      assert (set i | 0 <= i < n :: s[i]) == (set i | 0 <= i < n - 1 :: s[i]) + {s[n - 1]};
    }
  }

  lemma {:induction false} MostRecentIsTop(trace: seq<nat>, capacity: nat)
    ensures IsTop(MostRecent(trace, capacity), trace, capacity)
  {
    RecentOrdered(trace);
    var r := Recent(trace);
    assert forall i :: 0 <= i < |r| ==> r[i] in r;
    var n := Min(capacity, |r|);
    PrefixSetSize(r, n);
    PrefixSetSize(r, |r|);
    assert (set i | 0 <= i < |r| :: r[i]) == Touched(trace);
    var keys := MostRecent(trace, capacity);
    assert keys == set i | 0 <= i < n :: r[i];
    forall q, x | q in keys && x in Touched(trace) && x !in keys ensures LastTouch(trace, x) < LastTouch(trace, q) {
      var i :| 0 <= i < n && r[i] == q;
      var j :| 0 <= j < |r| && r[j] == x;
    }
  }

  /** A top set is exactly the set of the most recently touched pages. */
  lemma {:induction false} TopIsMostRecent(keys: set<nat>, trace: seq<nat>, capacity: nat)
    requires IsTop(keys, trace, capacity)
    ensures keys == MostRecent(trace, capacity)
  {
    MostRecentIsTop(trace, capacity);
    TopGrows(keys, MostRecent(trace, capacity), trace, capacity, capacity);
    TopGrows(MostRecent(trace, capacity), keys, trace, capacity, capacity);
  }

  /** On the same accesses, a larger cache contains a smaller one and never has fewer hits. */
  lemma {:induction false} LargerCacheDominates(trace: seq<nat>, c1: nat, c2: nat)
    requires c1 <= c2
    ensures MostRecent(trace, c1) <= MostRecent(trace, c2)
    ensures HitCount(trace, c1) <= HitCount(trace, c2)
  {
    MostRecentIsTop(trace, c1);
    MostRecentIsTop(trace, c2);
    TopGrows(MostRecent(trace, c1), MostRecent(trace, c2), trace, c1, c2);
    if trace != [] {
      LargerCacheDominates(trace[..|trace| - 1], c1, c2);
    }
  }

  // ----- one access

  lemma {:induction false} LastTouchSnoc(trace: seq<nat>, p: nat, q: nat)
    ensures LastTouch(trace + [p], q) == if q == p then |trace| + 1 else LastTouch(trace, q)
  {
    assert (trace + [p])[..|trace|] == trace;
  }

  // Touching a page and keeping it cached keeps the newest pages first.
  lemma {:induction false} TouchKeepsNewest(keys: set<nat>, trace: seq<nat>, p: nat)
    requires NewestFirst(keys, trace)
    ensures NewestFirst(keys + {p}, trace + [p])
  {
    TouchedSnoc(trace, p);
    forall q, r | q in keys + {p} && r in Touched(trace + [p]) && r !in keys + {p}
      ensures LastTouch(trace + [p], r) < LastTouch(trace + [p], q)
    {
      LastTouchSnoc(trace, p, q);
      LastTouchSnoc(trace, p, r);
      LastTouchFacts(trace, r);
    }
  }

  lemma {:induction false} LastTouchDistinct(trace: seq<nat>, p: nat, q: nat)
    requires p in Touched(trace) && LastTouch(trace, p) == LastTouch(trace, q)
    ensures p == q
  {
    LastTouchFacts(trace, p);
    LastTouchFacts(trace, q);
  }

  // Removing the page with the oldest use keeps the newest pages first.
  lemma {:induction false} EvictKeepsNewest(keys: set<nat>, trace: seq<nat>, victim: nat)
    requires NewestFirst(keys, trace) && victim in keys
    requires forall q :: q in keys ==> LastTouch(trace, victim) <= LastTouch(trace, q)
    ensures NewestFirst(keys - {victim}, trace)
  {
    forall q | q in keys && q != victim ensures LastTouch(trace, victim) < LastTouch(trace, q) {
      assert victim in Touched(trace);
      if LastTouch(trace, victim) == LastTouch(trace, q) { LastTouchDistinct(trace, victim, q); }
    }
  }

  lemma {:induction false} OldestIsNotNewest(keys: set<nat>, trace: seq<nat>, victim: nat, newest: nat)
    requires keys <= Touched(trace) && |keys| > 1 && newest in keys && LastTouch(trace, newest) == |trace|
    requires forall q :: q in keys ==> LastTouch(trace, victim) <= LastTouch(trace, q)
    ensures victim != newest
  {
    var rest := keys - {newest};
    assert |rest| == |keys| - 1;
    var other :| other in rest;
    LastTouchFacts(trace, other);
    if LastTouch(trace, other) == |trace| { LastTouchDistinct(trace, newest, other); }
  }

  lemma {:induction false} OldestExists(keys: set<nat>, trace: seq<nat>) returns (victim: nat)
    requires keys != {}
    ensures victim in keys && forall q :: q in keys ==> LastTouch(trace, victim) <= LastTouch(trace, q)
  {
    var v :| v in keys;
    var rest := keys - {v};
    victim := v;
    if rest != {} {
      var other := OldestExists(rest, trace);
      if LastTouch(trace, other) < LastTouch(trace, v) { victim := other; }
    }
    assert forall q :: q in keys ==> q == v || q in rest;
  }

  // A hit changes which pages are recent, but not the set of cached ones.
  lemma {:induction false} AfterHit(keys: set<nat>, trace: seq<nat>, p: nat, capacity: nat)
    requires IsTop(keys, trace, capacity) && p in keys
    ensures IsTop(keys, trace + [p], capacity)
    ensures HitCount(trace + [p], capacity) == HitCount(trace, capacity) + 1
  {
    TouchKeepsNewest(keys, trace, p);
    TouchedSnoc(trace, p);
    assert keys + {p} == keys && Touched(trace) + {p} == Touched(trace);
    TopIsMostRecent(keys, trace, capacity);
    assert (trace + [p])[..|trace|] == trace;
  }

  // After a miss the cache holds one page too many, or every page touched so far.
  lemma {:induction false} AfterMiss(keys: set<nat>, trace: seq<nat>, p: nat, capacity: nat)
    requires IsTop(keys, trace, capacity) && p !in keys
    ensures NewestFirst(keys + {p}, trace + [p]) && |keys + {p}| == |keys| + 1
    ensures |keys + {p}| >= Min(capacity, |Touched(trace + [p])|)
    ensures |keys + {p}| <= capacity ==> |keys + {p}| == |Touched(trace + [p])|
    ensures HitCount(trace + [p], capacity) == HitCount(trace, capacity)
  {
    TouchKeepsNewest(keys, trace, p);
    TouchedSnoc(trace, p);
    if |keys| < capacity { SubsetSize(keys, Touched(trace)); }
    TopIsMostRecent(keys, trace, capacity);
    assert (trace + [p])[..|trace|] == trace;
  }

  // ----- the cache

  // Page `i` starts at `i * pageSize`, and offset `o` lies in page `o / pageSize`.
  // Counting pages one at a time keeps the proofs linear.
  function PageStart(i: nat, pageSize: nat): nat {
    if i == 0 then 0 else PageStart(i - 1, pageSize) + pageSize
  }

  function PageIndex(offset: nat, pageSize: nat): nat
    requires pageSize > 0
  {
    if offset < pageSize then 0 else PageIndex(offset - pageSize, pageSize) + 1
  }

  lemma {:induction false} PageStartIsProduct(i: nat, pageSize: nat)
    ensures PageStart(i, pageSize) == i * pageSize
  {
    if i > 0 {
      PageStartIsProduct(i - 1, pageSize);
    }
  }

  // An offset lies in the page that the index assigns to it.
  lemma {:induction false} PageHolds(offset: nat, pageSize: nat)
    requires pageSize > 0
    ensures PageStart(PageIndex(offset, pageSize), pageSize) <= offset < PageStart(PageIndex(offset, pageSize) + 1, pageSize)
  {
    if offset >= pageSize {
      PageHolds(offset - pageSize, pageSize);
    }
  }

  lemma {:induction false} PageIndexIsQuotient(offset: nat, pageSize: nat)
    requires pageSize > 0
    ensures PageIndex(offset, pageSize) == offset / pageSize
  {
    var i, j := PageIndex(offset, pageSize), offset / pageSize;
    PageHolds(offset, pageSize);
    PageStartIsProduct(j, pageSize);
    assert offset == j * pageSize + offset % pageSize;
    hide PageStart;
    if i < j {
      PageStartsGrow(i + 1, j, pageSize);
    } else if j < i {
      PageStartsGrow(j + 1, i, pageSize);
    }
  }

  lemma {:induction false} PageStartsGrow(i: nat, j: nat, pageSize: nat)
    requires i <= j
    ensures PageStart(i, pageSize) <= PageStart(j, pageSize)
  {
    if i < j {
      PageStartsGrow(i, j - 1, pageSize);
    }
  }

  ghost function PageOf(file: seq<Byte>, pageSize: nat, i: nat): seq<Byte> {
    var lo := Min(PageStart(i, pageSize), |file|);
    file[lo..Min(lo + pageSize, |file|)]
  }

  // A loader that, when it succeeds, returns the whole page as the file has it.
  ghost predicate LoadsPages<E(!new)>(load: (nat, nat) -> Result<seq<Byte>, E>, file: seq<Byte>, pageSize: nat) {
    forall i: nat {:trigger PageOf(file, pageSize, i)} ::
      var page := load(PageStart(i, pageSize), pageSize);
      page.Ok? ==> page.value == PageOf(file, pageSize, i)
  }

  // The page numbers from `first` up to, but not including, `end`.
  ghost function Pages(first: nat, end: nat): seq<nat> {
    if end <= first then [] else Pages(first, end - 1) + [end - 1]
  }

  // Every entry carries the time of its last use and the bytes of its page.
  ghost predicate Stamps(entries: map<nat, CachedPage>, trace: seq<nat>, file: seq<Byte>, pageSize: nat) {
    forall p :: p in entries ==>
      entries[p].lastUsed == LastTouch(trace, p) && entries[p].data == PageOf(file, pageSize, p)
  }

  // Every use moves a page to the front of the recency order and leaves the others in place.
  lemma {:induction false} TouchStamps(entries: map<nat, CachedPage>, trace: seq<nat>, page: nat, file: seq<Byte>,
        pageSize: nat)
    requires Stamps(entries, trace, file, pageSize)
    ensures Stamps(entries[page := CachedPage(PageOf(file, pageSize, page), |trace| + 1)], trace + [page], file, pageSize)
    ensures LastTouch(trace + [page], page) == |trace + [page]|
  {
    forall q ensures LastTouch(trace + [page], q) == if q == page then |trace| + 1 else LastTouch(trace, q) {
      LastTouchSnoc(trace, page, q);
    }
  }

  class PageCache {
    const pageSize: nat
    const capacity: nat
    var entries: map<nat, CachedPage>
    var generation: nat
    var stats: CacheStats
    // Pages touched since the cache was created or cleared, oldest first.
    ghost var trace: seq<nat>
    ghost const file: seq<Byte>
    // Hits counted before the last clear.
    ghost var earlierHits: nat

    ghost predicate Stamped()
      reads this
    {
      && pageSize > 0 && capacity > 0 && generation == |trace|
      && |file| <= U64_MAX
      && NewestFirst(entries.Keys, trace)
      && Stamps(entries, trace, file, pageSize)
    }

    ghost predicate Valid()
      reads this
    {
      && Stamped()
      && |entries| == Min(capacity, |Touched(trace)|)
      && stats.pageHits == earlierHits + HitCount(trace, capacity)
    }

    function Looked(): nat
      reads this
    {
      stats.pageHits + stats.pageMisses
    }

    constructor (requestedPageSize: nat, requestedCapacity: nat, ghost bytes: seq<Byte>)
      requires |bytes| <= U64_MAX
      ensures Valid() && file == bytes && trace == [] && entries == map[] && stats == CacheStats(0, 0, 0, 0)
      ensures pageSize == Max(requestedPageSize, 1) && capacity == Max(requestedCapacity, 1)
    {
      pageSize := Max(requestedPageSize, 1);
      capacity := Max(requestedCapacity, 1);
      entries := map[];
      generation := 0;
      stats := CacheStats(0, 0, 0, 0);
      trace := [];
      earlierHits := 0;
      file := bytes;
    }

    method Clear()
      requires Valid()
      modifies this
      ensures Valid() && trace == [] && entries == map[] && stats == old(stats)
    {
      entries := map[];
      generation := 0;
      trace := [];
      earlierHits := stats.pageHits;
    }

    /** The cached pages are exactly the `capacity` most recently touched ones. */
    lemma {:induction false} KeysAreMostRecent()
      requires Valid()
      ensures entries.Keys == MostRecent(trace, capacity)
    {
      assert |entries.Keys| == |entries|;
      TopIsMostRecent(entries.Keys, trace, capacity);
    }

    /** Make a page resident. A hit restamps it; a miss loads it and evicts the oldest page if needed. */
    method EnsureLoadedWith<E(!new)>(page: nat, load: (nat, nat) -> Result<seq<Byte>, E>) returns (r: Result<(), E>)
      requires Valid() && LoadsPages(load, file, pageSize)
      modifies this
      ensures Valid()
      ensures stats == old(stats).(
        pageHits := old(stats.pageHits) + (if page in old(entries) then 1 else 0),
        pageMisses := old(stats.pageMisses) + if page in old(entries) then 0 else 1)
      ensures r.Ok? ==> trace == old(trace) + [page] && page in entries
      ensures earlierHits == old(earlierHits)
      ensures r.Err? ==>
        && page !in old(entries) && load(PageStart(page, pageSize), pageSize) == Err(r.error)
        && trace == old(trace) && entries == old(entries) && stats.pageHits == old(stats.pageHits)
    {
      if page in entries {
        Restamp(page);
        return Ok(());
      }
      stats := stats.(pageMisses := stats.pageMisses + 1);
      var buf := load(PageStart(page, pageSize), pageSize);
      if buf.Err? {
        return Err(buf.error);
      }
      Admit(page, buf.value);
      return Ok(());
    }

    method Restamp(page: nat)
      requires Valid() && page in entries
      modifies this
      ensures Valid() && trace == old(trace) + [page] && page in entries
      ensures stats == old(stats).(pageHits := old(stats.pageHits) + 1)
      ensures earlierHits == old(earlierHits)
    {
      hide LastTouch, PageOf, PageStart, Touched, HitCount;
      ghost var before := entries.Keys;
      assert |before| == |entries|;
      TouchStamps(entries, trace, page, file, pageSize);
      AfterHit(before, trace, page, capacity);
      stats := stats.(pageHits := stats.pageHits + 1);
      generation := generation + 1;
      entries := entries[page := CachedPage(entries[page].data, generation)];
      trace := trace + [page];
      assert entries.Keys == before && |entries| == |before|;
    }

    method Admit(page: nat, data: seq<Byte>)
      requires Valid() && page !in entries && data == PageOf(file, pageSize, page)
      modifies `entries, `generation, `trace
      ensures Valid() && trace == old(trace) + [page] && page in entries
    {
      hide LastTouch, PageOf, PageStart, Touched, HitCount;
      ghost var before := entries.Keys;
      assert |before| == |entries|;
      TouchStamps(entries, trace, page, file, pageSize);
      AfterMiss(before, trace, page, capacity);
      generation := generation + 1;
      entries := entries[page := CachedPage(data, generation)];
      trace := trace + [page];
      assert entries.Keys == before + {page} && |entries| == |before + {page}|;
      EvictIfNeeded(page);
    }

    // Remove the entry with the smallest stamp.
    method EvictOldest(ghost newest: nat)
      requires Stamped() && newest in entries && LastTouch(trace, newest) == |trace| && |entries| > capacity
      modifies `entries
      ensures Stamped() && newest in entries && |entries| == |old(entries)| - 1
    {
      hide LastTouch, PageOf, PageStart, Touched, HitCount;
      ghost var keys := entries.Keys;
      ghost var oldest := OldestExists(keys, trace);
      assert oldest in entries && forall q :: q in entries ==> entries[oldest].lastUsed <= entries[q].lastUsed;
      var victim :| victim in entries && forall q :: q in entries ==> entries[victim].lastUsed <= entries[q].lastUsed;
      assert |keys| == |entries|;
      EvictKeepsNewest(keys, trace, victim);
      OldestIsNotNewest(keys, trace, victim, newest);
      entries := entries - {victim};
      assert entries.Keys == keys - {victim} && |entries| == |keys - {victim}|;
    }

    // Drop the least recently used pages until the cache fits; the newest page stays.
    method EvictIfNeeded(ghost newest: nat)
      requires Stamped() && newest in entries && LastTouch(trace, newest) == |trace|
      requires |entries| >= Min(capacity, |Touched(trace)|)
      requires |entries| <= capacity ==> |entries| == |Touched(trace)|
      requires stats.pageHits == earlierHits + HitCount(trace, capacity)
      modifies `entries
      ensures Valid() && newest in entries
    {
      hide LastTouch, PageOf, PageStart, HitCount;
      ghost var touched := Touched(trace);
      assert |entries.Keys| == |entries|;
      SubsetSize(entries.Keys, touched);
      while |entries| > capacity
        invariant Stamped() && newest in entries
        invariant |entries| <= |touched|
        invariant |entries| <= capacity ==> |entries| == Min(capacity, |touched|)
        decreases |entries|
      {
        EvictOldest(newest);
      }
    }

    /**
     * Read a byte range page by page. On success the result is exactly the file's bytes, however many
     * pages the range spans; on a load error the pages before the failing one stay touched.
     */
    method ReadRangeWith<E(!new)>(offset: nat, len: nat, load: (nat, nat) -> Result<seq<Byte>,
          E>) returns (r: Result<seq<Byte>, E>)
      requires Valid() && LoadsPages(load, file, pageSize)
      requires offset <= U64_MAX && len <= U64_MAX
      modifies this
      ensures Valid()
      ensures len == 0 ==> r == Ok([]) && trace == old(trace) && stats == old(stats)
      ensures r.Ok? ==> r.value == FileSlice(file, offset, offset + len)
      ensures r.Ok? && len > 0 ==>
        && trace == old(trace) + Pages(PageIndex(offset, pageSize), PageIndex(SatAdd(offset, len - 1), pageSize) + 1)
        && PageIndex(SatAdd(offset, len - 1), pageSize) in entries
        && stats.bytesReturned == old(stats.bytesReturned) + |r.value|
      ensures len > 0 ==> stats.readRangeCalls == old(stats.readRangeCalls) + 1
      ensures r.Err? ==> stats.bytesReturned == old(stats.bytesReturned)
      // Every page looked at is a hit or a miss, one that fails to load included.
      ensures |trace| >= |old(trace)| && Looked() == old(Looked()) + |trace| - |old(trace)| + if r.Err? then 1 else 0
      ensures earlierHits == old(earlierHits)
      ensures r.Err? ==> exists stop: nat :: StoppedAt(old(trace), PageIndex(offset, pageSize), stop, load, r.error)
    {
      hide *;
      if len == 0 {
        SliceEmpty(file, offset);
        return Ok([]);
      }
      Count(1, 0);
      var lastByte, requestedEnd := SatAdd(offset, len - 1), SatAdd(offset, len);
      ClampedEnd(offset, len);
      var startPage, endPage := PageIndex(offset, pageSize), PageIndex(lastByte, pageSize);
      PageOrder(offset, lastByte, pageSize);
      PageHolds(offset, pageSize);
      PageHolds(lastByte, pageSize);
      r := ReadPages(offset, requestedEnd, startPage, endPage, load);
      if r.Ok? {
        Count(0, |r.value|);
        SliceOfClamped(file, offset, len);
      }
    }

    method Count(calls: nat, bytes: nat)
      requires Valid()
      modifies `stats
      ensures Valid() && Looked() == old(Looked())
      ensures |file| <= U64_MAX && pageSize > 0
      ensures stats == old(stats).(
        readRangeCalls := old(stats.readRangeCalls) + calls, bytesReturned := old(stats.bytesReturned) + bytes)
    {
      stats := stats.(readRangeCalls := stats.readRangeCalls + calls, bytesReturned := stats.bytesReturned + bytes);
    }

    // The page loop of a read.
    method ReadPages<E(!new)>(offset: nat, requestedEnd: nat, startPage: nat, endPage: nat, load: (nat,
          nat) -> Result<seq<Byte>, E>)
      returns (r: Result<seq<Byte>, E>)
      requires Valid() && LoadsPages(load, file, pageSize) && startPage <= endPage && |file| <= U64_MAX
      requires PageStart(startPage, pageSize) <= offset < PageStart(startPage + 1, pageSize)
      requires offset <= requestedEnd <= U64_MAX && PageStart(endPage, pageSize) <= requestedEnd <= PageStart(endPage + 1, pageSize)
      modifies this
      ensures Valid() && stats.bytesReturned == old(stats.bytesReturned) && stats.readRangeCalls == old(stats.readRangeCalls)
      ensures |trace| >= |old(trace)| && Looked() == old(Looked()) + |trace| - |old(trace)| + if r.Err? then 1 else 0
      ensures r.Ok? ==>
        && r.value == FileSlice(file, offset, requestedEnd)
        && trace == old(trace) + Pages(startPage, endPage + 1)
        && endPage in entries
      ensures earlierHits == old(earlierHits)
      ensures r.Err? ==> exists stop: nat :: StoppedAt(old(trace), startPage, stop, load, r.error)
    {
      hide *;
      ServedStart(file, startPage, pageSize, offset, requestedEnd);
      assert trace == old(trace) + Pages(startPage, startPage) by { PagesStep(startPage, startPage); }
      var out: seq<Byte> := [];
      var page := startPage;
      while page <= endPage
        invariant startPage <= page <= endPage + 1
        invariant Valid() && trace == old(trace) + Pages(startPage, page)
        invariant out == FileSlice(file, offset, Reached(startPage, page, pageSize, offset, requestedEnd))
        invariant page > startPage ==> page - 1 in entries
        invariant earlierHits == old(earlierHits)
        invariant stats.bytesReturned == old(stats.bytesReturned) && stats.readRangeCalls == old(stats.readRangeCalls)
        invariant |trace| >= |old(trace)| && Looked() == old(Looked()) + |trace| - |old(trace)|
      {
        var chunk := ReadPage(page, offset, requestedEnd, load);
        if chunk.Err? {
          StoppedHere(old(trace), startPage, page, load, chunk.error);
          return Err(chunk.error);
        }
        PageContributes(file, pageSize, startPage, page, endPage, offset, requestedEnd);
        PagesStep(startPage, page);
        out := out + chunk.value;
        page := page + 1;
      }
      ServedEnd(file, startPage, endPage, pageSize, offset, requestedEnd);
      return Ok(out);
    }

    lemma {:induction false} StoppedHere<E(!new)>(before: seq<nat>, first: nat, stop: nat, load: (nat,
          nat) -> Result<seq<Byte>, E>, error: E)
      requires trace == before + Pages(first, stop) && load(PageStart(stop, pageSize), pageSize) == Err(error)
      ensures StoppedAt(before, first, stop, load, error)
    {
    }

    // Load one page and cut out what the request wants from it.
    method ReadPage<E(!new)>(page: nat, offset: nat, requestedEnd: nat, load: (nat, nat) -> Result<seq<Byte>,
          E>) returns (r: Result<seq<Byte>, E>)
      requires Valid() && LoadsPages(load, file, pageSize)
      modifies this
      ensures Valid() && stats.bytesReturned == old(stats.bytesReturned) && stats.readRangeCalls == old(stats.readRangeCalls)
      ensures Looked() == old(Looked()) + 1
      ensures r.Ok? ==>
        && r.value == Chunk(PageOf(file, pageSize, page), PageStart(page, pageSize), offset, requestedEnd)
        && trace == old(trace) + [page] && page in entries
      ensures r.Err? ==> trace == old(trace) && load(PageStart(page, pageSize), pageSize) == Err(r.error)
      ensures earlierHits == old(earlierHits)
    {
      var loaded := EnsureLoadedWith(page, load);
      if loaded.Err? {
        return Err(loaded.error);
      }
      return Ok(Chunk(entries[page].data, PageStart(page, pageSize), offset, requestedEnd));
    }

    // A read stopped because page `stop` could not be loaded; the pages before it were touched.
    ghost predicate StoppedAt<E(!new)>(before: seq<nat>, first: nat, stop: nat, load: (nat, nat) -> Result<seq<Byte>,
          E>, error: E)
      reads this
    {
      trace == before + Pages(first, stop) && load(PageStart(stop, pageSize), pageSize) == Err(error)
    }
  }

  // The bytes `lo..hi` of a file, clamped to its length.
  ghost function FileSlice(file: seq<Byte>, lo: nat, hi: nat): (r: seq<Byte>)
    ensures |r| == SatSub(Min(hi, |file|), Min(lo, |file|))
    ensures forall k :: 0 <= k < |r| ==> r[k] == file[lo + k]
  {
    var from := Min(lo, |file|);
    file[from..Max(from, Min(hi, |file|))]
  }

  // What one page contributes to the request `offset..requestedEnd`.
  function Chunk(data: seq<Byte>, pageStart: nat, offset: nat, requestedEnd: nat): seq<Byte> {
    var sliceStart := if offset > pageStart then offset - pageStart else 0;
    var wantedEnd := Min(requestedEnd, SatAdd(pageStart, |data|));
    var sliceEnd := SatSub(wantedEnd, pageStart);
    if sliceStart < sliceEnd && sliceEnd <= |data| then data[sliceStart..sliceEnd] else []
  }

  // How far a request has been served when the loop reaches `page`.
  ghost function Reached(startPage: nat, page: nat, pageSize: nat, offset: nat, requestedEnd: nat): nat
    requires offset <= requestedEnd
  {
    if page <= startPage then offset else Min(requestedEnd, PageStart(page, pageSize))
  }

  lemma {:induction false} SliceEmpty(file: seq<Byte>, offset: nat)
    ensures FileSlice(file, offset, offset) == []
  {
  }

  lemma {:induction false} ClampedEnd(offset: nat, len: nat)
    requires len > 0 && offset <= U64_MAX
    ensures offset <= SatAdd(offset, len - 1) <= SatAdd(offset, len) <= SatAdd(offset, len - 1) + 1
    ensures SatAdd(offset, len) <= U64_MAX
  {
  }

  // Saturating the end of the request loses nothing: a file has at most `U64_MAX` bytes.
  lemma {:induction false} SliceOfClamped(file: seq<Byte>, offset: nat, len: nat)
    requires |file| <= U64_MAX && offset <= U64_MAX
    ensures FileSlice(file, offset, SatAdd(offset, len)) == FileSlice(file, offset, offset + len)
  {
  }

  lemma {:induction false} ServedStart(file: seq<Byte>, startPage: nat, pageSize: nat, offset: nat, requestedEnd: nat)
    requires offset <= requestedEnd
    ensures FileSlice(file, offset, Reached(startPage, startPage, pageSize, offset, requestedEnd)) == []
  {
  }

  lemma {:induction false} ServedEnd(file: seq<Byte>, startPage: nat, endPage: nat, pageSize: nat, offset: nat,
        requestedEnd: nat)
    requires offset <= requestedEnd <= PageStart(endPage + 1, pageSize) && startPage <= endPage
    ensures Reached(startPage, endPage + 1, pageSize, offset, requestedEnd) == requestedEnd
  {
  }

  lemma {:induction false} PagesStep(first: nat, page: nat)
    requires first <= page
    ensures Pages(first, first) == []
    ensures Pages(first, page + 1) == Pages(first, page) + [page]
  {
  }

  // Appending a page's contribution extends the result to the end of that page.
  lemma {:induction false} PageContributes(file: seq<Byte>, pageSize: nat, startPage: nat, page: nat, endPage: nat,
        offset: nat, requestedEnd: nat)
    requires |file| <= U64_MAX && requestedEnd <= U64_MAX && startPage <= page <= endPage
    requires PageStart(startPage, pageSize) <= offset < PageStart(startPage + 1, pageSize)
    requires offset <= requestedEnd && PageStart(endPage, pageSize) <= requestedEnd
    ensures
      FileSlice(file, offset, Reached(startPage, page, pageSize, offset, requestedEnd))
      + Chunk(PageOf(file, pageSize, page), PageStart(page, pageSize), offset, requestedEnd)
      == FileSlice(file, offset, Reached(startPage, page + 1, pageSize, offset, requestedEnd))
  {
    hide FileSlice, Chunk;
    PageStartsGrow(page, endPage, pageSize);
    if page > startPage { PageStartsGrow(startPage + 1, page, pageSize); }
    ChunkExtends(file, pageSize, PageStart(page, pageSize), offset, requestedEnd,
      Reached(startPage, page, pageSize, offset, requestedEnd));
  }

  lemma {:induction false} SliceJoin(file: seq<Byte>, a: nat, b: nat, c: nat)
    requires a <= b <= c
    ensures FileSlice(file, a, b) + FileSlice(file, b, c) == FileSlice(file, a, c)
  {
  }

  lemma {:induction false} SliceInside(file: seq<Byte>, lo: nat, hi: nat)
    ensures FileSlice(file, lo, hi) == if lo < Min(hi, |file|) then file[lo..Min(hi, |file|)] else []
  {
  }

  lemma {:induction false} ChunkInside(data: seq<Byte>, start: nat, offset: nat, requestedEnd: nat)
    requires start + |data| <= U64_MAX && requestedEnd <= U64_MAX
    ensures
      var lo, hi := SatSub(offset, start), Min(SatSub(requestedEnd, start), |data|);
      Chunk(data, start, offset, requestedEnd) == if lo < hi then data[lo..hi] else []
  {
  }

  // A page contributes exactly the requested bytes that it holds.
  lemma {:induction false} ChunkIsSlice(file: seq<Byte>, pageSize: nat, start: nat, offset: nat, requestedEnd: nat,
        reached: nat)
    requires |file| <= U64_MAX && requestedEnd <= U64_MAX && offset < start + pageSize
    requires reached == Max(offset, start) <= requestedEnd
    ensures
      var data := file[Min(start, |file|)..Min(Min(start, |file|) + pageSize, |file|)];
      Chunk(data, start, offset, requestedEnd) == FileSlice(file, reached, Min(requestedEnd, start + pageSize))
  {
    hide FileSlice, Chunk;
    SliceInside(file, reached, Min(requestedEnd, start + pageSize));
    if start < |file| {
      var end := Min(start + pageSize, |file|);
      var data := file[start..end];
      ChunkInside(data, start, offset, requestedEnd);
      var lo, hi := SatSub(offset, start), Min(SatSub(requestedEnd, start), |data|);
      if lo < hi {
        SliceOfSlice(file, start, end, lo, hi);
      }
    } else {
      ChunkOfNone(start, offset, requestedEnd);
      assert file[|file|..|file|] == [] && Min(start, |file|) == |file|;
      assert FileSlice(file, reached, Min(requestedEnd, start + pageSize)) == [];
    }
  }

  lemma {:induction false} ChunkOfNone(start: nat, offset: nat, requestedEnd: nat)
    ensures Chunk([], start, offset, requestedEnd) == []
  {
  }

  lemma {:induction false} ChunkExtends(file: seq<Byte>, pageSize: nat, start: nat, offset: nat, requestedEnd: nat,
        reached: nat)
    requires |file| <= U64_MAX && requestedEnd <= U64_MAX && offset < start + pageSize
    requires reached == Max(offset, start) <= requestedEnd
    ensures
      var data := file[Min(start, |file|)..Min(Min(start, |file|) + pageSize, |file|)];
      FileSlice(file, offset, reached) + Chunk(data, start, offset, requestedEnd)
        == FileSlice(file, offset, Min(requestedEnd, start + pageSize))
  {
    hide FileSlice, Chunk;
    ChunkIsSlice(file, pageSize, start, offset, requestedEnd, reached);
    SliceJoin(file, offset, reached, Min(requestedEnd, start + pageSize));
  }

  lemma {:induction false} PageOrder(a: nat, b: nat, pageSize: nat)
    requires pageSize > 0 && a <= b
    ensures PageIndex(a, pageSize) <= PageIndex(b, pageSize)
  {
    if a >= pageSize {
      PageOrder(a - pageSize, b - pageSize, pageSize);
    }
  }
}
