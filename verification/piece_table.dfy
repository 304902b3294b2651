/** The piece table: a mutable list of runs with a lazily rebuilt prefix-sum index. */
module PieceTables {
  import opened Common

  // Stable identity of one byte: a position in the file or in the add-buffer.
  datatype CellId = Original(offset: nat) | Add(offset: nat)

  datatype PieceSource = OriginalFile | AddBuffer

  datatype Piece = Piece(source: PieceSource, start: nat, len: nat)

  function FromSource(source: PieceSource, offset: nat): (c: CellId)
    ensures SourceOf(c) == source && c.offset == offset
  {
    match source
    case OriginalFile => Original(offset)
    case AddBuffer => Add(offset)
  }

  function SourceOf(c: CellId): PieceSource {
    match c
    case Original(_) => OriginalFile
    case Add(_) => AddBuffer
  }

  // ----- what a piece list denotes

  ghost function PieceCells(p: Piece): (cells: seq<CellId>)
    ensures |cells| == p.len
    ensures forall i :: 0 <= i < p.len ==> cells[i] == FromSource(p.source, p.start + i)
  {
    seq(p.len, i requires 0 <= i < p.len => FromSource(p.source, p.start + i))
  }

  ghost function Flatten(ps: seq<Piece>): seq<CellId> {
    if ps == [] then [] else PieceCells(ps[0]) + Flatten(ps[1..])
  }

  ghost function Identity(n: nat): (r: seq<CellId>)
    ensures |r| == n && forall i :: 0 <= i < n ==> r[i] == Original(i)
  {
    seq(n, i requires 0 <= i < n => Original(i))
  }

  // `xs` spliced into `s` at `at`.
  function Splice<T>(s: seq<T>, at: nat, xs: seq<T>): seq<T>
    requires at <= |s|
  {
    s[..at] + xs + s[at..]
  }

  // `s` without the half-open range `lo..hi`.
  function Without<T>(s: seq<T>, lo: nat, hi: nat): seq<T>
    requires lo <= hi <= |s|
  {
    s[..lo] + s[hi..]
  }

  // ----- canonical form

  predicate Mergeable(p: Piece, q: Piece) {
    p.source == q.source && p.start + p.len == q.start
  }

  ghost predicate ZeroFree(ps: seq<Piece>) {
    forall i :: 0 <= i < |ps| ==> ps[i].len > 0
  }

  ghost predicate Coalesced(ps: seq<Piece>) {
    && ZeroFree(ps)
    && forall i :: 0 <= i < |ps| - 1 ==> !Mergeable(ps[i], ps[i + 1])
  }

  lemma {:induction false} FlattenAppend(ps: seq<Piece>, qs: seq<Piece>)
    ensures Flatten(ps + qs) == Flatten(ps) + Flatten(qs)
  {
    if ps == [] {
      assert ps + qs == qs;
    } else {
      assert (ps + qs)[1..] == ps[1..] + qs;
      FlattenAppend(ps[1..], qs);
    }
  }

  lemma {:induction false} FlattenOne(p: Piece)
    ensures Flatten([p]) == PieceCells(p)
  {
    assert [p][1..] == [];
  }

  lemma {:induction false} FlattenSnoc(ps: seq<Piece>, p: Piece)
    ensures Flatten(ps + [p]) == Flatten(ps) + PieceCells(p)
  {
    FlattenAppend(ps, [p]);
    FlattenOne(p);
  }

  lemma {:induction false} FlattenCut(ps: seq<Piece>, k: nat)
    requires k <= |ps|
    ensures Flatten(ps) == Flatten(ps[..k]) + Flatten(ps[k..])
  {
    assert ps == ps[..k] + ps[k..];
    FlattenAppend(ps[..k], ps[k..]);
  }

  lemma {:induction false} FlattenStep(ps: seq<Piece>, k: nat)
    requires k < |ps|
    ensures Flatten(ps[..k + 1]) == Flatten(ps[..k]) + PieceCells(ps[k])
  {
    assert ps[..k + 1] == ps[..k] + [ps[k]];
    FlattenSnoc(ps[..k], ps[k]);
  }

  // Display offset at which piece `k` begins.
  ghost function StartOf(ps: seq<Piece>, k: nat): nat
    requires k <= |ps|
  {
    |Flatten(ps[..k])|
  }

  lemma {:induction false} StartsMonotone(ps: seq<Piece>, j: nat, k: nat)
    requires j <= k <= |ps|
    ensures StartOf(ps, j) <= StartOf(ps, k) <= |Flatten(ps)|
    ensures ZeroFree(ps) && j < k ==> StartOf(ps, j) < StartOf(ps, k)
    ensures StartOf(ps, |ps|) == |Flatten(ps)|
    decreases k - j
  {
    assert ps[..|ps|] == ps;
    FlattenCut(ps, k);
    if j < k {
      FlattenStep(ps, k - 1);
      StartsMonotone(ps, j, k - 1);
    }
  }

  lemma {:induction false} NonEmptyDenotes(ps: seq<Piece>)
    requires ZeroFree(ps)
    ensures ps == [] <==> Flatten(ps) == []
  {
    if ps != [] { assert |PieceCells(ps[0])| > 0; }
  }

  // The cells of the part `a..b` of one piece.
  function RunCells(p: Piece, a: nat, b: nat): (run: seq<CellId>)
    requires a <= b <= p.len
    ensures run == PieceCells(p)[a..b]
  {
    seq(b - a, k requires 0 <= k < b - a => FromSource(p.source, p.start + a + k))
  }

  // Reading part of piece `k` extends a slice of the document that stops where the part begins.
  lemma {:induction false} ExtendSlice(ps: seq<Piece>, k: nat, lo: nat, from: nat, to: nat)
    requires k < |ps|
    requires StartOf(ps, k) <= from <= to <= StartOf(ps, k) + ps[k].len
    requires lo <= from
    ensures StartOf(ps, k + 1) == StartOf(ps, k) + ps[k].len <= |Flatten(ps)|
    ensures Flatten(ps)[lo..from] + PieceCells(ps[k])[from - StartOf(ps, k)..to - StartOf(ps, k)] == Flatten(ps)[lo..to]
  {
    PieceWithin(ps, k);
    var c := StartOf(ps, k);
    SliceOfSlice(Flatten(ps), c, c + ps[k].len, from - c, to - c);
  }

  // Piece `k` occupies the display range that starts at `StartOf(ps, k)`.
  lemma {:induction false} PieceWithin(ps: seq<Piece>, k: nat)
    requires k < |ps|
    ensures StartOf(ps, k + 1) == StartOf(ps, k) + ps[k].len <= |Flatten(ps)|
    ensures Flatten(ps)[StartOf(ps, k)..StartOf(ps, k) + ps[k].len] == PieceCells(ps[k])
  {
    FlattenCut(ps, k + 1);
    FlattenStep(ps, k);
  }

  /** Two zero-free, fully coalesced piece lists that denote the same cells are the same list. */
  lemma {:induction false} CanonicalFormUnique(ps: seq<Piece>, qs: seq<Piece>)
    requires Coalesced(ps) && Coalesced(qs)
    requires Flatten(ps) == Flatten(qs)
    ensures ps == qs
  {
    NonEmptyDenotes(ps);
    NonEmptyDenotes(qs);
    if ps != [] && qs != [] {
      FirstRunNoLonger(ps, qs);
      FirstRunNoLonger(qs, ps);
      assert Flatten(ps[1..]) == Flatten(ps)[ps[0].len..];
      assert Flatten(qs[1..]) == Flatten(qs)[qs[0].len..];
      CanonicalFormUnique(ps[1..], qs[1..]);
    }
  }

  // The first run of a coalesced list cannot stop before the run of another list over the same cells.
  lemma {:induction false} FirstRunNoLonger(ps: seq<Piece>, qs: seq<Piece>)
    requires Coalesced(ps) && Coalesced(qs) && ps != [] && qs != []
    requires Flatten(ps) == Flatten(qs)
    ensures ps[0].source == qs[0].source && ps[0].start == qs[0].start && qs[0].len <= ps[0].len
  {
    var p, q := ps[0], qs[0];
    assert Flatten(ps)[0] == PieceCells(p)[0] && Flatten(qs)[0] == PieceCells(q)[0];
    if p.len < q.len {
      assert Flatten(qs)[p.len] == PieceCells(q)[p.len];
      assert |Flatten(ps)| == p.len + |Flatten(ps[1..])| && |Flatten(qs)| >= q.len;
      assert Flatten(ps)[p.len] == Flatten(ps[1..])[0] == PieceCells(ps[1])[0];
      assert Mergeable(ps[0], ps[1]);
    }
  }

  // ----- consequences of the canonical form

  /** Deleting a range and re-inserting its cells gives back the exact piece list. */
  lemma {:induction false} DeleteThenReinsert(ps: seq<Piece>, lo: nat, hi: nat, mid: seq<Piece>, back: seq<Piece>)
    requires Coalesced(ps) && Coalesced(back)
    requires lo <= hi <= |Flatten(ps)|
    requires Flatten(mid) == Without(Flatten(ps), lo, hi)
    requires Flatten(back) == Splice(Flatten(mid), lo, Flatten(ps)[lo..hi])
    ensures back == ps
  {
    assert Flatten(back) == Flatten(ps);
    CanonicalFormUnique(back, ps);
  }

  /** Inserting cells and deleting them again gives back the exact piece list. */
  lemma {:induction false} InsertThenDelete(ps: seq<Piece>, at: nat, xs: seq<CellId>, mid: seq<Piece>, back: seq<Piece>)
    requires Coalesced(ps) && Coalesced(back)
    requires at <= |Flatten(ps)|
    requires Flatten(mid) == Splice(Flatten(ps), at, xs)
    requires Flatten(back) == Without(Flatten(mid), at, at + |xs|)
    ensures back == ps
  {
    assert Flatten(back) == Flatten(ps);
    CanonicalFormUnique(back, ps);
  }

  ghost function IdentityPieces(n: nat): seq<Piece> {
    if n == 0 then [] else [Piece(OriginalFile, 0, n)]
  }

  lemma {:induction false} IdentityPiecesDenote(n: nat)
    ensures Coalesced(IdentityPieces(n)) && Flatten(IdentityPieces(n)) == Identity(n)
  {
    if n > 0 {
      FlattenOne(Piece(OriginalFile, 0, n));
      assert PieceCells(Piece(OriginalFile, 0, n)) == Identity(n);
    }
  }

  // The id refers to a byte that exists: inside the file, or inside the add-buffer.
  ghost predicate Known(c: CellId, fileLen: nat, addLen: nat) {
    match c
    case Original(o) => o < fileLen
    case Add(o) => o < addLen
  }

  ghost predicate Backed(cells: seq<CellId>, fileLen: nat, addLen: nat) {
    forall i :: 0 <= i < |cells| ==> Known(cells[i], fileLen, addLen)
  }

  ghost predicate NoDup<T>(s: seq<T>) {
    forall i, j :: 0 <= i < j < |s| ==> s[i] != s[j]
  }

  ghost function FreshCells(addLen: nat, n: nat): seq<CellId> {
    seq(n, i requires 0 <= i < n => Add(addLen + i))
  }

  /** Inserting at the end of the add-buffer keeps cells distinct and backed. */
  lemma {:induction false} FreshInsertKeepsIds(cells: seq<CellId>, fileLen: nat, addLen: nat, at: nat, n: nat)
    requires NoDup(cells) && Backed(cells, fileLen, addLen) && at <= |cells|
    ensures NoDup(Splice(cells, at, FreshCells(addLen, n)))
    ensures Backed(Splice(cells, at, FreshCells(addLen, n)), fileLen, addLen + n)
  {
    var f := FreshCells(addLen, n);
    var s := Splice(cells, at, f);
    forall i | 0 <= i < |s| ensures s[i] == (if i < at then cells[i] else if i < at + n then f[i - at] else cells[i - n]) {
    }
    forall i, j | 0 <= i < j < |s| ensures s[i] != s[j] {
      assert forall k :: 0 <= k < |cells| ==> Known(cells[k], fileLen, addLen);
    }
  }

  // ----- the table

  class PieceTable {
    const originalLen: nat
    var addBuffer: seq<Byte>
    var pieces: seq<Piece>
    var len: nat
    var prefixEnds: seq<nat>
    var prefixDirty: bool

    ghost function Cells(): seq<CellId>
      reads this
    {
      Flatten(pieces)
    }

    ghost predicate PrefixOk()
      reads this
    {
      !prefixDirty ==>
        && |prefixEnds| == |pieces|
        && forall k :: 0 <= k < |pieces| ==> prefixEnds[k] == StartOf(pieces, k + 1)
    }

    // What holds in the middle of a mutation: pieces may be split but are never empty.
    ghost predicate Layout()
      reads this
    {
      ZeroFree(pieces) && len == |Cells()| && PrefixOk()
    }

    ghost predicate Valid()
      reads this
    {
      Layout() && Coalesced(pieces)
    }

    lemma {:induction false} LenCountsCells()
      requires Valid()
      ensures len == |Cells()|
    {
    }

    constructor (n: nat)
      ensures Valid() && originalLen == n && addBuffer == []
      ensures Cells() == Identity(n)
    {
      originalLen := n;
      addBuffer := [];
      pieces := if n == 0 then [] else [Piece(OriginalFile, 0, n)];
      len := n;
      prefixEnds := [];
      prefixDirty := true;
      IdentityPiecesDenote(n);
    }

    /** True exactly when the document shows the original file in order. */
    predicate IsIdentity()
      requires Valid()
      reads this
      ensures IsIdentity() <==> Cells() == Identity(originalLen)
    {
      IdentityPiecesDenote(originalLen);
      assert Cells() == Identity(originalLen) ==> pieces == IdentityPieces(originalLen) by {
        if Cells() == Identity(originalLen) {
          CanonicalFormUnique(pieces, IdentityPieces(originalLen));
        }
      }
      if len != originalLen then false
      else if originalLen == 0 then pieces == []
      else |pieces| == 1 && pieces[0] == Piece(OriginalFile, 0, originalLen)
    }

    method EnsurePrefix()
      requires Layout()
      modifies `prefixEnds, `prefixDirty
      ensures Layout() && !prefixDirty && Cells() == old(Cells())
    {
      if !prefixDirty {
        return;
      }
      var ends: seq<nat> := [];
      var cursor := 0;
      for i := 0 to |pieces|
        invariant |ends| == i && cursor == StartOf(pieces, i)
        invariant forall k :: 0 <= k < i ==> ends[k] == StartOf(pieces, k + 1)
      {
        FlattenStep(pieces, i);
        cursor := cursor + pieces[i].len;
        ends := ends + [cursor];
      }
      prefixEnds := ends;
      prefixDirty := false;
    }

    /** The piece that holds a display offset, and the offset at which that piece starts. */
    method FindPiece(offset: nat) returns (r: Option<(nat, nat)>)
      requires Layout()
      modifies `prefixEnds, `prefixDirty
      ensures Layout()
      ensures r.None? <==> offset >= len
      ensures r.Some? ==>
        var (idx, cursor) := r.value;
        idx < |pieces| && cursor == StartOf(pieces, idx) && cursor <= offset < cursor + pieces[idx].len
    {
      if offset >= len || pieces == [] {
        return None;
      }
      EnsurePrefix();
      StartsMonotone(pieces, 0, |pieces|);
      var lo, hi := 0, |pieces|;
      while lo < hi
        invariant 0 <= lo <= hi <= |pieces|
        invariant StartOf(pieces, lo) <= offset
        invariant hi < |pieces| ==> offset < prefixEnds[hi]
      {
        var mid := (lo + hi) / 2;
        if prefixEnds[mid] <= offset {
          lo := mid + 1;
        } else {
          hi := mid;
        }
      }
      if lo >= |pieces| {
        assert false;
        return None;
      }
      FlattenStep(pieces, lo);
      return Some((lo, if lo == 0 then 0 else prefixEnds[lo - 1]));
    }

    /** `resolve` is indexing into the denoted cells. */
    method Resolve(offset: nat) returns (r: Option<CellId>)
      requires Valid()
      modifies `prefixEnds, `prefixDirty
      ensures Valid() && Cells() == old(Cells())
      ensures r == if offset < |Cells()| then Some(Cells()[offset]) else None
    {
      if offset >= len {
        return None;
      }
      var found := FindPiece(offset);
      var (idx, cursor) := found.value;
      var piece := pieces[idx];
      PieceWithin(pieces, idx);
      assert Cells()[offset] == PieceCells(piece)[offset - cursor];
      return Some(FromSource(piece.source, piece.start + (offset - cursor)));
    }

    /** `cell_ids_range` is a slice clamped to the document. */
    method CellIdsRange(offset: nat, n: nat) returns (out: seq<CellId>)
      requires Valid()
      modifies `prefixEnds, `prefixDirty
      ensures Valid() && Cells() == old(Cells())
      ensures out == if offset >= |Cells()| then [] else Cells()[offset..Min(offset + n, |Cells()|)]
    {
      hide Coalesced, ZeroFree, Flatten, PieceCells, StartOf, FromSource, RunCells, PieceTable.PrefixOk;
      if n == 0 || offset >= len {
        return [];
      }
      // The source saturates `offset + n`; clamping to `len`, itself a u64, gives the same value.
      var end := Min(offset + n, len);
      out := [];
      var found := FindPiece(offset);
      var (idx, cursor) := found.value;
      ghost var cells := Cells();
      var i := idx;
      while i < |pieces| && cursor < end
        invariant Layout() && idx <= i <= |pieces| && cells == Cells()
        invariant cursor == StartOf(pieces, i) <= |cells|
        invariant i == idx ==> cursor <= offset && out == []
        invariant i > idx ==> offset < cursor && out == cells[offset..Min(cursor, end)]
      {
        var piece := pieces[i];
        PieceWithin(pieces, i);
        var from, to := Max(offset, cursor), Min(end, cursor + piece.len);
        ExtendSlice(pieces, i, offset, from, to);
        out := out + RunCells(piece, from - cursor, to - cursor);
        cursor := cursor + piece.len;
        i := i + 1;
      }
      StartsMonotone(pieces, 0, |pieces|);
    }

    /** Cut the piece that spans `offset`; returns the index at which a new piece belongs. */
    method SplitPieceAt(offset: nat) returns (idx: nat)
      requires Layout()
      modifies `pieces, `prefixEnds, `prefixDirty
      ensures Layout() && Cells() == old(Cells())
      ensures idx <= |pieces| && StartOf(pieces, idx) == Min(offset, len)
      ensures forall k :: 0 <= k <= |old(pieces)| && StartOf(old(pieces), k) <= offset ==>
                k <= |pieces| && pieces[..k] == old(pieces)[..k]
    {
      hide Coalesced;
      StartsMonotone(pieces, 0, |pieces|);
      if offset == 0 {
        return 0;
      }
      if offset >= len {
        return |pieces|;
      }
      var found := FindPiece(offset);
      var at, cursor := found.value.0, found.value.1;
      var piece := pieces[at];
      if offset == cursor {
        return at;
      }
      var leftLen := offset - cursor;
      var left := Piece(piece.source, piece.start, leftLen);
      var right := Piece(piece.source, piece.start + leftLen, piece.len - leftLen);
      CutKeepsCells(pieces, at, leftLen);
      forall k | 0 <= k <= |pieces| && StartOf(pieces, k) <= offset
        ensures k <= at
      {
        PieceWithin(pieces, at);
        if k > at { StartsMonotone(pieces, at + 1, k); }
      }
      pieces := pieces[..at] + [left, right] + pieces[at + 1..];
      prefixDirty := true;
      return at + 1;
    }

    // Merge adjacent contiguous runs and drop empty ones.
    method Coalesce()
      modifies `pieces
      ensures Coalesced(pieces) && Cells() == old(Cells())
    {
      if pieces == [] {
        return;
      }
      var merged: seq<Piece> := [];
      for i := 0 to |pieces|
        invariant pieces == old(pieces)
        invariant Coalesced(merged) && Flatten(merged) == Flatten(pieces[..i])
      {
        var piece := pieces[i];
        FlattenStep(pieces, i);
        if piece.len > 0 {
          if merged != [] && Mergeable(merged[|merged| - 1], piece) {
            var last := merged[|merged| - 1];
            GrowLast(merged, piece);
            merged := merged[|merged| - 1 := last.(len := last.len + piece.len)];
          } else {
            FlattenSnoc(merged, piece);
            merged := merged + [piece];
          }
        }
      }
      assert pieces[..|pieces|] == pieces;
      pieces := merged;
    }

    /** New bytes go to the end of the add-buffer; the document gains their fresh ids. */
    method InsertBytes(offset: nat, bytes: seq<Byte>)
      requires Valid()
      modifies this
      ensures Valid()
      ensures addBuffer == old(addBuffer) + bytes
      ensures Cells() == Splice(old(Cells()), Min(offset, |old(Cells())|), FreshCells(|old(addBuffer)|, |bytes|))
    {
      if bytes == [] {
        assert Cells() == Splice(Cells(), Min(offset, |Cells()|), []);
        return;
      }
      var addStart := |addBuffer|;
      addBuffer := addBuffer + bytes;
      var piece := Piece(AddBuffer, addStart, |bytes|);
      var idx := SplitPieceAt(Min(offset, len));
      FlattenOne(piece);
      SpliceDenotes(pieces, idx, [piece]);
      assert PieceCells(piece) == FreshCells(addStart, |bytes|);
      pieces := pieces[..idx] + [piece] + pieces[idx..];
      len := len + piece.len;
      prefixDirty := true;
      Coalesce();
    }

    /** Re-insert removed cells: the document gains exactly those cells at `offset`. */
    method InsertExistingCells(offset: nat, cells: seq<CellId>)
      requires Valid()
      modifies `pieces, `len, `prefixEnds, `prefixDirty
      ensures Valid()
      ensures Cells() == Splice(old(Cells()), Min(offset, |old(Cells())|), cells)
    {
      if cells == [] {
        assert Cells() == Splice(Cells(), Min(offset, |Cells()|), []);
        return;
      }
      var idx := SplitPieceAt(Min(offset, len));
      var newCells := CellsToPieces(cells);
      SpliceDenotes(pieces, idx, newCells);
      pieces := pieces[..idx] + newCells + pieces[idx..];
      len := len + |cells|;
      prefixDirty := true;
      Coalesce();
    }

    /** Remove a range (clamped to the document) and report the cells that were removed. */
    method DeleteRangeReal(offset: nat, n: nat) returns (removed: seq<CellId>)
      requires Valid()
      modifies `pieces, `len, `prefixEnds, `prefixDirty
      ensures Valid()
      ensures n == 0 || offset >= |old(Cells())| ==> removed == [] && Cells() == old(Cells())
      ensures n > 0 && offset < |old(Cells())| ==>
        var end := Min(offset + n, |old(Cells())|);
        && removed == old(Cells())[offset..end]
        && Cells() == Without(old(Cells()), offset, end)
    {
      if n == 0 || offset >= len {
        return [];
      }
      var end := Min(offset + n, len);
      removed := CellIdsRange(offset, end - offset);
      if removed == [] {
        assert false;
        return;
      }
      var startIdx := SplitPieceAt(offset);
      var endIdx := SplitPieceAt(end);
      assert StartOf(pieces, startIdx) == offset;
      if endIdx < startIdx { StartsMonotone(pieces, endIdx, startIdx); }
      DrainDenotes(pieces, startIdx, endIdx);
      pieces := pieces[..startIdx] + pieces[endIdx..];
      len := len - (end - offset);
      prefixDirty := true;
      Coalesce();
    }
  }

  // Cutting one piece in two keeps the cells.
  lemma {:induction false} CutKeepsCells(ps: seq<Piece>, k: nat, leftLen: nat)
    requires k < |ps| && leftLen <= ps[k].len
    ensures
      var left := Piece(ps[k].source, ps[k].start, leftLen);
      var right := Piece(ps[k].source, ps[k].start + leftLen, ps[k].len - leftLen);
      var cut := ps[..k] + [left, right] + ps[k + 1..];
      && Flatten(cut) == Flatten(ps)
      && StartOf(cut, k + 1) == StartOf(ps, k) + leftLen
  {
    var left := Piece(ps[k].source, ps[k].start, leftLen);
    var right := Piece(ps[k].source, ps[k].start + leftLen, ps[k].len - leftLen);
    var cut := ps[..k] + [left, right] + ps[k + 1..];
    FlattenCut(ps, k + 1);
    FlattenStep(ps, k);
    assert PieceCells(left) + PieceCells(right) == PieceCells(ps[k]);
    FlattenCut(cut, k + 2);
    FlattenStep(cut, k + 1);
    FlattenStep(cut, k);
    assert cut[..k] == ps[..k] && cut[k + 2..] == ps[k + 1..];
  }

  // Growing the last run by a mergeable piece appends that piece's cells.
  lemma {:induction false} GrowLast(ps: seq<Piece>, p: Piece)
    requires Coalesced(ps) && ps != [] && Mergeable(ps[|ps| - 1], p)
    ensures
      var last := ps[|ps| - 1];
      var grown := ps[|ps| - 1 := last.(len := last.len + p.len)];
      Flatten(grown) == Flatten(ps) + PieceCells(p) && Coalesced(grown)
  {
    var n := |ps| - 1;
    var last := ps[n].(len := ps[n].len + p.len);
    var grown := ps[n := last];
    FlattenStep(ps, n);
    FlattenStep(grown, n);
    assert grown[..n] == ps[..n] && ps[..n + 1] == ps && grown[..n + 1] == grown;
    assert PieceCells(last) == PieceCells(ps[n]) + PieceCells(p);
    forall i | 0 <= i < |grown| - 1 ensures !Mergeable(grown[i], grown[i + 1]) {
      assert !Mergeable(ps[i], ps[i + 1]);
    }
  }

  lemma {:induction false} SpliceDenotes(ps: seq<Piece>, k: nat, qs: seq<Piece>)
    requires k <= |ps|
    ensures StartOf(ps, k) <= |Flatten(ps)|
    ensures Flatten(ps[..k] + qs + ps[k..]) == Splice(Flatten(ps), StartOf(ps, k), Flatten(qs))
  {
    FlattenCut(ps, k);
    FlattenAppend(ps[..k] + qs, ps[k..]);
    FlattenAppend(ps[..k], qs);
  }

  lemma {:induction false} DrainDenotes(ps: seq<Piece>, j: nat, k: nat)
    requires j <= k <= |ps|
    ensures StartOf(ps, j) <= StartOf(ps, k) <= |Flatten(ps)|
    ensures Flatten(ps[..j] + ps[k..]) == Without(Flatten(ps), StartOf(ps, j), StartOf(ps, k))
  {
    StartsMonotone(ps, j, k);
    FlattenCut(ps, j);
    FlattenCut(ps, k);
    FlattenAppend(ps[..j], ps[k..]);
  }

  /** Turn a list of ids back into the minimal list of runs that denotes it. */
  method CellsToPieces(cells: seq<CellId>) returns (out: seq<Piece>)
    ensures Flatten(out) == cells && Coalesced(out)
  {
    out := [];
    for i := 0 to |cells|
      invariant Coalesced(out) && Flatten(out) == cells[..i]
    {
      var piece := Piece(SourceOf(cells[i]), cells[i].offset, 1);
      assert PieceCells(piece) == [cells[i]];
      if out != [] && Mergeable(out[|out| - 1], piece) {
        var last := out[|out| - 1];
        GrowLast(out, piece);
        out := out[|out| - 1 := last.(len := last.len + 1)];
      } else {
        FlattenSnoc(out, piece);
        out := out + [piece];
      }
    }
  }

  /** Deleting a range of a table and restoring it leaves the piece list itself unchanged. */
  method DeleteThenRestore(table: PieceTable, offset: nat, n: nat)
    requires table.Valid()
    modifies table
    ensures table.Valid() && table.pieces == old(table.pieces)
  {
    ghost var ps := table.pieces;
    var removed := table.DeleteRangeReal(offset, n);
    ghost var mid := table.pieces;
    table.InsertExistingCells(offset, removed);
    if n > 0 && offset < |Flatten(ps)| {
      DeleteThenReinsert(ps, offset, Min(offset + n, |Flatten(ps)|), mid, table.pieces);
    } else {
      CanonicalFormUnique(table.pieces, ps);
    }
  }

  /** Inserting bytes and deleting exactly that range leaves the piece list itself unchanged. */
  method InsertThenErase(table: PieceTable, offset: nat, bytes: seq<Byte>)
    requires table.Valid() && offset <= table.len
    modifies table
    ensures table.Valid() && table.pieces == old(table.pieces)
    ensures table.addBuffer == old(table.addBuffer) + bytes
  {
    ghost var ps := table.pieces;
    ghost var newCells := FreshCells(|table.addBuffer|, |bytes|);
    table.InsertBytes(offset, bytes);
    ghost var mid := table.pieces;
    var removed := table.DeleteRangeReal(offset, |bytes|);
    if bytes != [] {
      InsertThenDelete(ps, offset, newCells, mid, table.pieces);
    } else {
      CanonicalFormUnique(table.pieces, ps);
    }
  }
}
