/** The editable document (piece table, tombstones, replacements) and its reversible edit operations. */
module Documents {
  import opened Common
  import opened PieceTables

  datatype Error = ReadOnly | FixedSizeViolation | OffsetOutOfRange | DisassemblyUnavailable

  // One cell's replacement before and after an edit; `None` shows the base byte.
  datatype Change = Change(id: CellId, before: Option<Byte>, after: Option<Byte>)

  datatype EditOp =
    | Insert(at: nat, cells: seq<CellId>)
    | RealDelete(at: nat, cells: seq<CellId>)
    | TombstoneDelete(ids: seq<CellId>)
    | ReplaceBytes(changes: seq<Change>)

  datatype DocState = DocState(cells: seq<CellId>, tombstones: set<CellId>, replacements: map<CellId, Byte>)

  // What one display slot shows; the visible byte is the replacement, else the cell's base byte.
  datatype Slot = Slot(id: CellId, deleted: bool, replacement: Option<Byte>)

  function Lookup(m: map<CellId, Byte>, id: CellId): Option<Byte> {
    if id in m then Some(m[id]) else None
  }

  function SetReplacement(m: map<CellId, Byte>, id: CellId, v: Option<Byte>): (r: map<CellId, Byte>)
    ensures Lookup(r, id) == v
    ensures forall other :: other != id ==> Lookup(r, other) == Lookup(m, other)
  {
    match v
    case Some(b) => m[id := b]
    case None => m - {id}
  }

  ghost function Display(s: DocState): seq<Slot> {
    seq(|s.cells|, i requires 0 <= i < |s.cells| =>
      Slot(s.cells[i], s.cells[i] in s.tombstones, Lookup(s.replacements, s.cells[i])))
  }

  function ToSet(ids: seq<CellId>): set<CellId> {
    set i | 0 <= i < |ids| :: ids[i]
  }

  predicate HasEffect(op: EditOp) {
    match op
    case Insert(_, cells) => cells != []
    case RealDelete(_, cells) => cells != []
    case TombstoneDelete(ids) => ids != []
    case ReplaceBytes(changes) => exists i :: 0 <= i < |changes| && changes[i].before != changes[i].after
  }

  predicate AnyEffect(ops: seq<EditOp>) {
    exists i :: 0 <= i < |ops| && HasEffect(ops[i])
  }

  // ----- meaning of one operation

  function Recorded(c: Change, after: bool): Option<Byte> {
    if after then c.after else c.before
  }

  // All changes written in list order, to their `after` or to their `before` value.
  function Restore(changes: seq<Change>, after: bool, m: map<CellId, Byte>): map<CellId, Byte> {
    if changes == [] then m
    else
      var k := |changes| - 1;
      SetReplacement(Restore(changes[..k], after, m), changes[k].id, Recorded(changes[k], after))
  }

  function InsertCells(s: DocState, at: nat, cells: seq<CellId>): DocState
    requires at <= |s.cells|
  {
    s.(cells := Splice(s.cells, at, cells))
  }

  function RemoveCells(s: DocState, at: nat, n: nat): DocState
    requires n > 0 ==> at <= |s.cells|
  {
    if n == 0 then s else s.(cells := Without(s.cells, at, Min(at + n, |s.cells|)))
  }

  // The error a layout change raises, checked in the source's order.
  function InsertFault(s: DocState, at: nat, readonly: bool, fixedSize: bool): (r: Option<Error>)
    ensures r.None? <==> !readonly && !fixedSize && at <= |s.cells|
    ensures r == Some(ReadOnly) <==> readonly
    ensures r == Some(FixedSizeViolation) <==> !readonly && fixedSize
    ensures r.Some? ==> r.value == ReadOnly || r.value == FixedSizeViolation || r.value == OffsetOutOfRange
  {
    if readonly then Some(ReadOnly)
    else if fixedSize then Some(FixedSizeViolation)
    else if at > |s.cells| then Some(OffsetOutOfRange)
    else None
  }

  function RemoveFault(s: DocState, at: nat, n: nat, readonly: bool, fixedSize: bool): (r: Option<Error>)
    ensures r.None? <==> !readonly && !fixedSize && (n == 0 || at < |s.cells|)
    ensures r == Some(ReadOnly) <==> readonly
    ensures r == Some(FixedSizeViolation) <==> !readonly && fixedSize
    ensures r.Some? ==> r.value == ReadOnly || r.value == FixedSizeViolation || r.value == OffsetOutOfRange
  {
    if readonly then Some(ReadOnly)
    else if fixedSize then Some(FixedSizeViolation)
    else if n > 0 && at >= |s.cells| then Some(OffsetOutOfRange)
    else None
  }

  ghost function ApplyFault(op: EditOp, s: DocState, readonly: bool, fixedSize: bool): (r: Option<Error>)
    ensures op.Insert? ==> (r.None? <==> !readonly && !fixedSize && op.at <= |s.cells|)
    ensures op.RealDelete? ==> (r.None? <==> !readonly && !fixedSize && (op.cells == [] || op.at < |s.cells|))
    ensures op.TombstoneDelete? ==> (r.None? <==> !readonly && !fixedSize)
    ensures op.ReplaceBytes? ==> (r.None? <==> !readonly || op.changes == [])
    ensures r == Some(ReadOnly) <==> readonly && !(op.ReplaceBytes? && op.changes == [])
    ensures r == Some(FixedSizeViolation) <==> !readonly && fixedSize && !op.ReplaceBytes?
  {
    match op
    case Insert(at, cells) => InsertFault(s, at, readonly, fixedSize)
    case RealDelete(at, cells) => RemoveFault(s, at, |cells|, readonly, fixedSize)
    case TombstoneDelete(_) => if readonly then Some(ReadOnly) else if fixedSize then Some(FixedSizeViolation) else None
    case ReplaceBytes(changes) => if readonly && changes != [] then Some(ReadOnly) else None
  }

  function UndoFault(op: EditOp, s: DocState, readonly: bool, fixedSize: bool): (r: Option<Error>)
    ensures op.Insert? ==> (r.None? <==> !readonly && !fixedSize && (op.cells == [] || op.at < |s.cells|))
    ensures op.RealDelete? ==> (r.None? <==> !readonly && !fixedSize && op.at <= |s.cells|)
    ensures op.TombstoneDelete? ==> r.None?
    ensures op.ReplaceBytes? ==> (r.None? <==> !readonly || op.changes == [])
    ensures r == Some(ReadOnly) <==> readonly && !op.TombstoneDelete? && !(op.ReplaceBytes? && op.changes == [])
    ensures r == Some(FixedSizeViolation) <==> !readonly && fixedSize && (op.Insert? || op.RealDelete?)
  {
    match op
    case Insert(at, cells) => RemoveFault(s, at, |cells|, readonly, fixedSize)
    case RealDelete(at, cells) => InsertFault(s, at, readonly, fixedSize)
    case TombstoneDelete(_) => None
    case ReplaceBytes(changes) => if readonly && changes != [] then Some(ReadOnly) else None
  }

  ghost function ApplyOp(op: EditOp, s: DocState): DocState
    requires ApplyFault(op, s, false, false).None?
  {
    match op
    case Insert(at, cells) => InsertCells(s, at, cells)
    case RealDelete(at, cells) => RemoveCells(s, at, |cells|)
    case TombstoneDelete(ids) => s.(tombstones := s.tombstones + ToSet(ids))
    case ReplaceBytes(changes) => s.(replacements := Restore(changes, true, s.replacements))
  }

  function UndoOp(op: EditOp, s: DocState): DocState
    requires UndoFault(op, s, false, false).None?
  {
    match op
    case Insert(at, cells) => RemoveCells(s, at, |cells|)
    case RealDelete(at, cells) => InsertCells(s, at, cells)
    case TombstoneDelete(ids) => s.(tombstones := s.tombstones - ToSet(ids))
    case ReplaceBytes(changes) => s.(replacements := Restore(changes, false, s.replacements))
  }

  // The source's debug assertion: a removal takes exactly the recorded cells.
  ghost predicate RemovesRecorded(s: DocState, at: nat, cells: seq<CellId>) {
    cells != [] && at < |s.cells| ==> s.cells[at..Min(at + |cells|, |s.cells|)] == cells
  }

  ghost predicate ApplyIntact(op: EditOp, s: DocState) {
    op.RealDelete? ==> RemovesRecorded(s, op.at, op.cells)
  }

  ghost predicate UndoIntact(op: EditOp, s: DocState) {
    op.Insert? ==> RemovesRecorded(s, op.at, op.cells)
  }

  // ----- an operation that leads from `s` to `t` and back

  ghost predicate DistinctIds(changes: seq<Change>) {
    forall i, j :: 0 <= i < j < |changes| ==> changes[i].id != changes[j].id
  }

  ghost predicate Links(op: EditOp, s: DocState, t: DocState) {
    match op
    case Insert(at, cells) =>
      && at <= |s.cells|
      && t == InsertCells(s, at, cells)
    case RealDelete(at, cells) =>
      && at + |cells| <= |s.cells|
      && s.cells[at..at + |cells|] == cells
      && t == s.(cells := Without(s.cells, at, at + |cells|))
    case TombstoneDelete(ids) =>
      && ToSet(ids) !! s.tombstones
      && t == s.(tombstones := s.tombstones + ToSet(ids))
    case ReplaceBytes(changes) =>
      && DistinctIds(changes)
      && (forall i :: 0 <= i < |changes| ==> changes[i].before == Lookup(s.replacements, changes[i].id))
      && t == s.(replacements := Restore(changes, true, s.replacements))
  }

  lemma {:induction false} SameLookups(m: map<CellId, Byte>, n: map<CellId, Byte>)
    requires forall id :: Lookup(m, id) == Lookup(n, id)
    ensures m == n
  {
    forall id ensures id in m <==> id in n {
      assert Lookup(m, id) == Lookup(n, id);
    }
    forall id | id in m ensures m[id] == n[id] {
      assert Lookup(m, id) == Lookup(n, id);
    }
  }

  // Index of the last change that mentions `id`, or -1.
  ghost function LastIndex(changes: seq<Change>, id: CellId): (k: int)
    ensures -1 <= k < |changes|
    ensures k >= 0 ==> changes[k].id == id
    ensures forall j :: k < j < |changes| ==> changes[j].id != id
  {
    if changes == [] then -1
    else if changes[|changes| - 1].id == id then |changes| - 1
    else LastIndex(changes[..|changes| - 1], id)
  }

  // Writing a list of changes leaves, for each id, the value of its last change.
  lemma {:induction false} RestoreLookup(changes: seq<Change>, after: bool, m: map<CellId, Byte>, id: CellId)
    ensures
      var k := LastIndex(changes, id);
      Lookup(Restore(changes, after, m), id) == if k < 0 then Lookup(m, id) else Recorded(changes[k], after)
  {
    if changes != [] {
      RestoreLookup(changes[..|changes| - 1], after, m, id);
    }
  }

  /** A replacement record undoes itself exactly when each id's last recorded `before` is its true old value. */
  lemma {:induction false} ReplaceUndoExact(changes: seq<Change>, s: DocState)
    ensures
      UndoOp(ReplaceBytes(changes), ApplyOp(ReplaceBytes(changes), s)) == s
      <==>
      forall i :: 0 <= i < |changes| && LastIndex(changes, changes[i].id) == i ==>
        changes[i].before == Lookup(s.replacements, changes[i].id)
  {
    var m := s.replacements;
    var done := Restore(changes, true, m);
    var back := Restore(changes, false, done);
    forall id ensures
      Lookup(back, id) == (if LastIndex(changes, id) < 0 then Lookup(m, id) else changes[LastIndex(changes, id)].before)
    {
      RestoreLookup(changes, true, m, id);
      RestoreLookup(changes, false, done, id);
    }
    if forall i :: 0 <= i < |changes| && LastIndex(changes, changes[i].id) == i ==>
        changes[i].before == Lookup(m, changes[i].id)
    {
      forall id ensures Lookup(back, id) == Lookup(m, id) {
        var k := LastIndex(changes, id);
        if k >= 0 { assert LastIndex(changes, changes[k].id) == k; }
      }
      SameLookups(back, m);
    }
  }

  /** Replaying and undoing a linked operation cannot fail, removes what was recorded, and is exact. */
  lemma {:induction false} LinksExact(op: EditOp, s: DocState, t: DocState)
    requires Links(op, s, t)
    ensures ApplyFault(op, s, false, false).None? && ApplyIntact(op, s) && ApplyOp(op, s) == t
    ensures UndoFault(op, t, false, false).None? && UndoIntact(op, t) && UndoOp(op, t) == s
  {
    match op
    case Insert(at, cells) =>
      assert t.cells[at..at + |cells|] == cells;
      assert Without(t.cells, at, at + |cells|) == s.cells;
    case RealDelete(at, cells) =>
      assert Splice(t.cells, at, cells) == s.cells;
    case TombstoneDelete(ids) =>
      assert t.tombstones - ToSet(ids) == s.tombstones;
    case ReplaceBytes(changes) =>
      ReplaceUndoExact(changes, s);
  }

  /** An operation without effect leads from a state only to itself. */
  lemma {:induction false} NoEffectStays(op: EditOp, s: DocState, t: DocState)
    requires Links(op, s, t) && !HasEffect(op)
    ensures s == t
  {
    match op
    case Insert(at, cells) => assert Splice(s.cells, at, []) == s.cells;
    case RealDelete(at, cells) => assert Without(s.cells, at, at) == s.cells;
    case TombstoneDelete(ids) => assert ToSet(ids) == {};
    case ReplaceBytes(changes) =>
      var done := Restore(changes, true, s.replacements);
      forall id ensures Lookup(done, id) == Lookup(s.replacements, id) {
        RestoreLookup(changes, true, s.replacements, id);
        var k := LastIndex(changes, id);
        if k >= 0 { assert changes[k].before == changes[k].after; }
      }
      SameLookups(done, s.replacements);
  }

  /** And one with an effect leads from a state only to another: the test for an effect is exact. */
  lemma {:induction false} EffectExact(op: EditOp, s: DocState, t: DocState)
    requires Links(op, s, t)
    ensures HasEffect(op) <==> s != t
  {
    if !HasEffect(op) {
      NoEffectStays(op, s, t);
    } else {
      match op
      case Insert(at, cells) => assert |t.cells| == |s.cells| + |cells|;
      case RealDelete(at, cells) => assert |t.cells| == |s.cells| - |cells|;
      case TombstoneDelete(ids) => assert ids[0] in ToSet(ids) && ids[0] !in s.tombstones && ids[0] in t.tombstones;
      case ReplaceBytes(changes) =>
        var i :| 0 <= i < |changes| && changes[i].before != changes[i].after;
        RestoreLookup(changes, true, s.replacements, changes[i].id);
        assert LastIndex(changes, changes[i].id) == i;
        assert Lookup(t.replacements, changes[i].id) != Lookup(s.replacements, changes[i].id);
    }
  }

  // ----- lists of operations

  ghost function LastOp(ops: seq<EditOp>): EditOp
    requires ops != []
  {
    ops[|ops| - 1]
  }

  ghost function ButLast(ops: seq<EditOp>): seq<EditOp>
    requires ops != []
  {
    ops[..|ops| - 1]
  }

  // `ops` lead from `s` to `t` through linked intermediate states.
  ghost predicate Chained(ops: seq<EditOp>, s: DocState, t: DocState)
    decreases |ops|
  {
    if ops == [] then s == t
    else exists mid :: Chained(ButLast(ops), s, mid) && Links(LastOp(ops), mid, t)
  }

  lemma {:induction false} ChainedOne(op: EditOp, s: DocState, t: DocState)
    ensures Chained([op], s, t) <==> Links(op, s, t)
  {
    assert ButLast([op]) == [] && LastOp([op]) == op;
    if Links(op, s, t) {
      assert Chained(ButLast([op]), s, s) && Links(LastOp([op]), s, t);
    }
  }

  /** Ops without effect may be dropped from a list without changing where it leads. */
  lemma {:induction false} NoEffectListStays(ops: seq<EditOp>, s: DocState, t: DocState)
    requires Chained(ops, s, t)
    requires !AnyEffect(ops)
    ensures s == t
  {
    if ops != [] {
      var mid :| Chained(ButLast(ops), s, mid) && Links(LastOp(ops), mid, t);
      assert !HasEffect(LastOp(ops));
      assert !AnyEffect(ButLast(ops));
      NoEffectListStays(ButLast(ops), s, mid);
      NoEffectStays(LastOp(ops), mid, t);
    }
  }

  // ----- tombstoning a range

  ghost function DisplayRange(cells: seq<CellId>, start: nat, endInclusive: nat): (r: seq<CellId>)
    ensures |r| == Min(SatSub(endInclusive + 1, start), SatSub(|cells|, start))
    ensures forall k :: 0 <= k < |r| ==> r[k] == cells[start + k]
  {
    if start > endInclusive || start >= |cells| then [] else cells[start..Min(endInclusive + 1, |cells|)]
  }

  // The cells that carry no tombstone yet, in order.
  ghost function Undeleted(cells: seq<CellId>, tombstones: set<CellId>): (r: seq<CellId>)
    ensures forall i :: 0 <= i < |r| ==> r[i] in cells && r[i] !in tombstones
    ensures forall i :: 0 <= i < |cells| && cells[i] !in tombstones ==> cells[i] in r
  {
    if cells == [] then []
    else
      var k := |cells| - 1;
      var front := Undeleted(cells[..k], tombstones);
      if cells[k] in tombstones then front else front + [cells[k]]
  }

  // `left` are the cells at these rising places, and no cell without a tombstone is left out.
  ghost predicate LeftAt(cells: seq<CellId>, tombstones: set<CellId>, left: seq<CellId>, at: seq<nat>) {
    && |at| == |left| && (forall a, b :: 0 <= a < b < |at| ==> at[a] < at[b])
    && (forall m :: 0 <= m < |at| ==> at[m] < |cells| && left[m] == cells[at[m]] && left[m] !in tombstones)
    && (forall i :: 0 <= i < |cells| && cells[i] !in tombstones ==> i in at)
  }

  lemma {:induction false} LeftSnoc(cells: seq<CellId>, tombstones: set<CellId>, left: seq<CellId>, at: seq<nat>, id: CellId)
    requires LeftAt(cells, tombstones, left, at)
    ensures
      if id in tombstones then LeftAt(cells + [id], tombstones, left, at)
      else LeftAt(cells + [id], tombstones, left + [id], at + [|cells|])
  {
    if id !in tombstones {
      var more := at + [|cells|];
      forall i | 0 <= i < |cells + [id]| && (cells + [id])[i] !in tombstones ensures i in more {
        assert i == |cells| ==> more[|at|] == i;
      }
      assert at != [] ==> at[|at| - 1] < |cells|;
    }
  }

  /** They come in display order. */
  lemma {:induction false} UndeletedInOrder(cells: seq<CellId>, tombstones: set<CellId>) returns (at: seq<nat>)
    ensures LeftAt(cells, tombstones, Undeleted(cells, tombstones), at)
  {
    if cells == [] {
      at := [];
    } else {
      hide LeftAt;
      var k := |cells| - 1;
      at := UndeletedInOrder(cells[..k], tombstones);
      LeftSnoc(cells[..k], tombstones, Undeleted(cells[..k], tombstones), at, cells[k]);
      assert cells == cells[..k] + [cells[k]];
      if cells[k] !in tombstones {
        at := at + [k];
      }
    }
  }

  lemma {:induction false} UndeletedSnoc(cells: seq<CellId>, i: nat, tombstones: set<CellId>)
    requires i < |cells|
    ensures Undeleted(cells[..i + 1], tombstones) ==
      Undeleted(cells[..i], tombstones) + (if cells[i] in tombstones then [] else [cells[i]])
  {
    assert cells[..i + 1][..i] == cells[..i];
  }

  lemma {:induction false} UndeletedNone(tombstones: set<CellId>)
    ensures Undeleted([], tombstones) == []
  {
  }

  lemma {:induction false} UndeletedGrows(cells: seq<CellId>, i: nat, tombstones: set<CellId>)
    requires i <= |cells|
    ensures |Undeleted(cells[..i], tombstones)| <= |Undeleted(cells, tombstones)|
    decreases |cells| - i
  {
    if i < |cells| {
      UndeletedSnoc(cells, i, tombstones);
      UndeletedGrows(cells, i + 1, tombstones);
    } else {
      assert cells[..i] == cells;
    }
  }

  lemma {:induction false} ToSetSnoc(ids: seq<CellId>, i: nat)
    requires i < |ids|
    ensures ToSet(ids[..i + 1]) == ToSet(ids[..i]) + {ids[i]}
  {
    assert ids[..i + 1] == ids[..i] + [ids[i]];
  }

  lemma {:induction false} ToSetNone()
    ensures ToSet([]) == {}
  {
  }

  lemma {:induction false} ToSetOne(id: CellId)
    ensures ToSet([id]) == {id}
  {
    assert [id][0] == id;
  }

  lemma {:induction false} NotYetListed(ids: seq<CellId>, i: nat)
    requires NoDup(ids) && i < |ids|
    ensures ids[i] !in ToSet(ids[..i])
  {
  }

  lemma {:induction false} RangeSlice(cells: seq<CellId>, start: nat, endInclusive: nat)
    ensures
      DisplayRange(cells, start, endInclusive) ==
        if start > endInclusive || start >= |cells| then [] else cells[start..Min(start + (endInclusive - start + 1), |cells|)]
    ensures NoDup(cells) ==> NoDup(DisplayRange(cells, start, endInclusive))
  {
  }

  /** What `:delete` records is a linked operation: only newly deleted ids are listed. */
  lemma {:induction false} TombstoneRecordLinks(s: DocState, range: seq<CellId>)
    ensures Links(TombstoneDelete(Undeleted(range, s.tombstones)), s, s.(tombstones := s.tombstones + ToSet(range)))
  {
    var ids := Undeleted(range, s.tombstones);
    forall id ensures id in s.tombstones + ToSet(ids) <==> id in s.tombstones + ToSet(range) {
      if id in ToSet(range) && id !in s.tombstones {
        var i :| 0 <= i < |range| && range[i] == id;
        assert id in ids;
      }
    }
  }

  // ----- the document

  datatype NibblePhase = High | Low

  type Nibble = n: int | 0 <= n < 16

  function Nibbled(current: Byte, phase: NibblePhase, nibble: Nibble): Byte {
    if phase.High? then nibble * 16 + current % 16 else current / 16 * 16 + nibble
  }

  // `now` has the digit in the half that was typed, and the other half of `was`.
  ghost predicate HalfSet(was: Byte, now: Byte, phase: NibblePhase, digit: Nibble) {
    match phase
    case High => now / 16 == digit && now % 16 == was % 16
    case Low => now / 16 == was / 16 && now % 16 == digit
  }

  lemma {:induction false} NibbledSets(was: Byte, phase: NibblePhase, digit: Nibble)
    ensures HalfSet(was, Nibbled(was, phase, digit), phase, digit)
  {
  }

  /** A high digit and then a low one leave nothing of the byte that was there. */
  lemma {:induction false} TwoDigits(was: Byte, mid: Byte, now: Byte, first: Nibble, second: Nibble)
    requires HalfSet(was, mid, High, first) && HalfSet(mid, now, Low, second)
    ensures now == 16 * first + second
  {
  }

  // The byte of a cell before any replacement, from the file or the add-buffer.
  function BaseOf(file: seq<Byte>, added: seq<Byte>, id: CellId): (r: Option<Byte>)
    ensures r.Some? <==> Known(id, |file|, |added|)
    ensures r.Some? ==> r.value == if id.Original? then file[id.offset] else added[id.offset]
  {
    match id
    case Original(o) => if o < |file| then Some(file[o]) else None
    case Add(o) => if o < |added| then Some(added[o]) else None
  }

  // What a cell shows: its replacement, else its base byte.
  function ShownOf(file: seq<Byte>, added: seq<Byte>, m: map<CellId, Byte>, id: CellId): (r: Option<Byte>)
    ensures if id in m then r == Some(m[id]) else r == BaseOf(file, added, id)
  {
    if id in m then Some(m[id]) else BaseOf(file, added, id)
  }

  // The replacement entry that makes a cell show `value`: none when that is its base byte.
  function EntryOf(file: seq<Byte>, added: seq<Byte>, id: CellId, value: Byte): Option<Byte> {
    if BaseOf(file, added, id) == Some(value) then None else Some(value)
  }

  // ----- writing a run of bytes over existing cells

  // The replacement map after the bytes were written at `offset`; bytes past the end are ignored.
  ghost function Written(file: seq<Byte>, added: seq<Byte>, s: DocState, offset: nat, bytes: seq<Byte>): map<CellId,
        Byte> {
    if bytes == [] then s.replacements
    else
      var k := |bytes| - 1;
      var m := Written(file, added, s, offset, bytes[..k]);
      if offset + k >= |s.cells| then m
      else SetReplacement(m, s.cells[offset + k], EntryOf(file, added, s.cells[offset + k], bytes[k]))
  }

  // The undo record of that write: one entry per cell whose replacement state changes.
  ghost function WriteRecord(file: seq<Byte>, added: seq<Byte>, s: DocState, offset: nat,
        bytes: seq<Byte>): seq<Change> {
    if bytes == [] then []
    else
      var k := |bytes| - 1;
      var front := WriteRecord(file, added, s, offset, bytes[..k]);
      if offset + k >= |s.cells| then front
      else
        var id := s.cells[offset + k];
        var before, after := Lookup(s.replacements, id), EntryOf(file, added, id, bytes[k]);
        if before == after then front else front + [Change(id, before, after)]
  }

  // Cell `offset + i` exists and is tombstoned, which stops the write.
  ghost predicate Blocks(s: DocState, offset: nat, i: nat) {
    offset + i < |s.cells| && s.cells[offset + i] in s.tombstones
  }

  // The write stops at its byte `k`: the first that would land on a deleted cell.
  ghost predicate StopsAt(s: DocState, offset: nat, bytes: seq<Byte>, k: nat) {
    k < |bytes| && Blocks(s, offset, k) && forall i: nat :: i < k ==> !Blocks(s, offset, i)
  }

  lemma {:induction false} WriteNothing(file: seq<Byte>, added: seq<Byte>, s: DocState, offset: nat)
    ensures Written(file, added, s, offset, []) == s.replacements
    ensures WriteRecord(file, added, s, offset, []) == []
  {
  }

  lemma {:induction false} WriteSnoc(file: seq<Byte>, added: seq<Byte>, s: DocState, offset: nat, bytes: seq<Byte>,
        i: nat)
    requires i < |bytes|
    ensures
      var m, front := Written(file, added, s, offset, bytes[..i]), WriteRecord(file, added, s, offset, bytes[..i]);
      if offset + i >= |s.cells| then
        && Written(file, added, s, offset, bytes[..i + 1]) == m
        && WriteRecord(file, added, s, offset, bytes[..i + 1]) == front
      else
        var id := s.cells[offset + i];
        var c := Change(id, Lookup(s.replacements, id), EntryOf(file, added, id, bytes[i]));
        && Written(file, added, s, offset, bytes[..i + 1]) == SetReplacement(m, id, c.after)
        && WriteRecord(file, added, s, offset, bytes[..i + 1]) == if c.before == c.after then front else front + [c]
  {
    assert bytes[..i + 1][..i] == bytes[..i];
  }

  // Cells from `offset + |bytes|` on are neither written nor recorded.
  lemma {:induction false} LaterCellsUntouched(file: seq<Byte>, added: seq<Byte>, s: DocState, offset: nat,
        bytes: seq<Byte>, j: nat)
    requires NoDup(s.cells) && offset + |bytes| <= j < |s.cells|
    ensures Lookup(Written(file, added, s, offset, bytes), s.cells[j]) == Lookup(s.replacements, s.cells[j])
    ensures forall i :: 0 <= i < |WriteRecord(file, added, s, offset, bytes)| ==>
              WriteRecord(file, added, s, offset, bytes)[i].id != s.cells[j]
  {
    if bytes != [] {
      LaterCellsUntouched(file, added, s, offset, bytes[..|bytes| - 1], j);
    }
  }

  // A record may be extended by a change to a cell it does not mention yet.
  lemma {:induction false} ExtendRecord(front: seq<Change>, c: Change, s: DocState, m: map<CellId, Byte>)
    requires Links(ReplaceBytes(front), s, s.(replacements := m))
    requires forall i :: 0 <= i < |front| ==> front[i].id != c.id
    requires c.before == Lookup(s.replacements, c.id)
    ensures Links(ReplaceBytes(front + [c]), s, s.(replacements := SetReplacement(m, c.id, c.after)))
  {
    assert (front + [c])[..|front|] == front;
  }

  // A write that leaves the cell's replacement as it was is not recorded, and changes nothing.
  lemma {:induction false} RecordGrows(front: seq<Change>, c: Change, s: DocState, m: map<CellId, Byte>)
    requires Links(ReplaceBytes(front), s, s.(replacements := m))
    requires forall i :: 0 <= i < |front| ==> front[i].id != c.id
    requires c.before == Lookup(s.replacements, c.id) == Lookup(m, c.id)
    ensures
      var changes := if c.before == c.after then front else front + [c];
      Links(ReplaceBytes(changes), s, s.(replacements := SetReplacement(m, c.id, c.after)))
  {
    hide Links;
    if c.before == c.after {
      SameLookups(SetReplacement(m, c.id, c.after), m);
    } else {
      ExtendRecord(front, c, s, m);
    }
  }

  lemma {:induction false} NothingLinks(s: DocState)
    ensures Links(ReplaceBytes([]), s, s.(replacements := s.replacements))
  {
  }

  /** The record of a run of writes over distinct cells links the states before and after it. */
  lemma {:induction false} WriteRecordLinks(file: seq<Byte>, added: seq<Byte>, s: DocState, offset: nat,
        bytes: seq<Byte>)
    requires NoDup(s.cells)
    ensures Links(ReplaceBytes(WriteRecord(file, added, s, offset, bytes)), s,
                  s.(replacements := Written(file, added, s, offset, bytes)))
  {
    hide Links, Written, WriteRecord, NoDup, EntryOf;
    if bytes == [] {
      WriteNothing(file, added, s, offset);
      NothingLinks(s);
    } else {
      var k := |bytes| - 1;
      WriteRecordLinks(file, added, s, offset, bytes[..k]);
      WriteSnoc(file, added, s, offset, bytes, k);
      assert bytes[..k + 1] == bytes;
      if offset + k < |s.cells| {
        LaterCellsUntouched(file, added, s, offset, bytes[..k], offset + k);
        var id := s.cells[offset + k];
        RecordGrows(WriteRecord(file, added, s, offset, bytes[..k]),
                    Change(id, Lookup(s.replacements, id), EntryOf(file, added, id, bytes[k])), s,
                    Written(file, added, s, offset, bytes[..k]));
      }
    }
  }

  ghost predicate AllTouch(changes: seq<Change>, s: DocState) {
    forall c :: c in changes ==> c.before != c.after && c.id in s.cells
  }

  // Only displayed cells are recorded, and only where their replacement changes.
  lemma {:induction false} WriteRecordTouches(file: seq<Byte>, added: seq<Byte>, s: DocState, offset: nat,
        bytes: seq<Byte>)
    ensures AllTouch(WriteRecord(file, added, s, offset, bytes), s)
  {
    hide EntryOf, Written, WriteRecord;
    if bytes == [] {
      WriteNothing(file, added, s, offset);
    } else {
      var k := |bytes| - 1;
      WriteRecordTouches(file, added, s, offset, bytes[..k]);
      WriteSnoc(file, added, s, offset, bytes, k);
      assert bytes[..k + 1] == bytes;
      assert offset + k < |s.cells| ==> s.cells[offset + k] in s.cells;
    }
  }

  // Byte `j` of a write lands on an existing cell.
  predicate Lands(s: DocState, offset: nat, bytes: seq<Byte>, j: nat) {
    j < |bytes| && offset + j < |s.cells|
  }

  // It changes what that cell's replacement entry says.
  predicate Alters(file: seq<Byte>, added: seq<Byte>, s: DocState, offset: nat, bytes: seq<Byte>, j: nat) {
    && Lands(s, offset, bytes, j)
    && Lookup(s.replacements, s.cells[offset + j]) != EntryOf(file, added, s.cells[offset + j], bytes[j])
  }

  /** A run of writes over distinct cells makes each cell it lands on show its byte, and leaves the others alone. */
  lemma {:induction false} WrittenCells(file: seq<Byte>, added: seq<Byte>, s: DocState, offset: nat, bytes: seq<Byte>,
        id: CellId)
    requires NoDup(s.cells)
    ensures
      var m := Written(file, added, s, offset, bytes);
      && (forall j: nat :: Lands(s, offset, bytes, j) && s.cells[offset + j] == id ==>
            && Lookup(m, id) == EntryOf(file, added, id, bytes[j]) && ShownOf(file, added, m, id) == Some(bytes[j])
            && (id in m <==> BaseOf(file, added, id) != Some(bytes[j])))
      && ((forall j: nat :: Lands(s, offset, bytes, j) ==> s.cells[offset + j] != id) ==> Lookup(m, id) == Lookup(s.replacements, id))
  {
    hide Written;
    if bytes == [] {
      WriteNothing(file, added, s, offset);
    } else {
      var k := |bytes| - 1;
      WrittenCells(file, added, s, offset, bytes[..k], id);
      WriteSnoc(file, added, s, offset, bytes, k);
      assert bytes[..k + 1] == bytes;
      assert forall j: nat :: Lands(s, offset, bytes[..k], j) ==> Lands(s, offset, bytes, j) && bytes[..k][j] == bytes[j];
      assert forall j: nat :: Lands(s, offset, bytes, j) && j < k ==> Lands(s, offset, bytes[..k], j);
      assert offset + k < |s.cells| ==> Lands(s, offset, bytes, k);
    }
  }

  /** So the write changes the document exactly when some byte of it alters its cell. */
  lemma {:induction false} WriteChanges(file: seq<Byte>, added: seq<Byte>, s: DocState, offset: nat, bytes: seq<Byte>)
    requires NoDup(s.cells)
    ensures Written(file, added, s, offset, bytes) != s.replacements <==> exists j: nat :: Alters(file, added, s, offset, bytes, j)
  {
    hide EntryOf, Written;
    var m := Written(file, added, s, offset, bytes);
    if j: nat :| Alters(file, added, s, offset, bytes, j) {
      WrittenCells(file, added, s, offset, bytes, s.cells[offset + j]);
    } else {
      forall id ensures Lookup(m, id) == Lookup(s.replacements, id) {
        WrittenCells(file, added, s, offset, bytes, id);
        if j: nat :| Lands(s, offset, bytes, j) && s.cells[offset + j] == id {
          assert !Alters(file, added, s, offset, bytes, j);
        }
      }
      SameLookups(m, s.replacements);
    }
  }

  /** And exactly then something is recorded. */
  lemma {:induction false} RecordedChanges(file: seq<Byte>, added: seq<Byte>, s: DocState, offset: nat, bytes: seq<Byte>)
    ensures WriteRecord(file, added, s, offset, bytes) != [] <==> exists j: nat :: Alters(file, added, s, offset, bytes, j)
  {
    hide EntryOf, WriteRecord, Written;
    if bytes == [] {
      WriteNothing(file, added, s, offset);
    } else {
      var k := |bytes| - 1;
      RecordedChanges(file, added, s, offset, bytes[..k]);
      WriteSnoc(file, added, s, offset, bytes, k);
      assert bytes[..k + 1] == bytes;
      if j: nat :| Alters(file, added, s, offset, bytes[..k], j) {
        assert Alters(file, added, s, offset, bytes, j);
      }
      if j: nat :| Alters(file, added, s, offset, bytes, j) && j < k {
        assert Alters(file, added, s, offset, bytes[..k], j);
      }
      assert offset + k < |s.cells| ==>
        (Alters(file, added, s, offset, bytes, k) <==>
           Lookup(s.replacements, s.cells[offset + k]) != EntryOf(file, added, s.cells[offset + k], bytes[k]));
    }
  }

  class Document {
    const readonly: bool
    const fixedSize: bool
    const file: seq<Byte>
    const pieces: PieceTable
    var tombstones: set<CellId>
    var replacements: map<CellId, Byte>

    ghost function State(): DocState
      reads this, pieces
    {
      DocState(pieces.Cells(), tombstones, replacements)
    }

    ghost predicate Valid()
      reads this, pieces
    {
      pieces.Valid() && pieces.originalLen == |file|
    }

    constructor (bytes: seq<Byte>, readonlyFile: bool, fixedSizeFile: bool)
      ensures Valid() && fresh(pieces)
      ensures file == bytes && readonly == readonlyFile && fixedSize == fixedSizeFile
      ensures State() == DocState(Identity(|bytes|), {}, map[]) && pieces.addBuffer == []
    {
      file := bytes;
      readonly := readonlyFile;
      fixedSize := fixedSizeFile;
      tombstones := {};
      replacements := map[];
      pieces := new PieceTable(|bytes|);
    }

    // The unmodified byte of a cell.
    function BaseByte(id: CellId): (r: Option<Byte>)
      reads pieces
      ensures r.Some? <==> Known(id, |file|, |pieces.addBuffer|)
    {
      BaseOf(file, pieces.addBuffer, id)
    }

    function EntryFor(id: CellId, value: Byte): Option<Byte>
      reads pieces
    {
      EntryOf(file, pieces.addBuffer, id, value)
    }

    // What a cell shows: its replacement, else its base byte.
    function ShownByte(entries: map<CellId, Byte>, id: CellId): Byte
      requires BaseByte(id).Some?
      reads pieces
    {
      if id in entries then entries[id] else BaseByte(id).value
    }

    method ReplacementState(id: CellId) returns (r: Result<Option<Byte>, Error>)
      requires Valid()
      ensures r == if BaseByte(id).None? then Err(OffsetOutOfRange) else Ok(Lookup(replacements, id))
    {
      if BaseByte(id).None? {
        return Err(OffsetOutOfRange);
      }
      return Ok(Lookup(replacements, id));
    }

    // Replace the visible byte of a cell that exists.
    method SetDisplayByteById(id: CellId, value: Byte) returns (r: Result<(), Error>)
      requires Valid()
      modifies `replacements
      ensures Valid()
      ensures r == if BaseByte(id).None? then Err(OffsetOutOfRange) else Ok(())
      ensures r.Err? ==> replacements == old(replacements)
      ensures r.Ok? ==> replacements == SetReplacement(old(replacements), id, EntryFor(id, value))
      ensures r.Ok? ==> ShownByte(replacements, id) == value && (id in replacements <==> BaseByte(id) != Some(value))
      ensures forall other :: other != id ==> Lookup(replacements, other) == Lookup(old(replacements), other)
    {
      if BaseByte(id).None? {
        return Err(OffsetOutOfRange);
      }
      replacements := SetReplacement(replacements, id, EntryFor(id, value));
      return Ok(());
    }

    method RestoreReplacement(id: CellId, previous: Option<Byte>) returns (r: Result<(), Error>)
      requires Valid()
      modifies `replacements
      ensures Valid()
      ensures r == if readonly then Err(ReadOnly) else Ok(())
      ensures replacements == if readonly then old(replacements) else SetReplacement(old(replacements), id, previous)
    {
      if readonly {
        return Err(ReadOnly);
      }
      replacements := SetReplacement(replacements, id, previous);
      return Ok(());
    }

    /** Tombstone one display cell; `Ok(Some(id))` only when the cell was not deleted before. */
    method MarkTombstone(offset: nat) returns (r: Result<Option<CellId>, Error>)
      requires Valid()
      modifies `tombstones, pieces`prefixEnds, pieces`prefixDirty
      ensures Valid()
      ensures
        var s := old(State());
        if readonly then r == Err(ReadOnly) && State() == s
        else if fixedSize then r == Err(FixedSizeViolation) && State() == s
        else if offset >= |s.cells| then r == Err(OffsetOutOfRange) && State() == s
        else
          && r == Ok(if s.cells[offset] in s.tombstones then None else Some(s.cells[offset]))
          && State() == s.(tombstones := s.tombstones + {s.cells[offset]})
    {
      if readonly {
        return Err(ReadOnly);
      }
      if fixedSize {
        return Err(FixedSizeViolation);
      }
      var found := pieces.Resolve(offset);
      if found.None? {
        return Err(OffsetOutOfRange);
      }
      var id := found.value;
      var isNew := id !in tombstones;
      tombstones := tombstones + {id};
      return Ok(if isNew then Some(id) else None);
    }

    method MarkTombstones(ids: seq<CellId>) returns (r: Result<(), Error>)
      requires Valid()
      modifies `tombstones
      ensures Valid()
      ensures r == if readonly then Err(ReadOnly) else if fixedSize then Err(FixedSizeViolation) else Ok(())
      ensures tombstones == if r.Ok? then old(tombstones) + ToSet(ids) else old(tombstones)
    {
      if readonly {
        return Err(ReadOnly);
      }
      if fixedSize {
        return Err(FixedSizeViolation);
      }
      for i := 0 to |ids|
        invariant Valid() && tombstones == old(tombstones) + ToSet(ids[..i])
      {
        ToSetSnoc(ids, i);
        tombstones := tombstones + {ids[i]};
      }
      assert ids[..|ids|] == ids;
      return Ok(());
    }

    method ClearTombstones(ids: seq<CellId>)
      requires Valid()
      modifies `tombstones
      ensures Valid() && tombstones == old(tombstones) - ToSet(ids)
    {
      for i := 0 to |ids|
        invariant Valid() && tombstones == old(tombstones) - ToSet(ids[..i])
      {
        ToSetSnoc(ids, i);
        tombstones := tombstones - {ids[i]};
      }
      assert ids[..|ids|] == ids;
    }

    method InsertBytes(offset: nat, bytes: seq<Byte>) returns (r: Result<seq<CellId>, Error>)
      requires Valid()
      modifies pieces
      ensures Valid()
      ensures
        var s := old(State());
        var ids := FreshCells(|old(pieces.addBuffer)|, |bytes|);
        match InsertFault(s, offset, readonly, fixedSize)
        case Some(e) => r == Err(e) && State() == s && pieces.addBuffer == old(pieces.addBuffer)
        case None =>
          && r == Ok(ids)
          && State() == InsertCells(s, offset, ids)
          && pieces.addBuffer == old(pieces.addBuffer) + bytes
    {
      if readonly {
        return Err(ReadOnly);
      }
      if fixedSize {
        return Err(FixedSizeViolation);
      }
      if offset > pieces.len {
        return Err(OffsetOutOfRange);
      }
      if bytes == [] {
        assert FreshCells(|pieces.addBuffer|, 0) == [] && Splice(State().cells, offset, []) == State().cells;
        return Ok([]);
      }
      var addStart := |pieces.addBuffer|;
      pieces.InsertBytes(offset, bytes);
      return Ok(seq(|bytes|, i requires 0 <= i < |bytes| => Add(addStart + i)));
    }

    method DeleteRangeReal(offset: nat, n: nat) returns (r: Result<seq<CellId>, Error>)
      requires Valid()
      modifies pieces`pieces, pieces`len, pieces`prefixEnds, pieces`prefixDirty
      ensures Valid()
      ensures
        var s := old(State());
        match RemoveFault(s, offset, n, readonly, fixedSize)
        case Some(e) => r == Err(e) && State() == s
        case None =>
          && r == Ok(if n == 0 then [] else s.cells[offset..Min(offset + n, |s.cells|)])
          && State() == RemoveCells(s, offset, n)
    {
      if readonly {
        return Err(ReadOnly);
      }
      if fixedSize {
        return Err(FixedSizeViolation);
      }
      if n == 0 {
        return Ok([]);
      }
      if offset >= pieces.len {
        return Err(OffsetOutOfRange);
      }
      var removed := pieces.DeleteRangeReal(offset, n);
      return Ok(removed);
    }

    method RestoreRealDelete(offset: nat, cells: seq<CellId>) returns (r: Result<(), Error>)
      requires Valid()
      modifies pieces`pieces, pieces`len, pieces`prefixEnds, pieces`prefixDirty
      ensures Valid()
      ensures
        var s := old(State());
        match InsertFault(s, offset, readonly, fixedSize)
        case Some(e) => r == Err(e) && State() == s
        case None => r == Ok(()) && State() == InsertCells(s, offset, cells)
    {
      if readonly {
        return Err(ReadOnly);
      }
      if fixedSize {
        return Err(FixedSizeViolation);
      }
      if offset > pieces.len {
        return Err(OffsetOutOfRange);
      }
      pieces.InsertExistingCells(offset, cells);
      return Ok(());
    }

    // The part of `ReplaceBytes` that both directions share.
    method RestoreAll(changes: seq<Change>, after: bool) returns (r: Result<(), Error>)
      requires Valid()
      modifies `replacements
      ensures Valid()
      ensures r == if readonly && changes != [] then Err(ReadOnly) else Ok(())
      ensures replacements == if r.Ok? then Restore(changes, after, old(replacements)) else old(replacements)
    {
      for i := 0 to |changes|
        invariant Valid() && (i > 0 ==> !readonly)
        invariant replacements == Restore(changes[..i], after, old(replacements))
      {
        r := RestoreReplacement(changes[i].id, Recorded(changes[i], after));
        if r.Err? {
          return;
        }
        assert changes[..i + 1][..i] == changes[..i];
      }
      assert changes[..|changes|] == changes;
      return Ok(());
    }

    /** Replay one operation. The source asserts that a removal takes the recorded cells. */
    method ApplyEditOp(op: EditOp) returns (r: Result<(), Error>)
      requires Valid() && (readonly || fixedSize || ApplyIntact(op, State()))
      modifies this, pieces
      ensures Valid() && pieces.addBuffer == old(pieces.addBuffer)
      ensures
        var s := old(State());
        match ApplyFault(op, s, readonly, fixedSize)
        case Some(e) => r == Err(e) && State() == s
        case None => r == Ok(()) && State() == ApplyOp(op, s)
    {
      match op
      case Insert(at, cells) => r := RestoreRealDelete(at, cells);
      case RealDelete(at, cells) =>
        var removed := DeleteRangeReal(at, |cells|);
        if removed.Err? {
          return Err(removed.error);
        }
        assert removed.value == cells;
        r := Ok(());
      case TombstoneDelete(ids) => r := MarkTombstones(ids);
      case ReplaceBytes(changes) => r := RestoreAll(changes, true);
    }

    /** Undo one operation. The source asserts that a removal takes the recorded cells. */
    method UndoEditOp(op: EditOp) returns (r: Result<(), Error>)
      requires Valid() && (readonly || fixedSize || UndoIntact(op, State()))
      modifies this, pieces
      ensures Valid() && pieces.addBuffer == old(pieces.addBuffer)
      ensures
        var s := old(State());
        match UndoFault(op, s, readonly, fixedSize)
        case Some(e) => r == Err(e) && State() == s
        case None => r == Ok(()) && State() == UndoOp(op, s)
    {
      match op
      case Insert(at, cells) =>
        var removed := DeleteRangeReal(at, |cells|);
        if removed.Err? {
          return Err(removed.error);
        }
        assert removed.value == cells;
        r := Ok(());
      case RealDelete(at, cells) => r := RestoreRealDelete(at, cells);
      case TombstoneDelete(ids) =>
        ClearTombstones(ids);
        r := Ok(());
      case ReplaceBytes(changes) => r := RestoreAll(changes, false);
    }

    /** Tombstone a display range: the recorded ids are exactly the newly deleted ones, in display order. */
    method TombstoneDeleteRange(start: nat, endInclusive: nat) returns (r: Result<seq<CellId>, Error>)
      requires Valid() && NoDup(State().cells)
      modifies `tombstones, pieces`prefixEnds, pieces`prefixDirty
      ensures Valid()
      ensures
        var s := old(State());
        var range := DisplayRange(s.cells, start, endInclusive);
        var ids := Undeleted(range, s.tombstones);
        if ids != [] && (readonly || fixedSize) then
          r == Err(if readonly then ReadOnly else FixedSizeViolation) && State() == s
        else
          r == Ok(ids) && State() == s.(tombstones := s.tombstones + ToSet(range))
    {
      hide PieceTable.Valid, PieceTable.Cells, Undeleted, ToSet, DisplayRange, NoDup;
      RangeSlice(State().cells, start, endInclusive);
      if start > endInclusive {
        UndeletedNone(tombstones);
        ToSetNone();
        return Ok([]);
      }
      ghost var s := State();
      var candidates := pieces.CellIdsRange(start, endInclusive - start + 1);
      assert candidates == DisplayRange(s.cells, start, endInclusive);
      var ids: seq<CellId> := [];
      UndeletedNone(s.tombstones);
      ToSetNone();
      for i := 0 to |candidates|
        invariant Valid() && pieces.Cells() == s.cells && replacements == s.replacements
        invariant ids == Undeleted(candidates[..i], s.tombstones)
        invariant tombstones == s.tombstones + ToSet(candidates[..i])
        invariant readonly || fixedSize ==> ids == [] && tombstones == s.tombstones
      {
        var id := candidates[i];
        ToSetSnoc(candidates, i);
        UndeletedSnoc(candidates, i, s.tombstones);
        NotYetListed(candidates, i);
        if id !in tombstones {
          if readonly || fixedSize {
            UndeletedGrows(candidates, i + 1, s.tombstones);
          }
          var marked := MarkTombstones([id]);
          if marked.Err? {
            return Err(marked.error);
          }
          ToSetOne(id);
          ids := ids + [id];
        }
      }
      assert candidates[..|candidates|] == candidates;
      return Ok(ids);
    }

    // The replacement shown at a display offset; none past the end.
    method ReplacementAt(offset: nat) returns (r: Result<Option<Byte>, Error>)
      requires Valid()
      modifies pieces
      ensures Valid() && State() == old(State()) && pieces.addBuffer == old(pieces.addBuffer)
      ensures r.Err? ==> offset < |State().cells| && BaseByte(State().cells[offset]).None?
      ensures r.Ok? ==> r.value == if offset < |State().cells| then Lookup(State().replacements, State().cells[offset]) else None
    {
      hide PieceTable.Valid, PieceTable.Cells;
      pieces.LenCountsCells();
      if offset >= pieces.len {
        return Ok(None);
      }
      var found := pieces.Resolve(offset);
      r := ReplacementState(found.value);
    }

    /** Write one nibble of the byte at `offset`; at the end of the document a high nibble appends a byte. */
    method ReplaceNibble(offset: nat, phase: NibblePhase, nibble: Nibble) returns (r: Result<CellId, Error>)
      requires Valid() && Backed(State().cells, |file|, |pieces.addBuffer|)
      modifies this, pieces
      ensures Valid()
      ensures r.Err? ==> State() == old(State()) && pieces.addBuffer == old(pieces.addBuffer)
      ensures r.Ok? <==>
        && !readonly
        && if offset == |old(State()).cells| then !fixedSize && phase.High?
           else offset < |old(State()).cells| && old(State()).cells[offset] !in tombstones
      ensures
        var s := old(State());
        r.Ok? ==>
          if offset == |s.cells| then
            && !fixedSize && phase.High?
            && r.value == Add(|old(pieces.addBuffer)|)
            && State() == InsertCells(s, offset, [r.value])
            && pieces.addBuffer == old(pieces.addBuffer) + [nibble * 16]
          else
            && offset < |s.cells| && r.value == s.cells[offset] && r.value !in s.tombstones
            && pieces.addBuffer == old(pieces.addBuffer)
            && BaseByte(r.value).Some?
            && State() == s.(replacements := SetReplacement(s.replacements, r.value,
                 EntryFor(r.value, Nibbled(ShownByte(s.replacements, r.value), phase, nibble))))
            && HalfSet(ShownByte(s.replacements, r.value), ShownByte(replacements, r.value), phase, nibble)
    {
      hide PieceTable.Valid, PieceTable.Cells;
      pieces.LenCountsCells();
      if readonly {
        return Err(ReadOnly);
      }
      if offset == pieces.len {
        if fixedSize {
          return Err(FixedSizeViolation);
        }
        if phase.High? {
          var inserted := InsertBytes(offset, [nibble * 16]);
          if inserted.Err? || inserted.value == [] {
            return Err(OffsetOutOfRange);
          }
          assert FreshCells(|old(pieces.addBuffer)|, 1) == [inserted.value[0]];
          return Ok(inserted.value[0]);
        }
        return Err(OffsetOutOfRange);
      }
      var found := pieces.Resolve(offset);
      if found.None? || found.value in tombstones {
        return Err(OffsetOutOfRange);
      }
      var id := found.value;
      var base := BaseByte(id);
      if base.None? {
        return Err(OffsetOutOfRange);
      }
      var updated := Nibbled(ShownByte(replacements, id), phase, nibble);
      NibbledSets(ShownByte(replacements, id), phase, nibble);
      var done := SetDisplayByteById(id, updated);
      return Ok(id);
    }

    /** Give the byte at `offset` a new value without changing the layout. */
    method ReplaceDisplayByte(offset: nat, value: Byte) returns (r: Result<CellId, Error>)
      requires Valid()
      modifies `replacements, pieces`prefixEnds, pieces`prefixDirty
      ensures Valid()
      ensures r.Ok? <==>
        && !readonly && offset < |old(State()).cells| && old(State()).cells[offset] !in tombstones
        && BaseByte(old(State()).cells[offset]).Some?
      ensures r.Err? ==> State() == old(State())
      ensures r.Ok? ==>
        && r.value == old(State()).cells[offset]
        && State() == old(State()).(replacements := SetReplacement(old(replacements), r.value, EntryFor(r.value, value)))
    {
      hide PieceTable.Valid, PieceTable.Cells;
      if readonly {
        return Err(ReadOnly);
      }
      var found := pieces.Resolve(offset);
      if found.None? || found.value in tombstones {
        return Err(OffsetOutOfRange);
      }
      var done := SetDisplayByteById(found.value, value);
      if done.Err? {
        return Err(done.error);
      }
      return Ok(found.value);
    }

    /**
     * Write bytes over existing cells, recording one undo entry per changed cell.
     * A tombstoned cell stops the write with an error, and the cells before it stay written.
     */
    method ReplaceBytesAt(offset: nat, bytes: seq<Byte>) returns (r: Result<seq<EditOp>, Error>)
      requires Valid() && NoDup(State().cells) && Backed(State().cells, |file|, |pieces.addBuffer|)
      modifies `replacements, pieces`prefixEnds, pieces`prefixDirty
      ensures Valid()
      ensures r.Ok? <==>
        var s := old(State());
        (forall i: nat :: i < |bytes| ==> !Blocks(s, offset, i)) && (readonly ==> bytes == [] || offset >= |s.cells|)
      ensures r.Ok? ==>
        var s := old(State());
        var changes := WriteRecord(file, pieces.addBuffer, s, offset, bytes);
        && r.value == (if changes == [] then [] else [ReplaceBytes(changes)])
        && State() == s.(replacements := Written(file, pieces.addBuffer, s, offset, bytes))
        && (readonly ==> r.value == [])
      ensures r.Err? && readonly ==> r == Err(ReadOnly) && State() == old(State())
      ensures r.Err? && !readonly ==>
        var s := old(State());
        && r == Err(OffsetOutOfRange)
        && exists k: nat :: StopsAt(s, offset, bytes, k)
             && State() == s.(replacements := Written(file, pieces.addBuffer, s, offset, bytes[..k]))
    {
      hide PieceTable.Valid, PieceTable.Cells, Written, WriteRecord;
      ghost var s := State();
      var changes: seq<Change> := [];
      WriteNothing(file, pieces.addBuffer, s, offset);
      for i := 0 to |bytes|
        invariant Valid() && pieces.Cells() == s.cells && tombstones == s.tombstones
        invariant replacements == Written(file, pieces.addBuffer, s, offset, bytes[..i])
        invariant changes == WriteRecord(file, pieces.addBuffer, s, offset, bytes[..i])
        invariant readonly ==> replacements == s.replacements && changes == [] && (i == 0 || offset >= |s.cells|)
        invariant forall k: nat :: k < i ==> !Blocks(s, offset, k)
      {
        WriteSnoc(file, pieces.addBuffer, s, offset, bytes, i);
        var found := pieces.Resolve(offset + i);
        if found.Some? {
          var id := found.value;
          LaterCellsUntouched(file, pieces.addBuffer, s, offset, bytes[..i], offset + i);
          var before := ReplacementState(id);
          if before.Err? || readonly || id in tombstones {
            assert before.Ok?;
            assert !readonly ==> StopsAt(s, offset, bytes, i);
            return Err(if readonly then ReadOnly else OffsetOutOfRange);
          }
          var done := SetDisplayByteById(id, bytes[i]);
          var after := ReplacementState(id);
          if after.value != before.value {
            changes := changes + [Change(id, before.value, after.value)];
          }
        }
      }
      assert bytes[..|bytes|] == bytes;
      return Ok(if changes == [] then [] else [ReplaceBytes(changes)]);
    }
  }
}
