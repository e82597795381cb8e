/** Which row an insertion leaves in a table, whether it succeeds or not, and when the table stays sorted by
    key (table_view_insert_row in libmsi/table.c). */
module KeyedInserts {
  import opened Prelude
  import opened Records
  import opened StringPools
  import opened TableLayout
  import opened TableRows

  // ---------------------------------------------------------------------------------------------
  // The row that is left
  // ---------------------------------------------------------------------------------------------

  function ColumnsBelow(types: seq<nat>, k: nat): set<nat> { set c | c in AllColumns(types) && c < k }

  /** A cell of a written row comes from its own column, with the strings as the columns before leave them. */
  lemma {:induction false} CellWritten(types: seq<nat>, p: Pool, cells: seq<nat>, rec: seq<Field>, mask: set<nat>,
        c: nat, k: nat, persistent: bool)
    requires |cells| == |types| && c <= k < |types| && Valid(p) && RecordOk(rec) && PlainTypes(types)
    requires forall d :: 0 <= d <= k ==> d in mask
    ensures var w := SetRowFrom(types, p, cells, rec, ColumnsBelow(types, k), c, persistent);
      SetRowFrom(types, p, cells, rec, mask, c, persistent).cells[k] ==
        if w.status != Success then cells[k] else SetColumn(types, w.pool, w.cells, rec, k, persistent).cells[k]
    ensures SetRowFrom(types, p, cells, rec, ColumnsBelow(types, k), c, persistent).cells[k] == cells[k]
    decreases k - c
  {
    SetColumnKeeps(types, p, cells, rec, c, persistent);
    var w := SetColumn(types, p, cells, rec, c, persistent);
    if c == k {
      LastCellWritten(types, p, cells, rec, mask, k, persistent);
    } else if w.status == Success {
      assert types[c] >= 0 && c in ColumnsBelow(types, k);
      CellWritten(types, w.pool, w.cells, rec, mask, c + 1, k, persistent);
    }
  }

  lemma LastCellWritten(types: seq<nat>, p: Pool, cells: seq<nat>, rec: seq<Field>, mask: set<nat>, k: nat,
        persistent: bool)
    requires |cells| == |types| && k < |types| && Valid(p) && RecordOk(rec) && PlainTypes(types) && k in mask
    ensures SetRowFrom(types, p, cells, rec, ColumnsBelow(types, k), k, persistent) == Written(Success, p, cells)
    ensures SetRowFrom(types, p, cells, rec, mask, k, persistent).cells[k] ==
      SetColumn(types, p, cells, rec, k, persistent).cells[k]
  {
    SetColumnKeeps(types, p, cells, rec, k, persistent);
    var w := SetColumn(types, p, cells, rec, k, persistent);
    NothingBelow(types, p, cells, rec, k, k, persistent);
    if w.status == Success {
      SetRowFrame(types, w.pool, w.cells, rec, mask, k + 1, persistent);
    }
  }

  lemma {:induction false} NothingBelow(types: seq<nat>, p: Pool, cells: seq<nat>, rec: seq<Field>, k: nat, c: nat,
        persistent: bool)
    requires |cells| == |types| && k <= c <= |types| && Valid(p) && RecordOk(rec) && PlainTypes(types)
    ensures SetRowFrom(types, p, cells, rec, ColumnsBelow(types, k), c, persistent) == Written(Success, p, cells)
    decreases |types| - c
  {
    if c < |types| {
      NothingBelow(types, p, cells, rec, k, c + 1, persistent);
    }
  }

  /** Every integer in the columns up to c fits. */
  predicate FitsUpTo(types: seq<nat>, rec: seq<Field>, c: nat)
    requires c < |types|
  {
    forall e :: 0 <= e <= c ==> Storable(types, rec, e)
  }

  /** What cell c of a row holds after a record was written over it. Writing stops at the first integer that
      does not fit. A string that was there before keeps its id; a new one gets the id that the string table
      gives it once the columns before are written. */
  ghost function CellLeft(types: seq<nat>, p: Pool, cells: seq<nat>, rec: seq<Field>, c: nat, persistent: bool): nat
    requires |cells| == |types| && c < |types| && Valid(p) && RecordOk(rec) && PlainTypes(types)
  {
    var (r, v) := ValueOf(types, p, rec, c);
    var s := GetStringRaw(rec, c + 1);
    if !FitsUpTo(types, rec, c) then cells[c]
    else if IsNullField(rec, c + 1) then 0
    else if r == Success || s.None? then v % CellLimit(types[c])
    else Add(SetRowFrom(types, p, cells, rec, ColumnsBelow(types, c), 0, persistent).pool, s.value, 1, persistent).1 % TWO24
  }

  ghost function RowLeft(types: seq<nat>, p: Pool, cells: seq<nat>, rec: seq<Field>, persistent: bool): (row: seq<nat>)
    requires |cells| == |types| && Valid(p) && RecordOk(rec) && PlainTypes(types)
    ensures |row| == |types|
    ensures forall c :: 0 <= c < |types| ==> row[c] == CellLeft(types, p, cells, rec, c, persistent)
  {
    seq(|types|, c requires 0 <= c < |types| => CellLeft(types, p, cells, rec, c, persistent))
  }

  /** A column writes the same value once more strings are there, except for one of the new strings. */
  lemma ColumnLater(types: seq<nat>, p: Pool, q: Pool, cells: seq<nat>, now: seq<nat>, rec: seq<Field>, c: nat,
        persistent: bool)
    requires |cells| == |now| == |types| && c < |types| && PlainTypes(types)
    requires Valid(p) && Valid(q) && KeepsIds(p, q) && Storable(types, rec, c)
    ensures var (r, v) := ValueOf(types, p, rec, c);
      var s := GetStringRaw(rec, c + 1);
      SetColumn(types, q, now, rec, c, persistent).cells[c] ==
        if IsNullField(rec, c + 1) then 0
        else if r == Success || s.None? then v % CellLimit(types[c])
        else Add(q, s.value, 1, persistent).1 % TWO24
  {
    var s := GetStringRaw(rec, c + 1);
    assert Plain(types[c]);
    if IsString(types[c]) && s.Some? {
      assert Present(q, s.value) ==> SlotOk(q.slots[IdOf(q, s.value)]);
      if Present(p, s.value) {
        var n := IdOf(p, s.value);
        assert InUse(q.slots, n) && TextOf(q.slots, n) == s.value;
        TextsDistinct(q, n, IdOf(q, s.value));
      }
    }
  }

  /** The row that table_view_set_row leaves, cell by cell. */
  lemma RowLeftIs(types: seq<nat>, p: Pool, cells: seq<nat>, rec: seq<Field>, persistent: bool)
    requires |cells| == |types| && Valid(p) && RecordOk(rec) && PlainTypes(types)
    ensures SetRow(types, p, cells, rec, AllColumns(types), persistent).cells == RowLeft(types, p, cells, rec, persistent)
  {
    forall c | 0 <= c < |types|
      ensures SetRow(types, p, cells, rec, AllColumns(types), persistent).cells[c] ==
        CellLeft(types, p, cells, rec, c, persistent)
    {
      CellLeftIs(types, p, cells, rec, c, persistent);
    }
  }

  lemma CellLeftIs(types: seq<nat>, p: Pool, cells: seq<nat>, rec: seq<Field>, c: nat, persistent: bool)
    requires |cells| == |types| && c < |types| && Valid(p) && RecordOk(rec) && PlainTypes(types)
    ensures SetRow(types, p, cells, rec, AllColumns(types), persistent).cells[c] ==
      CellLeft(types, p, cells, rec, c, persistent)
  {
    var w := SetRowFrom(types, p, cells, rec, ColumnsBelow(types, c), 0, persistent);
    assert types[c] >= 0 && forall d :: 0 <= d <= c ==> types[d] >= 0;
    CellWritten(types, p, cells, rec, AllColumns(types), 0, c, persistent);
    SetRowFrame(types, p, cells, rec, ColumnsBelow(types, c), 0, persistent);
    SetColumnKeeps(types, w.pool, w.cells, rec, c, persistent);
    if Storable(types, rec, c) {
      ColumnLater(types, p, w.pool, cells, w.cells, rec, c, persistent);
    }
    assert w.status == Success && Storable(types, rec, c) <==> FitsUpTo(types, rec, c);
  }

  // ---------------------------------------------------------------------------------------------
  // Order
  // ---------------------------------------------------------------------------------------------

  /** The row that an insertion at place i leaves there. */
  ghost function NewRow(types: seq<nat>, p: Pool, rows: seq<seq<nat>>, rec: seq<Field>, i: nat, persistent: bool): (row: seq<nat>)
    requires Rectangular(types, rows) && i <= |rows| && Valid(p) && RecordOk(rec) && PlainTypes(types)
    ensures |row| == |types|
  {
    RowLeft(types, p, Stale(types, rows, i), rec, persistent)
  }

  /** Where an insertion puts its row. */
  ghost function PlaceFor(types: seq<nat>, p: Pool, rows: seq<seq<nat>>, rec: seq<Field>, row: Option<nat>): (i: nat)
    requires Rectangular(types, rows) && (row.Some? ==> row.value <= |rows|)
    ensures i <= |rows|
  {
    if row.Some? then row.value else Place(types, p, rows, rec)
  }

  /** The insertion is refused before anything is done, or the key it leaves fits between its neighbours. */
  ghost predicate Fits(types: seq<nat>, p: Pool, rows: seq<seq<nat>>, rec: seq<Field>, row: Option<nat>, persistent: bool)
    requires Rectangular(types, rows) && (row.Some? ==> row.value <= |rows|)
    requires Valid(p) && RecordOk(rec) && PlainTypes(types)
  {
    Validate(types, p, rows, rec) == Success ==>
      var i := PlaceFor(types, p, rows, rec, row);
      var key := KeyOf(types, NewRow(types, p, rows, rec, i, persistent));
      && (i > 0 ==> Lex(KeyOf(types, rows[i - 1]), key) < 0)
      && (i < |rows| ==> Lex(key, KeyOf(types, rows[i])) < 0)
  }

  /** The table after an insertion, for every record: the row is there, and what it holds, and the code. */
  lemma InsertLeaves(types: seq<nat>, p: Pool, rows: seq<seq<nat>>, rec: seq<Field>, row: Option<nat>, persistent: bool)
    requires Rectangular(types, rows) && (row.Some? ==> row.value <= |rows|)
    requires Valid(p) && RecordOk(rec) && PlainTypes(types)
    ensures var n := InsertRecord(types, p, rows, rec, row, persistent);
      && Valid(n.pool) && KeepsIds(p, n.pool) && Rectangular(types, n.rows)
      && if Validate(types, p, rows, rec) != Success then n == Inserted(FunctionFailed, p, rows)
         else var i := PlaceFor(types, p, rows, rec, row);
           && n.rows == InsertRowAt(rows, i, NewRow(types, p, rows, rec, i, persistent))
           && n.status == (if AllStorable(types, rec) then Success else FunctionFailed)
  {
    if Validate(types, p, rows, rec) == Success {
      var i := PlaceFor(types, p, rows, rec, row);
      InsertAtRowEffect(types, p, rows, rec, i, persistent);
      RowLeftIs(types, p, Stale(types, rows, i), rec, persistent);
      SetRowFrame(types, p, Stale(types, rows, i), rec, AllColumns(types), 0, persistent);
    }
  }

  /** A sorted table stays sorted exactly when the key that the row is left with fits between its neighbours,
      whatever code the insertion returns. */
  lemma InsertOrder(types: seq<nat>, p: Pool, rows: seq<seq<nat>>, rec: seq<Field>, row: Option<nat>, persistent: bool)
    requires KeySorted(types, rows) && (row.Some? ==> row.value <= |rows|)
    requires Valid(p) && RecordOk(rec) && PlainTypes(types)
    ensures KeySorted(types, InsertRecord(types, p, rows, rec, row, persistent).rows) <==>
      Fits(types, p, rows, rec, row, persistent)
  {
    InsertLeaves(types, p, rows, rec, row, persistent);
    if Validate(types, p, rows, rec) == Success {
      var i := PlaceFor(types, p, rows, rec, row);
      InsertSorted(types, rows, i, NewRow(types, p, rows, rec, i, persistent));
    }
  }

  // ---------------------------------------------------------------------------------------------
  // Keys that are known
  // ---------------------------------------------------------------------------------------------

  /** Every integer in the columns up to the last key column fits. */
  ghost predicate KeysFit(types: seq<nat>, rec: seq<Field>) {
    forall k :: 0 <= k < |types| && IsKey(types[k]) ==> FitsUpTo(types, rec, k)
  }

  /** Then the row is left with the key of the record. */
  lemma {:induction false} KnownKeyLeft(types: seq<nat>, p: Pool, cells: seq<nat>, rec: seq<Field>, c: nat,
        persistent: bool)
    requires |cells| == |types| && c <= |types| && Valid(p) && RecordOk(rec) && PlainTypes(types)
    requires |p.slots| <= TWO24 && KeysFit(types, rec) && RecordKeyFrom(types, p, rec, c).Some?
    ensures RecordKeyFrom(types, p, rec, c) == Some(KeyFrom(types, RowLeft(types, p, cells, rec, persistent), c))
    decreases |types| - c
  {
    if c < |types| {
      KnownKeyLeft(types, p, cells, rec, c + 1, persistent);
      if IsKey(types[c]) {
        ValueBelow(types, p, rec, c);
      }
    }
  }

  /** A known value fits its cell. */
  lemma ValueBelow(types: seq<nat>, p: Pool, rec: seq<Field>, c: nat)
    requires c < |types| && Valid(p) && PlainTypes(types) && |p.slots| <= TWO24
    requires ValueOf(types, p, rec, c).0 == Success
    ensures ValueOf(types, p, rec, c).1 % CellLimit(types[c]) == ValueOf(types, p, rec, c).1
  {
    assert Plain(types[c]);
  }

  /** Exactly one row is added, and it stores the record. */
  ghost predicate GainsRow(types: seq<nat>, p: Pool, rows: seq<seq<nat>>, more: seq<seq<nat>>, rec: seq<Field>) {
    && |more| == |rows| + 1
    && exists i :: 0 <= i <= |rows| && more == InsertRowAt(rows, i, more[i]) && StoresRecord(types, p, rec, more[i])
  }

  /** Keyed insertion: a record whose key values are known, with no misfit before its last key, keeps the
      table sorted by key without duplicates, whatever code is returned. It is refused exactly when a value
      is missing or its key is taken; otherwise one row is added, which stores the record when every integer
      fits. */
  lemma InsertKeyed(types: seq<nat>, p: Pool, rows: seq<seq<nat>>, rec: seq<Field>, persistent: bool)
    requires PlainTypes(types) && HasKey(types) && KeySorted(types, rows) && Valid(p) && RecordOk(rec)
    requires RecordKey(types, p, rec).Some? && KeysFit(types, rec) && |p.slots| <= TWO24
    ensures Fits(types, p, rows, rec, None, persistent)
    ensures var n := InsertRecord(types, p, rows, rec, None, persistent);
      && Valid(n.pool) && KeepsIds(p, n.pool) && KeySorted(types, n.rows)
      && (n.status == Success <==> Validate(types, p, rows, rec) == Success && AllStorable(types, rec))
      && (Validate(types, p, rows, rec) != Success ==> n.rows == rows && n.pool == p)
      && (n.status == Success && |n.pool.slots| <= TWO24 ==> GainsRow(types, n.pool, rows, n.rows, rec))
  {
    InsertLeaves(types, p, rows, rec, None, persistent);
    if Validate(types, p, rows, rec) == Success {
      var i := Place(types, p, rows, rec);
      var row := NewRow(types, p, rows, rec, i, persistent);
      KnownKeyLeft(types, p, Stale(types, rows, i), rec, 0, persistent);
      PlaceFits(types, p, rows, rec, row);
      GainedRow(types, p, rows, rec, i, persistent);
    }
    InsertOrder(types, p, rows, rec, None, persistent);
  }

  lemma GainedRow(types: seq<nat>, p: Pool, rows: seq<seq<nat>>, rec: seq<Field>, i: nat, persistent: bool)
    requires Rectangular(types, rows) && i <= |rows| && Valid(p) && RecordOk(rec) && PlainTypes(types)
    ensures var n := InsertAtRow(types, p, rows, rec, i, persistent);
      n.status == Success && |n.pool.slots| <= TWO24 ==> GainsRow(types, n.pool, rows, n.rows, rec)
  {
    InsertAtRowEffect(types, p, rows, rec, i, persistent);
    var n := InsertAtRow(types, p, rows, rec, i, persistent);
    assert n.rows == InsertRowAt(rows, i, n.rows[i]);
  }
}
