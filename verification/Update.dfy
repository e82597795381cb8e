/** UPDATE: the record is expanded by the SELECT view, checked and split by the WHERE view, and written
    to every row that was selected (libmsi/update.c, libmsi/select.c, libmsi/where.c). */
module Updates {
  import opened Prelude
  import opened Records
  import opened StringPools
  import opened TableLayout
  import opened TableRows

  // ---------------------------------------------------------------------------------------------
  // The SELECT view: from SET columns to table columns
  // ---------------------------------------------------------------------------------------------

  /** The SET list names columns of the table, counted from 1. */
  ghost predicate ColumnsOf(cols: seq<nat>, width: nat) {
    forall i :: 0 <= i < |cols| ==> 1 <= cols[i] <= width
  }

  /** The bits of the SET columns. */
  function ColumnMask(cols: seq<nat>): (mask: set<nat>)
    ensures forall c: nat :: c in mask <==> c + 1 in cols
  {
    var mask := set k | k in cols && k > 0 :: k - 1;
    assert forall c: nat | c + 1 in cols :: c in mask by {
      forall c: nat | c + 1 in cols
        ensures c in mask
      {
        assert (c + 1) - 1 == c;
      }
    }
    mask
  }

  /** The field for a table column: the last one that is set for it. */
  function ExpandedField(cols: seq<nat>, rec: seq<Field>, c: nat): Field {
    var k := LastOf(cols, c + 1, |cols|);
    if k.Some? then FieldAt(rec, k.value) else NullField
  }

  /** The record that reaches the table. */
  function Expanded(width: nat, cols: seq<nat>, rec: seq<Field>): (expanded: seq<Field>)
    ensures |expanded| == width
    ensures forall c {:trigger expanded[c]} :: 0 <= c < width ==> expanded[c] == ExpandedField(cols, rec, c)
  {
    seq(width, c requires 0 <= c < width => ExpandedField(cols, rec, c))
  }

  /** The copying loop of select_view_set_row. */
  method ExpandRecord(width: nat, cols: seq<nat>, rec: seq<Field>) returns (r: Status, expanded: seq<Field>,
        mask: set<nat>)
    requires ColumnsOf(cols, width)
    ensures r == if |cols| <= |rec| then Success else FunctionFailed
    ensures r == Success ==> expanded == Expanded(width, cols, rec) && mask == ColumnMask(cols)
  {
    expanded, mask := NewRecord(width), {};
    for i := 0 to |cols|
      invariant i <= |rec| && |expanded| == width
      invariant forall c {:trigger expanded[c]} :: 0 <= c < width ==>
        expanded[c] == var k := LastOf(cols, c + 1, i); if k.Some? then rec[k.value] else NullField
      invariant forall c :: c in mask <==> exists k :: 0 <= k < i && cols[k] == c + 1
    {
      var copied := CopyField(rec, i + 1, expanded, cols[i]);
      if copied.None? {
        return FunctionFailed, expanded, mask;
      }
      expanded := copied.value;
      mask := mask + {cols[i] - 1};
    }
    r := Success;
  }

  // ---------------------------------------------------------------------------------------------
  // The WHERE view: from its columns to those of the joined tables
  // ---------------------------------------------------------------------------------------------

  /** The first column, from 0, of each listed table. The list runs from the last table to the first. */
  function Start(tables: seq<seq<nat>>, j: nat): nat
    requires j <= |tables|
  {
    if j == 0 then 0 else Start(tables, j - 1) + |tables[j - 1]|
  }

  lemma {:induction false} StartMonotone(tables: seq<seq<nat>>, i: nat, j: nat)
    requires i <= j <= |tables|
    ensures Start(tables, i) <= Start(tables, j)
    ensures i < j ==> Start(tables, i) + |tables[i]| <= Start(tables, j)
  {
    if i < j {
      StartMonotone(tables, i, j - 1);
    }
  }

  /** find_table: the listed table and its column; None outside the view. */
  method FindTable(tables: seq<seq<nat>>, col: nat) returns (found: Option<(nat, nat)>)
    ensures found.None? <==> col == 0 || col > Start(tables, |tables|)
    ensures found.Some? ==> OwnColumn(tables, col, found.value.0, found.value.1)
  {
    if col == 0 || col > Start(tables, |tables|) {
      return None;
    }
    var rest, j := col, 0;
    while rest > |tables[j]|
      invariant j < |tables| && rest >= 1 && Start(tables, j) + rest == col
      decreases |tables| - j
    {
      StartMonotone(tables, j + 1, |tables|);
      rest, j := rest - |tables[j]|, j + 1;
    }
    found := Some((j, rest));
  }

  /** Column `col` of the view is column `own` of listed table j. */
  predicate OwnColumn(tables: seq<seq<nat>>, col: nat, j: nat, own: nat) {
    j < |tables| && 1 <= own <= |tables[j]| && col == Start(tables, j) + own
  }

  /** The mask shifted down by n bits. */
  function ShiftMask(mask: set<nat>, n: nat): set<nat> {
    set m | m in mask && m >= n :: m - n
  }

  /** Column i of listed table j has its bit set. */
  predicate Masked(tables: seq<seq<nat>>, mask: set<nat>, j: nat, i: nat) {
    j < |tables| && i < |tables[j]| && Start(tables, j) + i in mask
  }

  /** Some bit of the mask belongs to a key column. */
  ghost predicate TouchesKey(tables: seq<seq<nat>>, mask: set<nat>) {
    exists j: nat, i: nat :: Masked(tables, mask, j, i) && IsKey(tables[j][i])
  }

  /** What is left of the mask when the loop reaches listed table j. */
  ghost predicate LeftFor(tables: seq<seq<nat>>, mask: set<nat>, j: nat, copy: set<nat>)
    requires j <= |tables|
  {
    forall b: nat {:trigger b in copy} :: b in copy <==> Start(tables, j) + b in mask
  }

  ghost predicate NoKeyBefore(tables: seq<seq<nat>>, mask: set<nat>, j: nat) {
    forall k: nat, i: nat :: k < j && Masked(tables, mask, k, i) ==> !IsKey(tables[k][i])
  }

  /** The first loop of where_view_set_row. */
  method CheckKeys(tables: seq<seq<nat>>, mask: set<nat>) returns (touched: bool)
    requires tables != []
    ensures touched <==> TouchesKey(tables, mask)
  {
    var copy := mask;
    var j := 0;
    while true
      invariant 0 <= j < |tables| && LeftFor(tables, mask, j, copy) && NoKeyBefore(tables, mask, j)
      decreases |tables| - j
    {
      touched := CheckTable(tables, mask, copy, j);
      if touched {
        return;
      }
      copy := NextMask(tables, mask, copy, j);
      j := j + 1;
      if copy == {} || j == |tables| {
        break;
      }
    }
    if copy == {} {
      NothingLeft(tables, mask, j);
    }
  }

  lemma NothingLeft(tables: seq<seq<nat>>, mask: set<nat>, j: nat)
    requires j <= |tables| && LeftFor(tables, mask, j, {}) && NoKeyBefore(tables, mask, j)
    ensures !TouchesKey(tables, mask)
  {
    forall k: nat, i: nat | Masked(tables, mask, k, i)
      ensures !IsKey(tables[k][i])
    {
      if k >= j {
        StartMonotone(tables, j, k);
        var none: set<nat> := {};
        assert Start(tables, k) + i - Start(tables, j) in none;
      }
    }
  }

  method CheckTable(tables: seq<seq<nat>>, ghost mask: set<nat>, copy: set<nat>, j: nat) returns (touched: bool)
    requires j < |tables| && LeftFor(tables, mask, j, copy) && NoKeyBefore(tables, mask, j)
    ensures if touched then TouchesKey(tables, mask) else NoKeyBefore(tables, mask, j + 1)
  {
    for i := 0 to |tables[j]|
      invariant forall k: nat :: k < i && Masked(tables, mask, j, k) ==> !IsKey(tables[j][k])
    {
      if i in copy && IsKey(tables[j][i]) {
        assert Masked(tables, mask, j, i);
        return true;
      }
      assert Masked(tables, mask, j, i) ==> i in copy;
    }
    touched := false;
  }

  method NextMask(tables: seq<seq<nat>>, ghost mask: set<nat>, copy: set<nat>, j: nat) returns (next: set<nat>)
    requires j < |tables| && LeftFor(tables, mask, j, copy)
    ensures LeftFor(tables, mask, j + 1, next)
  {
    next := ShiftMask(copy, |tables[j]|);
    forall b: nat
      ensures b in next <==> Start(tables, j + 1) + b in mask
    {
      assert |tables[j]| + b in copy <==> Start(tables, j) + (|tables[j]| + b) in mask;
    }
  }

  /** One call of a joined table's set_row. */
  datatype Write = Write(table: nat, rec: seq<Field>, mask: set<nat>)

  /** What listed table j is given. */
  ghost predicate IsPiece(tables: seq<seq<nat>>, rec: seq<Field>, mask: set<nat>, w: Write)
    requires |rec| == Start(tables, |tables|)
  {
    && w.table < |tables|
    && (StartMonotone(tables, w.table, |tables|);
        && |w.rec| == |tables[w.table]|
        && (forall i {:trigger w.rec[i]} :: 0 <= i < |w.rec| && Start(tables, w.table) + i < |rec| ==>
              w.rec[i] == rec[Start(tables, w.table) + i])
        && (forall i: nat :: i in w.mask <==> Masked(tables, mask, w.table, i)))
  }

  /** The second loop of where_view_set_row, up to the calls it makes. */
  method SplitRow(tables: seq<seq<nat>>, rec: seq<Field>, mask: set<nat>) returns (writes: seq<Write>)
    requires |rec| == Start(tables, |tables|)
    ensures forall k :: 0 <= k < |writes| ==> IsPiece(tables, rec, mask, writes[k]) && writes[k].mask != {}
    ensures forall k, l :: 0 <= k < l < |writes| ==> writes[k].table < writes[l].table
    ensures forall j: nat, i: nat :: Masked(tables, mask, j, i) ==>
      exists k :: 0 <= k < |writes| && writes[k].table == j
  {
    writes := [];
    var offset := 0;
    for j := 0 to |tables|
      invariant offset == Start(tables, j)
      invariant forall k :: 0 <= k < |writes| ==>
        writes[k].table < j && IsPiece(tables, rec, mask, writes[k]) && writes[k].mask != {}
      invariant forall k, l :: 0 <= k < l < |writes| ==> writes[k].table < writes[l].table
      invariant forall t: nat, i: nat :: t < j && Masked(tables, mask, t, i) ==>
        exists k :: 0 <= k < |writes| && writes[k].table == t
    {
      var w := CutPiece(tables, rec, mask, j, offset);
      ghost var before := writes;
      if w.mask != {} {
        writes := writes + [w];
        assert writes[|before|].table == j;
      } else {
        assert forall i: nat :: !Masked(tables, mask, j, i);
      }
      assert forall k :: 0 <= k < |before| ==> writes[k] == before[k];
      offset := offset + |tables[j]|;
    }
  }

  method CutPiece(tables: seq<seq<nat>>, rec: seq<Field>, mask: set<nat>, j: nat, offset: nat) returns (w: Write)
    requires |rec| == Start(tables, |tables|) && j < |tables| && offset == Start(tables, j)
    ensures w.table == j && IsPiece(tables, rec, mask, w)
  {
    StartMonotone(tables, j, |tables|);
    var count := |tables[j]|;
    var reducedMask := set b | b in ShiftMask(mask, offset) && b < count;
    forall b: nat
      ensures b in reducedMask <==> Masked(tables, mask, j, b)
    {
    }
    var reduced := NewRecord(count);
    for i := 1 to count + 1
      invariant |reduced| == count
      invariant forall k {:trigger reduced[k]} :: 0 <= k < i - 1 ==> reduced[k] == rec[offset + k]
    {
      reduced := CopyField(rec, i + offset, reduced, i).value;
    }
    w := Write(j, reduced, reducedMask);
  }

  /** The splitting and find_table agree: a masked column of the view is written to the column that
      reading it would read, with the field given for it. */
  lemma SplitReachesColumn(tables: seq<seq<nat>>, rec: seq<Field>, mask: set<nat>, w: Write, col: nat, own: nat)
    requires |rec| == Start(tables, |tables|) && IsPiece(tables, rec, mask, w)
    requires OwnColumn(tables, col, w.table, own)
    ensures own - 1 in w.mask <==> col - 1 in mask
    ensures col <= |rec| && w.rec[own - 1] == rec[col - 1]
  {
    StartMonotone(tables, w.table, |tables|);
  }

  // ---------------------------------------------------------------------------------------------
  // Rows
  // ---------------------------------------------------------------------------------------------

  /** A table after some rows were written. */
  datatype Updated = Updated(status: Status, pool: Pool, rows: seq<seq<nat>>)

  /** The rows are written one after the other, up to the first failure. */
  ghost function UpdateRows(types: seq<nat>, p: Pool, rows: seq<seq<nat>>, rec: seq<Field>, mask: set<nat>,
        hit: seq<nat>, flags: seq<bool>): (u: Updated)
    requires Rectangular(types, rows) && Valid(p) && RecordOk(rec) && PlainTypes(types)
    requires |flags| == |rows| && forall k :: 0 <= k < |hit| ==> hit[k] < |rows|
    ensures Valid(u.pool) && KeepsIds(p, u.pool) && Rectangular(types, u.rows) && |u.rows| == |rows|
    decreases |hit|
  {
    if hit == [] then Updated(Success, p, rows)
    else
      var w := SetRowFrom(types, p, rows[hit[0]], rec, mask, 0, flags[hit[0]]);
      var now := rows[hit[0] := w.cells];
      if w.status != Success then Updated(w.status, w.pool, now)
      else UpdateRows(types, w.pool, now, rec, mask, hit[1..], flags)
  }

  /** Every field of the mask fits its column. */
  ghost predicate MaskStorable(types: seq<nat>, rec: seq<Field>, mask: set<nat>) {
    forall c :: 0 <= c < |types| && c in mask ==> Storable(types, rec, c)
  }

  /** Only masked columns of rows in `hit` differ. */
  ghost predicate OnlyHitChanged(types: seq<nat>, was: seq<seq<nat>>, now: seq<seq<nat>>, mask: set<nat>, hit: seq<nat>) {
    && Rectangular(types, was) && Rectangular(types, now) && |was| == |now|
    && forall i, c {:trigger now[i][c]} ::
      0 <= i < |was| && 0 <= c < |types| && (i !in hit || c !in mask) ==> now[i][c] == was[i][c]
  }

  /** Every masked column of every row in `hit` stores its field. */
  ghost predicate HitStores(types: seq<nat>, p: Pool, rows: seq<seq<nat>>, rec: seq<Field>, mask: set<nat>, hit: seq<nat>)
    requires Rectangular(types, rows)
  {
    forall i, c :: i in hit && i < |rows| && 0 <= c < |types| && c in mask ==> StoresAs(types[c], p, FieldAt(rec, c), rows[i][c])
  }

  /** The frame of UPDATE: nothing outside the masked columns of the rows hit changes, and there the
      fields are stored, unless one of them does not fit. */
  lemma {:induction false} UpdateRowsEffect(types: seq<nat>, p: Pool, rows: seq<seq<nat>>, rec: seq<Field>,
        mask: set<nat>, hit: seq<nat>, flags: seq<bool>)
    requires Rectangular(types, rows) && Valid(p) && RecordOk(rec) && PlainTypes(types)
    requires |flags| == |rows| && forall k :: 0 <= k < |hit| ==> hit[k] < |rows|
    ensures var u := UpdateRows(types, p, rows, rec, mask, hit, flags);
      && |p.slots| <= |u.pool.slots|
      && (u.status == Success <==> hit == [] || MaskStorable(types, rec, mask))
      && (u.status == Success || u.status == FunctionFailed)
      && OnlyHitChanged(types, rows, u.rows, mask, hit)
      && (u.status == Success && |u.pool.slots| <= TWO24 ==> HitStores(types, u.pool, u.rows, rec, mask, hit))
    decreases |hit|
  {
    if hit != [] {
      var w := SetRowFrom(types, p, rows[hit[0]], rec, mask, 0, flags[hit[0]]);
      var now := rows[hit[0] := w.cells];
      SetRowFrame(types, p, rows[hit[0]], rec, mask, 0, flags[hit[0]]);
      SetRowGrows(types, p, rows[hit[0]], rec, mask, 0, flags[hit[0]]);
      assert OnlyHitChanged(types, rows, now, mask, hit);
      assert hit == [hit[0]] + hit[1..];
      if w.status == Success {
        UpdateRowsEffect(types, w.pool, now, rec, mask, hit[1..], flags);
        var u := UpdateRows(types, w.pool, now, rec, mask, hit[1..], flags);
        ChangesCompose(types, rows, now, u.rows, mask, hit);
        if u.status == Success && |u.pool.slots| <= TWO24 {
          SetRowStores(types, p, rows[hit[0]], rec, mask, 0, flags[hit[0]]);
          FirstStays(types, w.pool, u.pool, now, u.rows, rec, mask, hit);
        }
      }
    }
  }

  lemma ChangesCompose(types: seq<nat>, was: seq<seq<nat>>, mid: seq<seq<nat>>, now: seq<seq<nat>>,
        mask: set<nat>, hit: seq<nat>)
    requires hit != [] && OnlyHitChanged(types, was, mid, mask, hit) && OnlyHitChanged(types, mid, now, mask, hit[1..])
    ensures OnlyHitChanged(types, was, now, mask, hit)
  {
    forall i, c | 0 <= i < |was| && 0 <= c < |types| && (i !in hit || c !in mask)
      ensures now[i][c] == was[i][c]
    {
      assert hit == [hit[0]] + hit[1..];
      assert now[i][c] == mid[i][c];
    }
  }

  /** The first row hit keeps storing its fields while the others are written. */
  lemma FirstStays(types: seq<nat>, p: Pool, q: Pool, was: seq<seq<nat>>, now: seq<seq<nat>>, rec: seq<Field>,
        mask: set<nat>, hit: seq<nat>)
    requires hit != [] && hit[0] < |was| && Valid(p) && Valid(q) && KeepsIds(p, q)
    requires OnlyHitChanged(types, was, now, mask, hit[1..])
    requires forall c :: 0 <= c < |types| && c in mask ==> StoresAs(types[c], p, FieldAt(rec, c), was[hit[0]][c])
    requires HitStores(types, q, now, rec, mask, hit[1..])
    ensures HitStores(types, q, now, rec, mask, hit)
  {
    forall i, c | i in hit && i < |now| && 0 <= c < |types| && c in mask
      ensures StoresAs(types[c], q, FieldAt(rec, c), now[i][c])
    {
      if i !in hit[1..] {
        assert i == hit[0];
      }
    }
  }
}
