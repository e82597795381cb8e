/** Which insertions leave rows that a commit keeps: strings are counted for persistent and for temporary rows
    apart, and only those with a persistent count are saved (table_view_set_row in libmsi/table.c and
    _libmsi_add_string in libmsi/string.c). */
module Persistence {
  import opened Prelude
  import opened Records
  import opened StringPools
  import opened TableRows
  import opened KeyedInserts
  import opened Inserts
  import L = TableLayout
  import V = TableViews
  import C = Commit

  /** Every string that a row refers to has a persistent count. */
  ghost predicate Lasting(types: seq<nat>, slots: seq<Slot>, cells: seq<nat>) {
    |cells| == |types| && forall c :: 0 <= c < |types| && L.IsString(types[c]) ==> LastingId(slots, cells[c])
  }

  predicate LastingId(slots: seq<Slot>, id: nat) { id == 0 || (id < |slots| && slots[id].persistent != 0) }

  /** The same over stored rows. */
  lemma LastingRows(types: seq<nat>, slots: seq<Slot>, data: seq<seq<Byte>>)
    requires PlainTypes(types) && forall i :: 0 <= i < |data| ==> L.IsRow(types, data[i])
    ensures C.RefersToPersistent(types, slots, data) <==>
      forall i :: 0 <= i < |data| ==> Lasting(types, slots, V.CellsOf(types, data)[i])
  {
    assert forall c :: 0 <= c < |types| ==> (C.HoldsId(types[c]) <==> L.IsString(types[c])) by {
      assert forall c :: 0 <= c < |types| ==> Plain(types[c]);
    }
    if C.RefersToPersistent(types, slots, data) {
      forall i | 0 <= i < |data|
        ensures Lasting(types, slots, V.CellsOf(types, data)[i])
      {
      }
    } else {
      var i, c :| 0 <= i < |data| && 0 <= c < |types| && C.HoldsId(types[c]) && !LastingId(slots, L.Cell(types, data[i], c));
      assert !Lasting(types, slots, V.CellsOf(types, data)[i]);
    }
  }

  /** Strings in use stay as they are, and every new one has a persistent count. */
  ghost predicate Adds(p: Pool, q: Pool) {
    && |p.slots| <= |q.slots|
    && (forall id: nat {:trigger InUse(p.slots, id)} :: InUse(p.slots, id) ==> q.slots[id] == p.slots[id])
    && (forall id: nat {:trigger InUse(q.slots, id)} :: InUse(q.slots, id) && !InUse(p.slots, id) ==>
          q.slots[id].persistent != 0)
  }

  lemma AddsTransitive(p: Pool, q: Pool, r: Pool)
    requires Adds(p, q) && Adds(q, r)
    ensures Adds(p, r)
  {
    forall id: nat | InUse(p.slots, id)
      ensures r.slots[id] == p.slots[id]
    {
      assert q.slots[id] == p.slots[id] && InUse(q.slots, id);
    }
    forall id: nat | InUse(r.slots, id) && !InUse(p.slots, id)
      ensures r.slots[id].persistent != 0
    {
      if InUse(q.slots, id) {
        assert r.slots[id] == q.slots[id];
      }
    }
  }

  lemma NewStringAdds(p: Pool, s: Str)
    requires Valid(p) && !Present(p, s)
    ensures Adds(p, Add(p, s, 1, true).0)
  {
    if s != [] {
      var (q, n) := FindFree(p);
      GrowValid(p);
      var r := Add(p, s, 1, true).0;
      assert forall id: nat :: id < |r.slots| && id != n ==> r.slots[id] == q.slots[id];
      forall id: nat | InUse(r.slots, id) && !InUse(p.slots, id)
        ensures id == n
      {
      }
    }
  }

  lemma {:induction false} WriteAdds(types: seq<nat>, p: Pool, cells: seq<nat>, rec: seq<Field>, mask: set<nat>, c: nat)
    requires |cells| == |types| && c <= |types| && Valid(p) && RecordOk(rec) && PlainTypes(types)
    ensures Adds(p, SetRowFrom(types, p, cells, rec, mask, c, true).pool)
    decreases |types| - c
  {
    if c < |types| {
      if c in mask {
        SetColumnKeeps(types, p, cells, rec, c, true);
        var w := SetColumn(types, p, cells, rec, c, true);
        ColumnAdds(types, p, cells, rec, c);
        if w.status == Success {
          WriteAdds(types, w.pool, w.cells, rec, mask, c + 1);
          AddsTransitive(p, w.pool, SetRowFrom(types, w.pool, w.cells, rec, mask, c + 1, true).pool);
        }
      } else {
        WriteAdds(types, p, cells, rec, mask, c + 1);
      }
    }
  }

  lemma ColumnAdds(types: seq<nat>, p: Pool, cells: seq<nat>, rec: seq<Field>, c: nat)
    requires |cells| == |types| && c < |types| && Valid(p) && RecordOk(rec) && PlainTypes(types)
    ensures Adds(p, SetColumn(types, p, cells, rec, c, true).pool)
  {
    var s := GetStringRaw(rec, c + 1);
    if s.Some? && !Present(p, s.value) {
      NewStringAdds(p, s.value);
    }
  }

  /** What a cell of the new row will refer to outlasts a commit, judged from the state before: its string is
      new, or found with a persistent count; behind an integer that does not fit, the old cell counts. */
  ghost predicate FindsLasting(types: seq<nat>, p: Pool, cells: seq<nat>, rec: seq<Field>, c: nat)
    requires |cells| == |types| && c < |types|
  {
    if !FitsUpTo(types, rec, c) then LastingId(p.slots, cells[c])
    else
      var s := GetStringRaw(rec, c + 1);
      s.Some? && Present(p, s.value) ==> p.slots[IdOf(p, s.value)].persistent != 0
  }

  /** A cell that a persistent insertion leaves. */
  lemma LastingCell(types: seq<nat>, p: Pool, q: Pool, cells: seq<nat>, rec: seq<Field>, c: nat, cell: nat)
    requires |cells| == |types| && c < |types| && PlainTypes(types) && L.IsString(types[c])
    requires Valid(p) && Valid(q) && KeepsIds(p, q) && Adds(p, q)
    requires cells[c] == 0 || InUse(p.slots, cells[c])
    requires if FitsUpTo(types, rec, c) then StoresAs(types[c], q, FieldAt(rec, c), cell) else cell == cells[c]
    ensures LastingId(q.slots, cell) <==> FindsLasting(types, p, cells, rec, c)
  {
    var s := GetStringRaw(rec, c + 1);
    if FitsUpTo(types, rec, c) && s.Some? && s.value != [] {
      assert InUse(q.slots, cell) by {
        assert SlotOk(q.slots[if cell < |q.slots| then cell else 0]);
      }
      if Present(p, s.value) {
        var id := IdOf(p, s.value);
        assert InUse(q.slots, id) && TextOf(q.slots, id) == s.value;
        TextsDistinct(q, id, cell);
        assert SlotOk(p.slots[0]) && q.slots[id] == p.slots[id];
      } else {
        assert !InUse(p.slots, cell);
      }
    } else if s == Some([]) {
      assert !Present(p, []) by {
        assert forall id: nat :: InUse(p.slots, id) ==> SlotOk(p.slots[id]);
      }
    }
  }

  /** A persistent INSERT keeps every row lasting that was, and leaves a lasting row exactly when each string
      that it finds, and each cell that it does not reach, is lasting already. */
  lemma InsertLasts(types: seq<nat>, p: Pool, rows: seq<seq<nat>>, rec: seq<Field>)
    requires Rectangular(types, rows) && Valid(p) && RecordOk(rec) && PlainTypes(types)
    requires Validate(types, p, rows, rec) == Success && |Step(types, p, rows, rec, true).pool.slots| <= TWO24
    requires CellsNamed(types, p, Stale(types, rows, PlaceFor(types, p, rows, rec, AskedRow(types, rec))))
    ensures var n := Step(types, p, rows, rec, true);
      var i := PlaceFor(types, p, rows, rec, AskedRow(types, rec));
      && |n.rows| == |rows| + 1
      && (forall r: seq<nat> :: Lasting(types, p.slots, r) ==> Lasting(types, n.pool.slots, r))
      && (Lasting(types, n.pool.slots, n.rows[i]) <==>
          forall c :: 0 <= c < |types| && L.IsString(types[c]) ==> FindsLasting(types, p, Stale(types, rows, i), rec, c))
  {
    var i := PlaceFor(types, p, rows, rec, AskedRow(types, rec));
    var cells, n := Stale(types, rows, i), Step(types, p, rows, rec, true);
    var w := SetRowFrom(types, p, cells, rec, AllColumns(types), 0, true);
    InsertLeaves(types, p, rows, rec, AskedRow(types, rec), true);
    RowLeftIs(types, p, cells, rec, true);
    WriteAdds(types, p, cells, rec, AllColumns(types), 0);
    SetRowStores(types, p, cells, rec, AllColumns(types), 0, true);
    assert n.rows[i] == w.cells && n.pool == w.pool;
    forall c | 0 <= c < |types| && L.IsString(types[c])
      ensures LastingId(n.pool.slots, w.cells[c]) <==> FindsLasting(types, p, cells, rec, c)
    {
      assert FitsUpTo(types, rec, c) ==> FitsBetween(types, rec, AllColumns(types), 0, c);
      LastingCell(types, p, n.pool, cells, rec, c, w.cells[c]);
    }
    forall r: seq<nat> | Lasting(types, p.slots, r)
      ensures Lasting(types, n.pool.slots, r)
    {
      LastingStays(types, p, n.pool, r);
    }
  }

  lemma LastingStays(types: seq<nat>, p: Pool, q: Pool, cells: seq<nat>)
    requires Adds(p, q) && Lasting(types, p.slots, cells)
    ensures Lasting(types, q.slots, cells)
  {
    forall c | 0 <= c < |types| && L.IsString(types[c])
      ensures LastingId(q.slots, cells[c])
    {
      assert cells[c] == 0 || InUse(p.slots, cells[c]);
    }
  }

  /** A string that so far only a temporary row uses: a persistent row with it does not outlast a commit. */
  lemma TemporaryFirst(s: Str)
    requires s != [] && NulFree(s)
    ensures var types, p, rec := [STRING_KEY], Pool([FREE, Slot(0, 1, Some(s))], [1], 2, 0), [StrField(s)];
      && PlainTypes(types) && Valid(p) && RecordOk(rec) && Validate(types, p, [], rec) == Success
      && Step(types, p, [], rec, true) == Inserted(Success, p, [[1]])
      && !Lasting(types, p.slots, [1])
  {
    var types, p, rec := [STRING_KEY], Pool([FREE, Slot(0, 1, Some(s))], [1], 2, 0), [StrField(s)];
    assert InUse(p.slots, 1) && TextOf(p.slots, 1) == s;
    assert !LacksValue(types, rec, 0) && AskedRow(types, rec) == None;
    assert Stale(types, [], 0) == [0];
    assert SetColumn(types, p, [0], rec, 0, true) == Written(Success, p, [1]);
    assert types[0] > 0 && 0 in AllColumns(types);
    assert SetRowFrom(types, p, [1], rec, AllColumns(types), 1, true) == Written(Success, p, [1]);
    assert SetRowFrom(types, p, [0], rec, AllColumns(types), 0, true) == Written(Success, p, [1]);
    assert !LastingId(p.slots, [1][0]);
  }
}
