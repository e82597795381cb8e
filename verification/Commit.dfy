/** Committing a database and opening it again: strings and rows together
    (libmsi_database_commit in libmsi/libmsi-database.c). */
module Commit {
  import opened Prelude
  import opened LittleEndian
  import opened StringPools
  import opened StringCodec
  import opened StringTables
  import opened StringTableIo
  import L = TableLayout
  import opened TableStorage

  /** What a cell means to a reader of the table. */
  datatype Value = Text(s: Str) | Number(n: nat)

  predicate HoldsId(t: nat) { L.IsString(t) && !L.IsBinary(t) }

  function Meaning(types: seq<nat>, slots: seq<Slot>, row: seq<Byte>, c: nat): Value
    requires L.IsRow(types, row) && c < |types|
  {
    var cell := L.Cell(types, row, c);
    if HoldsId(types[c]) then Text(TextOf(slots, cell)) else Number(cell)
  }

  ghost predicate SameMeaning(types: seq<nat>, a: seq<Slot>, b: seq<Slot>, row: seq<Byte>, row': seq<Byte>) {
    && L.IsRow(types, row) && L.IsRow(types, row')
    && forall c :: 0 <= c < |types| ==> Meaning(types, a, row, c) == Meaning(types, b, row', c)
  }

  /** Every string that the rows refer to has a persistent count; id 0 is the empty string. */
  ghost predicate RefersToPersistent(types: seq<nat>, slots: seq<Slot>, rows: seq<seq<Byte>>)
    requires AllRows(types, rows)
  {
    forall i, c :: 0 <= i < |rows| && 0 <= c < |types| && HoldsId(types[c]) ==>
      var id := L.Cell(types, rows[i], c);
      id == 0 || (id < |slots| && slots[id].persistent != 0)
  }

  /** The width chosen for the string table fits every id that a row refers to. */
  lemma ChosenWidthFits(types: seq<nat>, p: Pool, rows: seq<seq<Byte>>, i: nat)
    requires AllRows(types, rows) && RefersToPersistent(types, p.slots, rows) && i < |rows| && |p.slots| >= 1
    ensures IdsFit(types, RefWidth(|p.slots|), rows[i])
    ensures forall j :: 0 <= j < |types| ==> !Rejected(types, RefWidth(|p.slots|), rows[i], j)
  {
    forall j | 0 <= j < |types| && L.Width(types[j], RefWidth(|p.slots|)) < L.Width(types[j], LONG_STR_BYTES)
      ensures L.Cell(types, rows[i], j) < Pow256(RefWidth(|p.slots|))
    {
      L.WidthNarrows(types[j], RefWidth(|p.slots|));
      assert HoldsId(types[j]);
    }
  }

  /** The string table after reopening. */
  lemma Reopen(p: Pool)
    requires Valid(p) && LengthsFit(p.slots) && p.codepage < TWO16
    ensures StoredWidth(PoolBytes(p)) == RefWidth(|p.slots|)
    ensures var q := Load(PoolBytes(p), DataBytes(p));
      && |q.slots| == Units(p.slots, |p.slots|)
      && (AllRestorable(p.slots) <==> forall i :: 0 <= i < |p.slots| ==> q.slots[i] == Reopened(p.slots[i]))
      && (AllRestorable(p.slots) ==> LoadedUpTo(p, q, |p.slots|))
  {
    if |p.slots| > 1 {
      RoundTrip(p);
    } else {
      EmptyRoundTrip(p);
    }
  }

  lemma LoadedCodepage(p: Pool)
    requires Valid(p) && CodepageKnown(p.codepage)
    ensures CodepageKnown(StoredCodepage(PoolBytes(p)))
  {
    if |p.slots| > 1 {
      HeaderExact(p);
    } else {
      assert CodepageKnown(0);
    }
  }

  /** A cell names a string that has only references from temporary rows. */
  predicate NamesTemporary(types: seq<nat>, slots: seq<Slot>, row: seq<Byte>, c: nat)
    requires L.IsRow(types, row) && c < |types|
  {
    var id := L.Cell(types, row, c);
    HoldsId(types[c]) && InUse(slots, id) && slots[id].persistent == 0
  }

  /** A cell means what it meant, unless it names such a string: that one is gone. */
  lemma CellMeaning(types: seq<nat>, p: Pool, q: Pool, row: seq<Byte>, c: nat)
    requires L.IsRow(types, row) && c < |types| && Valid(p) && LoadedUpTo(p, q, |p.slots|)
    ensures Meaning(types, p.slots, row, c) == Meaning(types, q.slots, row, c) <==>
      !NamesTemporary(types, p.slots, row, c)
  {
    var id := L.Cell(types, row, c);
    if HoldsId(types[c]) && id < |p.slots| {
      assert SlotOk(p.slots[id]) && q.slots[id] == Reopened(p.slots[id]);
    }
  }

  /** Same cells and persistent strings: same meaning. */
  lemma MeaningKept(types: seq<nat>, p: Pool, q: Pool, rows: seq<seq<Byte>>, i: nat)
    requires AllRows(types, rows) && RefersToPersistent(types, p.slots, rows) && i < |rows|
    requires Valid(p) && LoadedUpTo(p, q, |p.slots|)
    ensures SameMeaning(types, p.slots, q.slots, rows[i], rows[i])
  {
    forall c | 0 <= c < |types|
      ensures Meaning(types, p.slots, rows[i], c) == Meaning(types, q.slots, rows[i], c)
    {
      CellMeaning(types, p, q, rows[i], c);
      assert SlotOk(p.slots[0]);
    }
  }

  /** A table whose ids fit the width is read back as it was saved. */
  method SaveAndRead(types: seq<nat>, width: nat, rows: seq<seq<Byte>>) returns (rows': seq<seq<Byte>>)
    requires 2 <= width <= 3 && types != [] && AllRows(types, rows)
    requires NoneRejected(types, width, rows)
    requires forall i :: 0 <= i < |rows| ==> IdsFit(types, width, rows[i])
    ensures rows' == rows
  {
    var r, raw := SaveTable(types, width, rows);
    WholeRows(types, width, |rows|);
    var r';
    r', rows' := ReadTable(types, width, raw[..]);
    StoredComesBack(types, width, rows, raw[..], rows');
  }

  lemma WholeRows(types: seq<nat>, width: nat, n: nat)
    requires 2 <= width <= 3 && types != []
    ensures L.RowSize(types, width) > 0 && (L.RowSize(types, width) * n) % L.RowSize(types, width) == 0
  {
    L.OffsetMonotone(types, width, 0, |types|);
    Remainder(n, L.RowSize(types, width), 0);
  }

  lemma StoredComesBack(types: seq<nat>, width: nat, rows: seq<seq<Byte>>, raw: seq<Byte>, rows': seq<seq<Byte>>)
    requires 2 <= width <= 3 && types != [] && Stores(types, width, rows, raw)
    requires |raw| == L.RowSize(types, width) * |rows'|
    requires forall i :: 0 <= i < |rows'| ==> rows'[i] == ReadRow(types, width, |rows'|, raw, i)
    requires forall i :: 0 <= i < |rows| ==> IdsFit(types, width, rows[i])
    ensures rows' == rows
  {
    WholeRows(types, width, 0);
    SameRowCount(L.RowSize(types, width), |rows|, |rows'|);
    forall i | 0 <= i < |rows|
      ensures rows'[i] == rows[i]
    {
      RowRoundTrip(types, width, rows, raw, i);
    }
  }

  /** A table of the database: the types of its columns and its rows, all persistent. */
  datatype Table = Table(types: seq<nat>, rows: seq<seq<Byte>>)

  ghost predicate TableOk(t: Table, slots: seq<Slot>) {
    t.types != [] && AllRows(t.types, t.rows) && RefersToPersistent(t.types, slots, t.rows)
  }

  /** The same columns and as many rows, each cell meaning what it meant. */
  ghost predicate SameTable(a: seq<Slot>, b: seq<Slot>, t: Table, t': Table) {
    && t'.types == t.types && |t'.rows| == |t.rows|
    && forall i :: 0 <= i < |t.rows| ==> SameMeaning(t.types, a, b, t.rows[i], t'.rows[i])
  }

  /** Commit and reopen: saving the strings, saving every table with the width that this yields, and
      loading all of it gives the same tables. */
  method CommitAndReopen(st: StringTable, tables: seq<Table>) returns (st': StringTable?, tables': seq<Table>)
    requires st.Sound() && CodepageKnown(st.codepage) && LengthsFit(st.strings[..]) && AllRestorable(st.strings[..])
    requires forall k :: 0 <= k < |tables| ==> TableOk(tables[k], st.strings[..])
    ensures st' != null && st'.Sound() && |tables'| == |tables|
    ensures forall k :: 0 <= k < |tables| ==> SameTable(st.strings[..], st'.strings[..], tables[k], tables'[k])
  {
    ghost var p := st.Model();
    Reopen(p);
    LoadedCodepage(p);
    var r, width, data, pool := Save(st);
    var width';
    st', width' := LoadTable(pool[..], data[..]);
    tables' := ReopenTables(p, st'.Model(), tables, width');
  }

  method ReopenTables(ghost p: Pool, ghost q: Pool, tables: seq<Table>, width: nat) returns (tables': seq<Table>)
    requires Valid(p) && LoadedUpTo(p, q, |p.slots|) && width == RefWidth(|p.slots|)
    requires forall k :: 0 <= k < |tables| ==> TableOk(tables[k], p.slots)
    ensures |tables'| == |tables|
    ensures forall k :: 0 <= k < |tables| ==> SameTable(p.slots, q.slots, tables[k], tables'[k])
  {
    tables' := [];
    for k := 0 to |tables|
      invariant |tables'| == k && forall j :: 0 <= j < k ==> SameTable(p.slots, q.slots, tables[j], tables'[j])
    {
      var t := ReopenTable(p, q, tables[k], width);
      tables' := tables' + [t];
    }
  }

  /** One table, written and read with the width that fits the strings. */
  method ReopenTable(ghost p: Pool, ghost q: Pool, t: Table, width: nat) returns (t': Table)
    requires Valid(p) && LoadedUpTo(p, q, |p.slots|) && TableOk(t, p.slots) && width == RefWidth(|p.slots|)
    ensures SameTable(p.slots, q.slots, t, t')
  {
    forall i | 0 <= i < |t.rows|
      ensures IdsFit(t.types, width, t.rows[i])
      ensures forall j :: 0 <= j < |t.types| ==> !Rejected(t.types, width, t.rows[i], j)
      ensures SameMeaning(t.types, p.slots, q.slots, t.rows[i], t.rows[i])
    {
      ChosenWidthFits(t.types, p, t.rows, i);
      MeaningKept(t.types, p, q, t.rows, i);
    }
    var rows := SaveAndRead(t.types, width, t.rows);
    t' := Table(t.types, rows);
  }

  lemma SameRowCount(size: nat, a: nat, b: nat)
    requires size > 0 && size * a == size * b
    ensures a == b
  {
    if a < b {
      ProductStep(a, b, size);
    } else if b < a {
      ProductStep(b, a, size);
    }
  }
}
