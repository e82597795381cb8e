/** INSERT: merging literals and parameters into a record, arranging it by column name, and placing the
    row (libmsi/insert.c). */
module Inserts {
  import opened Prelude
  import opened Records
  import opened StringPools
  import opened StringTables
  import opened TableLayout
  import opened TableRows
  import opened TableViews
  import opened KeyedInserts
  import opened FieldMeaning

  // ---------------------------------------------------------------------------------------------
  // Merging
  // ---------------------------------------------------------------------------------------------

  /** Number of `?` among the first n values. */
  function MarkersBefore(vals: seq<Val>, n: nat): nat
    requires n <= |vals|
  {
    if n == 0 then 0 else MarkersBefore(vals, n - 1) + (if vals[n - 1].Marker? then 1 else 0)
  }

  /** The field for value i: a literal, or the next parameter not used so far. */
  function MergedField(vals: seq<Val>, rec: seq<Field>, i: nat): Field
    requires i < |vals|
  {
    match vals[i]
    case StrVal(s) => if s == [] then NullField else StrField(s)
    case IntVal(n) => IntField(n)
    case Marker => FieldAt(rec, MarkersBefore(vals, i))
  }

  /** msi_query_merge_record: None when values run out or a `?` finds no parameter record. */
  method MergeRecord(fields: nat, vals: seq<Val>, rec: Option<seq<Field>>) returns (merged: Option<seq<Field>>)
    ensures merged.None? <==> fields > |vals| || (rec.None? && exists i :: 0 <= i < fields && vals[i].Marker?)
    ensures merged.Some? ==> |merged.value| == fields
    ensures merged.Some? ==> forall i :: 0 <= i < fields ==>
      merged.value[i] == MergedField(vals, if rec.Some? then rec.value else [], i)
  {
    ghost var from := if rec.Some? then rec.value else [];
    var filled := NewRecord(fields);
    var wildcardCount := 1;
    for i := 0 to fields
      invariant i <= |vals| && wildcardCount == 1 + MarkersBefore(vals, i)
      invariant rec.None? ==> forall k :: 0 <= k < i ==> !vals[k].Marker?
      invariant |filled| == fields
      invariant forall k :: 0 <= k < i ==> filled[k] == MergedField(vals, from, k)
      invariant forall k :: i <= k < fields ==> filled[k] == NullField
    {
      if i == |vals| {
        return None;
      }
      match vals[i] {
        case StrVal(s) => filled := filled[i := if s == [] then NullField else StrField(s)];
        case IntVal(n) => filled := filled[i := IntField(n)];
        case Marker =>
          if rec.None? {
            return None;
          }
          var copied := CopyField(rec.value, wildcardCount, filled, i + 1);
          if copied.Some? {
            filled := copied.value;
          }
          wildcardCount := wildcardCount + 1;
      }
    }
    merged := Some(filled);
  }

  // ---------------------------------------------------------------------------------------------
  // Arranging
  // ---------------------------------------------------------------------------------------------

  function ArrangedField(given: seq<Str>, name: Str, values: seq<Field>): Field {
    var k := LastOf(given, name, |given|);
    if k.Some? then FieldAt(values, k.value) else NullField
  }

  ghost predicate DistinctNames(names: seq<Str>) {
    forall i, j :: 0 <= i < j < |names| ==> names[i] != names[j]
  }

  /** msi_arrange_record: every table column gets the value given for its name, and NULL without one. */
  method ArrangeRecord(names: seq<Str>, given: seq<Str>, values: seq<Field>) returns (arranged: seq<Field>)
    requires DistinctNames(names) && |values| == |given|
    ensures |arranged| == |names|
    ensures forall i :: 0 <= i < |names| ==> arranged[i] == ArrangedField(given, names[i], values)
  {
    if |names| == |values| && given == names {
      return values;
    }
    arranged := NewRecord(|names|);
    for k := 0 to |values|
      invariant |arranged| == |names|
      invariant forall i :: 0 <= i < |names| ==>
        arranged[i] == var last := LastOf(given, names[i], k); if last.Some? then values[last.value] else NullField
    {
      var i := 0;
      while i < |names| && given[k] != names[i]
        invariant 0 <= i <= |names| && forall j :: 0 <= j < i ==> given[k] != names[j]
      {
        i := i + 1;
      }
      if i < |names| {
        var copied := CopyField(values, k + 1, arranged, i + 1);
        arranged := copied.value;
      }
    }
  }

  // ---------------------------------------------------------------------------------------------
  // Placing
  // ---------------------------------------------------------------------------------------------

  /** row_has_null_primary_keys. */
  predicate HasNullKey(types: seq<nat>, rec: seq<Field>) {
    exists c :: 0 <= c < |types| && IsKey(types[c]) && IsNullField(rec, c + 1)
  }

  method RowHasNullPrimaryKeys(types: seq<nat>, rec: seq<Field>) returns (found: bool)
    ensures found <==> HasNullKey(types, rec)
  {
    for i := 0 to |types|
      invariant forall c :: 0 <= c < i ==> !(IsKey(types[c]) && IsNullField(rec, c + 1))
    {
      if IsKey(types[i]) && IsNullField(rec, i + 1) {
        return true;
      }
    }
    found := false;
  }

  /** Where INSERT asks for the row: first when a key field is null, by key otherwise. */
  function AskedRow(types: seq<nat>, rec: seq<Field>): Option<nat> {
    if HasNullKey(types, rec) then Some(0) else None
  }

  // ---------------------------------------------------------------------------------------------
  // What the value list means
  // ---------------------------------------------------------------------------------------------

  lemma {:induction false} MarkersAre(vals: seq<Val>, n: nat)
    requires n <= |vals|
    ensures MarkersBefore(vals, n) == Questions(vals, n)
  {
    var marked := set i: nat | i < n && vals[i].Marker?;
    if n > 0 {
      MarkersAre(vals, n - 1);
      QuestionsStep(vals, n);
    } else {
      assert marked == {};
    }
  }

  lemma QuestionsStep(vals: seq<Val>, n: nat)
    requires 0 < n <= |vals|
    ensures Questions(vals, n) == Questions(vals, n - 1) + if vals[n - 1].Marker? then 1 else 0
  {
    var all := set i: nat | i < n && vals[i].Marker?;
    var less := set i: nat | i < n - 1 && vals[i].Marker?;
    assert all == if vals[n - 1].Marker? then less + {n - 1} else less;
  }

  /** A cell that stores a merged field holds the value it was merged from. */
  lemma MergedHolds(t: nat, p: Pool, vals: seq<Val>, params: seq<Field>, k: nat, cell: nat)
    requires Plain(t) && Valid(p) && k < |vals| && ValsOk(vals) && RecordOk(params)
    requires StoresAs(t, p, MergedField(vals, params, k), cell)
    ensures HoldsValue(t, p.slots, cell, vals, k, params)
  {
    MarkersAre(vals, k);
    StoresHolds(t, p, MergedField(vals, params, k), cell);
  }

  lemma MergedRefused(t: nat, vals: seq<Val>, params: seq<Field>, k: nat)
    requires k < |vals|
    ensures Refuses(t, MergedField(vals, params, k)) <==> RefusesValue(t, vals, k, params)
  {
    MarkersAre(vals, k);
  }

  /** What a statement leaves in the columns of its row: the last value given for the column's name, or NULL. */
  ghost predicate HoldsStatement(types: seq<nat>, slots: seq<Slot>, row: seq<nat>, names: seq<Str>, given: seq<Str>,
        vals: seq<Val>, params: seq<Field>)
    requires |vals| == |given| && |row| == |types| == |names|
  {
    && (forall c, k :: 0 <= c < |names| && LastFor(given, names[c], k) ==> HoldsValue(types[c], slots, row[c], vals, k, params))
    && (forall c :: 0 <= c < |names| && names[c] !in given ==> row[c] == 0)
  }

  /** Some column refuses what the statement gives it. */
  ghost predicate RefusesStatement(types: seq<nat>, names: seq<Str>, given: seq<Str>, vals: seq<Val>, params: seq<Field>)
    requires |vals| == |given| && |types| == |names|
  {
    || (exists c, k :: 0 <= c < |names| && LastFor(given, names[c], k) && RefusesValue(types[c], vals, k, params))
    || (exists c :: 0 <= c < |names| && names[c] !in given && Refuses(types[c], NullField))
  }

  lemma NamedIs(given: seq<Str>, vals: seq<Val>, params: seq<Field>, name: Str)
    requires |vals| == |given|
    ensures forall k: nat :: LastFor(given, name, k) ==> NamedField(given, vals, params, name) == MergedField(vals, params, k)
    ensures name !in given ==> NamedField(given, vals, params, name) == NullField
  {
    var last := LastOf(given, name, |given|);
    forall k: nat | LastFor(given, name, k)
      ensures last == Some(k)
    {
    }
  }

  lemma StatementHolds(types: seq<nat>, p: Pool, row: seq<nat>, names: seq<Str>, given: seq<Str>, vals: seq<Val>,
        params: seq<Field>, values: seq<Field>)
    requires PlainTypes(types) && Valid(p) && |vals| == |given| && |types| == |names| == |values|
    requires ValsOk(vals) && RecordOk(params) && StoresRecord(types, p, values, row)
    requires forall c :: 0 <= c < |names| ==> values[c] == NamedField(given, vals, params, names[c])
    ensures HoldsStatement(types, p.slots, row, names, given, vals, params)
  {
    forall c, k | 0 <= c < |names| && LastFor(given, names[c], k)
      ensures HoldsValue(types[c], p.slots, row[c], vals, k, params)
    {
      NamedIs(given, vals, params, names[c]);
      assert StoresAs(types[c], p, FieldAt(values, c), row[c]);
      MergedHolds(types[c], p, vals, params, k, row[c]);
    }
    forall c | 0 <= c < |names| && names[c] !in given
      ensures row[c] == 0
    {
      NamedIs(given, vals, params, names[c]);
      assert StoresAs(types[c], p, FieldAt(values, c), row[c]);
    }
  }

  lemma StatementRefused(types: seq<nat>, names: seq<Str>, given: seq<Str>, vals: seq<Val>, params: seq<Field>,
        values: seq<Field>)
    requires |vals| == |given| && |types| == |names| == |values|
    requires forall c :: 0 <= c < |names| ==> values[c] == NamedField(given, vals, params, names[c])
    ensures RefusesStatement(types, names, given, vals, params) <==>
      exists c :: 0 <= c < |types| && Refuses(types[c], if c < |values| then values[c] else NullField)
  {
    forall c | 0 <= c < |names|
      ensures Refuses(types[c], values[c]) <==>
        if names[c] in given then (exists k :: LastFor(given, names[c], k) && RefusesValue(types[c], vals, k, params))
        else Refuses(types[c], NullField)
    {
      NamedIs(given, vals, params, names[c]);
      var last := LastOf(given, names[c], |given|);
      if last.Some? {
        assert LastFor(given, names[c], last.value);
        MergedRefused(types[c], vals, params, last.value);
      }
    }
  }

  /** insert_view_execute. `values` is the record arranged for the table, None when a `?` has no parameter
      record, which inserts nothing and still reports success; `at` is where the row went. */
  method InsertExecute(tv: TableView, names: seq<Str>, given: seq<Str>, vals: seq<Val>,
        rec: Option<seq<Field>>, temporary: bool)
    returns (r: Status, ghost values: Option<seq<Field>>, ghost at: nat)
    requires tv.Shape() && tv.strings.Sound() && PlainTypes(tv.types)
    requires |names| == |tv.types| && DistinctNames(names) && |vals| == |given|
    requires (rec.Some? ==> RecordOk(rec.value)) && ValsOk(vals)
    modifies tv, tv.strings, tv.strings.strings, tv.strings.sorted
    ensures tv.Shape() && tv.strings.Sound()
    ensures values.None? <==> rec.None? && exists i :: 0 <= i < |vals| && vals[i].Marker?
    ensures values.None? ==> r == Success && tv.Rows() == old(tv.Rows()) && tv.strings.Model() == old(tv.strings.Model())
    ensures values.Some? ==> RecordOk(values.value) && |values.value| == |names|
    ensures values.Some? ==> forall i :: 0 <= i < |names| ==>
      values.value[i] == NamedField(given, vals, if rec.Some? then rec.value else [], names[i])
    ensures at <= |old(tv.data)|
    ensures values.Some? && HasNullKey(tv.types, values.value) ==> at == 0
    ensures values.Some? && !HasNullKey(tv.types, values.value) && (HasKey(tv.types) ==> KeySorted(tv.types, old(tv.Rows()))) ==>
      at == Place(tv.types, old(tv.strings.Model()), old(tv.Rows()), values.value)
    ensures values.Some? ==>
      if Validate(tv.types, old(tv.strings.Model()), old(tv.Rows()), values.value) != Success
      then r == FunctionFailed && tv.Rows() == old(tv.Rows()) && tv.strings.Model() == old(tv.strings.Model())
      else var n := InsertAtRow(tv.types, old(tv.strings.Model()), old(tv.Rows()), values.value, at, tv.tablePersistent && !temporary);
           r == n.status && tv.Rows() == n.rows && tv.strings.Model() == n.pool
    ensures values.Some? && RefusesStatement(tv.types, names, given, vals, if rec.Some? then rec.value else []) ==>
      r == FunctionFailed && tv.Rows() == old(tv.Rows()) && tv.strings.Model() == old(tv.strings.Model())
    ensures values.Some? && r == Success && |tv.strings.Model().slots| <= TWO24 ==>
      (at < |tv.Rows()| &&
       HoldsStatement(tv.types, tv.strings.Model().slots, tv.Rows()[at], names, given, vals, if rec.Some? then rec.value else []))
  {
    var merged := MergeRecord(|given|, vals, rec);
    if merged.None? {
      return Success, None, 0;
    }
    var arranged := ArrangeRecord(names, given, merged.value);
    values := Some(arranged);
    ArrangedOk(names, given, vals, if rec.Some? then rec.value else [], merged.value, arranged);
    var nullKey := RowHasNullPrimaryKeys(tv.types, arranged);
    ghost var p, rows := tv.strings.Model(), tv.Rows();
    r, at := tv.InsertRow(arranged, if nullKey then Some(0) else None, temporary);
    InsertedMeans(tv.types, p, rows, names, given, vals, if rec.Some? then rec.value else [], arranged, at,
                  tv.tablePersistent && !temporary);
  }

  /** What an insertion does, in terms of the value list. */
  lemma InsertedMeans(types: seq<nat>, p: Pool, rows: seq<seq<nat>>, names: seq<Str>, given: seq<Str>, vals: seq<Val>,
        params: seq<Field>, values: seq<Field>, at: nat, persistent: bool)
    requires PlainTypes(types) && Valid(p) && Rectangular(types, rows) && at <= |rows| && RecordOk(values)
    requires |vals| == |given| && |types| == |names| == |values| && ValsOk(vals) && RecordOk(params)
    requires forall c :: 0 <= c < |names| ==> values[c] == NamedField(given, vals, params, names[c])
    ensures RefusesStatement(types, names, given, vals, params) ==> Validate(types, p, rows, values) == InvalidData
    ensures var n := InsertAtRow(types, p, rows, values, at, persistent);
      && at < |n.rows| && |n.rows[at]| == |types|
      && (n.status == Success && |n.pool.slots| <= TWO24 ==>
          HoldsStatement(types, n.pool.slots, n.rows[at], names, given, vals, params))
  {
    StatementRefused(types, names, given, vals, params, values);
    ValidateMissing(types, p, rows, values);
    InsertAtRowEffect(types, p, rows, values, at, persistent);
    var n := InsertAtRow(types, p, rows, values, at, persistent);
    if n.status == Success && |n.pool.slots| <= TWO24 {
      StatementHolds(types, n.pool, n.rows[at], names, given, vals, params, values);
    }
  }

  ghost predicate ValsOk(vals: seq<Val>) {
    forall i :: 0 <= i < |vals| ==>
      match vals[i]
      case StrVal(s) => NulFree(s)
      case IntVal(n) => -TWO31 <= n < TWO31
      case Marker => true
  }

  /** The field that a table column is given. */
  function NamedField(given: seq<Str>, vals: seq<Val>, rec: seq<Field>, name: Str): Field
    requires |vals| == |given|
  {
    var k := LastOf(given, name, |given|);
    if k.Some? then MergedField(vals, rec, k.value) else NullField
  }

  lemma ArrangedOk(names: seq<Str>, given: seq<Str>, vals: seq<Val>, rec: seq<Field>, merged: seq<Field>,
        arranged: seq<Field>)
    requires |vals| == |given| == |merged| && |arranged| == |names| && RecordOk(rec) && ValsOk(vals)
    requires forall i :: 0 <= i < |merged| ==> merged[i] == MergedField(vals, rec, i)
    requires forall i :: 0 <= i < |names| ==> arranged[i] == ArrangedField(given, names[i], merged)
    ensures RecordOk(arranged)
    ensures forall i :: 0 <= i < |names| ==> arranged[i] == NamedField(given, vals, rec, names[i])
  {
  }

  // ---------------------------------------------------------------------------------------------
  // Runs of inserts
  // ---------------------------------------------------------------------------------------------

  /** A string that is the key. */
  const STRING_KEY: nat := MSITYPE_KEY + MSITYPE_VALID + MSITYPE_STRING + 64

  ghost predicate OneKeyColumn(types: seq<nat>, k: nat) {
    k < |types| && IsKey(types[k]) && forall c :: 0 <= c < |types| && c != k ==> !IsKey(types[c])
  }

  /** With one key column the key is that cell. */
  lemma {:induction false} SingleKey(types: seq<nat>, cells: seq<nat>, k: nat, c: nat)
    requires OneKeyColumn(types, k) && |cells| == |types| && c <= |types|
    ensures KeyFrom(types, cells, c) == if c <= k then [cells[k]] else []
    decreases |types| - c
  {
    if c < |types| {
      SingleKey(types, cells, k, c + 1);
    }
  }

  lemma SingleKeyOrder(types: seq<nat>, a: seq<nat>, b: seq<nat>, k: nat)
    requires OneKeyColumn(types, k) && |a| == |b| == |types|
    ensures Lex(KeyOf(types, a), KeyOf(types, b)) < 0 <==> a[k] < b[k]
  {
    SingleKey(types, a, k, 0);
    SingleKey(types, b, k, 0);
  }

  lemma {:induction false} SingleSearchKey(types: seq<nat>, p: Pool, rec: seq<Field>, k: nat, c: nat)
    requires OneKeyColumn(types, k) && c <= |types| && IsNullField(rec, k + 1)
    ensures SearchKeyFrom(types, p, rec, c) == Some(if c <= k then [0] else [])
    decreases |types| - c
  {
    if c < |types| {
      SingleSearchKey(types, p, rec, k, c + 1);
      assert [0] + [] == [0];
    }
  }

  /** The one row whose single key is NULL goes first, and the table stays sorted. */
  lemma NullKeyFirst(types: seq<nat>, p: Pool, rows: seq<seq<nat>>, rec: seq<Field>, k: nat, persistent: bool)
    requires PlainTypes(types) && OneKeyColumn(types, k) && KeySorted(types, rows) && Valid(p) && RecordOk(rec)
    requires IsNullField(rec, k + 1) && KeysFit(types, rec)
    ensures Fits(types, p, rows, rec, Some(0), persistent)
    ensures KeySorted(types, InsertRecord(types, p, rows, rec, Some(0), persistent).rows)
  {
    if Validate(types, p, rows, rec) == Success {
      var row := NewRow(types, p, rows, rec, 0, persistent);
      SingleSearchKey(types, p, rec, k, 0);
      SingleKey(types, row, k, 0);
      assert FitsUpTo(types, rec, k) && KeyOf(types, row) == [0];
      if rows != [] {
        SingleKey(types, rows[0], k, 0);
        assert KeyOf(types, rows[0]) == [rows[0][k]];
      }
    }
    InsertOrder(types, p, rows, rec, Some(0), persistent);
  }

  lemma {:induction false} SingleCompare(types: seq<nat>, p: Pool, cells: seq<nat>, rec: seq<Field>, k: nat, c: nat)
    requires OneKeyColumn(types, k) && |cells| == |types| && c <= |types| && ValueOf(types, p, rec, k).0 != Success
    ensures CompareFrom(types, p, cells, rec, c) == 1
    decreases |types| - c
  {
    if c < |types| && c != k {
      SingleCompare(types, p, cells, rec, k, c + 1);
    }
  }

  /** A single string key that is new to the string table puts the row last, whatever id the string then
      gets; the table stays sorted exactly when that id is above the last row's. With the key in the first
      column it is the free slot that the string table has next. */
  lemma NewKeyLast(types: seq<nat>, p: Pool, rows: seq<seq<nat>>, rec: seq<Field>, k: nat, persistent: bool)
    requires PlainTypes(types) && OneKeyColumn(types, k) && KeySorted(types, rows) && Valid(p) && RecordOk(rec)
    requires ValueOf(types, p, rec, k).0 == NotFound && Validate(types, p, rows, rec) == Success
    ensures var n := InsertRecord(types, p, rows, rec, None, persistent);
      var id := CellLeft(types, p, Stale(types, rows, |rows|), rec, k, persistent);
      && |n.rows| == |rows| + 1 && n.rows[..|rows|] == rows && |n.rows[|rows|]| == |types| && n.rows[|rows|][k] == id
      && (KeySorted(types, n.rows) <==> rows == [] || rows[|rows| - 1][k] < id)
      && (k == 0 && GetStringRaw(rec, 1) != Some([]) ==> id == FindFree(p).1 % TWO24)
  {
    NewKeyPlace(types, p, rows, rec, k);
    LastRow(types, p, rows, rec, persistent);
    if rows != [] {
      SingleKeyOrder(types, rows[|rows| - 1], NewRow(types, p, rows, rec, |rows|, persistent), k);
    }
    if k == 0 && GetStringRaw(rec, 1) != Some([]) {
      FirstNewId(types, p, Stale(types, rows, |rows|), rec, persistent);
    }
  }

  /** A row whose place is the end. */
  lemma LastRow(types: seq<nat>, p: Pool, rows: seq<seq<nat>>, rec: seq<Field>, persistent: bool)
    requires PlainTypes(types) && KeySorted(types, rows) && Valid(p) && RecordOk(rec)
    requires Validate(types, p, rows, rec) == Success && Place(types, p, rows, rec) == |rows|
    ensures var n := InsertRecord(types, p, rows, rec, None, persistent);
      var row := NewRow(types, p, rows, rec, |rows|, persistent);
      && n.rows == rows + [row]
      && (KeySorted(types, n.rows) <==> rows == [] || Lex(KeyOf(types, rows[|rows| - 1]), KeyOf(types, row)) < 0)
  {
    var row := NewRow(types, p, rows, rec, |rows|, persistent);
    InsertLeaves(types, p, rows, rec, None, persistent);
    InsertOrder(types, p, rows, rec, None, persistent);
    assert InsertRowAt(rows, |rows|, row) == rows + [row];
  }

  lemma NewKeyPlace(types: seq<nat>, p: Pool, rows: seq<seq<nat>>, rec: seq<Field>, k: nat)
    requires OneKeyColumn(types, k) && Rectangular(types, rows) && ValueOf(types, p, rec, k).0 != Success
    ensures Place(types, p, rows, rec) == |rows|
  {
    var i := Place(types, p, rows, rec);
    if i < |rows| {
      SingleCompare(types, p, rows[i], rec, k, 0);
      assert false;
    }
  }

  lemma FirstNewId(types: seq<nat>, p: Pool, cells: seq<nat>, rec: seq<Field>, persistent: bool)
    requires |cells| == |types| > 0 && Valid(p) && RecordOk(rec) && PlainTypes(types)
    requires ValueOf(types, p, rec, 0).0 == NotFound && GetStringRaw(rec, 1) != Some([])
    ensures CellLeft(types, p, cells, rec, 0, persistent) == FindFree(p).1 % TWO24
  {
    NothingBelow(types, p, cells, rec, 0, 0, persistent);
    assert Storable(types, rec, 0);
  }

  /** A string table whose first slot is free. */
  function Holed(s: Str): Pool { Pool([FREE, FREE, Slot(1, 0, Some(s))], [2], 1, 0) }

  lemma HoledFacts(s: Str, t: Str)
    requires s != [] && t != [] && s != t && NulFree(s)
    ensures Valid(Holed(s)) && Present(Holed(s), s) && IdOf(Holed(s), s) == 2
    ensures !Present(Holed(s), t) && FindFree(Holed(s)).1 == 1
  {
    assert InUse(Holed(s).slots, 2) && TextOf(Holed(s).slots, 2) == s;
  }

  /** With such a table the new key gets an id below the last row's, and comes last. */
  lemma KeyOrderLost(s: Str, t: Str)
    requires s != [] && t != [] && s != t && NulFree(s) && NulFree(t)
    ensures var types, rec := [STRING_KEY], [StrField(t)];
      && PlainTypes(types) && OneKeyColumn(types, 0) && KeySorted(types, [[2]]) && Valid(Holed(s)) && RecordOk(rec)
      && Validate(types, Holed(s), [[2]], rec) == Success
      && InsertRecord(types, Holed(s), [[2]], rec, None, true).rows == [[2], [1]]
      && !KeySorted(types, [[2], [1]])
  {
    var types, rec := [STRING_KEY], [StrField(t)];
    HoledFacts(s, t);
    assert !LacksValue(types, rec, 0) && SearchKey(types, Holed(s), rec) == None;
    NewKeyLast(types, Holed(s), [[2]], rec, 0, true);
    var more := InsertRecord(types, Holed(s), [[2]], rec, None, true).rows;
    assert more == more[..1] + [more[1]] && more[1] == [1];
  }

  /** A statement whose key is known, or whose table has one key column and whose key is NULL. */
  ghost predicate Keyed(types: seq<nat>, p: Pool, rec: seq<Field>) {
    || (!HasNullKey(types, rec) && RecordKey(types, p, rec).Some?)
    || (exists k: nat :: OneKeyColumn(types, k) && IsNullField(rec, k + 1))
  }

  /** One INSERT on the value model. */
  ghost function Step(types: seq<nat>, p: Pool, rows: seq<seq<nat>>, rec: seq<Field>, persistent: bool): Inserted
    requires Rectangular(types, rows) && Valid(p) && RecordOk(rec) && PlainTypes(types)
  {
    InsertRecord(types, p, rows, rec, AskedRow(types, rec), persistent)
  }

  /** The table is left as it was, or with a key that fits between its neighbours. */
  ghost predicate StepFits(types: seq<nat>, p: Pool, rows: seq<seq<nat>>, rec: seq<Field>, persistent: bool)
    requires Rectangular(types, rows) && Valid(p) && RecordOk(rec) && PlainTypes(types)
  {
    Fits(types, p, rows, rec, AskedRow(types, rec), persistent)
  }

  /** One INSERT of a keyed record, with no misfit before its last key, keeps the table sorted whatever code
      it returns; it adds exactly one row or nothing, and on success the row stores the record. */
  lemma StepKeeps(types: seq<nat>, p: Pool, rows: seq<seq<nat>>, rec: seq<Field>, persistent: bool)
    requires PlainTypes(types) && HasKey(types) && KeySorted(types, rows) && Valid(p) && |p.slots| <= TWO24
    requires RecordOk(rec) && Keyed(types, p, rec) && KeysFit(types, rec)
    ensures StepFits(types, p, rows, rec, persistent)
    ensures var n := Step(types, p, rows, rec, persistent);
      && Valid(n.pool) && KeepsIds(p, n.pool) && KeySorted(types, n.rows)
      && (n.status == Success <==> Validate(types, p, rows, rec) == Success && AllStorable(types, rec))
      && (Validate(types, p, rows, rec) != Success ==> n.rows == rows && n.pool == p)
      && (n.status == Success && |n.pool.slots| <= TWO24 ==> GainsRow(types, n.pool, rows, n.rows, rec))
  {
    if !HasNullKey(types, rec) && RecordKey(types, p, rec).Some? {
      InsertKeyed(types, p, rows, rec, persistent);
    } else {
      var k: nat :| OneKeyColumn(types, k) && IsNullField(rec, k + 1);
      assert HasNullKey(types, rec);
      NullKeyFirst(types, p, rows, rec, k, persistent);
      InsertLeaves(types, p, rows, rec, Some(0), persistent);
      GainedRow(types, p, rows, rec, 0, persistent);
    }
  }

  /** The state after a run of INSERT statements. */
  datatype State = State(pool: Pool, rows: seq<seq<nat>>)

  /** The record of an INSERT, and whether its row and its strings are persistent. */
  datatype Insertion = Insertion(rec: seq<Field>, persistent: bool)

  ghost predicate RecordsOk(run: seq<Insertion>) { forall i :: 0 <= i < |run| ==> RecordOk(run[i].rec) }

  ghost predicate StateOk(types: seq<nat>, s: State) { Rectangular(types, s.rows) && Valid(s.pool) && PlainTypes(types) }

  ghost function After(types: seq<nat>, s: State, e: Insertion): (s': State)
    requires StateOk(types, s) && RecordOk(e.rec)
    ensures StateOk(types, s') && KeepsIds(s.pool, s'.pool)
    ensures |s'.rows| == |s.rows| + if Validate(types, s.pool, s.rows, e.rec) == Success then 1 else 0
  {
    InsertLeaves(types, s.pool, s.rows, e.rec, AskedRow(types, e.rec), e.persistent);
    var n := Step(types, s.pool, s.rows, e.rec, e.persistent);
    State(n.pool, n.rows)
  }

  /** Any run of INSERT statements, and how many of them passed validation. */
  ghost function Run(types: seq<nat>, s: State, run: seq<Insertion>): (result: (State, nat))
    requires StateOk(types, s) && RecordsOk(run)
    ensures StateOk(types, result.0) && KeepsIds(s.pool, result.0.pool)
    ensures |result.0.rows| == |s.rows| + result.1
    decreases |run|
  {
    if run == [] then (s, 0)
    else
      var (last, valid) := Run(types, After(types, s, run[0]), run[1..]);
      (last, valid + if Validate(types, s.pool, s.rows, run[0].rec) == Success then 1 else 0)
  }

  /** Every key that the run leaves fits where it is put. */
  ghost predicate RunFits(types: seq<nat>, s: State, run: seq<Insertion>)
    requires StateOk(types, s) && RecordsOk(run)
    decreases |run|
  {
    run != [] ==>
      && StepFits(types, s.pool, s.rows, run[0].rec, run[0].persistent)
      && RunFits(types, After(types, s, run[0]), run[1..])
  }

  /** A run leaves a sorted table sorted exactly when every key fits where it is put: order that is lost never
      comes back. */
  lemma {:induction false} RunSorted(types: seq<nat>, s: State, run: seq<Insertion>)
    requires StateOk(types, s) && RecordsOk(run) && KeySorted(types, s.rows)
    ensures KeySorted(types, Run(types, s, run).0.rows) <==> RunFits(types, s, run)
    decreases |run|
  {
    if run != [] {
      var next := After(types, s, run[0]);
      InsertOrder(types, s.pool, s.rows, run[0].rec, AskedRow(types, run[0].rec), run[0].persistent);
      if KeySorted(types, next.rows) {
        RunSorted(types, next, run[1..]);
      } else {
        RunUnsorted(types, next, run[1..]);
      }
    }
  }

  lemma {:induction false} RunUnsorted(types: seq<nat>, s: State, run: seq<Insertion>)
    requires StateOk(types, s) && RecordsOk(run) && !KeySorted(types, s.rows)
    ensures !KeySorted(types, Run(types, s, run).0.rows)
    decreases |run|
  {
    if run != [] {
      var next := After(types, s, run[0]);
      InsertLeaves(types, s.pool, s.rows, run[0].rec, AskedRow(types, run[0].rec), run[0].persistent);
      if Validate(types, s.pool, s.rows, run[0].rec) == Success {
        var i := PlaceFor(types, s.pool, s.rows, run[0].rec, AskedRow(types, run[0].rec));
        StaysUnsorted(types, s.rows, i, NewRow(types, s.pool, s.rows, run[0].rec, i, run[0].persistent));
      }
      RunUnsorted(types, next, run[1..]);
    }
  }

  lemma StaysUnsorted(types: seq<nat>, rows: seq<seq<nat>>, i: nat, row: seq<nat>)
    requires Rectangular(types, rows) && i <= |rows| && |row| == |types| && !KeySorted(types, rows)
    ensures !KeySorted(types, InsertRowAt(rows, i, row))
  {
    var a, b :| 0 <= a < b < |rows| && Lex(KeyOf(types, rows[a]), KeyOf(types, rows[b])) >= 0;
    var more := InsertRowAt(rows, i, row);
    assert more[if a < i then a else a + 1] == rows[a] && more[if b < i then b else b + 1] == rows[b];
  }

  /** What a caller can check of each statement when its turn comes: the key is known, or NULL and alone, and
      no integer before it is too large. */
  ghost predicate RunKeyed(types: seq<nat>, s: State, run: seq<Insertion>)
    requires StateOk(types, s) && RecordsOk(run)
    decreases |run|
  {
    run != [] ==>
      && Keyed(types, s.pool, run[0].rec) && KeysFit(types, run[0].rec) && |s.pool.slots| <= TWO24
      && RunKeyed(types, After(types, s, run[0]), run[1..])
  }

  /** That is enough to keep the table strictly sorted. */
  lemma {:induction false} RunKeyedSorted(types: seq<nat>, s: State, run: seq<Insertion>)
    requires StateOk(types, s) && HasKey(types) && KeySorted(types, s.rows) && RecordsOk(run) && RunKeyed(types, s, run)
    ensures RunFits(types, s, run) && KeySorted(types, Run(types, s, run).0.rows)
    decreases |run|
  {
    if run != [] {
      StepKeeps(types, s.pool, s.rows, run[0].rec, run[0].persistent);
      RunKeyedSorted(types, After(types, s, run[0]), run[1..]);
    }
  }

  /** Sorted by key means found by key: two rows of a table that any such run leaves never share one. */
  lemma RunKeysUnique(types: seq<nat>, s: State, run: seq<Insertion>, i: nat, j: nat)
    requires StateOk(types, s) && KeySorted(types, s.rows) && RecordsOk(run) && RunFits(types, s, run)
    requires i < |Run(types, s, run).0.rows| && j < |Run(types, s, run).0.rows|
    ensures var rows := Run(types, s, run).0.rows;
      KeyOf(types, rows[i]) == KeyOf(types, rows[j]) <==> i == j
  {
    var rows := Run(types, s, run).0.rows;
    RunSorted(types, s, run);
    LexZero(KeyOf(types, rows[i]), KeyOf(types, rows[j]));
    LexZero(KeyOf(types, rows[j]), KeyOf(types, rows[i]));
  }

  // ---------------------------------------------------------------------------------------------
  // NULL in columns that do not take it
  // ---------------------------------------------------------------------------------------------

  /** A column without bit 12. */
  predicate NotNull(t: nat) { (t / 0x1000) % 2 == 0 }

  ghost predicate NoNulls(types: seq<nat>, cells: seq<nat>) {
    |cells| == |types| && forall c :: 0 <= c < |types| && NotNull(types[c]) ==> cells[c] != 0
  }

  ghost predicate TableNoNulls(types: seq<nat>, rows: seq<seq<nat>>) {
    forall i :: 0 <= i < |rows| ==> NoNulls(types, rows[i])
  }

  /** A valid record can still leave 0 in such a column: as -32768 in a 16-bit column, or at the end of the
      table behind an integer that does not fit. */
  ghost predicate LeavesNull(types: seq<nat>, rec: seq<Field>, c: nat, atEnd: bool)
    requires c < |types|
  {
    if FitsUpTo(types, rec, c) then !TextType(types[c]) && types[c] % 0x100 == 2 && IntegerIn(FieldAt(rec, c)) == Some(-0x8000)
    else atEnd
  }

  /** Cell c of the row that a valid record leaves. */
  lemma CellNotNull(types: seq<nat>, q: Pool, rec: seq<Field>, c: nat, cell: nat)
    requires c < |types| && PlainTypes(types) && Valid(q) && RecordOk(rec) && NotNull(types[c])
    requires !Refuses(types[c], FieldAt(rec, c)) && StoresAs(types[c], q, FieldAt(rec, c), cell)
    ensures cell == 0 <==>
      !TextType(types[c]) && types[c] % 0x100 == 2 && IntegerIn(FieldAt(rec, c)) == Some(-0x8000)
  {
    assert Plain(types[c]);
    StoresHolds(types[c], q, FieldAt(rec, c), cell);
  }

  /** One INSERT keeps NULL out of the columns that do not take it, with these exceptions and no other. */
  lemma StepNoNulls(types: seq<nat>, p: Pool, rows: seq<seq<nat>>, rec: seq<Field>, persistent: bool)
    requires Rectangular(types, rows) && Valid(p) && RecordOk(rec) && PlainTypes(types) && TableNoNulls(types, rows)
    requires |Step(types, p, rows, rec, persistent).pool.slots| <= TWO24
    ensures var n := Step(types, p, rows, rec, persistent);
      var i := PlaceFor(types, p, rows, rec, AskedRow(types, rec));
      TableNoNulls(types, n.rows) <==>
        (Validate(types, p, rows, rec) == Success ==>
          forall c :: 0 <= c < |types| && NotNull(types[c]) ==> !LeavesNull(types, rec, c, i == |rows|))
  {
    InsertLeaves(types, p, rows, rec, AskedRow(types, rec), persistent);
    if Validate(types, p, rows, rec) == Success {
      var i := PlaceFor(types, p, rows, rec, AskedRow(types, rec));
      var row := NewRow(types, p, rows, rec, i, persistent);
      RowNoNulls(types, p, rows, rec, i, persistent);
      OneMoreRow(types, rows, i, row);
    }
  }

  lemma OneMoreRow(types: seq<nat>, rows: seq<seq<nat>>, i: nat, row: seq<nat>)
    requires i <= |rows| && TableNoNulls(types, rows)
    ensures TableNoNulls(types, InsertRowAt(rows, i, row)) <==> NoNulls(types, row)
  {
    assert InsertRowAt(rows, i, row)[i] == row;
  }

  lemma RowNoNulls(types: seq<nat>, p: Pool, rows: seq<seq<nat>>, rec: seq<Field>, i: nat, persistent: bool)
    requires Rectangular(types, rows) && Valid(p) && RecordOk(rec) && PlainTypes(types) && i <= |rows|
    requires TableNoNulls(types, rows) && Validate(types, p, rows, rec) == Success
    requires |InsertAtRow(types, p, rows, rec, i, persistent).pool.slots| <= TWO24
    ensures NoNulls(types, NewRow(types, p, rows, rec, i, persistent)) <==>
      forall c :: 0 <= c < |types| && NotNull(types[c]) ==> !LeavesNull(types, rec, c, i == |rows|)
  {
    var cells, row := Stale(types, rows, i), NewRow(types, p, rows, rec, i, persistent);
    RowLeftIs(types, p, cells, rec, persistent);
    SetRowStores(types, p, cells, rec, AllColumns(types), 0, persistent);
    ValidateMissing(types, p, rows, rec);
    forall c | 0 <= c < |types| && NotNull(types[c])
      ensures row[c] == 0 <==> LeavesNull(types, rec, c, i == |rows|)
    {
      if FitsUpTo(types, rec, c) {
        var q := InsertAtRow(types, p, rows, rec, i, persistent).pool;
        assert types[c] >= 0 && c in AllColumns(types) && FitsBetween(types, rec, AllColumns(types), 0, c);
        CellNotNull(types, q, rec, c, row[c]);
      }
    }
  }

  /** No step of the run leaves a NULL where none is taken. */
  ghost predicate RunWithoutNulls(types: seq<nat>, s: State, run: seq<Insertion>)
    requires StateOk(types, s) && RecordsOk(run)
    decreases |run|
  {
    run != [] ==>
      && |After(types, s, run[0]).pool.slots| <= TWO24
      && (Validate(types, s.pool, s.rows, run[0].rec) == Success ==>
           var i := PlaceFor(types, s.pool, s.rows, run[0].rec, AskedRow(types, run[0].rec));
           forall c :: 0 <= c < |types| && NotNull(types[c]) ==> !LeavesNull(types, run[0].rec, c, i == |s.rows|))
      && RunWithoutNulls(types, After(types, s, run[0]), run[1..])
  }

  /** Over such a run no column that does not take NULL ever holds it. */
  lemma {:induction false} RunNoNulls(types: seq<nat>, s: State, run: seq<Insertion>)
    requires StateOk(types, s) && RecordsOk(run) && TableNoNulls(types, s.rows) && RunWithoutNulls(types, s, run)
    ensures TableNoNulls(types, Run(types, s, run).0.rows)
    decreases |run|
  {
    if run != [] {
      StepNoNulls(types, s.pool, s.rows, run[0].rec, run[0].persistent);
      RunNoNulls(types, After(types, s, run[0]), run[1..]);
    }
  }

  // ---------------------------------------------------------------------------------------------
  // A refused insert that is not undone
  // ---------------------------------------------------------------------------------------------

  /** An insert that passes validation with an integer out of range reports failure, and its row stays: the
      fields before the first such integer, and behind it the cells of the row that was at its place. */
  lemma FailedInsertStays(types: seq<nat>, p: Pool, rows: seq<seq<nat>>, rec: seq<Field>, persistent: bool)
    requires PlainTypes(types) && Rectangular(types, rows) && Valid(p) && RecordOk(rec)
    requires Validate(types, p, rows, rec) == Success
    ensures var n := Step(types, p, rows, rec, persistent);
      var i := PlaceFor(types, p, rows, rec, AskedRow(types, rec));
      var row := NewRow(types, p, rows, rec, i, persistent);
      && (n.status != Success <==> !AllStorable(types, rec))
      && n.rows == InsertRowAt(rows, i, row)
      && forall c :: 0 <= c < |types| && !FitsUpTo(types, rec, c) ==> row[c] == if i < |rows| then rows[i][c] else 0
  {
    InsertLeaves(types, p, rows, rec, AskedRow(types, rec), persistent);
  }

  /** Behind a first integer that does not fit, nothing is written. */
  lemma NothingWritten(types: seq<nat>, p: Pool, cells: seq<nat>, rec: seq<Field>, persistent: bool)
    requires |cells| == |types| > 0 && Valid(p) && RecordOk(rec) && PlainTypes(types) && !Storable(types, rec, 0)
    ensures RowLeft(types, p, cells, rec, persistent) == cells
  {
    assert forall c :: 0 <= c < |types| ==> !FitsUpTo(types, rec, c);
  }

  /** A 16-bit integer, and a 16-bit key. */
  const LATE_KEY: seq<nat> := [MSITYPE_VALID + 2, MSITYPE_KEY + MSITYPE_VALID + 2]

  const FIVE: seq<seq<nat>> := [[0x8001, 0x8005]]

  /** (40000, 3) in front of (1, 5): the statement fails, and leaves a second copy of the row. */
  lemma CopyStays(p: Pool, persistent: bool)
    requires Valid(p)
    ensures var rec := [IntField(40000), IntField(3)];
      && PlainTypes(LATE_KEY) && HasKey(LATE_KEY) && RecordOk(rec) && KeySorted(LATE_KEY, FIVE)
      && Validate(LATE_KEY, p, FIVE, rec) == Success && RecordKey(LATE_KEY, p, rec).Some?
      && Step(LATE_KEY, p, FIVE, rec, persistent).status == FunctionFailed
      && Step(LATE_KEY, p, FIVE, rec, persistent).rows == [FIVE[0], FIVE[0]]
      && !StepFits(LATE_KEY, p, FIVE, rec, persistent)
  {
    LateKey(p);
    CopyLeft(LATE_KEY, p, [IntField(40000), IntField(3)], persistent);
  }

  lemma CopyLeft(types: seq<nat>, p: Pool, rec: seq<Field>, persistent: bool)
    requires |types| == 2 && PlainTypes(types) && Valid(p) && RecordOk(rec) && !Storable(types, rec, 0)
    requires AskedRow(types, rec) == None && Validate(types, p, FIVE, rec) == Success && Place(types, p, FIVE, rec) == 0
    ensures Step(types, p, FIVE, rec, persistent).status == FunctionFailed
    ensures Step(types, p, FIVE, rec, persistent).rows == [FIVE[0], FIVE[0]]
    ensures !StepFits(types, p, FIVE, rec, persistent)
  {
    InsertLeaves(types, p, FIVE, rec, None, persistent);
    NothingWritten(types, p, FIVE[0], rec, persistent);
    LexZero(KeyOf(types, FIVE[0]), KeyOf(types, FIVE[0]));
  }

  lemma LateKey(p: Pool)
    requires Valid(p)
    ensures var rec := [IntField(40000), IntField(3)];
      && PlainTypes(LATE_KEY) && IsKey(LATE_KEY[1]) && !Storable(LATE_KEY, rec, 0)
      && RecordKey(LATE_KEY, p, rec) == Some([0x8003]) && AskedRow(LATE_KEY, rec) == None
      && Validate(LATE_KEY, p, FIVE, rec) == Success && Place(LATE_KEY, p, FIVE, rec) == 0
  {
    var types, rec := LATE_KEY, [IntField(40000), IntField(3)];
    assert !IsKey(types[0]) && IsKey(types[1]);
    assert ValueOf(types, p, rec, 1) == (Success, 0x8003);
    assert [0x8003] + [] == [0x8003] && [0x8005] + [] == [0x8005];
    assert RecordKeyFrom(types, p, rec, 2) == Some([]) && RecordKeyFrom(types, p, rec, 1) == Some([0x8003]);
    assert KeyFrom(types, FIVE[0], 2) == [] && KeyFrom(types, FIVE[0], 1) == [0x8005];
    SearchKeyAgrees(types, p, rec, 0);
    assert !LacksValue(types, rec, 0) && !LacksValue(types, rec, 1);
    assert CompareFrom(types, p, FIVE[0], rec, 1) == -1;
  }

  /** 40000 into an empty table with a 16-bit key: the code is a failure, and a row with the key 0, which
      reads as NULL, is in the table. */
  lemma OutOfRangeStays(p: Pool, persistent: bool)
    requires Valid(p)
    ensures var types, rec := [MSITYPE_KEY + MSITYPE_VALID + 2], [IntField(40000)];
      && PlainTypes(types) && RecordOk(rec) && Validate(types, p, [], rec) == Success
      && Step(types, p, [], rec, persistent) == Inserted(FunctionFailed, p, [[0]])
  {
    var types, rec := [MSITYPE_KEY + MSITYPE_VALID + 2], [IntField(40000)];
    var w := SetColumn(types, p, [0], rec, 0, persistent);
    assert w == Written(FunctionFailed, p, [0]);
    assert types[0] > 0 && 0 in AllColumns(types);
    assert Stale(types, [], 0) == [0];
    assert SetRowFrom(types, p, [0], rec, AllColumns(types), 0, persistent) == w;
    assert !LacksValue(types, rec, 0) && AskedRow(types, rec) == None;
  }
}
