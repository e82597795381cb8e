/** Rows of a table as sequences of stored cells: values taken from records, key comparison, and what
    inserting and updating rows does (libmsi/table.c). */
module TableRows {
  import opened Prelude
  import opened Records
  import opened LittleEndian
  import opened StringPools
  import opened TableLayout
  import opened FieldMeaning

  /** A cell is a string id, a 16-bit or a 32-bit integer. OBJECT columns are not part of this model. */
  predicate Plain(t: nat) {
    !IsBinary(t) && (IsString(t) || t % 0x100 == 2 || t % 0x100 == 4)
  }

  predicate PlainTypes(types: seq<nat>) { forall c :: 0 <= c < |types| ==> Plain(types[c]) }

  function CellLimit(t: nat): nat { if IsString(t) then TWO24 else if t % 0x100 == 2 then TWO16 else TWO32 }

  lemma CellLimitIs(t: nat)
    requires Plain(t)
    ensures CellLimit(t) == Limit(t)
  {
  }

  // ---------------------------------------------------------------------------------------------
  // Values from records
  // ---------------------------------------------------------------------------------------------

  /** The stored form of an integer: biased so that 0 is left for NULL. */
  function Biased(t: nat, i: int): nat {
    if t % 0x100 == 2 then (0x8000 + i) % TWO32 else (i + TWO31) % TWO32
  }

  /** get_table_value_from_record for column c (0-based). */
  ghost function ValueOf(types: seq<nat>, p: Pool, rec: seq<Field>, c: nat): (Status, nat)
    requires c < |types|
  {
    if IsNullField(rec, c + 1) then (FunctionFailed, 0)
    else if IsBinary(types[c]) then (Success, 1)
    else if IsString(types[c]) then
      var s := GetStringRaw(rec, c + 1);
      if s.None? then (Success, 0)
      else if Present(p, s.value) then (Success, IdOf(p, s.value))
      else (NotFound, 0)
    else
      var v := Biased(types[c], GetInt(rec, c + 1));
      if types[c] % 0x100 == 2 && v >= TWO16 then (FunctionFailed, v) else (Success, v)
  }

  /** What a field means when it is stored: NULL and unset values are 0, a string is its id. */
  ghost predicate StoresAs(t: nat, p: Pool, f: Field, cell: nat) {
    match f
    case NullField => cell == 0
    case IntField(i) => if IsString(t) then cell == 0 else cell == Biased(t, i) && cell < CellLimit(t)
    case StrField(s) =>
      if IsString(t) then TextOf(p.slots, cell) == s && (s == [] <==> cell == 0)
      else cell == Biased(t, GetInt([f], 1)) && cell < CellLimit(t)
  }

  // ---------------------------------------------------------------------------------------------
  // Keys
  // ---------------------------------------------------------------------------------------------

  /** The key cells of columns c, c+1, ... of a row. */
  function KeyFrom(types: seq<nat>, cells: seq<nat>, c: nat): seq<nat>
    requires |cells| == |types| && c <= |types|
    decreases |types| - c
  {
    if c == |types| then []
    else if IsKey(types[c]) then [cells[c]] + KeyFrom(types, cells, c + 1)
    else KeyFrom(types, cells, c + 1)
  }

  function KeyOf(types: seq<nat>, cells: seq<nat>): seq<nat>
    requires |cells| == |types|
  {
    KeyFrom(types, cells, 0)
  }

  /** The key that a record asks for; None when some key value is NULL, unknown or out of range. */
  ghost function RecordKeyFrom(types: seq<nat>, p: Pool, rec: seq<Field>, c: nat): Option<seq<nat>>
    requires c <= |types|
    decreases |types| - c
  {
    if c == |types| then Some([])
    else
      var rest := RecordKeyFrom(types, p, rec, c + 1);
      if !IsKey(types[c]) then rest
      else
        var (r, v) := ValueOf(types, p, rec, c);
        if r != Success || rest.None? then None else Some([v] + rest.value)
  }

  ghost function RecordKey(types: seq<nat>, p: Pool, rec: seq<Field>): Option<seq<nat>> {
    RecordKeyFrom(types, p, rec, 0)
  }

  predicate HasKey(types: seq<nat>) { exists c :: 0 <= c < |types| && IsKey(types[c]) }

  /** compare_record from column c on: the record against a row. */
  ghost function CompareFrom(types: seq<nat>, p: Pool, cells: seq<nat>, rec: seq<Field>, c: nat): int
    requires |cells| == |types| && c <= |types|
    decreases |types| - c
  {
    if c == |types| then 1
    else if !IsKey(types[c]) then CompareFrom(types, p, cells, rec, c + 1)
    else
      var (r, v) := ValueOf(types, p, rec, c);
      if r != Success then 1
      else if v > cells[c] then 1
      else if v < cells[c] then -1
      else if c < |types| - 1 then CompareFrom(types, p, cells, rec, c + 1)
      else 0
  }

  /** The key that a record is compared by: an unknown value is above every cell and ends it. */
  ghost function ProbeFrom(types: seq<nat>, p: Pool, rec: seq<Field>, c: nat): seq<nat>
    requires c <= |types|
    decreases |types| - c
  {
    if c == |types| then []
    else if !IsKey(types[c]) then ProbeFrom(types, p, rec, c + 1)
    else
      var (r, v) := ValueOf(types, p, rec, c);
      if r != Success then [TWO32] else [v] + ProbeFrom(types, p, rec, c + 1)
  }

  /** compare_record orders a record against a row with another key as the keys are ordered. */
  lemma {:induction false} CompareIsLex(types: seq<nat>, p: Pool, cells: seq<nat>, rec: seq<Field>, c: nat)
    requires |cells| == |types| && c <= |types|
    requires RecordKeyFrom(types, p, rec, c).Some? || Words(cells)
    ensures var probe, key := ProbeFrom(types, p, rec, c), KeyFrom(types, cells, c);
      && (probe != key ==> CompareFrom(types, p, cells, rec, c) == Lex(probe, key))
      && (probe == key ==> CompareFrom(types, p, cells, rec, c) >= 0)
      && (if RecordKeyFrom(types, p, rec, c).Some? then probe == RecordKeyFrom(types, p, rec, c).value else probe != key)
    decreases |types| - c
  {
    if c < |types| {
      if !IsKey(types[c]) || ValueOf(types, p, rec, c).0 == Success {
        CompareIsLex(types, p, cells, rec, c + 1);
      }
      if IsKey(types[c]) && ValueOf(types, p, rec, c).0 == Success {
        var probe, key := ProbeFrom(types, p, rec, c), KeyFrom(types, cells, c);
        assert probe[1..] == ProbeFrom(types, p, rec, c + 1);
        assert key[1..] == KeyFrom(types, cells, c + 1);
      }
    }
  }

  /** Cells are at most four bytes wide. */
  ghost predicate Words(cells: seq<nat>) { forall c :: 0 <= c < |cells| ==> cells[c] < TWO32 }

  // ---------------------------------------------------------------------------------------------
  // Sorted tables
  // ---------------------------------------------------------------------------------------------

  ghost predicate Rectangular(types: seq<nat>, rows: seq<seq<nat>>) {
    forall i :: 0 <= i < |rows| ==> |rows[i]| == |types|
  }

  /** Strictly increasing by key, hence no two rows share one. */
  ghost predicate KeySorted(types: seq<nat>, rows: seq<seq<nat>>) {
    && Rectangular(types, rows)
    && forall i, j :: 0 <= i < j < |rows| ==> Lex(KeyOf(types, rows[i]), KeyOf(types, rows[j])) < 0
  }

  function SetCell(rows: seq<seq<nat>>, row: nat, c: nat, v: nat): (rows': seq<seq<nat>>)
    requires row < |rows| && c < |rows[row]|
  {
    var cells: seq<nat> := rows[row][c := v];
    rows[row := cells]
  }

  function InsertRowAt(rows: seq<seq<nat>>, i: nat, row: seq<nat>): seq<seq<nat>>
    requires i <= |rows|
  {
    rows[..i] + [row] + rows[i..]
  }

  /** A row keeps the table sorted exactly where its key fits between its neighbours. */
  lemma InsertSorted(types: seq<nat>, rows: seq<seq<nat>>, i: nat, row: seq<nat>)
    requires KeySorted(types, rows) && i <= |rows| && |row| == |types|
    ensures KeySorted(types, InsertRowAt(rows, i, row)) <==>
      && (i > 0 ==> Lex(KeyOf(types, rows[i - 1]), KeyOf(types, row)) < 0)
      && (i < |rows| ==> Lex(KeyOf(types, row), KeyOf(types, rows[i])) < 0)
  {
    var more := InsertRowAt(rows, i, row);
    if && (i > 0 ==> Lex(KeyOf(types, rows[i - 1]), KeyOf(types, row)) < 0)
       && (i < |rows| ==> Lex(KeyOf(types, row), KeyOf(types, rows[i])) < 0) {
      FittingSorted(types, rows, i, row);
    } else if i > 0 && !(Lex(KeyOf(types, rows[i - 1]), KeyOf(types, row)) < 0) {
      assert more[i - 1] == rows[i - 1] && more[i] == row;
    } else {
      assert more[i + 1] == rows[i] && more[i] == row;
    }
  }

  lemma FittingSorted(types: seq<nat>, rows: seq<seq<nat>>, i: nat, row: seq<nat>)
    requires KeySorted(types, rows) && i <= |rows| && |row| == |types|
    requires i > 0 ==> Lex(KeyOf(types, rows[i - 1]), KeyOf(types, row)) < 0
    requires i < |rows| ==> Lex(KeyOf(types, row), KeyOf(types, rows[i])) < 0
    ensures KeySorted(types, InsertRowAt(rows, i, row))
  {
    var more, k := InsertRowAt(rows, i, row), KeyOf(types, row);
    assert forall a :: 0 <= a < i ==> more[a] == rows[a];
    assert more[i] == row;
    assert forall a :: i < a < |more| ==> more[a] == rows[a - 1];
    forall a, b | 0 <= a < b < |more|
      ensures Lex(KeyOf(types, more[a]), KeyOf(types, more[b])) < 0
    {
      if b == i && a < i - 1 {
        LexTransitive(KeyOf(types, rows[a]), KeyOf(types, rows[i - 1]), k);
      } else if a == i && b > i + 1 {
        LexTransitive(k, KeyOf(types, rows[i]), KeyOf(types, rows[b - 1]));
      }
    }
  }

  // ---------------------------------------------------------------------------------------------
  // Duplicate detection
  // ---------------------------------------------------------------------------------------------

  /** The value that msi_record_to_row looks key column c up by. */
  ghost function SearchValue(types: seq<nat>, p: Pool, rec: seq<Field>, c: nat): Option<nat>
    requires c < |types|
  {
    if IsString(types[c]) && !IsBinary(types[c]) then
      var s := GetStringRaw(rec, c + 1);
      if s.None? then Some(0) else if Present(p, s.value) then Some(IdOf(p, s.value)) else None
    else
      var i := GetInt(rec, c + 1);
      Some(if i == NULL_INT then 0 else if types[c] % 0x100 == 2 then (i + 0x8000) % TWO32 else (i + TWO31) % TWO32)
  }

  /** msi_record_to_row from column c on; None when a key string is not in the string table. */
  ghost function SearchKeyFrom(types: seq<nat>, p: Pool, rec: seq<Field>, c: nat): Option<seq<nat>>
    requires c <= |types|
    decreases |types| - c
  {
    if c == |types| then Some([])
    else
      var rest := SearchKeyFrom(types, p, rec, c + 1);
      if !IsKey(types[c]) then rest
      else
        var v := SearchValue(types, p, rec, c);
        if rest.None? || v.None? then None else Some([v.value] + rest.value)
  }

  ghost function SearchKey(types: seq<nat>, p: Pool, rec: seq<Field>): Option<seq<nat>> {
    SearchKeyFrom(types, p, rec, 0)
  }

  /** msi_table_find_row finds a row: some row has the key that the record is looked up by. */
  ghost predicate KeyTaken(types: seq<nat>, p: Pool, rows: seq<seq<nat>>, rec: seq<Field>)
    requires Rectangular(types, rows)
  {
    && HasKey(types) && SearchKey(types, p, rec).Some?
    && exists i :: 0 <= i < |rows| && KeyOf(types, rows[i]) == SearchKey(types, p, rec).value
  }

  /** Looking a record up and comparing it use the same key. */
  lemma {:induction false} SearchKeyAgrees(types: seq<nat>, p: Pool, rec: seq<Field>, c: nat)
    requires PlainTypes(types) && c <= |types| && RecordKeyFrom(types, p, rec, c).Some?
    ensures SearchKeyFrom(types, p, rec, c) == RecordKeyFrom(types, p, rec, c)
    decreases |types| - c
  {
    if c < |types| {
      SearchKeyAgrees(types, p, rec, c + 1);
    }
  }

  /** The search key, column by column. */
  lemma {:induction false} SearchKeyColumns(types: seq<nat>, p: Pool, rec: seq<Field>, cells: seq<nat>, c: nat)
    requires c <= |types| && |cells| == |types|
    ensures (forall d :: c <= d < |types| && IsKey(types[d]) ==> SearchValue(types, p, rec, d) == Some(cells[d])) ==>
      SearchKeyFrom(types, p, rec, c) == Some(KeyFrom(types, cells, c))
    ensures (exists d :: c <= d < |types| && IsKey(types[d]) && SearchValue(types, p, rec, d) == None) ==>
      SearchKeyFrom(types, p, rec, c) == None
    decreases |types| - c
  {
    if c < |types| {
      SearchKeyColumns(types, p, rec, cells, c + 1);
      assert IsKey(types[c]) && SearchValue(types, p, rec, c) == None ==> SearchKeyFrom(types, p, rec, c) == None;
    }
  }

  /** Keys are equal exactly when their columns are. */
  lemma {:induction false} KeyColumns(types: seq<nat>, a: seq<nat>, b: seq<nat>, c: nat)
    requires c <= |types| && |a| == |b| == |types|
    ensures KeyFrom(types, a, c) == KeyFrom(types, b, c) <==>
      forall d :: c <= d < |types| && IsKey(types[d]) ==> a[d] == b[d]
    ensures |KeyFrom(types, a, c)| == |KeyFrom(types, b, c)|
    decreases |types| - c
  {
    if c < |types| {
      KeyColumns(types, a, b, c + 1);
      if IsKey(types[c]) {
        var ka, kb := KeyFrom(types, a, c), KeyFrom(types, b, c);
        assert ka[0] == a[c] && kb[0] == b[c];
        assert ka[1..] == KeyFrom(types, a, c + 1) && kb[1..] == KeyFrom(types, b, c + 1);
      }
    }
  }

  /** table_validate_new's first half: a NULL where the column does not take one. */
  predicate LacksValue(types: seq<nat>, rec: seq<Field>, c: nat)
    requires c < |types|
  {
    !IsNullable(types[c]) && !IsBinary(types[c]) &&
    if IsString(types[c]) then
      var s := GetStringRaw(rec, c + 1);
      s.None? || s.value == []
    else GetInt(rec, c + 1) == NULL_INT
  }

  lemma LacksIs(types: seq<nat>, rec: seq<Field>, c: nat)
    requires c < |types|
    ensures LacksValue(types, rec, c) <==> Refuses(types[c], if c < |rec| then rec[c] else NullField)
  {
  }

  /** Validation reports a missing value exactly when some column refuses the field it is given. */
  lemma ValidateMissing(types: seq<nat>, p: Pool, rows: seq<seq<nat>>, rec: seq<Field>)
    requires Rectangular(types, rows)
    ensures Validate(types, p, rows, rec) == InvalidData <==>
      exists c :: 0 <= c < |types| && Refuses(types[c], if c < |rec| then rec[c] else NullField)
  {
    forall c | 0 <= c < |types|
      ensures LacksValue(types, rec, c) <==> Refuses(types[c], if c < |rec| then rec[c] else NullField)
    {
      LacksIs(types, rec, c);
    }
  }

  /** table_validate_new. */
  ghost function Validate(types: seq<nat>, p: Pool, rows: seq<seq<nat>>, rec: seq<Field>): Status
    requires Rectangular(types, rows)
  {
    if exists c :: 0 <= c < |types| && LacksValue(types, rec, c) then InvalidData
    else if KeyTaken(types, p, rows, rec) then FunctionFailed
    else Success
  }

  // ---------------------------------------------------------------------------------------------
  // The place of a new row
  // ---------------------------------------------------------------------------------------------

  /** Number of leading rows that compare_record puts below the record. */
  ghost function Place(types: seq<nat>, p: Pool, rows: seq<seq<nat>>, rec: seq<Field>): (i: nat)
    requires Rectangular(types, rows)
    ensures i <= |rows|
    ensures forall k :: 0 <= k < i ==> CompareFrom(types, p, rows[k], rec, 0) > 0
    ensures i < |rows| ==> CompareFrom(types, p, rows[i], rec, 0) <= 0
  {
    if rows == [] || CompareFrom(types, p, rows[0], rec, 0) <= 0 then 0
    else 1 + Place(types, p, rows[1..], rec)
  }

  /** The rows from the place on are all above the record. */
  ghost predicate Splits(types: seq<nat>, p: Pool, rows: seq<seq<nat>>, rec: seq<Field>)
    requires Rectangular(types, rows)
  {
    forall k :: Place(types, p, rows, rec) <= k < |rows| ==> CompareFrom(types, p, rows[k], rec, 0) < 0
  }

  /** A sorted table is split by any record whose key it does not hold; without a key column the place is
      at the end. */
  lemma PlaceSplits(types: seq<nat>, p: Pool, rows: seq<seq<nat>>, rec: seq<Field>)
    requires PlainTypes(types) && Rectangular(types, rows) && (HasKey(types) ==> KeySorted(types, rows))
    requires !KeyTaken(types, p, rows, rec) && forall i :: 0 <= i < |rows| ==> Words(rows[i])
    ensures Splits(types, p, rows, rec)
    ensures !HasKey(types) ==> Place(types, p, rows, rec) == |rows|
  {
    var i, probe := Place(types, p, rows, rec), ProbeFrom(types, p, rec, 0);
    if i < |rows| && !HasKey(types) {
      NoKeyCompares(types, p, rows[i], rec, 0);
      assert false;
    }
    if RecordKey(types, p, rec).Some? {
      SearchKeyAgrees(types, p, rec, 0);
    }
    forall k | i <= k < |rows|
      ensures CompareFrom(types, p, rows[k], rec, 0) < 0
    {
      CompareIsLex(types, p, rows[i], rec, 0);
      LexZero(probe, KeyOf(types, rows[i]));
      if k > i {
        CompareIsLex(types, p, rows[k], rec, 0);
        LexTransitive(probe, KeyOf(types, rows[i]), KeyOf(types, rows[k]));
        LexZero(probe, KeyOf(types, rows[k]));
      }
    }
  }

  lemma {:induction false} NoKeyCompares(types: seq<nat>, p: Pool, cells: seq<nat>, rec: seq<Field>, c: nat)
    requires |cells| == |types| && c <= |types| && !HasKey(types)
    ensures CompareFrom(types, p, cells, rec, c) == 1
    decreases |types| - c
  {
    if c < |types| {
      NoKeyCompares(types, p, cells, rec, c + 1);
    }
  }

  /** A row whose key is the record's, and not taken yet, keeps the table sorted at that place. */
  lemma PlaceFits(types: seq<nat>, p: Pool, rows: seq<seq<nat>>, rec: seq<Field>, row: seq<nat>)
    requires PlainTypes(types) && HasKey(types) && KeySorted(types, rows) && |row| == |types|
    requires RecordKey(types, p, rec) == Some(KeyOf(types, row)) && !KeyTaken(types, p, rows, rec)
    ensures KeySorted(types, InsertRowAt(rows, Place(types, p, rows, rec), row))
  {
    var i, key := Place(types, p, rows, rec), KeyOf(types, row);
    SearchKeyAgrees(types, p, rec, 0);
    forall k | 0 <= k < |rows|
      ensures CompareFrom(types, p, rows[k], rec, 0) == Lex(key, KeyOf(types, rows[k])) != 0
    {
      CompareIsLex(types, p, rows[k], rec, 0);
      LexZero(key, KeyOf(types, rows[k]));
    }
    if i > 0 {
      LexAntisymmetric(key, KeyOf(types, rows[i - 1]));
    }
    InsertSorted(types, rows, i, row);
  }

  // ---------------------------------------------------------------------------------------------
  // Writing a record into a row
  // ---------------------------------------------------------------------------------------------

  ghost predicate RecordOk(rec: seq<Field>) {
    forall i :: 0 <= i < |rec| ==>
      match rec[i]
      case NullField => true
      case IntField(v) => -TWO31 <= v < TWO31
      case StrField(s) => NulFree(s)
  }

  /** The result of writing: code, string table and cells. */
  datatype Written = Written(status: Status, pool: Pool, cells: seq<nat>)

  /** One column of table_view_set_row. */
  ghost function SetColumn(types: seq<nat>, p: Pool, cells: seq<nat>, rec: seq<Field>, c: nat, persistent: bool): Written
    requires |cells| == |types| && c < |types| && Valid(p)
  {
    if IsNullField(rec, c + 1) then Written(Success, p, cells[c := 0])
    else
      var (r, v) := ValueOf(types, p, rec, c);
      if r == Success then Written(Success, p, cells[c := v % CellLimit(types[c])])
      else if IsString(types[c]) && GetStringRaw(rec, c + 1).Some? then
        var (q, id) := Add(p, GetStringRaw(rec, c + 1).value, 1, persistent);
        Written(Success, q, cells[c := id % CellLimit(types[c])])
      else Written(FunctionFailed, p, cells)
  }

  lemma SetColumnKeeps(types: seq<nat>, p: Pool, cells: seq<nat>, rec: seq<Field>, c: nat, persistent: bool)
    requires |cells| == |types| && c < |types| && Valid(p) && RecordOk(rec) && PlainTypes(types)
    ensures var w := SetColumn(types, p, cells, rec, c, persistent);
      && Valid(w.pool) && KeepsIds(p, w.pool) && |w.cells| == |types|
      && (w.status == Success <==> Storable(types, rec, c))
      && (w.status != Success ==> w.status == FunctionFailed && w.cells == cells)
      && (forall d :: 0 <= d < |types| && d != c ==> w.cells[d] == cells[d])
  {
    if !IsNullField(rec, c + 1) && ValueOf(types, p, rec, c).0 != Success && IsString(types[c]) {
      AddKeeps(p, GetStringRaw(rec, c + 1).value, 1, persistent);
    }
  }

  /** An integer that fits its column; strings and NULL always do. */
  predicate Storable(types: seq<nat>, rec: seq<Field>, c: nat)
    requires c < |types|
  {
    IsNullField(rec, c + 1) || IsString(types[c]) || types[c] % 0x100 != 2 ||
    Biased(types[c], GetInt(rec, c + 1)) < TWO16
  }

  function FieldAt(rec: seq<Field>, n: nat): Field { if n < |rec| then rec[n] else NullField }

  /** After a successful write the cell stores the field, as long as the string table has at most 2^24
      slots. */
  lemma SetColumnStores(types: seq<nat>, p: Pool, cells: seq<nat>, rec: seq<Field>, c: nat, persistent: bool)
    requires |cells| == |types| && c < |types| && Valid(p) && RecordOk(rec) && PlainTypes(types)
    requires var w := SetColumn(types, p, cells, rec, c, persistent);
      w.status == Success && |w.pool.slots| <= TWO24
    ensures var w := SetColumn(types, p, cells, rec, c, persistent);
      StoresAs(types[c], w.pool, FieldAt(rec, c), w.cells[c])
  {
    var w := SetColumn(types, p, cells, rec, c, persistent);
    assert Plain(types[c]);
    if !IsNullField(rec, c + 1) {
      var (r, v) := ValueOf(types, p, rec, c);
      if IsString(types[c]) {
        var s := GetStringRaw(rec, c + 1);
        if s.Some? {
          if r == Success {
            StringStored(p, s.value, v);
          } else {
            AddKeeps(p, s.value, 1, persistent);
            var (q, id) := Add(p, s.value, 1, persistent);
            if s.value != [] {
              StringStored(q, s.value, id);
            }
          }
        }
      } else {
        assert GetInt([FieldAt(rec, c)], 1) == GetInt(rec, c + 1);
      }
    }
  }

  lemma StringStored(p: Pool, s: Str, id: nat)
    requires Valid(p) && InUse(p.slots, id) && TextOf(p.slots, id) == s && |p.slots| <= TWO24
    ensures id % TWO24 == id && s != [] && id != 0
  {
    assert SlotOk(p.slots[id]);
  }

  /** Columns c, c+1, ... of table_view_set_row. */
  ghost function SetRowFrom(types: seq<nat>, p: Pool, cells: seq<nat>, rec: seq<Field>, mask: set<nat>, c: nat,
        persistent: bool): (w: Written)
    requires |cells| == |types| && c <= |types| && Valid(p) && RecordOk(rec) && PlainTypes(types)
    ensures Valid(w.pool) && KeepsIds(p, w.pool) && |w.cells| == |types|
    decreases |types| - c
  {
    if c == |types| then Written(Success, p, cells)
    else if c !in mask then SetRowFrom(types, p, cells, rec, mask, c + 1, persistent)
    else
      SetColumnKeeps(types, p, cells, rec, c, persistent);
      var w := SetColumn(types, p, cells, rec, c, persistent);
      if w.status != Success then w
      else SetRowFrom(types, w.pool, w.cells, rec, mask, c + 1, persistent)
  }

  /** table_view_set_row on one row; the mask is the set of its bits. */
  ghost function SetRow(types: seq<nat>, p: Pool, cells: seq<nat>, rec: seq<Field>, mask: set<nat>,
        persistent: bool): Written
    requires |cells| == |types| && Valid(p) && RecordOk(rec) && PlainTypes(types)
  {
    if exists b :: b in mask && b >= |types| then Written(InvalidParameter, p, cells)
    else SetRowFrom(types, p, cells, rec, mask, 0, persistent)
  }

  /** Success, and no column outside the mask changes. */
  lemma {:induction false} SetRowFrame(types: seq<nat>, p: Pool, cells: seq<nat>, rec: seq<Field>,
        mask: set<nat>, c: nat, persistent: bool)
    requires |cells| == |types| && c <= |types| && Valid(p) && RecordOk(rec) && PlainTypes(types)
    ensures var w := SetRowFrom(types, p, cells, rec, mask, c, persistent);
      && (w.status == Success <==> forall d :: c <= d < |types| && d in mask ==> Storable(types, rec, d))
      && (w.status == Success || w.status == FunctionFailed)
      && (forall d :: 0 <= d < |types| && (d !in mask || d < c) ==> w.cells[d] == cells[d])
    decreases |types| - c
  {
    if c < |types| {
      if c in mask {
        SetColumnKeeps(types, p, cells, rec, c, persistent);
        var w := SetColumn(types, p, cells, rec, c, persistent);
        if w.status == Success {
          SetRowFrame(types, w.pool, w.cells, rec, mask, c + 1, persistent);
        }
      } else {
        SetRowFrame(types, p, cells, rec, mask, c + 1, persistent);
      }
    }
  }

  /** No masked integer in the columns c to d is too large. */
  predicate FitsBetween(types: seq<nat>, rec: seq<Field>, mask: set<nat>, c: nat, d: nat)
    requires d < |types|
  {
    forall e :: c <= e <= d && e in mask ==> Storable(types, rec, e)
  }

  lemma {:induction false} SetRowGrows(types: seq<nat>, p: Pool, cells: seq<nat>, rec: seq<Field>,
        mask: set<nat>, c: nat, persistent: bool)
    requires |cells| == |types| && c <= |types| && Valid(p) && RecordOk(rec) && PlainTypes(types)
    ensures |p.slots| <= |SetRowFrom(types, p, cells, rec, mask, c, persistent).pool.slots|
    decreases |types| - c
  {
    if c < |types| {
      if c in mask {
        var w := SetColumn(types, p, cells, rec, c, persistent);
        SetColumnKeeps(types, p, cells, rec, c, persistent);
        if w.status == Success {
          SetRowGrows(types, w.pool, w.cells, rec, mask, c + 1, persistent);
        }
      } else {
        SetRowGrows(types, p, cells, rec, mask, c + 1, persistent);
      }
    }
  }

  /** Every column of the mask stores its field, up to the first integer that does not fit. */
  lemma SetRowStores(types: seq<nat>, p: Pool, cells: seq<nat>, rec: seq<Field>, mask: set<nat>, c: nat, persistent: bool)
    requires |cells| == |types| && c <= |types| && Valid(p) && RecordOk(rec) && PlainTypes(types)
    requires |SetRowFrom(types, p, cells, rec, mask, c, persistent).pool.slots| <= TWO24
    ensures var w := SetRowFrom(types, p, cells, rec, mask, c, persistent);
      && |p.slots| <= |w.pool.slots|
      && forall d :: c <= d < |types| && d in mask && FitsBetween(types, rec, mask, c, d) ==>
        StoresAs(types[d], w.pool, FieldAt(rec, d), w.cells[d])
  {
    var w := SetRowFrom(types, p, cells, rec, mask, c, persistent);
    SetRowGrows(types, p, cells, rec, mask, c, persistent);
    forall d | c <= d < |types| && d in mask && FitsBetween(types, rec, mask, c, d)
      ensures StoresAs(types[d], w.pool, FieldAt(rec, d), w.cells[d])
    {
      ColumnStores(types, p, cells, rec, mask, c, d, persistent, w);
    }
  }

  lemma {:induction false} ColumnStores(types: seq<nat>, p: Pool, cells: seq<nat>, rec: seq<Field>, mask: set<nat>,
        c: nat, d: nat, persistent: bool, last: Written)
    requires |cells| == |types| && c <= d < |types| && Valid(p) && RecordOk(rec) && PlainTypes(types)
    requires last == SetRowFrom(types, p, cells, rec, mask, c, persistent) && |last.pool.slots| <= TWO24
    requires d in mask && FitsBetween(types, rec, mask, c, d)
    ensures StoresAs(types[d], last.pool, FieldAt(rec, d), last.cells[d])
    decreases d - c
  {
    if c in mask {
      SetColumnKeeps(types, p, cells, rec, c, persistent);
      assert Storable(types, rec, c);
      var w := SetColumn(types, p, cells, rec, c, persistent);
      SetRowGrows(types, w.pool, w.cells, rec, mask, c + 1, persistent);
      if c == d {
        FirstColumnStores(types, p, cells, rec, mask, c, persistent, last);
      } else {
        ColumnStores(types, w.pool, w.cells, rec, mask, c + 1, d, persistent, last);
      }
    } else {
      ColumnStores(types, p, cells, rec, mask, c + 1, d, persistent, last);
    }
  }

  lemma FirstColumnStores(types: seq<nat>, p: Pool, cells: seq<nat>, rec: seq<Field>, mask: set<nat>, c: nat,
        persistent: bool, last: Written)
    requires |cells| == |types| && c < |types| && Valid(p) && RecordOk(rec) && PlainTypes(types)
    requires var w := SetColumn(types, p, cells, rec, c, persistent);
      && w.status == Success && Valid(w.pool) && |w.cells| == |types|
      && last == SetRowFrom(types, w.pool, w.cells, rec, mask, c + 1, persistent)
      && |w.pool.slots| <= |last.pool.slots| <= TWO24
    ensures |p.slots| <= |last.pool.slots| && StoresAs(types[c], last.pool, FieldAt(rec, c), last.cells[c])
  {
    var w := SetColumn(types, p, cells, rec, c, persistent);
    SetRowFrame(types, w.pool, w.cells, rec, mask, c + 1, persistent);
    SetColumnStores(types, p, cells, rec, c, persistent);
    StoresLater(types[c], w.pool, last.pool, FieldAt(rec, c), w.cells[c]);
  }

  /** More strings do not change what a cell stores. */
  lemma StoresLater(t: nat, p: Pool, q: Pool, f: Field, cell: nat)
    requires Valid(p) && Valid(q) && KeepsIds(p, q) && StoresAs(t, p, f, cell)
    ensures StoresAs(t, q, f, cell)
  {
    if f.StrField? && IsString(t) {
      assert SlotOk(p.slots[if cell < |p.slots| then cell else 0]) && SlotOk(q.slots[0]);
    }
  }

  /** What storing a field means for the cell, in numbers. */
  lemma StoresHolds(t: nat, p: Pool, f: Field, cell: nat)
    requires Plain(t) && Valid(p) && StoresAs(t, p, f, cell) && (f.IntField? ==> -TWO31 <= f.i < TWO31)
    ensures HoldsField(t, p.slots, cell, f)
  {
    if f.StrField? && IsString(t) {
      assert SlotOk(p.slots[if cell < |p.slots| then cell else 0]);
    } else if f.StrField? {
      IntegerStored(t, p, f, cell);
    }
  }

  lemma IntegerStored(t: nat, p: Pool, f: Field, cell: nat)
    requires Plain(t) && !IsString(t) && f.StrField? && StoresAs(t, p, f, cell)
    ensures HoldsField(t, p.slots, cell, f)
  {
    assert GetInt([f], 1) == (match IntFromString(f.s) { case Some(i) => i case None => NULL_INT });
  }

  // ---------------------------------------------------------------------------------------------
  // Column indexes that a write leaves alone
  // ---------------------------------------------------------------------------------------------

  /** The string is found and its id is in the cell already, so the column is not written. */
  ghost predicate KeepsCell(types: seq<nat>, p: Pool, cells: seq<nat>, rec: seq<Field>, c: nat)
    requires |cells| == |types| && c < |types|
  {
    IsString(types[c]) && ValueOf(types, p, rec, c) == (Success, cells[c])
  }

  /** The indexes after one column of table_view_set_row. */
  ghost function IndexesAfter<T>(types: seq<nat>, p: Pool, cells: seq<nat>, rec: seq<Field>, c: nat,
        hash: seq<Option<T>>): (after: seq<Option<T>>)
    requires |cells| == |hash| == |types| && c < |types|
    ensures |after| == |types|
  {
    if !Storable(types, rec, c) || KeepsCell(types, p, cells, rec, c) then hash else hash[c := None]
  }

  /** The indexes after columns c, c+1, ... of table_view_set_row. */
  ghost function IndexesFrom<T>(types: seq<nat>, p: Pool, cells: seq<nat>, rec: seq<Field>, mask: set<nat>, c: nat,
        persistent: bool, hash: seq<Option<T>>): (after: seq<Option<T>>)
    requires |cells| == |hash| == |types| && c <= |types| && Valid(p) && RecordOk(rec) && PlainTypes(types)
    ensures |after| == |types|
    decreases |types| - c
  {
    if c == |types| then hash
    else if c !in mask then IndexesFrom(types, p, cells, rec, mask, c + 1, persistent, hash)
    else
      SetColumnKeeps(types, p, cells, rec, c, persistent);
      var w := SetColumn(types, p, cells, rec, c, persistent);
      if w.status != Success then hash
      else IndexesFrom(types, w.pool, w.cells, rec, mask, c + 1, persistent, IndexesAfter(types, p, cells, rec, c, hash))
  }

  /** The indexes after table_view_set_row. */
  ghost function RowIndexes<T>(types: seq<nat>, p: Pool, cells: seq<nat>, rec: seq<Field>, mask: set<nat>,
        persistent: bool, hash: seq<Option<T>>): seq<Option<T>>
    requires |cells| == |hash| == |types| && Valid(p) && RecordOk(rec) && PlainTypes(types)
  {
    if exists b :: b in mask && b >= |types| then hash
    else IndexesFrom(types, p, cells, rec, mask, 0, persistent, hash)
  }

  /** A string cell is 0 or names a string. */
  ghost predicate CellsNamed(types: seq<nat>, p: Pool, cells: seq<nat>) {
    |cells| == |types| && forall c :: 0 <= c < |types| && IsString(types[c]) ==> cells[c] == 0 || InUse(p.slots, cells[c])
  }

  /** Column c is written: it is in the mask, every integer up to it fits, and its string is not the one
      that the cell has already. */
  ghost predicate WritesColumn(types: seq<nat>, p: Pool, cells: seq<nat>, rec: seq<Field>, mask: set<nat>, c: nat)
    requires |cells| == |types| && c < |types|
  {
    && c in mask && !KeepsCell(types, p, cells, rec, c)
    && forall e :: 0 <= e <= c && e in mask ==> Storable(types, rec, e)
  }

  /** At the end of the table, where the new row starts out as zeros, that takes an integer for a string. */
  lemma KeepsZeroCell(types: seq<nat>, p: Pool, cells: seq<nat>, rec: seq<Field>, c: nat)
    requires |cells| == |types| && c < |types| && Valid(p) && PlainTypes(types) && cells[c] == 0
    ensures KeepsCell(types, p, cells, rec, c) <==> IsString(types[c]) && FieldAt(rec, c).IntField?
  {
    assert Plain(types[c]) && SlotOk(p.slots[0]);
  }

  /** Strings that a record adds do not make a cell match: their ids were free before. */
  lemma KeepsCellLater(types: seq<nat>, p: Pool, q: Pool, cells: seq<nat>, rec: seq<Field>, c: nat)
    requires |cells| == |types| && c < |types| && Valid(p) && Valid(q) && KeepsIds(p, q)
    requires IsString(types[c]) ==> cells[c] == 0 || InUse(p.slots, cells[c])
    ensures KeepsCell(types, q, cells, rec, c) <==> KeepsCell(types, p, cells, rec, c)
  {
    var s := GetStringRaw(rec, c + 1);
    if s.Some? {
      if Present(p, s.value) {
        var n := IdOf(p, s.value);
        assert InUse(q.slots, n) && TextOf(q.slots, n) == s.value;
        TextsDistinct(q, n, IdOf(q, s.value));
      }
    }
  }

  /** Which indexes survive a write, from the state before it. */
  lemma {:induction false} SurvivorsExact<T>(types: seq<nat>, p: Pool, q: Pool, cells: seq<nat>, now: seq<nat>,
        rec: seq<Field>, mask: set<nat>, c: nat, persistent: bool, hash: seq<Option<T>>, d: nat)
    requires |cells| == |now| == |hash| == |types| && c <= |types| && d < |types|
    requires Valid(p) && Valid(q) && KeepsIds(p, q) && CellsNamed(types, p, cells) && RecordOk(rec) && PlainTypes(types)
    requires forall e :: c <= e < |types| ==> now[e] == cells[e]
    requires forall e :: 0 <= e < c && e in mask ==> Storable(types, rec, e)
    ensures IndexesFrom(types, q, now, rec, mask, c, persistent, hash)[d] ==
      if c <= d && WritesColumn(types, p, cells, rec, mask, d) then None else hash[d]
    decreases |types| - c
  {
    if c < |types| {
      if c in mask {
        SetColumnKeeps(types, q, now, rec, c, persistent);
        KeepsCellLater(types, p, q, cells, rec, c);
        var w := SetColumn(types, q, now, rec, c, persistent);
        if w.status == Success {
          SurvivorsExact(types, p, w.pool, cells, w.cells, rec, mask, c + 1, persistent,
                         IndexesAfter(types, q, now, rec, c, hash), d);
        }
      } else {
        SurvivorsExact(types, p, q, cells, now, rec, mask, c + 1, persistent, hash, d);
      }
    }
  }

  // ---------------------------------------------------------------------------------------------
  // Inserting a row
  // ---------------------------------------------------------------------------------------------

  /** A row that stores a record has the record's key. */
  lemma {:induction false} StoredKey(types: seq<nat>, p: Pool, q: Pool, rec: seq<Field>, cells: seq<nat>, c: nat)
    requires |cells| == |types| && c <= |types| && PlainTypes(types)
    requires Valid(p) && Valid(q) && KeepsIds(p, q) && RecordKeyFrom(types, p, rec, c).Some?
    requires forall d :: c <= d < |types| ==> StoresAs(types[d], q, FieldAt(rec, d), cells[d])
    ensures RecordKeyFrom(types, p, rec, c) == Some(KeyFrom(types, cells, c))
    decreases |types| - c
  {
    if c < |types| {
      StoredKey(types, p, q, rec, cells, c + 1);
      if IsKey(types[c]) {
        StoredValue(types, p, q, rec, cells[c], c);
      }
    }
  }

  lemma StoredValue(types: seq<nat>, p: Pool, q: Pool, rec: seq<Field>, cell: nat, c: nat)
    requires c < |types| && PlainTypes(types)
    requires Valid(p) && Valid(q) && KeepsIds(p, q) && ValueOf(types, p, rec, c).0 == Success
    requires StoresAs(types[c], q, FieldAt(rec, c), cell)
    ensures ValueOf(types, p, rec, c).1 == cell
  {
    var v := ValueOf(types, p, rec, c).1;
    assert Plain(types[c]);
    if IsString(types[c]) {
      var s := GetStringRaw(rec, c + 1);
      if s.Some? {
        assert SlotOk(p.slots[v]);
        assert InUse(q.slots, cell) by {
          if cell < |q.slots| {
            assert SlotOk(q.slots[cell]);
          }
        }
        TextsDistinct(q, v, cell);
      }
    } else {
      assert GetInt([FieldAt(rec, c)], 1) == GetInt(rec, c + 1);
    }
  }

  /** The bytes that a new row starts from: the old row at its place is shifted up but not cleared. */
  function Stale(types: seq<nat>, rows: seq<seq<nat>>, i: nat): (cells: seq<nat>)
    requires Rectangular(types, rows) && i <= |rows|
    ensures |cells| == |types|
  {
    if i < |rows| then rows[i] else seq(|types|, _ => 0)
  }

  function AllColumns(types: seq<nat>): set<nat> { set c: nat {:trigger types[c]} | c < |types| }

  datatype Inserted = Inserted(status: Status, pool: Pool, rows: seq<seq<nat>>)

  /** table_view_insert_row at row i, after a successful validation. */
  ghost function InsertAtRow(types: seq<nat>, p: Pool, rows: seq<seq<nat>>, rec: seq<Field>, i: nat,
        persistent: bool): Inserted
    requires Rectangular(types, rows) && i <= |rows| && Valid(p) && RecordOk(rec) && PlainTypes(types)
  {
    var w := SetRow(types, p, Stale(types, rows, i), rec, AllColumns(types), persistent);
    Inserted(w.status, w.pool, InsertRowAt(rows, i, w.cells))
  }

  /** table_view_insert_row; without a row number the key decides. */
  ghost function InsertRecord(types: seq<nat>, p: Pool, rows: seq<seq<nat>>, rec: seq<Field>, row: Option<nat>,
        persistent: bool): Inserted
    requires Rectangular(types, rows) && (row.Some? ==> row.value <= |rows|)
    requires Valid(p) && RecordOk(rec) && PlainTypes(types)
  {
    if Validate(types, p, rows, rec) != Success then Inserted(FunctionFailed, p, rows)
    else InsertAtRow(types, p, rows, rec, if row.Some? then row.value else Place(types, p, rows, rec), persistent)
  }

  ghost predicate AllStorable(types: seq<nat>, rec: seq<Field>) {
    forall c :: 0 <= c < |types| ==> Storable(types, rec, c)
  }

  /** A row that stores every field of a record. */
  ghost predicate StoresRecord(types: seq<nat>, p: Pool, rec: seq<Field>, cells: seq<nat>) {
    |cells| == |types| && forall c :: 0 <= c < |types| ==> StoresAs(types[c], p, FieldAt(rec, c), cells[c])
  }

  /** What an insertion at a given row does: the row is there whether or not it succeeds, and holds the
      record exactly when every integer fits its column. */
  lemma InsertAtRowEffect(types: seq<nat>, p: Pool, rows: seq<seq<nat>>, rec: seq<Field>, i: nat, persistent: bool)
    requires Rectangular(types, rows) && i <= |rows| && Valid(p) && RecordOk(rec) && PlainTypes(types)
    ensures var n := InsertAtRow(types, p, rows, rec, i, persistent);
      && Valid(n.pool) && KeepsIds(p, n.pool) && Rectangular(types, n.rows)
      && n.rows == InsertRowAt(rows, i, n.rows[i])
      && (n.status == Success <==> AllStorable(types, rec))
      && (n.status == Success && |n.pool.slots| <= TWO24 ==> StoresRecord(types, n.pool, rec, n.rows[i]))
  {
    var start := Stale(types, rows, i);
    SetRowFrame(types, p, start, rec, AllColumns(types), 0, persistent);
    var w := SetRow(types, p, start, rec, AllColumns(types), persistent);
    if w.status == Success && |w.pool.slots| <= TWO24 {
      SetRowStores(types, p, start, rec, AllColumns(types), 0, persistent);
    }
  }
}
