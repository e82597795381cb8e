/** A table as the code keeps it: row buffers, persistence flags and the lazily built column indexes
    (table_view_* in libmsi/table.c). */
module TableViews {
  import opened Prelude
  import opened Records
  import opened LittleEndian
  import opened StringPools
  import opened StringTables
  import opened TableLayout
  import opened TableRows
  import opened FieldMeaning
  import H = HashIndex

  function CellsOf(types: seq<nat>, data: seq<seq<Byte>>): (rows: seq<seq<nat>>)
    requires forall i :: 0 <= i < |data| ==> IsRow(types, data[i])
    ensures |rows| == |data|
    ensures forall i :: 0 <= i < |data| ==> rows[i] == Cells(types, data[i])
    ensures Rectangular(types, rows)
  {
    seq(|data|, i requires 0 <= i < |data| => Cells(types, data[i]))
  }

  ghost predicate AllAgree(types: seq<nat>, hash: seq<Option<H.Index>>, rows: seq<seq<nat>>) {
    && |hash| == |types| && Rectangular(types, rows)
    && forall c :: 0 <= c < |types| && hash[c].Some? ==> H.Agrees(hash[c].value, H.Column(rows, c))
  }

  /** The part of a value that its column keeps. */
  function Kept(t: nat, val: nat): nat { val % Limit(t) }

  /** What columns c, c+1, ... of table_view_set_row lead to, cells and indexes. */
  ghost function Remaining(types: seq<nat>, w: Written, rec: seq<Field>, mask: set<nat>, c: nat, flag: bool,
        hash: seq<Option<H.Index>>): (Written, seq<Option<H.Index>>)
  {
    if |w.cells| == |hash| == |types| && c <= |types| && Valid(w.pool) && RecordOk(rec) && PlainTypes(types)
    then (SetRowFrom(types, w.pool, w.cells, rec, mask, c, flag),
          IndexesFrom(types, w.pool, w.cells, rec, mask, c, flag, hash))
    else (w, hash)
  }

  lemma RemainingStep(types: seq<nat>, w: Written, rec: seq<Field>, mask: set<nat>, c: nat, flag: bool,
        hash: seq<Option<H.Index>>)
    requires |w.cells| == |hash| == |types| && c < |types| && Valid(w.pool) && RecordOk(rec) && PlainTypes(types)
    requires w.status == Success
    ensures c !in mask ==>
      Remaining(types, w, rec, mask, c, flag, hash) == Remaining(types, w, rec, mask, c + 1, flag, hash)
    ensures c in mask ==>
      var w', hash' := SetColumn(types, w.pool, w.cells, rec, c, flag), IndexesAfter(types, w.pool, w.cells, rec, c, hash);
      && Valid(w'.pool) && |w'.cells| == |types|
      && Remaining(types, w, rec, mask, c, flag, hash) ==
        (if w'.status == Success then Remaining(types, w', rec, mask, c + 1, flag, hash') else (w', hash'))
  {
    SetColumnKeeps(types, w.pool, w.cells, rec, c, flag);
  }

  lemma RemainingEnd(types: seq<nat>, w: Written, rec: seq<Field>, mask: set<nat>, flag: bool, hash: seq<Option<H.Index>>)
    requires w.status == Success
    ensures Remaining(types, w, rec, mask, |types|, flag, hash) == (w, hash)
  {
  }

  predicate KeyBelow(types: seq<nat>, n: nat)
    requires n <= |types|
  {
    exists c :: 0 <= c < n && IsKey(types[c])
  }

  /** Two rows agree on the key columns among the first n. */
  predicate SameKeys(types: seq<nat>, a: seq<nat>, b: seq<nat>, n: nat)
    requires |a| == |b| == |types| && n <= |types|
  {
    forall d :: 0 <= d < n && IsKey(types[d]) ==> a[d] == b[d]
  }

  class TableView {
    const types: seq<nat>
    const strings: StringTable
    const tablePersistent: bool
    var data: seq<seq<Byte>>
    var persistent: seq<bool>
    var hash: seq<Option<H.Index>>

    constructor (types: seq<nat>, strings: StringTable, tablePersistent: bool)
      ensures this.types == types && this.strings == strings && this.tablePersistent == tablePersistent
      ensures Shape() && data == [] && IndexesAgree()
    {
      this.types, this.strings, this.tablePersistent := types, strings, tablePersistent;
      data, persistent := [], [];
      hash := seq(|types|, _ => None);
    }

    predicate Shape()
      reads this
    {
      && (forall i :: 0 <= i < |data| ==> IsRow(types, data[i]))
      && |persistent| == |data| && |hash| == |types|
    }

    /** The stored cells, row by row. */
    function Rows(): (rows: seq<seq<nat>>)
      requires Shape()
      reads this
      ensures |rows| == |data| && Rectangular(types, rows)
    {
      CellsOf(types, data)
    }

    /** Every index that is built agrees with the rows. */
    ghost predicate IndexesAgree()
      requires Shape()
      reads this
    {
      AllAgree(types, hash, Rows())
    }

    /** table_view_fetch_int; columns count from 1. */
    method FetchInt(row: nat, col: nat) returns (r: Status, val: nat)
      requires Shape()
      ensures r == if col == 0 || col > |types| then InvalidParameter else if row >= |data| then NoMoreItems else Success
      ensures r == Success ==> val == Rows()[row][col - 1]
    {
      val := 0;
      if col == 0 || col > |types| {
        return InvalidParameter, 0;
      }
      if row >= |data| {
        return NoMoreItems, 0;
      }
      r, val := Success, Word(Slice(types, data[row], col - 1));
    }

    /** table_view_set_int: the bytes of the value, low one first; the index of the column is dropped. */
    method SetInt(row: nat, col: nat, val: nat) returns (r: Status)
      requires Shape()
      modifies this`data, this`hash
      ensures Shape()
      ensures r == if col == 0 || col > |types| || row >= |data| then InvalidParameter else Success
      ensures r != Success ==> data == old(data) && hash == old(hash)
      ensures r == Success ==> Rows() == SetCell(old(Rows()), row, col - 1, Kept(types[col - 1], val))
      ensures r == Success ==> hash == old(hash)[col - 1 := None]
      ensures old(IndexesAgree()) ==> IndexesAgree()
    {
      if col == 0 || col > |types| {
        return InvalidParameter;
      }
      if row >= |data| {
        return InvalidParameter;
      }
      hash := hash[col - 1 := None];
      ghost var before := data;
      var n := Width(types[col - 1], LONG_STR_BYTES);
      data := data[row := PutBytes(types, data[row], col - 1, val)];
      StoreCell(types, before[row], col - 1, val);
      assert Rows() == CellsOf(types, before)[row := Cells(types, data[row])];
      assert forall c :: 0 <= c < |types| && c != col - 1 ==> H.Column(Rows(), c) == H.Column(CellsOf(types, before), c);
      r := Success;
    }

    /** The column that searches see: the one its index was built from, or the rows while there is none. */
    ghost function Seen(c: nat): Option<seq<nat>>
      requires Shape() && c < |types|
      reads this
    {
      if hash[c].None? then Some(H.Column(Rows(), c)) else H.Source(hash[c].value)
    }

    lemma RightIsSeen(c: nat)
      requires Shape() && IndexesAgree() && c < |types|
      ensures Seen(c) == Some(H.Column(Rows(), c))
    {
      if hash[c].Some? {
        H.SourceOf(hash[c].value, H.Column(Rows(), c));
      }
    }

    /** Another index for the column that searches see is as right as it was. */
    lemma StillAgree(was: seq<Option<H.Index>>, c: nat, seen: seq<nat>)
      requires Shape() && |was| == |types| && c < |types| && hash == was[c := hash[c]] && Seen(c) == Some(seen)
      requires was[c].None? ==> seen == H.Column(Rows(), c)
      requires was[c].Some? ==> H.Source(was[c].value) == Some(seen)
      ensures AllAgree(types, was, Rows()) ==> IndexesAgree()
    {
      if AllAgree(types, was, Rows()) {
        if was[c].Some? {
          H.SourceOf(was[c].value, H.Column(Rows(), c));
        }
        if hash[c].Some? {
          H.SourceAgrees(hash[c].value, seen);
        }
      }
    }

    /** table_view_find_matching_rows: builds the index of the column when there is none, and finds the
        next matching row after the handle. */
    method FindMatchingRows(col: nat, val: nat, handle: Option<nat>, ghost seen: seq<nat>)
      returns (r: Status, row: nat, handle': Option<nat>)
      requires Shape() && (1 <= col <= |types| ==> Seen(col - 1) == Some(seen))
      requires 1 <= col <= |types| && handle.Some? ==>
        hash[col - 1].Some? && handle.value < |seen| && seen[handle.value] == val
      modifies this`hash
      ensures Shape() && (old(IndexesAgree()) ==> IndexesAgree())
      ensures col == 0 || col > |types| ==> r == InvalidParameter && hash == old(hash)
      ensures 1 <= col <= |types| ==>
        && handle' == H.NextMatch(seen, val, H.After(handle))
        && r == (if handle'.Some? then Success else NoMoreItems)
        && (handle'.Some? ==> row == handle'.value)
        && hash[col - 1].Some? && hash == old(hash)[col - 1 := hash[col - 1]] && Seen(col - 1) == Some(seen)
    {
      row, handle' := 0, None;
      if col == 0 || col > |types| {
        return InvalidParameter, 0, None;
      }
      ghost var was := hash;
      BuildIndex(col, seen);
      StillAgree(was, col - 1, seen);
      H.SourceAgrees(hash[col - 1].value, seen);
      handle' := H.Search(hash[col - 1].value, seen, val, handle);
      if handle'.None? {
        return NoMoreItems, 0, None;
      }
      r, row := Success, hash[col - 1].value.entries[handle'.value].row;
    }

    /** The first half of table_view_find_matching_rows. */
    method BuildIndex(col: nat, ghost seen: seq<nat>)
      requires Shape() && 1 <= col <= |types| && Seen(col - 1) == Some(seen)
      modifies this`hash
      ensures Shape() && hash[col - 1].Some? && hash == old(hash)[col - 1 := hash[col - 1]] && Seen(col - 1) == Some(seen)
      ensures old(hash)[col - 1].Some? ==> hash == old(hash)
    {
      if hash[col - 1].None? {
        var cells := ReadColumn(col);
        var h := H.Build(cells);
        H.SourceOf(h, cells);
        hash := hash[col - 1 := Some(h)];
      }
    }

    /** All rows that iterating from a null handle to the end gives. */
    method AllMatches(col: nat, val: nat, ghost seen: seq<nat>) returns (rows: seq<nat>)
      requires Shape() && 1 <= col <= |types| && Seen(col - 1) == Some(seen)
      modifies this`hash
      ensures Shape() && (old(IndexesAgree()) ==> IndexesAgree())
      ensures rows == H.Matches(seen, val, 0)
    {
      rows := [];
      var handle: Option<nat>, more := None, true;
      while more
        invariant Sees(col - 1) == Some(seen) && (old(IndexesAgree()) ==> IndexesAgree())
        invariant H.Iterates(seen, val, rows, handle, more) && (handle.Some? ==> hash[col - 1].Some?)
        decreases if more then |seen| + 1 - H.After(handle) else 0
      {
        rows, handle, more := FindNext(col, val, rows, handle, seen);
      }
    }

    /** One call of the iteration. */
    method FindNext(col: nat, val: nat, rows: seq<nat>, handle: Option<nat>, ghost seen: seq<nat>)
      returns (rows': seq<nat>, handle': Option<nat>, more: bool)
      requires 1 <= col <= |types| && Sees(col - 1) == Some(seen)
      requires H.Iterates(seen, val, rows, handle, true) && (handle.Some? ==> hash[col - 1].Some?)
      modifies this`hash
      ensures Sees(col - 1) == Some(seen) && (old(Shape() && IndexesAgree()) ==> IndexesAgree())
      ensures H.Iterates(seen, val, rows', handle', more) && (handle'.Some? ==> hash[col - 1].Some?)
      ensures more ==> H.After(handle') > H.After(handle)
    {
      var r, row;
      r, row, handle' := FindMatchingRows(col, val, handle, seen);
      H.IteratesOn(seen, val, rows, handle, handle');
      more := r == Success;
      rows' := if more then rows + [row] else rows;
    }

    ghost function Sees(c: nat): Option<seq<nat>>
      reads this
    {
      if Shape() && c < |types| then Seen(c) else None
    }

    /** The fetches that the index is built from; none of them fails. */
    method ReadColumn(col: nat) returns (cells: seq<nat>)
      requires Shape() && 1 <= col <= |types|
      ensures cells == H.Column(Rows(), col - 1)
    {
      cells := [];
      for i := 0 to |data|
        invariant |cells| == i
        invariant forall k :: 0 <= k < i ==> cells[k] == Rows()[k][col - 1]
      {
        var r, v := FetchInt(i, col);
        cells := cells + [v];
      }
    }

    /** table_view_delete_row: later rows move down, and every index is dropped. */
    method DeleteRow(row: nat) returns (r: Status)
      requires Shape()
      modifies this`data, this`persistent, this`hash
      ensures Shape()
      ensures r == if row >= old(|data|) then FunctionFailed else Success
      ensures r != Success ==> data == old(data) && hash == old(hash) && persistent == old(persistent)
      ensures r == Success ==> Rows() == old(Rows())[..row] + old(Rows())[row + 1..]
      ensures r == Success ==> persistent == old(persistent)[..row] + old(persistent)[row + 1..]
      ensures r == Success ==> IndexesAgree()
    {
      if row >= |data| {
        return FunctionFailed;
      }
      ghost var before, flags := data, persistent;
      for c := 0 to |types|
        invariant data == before && persistent == flags
        invariant |hash| == |types| && forall k :: 0 <= k < c ==> hash[k] == None
      {
        hash := hash[c := None];
      }
      var n := |data|;
      for i := row + 1 to n
        invariant |hash| == |types| && forall k :: 0 <= k < |types| ==> hash[k] == None
        invariant Closing(before, data, row, i) && Closing(flags, persistent, row, i)
      {
        CloseStep(before, data, row, i);
        CloseStep(flags, persistent, row, i);
        data := data[i - 1 := data[i]];
        persistent := persistent[i - 1 := persistent[i]];
      }
      Closed(before, data, row);
      Closed(flags, persistent, row);
      data, persistent := data[..n - 1], persistent[..n - 1];
      r := Success;
    }

    // -------------------------------------------------------------------------------------------
    // Records
    // -------------------------------------------------------------------------------------------

    /** get_table_value_from_record; fields count from 1. */
    method GetValue(rec: seq<Field>, field: nat) returns (r: Status, val: nat)
      requires strings.Sound()
      ensures field == 0 || field > |types| ==> r == FunctionFailed
      ensures 1 <= field <= |types| ==> (r, val) == ValueOf(types, strings.Model(), rec, field - 1)
    {
      val := 0;
      if field == 0 || field > |types| || IsNullField(rec, field) {
        return FunctionFailed, 0;
      }
      var t := types[field - 1];
      if IsBinary(t) {
        return Success, 1;
      } else if IsString(t) {
        var sval := GetStringRaw(rec, field);
        if sval.None? {
          return Success, 0;
        }
        r, val := strings.IdFromString(sval.value);
        if r != Success {
          return NotFound, 0;
        }
      } else {
        val := Biased(t, GetInt(rec, field));
        r := if t % 0x100 == 2 && val >= TWO16 then FunctionFailed else Success;
      }
    }

    /** The value to store for a field that is not null, entering a new string into the table. `skip`
        says that the string is in the cell already. */
    method ResolveValue(row: nat, rec: seq<Field>, c: nat) returns (r: Status, val: nat, skip: bool)
      requires Shape() && row < |data| && c < |types| && strings.Sound()
      requires RecordOk(rec) && PlainTypes(types) && !IsNullField(rec, c + 1)
      modifies strings, strings.strings, strings.sorted
      ensures strings.Shape()
      ensures var w := SetColumn(types, old(strings.Model()), Rows()[row], rec, c, Flag(row));
        && r == w.status && strings.Model() == w.pool
        && w.cells == (if r == Success then Rows()[row][c := Kept(types[c], val)] else Rows()[row])
        && (skip ==> r == Success && w.cells == Rows()[row])
      ensures skip <==> KeepsCell(types, old(strings.Model()), Rows()[row], rec, c)
      ensures strings.strings == old(strings.strings) || fresh(strings.strings)
      ensures strings.sorted == old(strings.sorted) || fresh(strings.sorted)
    {
      var t := types[c];
      assert Plain(t);
      CellLimitIs(t);
      skip := false;
      r, val := GetValue(rec, c + 1);
      if IsString(t) {
        if r != Success {
          val := strings.AddString(GetStringRaw(rec, c + 1).value, 1, Flag(row));
          r := Success;
        } else {
          skip := InCell(row, c, val);
        }
      } else if r != Success {
        r := FunctionFailed;
      }
    }

    /** The string id is in the cell already. */
    method InCell(row: nat, c: nat, val: nat) returns (there: bool)
      requires Shape() && row < |data| && c < |types|
      ensures there <==> val == Rows()[row][c]
      ensures there ==> Rows()[row][c := Kept(types[c], val)] == Rows()[row]
    {
      var _, x := FetchInt(row, c + 1);
      there := val == x;
      CellsBelow(types, data[row], c);
    }

    /** One column of table_view_set_row, the field not being null. The index of the column is dropped
        unless the string is in the cell already. */
    method SetColumnValue(row: nat, rec: seq<Field>, c: nat) returns (r: Status)
      requires Shape() && row < |data| && c < |types| && strings.Sound()
      requires RecordOk(rec) && PlainTypes(types) && !IsNullField(rec, c + 1)
      modifies this`data, this`hash, strings, strings.strings, strings.sorted
      ensures Shape() && strings.Shape()
      ensures var w := SetColumn(types, old(strings.Model()), old(Rows())[row], rec, c, Flag(row));
        && r == w.status && strings.Model() == w.pool && Rows() == old(Rows())[row := w.cells]
      ensures hash == IndexesAfter(types, old(strings.Model()), old(Rows())[row], rec, c, old(hash))
      ensures old(IndexesAgree()) ==> IndexesAgree()
      ensures strings.strings == old(strings.strings) || fresh(strings.strings)
      ensures strings.sorted == old(strings.sorted) || fresh(strings.sorted)
    {
      SetColumnKeeps(types, strings.Model(), Rows()[row], rec, c, Flag(row));
      ghost var w := SetColumn(types, strings.Model(), Rows()[row], rec, c, Flag(row));
      var val, skip;
      r, val, skip := ResolveValue(row, rec, c);
      StoreValue(row, c, val, r == Success && !skip, w.cells);
    }

    /** The end of the loop body of table_view_set_row. */
    method StoreValue(row: nat, c: nat, val: nat, store: bool, ghost cells: seq<nat>)
      requires Shape() && row < |data| && c < |types|
      requires cells == if store then Rows()[row][c := Kept(types[c], val)] else Rows()[row]
      modifies this`data, this`hash
      ensures Shape() && Rows() == old(Rows())[row := cells]
      ensures hash == if store then old(hash)[c := None] else old(hash)
      ensures old(IndexesAgree()) ==> IndexesAgree()
    {
      if store {
        var r := SetInt(row, c + 1, val);
      } else {
        assert Rows()[row := cells] == Rows();
      }
    }

    function Flag(row: nat): bool
      requires row < |persistent|
      reads this`persistent
    {
      tablePersistent && persistent[row]
    }

    /** table_view_set_row; the mask is the set of its bits. */
    method SetRow(row: nat, rec: seq<Field>, mask: set<nat>) returns (r: Status)
      requires Shape() && row < |data| && strings.Sound() && RecordOk(rec) && PlainTypes(types)
      modifies this`data, this`hash, strings, strings.strings, strings.sorted
      ensures Shape() && strings.Sound()
      ensures var w := TableRows.SetRow(types, old(strings.Model()), old(Rows())[row], rec, mask, Flag(row));
        && r == w.status && strings.Model() == w.pool && Rows() == old(Rows())[row := w.cells]
      ensures hash == RowIndexes(types, old(strings.Model()), old(Rows())[row], rec, mask, Flag(row), old(hash))
      ensures old(IndexesAgree()) ==> IndexesAgree()
      ensures strings.strings == old(strings.strings) || fresh(strings.strings)
      ensures strings.sorted == old(strings.sorted) || fresh(strings.sorted)
    {
      ghost var rows := Rows();
      assert rows[row := rows[row]] == rows;
      if exists b :: b in mask && b >= |types| {
        return InvalidParameter;
      }
      r := SetMasked(row, rec, mask);
    }

    /** The loop of table_view_set_row. */
    method SetMasked(row: nat, rec: seq<Field>, mask: set<nat>) returns (r: Status)
      requires Shape() && row < |data| && strings.Sound() && RecordOk(rec) && PlainTypes(types)
      modifies this`data, this`hash, strings, strings.strings, strings.sorted
      ensures Shape() && strings.Sound()
      ensures var w := SetRowFrom(types, old(strings.Model()), old(Rows())[row], rec, mask, 0, Flag(row));
        && r == w.status && strings.Model() == w.pool && Rows() == old(Rows())[row := w.cells]
      ensures hash == IndexesFrom(types, old(strings.Model()), old(Rows())[row], rec, mask, 0, Flag(row), old(hash))
      ensures old(IndexesAgree()) ==> IndexesAgree()
      ensures strings.strings == old(strings.strings) || fresh(strings.strings)
      ensures strings.sorted == old(strings.sorted) || fresh(strings.sorted)
    {
      ghost var rows, flag, agree := Rows(), Flag(row), IndexesAgree();
      ghost var w := Written(Success, strings.Model(), rows[row]);
      ghost var goal := Remaining(types, w, rec, mask, 0, flag, hash);
      assert rows[row := w.cells] == rows;
      r := Success;
      var i := 0;
      while r == Success && i < |types|
        invariant 0 <= i <= |types|
        invariant Holds(rows, row, w) && (agree ==> IndexesAgree()) && |hash| == |types|
        invariant goal == if r == Success then Remaining(types, w, rec, mask, i, flag, hash) else (w, hash)
        invariant r == w.status
        invariant strings.strings == old(strings.strings) || fresh(strings.strings)
        invariant strings.sorted == old(strings.sorted) || fresh(strings.sorted)
      {
        r, w := WriteMasked(row, rec, mask, i, rows, w, goal);
        i := i + 1;
      }
      if r == Success {
        RemainingEnd(types, w, rec, mask, flag, hash);
      }
    }

    /** Strings and rows, when both are well-formed. */
    ghost function State(): Option<(Pool, seq<seq<nat>>)>
      reads this, strings, strings.strings, strings.sorted
    {
      if Shape() && strings.Sound() then Some((strings.Model(), Rows())) else None
    }

    /** The table is `rows` with one row replaced, and the strings are as recorded. */
    ghost predicate Holds(rows: seq<seq<nat>>, row: nat, w: Written)
      reads this, strings, strings.strings, strings.sorted
    {
      row < |rows| && |w.cells| == |types| && State() == Some((w.pool, rows[row := w.cells]))
    }

    /** The loop body of table_view_set_row; `goal` is what the loop leads to. */
    method WriteMasked(row: nat, rec: seq<Field>, mask: set<nat>, c: nat, ghost rows: seq<seq<nat>>, ghost w: Written,
          ghost goal: (Written, seq<Option<H.Index>>))
      returns (r: Status, ghost w': Written)
      requires Holds(rows, row, w) && c < |types| && RecordOk(rec) && PlainTypes(types) && w.status == Success
      requires goal == Remaining(types, w, rec, mask, c, Flag(row), hash)
      modifies this`data, this`hash, strings, strings.strings, strings.sorted
      ensures Holds(rows, row, w') && r == w'.status
      ensures goal == if r == Success then Remaining(types, w', rec, mask, c + 1, Flag(row), hash) else (w', hash)
      ensures old(IndexesAgree()) ==> IndexesAgree()
      ensures strings.strings == old(strings.strings) || fresh(strings.strings)
      ensures strings.sorted == old(strings.sorted) || fresh(strings.sorted)
    {
      RemainingStep(types, w, rec, mask, c, Flag(row), hash);
      r, w' := Success, w;
      if c in mask {
        w' := SetColumn(types, w.pool, w.cells, rec, c, Flag(row));
        r := WriteColumn(row, rec, c);
        assert rows[row := w.cells][row := w'.cells] == rows[row := w'.cells];
      }
    }

    /** One masked column of table_view_set_row: null fields are stored as 0. */
    method WriteColumn(row: nat, rec: seq<Field>, c: nat) returns (r: Status)
      requires Shape() && row < |data| && c < |types| && strings.Sound()
      requires RecordOk(rec) && PlainTypes(types)
      modifies this`data, this`hash, strings, strings.strings, strings.sorted
      ensures Shape() && strings.Shape()
      ensures var w := SetColumn(types, old(strings.Model()), old(Rows())[row], rec, c, Flag(row));
        && r == w.status && strings.Model() == w.pool && Rows() == old(Rows())[row := w.cells]
      ensures hash == IndexesAfter(types, old(strings.Model()), old(Rows())[row], rec, c, old(hash))
      ensures old(IndexesAgree()) ==> IndexesAgree()
      ensures strings.strings == old(strings.strings) || fresh(strings.strings)
      ensures strings.sorted == old(strings.sorted) || fresh(strings.sorted)
    {
      if IsNullField(rec, c + 1) {
        r := SetInt(row, c + 1, 0);
      } else {
        r := SetColumnValue(row, rec, c);
      }
    }

    // -------------------------------------------------------------------------------------------
    // Keys
    // -------------------------------------------------------------------------------------------

    /** compare_record. */
    method CompareRecord(row: nat, rec: seq<Field>) returns (c: int)
      requires Shape() && row < |data| && strings.Sound()
      ensures c == CompareFrom(types, strings.Model(), Rows()[row], rec, 0)
    {
      for i := 0 to |types|
        invariant CompareFrom(types, strings.Model(), Rows()[row], rec, 0)
          == CompareFrom(types, strings.Model(), Rows()[row], rec, i)
      {
        if IsKey(types[i]) {
          var r, ivalue := GetValue(rec, i + 1);
          if r != Success {
            return 1;
          }
          var r', x := FetchInt(row, i + 1);
          if r' != Success {
            return -1;
          }
          if ivalue > x {
            return 1;
          } else if ivalue == x {
            if i == |types| - 1 {
              return 0;
            }
          } else {
            return -1;
          }
        }
      }
      c := 1;
    }

    /** find_insert_index: binary search for the place of a new row. */
    method FindInsertIndex(rec: seq<Field>) returns (at: nat)
      requires Shape() && strings.Sound()
      ensures at <= |data|
      ensures Splits(types, strings.Model(), Rows(), rec) ==> at == Place(types, strings.Model(), Rows(), rec)
    {
      ghost var p, rows := strings.Model(), Rows();
      ghost var place, splits := Place(types, p, rows, rec), Splits(types, p, rows, rec);
      var low: int, high: int := 0, |data| - 1;
      while low <= high
        invariant 0 <= low <= high + 1 <= |data|
        invariant splits ==> low <= place <= high + 1
        decreases high - low
      {
        var idx := (low + high) / 2;
        var c := CompareRecord(idx, rec);
        if c < 0 {
          high := idx - 1;
        } else if c > 0 {
          low := idx + 1;
        } else {
          return idx;
        }
      }
      at := high + 1;
    }

    /** msi_record_to_row; None when a key string is in no row. */
    method RecordToRow(rec: seq<Field>) returns (cells: Option<seq<nat>>)
      requires strings.Sound()
      ensures cells.Some? ==> |cells.value| == |types|
      ensures SearchKey(types, strings.Model(), rec) == if cells.Some? then Some(KeyOf(types, cells.value)) else None
    {
      var row: seq<nat> := seq(|types|, _ => 0);
      for i := 0 to |types|
        invariant |row| == |types|
        invariant forall d :: 0 <= d < i && IsKey(types[d]) ==> SearchValue(types, strings.Model(), rec, d) == Some(row[d])
      {
        if IsKey(types[i]) {
          var v := KeyValue(rec, i);
          if v.None? {
            SearchKeyColumns(types, strings.Model(), rec, row, 0);
            return None;
          }
          row := row[i := v.value];
        }
      }
      SearchKeyColumns(types, strings.Model(), rec, row, 0);
      cells := Some(row);
    }

    method KeyValue(rec: seq<Field>, c: nat) returns (v: Option<nat>)
      requires strings.Sound() && c < |types|
      ensures v == SearchValue(types, strings.Model(), rec, c)
    {
      if IsString(types[c]) && !IsBinary(types[c]) {
        var str := GetStringRaw(rec, c + 1);
        if str.None? {
          return Some(0);
        }
        var r, id := strings.IdFromString(str.value);
        if r != Success {
          return None;
        }
        return Some(id);
      }
      var i := GetInt(rec, c + 1);
      if i == NULL_INT {
        return Some(0);
      }
      v := Some(if types[c] % 0x100 == 2 then (i + 0x8000) % TWO32 else (i + TWO31) % TWO32);
    }

    /** msi_row_matches: no table without a key column ever matches. */
    method RowMatches(row: nat, cells: seq<nat>) returns (r: Status)
      requires Shape() && row < |data| && |cells| == |types|
      ensures r == Success || r == FunctionFailed
      ensures r == Success <==> HasKey(types) && SameKeys(types, Rows()[row], cells, |types|)
    {
      ghost var own := Rows()[row];
      r := FunctionFailed;
      for i := 0 to |types|
        invariant SameKeys(types, own, cells, i)
        invariant r == if KeyBelow(types, i) then Success else FunctionFailed
      {
        if IsKey(types[i]) {
          var _, x := FetchInt(row, i + 1);
          if x != cells[i] {
            return FunctionFailed;
          }
          r := Success;
        }
      }
    }

    /** msi_table_find_row. */
    method FindRow(rec: seq<Field>) returns (r: Status)
      requires Shape() && strings.Sound()
      ensures r == if KeyTaken(types, strings.Model(), Rows(), rec) then Success else FunctionFailed
    {
      r := FunctionFailed;
      var cells := RecordToRow(rec);
      if cells.None? {
        return;
      }
      for i := 0 to |data|
        invariant forall k :: 0 <= k < i ==> !(HasKey(types) && KeyOf(types, Rows()[k]) == KeyOf(types, cells.value))
      {
        KeyColumns(types, Rows()[i], cells.value, 0);
        var m := RowMatches(i, cells.value);
        if m == Success {
          return Success;
        }
      }
    }

    /** table_validate_new. */
    method ValidateNew(rec: seq<Field>) returns (r: Status)
      requires Shape() && strings.Sound()
      ensures r == Validate(types, strings.Model(), Rows(), rec)
      ensures r == InvalidData <==>
        exists c :: 0 <= c < |types| && Refuses(types[c], if c < |rec| then rec[c] else NullField)
    {
      ValidateMissing(types, strings.Model(), Rows(), rec);
      for i := 0 to |types|
        invariant forall c :: 0 <= c < i ==> !LacksValue(types, rec, c)
      {
        if LacksValue(types, rec, i) {
          return InvalidData;
        }
      }
      var found := FindRow(rec);
      r := if found == Success then FunctionFailed else Success;
    }

    // -------------------------------------------------------------------------------------------
    // New rows
    // -------------------------------------------------------------------------------------------

    /** table_create_new_row and the shift that makes room: the rows from `row` on move up, and the row
        at `row` keeps its old bytes. */
    method MakeRoom(row: nat, temporary: bool)
      requires Shape() && row <= |data|
      modifies this`data, this`persistent
      ensures Shape() && hash == old(hash)
      ensures Rows() == InsertRowAt(old(Rows()), row, Stale(types, old(Rows()), row))
      ensures persistent == old(persistent)[..row] + [!temporary] + old(persistent)[row..]
    {
      ghost var before, flags := data, persistent;
      data := data + [ZeroRow(types)];
      persistent := persistent + [!temporary];
      var i := |data| - 1;
      while i > row
        invariant row <= i < |data| && Opened(before, data, i) && Opened(flags, persistent, i)
        invariant |flags| == |before| && (i == |before| ==> data[i] == ZeroRow(types))
      {
        OpenStep(before, data, i);
        OpenStep(flags, persistent, i);
        data := data[i := data[i - 1]];
        persistent := persistent[i := persistent[i - 1]];
        i := i - 1;
      }
      persistent := persistent[row := !temporary];
      RoomMade(types, before, data, row);
      Shifted(flags, persistent, row);
    }

    /** table_view_insert_row; `at` is where the row went. */
    method InsertRow(rec: seq<Field>, row: Option<nat>, temporary: bool) returns (r: Status, ghost at: nat)
      requires Shape() && strings.Sound() && RecordOk(rec) && PlainTypes(types)
      requires row.Some? ==> row.value <= |data|
      modifies this, strings, strings.strings, strings.sorted
      ensures Shape() && strings.Sound()
      ensures at <= |old(data)| && (row.Some? ==> at == row.value)
      ensures row.None? && (HasKey(types) ==> KeySorted(types, old(Rows()))) ==>
        at == old(Place(types, strings.Model(), Rows(), rec))
      ensures if Validate(types, old(strings.Model()), old(Rows()), rec) != Success
        then r == FunctionFailed && Rows() == old(Rows()) && strings.Model() == old(strings.Model()) &&
             hash == old(hash) && persistent == old(persistent)
        else var n := InsertAtRow(types, old(strings.Model()), old(Rows()), rec, at, tablePersistent && !temporary);
             r == n.status && Rows() == n.rows && strings.Model() == n.pool &&
             hash == InsertIndexes(types, old(strings.Model()), old(Rows()), rec, at, tablePersistent && !temporary, old(hash)) &&
             persistent == old(persistent)[..at] + [!temporary] + old(persistent)[at..]
      ensures (old(IndexesAgree()) && |data| > |old(data)| && CellsNamed(types, old(strings.Model()), Stale(types, old(Rows()), at))) ==>
        (IndexesAgree() <==> forall c :: 0 <= c < |types| && old(hash)[c].Some? ==>
          WritesColumn(types, old(strings.Model()), Stale(types, old(Rows()), at), rec, AllColumns(types), c))
    {
      r := ValidateNew(rec);
      if r != Success {
        at := if row.Some? then row.value else Place(types, strings.Model(), Rows(), rec);
        return FunctionFailed, at;
      }
      var i := ChooseRow(rec, row);
      at := i;
      r := InsertAt(rec, i, temporary);
    }

    /** The row asked for, or the place that the key decides. */
    method ChooseRow(rec: seq<Field>, row: Option<nat>) returns (i: nat)
      requires Shape() && strings.Sound() && PlainTypes(types) && (row.Some? ==> row.value <= |data|)
      requires Validate(types, strings.Model(), Rows(), rec) == Success
      ensures i <= |data| && (row.Some? ==> i == row.value)
      ensures row.None? && (HasKey(types) ==> KeySorted(types, Rows())) ==> i == Place(types, strings.Model(), Rows(), rec)
    {
      if row.None? {
        RowsAreWords();
        i := FindInsertIndex(rec);
        if HasKey(types) ==> KeySorted(types, Rows()) {
          PlaceSplits(types, strings.Model(), Rows(), rec);
        }
      } else {
        i := row.value;
      }
    }

    lemma RowsAreWords()
      requires Shape() && PlainTypes(types)
      ensures forall i :: 0 <= i < |data| ==> Words(Rows()[i])
    {
      forall i, c | 0 <= i < |data| && 0 <= c < |types|
        ensures Rows()[i][c] < TWO32
      {
        assert Plain(types[c]);
        CellsBelow(types, data[i], c);
        CellLimitIs(types[c]);
      }
    }

    /** The part of table_view_insert_row that follows the choice of the row. */
    method InsertAt(rec: seq<Field>, i: nat, temporary: bool) returns (r: Status)
      requires Shape() && strings.Sound() && RecordOk(rec) && PlainTypes(types) && i <= |data|
      modifies this, strings, strings.strings, strings.sorted
      ensures Shape() && strings.Sound()
      ensures var n := InsertAtRow(types, old(strings.Model()), old(Rows()), rec, i, tablePersistent && !temporary);
        r == n.status && Rows() == n.rows && strings.Model() == n.pool
      ensures hash == InsertIndexes(types, old(strings.Model()), old(Rows()), rec, i, tablePersistent && !temporary, old(hash))
      ensures persistent == old(persistent)[..i] + [!temporary] + old(persistent)[i..]
      ensures (old(IndexesAgree()) && CellsNamed(types, old(strings.Model()), Stale(types, old(Rows()), i))) ==>
        (IndexesAgree() <==> forall c :: 0 <= c < |types| && old(hash)[c].Some? ==>
          WritesColumn(types, old(strings.Model()), Stale(types, old(Rows()), i), rec, AllColumns(types), c))
    {
      ghost var rows := Rows();
      if IndexesAgree() && CellsNamed(types, strings.Model(), Stale(types, rows, i)) {
        SurvivorsStale(types, strings.Model(), rows, rec, i, tablePersistent && !temporary, hash);
      }
      MakeRoom(i, temporary);
      var mask := AllColumns(types);
      r := SetRow(i, rec, mask);
      Refilled(rows, i, Stale(types, rows, i), Rows()[i]);
    }
  }

  /** The byte loop of table_view_set_int. */
  function PutBytes(types: seq<nat>, row: seq<Byte>, c: nat, val: nat): (row': seq<Byte>)
    requires IsRow(types, row) && c < |types|
    ensures IsRow(types, row')
  {
    PutSlice(types, row, c, Bytes(val, Width(types[c], LONG_STR_BYTES)))
  }

  lemma CellsBelow(types: seq<nat>, row: seq<Byte>, c: nat)
    requires IsRow(types, row) && c < |types|
    ensures Cell(types, row, c) < Limit(types[c])
  {
    WordBound(Slice(types, row, c));
  }

  lemma {:induction false} ZeroWord(b: seq<Byte>)
    requires forall k :: 0 <= k < |b| ==> b[k] == 0
    ensures Word(b) == 0
  {
    if b != [] {
      ZeroWord(b[1..]);
    }
  }

  lemma ZeroCells(types: seq<nat>, row: seq<Byte>)
    requires IsRow(types, row) && forall k :: 0 <= k < |row| ==> row[k] == 0
    ensures forall c :: 0 <= c < |types| ==> Cell(types, row, c) == 0
  {
    forall c | 0 <= c < |types|
      ensures Cell(types, row, c) == 0
    {
      OffsetMonotone(types, LONG_STR_BYTES, c, |types|);
      assert forall k :: 0 <= k < Width(types[c], LONG_STR_BYTES) ==>
        Slice(types, row, c)[k] == row[Offset(types, LONG_STR_BYTES, c) + k];
      ZeroWord(Slice(types, row, c));
    }
  }

  function ZeroRow(types: seq<nat>): (row: seq<Byte>)
    ensures IsRow(types, row) && forall k :: 0 <= k < |row| ==> row[k] == 0
  {
    seq(RowSize(types, LONG_STR_BYTES), _ => 0)
  }

  /** The entries behind place i are moved up by one. */
  ghost predicate Opened<T(!new)>(before: seq<T>, now: seq<T>, i: nat) {
    && |now| == |before| + 1 && i <= |before|
    && (forall k :: 0 <= k <= i && k < |before| ==> now[k] == before[k])
    && (forall k :: i < k < |now| ==> now[k] == before[k - 1])
  }

  lemma OpenStep<T(!new)>(before: seq<T>, now: seq<T>, i: nat)
    requires Opened(before, now, i) && i > 0
    ensures Opened(before, now[i := now[i - 1]], i - 1)
  {
  }

  /** The entries behind place row, up to i, are moved down by one. */
  ghost predicate Closing<T(!new)>(before: seq<T>, now: seq<T>, row: nat, i: nat) {
    && |now| == |before| && row < i <= |before|
    && (forall k :: 0 <= k < row ==> now[k] == before[k])
    && (forall k :: row <= k < i - 1 ==> now[k] == before[k + 1])
    && (forall k :: i - 1 < k < |before| ==> now[k] == before[k])
  }

  lemma CloseStep<T(!new)>(before: seq<T>, now: seq<T>, row: nat, i: nat)
    requires Closing(before, now, row, i) && i < |before|
    ensures Closing(before, now[i - 1 := now[i]], row, i + 1)
  {
  }

  lemma Closed<T(!new)>(before: seq<T>, now: seq<T>, row: nat)
    requires Closing(before, now, row, |before|)
    ensures now[..|now| - 1] == before[..row] + before[row + 1..]
  {
  }

  /** The tail moved up by one place. */
  lemma Shifted<T>(before: seq<T>, after: seq<T>, i: nat)
    requires i <= |before| && |after| == |before| + 1
    requires forall k :: 0 <= k < i ==> after[k] == before[k]
    requires forall k :: i < k < |after| ==> after[k] == before[k - 1]
    ensures after == before[..i] + [after[i]] + before[i..]
  {
  }

  lemma Refilled(rows: seq<seq<nat>>, i: nat, stale: seq<nat>, cells: seq<nat>)
    requires i <= |rows|
    ensures InsertRowAt(rows, i, stale)[i := cells] == InsertRowAt(rows, i, cells)
  {
  }

  lemma RoomCells(types: seq<nat>, before: seq<seq<Byte>>, i: nat, stale: seq<Byte>)
    requires forall k :: 0 <= k < |before| ==> IsRow(types, before[k])
    requires i <= |before| && IsRow(types, stale)
    requires i < |before| ==> stale == before[i]
    requires i == |before| ==> stale == ZeroRow(types)
    ensures var after := before[..i] + [stale] + before[i..];
      && (forall k :: 0 <= k < |after| ==> IsRow(types, after[k]))
      && CellsOf(types, after) == InsertRowAt(CellsOf(types, before), i, Stale(types, CellsOf(types, before), i))
  {
    if i == |before| {
      ZeroCells(types, stale);
    }
    assert Cells(types, stale) == Stale(types, CellsOf(types, before), i);
  }

  lemma RoomMade(types: seq<nat>, before: seq<seq<Byte>>, now: seq<seq<Byte>>, i: nat)
    requires forall k :: 0 <= k < |before| ==> IsRow(types, before[k])
    requires Opened(before, now, i) && (i == |before| ==> now[i] == ZeroRow(types))
    ensures forall k :: 0 <= k < |now| ==> IsRow(types, now[k])
    ensures CellsOf(types, now) == InsertRowAt(CellsOf(types, before), i, Stale(types, CellsOf(types, before), i))
  {
    Shifted(before, now, i);
    RoomCells(types, before, i, now[i]);
  }

  /** The indexes after table_view_insert_row. */
  ghost function InsertIndexes(types: seq<nat>, p: Pool, rows: seq<seq<nat>>, rec: seq<Field>, i: nat, persistent: bool,
        hash: seq<Option<H.Index>>): (after: seq<Option<H.Index>>)
    requires Rectangular(types, rows) && i <= |rows| && |hash| == |types|
    requires Valid(p) && RecordOk(rec) && PlainTypes(types)
    ensures |after| == |types|
  {
    RowIndexes(types, p, Stale(types, rows, i), rec, AllColumns(types), persistent, hash)
  }

  /** After an insertion the indexes are right exactly when every index that had been built belongs to a
      column that was written. */
  lemma SurvivorsStale(types: seq<nat>, p: Pool, rows: seq<seq<nat>>, rec: seq<Field>, i: nat, persistent: bool,
        hash: seq<Option<H.Index>>)
    requires AllAgree(types, hash, rows) && i <= |rows| && Valid(p) && RecordOk(rec) && PlainTypes(types)
    requires CellsNamed(types, p, Stale(types, rows, i))
    ensures var n := InsertAtRow(types, p, rows, rec, i, persistent);
      && Rectangular(types, n.rows)
      && (AllAgree(types, InsertIndexes(types, p, rows, rec, i, persistent, hash), n.rows) <==>
          forall c :: 0 <= c < |types| && hash[c].Some? ==>
            WritesColumn(types, p, Stale(types, rows, i), rec, AllColumns(types), c))
  {
    var cells := Stale(types, rows, i);
    var n := InsertAtRow(types, p, rows, rec, i, persistent);
    InsertAtRowEffect(types, p, rows, rec, i, persistent);
    var after := InsertIndexes(types, p, rows, rec, i, persistent, hash);
    forall c | 0 <= c < |types|
      ensures after[c] == if WritesColumn(types, p, cells, rec, AllColumns(types), c) then None else hash[c]
      ensures hash[c].Some? ==> !H.Agrees(hash[c].value, H.Column(n.rows, c))
    {
      SurvivorsExact(types, p, p, cells, cells, rec, AllColumns(types), 0, persistent, hash, c);
      if hash[c].Some? {
        H.StaleIndex(hash[c].value, H.Column(rows, c), H.Column(n.rows, c));
      }
    }
  }

  /** A search through an index that survived an insertion, against the rows that are there now: the row
      inserted is missed by a search for its value, and the rows from the place on are given by their old
      numbers. The search is right exactly for values that neither the row nor any row from the place on
      has. */
  lemma SurvivorMisleads(types: seq<nat>, rows: seq<seq<nat>>, i: nat, cells: seq<nat>, c: nat, h: H.Index, val: nat)
    requires Rectangular(types, rows) && |cells| == |types| && i <= |rows| && c < |types|
    requires H.Agrees(h, H.Column(rows, c))
    ensures H.Source(h) == Some(H.Column(rows, c))
    ensures var more := InsertRowAt(rows, i, cells);
      var found, right := H.Matches(H.Column(rows, c), val, 0), H.Matches(H.Column(more, c), val, 0);
      && |right| == |found| + (if cells[c] == val then 1 else 0)
      && (found == right <==> cells[c] != val && forall k :: i <= k < |rows| ==> rows[k][c] != val)
  {
    var column, more := H.Column(rows, c), InsertRowAt(rows, i, cells);
    H.SourceOf(h, column);
    assert H.Column(more, c) == column[..i] + [cells[c]] + column[i..];
    H.StaleLookup(column, i, cells[c], val);
    H.MatchesExact(column, val, i);
    if H.Matches(column, val, i) != [] {
      assert H.Matches(column, val, i)[0] in H.Matches(column, val, i);
    }
  }

  // ---------------------------------------------------------------------------------------------
  // An insertion that leaves a wrong index
  // ---------------------------------------------------------------------------------------------

  /** A 16-bit key and a string. */
  const KEYED_TYPES: seq<nat> := [MSITYPE_KEY + MSITYPE_VALID + 2, MSITYPE_VALID + MSITYPE_STRING + 64]

  const ONE_ROW: seq<seq<nat>> := [[0x8002, 1]]
  const TWO_ROWS: seq<seq<nat>> := [[0x8001, 1], [0x8002, 1]]

  /** The record passes validation, and its place is the top. */
  lemma SurvivorPlaced(s: Str)
    requires s != [] && NulFree(s)
    ensures var p, rec := OneString(s, 1), [IntField(1), StrField(s)];
      && Valid(p) && RecordOk(rec) && PlainTypes(KEYED_TYPES) && CellsNamed(KEYED_TYPES, p, ONE_ROW[0])
      && ValueOf(KEYED_TYPES, p, rec, 0) == (Success, 0x8001) && ValueOf(KEYED_TYPES, p, rec, 1) == (Success, 1)
      && Validate(KEYED_TYPES, p, ONE_ROW, rec) == Success && Place(KEYED_TYPES, p, ONE_ROW, rec) == 0
  {
    var types, p, rec := KEYED_TYPES, OneString(s, 1), [IntField(1), StrField(s)];
    OneStringValid(s, 1);
    assert ValueOf(types, p, rec, 0) == (Success, 0x8001);
    assert SearchKeyFrom(types, p, rec, 1) == SearchKeyFrom(types, p, rec, 2) == Some([]);
    assert SearchKey(types, p, rec).value[0] == 0x8001 && KeyOf(types, ONE_ROW[0])[0] == 0x8002;
    assert !LacksValue(types, rec, 0) && !LacksValue(types, rec, 1);
    assert CompareFrom(types, p, ONE_ROW[0], rec, 0) == -1;
  }

  /** Its string is there already; only the key is written. */
  lemma SurvivorWritten(types: seq<nat>, p: Pool, rec: seq<Field>)
    requires types == KEYED_TYPES && Valid(p) && RecordOk(rec) && |rec| == 2 && PlainTypes(types)
    requires ValueOf(types, p, rec, 0) == (Success, 0x8001) && ValueOf(types, p, rec, 1) == (Success, 1)
    ensures SetRow(types, p, ONE_ROW[0], rec, AllColumns(types), true) == Written(Success, p, TWO_ROWS[0])
    ensures InsertAtRow(types, p, ONE_ROW, rec, 0, true).rows == TWO_ROWS
    ensures !WritesColumn(types, p, Stale(types, ONE_ROW, 0), rec, AllColumns(types), 1)
  {
    var w := SetColumn(types, p, ONE_ROW[0], rec, 0, true);
    assert w == Written(Success, p, TWO_ROWS[0]);
    assert SetColumn(types, p, w.cells, rec, 1, true) == w;
    var mask := AllColumns(types);
    assert types[0] > 0 && types[1] > 0 && 0 in mask && 1 in mask;
    assert SetRowFrom(types, p, w.cells, rec, mask, 2, true) == w;
    assert SetRowFrom(types, p, w.cells, rec, mask, 1, true) == w;
    assert SetRowFrom(types, p, ONE_ROW[0], rec, mask, 0, true) == w;
  }

  /** Into a table with the row (2, s) comes the row (1, s): it goes first, over a copy of the row whose
      string it has, so an index on the strings survives and finds one of the two rows. */
  lemma OneSurvivor(s: Str)
    requires s != [] && NulFree(s)
    ensures var p, rec := OneString(s, 1), [IntField(1), StrField(s)];
      && Valid(p) && RecordOk(rec) && PlainTypes(KEYED_TYPES) && CellsNamed(KEYED_TYPES, p, ONE_ROW[0])
      && Validate(KEYED_TYPES, p, ONE_ROW, rec) == Success && Place(KEYED_TYPES, p, ONE_ROW, rec) == 0
      && InsertAtRow(KEYED_TYPES, p, ONE_ROW, rec, 0, true).rows == TWO_ROWS
      && !WritesColumn(KEYED_TYPES, p, Stale(KEYED_TYPES, ONE_ROW, 0), rec, AllColumns(KEYED_TYPES), 1)
    ensures H.Matches(H.Column(ONE_ROW, 1), 1, 0) == [0]
    ensures H.Matches(H.Column(TWO_ROWS, 1), 1, 0) == [0, 1]
  {
    SurvivorPlaced(s);
    SurvivorWritten(KEYED_TYPES, OneString(s, 1), [IntField(1), StrField(s)]);
    FoundAndMissed();
  }

  lemma FoundAndMissed()
    ensures H.Matches(H.Column(ONE_ROW, 1), 1, 0) == [0]
    ensures H.Matches(H.Column(TWO_ROWS, 1), 1, 0) == [0, 1]
  {
    var one, two := H.Column(ONE_ROW, 1), H.Column(TWO_ROWS, 1);
    H.MatchesStep(one, 1, 0);
    H.MatchesStep(two, 1, 0);
    H.MatchesStep(two, 1, 1);
    assert H.Matches(one, 1, 1) == H.Matches(two, 1, 2) == [];
  }
}
