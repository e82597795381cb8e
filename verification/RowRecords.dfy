/** Reading a row back into a record (msi_view_get_row in libmsi/libmsi-query.c). */
module RowRecords {
  import opened Prelude
  import opened Records
  import opened StringPools
  import opened TableLayout
  import opened TableRows
  import opened TableViews

  /** The field a stored cell is read as: 0 is left null. */
  function FieldOf(t: nat, p: Pool, cell: nat): Field {
    if cell == 0 then NullField
    else if IsString(t) then
      var s := TextOf(p.slots, cell);
      if InUse(p.slots, cell) && s != [] then StrField(s) else NullField
    else if t % 0x100 == 2 then IntField(ToInt32(cell - 0x8000))
    else IntField(ToInt32(cell - TWO31))
  }

  /** Fields that have a stored form of their own: not the integer that shares 0 with NULL, not the empty
      string, and no text in an integer column or integer in a string column. */
  predicate Storeable(t: nat, f: Field) {
    match f
    case NullField => true
    case IntField(i) => !IsString(t) && i != (if t % 0x100 == 2 then -0x8000 else -TWO31)
    case StrField(s) => IsString(t) && s != []
  }

  /** Record to row to record: a stored field is read back unchanged exactly when it has a stored form
      of its own. The integers that come back are -32767..32767 and -(2^31-1)..2^31-1. */
  lemma ReadBack(t: nat, p: Pool, f: Field, cell: nat)
    requires Plain(t) && Valid(p) && StoresAs(t, p, f, cell)
    requires f.IntField? ==> -TWO31 <= f.i < TWO31
    ensures FieldOf(t, p, cell) == f <==> Storeable(t, f)
  {
    match f {
      case NullField =>
      case IntField(i) =>
        if !IsString(t) {
          IntegerBack(t, i);
        }
      case StrField(s) =>
        if IsString(t) && cell < |p.slots| {
          assert SlotOk(p.slots[cell]);
        }
    }
  }

  /** The smallest 16-bit integer is stored, and read back as NULL. */
  lemma SmallestLost(types: seq<nat>, p: Pool, cells: seq<nat>, persistent: bool)
    requires types == [MSITYPE_VALID + 2] && |cells| == 1 && Valid(p)
    ensures var w := SetColumn(types, p, cells, [IntField(-0x8000)], 0, persistent);
      w == Written(Success, p, [0]) && FieldOf(types[0], p, w.cells[0]) == NullField
  {
    assert cells[0 := 0] == [0];
  }

  lemma IntegerBack(t: nat, i: int)
    requires -TWO31 <= i < TWO31 && Biased(t, i) < TWO32
    requires t % 0x100 == 2 ==> Biased(t, i) < TWO16
    ensures ToInt32(Biased(t, i) - (if t % 0x100 == 2 then 0x8000 else TWO31)) == i
    ensures Biased(t, i) == 0 <==> i == if t % 0x100 == 2 then -0x8000 else -TWO31
  {
    if t % 0x100 == 2 {
      assert Biased(t, i) == 0x8000 + i;
    } else {
      assert Biased(t, i) == i + TWO31;
    }
  }

  /** msi_view_get_row over a table without OBJECT columns. */
  method GetRow(tv: TableView, row: nat) returns (r: Status, rec: seq<Field>)
    requires tv.Shape() && tv.strings.Sound() && PlainTypes(tv.types)
    ensures r == if tv.types == [] then InvalidParameter else if row >= |tv.data| then NoMoreItems else Success
    ensures r == Success ==> |rec| == |tv.types|
    ensures r == Success ==> forall c :: 0 <= c < |rec| ==> rec[c] == FieldOf(tv.types[c], tv.strings.Model(), tv.Rows()[row][c])
  {
    rec := [];
    if |tv.types| == 0 {
      return InvalidParameter, [];
    }
    if row >= |tv.data| {
      return NoMoreItems, [];
    }
    rec := NewRecord(|tv.types|);
    ghost var p, cells := tv.strings.Model(), tv.Rows()[row];
    for i := 1 to |tv.types| + 1
      invariant ReadSoFar(tv.types, p, cells, rec, i - 1)
    {
      var _, ival := tv.FetchInt(row, i);
      var f := NullField;
      if ival != 0 {
        f := ReadField(tv, tv.types[i - 1], ival);
      }
      rec := rec[i - 1 := f];
    }
    r := Success;
  }

  ghost predicate ReadSoFar(types: seq<nat>, p: Pool, cells: seq<nat>, rec: seq<Field>, n: nat) {
    && |rec| == |cells| == |types|
    && forall c {:trigger rec[c]} :: 0 <= c < n && c < |rec| ==> rec[c] == FieldOf(types[c], p, cells[c])
  }

  method ReadField(tv: TableView, t: nat, ival: nat) returns (f: Field)
    requires tv.strings.Sound() && ival != 0
    ensures f == FieldOf(t, tv.strings.Model(), ival)
  {
    if IsString(t) {
      var sval := tv.strings.LookupId(ival);
      f := if sval.None? || sval.value == [] then NullField else StrField(sval.value);
      if InUse(tv.strings.Model().slots, ival) {
        assert SlotOk(tv.strings.Model().slots[ival]);
      }
    } else if t % 0x100 == 2 {
      f := IntField(ToInt32(ival - 0x8000));
    } else {
      f := IntField(ToInt32(ival - TWO31));
    }
  }

  /** A row that stores a record is read back as that record, column by column. */
  lemma RowReadBack(types: seq<nat>, p: Pool, rec: seq<Field>, cells: seq<nat>, c: nat)
    requires PlainTypes(types) && Valid(p) && RecordOk(rec) && StoresRecord(types, p, rec, cells) && c < |types|
    ensures FieldOf(types[c], p, cells[c]) == FieldAt(rec, c) <==> Storeable(types[c], FieldAt(rec, c))
  {
    ReadBack(types[c], p, FieldAt(rec, c), cells[c]);
  }
}
