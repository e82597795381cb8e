/** The column-major stored form of a table (save_table and read_table_from_storage in libmsi/table.c). */
module TableStorage {
  import opened Prelude
  import opened LittleEndian
  import opened TableLayout

  // ---------------------------------------------------------------------------------------------
  // Positions
  // ---------------------------------------------------------------------------------------------

  /** Where the bytes of column j of row i start in a stored table of n rows. */
  function At(types: seq<nat>, strref: nat, n: nat, j: nat, i: nat): nat
    requires j < |types|
  {
    Offset(types, strref, j) * n + i * Width(types[j], strref)
  }

  /** The cell lies inside the block of its column. */
  lemma InsideColumn(types: seq<nat>, strref: nat, n: nat, j: nat, i: nat)
    requires j < |types| && i < n
    ensures Offset(types, strref, j) * n <= At(types, strref, n, j, i)
    ensures At(types, strref, n, j, i) + Width(types[j], strref) <= Offset(types, strref, j + 1) * n
  {
    var w := Width(types[j], strref);
    ProductStep(i, n, w);
    ProductSum(Offset(types, strref, j), w, n);
  }

  lemma ScaledOffsets(types: seq<nat>, strref: nat, n: nat, j: nat, k: nat)
    requires j <= k <= |types|
    ensures Offset(types, strref, j) * n <= Offset(types, strref, k) * n
  {
    OffsetMonotone(types, strref, j, k);
    ProductMonotone(Offset(types, strref, j), Offset(types, strref, k), n);
  }

  lemma InBounds(types: seq<nat>, strref: nat, n: nat, j: nat, i: nat)
    requires j < |types| && i < n
    ensures At(types, strref, n, j, i) + Width(types[j], strref) <= RowSize(types, strref) * n
  {
    InsideColumn(types, strref, n, j, i);
    ScaledOffsets(types, strref, n, j + 1, |types|);
  }

  /** Different cells occupy disjoint ranges. */
  lemma Disjoint(types: seq<nat>, strref: nat, n: nat, j: nat, i: nat, j': nat, i': nat)
    requires j < |types| && i < n && j' < |types| && i' < n && (j, i) != (j', i')
    ensures var a, b := At(types, strref, n, j, i), At(types, strref, n, j', i');
      a + Width(types[j], strref) <= b || b + Width(types[j'], strref) <= a
  {
    if j == j' {
      if i < i' {
        ProductStep(i, i', Width(types[j], strref));
      } else {
        ProductStep(i', i, Width(types[j], strref));
      }
    } else if j < j' {
      ColumnsApart(types, strref, n, j, i, j', i');
    } else {
      ColumnsApart(types, strref, n, j', i', j, i);
    }
  }

  lemma ColumnsApart(types: seq<nat>, strref: nat, n: nat, j: nat, i: nat, j': nat, i': nat)
    requires j < j' < |types| && i < n && i' < n
    ensures At(types, strref, n, j, i) + Width(types[j], strref) <= At(types, strref, n, j', i')
  {
    InsideColumn(types, strref, n, j, i);
    InsideColumn(types, strref, n, j', i');
    ScaledOffsets(types, strref, n, j + 1, j');
  }

  /** The column whose block holds position p. */
  lemma {:induction false} ColumnOf(types: seq<nat>, strref: nat, n: nat, p: nat, m: nat) returns (j: nat)
    requires m <= |types| && p < Offset(types, strref, m) * n
    ensures j < m && Offset(types, strref, j) * n <= p < Offset(types, strref, j + 1) * n
  {
    if p < Offset(types, strref, m - 1) * n {
      j := ColumnOf(types, strref, n, p, m - 1);
    } else {
      j := m - 1;
    }
  }

  /** The positions of (column, row, byte) cover the stored table: with Disjoint and InBounds, a
      bijection onto [0, n * row size). */
  lemma EveryPosition(types: seq<nat>, strref: nat, n: nat, p: nat) returns (j: nat, i: nat, k: nat)
    requires p < RowSize(types, strref) * n
    ensures j < |types| && i < n && k < Width(types[j], strref)
    ensures p == At(types, strref, n, j, i) + k
  {
    j := ColumnOf(types, strref, n, p, |types|);
    var w, base := Width(types[j], strref), Offset(types, strref, j) * n;
    ProductSum(Offset(types, strref, j), w, n);
    i, k := Divided(p - base, w, n);
  }

  lemma Divided(q: nat, w: nat, n: nat) returns (i: nat, k: nat)
    requires q < w * n
    ensures i < n && k < w && q == i * w + k
  {
    i, k := q / w, q % w;
    assert q == i * w + k;
    if i >= n {
      ProductMonotone(n, i, w);
      assert false;
    }
  }

  // ---------------------------------------------------------------------------------------------
  // Stored cells
  // ---------------------------------------------------------------------------------------------

  /** The stored bytes of column j of row i. */
  function StoredCell(types: seq<nat>, strref: nat, n: nat, raw: seq<Byte>, j: nat, i: nat): (b: seq<Byte>)
    requires |raw| == RowSize(types, strref) * n && j < |types| && i < n
    ensures |b| == Width(types[j], strref)
  {
    InBounds(types, strref, n, j, i);
    var at := At(types, strref, n, j, i);
    raw[at..at + Width(types[j], strref)]
  }

  ghost predicate AllRows(types: seq<nat>, rows: seq<seq<Byte>>) {
    forall i :: 0 <= i < |rows| ==> IsRow(types, rows[i])
  }

  /** The low bytes of a cell that are stored. */
  function Narrowed(types: seq<nat>, strref: nat, row: seq<Byte>, j: nat): (b: seq<Byte>)
    requires IsRow(types, row) && j < |types| && 2 <= strref <= 3
    ensures |b| == Width(types[j], strref)
  {
    WidthNarrows(types[j], strref);
    Slice(types, row, j)[..Width(types[j], strref)]
  }

  /** raw is the stored form of the rows. */
  ghost predicate Stores(types: seq<nat>, strref: nat, rows: seq<seq<Byte>>, raw: seq<Byte>) {
    && 2 <= strref <= 3 && AllRows(types, rows) && |raw| == RowSize(types, strref) * |rows|
    && forall i, j :: 0 <= i < |rows| && 0 <= j < |types| ==>
         StoredCell(types, strref, |rows|, raw, j, i) == Narrowed(types, strref, rows[i], j)
  }

  /** A table has only one stored form: no byte is left open. */
  lemma StoredFormUnique(types: seq<nat>, strref: nat, rows: seq<seq<Byte>>, a: seq<Byte>, b: seq<Byte>)
    requires Stores(types, strref, rows, a) && Stores(types, strref, rows, b)
    ensures a == b
  {
    forall p | 0 <= p < |a|
      ensures a[p] == b[p]
    {
      var j, i, k := EveryPosition(types, strref, |rows|, p);
      InBounds(types, strref, |rows|, j, i);
      assert StoredCell(types, strref, |rows|, a, j, i)[k] == StoredCell(types, strref, |rows|, b, j, i)[k];
    }
  }

  /** A string id that two bytes cannot hold, as the writer tests it: 0x10000 itself gets through. */
  predicate Rejected(types: seq<nat>, strref: nat, row: seq<Byte>, j: nat)
    requires IsRow(types, row) && j < |types|
  {
    IsString(types[j]) && Width(types[j], strref) < Width(types[j], LONG_STR_BYTES)
    && Cell(types, row, j) > Pow256(strref)
  }

  ghost predicate NoneRejected(types: seq<nat>, strref: nat, rows: seq<seq<Byte>>)
    requires AllRows(types, rows)
  {
    forall i, j :: 0 <= i < |rows| && 0 <= j < |types| ==> !Rejected(types, strref, rows[i], j)
  }

  /** The cells of the first i rows, and the first j of row i. */
  ghost predicate StoredSoFar(types: seq<nat>, strref: nat, rows: seq<seq<Byte>>, raw: seq<Byte>, i: nat, j: nat) {
    && 2 <= strref <= 3 && AllRows(types, rows) && |raw| == RowSize(types, strref) * |rows|
    && forall i', j' :: 0 <= i' < |rows| && 0 <= j' < |types| && (i' < i || (i' == i && j' < j)) ==>
         && StoredCell(types, strref, |rows|, raw, j', i') == Narrowed(types, strref, rows[i'], j')
         && !Rejected(types, strref, rows[i'], j')
  }

  /** Overwriting one cell leaves the others alone. */
  lemma OtherCellKept(types: seq<nat>, strref: nat, n: nat, raw: seq<Byte>, more: seq<Byte>, j: nat, i: nat,
        j': nat, i': nat)
    requires |raw| == |more| == RowSize(types, strref) * n
    requires j < |types| && i < n && j' < |types| && i' < n && (j, i) != (j', i')
    requires var at := At(types, strref, n, j, i); forall p ::
      0 <= p < |raw| && !(at <= p < at + Width(types[j], strref)) ==> more[p] == raw[p]
    ensures StoredCell(types, strref, n, more, j', i') == StoredCell(types, strref, n, raw, j', i')
  {
    Disjoint(types, strref, n, j, i, j', i');
    InBounds(types, strref, n, j', i');
  }

  /** The innermost loop of save_table. */
  method PutCell(raw: array<Byte>, at: nat, b: seq<Byte>)
    requires at + |b| <= raw.Length
    modifies raw
    ensures raw[at..at + |b|] == b
    ensures raw[..at + |b|] == old(raw[..at]) + b
    ensures forall p :: 0 <= p < raw.Length && !(at <= p < at + |b|) ==> raw[p] == old(raw[p])
  {
    for k := 0 to |b|
      invariant forall p :: at <= p < at + k ==> raw[p] == b[p - at]
      invariant forall p :: 0 <= p < raw.Length && !(at <= p < at + k) ==> raw[p] == old(raw[p])
    {
      raw[at + k] := b[k];
    }
  }

  /** save_table for rows that are all persistent. It fails on the first id that it finds too large. */
  method SaveTable(types: seq<nat>, strref: nat, rows: seq<seq<Byte>>) returns (r: Status, raw: array<Byte>)
    requires 2 <= strref <= 3 && AllRows(types, rows)
    ensures r == Success || r == FunctionFailed
    ensures r == Success <==> NoneRejected(types, strref, rows)
    ensures r == Success ==> Stores(types, strref, rows, raw[..])
  {
    var rowSize := RowSize(types, strref);
    raw := new Byte[rowSize * |rows|](_ => 0);
    for i := 0 to |rows|
      invariant StoredSoFar(types, strref, rows, raw[..], i, 0)
    {
      r := SaveRow(types, strref, rows, i, raw);
      if r != Success {
        return;
      }
    }
    r := Success;
  }

  method SaveRow(types: seq<nat>, strref: nat, rows: seq<seq<Byte>>, i: nat, raw: array<Byte>) returns (r: Status)
    requires i < |rows| && StoredSoFar(types, strref, rows, raw[..], i, 0)
    modifies raw
    ensures r == Success ==> StoredSoFar(types, strref, rows, raw[..], i + 1, 0)
    ensures r != Success ==> r == FunctionFailed && !NoneRejected(types, strref, rows)
  {
    var ofs := 0;
    var n := |rows|;
    for j := 0 to |types|
      invariant ofs == Offset(types, strref, j)
      invariant StoredSoFar(types, strref, rows, raw[..], i, j)
    {
      if IsString(types[j]) && Width(types[j], strref) < Width(types[j], LONG_STR_BYTES) {
        var id := Cell(types, rows[i], j);
        if id > Pow256(strref) {
          assert Rejected(types, strref, rows[i], j);
          return FunctionFailed;
        }
      }
      InBounds(types, strref, n, j, i);
      ghost var before := raw[..];
      var b := Narrowed(types, strref, rows[i], j);
      PutCell(raw, ofs * n + i * Width(types[j], strref), b);
      CellAdded(types, strref, rows, before, raw[..], i, j);
      ofs := ofs + Width(types[j], strref);
    }
    r := Success;
  }

  lemma CellAdded(types: seq<nat>, strref: nat, rows: seq<seq<Byte>>, raw: seq<Byte>, more: seq<Byte>, i: nat, j: nat)
    requires i < |rows| && j < |types| && StoredSoFar(types, strref, rows, raw, i, j) && |more| == |raw|
    requires StoredCell(types, strref, |rows|, more, j, i) == Narrowed(types, strref, rows[i], j)
    requires !Rejected(types, strref, rows[i], j)
    requires var at := At(types, strref, |rows|, j, i); forall p ::
      0 <= p < |raw| && !(at <= p < at + Width(types[j], strref)) ==> more[p] == raw[p]
    ensures StoredSoFar(types, strref, rows, more, i, j + 1)
  {
    forall i', j' | 0 <= i' < |rows| && 0 <= j' < |types| && (i' < i || (i' == i && j' < j))
      ensures StoredCell(types, strref, |rows|, more, j', i') == Narrowed(types, strref, rows[i'], j')
    {
      OtherCellKept(types, strref, |rows|, raw, more, j, i, j', i');
    }
  }

  // ---------------------------------------------------------------------------------------------
  // Reading
  // ---------------------------------------------------------------------------------------------

  /** A stored cell in memory: a short string id is filled up with zeros. */
  function Widened(t: nat, b: seq<Byte>): (m: seq<Byte>)
    ensures |b| <= Width(t, LONG_STR_BYTES) ==> |m| == Width(t, LONG_STR_BYTES)
  {
    if |b| < Width(t, LONG_STR_BYTES) then b + Zeros(Width(t, LONG_STR_BYTES) - |b|) else b
  }

  /** Columns 0, ..., j-1 of row i as they are read. */
  function ReadColumns(types: seq<nat>, strref: nat, n: nat, raw: seq<Byte>, i: nat, j: nat): (row: seq<Byte>)
    requires 2 <= strref <= 3 && |raw| == RowSize(types, strref) * n && i < n && j <= |types|
    ensures |row| == Offset(types, LONG_STR_BYTES, j)
  {
    if j == 0 then []
    else
      WidthNarrows(types[j - 1], strref);
      ReadColumns(types, strref, n, raw, i, j - 1) + Widened(types[j - 1], StoredCell(types, strref, n, raw, j - 1, i))
  }

  lemma ColumnRead(types: seq<nat>, strref: nat, n: nat, raw: seq<Byte>, i: nat, j: nat)
    requires 2 <= strref <= 3 && |raw| == RowSize(types, strref) * n && i < n && j < |types|
    ensures Offset(types, strref, j + 1) == Offset(types, strref, j) + Width(types[j], strref)
    ensures Offset(types, LONG_STR_BYTES, j + 1) == Offset(types, LONG_STR_BYTES, j) + Width(types[j], LONG_STR_BYTES)
    ensures Offset(types, LONG_STR_BYTES, j + 1) <= RowSize(types, LONG_STR_BYTES)
    ensures ReadColumns(types, strref, n, raw, i, j + 1) ==
      ReadColumns(types, strref, n, raw, i, j) + Widened(types[j], StoredCell(types, strref, n, raw, j, i))
  {
    OffsetMonotone(types, LONG_STR_BYTES, j, |types|);
  }

  function ReadRow(types: seq<nat>, strref: nat, n: nat, raw: seq<Byte>, i: nat): (row: seq<Byte>)
    requires 2 <= strref <= 3 && |raw| == RowSize(types, strref) * n && i < n
    ensures IsRow(types, row)
  {
    ReadColumns(types, strref, n, raw, i, |types|)
  }

  /** The bytes of columns j, ..., m-1. */
  function RestColumns(types: seq<nat>, strref: nat, n: nat, raw: seq<Byte>, i: nat, j: nat, m: nat): (rest: seq<Byte>)
    requires 2 <= strref <= 3 && |raw| == RowSize(types, strref) * n && i < n && j <= m <= |types|
    ensures ReadColumns(types, strref, n, raw, i, m) == ReadColumns(types, strref, n, raw, i, j) + rest
    decreases m
  {
    if j == m then []
    else
      RestColumns(types, strref, n, raw, i, j, m - 1) + Widened(types[m - 1], StoredCell(types, strref, n, raw, m - 1, i))
  }

  /** Each column of a row read is the stored cell, widened. */
  lemma ReadSlice(types: seq<nat>, strref: nat, n: nat, raw: seq<Byte>, i: nat, j: nat)
    requires 2 <= strref <= 3 && |raw| == RowSize(types, strref) * n && i < n && j < |types|
    ensures Slice(types, ReadRow(types, strref, n, raw, i), j) == Widened(types[j], StoredCell(types, strref, n, raw, j, i))
  {
    WidthNarrows(types[j], strref);
    var before, own := ReadColumns(types, strref, n, raw, i, j), Widened(types[j], StoredCell(types, strref, n, raw, j, i));
    var _ := RestColumns(types, strref, n, raw, i, j + 1, |types|);
    assert ReadColumns(types, strref, n, raw, i, j + 1) == before + own;
  }

  /** read_table_from_storage. */
  method ReadTable(types: seq<nat>, strref: nat, raw: seq<Byte>) returns (r: Status, rows: seq<seq<Byte>>)
    requires 2 <= strref <= 3 && types != []
    ensures r == Success <==> |raw| % RowSize(types, strref) == 0
    ensures r == Success ==> |raw| == RowSize(types, strref) * |rows|
    ensures r == Success ==> forall i :: 0 <= i < |rows| ==> rows[i] == ReadRow(types, strref, |rows|, raw, i)
  {
    rows := [];
    var rowSize := RowSize(types, strref);
    OffsetMonotone(types, strref, 0, |types|);
    if |raw| % rowSize != 0 {
      return FunctionFailed, [];
    }
    var n := |raw| / rowSize;
    assert |raw| == rowSize * n;
    for i := 0 to n
      invariant |rows| == i
      invariant forall i' :: 0 <= i' < i ==> rows[i'] == ReadRow(types, strref, n, raw, i')
    {
      var row := ReadOneRow(types, strref, n, raw, i);
      rows := rows + [row[..]];
    }
    r := Success;
  }

  method ReadOneRow(types: seq<nat>, strref: nat, n: nat, raw: seq<Byte>, i: nat) returns (row: array<Byte>)
    requires 2 <= strref <= 3 && |raw| == RowSize(types, strref) * n && i < n
    ensures row[..] == ReadRow(types, strref, n, raw, i)
  {
    row := new Byte[RowSize(types, LONG_STR_BYTES)](_ => 0);
    var ofs, ofsMem := 0, 0;
    for j := 0 to |types|
      invariant ofs == Offset(types, strref, j) && ofsMem == Offset(types, LONG_STR_BYTES, j) <= row.Length
      invariant row[..ofsMem] == ReadColumns(types, strref, n, raw, i, j)
    {
      ColumnRead(types, strref, n, raw, i, j);
      ReadStored(types, strref, n, raw, i, j, ofs, row, ofsMem);
      ofsMem := ofsMem + Width(types[j], LONG_STR_BYTES);
      ofs := ofs + Width(types[j], strref);
    }
    assert row[..] == row[..ofsMem];
  }

  /** One column of the reader's row. */
  method ReadStored(types: seq<nat>, strref: nat, n: nat, raw: seq<Byte>, i: nat, j: nat, ofs: nat,
        row: array<Byte>, at: nat)
    requires 2 <= strref <= 3 && |raw| == RowSize(types, strref) * n && i < n && j < |types|
    requires ofs == Offset(types, strref, j) && at + Width(types[j], LONG_STR_BYTES) <= row.Length
    modifies row
    ensures row[..at + Width(types[j], LONG_STR_BYTES)] ==
      old(row[..at]) + Widened(types[j], StoredCell(types, strref, n, raw, j, i))
  {
    WidthNarrows(types[j], strref);
    var b := FetchStored(types, strref, n, raw, i, j, ofs);
    ReadCell(types[j], strref, b, row, at);
  }

  /** The bytes that the reader copies for one cell. */
  method FetchStored(types: seq<nat>, strref: nat, n: nat, raw: seq<Byte>, i: nat, j: nat,
        ofs: nat) returns (b: seq<Byte>)
    requires |raw| == RowSize(types, strref) * n && i < n && j < |types| && ofs == Offset(types, strref, j)
    ensures b == StoredCell(types, strref, n, raw, j, i)
  {
    InBounds(types, strref, n, j, i);
    var at := ofs * n + i * Width(types[j], strref);
    b := raw[at..at + Width(types[j], strref)];
  }

  /** The innermost loops of the reader: copy, and fill a short string id up. */
  method ReadCell(t: nat, strref: nat, b: seq<Byte>, row: array<Byte>, at: nat)
    requires 2 <= strref <= 3 && |b| == Width(t, strref) && at + Width(t, LONG_STR_BYTES) <= row.Length
    modifies row
    ensures |b| <= Width(t, LONG_STR_BYTES)
    ensures row[..at + Width(t, LONG_STR_BYTES)] == old(row[..at]) + Widened(t, b)
  {
    WidthNarrows(t, strref);
    var m := Width(t, LONG_STR_BYTES);
    if IsString(t) && |b| < m {
      PutCell(row, at, b + Zeros(m - |b|));
    } else {
      PutCell(row, at, b);
    }
  }

  // ---------------------------------------------------------------------------------------------
  // Round trip
  // ---------------------------------------------------------------------------------------------

  /** Every string id fits the stored width. */
  ghost predicate IdsFit(types: seq<nat>, strref: nat, row: seq<Byte>)
    requires IsRow(types, row)
  {
    forall j :: 0 <= j < |types| && Width(types[j], strref) < Width(types[j], LONG_STR_BYTES) ==>
      Cell(types, row, j) < Pow256(strref)
  }

  lemma WidenNarrowed(types: seq<nat>, strref: nat, row: seq<Byte>, j: nat)
    requires IsRow(types, row) && j < |types| && 2 <= strref <= 3
    ensures Widened(types[j], Narrowed(types, strref, row, j)) == Slice(types, row, j) <==>
      (Width(types[j], strref) < Width(types[j], LONG_STR_BYTES) ==> Cell(types, row, j) < Pow256(strref))
  {
    WidthNarrows(types[j], strref);
    if Width(types[j], strref) < Width(types[j], LONG_STR_BYTES) {
      var b := Slice(types, row, j);
      assert Narrowed(types, strref, row, j) == [b[0], b[1]];
      assert Widened(types[j], [b[0], b[1]]) == [b[0], b[1]] + Zeros(1) == [b[0], b[1], 0];
      ThreeBytes(b);
    } else {
      var b := Slice(types, row, j);
      assert b[..|b|] == b;
    }
  }

  lemma ThreeBytes(b: seq<Byte>)
    requires |b| == 3
    ensures Word(b) < Pow256(2) <==> b == [b[0], b[1], 0]
  {
    var x: int, y: int, z: int := b[0], b[1], b[2];
    assert Word(b[3..]) == 0 && b[1..][1..] == b[2..] && b[2..][1..] == b[3..];
    assert Word(b[2..]) == z;
    assert Word(b[1..]) == y + 0x100 * z;
    assert Word(b) == x + 0x100 * (y + 0x100 * z);
  }

  /** A row comes back as it was saved exactly when its string ids fit. */
  lemma RowRoundTrip(types: seq<nat>, strref: nat, rows: seq<seq<Byte>>, raw: seq<Byte>, i: nat)
    requires Stores(types, strref, rows, raw) && i < |rows|
    ensures ReadRow(types, strref, |rows|, raw, i) == rows[i] <==> IdsFit(types, strref, rows[i])
  {
    var row := ReadRow(types, strref, |rows|, raw, i);
    forall j | 0 <= j < |types|
      ensures Slice(types, row, j) == Slice(types, rows[i], j) <==>
        (Width(types[j], strref) < Width(types[j], LONG_STR_BYTES) ==> Cell(types, rows[i], j) < Pow256(strref))
    {
      ReadSlice(types, strref, |rows|, raw, i, j);
      WidenNarrowed(types, strref, rows[i], j);
    }
    if IdsFit(types, strref, rows[i]) {
      SlicesDetermineRow(types, row, rows[i], |types|);
      assert row[..|row|] == row && rows[i][..|row|] == rows[i];
    }
  }

  /** What the writer accepts comes back unchanged unless an id is 0x10000 exactly: that one passes its
      test and loses its top byte. */
  lemma AcceptedRoundTrip(types: seq<nat>, strref: nat, rows: seq<seq<Byte>>, raw: seq<Byte>, i: nat)
    requires Stores(types, strref, rows, raw) && NoneRejected(types, strref, rows) && i < |rows|
    ensures ReadRow(types, strref, |rows|, raw, i) != rows[i] <==>
      exists j :: 0 <= j < |types| && Width(types[j], strref) < Width(types[j], LONG_STR_BYTES)
                  && Cell(types, rows[i], j) == Pow256(strref)
  {
    RowRoundTrip(types, strref, rows, raw, i);
    forall j | 0 <= j < |types| && Width(types[j], strref) < Width(types[j], LONG_STR_BYTES)
      ensures Cell(types, rows[i], j) <= Pow256(strref)
    {
      WidthNarrows(types[j], strref);
      assert !Rejected(types, strref, rows[i], j);
    }
  }

  /** A row with that id, in a column of strings whose ids take two bytes. */
  lemma TopByteLost(raw: seq<Byte>)
    requires Stores([MSITYPE_VALID + MSITYPE_STRING + 64], 2, [[0, 0, 1]], raw)
    ensures NoneRejected([MSITYPE_VALID + MSITYPE_STRING + 64], 2, [[0, 0, 1]])
    ensures ReadRow([MSITYPE_VALID + MSITYPE_STRING + 64], 2, 1, raw, 0) != [0, 0, 1]
  {
    var types, row: seq<Byte> := [MSITYPE_VALID + MSITYPE_STRING + 64], [0, 0, 1];
    assert IsRow(types, row) && Slice(types, row, 0) == row && row[1..][1..] == [1] && [1][1..] == [];
    assert Word([1]) == 1 && Word(row[1..]) == 0x100 && Word(row) == 0x10000;
    assert Width(types[0], 2) < Width(types[0], LONG_STR_BYTES) && Cell(types, row, 0) == Pow256(2);
    AcceptedRoundTrip(types, 2, [row], raw, 0);
  }

  /** Where a stored byte is: column after column, each holding its cells row after row, low byte first. */
  lemma ColumnMajor(types: seq<nat>, strref: nat, rows: seq<seq<Byte>>, raw: seq<Byte>, i: nat, j: nat, k: nat)
    requires Stores(types, strref, rows, raw) && i < |rows| && j < |types| && k < Width(types[j], strref)
    ensures k < Width(types[j], LONG_STR_BYTES)
    ensures 0 <= |rows| * Offset(types, strref, j) + i * Width(types[j], strref) + k < |raw|
    ensures Offset(types, LONG_STR_BYTES, j) + k < |rows[i]|
    ensures raw[|rows| * Offset(types, strref, j) + i * Width(types[j], strref) + k] ==
      rows[i][Offset(types, LONG_STR_BYTES, j) + k]
  {
    StoredByte(types, strref, |rows|, raw, i, j, k);
    RowByte(types, strref, rows[i], j, k);
    assert StoredCell(types, strref, |rows|, raw, j, i) == Narrowed(types, strref, rows[i], j);
    assert |rows| * Offset(types, strref, j) == Offset(types, strref, j) * |rows|;
  }

  lemma StoredByte(types: seq<nat>, strref: nat, n: nat, raw: seq<Byte>, i: nat, j: nat, k: nat)
    requires |raw| == RowSize(types, strref) * n && i < n && j < |types| && k < Width(types[j], strref)
    ensures 0 <= Offset(types, strref, j) * n + i * Width(types[j], strref) + k < |raw|
    ensures raw[Offset(types, strref, j) * n + i * Width(types[j], strref) + k] == StoredCell(types, strref, n, raw, j, i)[k]
  {
    InBounds(types, strref, n, j, i);
  }

  lemma RowByte(types: seq<nat>, strref: nat, row: seq<Byte>, j: nat, k: nat)
    requires IsRow(types, row) && j < |types| && 2 <= strref <= 3 && k < Width(types[j], strref)
    ensures k < Width(types[j], LONG_STR_BYTES) && Offset(types, LONG_STR_BYTES, j) + k < |row|
    ensures row[Offset(types, LONG_STR_BYTES, j) + k] == Narrowed(types, strref, row, j)[k]
  {
    WidthNarrows(types[j], strref);
    OffsetMonotone(types, LONG_STR_BYTES, j, |types|);
  }
}
