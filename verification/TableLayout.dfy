/** Where the cells of a table row live in memory and on disk (libmsi/table.c). */
module TableLayout {
  import opened Prelude
  import opened LittleEndian

  const MSITYPE_VALID := 0x100
  const MSITYPE_NULLABLE := 0x1000
  const MSITYPE_KEY := 0x2000

  predicate HasFlag(type_: nat, flag: nat)
    requires flag > 0
  {
    (type_ / flag) % 2 == 1
  }

  predicate IsString(t: nat) { HasFlag(t, MSITYPE_STRING) }
  predicate IsKey(t: nat) { HasFlag(t, MSITYPE_KEY) }
  predicate IsNullable(t: nat) { HasFlag(t, MSITYPE_NULLABLE) }

  /** MSITYPE_IS_BINARY: a string of no size, nullable or not, and nothing else. */
  predicate IsBinary(t: nat) {
    t == MSITYPE_STRING + MSITYPE_VALID || t == MSITYPE_STRING + MSITYPE_VALID + MSITYPE_NULLABLE
  }

  /** bytes_per_column. */
  function Width(t: nat, strref: nat): (w: nat)
    ensures 2 <= strref <= 3 ==> 2 <= w <= 4
  {
    if IsBinary(t) then 2
    else if IsString(t) then strref
    else if t % 0x100 <= 2 then 2
    else 4
  }

  /** The bits of a column type. */
  lemma TypeBits(t: nat, strref: nat)
    ensures IsString(t) <==> t / 0x800 % 2 == 1
    ensures IsNullable(t) <==> t / 0x1000 % 2 == 1
    ensures IsKey(t) <==> t / 0x2000 % 2 == 1
    ensures IsBinary(t) <==> t == 0x900 || t == 0x1900
    ensures !IsBinary(t) && !IsString(t) && (t % 0x100 == 2 || t % 0x100 == 4) ==> Width(t, strref) == t % 0x100
    ensures !IsBinary(t) && IsString(t) ==> Width(t, strref) == strref
  {
  }

  /** Only string ids are narrower on disk than in memory. */
  lemma WidthNarrows(t: nat, strref: nat)
    requires 2 <= strref <= 3
    ensures Width(t, strref) <= Width(t, LONG_STR_BYTES)
    ensures Width(t, strref) < Width(t, LONG_STR_BYTES) <==> strref == 2 && IsString(t) && !IsBinary(t)
  {
  }

  /** Sum of the widths of the first k columns. */
  function Offset(types: seq<nat>, strref: nat, k: nat): nat
    requires k <= |types|
  {
    if k == 0 then 0 else Offset(types, strref, k - 1) + Width(types[k - 1], strref)
  }

  function RowSize(types: seq<nat>, strref: nat): nat { Offset(types, strref, |types|) }

  lemma {:induction false} OffsetMonotone(types: seq<nat>, strref: nat, j: nat, k: nat)
    requires j <= k <= |types|
    ensures Offset(types, strref, j) <= Offset(types, strref, k)
    ensures j < k ==> Offset(types, strref, j) + Width(types[j], strref) <= Offset(types, strref, k)
    decreases k
  {
    if j < k {
      OffsetMonotone(types, strref, j, k - 1);
    }
  }

  /** table_calc_column_offsets: each offset from the one before it. */
  method CalcColumnOffsets(types: seq<nat>) returns (offsets: array<nat>)
    ensures fresh(offsets) && offsets.Length == |types|
    ensures forall c {:trigger offsets[c]} :: 0 <= c < |types| ==> offsets[c] == Offset(types, LONG_STR_BYTES, c)
  {
    offsets := new nat[|types|](_ => 0);
    for i := 0 to |types|
      invariant forall c {:trigger offsets[c]} :: 0 <= c < i ==> offsets[c] == Offset(types, LONG_STR_BYTES, c)
    {
      var at := 0;
      if i > 0 {
        at := offsets[i - 1] + Width(types[i - 1], LONG_STR_BYTES);
      }
      assert at == Offset(types, LONG_STR_BYTES, i);
      offsets[i] := at;
    }
  }

  /** msi_table_get_row_size: a sum for two-byte string ids, the end of the last column for three-byte
      ones. */
  method GetRowSize(types: seq<nat>, offsets: array<nat>, strref: nat) returns (size: nat)
    requires offsets.Length == |types|
    requires forall c {:trigger offsets[c]} :: 0 <= c < |types| ==> offsets[c] == Offset(types, LONG_STR_BYTES, c)
    ensures size == RowSize(types, strref)
  {
    if |types| == 0 {
      return 0;
    }
    if strref != LONG_STR_BYTES {
      size := 0;
      for i := 0 to |types|
        invariant size == Offset(types, strref, i)
      {
        size := size + Width(types[i], strref);
      }
      return;
    }
    size := offsets[|types| - 1] + Width(types[|types| - 1], strref);
  }

  // ---------------------------------------------------------------------------------------------
  // Cells of a row in memory
  // ---------------------------------------------------------------------------------------------

  /** A row in memory is as long as its columns, string ids taking three bytes. */
  predicate IsRow(types: seq<nat>, row: seq<Byte>) { |row| == RowSize(types, LONG_STR_BYTES) }

  /** The bytes of column c. */
  function Slice(types: seq<nat>, row: seq<Byte>, c: nat): (b: seq<Byte>)
    requires IsRow(types, row) && c < |types|
    ensures |b| == Width(types[c], LONG_STR_BYTES)
  {
    OffsetMonotone(types, LONG_STR_BYTES, c, |types|);
    var at := Offset(types, LONG_STR_BYTES, c);
    row[at..at + Width(types[c], LONG_STR_BYTES)]
  }

  /** The stored value of column c (0-based). */
  function Cell(types: seq<nat>, row: seq<Byte>, c: nat): nat
    requires IsRow(types, row) && c < |types|
  {
    Word(Slice(types, row, c))
  }

  function Cells(types: seq<nat>, row: seq<Byte>): (cells: seq<nat>)
    requires IsRow(types, row)
    ensures |cells| == |types|
    ensures forall c :: 0 <= c < |types| ==> cells[c] == Cell(types, row, c)
  {
    seq(|types|, c requires 0 <= c < |types| => Cell(types, row, c))
  }

  function Limit(t: nat): nat { Pow256(Width(t, LONG_STR_BYTES)) }

  /** Overwrites the bytes of column c. */
  function PutSlice(types: seq<nat>, row: seq<Byte>, c: nat, b: seq<Byte>): (row': seq<Byte>)
    requires IsRow(types, row) && c < |types| && |b| == Width(types[c], LONG_STR_BYTES)
    ensures IsRow(types, row')
  {
    OffsetMonotone(types, LONG_STR_BYTES, c, |types|);
    var at := Offset(types, LONG_STR_BYTES, c);
    row[..at] + b + row[at + |b|..]
  }

  /** Columns occupy disjoint ranges: overwriting one changes no other. */
  lemma PutSliceFrame(types: seq<nat>, row: seq<Byte>, c: nat, b: seq<Byte>, d: nat)
    requires IsRow(types, row) && c < |types| && |b| == Width(types[c], LONG_STR_BYTES) && d < |types|
    ensures Slice(types, PutSlice(types, row, c, b), d) == if d == c then b else Slice(types, row, d)
  {
    SlicesApart(types, c, d);
    Patched(row, Offset(types, LONG_STR_BYTES, c), b, Offset(types, LONG_STR_BYTES, d), Width(types[d], LONG_STR_BYTES));
  }

  lemma SlicesApart(types: seq<nat>, c: nat, d: nat)
    requires c < |types| && d < |types|
    ensures Offset(types, LONG_STR_BYTES, c) + Width(types[c], LONG_STR_BYTES) <= RowSize(types, LONG_STR_BYTES)
    ensures Offset(types, LONG_STR_BYTES, d) + Width(types[d], LONG_STR_BYTES) <= RowSize(types, LONG_STR_BYTES)
    ensures c == d
      || Offset(types, LONG_STR_BYTES, d) + Width(types[d], LONG_STR_BYTES) <= Offset(types, LONG_STR_BYTES, c)
      || Offset(types, LONG_STR_BYTES, c) + Width(types[c], LONG_STR_BYTES) <= Offset(types, LONG_STR_BYTES, d)
  {
    if d < c {
      OffsetMonotone(types, LONG_STR_BYTES, d, c);
    } else if c < d {
      OffsetMonotone(types, LONG_STR_BYTES, c, d);
    }
    OffsetMonotone(types, LONG_STR_BYTES, c, |types|);
    OffsetMonotone(types, LONG_STR_BYTES, d, |types|);
  }

  /** What a slice reads after some bytes were overwritten. */
  lemma Patched(row: seq<Byte>, at: nat, b: seq<Byte>, from: nat, n: nat)
    requires at + |b| <= |row| && from + n <= |row|
    requires from + n <= at || at + |b| <= from || (from == at && n == |b|)
    ensures (row[..at] + b + row[at + |b|..])[from..from + n] == if from == at && n == |b| then b else row[from..from + n]
  {
    var now := row[..at] + b + row[at + |b|..];
    assert forall k :: 0 <= k < at ==> now[k] == row[k];
    assert forall k :: at <= k < at + |b| ==> now[k] == b[k - at];
    assert forall k :: at + |b| <= k < |row| ==> now[k] == row[k];
    if from == at && n == |b| {
      assert now[from..from + n] == b;
    } else {
      assert now[from..from + n] == row[from..from + n];
    }
  }

  /** Storing a value and reading the row back. */
  lemma StoreCell(types: seq<nat>, row: seq<Byte>, c: nat, val: nat)
    requires IsRow(types, row) && c < |types|
    ensures var w := Width(types[c], LONG_STR_BYTES);
      Cells(types, PutSlice(types, row, c, Bytes(val, w))) == Cells(types, row)[c := val % Limit(types[c])]
  {
    var w := Width(types[c], LONG_STR_BYTES);
    var row' := PutSlice(types, row, c, Bytes(val, w));
    WordBytes(val, w);
    forall d | 0 <= d < |types|
      ensures Cell(types, row', d) == if d == c then val % Limit(types[c]) else Cell(types, row, d)
    {
      PutSliceFrame(types, row, c, Bytes(val, w), d);
    }
  }

  /** A row is determined by its cells. */
  lemma {:induction false} CellsDetermineRow(types: seq<nat>, a: seq<Byte>, b: seq<Byte>)
    requires IsRow(types, a) && IsRow(types, b) && Cells(types, a) == Cells(types, b)
    ensures a == b
  {
    forall c | 0 <= c < |types|
      ensures Slice(types, a, c) == Slice(types, b, c)
    {
      assert Cells(types, a)[c] == Cells(types, b)[c];
      WordInjective(Slice(types, a, c), Slice(types, b, c));
    }
    SlicesDetermineRow(types, a, b, |types|);
  }

  lemma {:induction false} WordInjective(a: seq<Byte>, b: seq<Byte>)
    requires |a| == |b| && Word(a) == Word(b)
    ensures a == b
  {
    if a != [] {
      assert a[0] == Word(a) % 0x100 && b[0] == Word(b) % 0x100;
      WordInjective(a[1..], b[1..]);
      assert a == [a[0]] + a[1..] && b == [b[0]] + b[1..];
    }
  }

  lemma {:induction false} SlicesDetermineRow(types: seq<nat>, a: seq<Byte>, b: seq<Byte>, k: nat)
    requires IsRow(types, a) && IsRow(types, b) && k <= |types|
    requires forall c :: 0 <= c < |types| ==> Slice(types, a, c) == Slice(types, b, c)
    ensures Offset(types, LONG_STR_BYTES, k) <= |a|
    ensures a[..Offset(types, LONG_STR_BYTES, k)] == b[..Offset(types, LONG_STR_BYTES, k)]
  {
    OffsetMonotone(types, LONG_STR_BYTES, k, |types|);
    if k > 0 {
      SlicesDetermineRow(types, a, b, k - 1);
      var at, end := Offset(types, LONG_STR_BYTES, k - 1), Offset(types, LONG_STR_BYTES, k);
      assert a[at..end] == Slice(types, a, k - 1) == Slice(types, b, k - 1) == b[at..end];
      assert a[..end] == a[..at] + a[at..end] && b[..end] == b[..at] + b[at..end];
    }
  }
}
