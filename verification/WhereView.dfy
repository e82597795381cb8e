/** Execution of a WHERE query: search, then sort (where_view_execute and compare_entry in libmsi/where.c). */
module WhereViews {
  import opened Prelude
  import opened Records
  import opened WhereEval
  import opened WherePruning
  import opened WhereOrder
  import opened WhereSearch
  import opened WhereMeaning

  // ---------------------------------------------------------------------------------------------
  // The order of the result
  // ---------------------------------------------------------------------------------------------

  ghost predicate Sortable(ctx: Context, orderBy: seq<ColumnRef>) {
    WellFormed(ctx) && forall i :: 0 <= i < |orderBy| ==> RefersTo(ctx, orderBy[i])
  }

  function KeyCells(ctx: Context, orderBy: seq<ColumnRef>, x: seq<int>): (cells: seq<int>)
    ensures |cells| == |orderBy|
    ensures forall i :: 0 <= i < |cells| ==> cells[i] == Cell(ctx, x, orderBy[i])
  {
    seq(|orderBy|, i requires 0 <= i < |orderBy| => Cell(ctx, x, orderBy[i]))
  }

  /** The ORDER BY cells, then the row indices in the order of the tables. */
  function SortKey(ctx: Context, orderBy: seq<ColumnRef>, x: seq<int>): seq<int> {
    KeyCells(ctx, orderBy, x) + x
  }

  function Compare(ctx: Context, orderBy: seq<ColumnRef>, x: seq<int>, y: seq<int>): int {
    Lex(SortKey(ctx, orderBy, x), SortKey(ctx, orderBy, y))
  }

  /** The stored cell of a column in the row that a tuple has. */
  ghost function CellAt(ctx: Context, c: ColumnRef, x: seq<int>): nat
    requires WellFormed(ctx) && IsTuple(ctx, x) && RefersTo(ctx, c)
  {
    assert WellFormedTable(ctx.tables[c.table]);
    ctx.tables[c.table].rows[x[c.table]][c.column - 1]
  }

  /** Column i is the first ORDER BY column in which the tuples differ. */
  ghost predicate FirstDifference(ctx: Context, orderBy: seq<ColumnRef>, x: seq<int>, y: seq<int>, i: nat)
    requires Sortable(ctx, orderBy) && IsTuple(ctx, x) && IsTuple(ctx, y)
  {
    && i < |orderBy| && CellAt(ctx, orderBy[i], x) != CellAt(ctx, orderBy[i], y)
    && forall j :: 0 <= j < i ==> CellAt(ctx, orderBy[j], x) == CellAt(ctx, orderBy[j], y)
  }

  /** The comparison is decided by the first ORDER BY column in which the cells differ, and by the row indices
      when there is none. */
  lemma CompareCells(ctx: Context, orderBy: seq<ColumnRef>, x: seq<int>, y: seq<int>)
    requires Sortable(ctx, orderBy) && IsTuple(ctx, x) && IsTuple(ctx, y)
    ensures forall i: nat :: FirstDifference(ctx, orderBy, x, y, i) ==>
      Compare(ctx, orderBy, x, y) == if CellAt(ctx, orderBy[i], x) < CellAt(ctx, orderBy[i], y) then -1 else 1
    ensures (forall i :: 0 <= i < |orderBy| ==> CellAt(ctx, orderBy[i], x) == CellAt(ctx, orderBy[i], y)) ==>
      Compare(ctx, orderBy, x, y) == Lex(x, y)
  {
    var kx, ky := KeyCells(ctx, orderBy, x), KeyCells(ctx, orderBy, y);
    KeyCellsAre(ctx, orderBy, x);
    KeyCellsAre(ctx, orderBy, y);
    LexConcat(kx, ky, x, y);
    forall i: nat | FirstDifference(ctx, orderBy, x, y, i)
      ensures Compare(ctx, orderBy, x, y) == if CellAt(ctx, orderBy[i], x) < CellAt(ctx, orderBy[i], y) then -1 else 1
    {
      DecidedAt(kx, ky, x, y, i);
    }
  }

  lemma KeyCellsAre(ctx: Context, orderBy: seq<ColumnRef>, x: seq<int>)
    requires Sortable(ctx, orderBy) && IsTuple(ctx, x)
    ensures forall i :: 0 <= i < |orderBy| ==> KeyCells(ctx, orderBy, x)[i] == CellAt(ctx, orderBy[i], x)
  {
    forall i | 0 <= i < |orderBy|
      ensures KeyCells(ctx, orderBy, x)[i] == CellAt(ctx, orderBy[i], x)
    {
      FetchedCell(ctx, x, orderBy[i]);
    }
  }

  lemma DecidedAt(a: seq<int>, b: seq<int>, x: seq<int>, y: seq<int>, i: nat)
    requires |a| == |b| && i < |a| && a[i] != b[i] && forall j :: 0 <= j < i ==> a[j] == b[j]
    ensures Lex(a + x, b + y) == if a[i] < b[i] then -1 else 1
  {
    assert a[..i] == b[..i];
    LexDecided(a, b, i);
    LexConcat(a, b, x, y);
  }

  /** compare_entry; `error` is what order_info->error is set to. */
  method CompareEntry(ctx: Context, orderBy: seq<ColumnRef>, le: seq<int>, re: seq<int>) returns (c: int, error: Status)
    requires Sortable(ctx, orderBy) && IsTuple(ctx, le) && IsTuple(ctx, re)
    ensures error == Success
    ensures c == Compare(ctx, orderBy, le, re)
    ensures forall i: nat :: FirstDifference(ctx, orderBy, le, re, i) ==>
      c == if CellAt(ctx, orderBy[i], le) < CellAt(ctx, orderBy[i], re) then -1 else 1
    ensures (forall i :: 0 <= i < |orderBy| ==> CellAt(ctx, orderBy[i], le) == CellAt(ctx, orderBy[i], re)) ==> c == Lex(le, re)
  {
    CompareCells(ctx, orderBy, le, re);
    ghost var lk, rk := KeyCells(ctx, orderBy, le), KeyCells(ctx, orderBy, re);
    LexConcat(lk, rk, le, re);
    LexZero(lk, rk);
    c, error := CompareOrderColumns(ctx, orderBy, le, re);
    if c == 0 {
      c := CompareRows(le, re);
    }
  }

  method CompareOrderColumns(ctx: Context, orderBy: seq<ColumnRef>, le: seq<int>, re: seq<int>)
    returns (c: int, error: Status)
    requires Sortable(ctx, orderBy) && IsTuple(ctx, le) && IsTuple(ctx, re)
    ensures error == Success
    ensures c == Lex(KeyCells(ctx, orderBy, le), KeyCells(ctx, orderBy, re))
  {
    ghost var lk, rk := KeyCells(ctx, orderBy, le), KeyCells(ctx, orderBy, re);
    for i := 0 to |orderBy|
      invariant lk[..i] == rk[..i]
    {
      var t := orderBy[i].table;
      FetchValueFacts(ctx, orderBy[i], le);
      FetchValueFacts(ctx, orderBy[i], re);
      var (r, lval) := FetchInt(ctx.tables[t], le[t], orderBy[i].column);
      if r != Success {
        return 0, r;
      }
      var (r', rval) := FetchInt(ctx.tables[t], re[t], orderBy[i].column);
      if r' != Success {
        return 0, r';
      }
      if lval != rval {
        LexDecided(lk, rk, i);
        return if lval < rval then -1 else 1, Success;
      }
      assert lk[..i + 1] == lk[..i] + [lk[i]];
      assert rk[..i + 1] == rk[..i] + [rk[i]];
    }
    LexZero(lk, rk);
    c, error := 0, Success;
  }

  method CompareRows(le: seq<int>, re: seq<int>) returns (c: int)
    requires |le| == |re|
    ensures c == Lex(le, re)
  {
    for j := 0 to |le|
      invariant le[..j] == re[..j]
    {
      if le[j] != re[j] {
        LexDecided(le, re, j);
        return if le[j] < re[j] then -1 else 1;
      }
    }
    LexZero(le, re);
    c := 0;
  }

  /** compare_entry is a strict total order on tuples. */
  lemma CompareTotal(ctx: Context, orderBy: seq<ColumnRef>, x: seq<int>, y: seq<int>, z: seq<int>)
    requires |x| == |y|
    ensures Compare(ctx, orderBy, x, y) == 0 <==> x == y
    ensures Compare(ctx, orderBy, y, x) == -Compare(ctx, orderBy, x, y)
    ensures Compare(ctx, orderBy, x, y) < 0 && Compare(ctx, orderBy, y, z) < 0 ==> Compare(ctx, orderBy, x, z) < 0
  {
    var kx, ky, kz := SortKey(ctx, orderBy, x), SortKey(ctx, orderBy, y), SortKey(ctx, orderBy, z);
    LexZero(kx, ky);
    LexAntisymmetric(kx, ky);
    assert x == kx[|orderBy|..] && y == ky[|orderBy|..];
    if Lex(kx, ky) < 0 && Lex(ky, kz) < 0 {
      LexTransitive(kx, ky, kz);
    }
  }

  ghost predicate Ascending(ctx: Context, orderBy: seq<ColumnRef>, s: seq<seq<int>>) {
    forall i, j :: 0 <= i < j < |s| ==> Compare(ctx, orderBy, s[i], s[j]) < 0
  }

  ghost predicate AllTuples(ctx: Context, s: seq<seq<int>>) {
    forall x :: x in s ==> IsTuple(ctx, x)
  }

  ghost predicate SameMembers(s: seq<seq<int>>, t: seq<seq<int>>) {
    forall x :: x in s <==> x in t
  }

  /** There is one ascending arrangement of any set of tuples. */
  lemma {:induction false} AscendingUnique(ctx: Context, orderBy: seq<ColumnRef>, s: seq<seq<int>>, t: seq<seq<int>>)
    requires AllTuples(ctx, s) && SameMembers(s, t)
    requires Ascending(ctx, orderBy, s) && Ascending(ctx, orderBy, t)
    ensures s == t
  {
    if s != [] || t != [] {
      assert s != [] ==> s[0] in s && s[0] in t;
      assert t != [] ==> t[0] in t && t[0] in s;
      FirstIsLeast(ctx, orderBy, s, t);
      assert s[0] == t[0];
      forall x
        ensures x in s[1..] <==> x in t[1..]
      {
        TailMembers(ctx, orderBy, s, x);
        TailMembers(ctx, orderBy, t, x);
      }
      assert AllTuples(ctx, s[1..]);
      AscendingUnique(ctx, orderBy, s[1..], t[1..]);
      assert s == [s[0]] + s[1..] && t == [t[0]] + t[1..];
    }
  }

  lemma TailMembers(ctx: Context, orderBy: seq<ColumnRef>, s: seq<seq<int>>, x: seq<int>)
    requires s != [] && AllTuples(ctx, s) && Ascending(ctx, orderBy, s)
    ensures x in s[1..] <==> x in s && x != s[0]
  {
    assert s == [s[0]] + s[1..];
    if s[0] in s[1..] {
      var j :| 1 <= j < |s| && s[j] == s[0];
      CompareTotal(ctx, orderBy, s[0], s[j], s[0]);
      assert false;
    }
  }

  lemma FirstIsLeast(ctx: Context, orderBy: seq<ColumnRef>, s: seq<seq<int>>, t: seq<seq<int>>)
    requires s != [] && t != [] && AllTuples(ctx, s) && SameMembers(s, t)
    requires Ascending(ctx, orderBy, s) && Ascending(ctx, orderBy, t)
    ensures s[0] == t[0]
  {
    assert s[0] in t && t[0] in s;
    var i :| 0 <= i < |t| && t[i] == s[0];
    var j :| 0 <= j < |s| && s[j] == t[0];
    if i > 0 && j > 0 {
      assert Compare(ctx, orderBy, t[0], t[i]) < 0;
      assert Compare(ctx, orderBy, s[0], s[j]) < 0;
      CompareTotal(ctx, orderBy, s[0], t[0], s[0]);
      assert false;
    }
  }

  /** Stands for the C library's qsort, of which only the contract matters: AscendingUnique leaves it
      no choice. */
  method Qsort(ctx: Context, orderBy: seq<ColumnRef>, entries: seq<seq<int>>) returns (sorted: seq<seq<int>>,
        error: Status)
    requires Sortable(ctx, orderBy) && AllTuples(ctx, entries) && NoRepeats(entries)
    ensures error == Success
    ensures SameMembers(sorted, entries) && Ascending(ctx, orderBy, sorted)
  {
    sorted, error := [], Success;
    var i := 0;
    while i < |entries|
      invariant 0 <= i <= |entries|
      invariant error == Success
      invariant Ascending(ctx, orderBy, sorted)
      invariant forall x :: x in sorted <==> x in entries[..i]
    {
      assert entries[i] in entries;
      assert entries[i] !in entries[..i];
      assert entries[..i + 1] == entries[..i] + [entries[i]];
      assert AllTuples(ctx, sorted) by {
        forall x | x in sorted
          ensures IsTuple(ctx, x)
        {
          assert x in entries[..i];
        }
      }
      sorted := InsertAscending(ctx, orderBy, sorted, entries[i]);
      i := i + 1;
    }
    assert entries[..i] == entries;
  }

  method InsertAscending(ctx: Context, orderBy: seq<ColumnRef>, s: seq<seq<int>>, x: seq<int>) returns (t: seq<seq<int>>)
    requires Sortable(ctx, orderBy) && AllTuples(ctx, s) && IsTuple(ctx, x)
    requires Ascending(ctx, orderBy, s) && x !in s
    ensures Ascending(ctx, orderBy, t)
    ensures forall y :: y in t <==> y in s || y == x
  {
    var i := 0;
    while i < |s|
      invariant 0 <= i <= |s|
      invariant forall j :: 0 <= j < i ==> Compare(ctx, orderBy, s[j], x) < 0
    {
      assert s[i] in s;
      var c, _ := CompareEntry(ctx, orderBy, s[i], x);
      CompareTotal(ctx, orderBy, s[i], x, x);
      if c > 0 {
        break;
      }
      i := i + 1;
    }
    t := s[..i] + [x] + s[i..];
    if i < |s| {
      assert s[i] in s;
      CompareTotal(ctx, orderBy, s[i], x, x);
    }
    InsertedAscending(ctx, orderBy, s, x, i);
    InsertedMembers(s, x, i);
  }

  lemma InsertedMembers(s: seq<seq<int>>, x: seq<int>, i: nat)
    requires i <= |s|
    ensures forall y :: y in s[..i] + [x] + s[i..] <==> y in s || y == x
  {
    assert s == s[..i] + s[i..];
  }

  lemma InsertedAscending(ctx: Context, orderBy: seq<ColumnRef>, s: seq<seq<int>>, x: seq<int>, i: nat)
    requires Ascending(ctx, orderBy, s) && AllTuples(ctx, s) && IsTuple(ctx, x) && i <= |s|
    requires forall j :: 0 <= j < i ==> Compare(ctx, orderBy, s[j], x) < 0
    requires i < |s| ==> Compare(ctx, orderBy, x, s[i]) < 0
    ensures Ascending(ctx, orderBy, s[..i] + [x] + s[i..])
  {
    var t := s[..i] + [x] + s[i..];
    forall a, b | 0 <= a < b < |t|
      ensures Compare(ctx, orderBy, t[a], t[b]) < 0
    {
      if a == i && b > i + 1 {
        assert s[i] in s && s[b - 1] in s;
        CompareTotal(ctx, orderBy, x, s[i], s[b - 1]);
      }
    }
  }

  // ---------------------------------------------------------------------------------------------
  // The view
  // ---------------------------------------------------------------------------------------------

  /** The answer to a query: exactly the tuples that satisfy the condition, ascending. */
  ghost predicate IsAnswerTo(ctx: Context, cond: Option<Expr>, orderBy: seq<ColumnRef>, s: seq<seq<int>>) {
    && (forall x :: x in s <==> IsTuple(ctx, x) && Selected(ctx, cond, x))
    && Ascending(ctx, orderBy, s)
  }

  /** The tables, the condition and ORDER BY determine the answer. */
  lemma AnswerUnique(ctx: Context, cond: Option<Expr>, orderBy: seq<ColumnRef>, s: seq<seq<int>>, t: seq<seq<int>>)
    requires IsAnswerTo(ctx, cond, orderBy, s) && IsAnswerTo(ctx, cond, orderBy, t)
    ensures s == t
  {
    AscendingUnique(ctx, orderBy, s, t);
  }

  /** The rows found are those that the condition, as it was written, means. */
  ghost predicate AnswersAsked(ctx: Context, asked: Option<Expr>, s: seq<seq<int>>)
    requires WellFormed(ctx) && (asked.Some? ==> Grammatical(asked.value) && Resolved(ctx, asked.value))
  {
    forall x :: x in s <==> IsTuple(ctx, x) && Asked(ctx, asked, x)
  }

  lemma AnswerMeans(ctx: Context, asked: Option<Expr>, cond: Option<Expr>, orderBy: seq<ColumnRef>, s: seq<seq<int>>)
    requires WellFormed(ctx) && Accepts(ctx, asked, cond) && IsAnswerTo(ctx, cond, orderBy, s)
    ensures AnswersAsked(ctx, asked, s)
  {
    forall x
      ensures x in s <==> IsTuple(ctx, x) && Asked(ctx, asked, x)
    {
      if IsTuple(ctx, x) {
        SelectedIsAsked(ctx, asked, cond, x);
      }
    }
  }

  function Unassigned(n: nat): (rows: seq<int>)
    ensures |rows| == n
    ensures forall t :: 0 <= t < n ==> rows[t] == INVALID_ROW_INDEX
  {
    seq(n, _ => INVALID_ROW_INDEX)
  }

  /** Whatever order the tables are joined in, as long as it keeps the markers aligned, the search
      returns success and exactly the satisfying tuples, each once. */
  lemma SearchComplete(ctx: Context, cond: Option<Expr>, order: seq<nat>)
    requires Executable(ctx, cond, order) && AlignedThroughout(cond, order)
    requires order != [] && forall t :: 0 <= t < |ctx.tables| ==> ctx.tables[t].rows != []
    ensures var f := Search(ctx, cond, order, 0, Unassigned(|ctx.tables|));
      && f.status == Success
      && NoRepeats(f.tuples)
      && forall x :: x in f.tuples <==> IsTuple(ctx, x) && Selected(ctx, cond, x)
  {
    var rows := Unassigned(|ctx.tables|);
    SearchRefines(ctx, cond, order, 0, rows);
    var product := Product(ctx, order, 0, rows);
    ProductMembers(ctx, order, 0, rows);
    KeepMembers(ctx, cond, product);
    KeepNoRepeats(ctx, cond, product);
  }

  /** ordertables fits every condition: a bare IS [NOT] NULL has its table first. */
  lemma PickedOrder(ctx: Context, cond: Option<Expr>)
    requires cond.Some? ==> Resolved(ctx, cond.value)
    ensures cond.Some? ==> TablesBelow(cond.value, |ctx.tables|)
    ensures IsJoinOrder(OrderedTables(cond, |ctx.tables|), |ctx.tables|)
    ensures |OrderedTables(cond, |ctx.tables|)| == |ctx.tables|
    ensures WellFormed(ctx) && (cond.Some? ==> Typed(cond.value)) ==>
      Executable(ctx, cond, OrderedTables(cond, |ctx.tables|))
  {
    if cond.Some? {
      ResolvedBelow(ctx, cond.value);
      if Typed(cond.value) && cond.value.Unary? {
        NullTestOrderedFirst(cond.value.op, cond.value.left, |ctx.tables|);
      }
    }
    OrderIsPermutation(cond, |ctx.tables|);
  }

  /** The search in the order that ordertables picks. */
  function FullSearch(ctx: Context, cond: Option<Expr>): Found
    requires |ctx.tables| > 0 && (cond.Some? ==> Resolved(ctx, cond.value))
  {
    PickedOrder(ctx, cond);
    Search(ctx, cond, OrderedTables(cond, |ctx.tables|), 0, Unassigned(|ctx.tables|))
  }

  /** One iteration, seen from the whole search. */
  lemma FromStep(ctx: Context, cond: Option<Expr>, order: seq<nat>, k: nat, base: seq<int>, i: nat, r: Status,
        found: seq<seq<int>>)
    requires k < |order| && |base| == |ctx.tables| && InRange(order, |ctx.tables|) && i < |ctx.tables[order[k]].rows|
    ensures var v := VisitRow(ctx, cond, order, k, base[order[k] := i]);
      After(found, SearchFrom(ctx, cond, order, k, base, i, r)) ==
        if v.stop then Found(v.found.status, found + v.found.tuples)
        else After(found + v.found.tuples, SearchFrom(ctx, cond, order, k, base, i + 1, v.found.status))
  {
    var v := VisitRow(ctx, cond, order, k, base[order[k] := i]);
    ConcatAssociative(found, v.found.tuples, SearchFrom(ctx, cond, order, k, base, i + 1, v.found.status).tuples);
  }

  /** The satisfying tuples that no verdict on a part of the tables cuts off, ascending. */
  ghost predicate IsUncut(ctx: Context, cond: Option<Expr>, orderBy: seq<ColumnRef>, s: seq<seq<int>>) {
    && (forall x :: x in s <==>
          IsTuple(ctx, x) && Selected(ctx, cond, x) && Passes(ctx, cond, OrderedTables(cond, |ctx.tables|), 0, x))
    && Ascending(ctx, orderBy, s)
  }

  lemma FullSearchExact(ctx: Context, cond: Option<Expr>)
    requires WellFormed(ctx) && |ctx.tables| > 0 && NoEmptyTable(ctx)
    requires cond.Some? ==> Typed(cond.value) && Resolved(ctx, cond.value)
    ensures FullSearch(ctx, cond).status == Success
    ensures forall x :: x in FullSearch(ctx, cond).tuples <==>
      IsTuple(ctx, x) && Selected(ctx, cond, x) && Passes(ctx, cond, OrderedTables(cond, |ctx.tables|), 0, x)
  {
    var order, rows := OrderedTables(cond, |ctx.tables|), Unassigned(|ctx.tables|);
    PickedOrder(ctx, cond);
    SearchExact(ctx, cond, order, 0, rows);
    forall x
      ensures IsTuple(ctx, x) <==> Completes(ctx, order, 0, rows, x)
    {
      assert order[0..] == order;
    }
  }

  /** The result is the answer exactly when every tuple that a verdict cuts off fails the condition. */
  lemma UncutIsAnswer(ctx: Context, cond: Option<Expr>, orderBy: seq<ColumnRef>, s: seq<seq<int>>)
    requires IsUncut(ctx, cond, orderBy, s)
    ensures IsAnswerTo(ctx, cond, orderBy, s) <==> forall x :: IsTuple(ctx, x) && Selected(ctx, cond, x) ==>
      Passes(ctx, cond, OrderedTables(cond, |ctx.tables|), 0, x)
  {
  }

  class WhereView {
    const cond: Option<Expr>
    const orderBy: Option<seq<ColumnRef>>
    var reorder: seq<seq<int>>
    var recIndex: nat

    constructor (cond: Option<Expr>, orderBy: Option<seq<ColumnRef>>)
      ensures this.cond == cond && this.orderBy == orderBy && reorder == []
    {
      this.cond, this.orderBy := cond, orderBy;
      reorder, recIndex := [], 0;
    }

    ghost function OrderColumns(): seq<ColumnRef> {
      if orderBy.Some? then orderBy.value else []
    }

    method AddRow(vals: array<int>)
      modifies this`reorder
      ensures reorder == old(reorder) + [vals[..]]
    {
      reorder := reorder + [vals[..]];
    }

    /** check_condition on tables[k..]. The row array is left as it was found. */
    method CheckCondition(ctx: Context, tables: array<Option<nat>>, k: nat, rows: array<int>, ghost order: seq<nat>)
      returns (r: Status)
      requires rows.Length == |ctx.tables| && DistinctBelow(order, |ctx.tables|) && k < |order|
      requires Lists(tables, order)
      requires forall j :: k <= j < |order| ==> rows[order[j]] == INVALID_ROW_INDEX
      modifies this, rows
      ensures rows[..] == old(rows[..])
      ensures var f := Search(ctx, cond, order, k, old(rows[..]));
        r == f.status && reorder == old(reorder) + f.tuples
      decreases |order| - k, 1
    {
      r := FunctionFailed;
      var t := tables[k].value;
      ghost var base := rows[..];
      ghost var found: seq<seq<int>> := [];
      var stop := false;
      rows[t] := 0;
      while !stop && rows[t] < |ctx.tables[t].rows|
        invariant 0 <= rows[t] && rows[..] == base[t := rows[t]]
        invariant reorder == old(reorder) + found
        invariant Search(ctx, cond, order, k, base) ==
          if stop then Found(r, found) else After(found, SearchFrom(ctx, cond, order, k, base, rows[t], r))
        decreases !stop, |ctx.tables[t].rows| - rows[t]
      {
        ghost var v := VisitRow(ctx, cond, order, k, rows[..]);
        FromStep(ctx, cond, order, k, base, rows[t], r, found);
        r, stop := CheckRow(ctx, tables, k, rows, order);
        found := found + v.found.tuples;
        if !stop {
          rows[t] := rows[t] + 1;
        }
      }
      rows[t] := INVALID_ROW_INDEX;
    }

    /** The loop body of check_condition; `stop` is its break. */
    method CheckRow(ctx: Context, tables: array<Option<nat>>, k: nat, rows: array<int>, ghost order: seq<nat>)
      returns (r: Status, stop: bool)
      requires rows.Length == |ctx.tables| && DistinctBelow(order, |ctx.tables|) && k < |order|
      requires Lists(tables, order)
      requires forall j :: k < j < |order| ==> rows[order[j]] == INVALID_ROW_INDEX
      modifies this, rows
      ensures rows[..] == old(rows[..])
      ensures var v := VisitRow(ctx, cond, order, k, old(rows[..]));
        r == v.found.status && stop == v.stop && reorder == old(reorder) + v.found.tuples
      decreases |order| - k, 0
    {
      var o := EvalCond(ctx, cond, rows[..]);
      recIndex := o.index;
      r := o.status;
      if r != Success && r != Continue {
        return r, true;
      }
      if ValueOr0(o.val) != 0 {
        if tables[k + 1].Some? {
          r := CheckCondition(ctx, tables, k + 1, rows, order);
          return r, r != Success;
        } else if r != Success {
          return r, true;
        }
        AddRow(rows);
      }
      stop := false;
    }

    /** where_view_execute. */
    method Execute(ctx: Context) returns (r: Status)
      requires cond.Some? ==> Resolved(ctx, cond.value)
      requires Sortable(ctx, OrderColumns())
      modifies this
      ensures |ctx.tables| == 0 ==> r == FunctionFailed && reorder == old(reorder)
      ensures |ctx.tables| > 0 && !NoEmptyTable(ctx) ==> r == Success && reorder == []
      ensures |ctx.tables| > 0 && NoEmptyTable(ctx) ==>
        var f := FullSearch(ctx, cond);
        && r == (if orderBy.Some? then Success else f.status)
        && SameMembers(reorder, f.tuples) && Ascending(ctx, OrderColumns(), reorder)
      ensures Accepted(ctx) ==> r == Success && IsUncut(ctx, cond, OrderColumns(), reorder)
      ensures Answerable(ctx) ==> r == Success && IsAnswerTo(ctx, cond, OrderColumns(), reorder)
      ensures forall asked :: Accepts(ctx, asked, cond) && Answerable(ctx) ==> AnswersAsked(ctx, asked, reorder)
    {
      if |ctx.tables| == 0 {
        return FunctionFailed;
      }
      reorder := [];
      for t := |ctx.tables| downto 0
        invariant forall u :: t <= u < |ctx.tables| ==> ctx.tables[u].rows != []
      {
        if |ctx.tables[t].rows| == 0 {
          assert forall x :: !IsTuple(ctx, x);
          AllAnswered(ctx);
          return Success;
        }
      }
      r := SearchAll(ctx);
      var columns := if orderBy.Some? then orderBy.value else [];
      var error;
      reorder, error := Qsort(ctx, columns, reorder);
      if orderBy.Some? {
        r := error;
      }
      AllAnswered(ctx);
    }

    /** Rows that answer the condition that is executed answer the one that was written. */
    lemma AllAnswered(ctx: Context)
      requires WellFormed(ctx)
      ensures IsAnswerTo(ctx, cond, OrderColumns(), reorder) ==>
        forall asked :: Accepts(ctx, asked, cond) ==> AnswersAsked(ctx, asked, reorder)
    {
      if IsAnswerTo(ctx, cond, OrderColumns(), reorder) {
        forall asked | Accepts(ctx, asked, cond)
          ensures AnswersAsked(ctx, asked, reorder)
        {
          AnswerMeans(ctx, asked, cond, OrderColumns(), reorder);
        }
      }
    }

    /** The middle of where_view_execute: choose an order, allocate the row array, search. */
    method SearchAll(ctx: Context) returns (r: Status)
      requires cond.Some? ==> Resolved(ctx, cond.value)
      requires WellFormed(ctx) && |ctx.tables| > 0 && NoEmptyTable(ctx) && reorder == []
      modifies this
      ensures r == FullSearch(ctx, cond).status && reorder == FullSearch(ctx, cond).tuples
      ensures AllTuples(ctx, reorder) && NoRepeats(reorder)
      ensures Accepted(ctx) ==> r == Success && forall x :: x in reorder <==>
        IsTuple(ctx, x) && Selected(ctx, cond, x) && Passes(ctx, cond, OrderedTables(cond, |ctx.tables|), 0, x)
      ensures Answerable(ctx) ==>
        r == Success && forall x :: x in reorder <==> IsTuple(ctx, x) && Selected(ctx, cond, x)
    {
      ghost var order := OrderedTables(cond, |ctx.tables|);
      ghost var unassigned := Unassigned(|ctx.tables|);
      PickedOrder(ctx, cond);
      var tables := OrderTables(cond, |ctx.tables|);
      var rows := new int[|ctx.tables|](_ => INVALID_ROW_INDEX);
      assert rows[..] == unassigned;
      r := CheckCondition(ctx, tables, 0, rows, order);
      SearchFindsTuples(ctx, cond, order, 0, unassigned);
      if Accepted(ctx) {
        FullSearchExact(ctx, cond);
      }
      if Answerable(ctx) {
        SearchComplete(ctx, cond, order);
      }
    }

    /** The condition came through the grammar and the verification. */
    ghost predicate Accepted(ctx: Context) {
      |ctx.tables| > 0 && (cond.Some? ==> Typed(cond.value) && Resolved(ctx, cond.value))
    }

    /** Moreover, the join order that ordertables picks keeps its markers aligned. */
    ghost predicate Answerable(ctx: Context) {
      Accepted(ctx) && AlignedThroughout(cond, OrderedTables(cond, |ctx.tables|))
    }
  }

  /** where_view_create, for a condition whose columns are resolved: what is executed later is the written
      condition as verification leaves it. */
  method CreateView(ctx: Context, asked: Option<Expr>, orderBy: Option<seq<ColumnRef>>) returns (r: Status, wv: WhereView?)
    requires asked.Some? ==> Grammatical(asked.value) && Resolved(ctx, asked.value)
    ensures r == if asked.Some? && OrdersStrings(ctx, asked.value) then InvalidParameter else Success
    ensures r == Success ==> wv != null && fresh(wv) && wv.orderBy == orderBy && Accepts(ctx, asked, wv.cond)
  {
    var cond: Option<Expr> := None;
    if asked.Some? {
      VerifyTypes(ctx, asked.value);
      cond := Verify(ctx, asked.value);
      if cond.None? {
        return InvalidParameter, null;
      }
    }
    r := Success;
    wv := new WhereView(cond, orderBy);
  }
}
