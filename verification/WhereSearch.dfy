/** The pruned nested loop (check_condition in libmsi/where.c) against "filter the full product". */
module WhereSearch {
  import opened Prelude
  import opened Records
  import opened WhereEval
  import opened WherePruning
  import opened WhereOrder

  // ---------------------------------------------------------------------------------------------
  // What check_condition computes, for every condition and every data
  // ---------------------------------------------------------------------------------------------

  /** where_view_evaluate on the optional condition, starting with rec_index 0. */
  function EvalCond(ctx: Context, cond: Option<Expr>, rows: seq<int>): Outcome {
    if cond.None? then Outcome(Success, Some(1), 0) else Eval(ctx, rows, cond.value, 0)
  }

  /** The code check_condition returns and the tuples it adds. */
  datatype Found = Found(status: Status, tuples: seq<seq<int>>)

  function After(tuples: seq<seq<int>>, rest: Found): Found {
    Found(rest.status, tuples + rest.tuples)
  }

  predicate InRange(order: seq<nat>, n: nat) {
    forall i :: 0 <= i < |order| ==> order[i] < n
  }

  /** One iteration: what it finds, and whether it breaks out of the loop. */
  datatype Visit = Visit(found: Found, stop: bool)

  /** check_condition for the tables order[k..], the rows of the earlier ones being fixed. */
  function Search(ctx: Context, cond: Option<Expr>, order: seq<nat>, k: nat, rows: seq<int>): Found
    requires k < |order| && |rows| == |ctx.tables| && InRange(order, |ctx.tables|)
    decreases |order| - k, 2, 0
  {
    SearchFrom(ctx, cond, order, k, rows, 0, FunctionFailed)
  }

  /** The iterations from row `i` of table order[k] on; `r` is the code so far. */
  function SearchFrom(ctx: Context, cond: Option<Expr>, order: seq<nat>, k: nat, rows: seq<int>, i: nat, r: Status): Found
    requires k < |order| && |rows| == |ctx.tables| && InRange(order, |ctx.tables|)
    decreases |order| - k, 1, |ctx.tables[order[k]].rows| - i
  {
    if i >= |ctx.tables[order[k]].rows| then Found(r, [])
    else
      var v := VisitRow(ctx, cond, order, k, rows[order[k] := i]);
      if v.stop then v.found
      else After(v.found.tuples, SearchFrom(ctx, cond, order, k, rows, i + 1, v.found.status))
  }

  function VisitRow(ctx: Context, cond: Option<Expr>, order: seq<nat>, k: nat, current: seq<int>): Visit
    requires k < |order| && |current| == |ctx.tables| && InRange(order, |ctx.tables|)
    decreases |order| - k, 0, 0
  {
    var o := EvalCond(ctx, cond, current);
    if !IsAnswer(o.status) then Visit(Found(o.status, []), true)
    else if ValueOr0(o.val) == 0 then Visit(Found(o.status, []), false)
    else if k + 1 < |order| then
      var inner := Search(ctx, cond, order, k + 1, current);
      Visit(inner, inner.status != Success)
    else if o.status != Success then Visit(Found(o.status, []), true)
    else Visit(Found(Success, [current]), false)
  }

  // ---------------------------------------------------------------------------------------------
  // The naive join
  // ---------------------------------------------------------------------------------------------

  /** Every way to complete `rows` with rows of the tables order[k..]. */
  function Product(ctx: Context, order: seq<nat>, k: nat, rows: seq<int>): seq<seq<int>>
    requires k <= |order| && |rows| == |ctx.tables| && InRange(order, |ctx.tables|)
    decreases |order| - k, 1, 0
  {
    if k == |order| then [rows] else ProductFrom(ctx, order, k, rows, 0)
  }

  function ProductFrom(ctx: Context, order: seq<nat>, k: nat, rows: seq<int>, i: nat): seq<seq<int>>
    requires k < |order| && |rows| == |ctx.tables| && InRange(order, |ctx.tables|)
    decreases |order| - k, 0, |ctx.tables[order[k]].rows| - i
  {
    var t := order[k];
    if i >= |ctx.tables[t].rows| then []
    else Product(ctx, order, k + 1, rows[t := i]) + ProductFrom(ctx, order, k, rows, i + 1)
  }

  /** The tuples that satisfy the condition. */
  function Keep(ctx: Context, cond: Option<Expr>, tuples: seq<seq<int>>): seq<seq<int>> {
    if tuples == [] then []
    else (if Selected(ctx, cond, tuples[0]) then [tuples[0]] else []) + Keep(ctx, cond, tuples[1..])
  }

  lemma {:induction false} KeepConcat(ctx: Context, cond: Option<Expr>, a: seq<seq<int>>, b: seq<seq<int>>)
    ensures Keep(ctx, cond, a + b) == Keep(ctx, cond, a) + Keep(ctx, cond, b)
  {
    if a == [] {
      assert a + b == b;
    } else {
      assert (a + b)[1..] == a[1..] + b;
      KeepConcat(ctx, cond, a[1..], b);
    }
  }

  lemma {:induction false} KeepNothing(ctx: Context, cond: Option<Expr>, a: seq<seq<int>>)
    requires forall x :: x in a ==> !Selected(ctx, cond, x)
    ensures Keep(ctx, cond, a) == []
  {
    if a != [] {
      assert a[0] in a;
      KeepNothing(ctx, cond, a[1..]);
    }
  }

  lemma {:induction false} KeepMembers(ctx: Context, cond: Option<Expr>, a: seq<seq<int>>)
    ensures forall x :: x in Keep(ctx, cond, a) <==> x in a && Selected(ctx, cond, x)
  {
    if a != [] {
      KeepMembers(ctx, cond, a[1..]);
      assert a == [a[0]] + a[1..];
    }
  }

  ghost predicate NoRepeats(s: seq<seq<int>>) {
    forall i, j :: 0 <= i < j < |s| ==> s[i] != s[j]
  }

  lemma {:induction false} KeepNoRepeats(ctx: Context, cond: Option<Expr>, a: seq<seq<int>>)
    requires NoRepeats(a)
    ensures NoRepeats(Keep(ctx, cond, a))
  {
    if a != [] {
      KeepNoRepeats(ctx, cond, a[1..]);
      KeepMembers(ctx, cond, a[1..]);
      assert a[0] !in a[1..];
    }
  }

  /** One row of every table. */
  ghost predicate IsTuple(ctx: Context, x: seq<int>) {
    |x| == |ctx.tables| && forall t :: 0 <= t < |x| ==> 0 <= x[t] < |ctx.tables[t].rows|
  }

  /** x agrees with `rows` outside order[k..] and picks existing rows there. */
  ghost predicate Completes(ctx: Context, order: seq<nat>, k: nat, rows: seq<int>, x: seq<int>)
    requires k <= |order|
  {
    && |x| == |rows| == |ctx.tables|
    && (forall t :: 0 <= t < |x| && t !in order[k..] ==> x[t] == rows[t])
    && (forall t :: 0 <= t < |x| && t in order[k..] ==> 0 <= x[t] < |ctx.tables[t].rows|)
  }

  /** The product lists exactly the completions, each once. */
  lemma {:induction false} ProductMembers(ctx: Context, order: seq<nat>, k: nat, rows: seq<int>)
    requires k <= |order| && |rows| == |ctx.tables| && DistinctBelow(order, |ctx.tables|)
    ensures forall x :: x in Product(ctx, order, k, rows) <==> Completes(ctx, order, k, rows, x)
    ensures NoRepeats(Product(ctx, order, k, rows))
    decreases |order| - k, 1, 0
  {
    if k == |order| {
      assert order[k..] == [];
      forall x | Completes(ctx, order, k, rows, x)
        ensures x == rows
      {
      }
    } else {
      ProductFromMembers(ctx, order, k, rows, 0);
      forall x
        ensures Completes(ctx, order, k, rows, x) <==> CompletesFrom(ctx, order, k, rows, 0, x)
      {
        assert order[k..][0] == order[k];
      }
    }
  }

  ghost predicate CompletesFrom(ctx: Context, order: seq<nat>, k: nat, rows: seq<int>, i: nat, x: seq<int>)
    requires k < |order|
  {
    Completes(ctx, order, k, rows, x) && order[k] < |x| && x[order[k]] >= i
  }

  lemma {:induction false} ProductFromMembers(ctx: Context, order: seq<nat>, k: nat, rows: seq<int>, i: nat)
    requires k < |order| && |rows| == |ctx.tables| && DistinctBelow(order, |ctx.tables|)
    ensures forall x :: x in ProductFrom(ctx, order, k, rows, i) <==> CompletesFrom(ctx, order, k, rows, i, x)
    ensures NoRepeats(ProductFrom(ctx, order, k, rows, i))
    decreases |order| - k, 0, |ctx.tables[order[k]].rows| - i
  {
    var t := order[k];
    assert order[k..] == [t] + order[k + 1..];
    if i < |ctx.tables[t].rows| {
      var first := Product(ctx, order, k + 1, rows[t := i]);
      var rest := ProductFrom(ctx, order, k, rows, i + 1);
      ProductMembers(ctx, order, k + 1, rows[t := i]);
      ProductFromMembers(ctx, order, k, rows, i + 1);
      assert t !in order[k + 1..];
      forall x
        ensures x in first <==> Completes(ctx, order, k, rows, x) && x[t] == i
      {
      }
      assert forall x :: x in first + rest <==> x in first || x in rest;
      NoRepeatsConcat(first, rest);
    }
  }

  // ---------------------------------------------------------------------------------------------
  // Refinement
  // ---------------------------------------------------------------------------------------------

  function TablesUpTo(order: seq<nat>, k: nat): set<nat>
    requires k <= |order|
  {
    set t | t in order[..k]
  }

  /** At every depth of the nested loop each `?` still reads its own field. */
  ghost predicate AlignedThroughout(cond: Option<Expr>, order: seq<nat>) {
    cond.Some? ==> forall k :: 1 <= k < |order| ==> Aligned(cond.value, TablesUpTo(order, k))
  }

  /** What holds of a condition that the grammar and the verification let through, and of the order
      that ordertables picks for it. */
  ghost predicate Executable(ctx: Context, cond: Option<Expr>, order: seq<nat>) {
    && WellFormed(ctx)
    && IsJoinOrder(order, |ctx.tables|)
    && (cond.Some? ==> Typed(cond.value) && Resolved(ctx, cond.value))
    && (cond.Some? && cond.value.Unary? ==> order != [] && order[0] == cond.value.left.col.table)
  }

  /** The tables assigned so far are order[..k]. */
  ghost predicate AtDepth(ctx: Context, order: seq<nat>, k: nat, rows: seq<int>)
    requires k <= |order|
  {
    && IsAssignment(ctx, rows)
    && (forall j :: 0 <= j < k ==> order[j] < |rows| && rows[order[j]] >= 0)
    && (forall j :: k <= j < |order| ==> order[j] < |rows| && rows[order[j]] == INVALID_ROW_INDEX)
  }

  lemma DepthKnown(ctx: Context, order: seq<nat>, k: nat, rows: seq<int>)
    requires IsJoinOrder(order, |ctx.tables|) && k <= |order| && AtDepth(ctx, order, k, rows)
    ensures Known(rows) == TablesUpTo(order, k)
    ensures k == |order| ==> Full(rows)
  {
    forall t: nat | t < |rows|
      ensures t in Known(rows) <==> t in TablesUpTo(order, k)
      ensures k == |order| ==> rows[t] >= 0
    {
      assert t in order;
      var j :| 0 <= j < |order| && order[j] == t;
      if j < k {
        assert order[..k][j] == t;
      }
    }
    assert forall t :: t in TablesUpTo(order, k) ==> t < |rows|;
  }

  /** Where the nested loop stands, the verdict on the current row is an answer; an open one lets the loop
      go deeper; with a row of every table it is the meaning of the condition. */
  lemma VerdictOpen(ctx: Context, cond: Option<Expr>, order: seq<nat>, k: nat, current: seq<int>)
    requires Executable(ctx, cond, order) && 1 <= k <= |order| && AtDepth(ctx, order, k, current)
    ensures IsAnswer(EvalCond(ctx, cond, current).status)
    ensures EvalCond(ctx, cond, current).status == Continue ==>
      k < |order| && ValueOr0(EvalCond(ctx, cond, current).val) != 0
    ensures k == |order| ==> (ValueOr0(EvalCond(ctx, cond, current).val) != 0 <==> Selected(ctx, cond, current))
  {
    if cond.Some? {
      EvalFacts(ctx, current, cond.value, 0);
      if k == |order| {
        DepthKnown(ctx, order, k, current);
        EvalFull(ctx, current, cond.value, 0);
      }
    }
  }

  /** Where the nested loop stands, the verdict on the current row is an answer; it is final when it is
      known; and an open one lets the loop go deeper. */
  lemma VerdictAtDepth(ctx: Context, cond: Option<Expr>, order: seq<nat>, k: nat, current: seq<int>)
    requires Executable(ctx, cond, order) && AlignedThroughout(cond, order)
    requires 1 <= k <= |order| && AtDepth(ctx, order, k, current)
    ensures IsAnswer(EvalCond(ctx, cond, current).status)
    ensures EvalCond(ctx, cond, current).status == Continue ==>
      k < |order| && ValueOr0(EvalCond(ctx, cond, current).val) != 0
    ensures EvalCond(ctx, cond, current).status == Success ==>
      forall x :: Completes(ctx, order, k, current, x) ==>
        (ValueOr0(EvalCond(ctx, cond, current).val) != 0 <==> Selected(ctx, cond, x))
  {
    VerdictOpen(ctx, cond, order, k, current);
    if cond.Some? {
      var e := cond.value;
      DepthKnown(ctx, order, k, current);
      if k == |order| {
        FullAligned(ctx, e, current);
      }
      if Eval(ctx, current, e, 0).status == Success {
        forall x | Completes(ctx, order, k, current, x)
          ensures ValueOr0(Eval(ctx, current, e, 0).val) != 0 <==> Selected(ctx, cond, x)
        {
          CompletionExtends(ctx, order, k, current, x);
          VerdictFinal(ctx, current, x, e);
        }
      }
    }
  }

  lemma CompletionExtends(ctx: Context, order: seq<nat>, k: nat, rows: seq<int>, x: seq<int>)
    requires IsJoinOrder(order, |ctx.tables|) && k <= |order| && AtDepth(ctx, order, k, rows)
    requires Completes(ctx, order, k, rows, x)
    ensures Extends(rows, x) && Full(x) && IsAssignment(ctx, x) && IsTuple(ctx, x)
  {
    forall t | 0 <= t < |rows|
      ensures rows[t] < 0 || x[t] == rows[t]
      ensures 0 <= x[t] < |ctx.tables[t].rows|
    {
      assert t in order;
      var j :| 0 <= j < |order| && order[j] == t;
      if j < k {
        assert t !in order[k..];
      } else {
        assert order[k..][j - k] == t;
      }
    }
  }

  lemma {:induction false} FullAligned(ctx: Context, e: Expr, rows: seq<int>)
    requires IsAssignment(ctx, rows) && Full(rows) && Resolved(ctx, e)
    ensures Aligned(e, Known(rows))
  {
    if e.Complex? {
      FullAligned(ctx, e.left, rows);
      FullAligned(ctx, e.right, rows);
      FullSkipsNothing(ctx, e.left, rows);
    }
  }

  ghost predicate NoEmptyTable(ctx: Context) {
    forall t :: 0 <= t < |ctx.tables| ==> ctx.tables[t].rows != []
  }

  /** The pruned search, at any depth, finds what filtering the whole product finds, in the same
      order, and reports success. */
  lemma {:induction false} SearchRefines(ctx: Context, cond: Option<Expr>, order: seq<nat>, k: nat, rows: seq<int>)
    requires Executable(ctx, cond, order) && AlignedThroughout(cond, order) && NoEmptyTable(ctx)
    requires k < |order| && AtDepth(ctx, order, k, rows)
    ensures Search(ctx, cond, order, k, rows) == Found(Success, Keep(ctx, cond, Product(ctx, order, k, rows)))
    decreases |order| - k, 2, 0
  {
    SearchFromRefines(ctx, cond, order, k, rows, 0, FunctionFailed);
  }

  lemma {:induction false} SearchFromRefines(
      ctx: Context, cond: Option<Expr>, order: seq<nat>, k: nat, rows: seq<int>, i: nat, r: Status)
    requires Executable(ctx, cond, order) && AlignedThroughout(cond, order) && NoEmptyTable(ctx)
    requires k < |order| && AtDepth(ctx, order, k, rows)
    requires r == Success || i < |ctx.tables[order[k]].rows|
    ensures SearchFrom(ctx, cond, order, k, rows, i, r)
      == Found(Success, Keep(ctx, cond, ProductFrom(ctx, order, k, rows, i)))
    decreases |order| - k, 1, |ctx.tables[order[k]].rows| - i
  {
    if i < |ctx.tables[order[k]].rows| {
      var current := rows[order[k] := i];
      VisitRefines(ctx, cond, order, k, current);
      SearchFromRefines(ctx, cond, order, k, rows, i + 1, Success);
      KeepConcat(ctx, cond, Product(ctx, order, k + 1, current), ProductFrom(ctx, order, k, rows, i + 1));
    }
  }

  lemma {:induction false} VisitRefines(ctx: Context, cond: Option<Expr>, order: seq<nat>, k: nat, current: seq<int>)
    requires Executable(ctx, cond, order) && AlignedThroughout(cond, order) && NoEmptyTable(ctx)
    requires k < |order| && AtDepth(ctx, order, k + 1, current)
    ensures VisitRow(ctx, cond, order, k, current)
      == Visit(Found(Success, Keep(ctx, cond, Product(ctx, order, k + 1, current))), false)
    decreases |order| - k, 0, 0
  {
    var inner := Product(ctx, order, k + 1, current);
    VerdictAtDepth(ctx, cond, order, k + 1, current);
    ProductMembers(ctx, order, k + 1, current);
    if ValueOr0(EvalCond(ctx, cond, current).val) == 0 {
      KeepNothing(ctx, cond, inner);
    } else if k + 1 < |order| {
      SearchRefines(ctx, cond, order, k + 1, current);
    } else {
      assert inner == [current] && inner[0] in inner;
    }
  }

  // ---------------------------------------------------------------------------------------------
  // Without aligned markers: what the search finds exactly
  // ---------------------------------------------------------------------------------------------

  /** The row array when the first j tables of the order have their rows from x. */
  function Prefix(order: seq<nat>, j: nat, x: seq<int>): (rows: seq<int>)
    requires j <= |order|
    ensures |rows| == |x|
    ensures forall t :: 0 <= t < |x| ==> rows[t] == if t in order[..j] then x[t] else INVALID_ROW_INDEX
  {
    seq(|x|, t requires 0 <= t < |x| => if t in order[..j] then x[t] else INVALID_ROW_INDEX)
  }

  /** The verdict on the first j tables does not cut x off. */
  predicate PassesAt(ctx: Context, cond: Option<Expr>, order: seq<nat>, j: nat, x: seq<int>)
    requires j <= |order|
  {
    ValueOr0(EvalCond(ctx, cond, Prefix(order, j, x)).val) != 0
  }

  /** No verdict on the tables after the first k, short of all of them, cuts x off. */
  predicate Passes(ctx: Context, cond: Option<Expr>, order: seq<nat>, k: nat, x: seq<int>) {
    forall j :: k < j < |order| ==> PassesAt(ctx, cond, order, j, x)
  }

  lemma PrefixIs(ctx: Context, order: seq<nat>, k: nat, rows: seq<int>, x: seq<int>)
    requires IsJoinOrder(order, |ctx.tables|) && k <= |order| && AtDepth(ctx, order, k, rows)
    requires Completes(ctx, order, k, rows, x)
    ensures Prefix(order, k, x) == rows
    ensures k == |order| ==> x == rows
  {
    forall t: nat | t < |rows|
      ensures Prefix(order, k, x)[t] == rows[t]
      ensures k == |order| ==> x[t] == rows[t]
    {
      assert t in order;
      var j :| 0 <= j < |order| && order[j] == t;
      if j < k {
        assert order[..k][j] == t;
        assert t !in order[k..];
      } else {
        assert t !in order[..k];
      }
    }
  }

  /** Whatever happens to the markers, the search reports success and finds each tuple that satisfies the
      condition, except those that some verdict on a part of the tables cuts off. */
  lemma {:induction false} SearchExact(ctx: Context, cond: Option<Expr>, order: seq<nat>, k: nat, rows: seq<int>)
    requires Executable(ctx, cond, order) && NoEmptyTable(ctx)
    requires k < |order| && AtDepth(ctx, order, k, rows)
    ensures var f := Search(ctx, cond, order, k, rows);
      && f.status == Success
      && forall x :: x in f.tuples <==>
          Completes(ctx, order, k, rows, x) && Selected(ctx, cond, x) && Passes(ctx, cond, order, k, x)
    decreases |order| - k, 2, 0
  {
    SearchFromExact(ctx, cond, order, k, rows, 0, FunctionFailed);
    assert order[k..][0] == order[k];
  }

  lemma {:induction false} SearchFromExact(
      ctx: Context, cond: Option<Expr>, order: seq<nat>, k: nat, rows: seq<int>, i: nat, r: Status)
    requires Executable(ctx, cond, order) && NoEmptyTable(ctx)
    requires k < |order| && AtDepth(ctx, order, k, rows)
    requires r == Success || i < |ctx.tables[order[k]].rows|
    ensures var f := SearchFrom(ctx, cond, order, k, rows, i, r);
      && f.status == Success
      && forall x :: x in f.tuples <==>
          CompletesFrom(ctx, order, k, rows, i, x) && Selected(ctx, cond, x) && Passes(ctx, cond, order, k, x)
    decreases |order| - k, 1, |ctx.tables[order[k]].rows| - i
  {
    CompletionSplit(ctx, order, k, rows, i);
    if i < |ctx.tables[order[k]].rows| {
      VisitExact(ctx, cond, order, k, rows[order[k] := i]);
      SearchFromExact(ctx, cond, order, k, rows, i + 1, Success);
      var first := VisitRow(ctx, cond, order, k, rows[order[k] := i]).found.tuples;
      var rest := SearchFrom(ctx, cond, order, k, rows, i + 1, Success).tuples;
      assert SearchFrom(ctx, cond, order, k, rows, i, r) == Found(Success, first + rest);
      assert forall x :: x in first + rest <==> x in first || x in rest;
    }
  }

  /** The next table has row i or a later one. */
  lemma CompletionSplit(ctx: Context, order: seq<nat>, k: nat, rows: seq<int>, i: nat)
    requires k < |order| && |rows| == |ctx.tables| && DistinctBelow(order, |ctx.tables|)
    ensures i >= |ctx.tables[order[k]].rows| ==> forall x :: !CompletesFrom(ctx, order, k, rows, i, x)
    ensures i < |ctx.tables[order[k]].rows| ==> forall x :: CompletesFrom(ctx, order, k, rows, i, x) <==>
      Completes(ctx, order, k + 1, rows[order[k] := i], x) || CompletesFrom(ctx, order, k, rows, i + 1, x)
  {
    var t := order[k];
    assert order[k..] == [t] + order[k + 1..] && t !in order[k + 1..];
  }

  lemma {:induction false} VisitExact(ctx: Context, cond: Option<Expr>, order: seq<nat>, k: nat, current: seq<int>)
    requires Executable(ctx, cond, order) && NoEmptyTable(ctx)
    requires k < |order| && AtDepth(ctx, order, k + 1, current)
    ensures var v := VisitRow(ctx, cond, order, k, current);
      && v.found.status == Success && !v.stop
      && forall x :: x in v.found.tuples <==>
          Completes(ctx, order, k + 1, current, x) && Selected(ctx, cond, x) && Passes(ctx, cond, order, k, x)
    decreases |order| - k, 0, 0
  {
    VerdictOpen(ctx, cond, order, k + 1, current);
    forall x | Completes(ctx, order, k + 1, current, x)
      ensures k + 1 == |order| ==> x == current
      ensures Passes(ctx, cond, order, k, x) <==>
        (k + 1 < |order| ==> ValueOr0(EvalCond(ctx, cond, current).val) != 0 && Passes(ctx, cond, order, k + 1, x))
    {
      CurrentPasses(ctx, cond, order, k, current, x);
    }
    var tuples := VisitRow(ctx, cond, order, k, current).found.tuples;
    if ValueOr0(EvalCond(ctx, cond, current).val) == 0 {
      assert tuples == [];
    } else if k + 1 == |order| {
      assert tuples == [current] && Completes(ctx, order, k + 1, current, current);
      assert forall x :: x in tuples <==> x == current;
    } else {
      SearchExact(ctx, cond, order, k + 1, current);
      assert tuples == Search(ctx, cond, order, k + 1, current).tuples;
    }
  }

  /** What the verdict on the current rows says of a tuple that completes them. */
  lemma CurrentPasses(ctx: Context, cond: Option<Expr>, order: seq<nat>, k: nat, current: seq<int>, x: seq<int>)
    requires IsJoinOrder(order, |ctx.tables|) && k < |order| && AtDepth(ctx, order, k + 1, current)
    requires Completes(ctx, order, k + 1, current, x)
    ensures k + 1 == |order| ==> x == current
    ensures Passes(ctx, cond, order, k, x) <==>
      (k + 1 < |order| ==> ValueOr0(EvalCond(ctx, cond, current).val) != 0 && Passes(ctx, cond, order, k + 1, x))
  {
    PrefixIs(ctx, order, k + 1, current, x);
    PassesNext(ctx, cond, order, k, x);
  }

  lemma PassesNext(ctx: Context, cond: Option<Expr>, order: seq<nat>, k: nat, x: seq<int>)
    requires k < |order|
    ensures Passes(ctx, cond, order, k, x) <==>
      (k + 1 < |order| ==> PassesAt(ctx, cond, order, k + 1, x) && Passes(ctx, cond, order, k + 1, x))
  {
  }

  // ---------------------------------------------------------------------------------------------
  // Whatever the condition, the search adds each tuple of rows at most once
  // ---------------------------------------------------------------------------------------------

  lemma {:induction false} SearchFindsTuples(ctx: Context, cond: Option<Expr>, order: seq<nat>, k: nat, rows: seq<int>)
    requires DistinctBelow(order, |ctx.tables|) && k < |order| && |rows| == |ctx.tables|
    ensures var found := Search(ctx, cond, order, k, rows).tuples;
      NoRepeats(found) && forall x :: x in found ==> Completes(ctx, order, k, rows, x)
    decreases |order| - k, 2, 0
  {
    SearchFromFindsTuples(ctx, cond, order, k, rows, 0, FunctionFailed);
  }

  lemma {:induction false} SearchFromFindsTuples(
      ctx: Context, cond: Option<Expr>, order: seq<nat>, k: nat, rows: seq<int>, i: nat, r: Status)
    requires DistinctBelow(order, |ctx.tables|) && k < |order| && |rows| == |ctx.tables|
    ensures var found := SearchFrom(ctx, cond, order, k, rows, i, r).tuples;
      NoRepeats(found) && forall x :: x in found ==> CompletesFrom(ctx, order, k, rows, i, x)
    decreases |order| - k, 1, |ctx.tables[order[k]].rows| - i
  {
    var t := order[k];
    if i < |ctx.tables[t].rows| {
      var v := VisitRow(ctx, cond, order, k, rows[t := i]);
      VisitFindsTuples(ctx, cond, order, k, rows[t := i]);
      assert order[k..] == [t] + order[k + 1..];
      assert t !in order[k + 1..];
      if !v.stop {
        SearchFromFindsTuples(ctx, cond, order, k, rows, i + 1, v.found.status);
        var rest := SearchFrom(ctx, cond, order, k, rows, i + 1, v.found.status).tuples;
        NoRepeatsConcat(v.found.tuples, rest);
      }
    }
  }

  lemma NoRepeatsConcat(a: seq<seq<int>>, b: seq<seq<int>>)
    requires NoRepeats(a) && NoRepeats(b)
    requires forall x :: x in a ==> x !in b
    ensures NoRepeats(a + b)
  {
    forall i, j | 0 <= i < j < |a + b|
      ensures (a + b)[i] != (a + b)[j]
    {
      if i < |a| <= j {
        assert a[i] in a && b[j - |a|] in b;
      }
    }
  }

  lemma {:induction false} VisitFindsTuples(ctx: Context, cond: Option<Expr>, order: seq<nat>, k: nat, current: seq<int>)
    requires DistinctBelow(order, |ctx.tables|) && k < |order| && |current| == |ctx.tables|
    ensures var found := VisitRow(ctx, cond, order, k, current).found.tuples;
      NoRepeats(found) && forall x :: x in found ==> Completes(ctx, order, k + 1, current, x)
    decreases |order| - k, 0, 0
  {
    if k + 1 < |order| {
      SearchFindsTuples(ctx, cond, order, k + 1, current);
    } else {
      assert order[k + 1..] == [];
    }
  }
}
