/** When a join gives its parameter markers the right record fields, and a join that does not. */
module WhereMarkers {
  import opened Prelude
  import opened Records
  import opened WhereEval
  import opened WherePruning
  import opened WhereOrder
  import opened WhereSearch
  import opened WhereViews

  /** Every evaluation that the nested loop can make hands each `?` its own record field. */
  ghost predicate MarkersKeepFields(cond: Expr, order: seq<nat>) {
    forall k :: 1 <= k <= |order| ==> ReadsOwnFields(Reads(cond, TablesUpTo(order, k), 0, 0))
  }

  lemma {:induction false} AllKnownAligned(e: Expr, known: set<nat>, n: nat)
    requires TablesBelow(e, n)
    requires forall t: nat :: t < n ==> t in known
    ensures Aligned(e, known) && !Skips(e, known)
  {
    if e.Complex? {
      AllKnownAligned(e.left, known, n);
      AllKnownAligned(e.right, known, n);
    }
  }

  /** The precondition of the join theorem is exact: it fails only when some evaluation reads a field
      that belongs to another marker. */
  lemma AlignmentExact(cond: Expr, order: seq<nat>, n: nat)
    requires Typed(cond) && TablesBelow(cond, n) && IsJoinOrder(order, n)
    ensures AlignedThroughout(Some(cond), order) <==> MarkersKeepFields(cond, order)
  {
    forall k | 1 <= k <= |order|
      ensures ReadsOwnFields(Reads(cond, TablesUpTo(order, k), 0, 0)) <==> Aligned(cond, TablesUpTo(order, k))
      ensures k == |order| ==> Aligned(cond, TablesUpTo(order, k))
    {
      MarkersReadOwnFields(cond, TablesUpTo(order, k), 0);
      if k == |order| {
        assert order[..k] == order;
        AllKnownAligned(cond, TablesUpTo(order, k), n);
      }
    }
  }

  /** Some string comparison has a `?` on its right. */
  predicate HasStringMarker(e: Expr) {
    match e
    case Complex(_, l, r) => HasStringMarker(l) || HasStringMarker(r)
    case StrCmp(_, l, r) => l.ColString? && r.Wildcard?
    case _ => false
  }

  /** Two ways for a caller to be safe: join no tables, or compare strings with literals only. */
  lemma {:induction false} SafeWithoutStringMarkers(e: Expr, known: set<nat>)
    requires !HasStringMarker(e)
    ensures !Skips(e, known) && Aligned(e, known)
  {
    if e.Complex? {
      SafeWithoutStringMarkers(e.left, known);
      SafeWithoutStringMarkers(e.right, known);
    }
  }

  lemma SafeQueries(cond: Option<Expr>, order: seq<nat>)
    requires |order| <= 1 || cond.None? || !HasStringMarker(cond.value)
    ensures AlignedThroughout(cond, order)
  {
    if cond.Some? && |order| > 1 {
      forall k | 1 <= k < |order|
        ensures Aligned(cond.value, TablesUpTo(order, k))
      {
        SafeWithoutStringMarkers(cond.value, TablesUpTo(order, k));
      }
    }
  }

  // ---------------------------------------------------------------------------------------------
  // A family of joins that lose their only match
  // ---------------------------------------------------------------------------------------------

  const FIRST := ColumnRef(0, 1)
  const SECOND := ColumnRef(1, 1)

  function Matches(c: ColumnRef): Expr { StrCmp(Eq, ColString(c), Wildcard) }

  /** `first.c = ? AND second.c = ?` */
  function Both(): Expr { Complex(And, Matches(FIRST), Matches(SECOND)) }

  /** Two tables of one string column and one row each, with the values of those rows as parameters. */
  function Pair(a: Str, b: Str): Context {
    Context([JoinTable([MSITYPE_STRING], [[1]]), JoinTable([MSITYPE_STRING], [[2]])],
            map[1 := a, 2 := b], [StrField(a), StrField(b)])
  }

  lemma MatchChecked(c: ColumnRef, ordered: seq<nat>, last: Option<nat>)
    requires c.table !in ordered
    ensures Checked(Matches(c), ordered, false, last) == Check(CONST_EXPR, ordered + [c.table], Some(c.table))
  {
    assert Checked(Wildcard, ordered, false, last) == Check(0, ordered, last);
    assert Checked(ColString(c), ordered, false, last) == Check(CONST_EXPR, ordered, Some(c.table));
  }

  /** The right side of AND is looked at first, so its table comes first. */
  lemma RightSideFirst(l: Expr, r: Expr, n: nat)
    requires Checked(r, [], false, None) == Check(CONST_EXPR, [1], Some(1))
    requires Checked(l, [1], false, Some(1)) == Check(CONST_EXPR, [1, 0], Some(0))
    requires TablesBelow(l, n) && TablesBelow(r, n) && n == 2
    ensures OrderedTables(Some(Complex(And, l, r)), n) == [1, 0]
  {
    FirstPassLeads(Complex(And, l, r), [1, 0], n);
    OrderIsPermutation(Some(Complex(And, l, r)), n);
  }

  lemma BothChecked()
    ensures Checked(Matches(SECOND), [], false, None) == Check(CONST_EXPR, [1], Some(1))
    ensures Checked(Matches(FIRST), [1], false, Some(1)) == Check(CONST_EXPR, [1, 0], Some(0))
  {
    MatchChecked(SECOND, [], None);
    MatchChecked(FIRST, [1], Some(1));
  }

  lemma BothOrder()
    ensures OrderedTables(Some(Both()), 2) == [1, 0]
  {
    BothChecked();
    RightSideFirst(Matches(FIRST), Matches(SECOND), 2);
  }

  /** With only the second table assigned, the left marker is passed over and the right one takes its
      field. */
  lemma OvertakenVerdict(a: Str, b: Str)
    requires a != [] && b != [] && a != b
    ensures EvalCond(Pair(a, b), Some(Both()), [INVALID_ROW_INDEX, 0]) == Outcome(Success, Some(0), 1)
  {
    var ctx, rows := Pair(a, b), [INVALID_ROW_INDEX, 0];
    assert FetchValue(ctx, FIRST, rows) == (Continue, 1);
    assert Eval(ctx, rows, Matches(FIRST), 0) == Outcome(Continue, Some(1), 0);
    assert FetchInt(ctx.tables[1], 0, 1) == (Success, 2);
    assert EvalString(ctx, rows, ColString(SECOND), 0) == StringOutcome(Success, Some(b), 0);
    assert EvalString(ctx, rows, Wildcard, 0) == StringOutcome(Success, Some(a), 1);
    LexZero(b, a);
    assert Eval(ctx, rows, Matches(SECOND), 0) == Outcome(Success, Some(0), 1);
  }

  lemma OvertakenMatch(a: Str, b: Str)
    ensures IsTuple(Pair(a, b), [0, 0])
    ensures Selected(Pair(a, b), Some(Both()), [0, 0])
  {
    var ctx := Pair(a, b);
    assert Text(ctx, [0, 0], ColString(FIRST), 0) == Text(ctx, [0, 0], Wildcard, 0) == a;
    assert Text(ctx, [0, 0], ColString(SECOND), 1) == Text(ctx, [0, 0], Wildcard, 1) == b;
    assert Holds(ctx, [0, 0], Matches(FIRST), 0);
    assert Holds(ctx, [0, 0], Matches(SECOND), 1);
  }

  /** A first table whose only row is rejected ends the search. */
  lemma OnlyRowRejected(ctx: Context, cond: Option<Expr>, order: seq<nat>, rows: seq<int>)
    requires order != [] && |rows| == |ctx.tables| && InRange(order, |ctx.tables|)
    requires |ctx.tables[order[0]].rows| == 1
    requires EvalCond(ctx, cond, rows[order[0] := 0]).status == Success
    requires EvalCond(ctx, cond, rows[order[0] := 0]).val == Some(0)
    ensures Search(ctx, cond, order, 0, rows) == Found(Success, [])
  {
    assert VisitRow(ctx, cond, order, 0, rows[order[0] := 0]) == Visit(Found(Success, []), false);
    assert SearchFrom(ctx, cond, order, 0, rows, 1, Success) == Found(Success, []);
  }

  /** Two tables, the second one first, its only row rejected. */
  lemma SecondFirst(ctx: Context, cond: Option<Expr>)
    requires |ctx.tables| == 2 && |ctx.tables[1].rows| == 1 && (cond.Some? ==> Resolved(ctx, cond.value))
    requires OrderedTables(cond, 2) == [1, 0]
    requires EvalCond(ctx, cond, [INVALID_ROW_INDEX, 0]).status == Success
    requires EvalCond(ctx, cond, [INVALID_ROW_INDEX, 0]).val == Some(0)
    ensures FullSearch(ctx, cond) == Found(Success, [])
  {
    var rows := Unassigned(|ctx.tables|);
    assert rows[1 := 0] == [INVALID_ROW_INDEX, 0];
    OnlyRowRejected(ctx, cond, [1, 0], rows);
  }

  lemma PairExecutable(a: Str, b: Str)
    ensures Typed(Both()) && Resolved(Pair(a, b), Both())
    ensures WellFormed(Pair(a, b)) && NoEmptyTable(Pair(a, b))
  {
    assert Typed(Matches(FIRST)) && Typed(Matches(SECOND));
    assert RefersTo(Pair(a, b), FIRST) && RefersTo(Pair(a, b), SECOND);
  }

  /** For every pair of different non-empty values, the join loses its one matching tuple. */
  lemma MarkerOvertaken(a: Str, b: Str)
    requires a != [] && b != [] && a != b
    ensures Typed(Both()) && Resolved(Pair(a, b), Both()) && WellFormed(Pair(a, b)) && NoEmptyTable(Pair(a, b))
    ensures IsTuple(Pair(a, b), [0, 0]) && Selected(Pair(a, b), Some(Both()), [0, 0])
    ensures FullSearch(Pair(a, b), Some(Both())) == Found(Success, [])
  {
    PairExecutable(a, b);
    BothOrder();
    OvertakenMatch(a, b);
    OvertakenVerdict(a, b);
    SecondFirst(Pair(a, b), Some(Both()));
  }
}
