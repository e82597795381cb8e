/** The choice of a join order (reorder_check and ordertables in libmsi/where.c). */
module WhereOrder {
  import opened Prelude
  import opened Records
  import opened WhereEval

  const CONST_EXPR := 1
  const JOIN_TO_CONST_EXPR := 0x10000
  const UNKNOWN_EXPR := 0x100_0000

  // ---------------------------------------------------------------------------------------------
  // Specification
  // ---------------------------------------------------------------------------------------------

  /** Appends a table that is not listed yet; a null pointer is never appended. */
  function Added(ordered: seq<nat>, table: Option<nat>): seq<nat> {
    if table.None? || table.value in ordered then ordered else ordered + [table.value]
  }

  /** What reorder_check returns, the list it leaves, and `*lastused`. */
  datatype Check = Check(res: nat, ordered: seq<nat>, last: Option<nat>)

  /** The common tail of the comparison cases. */
  function Settle(c: Check, joins: bool): Check {
    if c.res == CONST_EXPR || (joins && c.res == JOIN_TO_CONST_EXPR + CONST_EXPR)
    then c.(ordered := Added(c.ordered, c.last)) else c
  }

  function Checked(e: Expr, ordered: seq<nat>, joins: bool, last: Option<nat>): Check {
    match e
    case Wildcard => Check(0, ordered, last)
    case SVal(_) => Check(0, ordered, last)
    case UVal(_) => Check(0, ordered, last)
    case ColNumber(c) => CheckedColumn(c, ordered, last)
    case ColNumber32(c) => CheckedColumn(c, ordered, last)
    case ColString(c) => CheckedColumn(c, ordered, last)
    case StrCmp(_, l, r) =>
      var right := Checked(r, ordered, joins, last);
      var left := Checked(l, right.ordered, joins, right.last);
      Settle(left.(res := (right.res + left.res) % TWO32), joins)
    case Complex(_, l, r) =>
      var right := Checked(r, ordered, joins, last);
      var left := Checked(l, right.ordered, joins, right.last);
      Settle(left.(res := (right.res + left.res) % TWO32), joins)
    case Unary(_, l) => Settle(Checked(l, ordered, joins, last), joins)
    case _ => Check(UNKNOWN_EXPR, ordered, last)
  }

  function CheckedColumn(c: ColumnRef, ordered: seq<nat>, last: Option<nat>): Check {
    if c.table in ordered then Check(JOIN_TO_CONST_EXPR, ordered, last)
    else Check(CONST_EXPR, ordered, Some(c.table))
  }

  /** Appends tables n-1, ..., 0: the linked list of tables runs from the last one to the first. */
  function AddedRest(ordered: seq<nat>, n: nat): seq<nat>
    decreases n
  {
    if n == 0 then ordered else AddedRest(Added(ordered, Some(n - 1)), n - 1)
  }

  function OrderedTables(cond: Option<Expr>, n: nat): seq<nat> {
    var ordered :=
      if cond.None? then []
      else Checked(cond.value, Checked(cond.value, [], false, None).ordered, true, None).ordered;
    AddedRest(ordered, n)
  }

  // ---------------------------------------------------------------------------------------------
  // Properties
  // ---------------------------------------------------------------------------------------------

  predicate IsJoinOrder(s: seq<nat>, n: nat) {
    DistinctBelow(s, n) && Covers(s, n)
  }

  predicate TablesBelow(e: Expr, n: nat) {
    match e
    case Column(c) => c.table < n
    case ColNumber(c) => c.table < n
    case ColNumber32(c) => c.table < n
    case ColString(c) => c.table < n
    case Complex(_, l, r) => TablesBelow(l, n) && TablesBelow(r, n)
    case StrCmp(_, l, r) => TablesBelow(l, n) && TablesBelow(r, n)
    case Unary(_, l) => TablesBelow(l, n)
    case _ => true
  }

  lemma {:induction false} ResolvedBelow(ctx: Context, e: Expr)
    requires Resolved(ctx, e)
    ensures TablesBelow(e, |ctx.tables|)
  {
    match e {
      case Complex(_, l, r) => ResolvedBelow(ctx, l); ResolvedBelow(ctx, r);
      case StrCmp(_, l, r) => ResolvedBelow(ctx, l); ResolvedBelow(ctx, r);
      case Unary(_, l) => ResolvedBelow(ctx, l);
      case _ =>
    }
  }

  /** A list that grows, and a table that is known. */
  ghost predicate Grows(ordered: seq<nat>, c: Check, n: nat) {
    DistinctBelow(c.ordered, n) && ordered <= c.ordered && (c.last.Some? ==> c.last.value < n)
  }

  lemma PairPartial(ordered: seq<nat>, right: Check, left: Check, joins: bool, n: nat)
    requires Grows(ordered, right, n) && Grows(right.ordered, left, n)
    ensures Grows(ordered, Settle(left.(res := (right.res + left.res) % TWO32), joins), n)
  {
  }

  lemma {:induction false} CheckedPartial(e: Expr, ordered: seq<nat>, joins: bool, last: Option<nat>, n: nat)
    requires DistinctBelow(ordered, n) && TablesBelow(e, n)
    requires last.Some? ==> last.value < n
    ensures Grows(ordered, Checked(e, ordered, joins, last), n)
    decreases e, 1
  {
    match e {
      case Complex(_, l, r) => SidesPartial(e, l, r, ordered, joins, last, n);
      case StrCmp(_, l, r) => SidesPartial(e, l, r, ordered, joins, last, n);
      case Unary(_, l) =>
        CheckedPartial(l, ordered, joins, last, n);
      case _ => LeafPartial(e, ordered, joins, last, n);
    }
  }

  lemma LeafPartial(e: Expr, ordered: seq<nat>, joins: bool, last: Option<nat>, n: nat)
    requires !e.Complex? && !e.StrCmp? && !e.Unary?
    requires DistinctBelow(ordered, n) && TablesBelow(e, n) && (last.Some? ==> last.value < n)
    ensures Grows(ordered, Checked(e, ordered, joins, last), n)
  {
  }

  lemma {:induction false} SidesPartial(e: Expr, l: Expr, r: Expr, ordered: seq<nat>, joins: bool,
        last: Option<nat>, n: nat)
    requires (e.Complex? || e.StrCmp?) && l == e.left && r == e.right
    requires DistinctBelow(ordered, n) && TablesBelow(l, n) && TablesBelow(r, n)
    requires last.Some? ==> last.value < n
    ensures Grows(ordered, Checked(e, ordered, joins, last), n)
    decreases e, 0
  {
    CheckedPartial(r, ordered, joins, last, n);
    var right := Checked(r, ordered, joins, last);
    CheckedPartial(l, right.ordered, joins, right.last, n);
    var left := Checked(l, right.ordered, joins, right.last);
    PairPartial(ordered, right, left, joins, n);
    assert Checked(e, ordered, joins, last) == Settle(left.(res := (right.res + left.res) % TWO32), joins);
  }

  lemma {:induction false} AddedRestComplete(ordered: seq<nat>, n: nat, m: nat)
    requires DistinctBelow(ordered, n) && m <= n
    ensures DistinctBelow(AddedRest(ordered, m), n)
    ensures ordered <= AddedRest(ordered, m)
    ensures forall t: nat :: t < m ==> t in AddedRest(ordered, m)
    decreases m
  {
    if m > 0 {
      AddedRestComplete(Added(ordered, Some(m - 1)), n, m - 1);
      var more := Added(ordered, Some(m - 1));
      assert m - 1 in more;
      assert more <= AddedRest(more, m - 1);
    }
  }

  /** Whatever the heuristic picks, it picks every table exactly once. */
  lemma OrderIsPermutation(cond: Option<Expr>, n: nat)
    requires cond.Some? ==> TablesBelow(cond.value, n)
    ensures IsJoinOrder(OrderedTables(cond, n), n)
    ensures |OrderedTables(cond, n)| == n
  {
    var ordered: seq<nat> := [];
    if cond.Some? {
      CheckedPartial(cond.value, [], false, None, n);
      ordered := Checked(cond.value, [], false, None).ordered;
      CheckedPartial(cond.value, ordered, true, None, n);
      ordered := Checked(cond.value, ordered, true, None).ordered;
    }
    AddedRestComplete(ordered, n, n);
    DistinctFits(OrderedTables(cond, n), n);
  }

  /** The first pass of reorder_check decides how the order starts. */
  lemma FirstPassLeads(cond: Expr, first: seq<nat>, n: nat)
    requires TablesBelow(cond, n) && first == Checked(cond, [], false, None).ordered
    ensures DistinctBelow(first, n) && first <= OrderedTables(Some(cond), n)
  {
    CheckedPartial(cond, [], false, None, n);
    CheckedPartial(cond, first, true, None, n);
    var second := Checked(cond, first, true, None).ordered;
    AddedRestComplete(second, n, n);
  }

  /** A bare IS [NOT] NULL condition puts its table first. */
  lemma NullTestOrderedFirst(op: Op, operand: Expr, n: nat)
    requires operand.ColNumber? || operand.ColNumber32? || operand.ColString?
    requires operand.col.table < n
    ensures OrderedTables(Some(Unary(op, operand)), n) != []
    ensures OrderedTables(Some(Unary(op, operand)), n)[0] == operand.col.table
  {
    var t := operand.col.table;
    var e := Unary(op, operand);
    assert Checked(operand, [], false, None) == Check(CONST_EXPR, [], Some(t));
    assert Checked(e, [], false, None).ordered == [t];
    assert Checked(operand, [t], true, None) == Check(JOIN_TO_CONST_EXPR, [t], None);
    assert Checked(e, [t], true, None).ordered == [t];
    AddedRestComplete([t], n, n);
  }

  // ---------------------------------------------------------------------------------------------
  // The code: a null-terminated array of pointers with room for every table and the terminator
  // ---------------------------------------------------------------------------------------------

  ghost predicate Lists(a: array<Option<nat>>, s: seq<nat>)
    reads a
  {
    && |s| < a.Length
    && (forall i :: 0 <= i < |s| ==> a[i] == Some(s[i]))
    && (forall i :: |s| <= i < a.Length ==> a[i] == None)
  }

  method AddToArray(a: array<Option<nat>>, elem: Option<nat>, ghost s: seq<nat>)
    requires Lists(a, s) && |Added(s, elem)| < a.Length
    modifies a
    ensures Lists(a, Added(s, elem))
  {
    var i := 0;
    while a[i].Some? && a[i] != elem
      invariant 0 <= i <= |s|
      invariant forall k :: 0 <= k < i ==> Some(s[k]) != elem
      decreases |s| - i
    {
      i := i + 1;
    }
    if a[i].None? {
      a[i] := elem;
    }
  }

  method InArray(a: array<Option<nat>>, elem: nat, ghost s: seq<nat>) returns (found: bool)
    requires Lists(a, s)
    ensures found <==> elem in s
  {
    var i := 0;
    while a[i].Some? && a[i] != Some(elem)
      invariant 0 <= i <= |s|
      invariant forall k :: 0 <= k < i ==> s[k] != elem
      decreases |s| - i
    {
      i := i + 1;
    }
    found := a[i].Some?;
  }

  method ReorderCheck(e: Expr, a: array<Option<nat>>, joins: bool, last: Option<nat>, ghost s: seq<nat>, ghost n: nat)
    returns (res: nat, lastUsed: Option<nat>)
    requires Lists(a, s) && DistinctBelow(s, n) && a.Length == n + 1
    requires TablesBelow(e, n) && (last.Some? ==> last.value < n)
    modifies a
    ensures var c := Checked(e, s, joins, last); Lists(a, c.ordered) && res == c.res && lastUsed == c.last
    decreases e, 1
  {
    res, lastUsed := 0, last;
    CheckedPartial(e, s, joins, last, n);
    DistinctFits(Checked(e, s, joins, last).ordered, n);
    match e {
      case Wildcard => return;
      case SVal(_) => return;
      case UVal(_) => return;
      case ColNumber(c) =>
        res, lastUsed := CheckColumn(c, a, last, s);
        return;
      case ColNumber32(c) =>
        res, lastUsed := CheckColumn(c, a, last, s);
        return;
      case ColString(c) =>
        res, lastUsed := CheckColumn(c, a, last, s);
        return;
      case StrCmp(_, _, _) =>
        res, lastUsed := CheckSides(e, a, joins, last, s, n);
      case Complex(_, _, _) =>
        res, lastUsed := CheckSides(e, a, joins, last, s, n);
      case Unary(_, l) =>
        CheckedPartial(l, s, joins, last, n);
        res, lastUsed := ReorderCheck(l, a, joins, last, s, n);
        ghost var c := Checked(l, s, joins, last);
        if res == CONST_EXPR {
          AddToArray(a, lastUsed, c.ordered);
        } else if joins && res == JOIN_TO_CONST_EXPR + CONST_EXPR {
          AddToArray(a, lastUsed, c.ordered);
        }
      case _ =>
        res := UNKNOWN_EXPR;
    }
  }

  method CheckColumn(c: ColumnRef, a: array<Option<nat>>, last: Option<nat>, ghost s: seq<nat>)
    returns (res: nat, lastUsed: Option<nat>)
    requires Lists(a, s)
    ensures CheckedColumn(c, s, last) == Check(res, s, lastUsed)
  {
    var found := InArray(a, c.table, s);
    if found {
      res, lastUsed := JOIN_TO_CONST_EXPR, last;
    } else {
      res, lastUsed := CONST_EXPR, Some(c.table);
    }
  }

  method CheckSides(e: Expr, a: array<Option<nat>>, joins: bool, last: Option<nat>, ghost s: seq<nat>, ghost n: nat)
    returns (res: nat, lastUsed: Option<nat>)
    requires e.Complex? || e.StrCmp?
    requires Lists(a, s) && DistinctBelow(s, n) && a.Length == n + 1
    requires TablesBelow(e, n) && (last.Some? ==> last.value < n)
    modifies a
    ensures var c := Checked(e, s, joins, last); Lists(a, c.ordered) && res == c.res && lastUsed == c.last
    decreases e, 0
  {
    CheckedPartial(e, s, joins, last, n);
    DistinctFits(Checked(e, s, joins, last).ordered, n);
    var right, lastRight := ReorderCheck(e.right, a, joins, last, s, n);
    CheckedPartial(e.right, s, joins, last, n);
    ghost var c := Checked(e.right, s, joins, last);
    var left;
    left, lastUsed := ReorderCheck(e.left, a, joins, lastRight, c.ordered, n);
    c := Checked(e.left, c.ordered, joins, lastRight);
    res := (right + left) % TWO32;
    if res == CONST_EXPR {
      AddToArray(a, lastUsed, c.ordered);
    } else if joins && res == JOIN_TO_CONST_EXPR + CONST_EXPR {
      AddToArray(a, lastUsed, c.ordered);
    }
  }

  /** ordertables: the array holds each of the n tables once and ends in a null pointer. */
  method OrderTables(cond: Option<Expr>, n: nat) returns (tables: array<Option<nat>>)
    requires cond.Some? ==> TablesBelow(cond.value, n)
    ensures fresh(tables) && tables.Length == n + 1
    ensures Lists(tables, OrderedTables(cond, n))
  {
    tables := new Option<nat>[n + 1](_ => None);
    ghost var s: seq<nat> := [];
    if cond.Some? {
      var _, _ := ReorderCheck(cond.value, tables, false, None, s, n);
      CheckedPartial(cond.value, s, false, None, n);
      s := Checked(cond.value, s, false, None).ordered;
      var _, _ := ReorderCheck(cond.value, tables, true, None, s, n);
      CheckedPartial(cond.value, s, true, None, n);
      s := Checked(cond.value, s, true, None).ordered;
    }
    var i := n;
    while i > 0
      invariant 0 <= i <= n
      invariant Lists(tables, s) && DistinctBelow(s, n)
      invariant AddedRest(s, i) == OrderedTables(cond, n)
    {
      i := i - 1;
      DistinctFits(Added(s, Some(i)), n);
      AddToArray(tables, Some(i), s);
      s := Added(s, Some(i));
    }
  }
}
