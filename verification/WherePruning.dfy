/** Soundness of cutting the nested loop off on a partial assignment, and the two-valued meaning of
    a condition that it is measured against. */
module WherePruning {
  import opened Prelude
  import opened Records
  import opened WhereEval

  // ---------------------------------------------------------------------------------------------
  // Reference meaning of a condition on one row of every table
  // ---------------------------------------------------------------------------------------------

  /** The stored cell; 0 stands for NULL. */
  function Cell(ctx: Context, rows: seq<int>, c: ColumnRef): nat {
    if c.table < |rows| && c.table < |ctx.tables| && rows[c.table] >= 0 then
      FetchInt(ctx.tables[c.table], rows[c.table], c.column).1
    else 0
  }

  /** The number an operand stands for; `before` is how many `?` are written to its left. */
  function Number(ctx: Context, rows: seq<int>, e: Expr, before: nat): int {
    match e
    case ColNumber(c) => ToInt32(Cell(ctx, rows, c) - 0x8000)
    case ColNumber32(c) => ToInt32(Cell(ctx, rows, c) - TWO31)
    case UVal(u) => u
    case Wildcard => GetInt(ctx.params, before + 1)
    case _ => 0
  }

  /** The text an operand stands for, NULL and anything that is no string being empty. */
  function Text(ctx: Context, rows: seq<int>, e: Expr, before: nat): Str {
    var s := match e
      case ColString(c) => LookupString(ctx, Cell(ctx, rows, c))
      case SVal(v) => Some(v)
      case Wildcard => GetStringRaw(ctx.params, before + 1)
      case _ => None;
    if s.Some? then s.value else []
  }

  predicate Holds(ctx: Context, rows: seq<int>, e: Expr, before: nat) {
    match e
    case Complex(op, l, r) =>
      if op == And then Holds(ctx, rows, l, before) && Holds(ctx, rows, r, before + Markers(l))
      else if op == Or then Holds(ctx, rows, l, before) || Holds(ctx, rows, r, before + Markers(l))
      else
        var x, y := Number(ctx, rows, l, before), Number(ctx, rows, r, before + Markers(l));
        (match op
         case Eq => x == y
         case Ne => x != y
         case Lt => x < y
         case Gt => x > y
         case Le => x <= y
         case Ge => x >= y
         case _ => false)
    case Unary(op, l) => IsColumn(l) && ((op == IsNull) <==> Cell(ctx, rows, l.col) == 0)
    case StrCmp(op, l, r) => (op == Eq) <==> Text(ctx, rows, l, before) == Text(ctx, rows, r, before)
    case _ => false
  }

  /** Meaning of an optional WHERE clause. */
  predicate Selected(ctx: Context, cond: Option<Expr>, rows: seq<int>) {
    cond.None? || Holds(ctx, rows, cond.value, 0)
  }

  // ---------------------------------------------------------------------------------------------
  // Parameter markers
  // ---------------------------------------------------------------------------------------------

  lemma {:induction false} ReadsLag(e: Expr, known: set<nat>, index: nat, meant: nat)
    requires Typed(e) || IsOperand(e)
    ensures |Reads(e, known, index, meant)| <= Markers(e)
    ensures |Reads(e, known, index, meant)| == Markers(e) <==> !Skips(e, known)
    ensures Reads(e, known, index, meant) == [] <==> !Consumes(e, known)
    ensures index < meant ==> forall k :: 0 <= k < |Reads(e, known, index, meant)| ==>
      Reads(e, known, index, meant)[k].field < Reads(e, known, index, meant)[k].own
  {
    if e.Complex? {
      var first := Reads(e.left, known, index, meant);
      ReadsLag(e.left, known, index, meant);
      ReadsLag(e.right, known, index + |first|, meant + Markers(e.left));
    }
  }

  /** The value of a field that a `?` reads, a missing one being null. */
  function ParamAt(params: seq<Field>, n: int): Field {
    if 1 <= n <= |params| then params[n - 1] else NullField
  }

  predicate SameFields(params: seq<Field>, other: seq<Field>, trace: seq<Read>) {
    forall k :: 0 <= k < |trace| ==> ParamAt(params, trace[k].field) == ParamAt(other, trace[k].field)
  }

  lemma SameFieldsSplit(params: seq<Field>, other: seq<Field>, first: seq<Read>, second: seq<Read>)
    requires SameFields(params, other, first + second)
    ensures SameFields(params, other, first) && SameFields(params, other, second)
  {
    var all := first + second;
    assert forall k :: 0 <= k < |first| ==> all[k] == first[k];
    assert forall k :: 0 <= k < |second| ==> all[|first| + k] == second[k];
  }

  /** An evaluation depends on the fields that it is said to read, and on no other: records that agree on
      those give the same outcome. */
  lemma {:induction false} EvalReads(ctx: Context, rows: seq<int>, e: Expr, i: nat, meant: nat, other: seq<Field>)
    requires WellFormed(ctx) && IsAssignment(ctx, rows) && Resolved(ctx, e) && (Typed(e) || IsOperand(e))
    requires SameFields(ctx.params, other, Reads(e, Known(rows), i, meant))
    ensures Eval(ctx.(params := other), rows, e, i) == Eval(ctx, rows, e, i)
  {
    match e {
      case Complex(op, l, r) =>
        var j, m := i + |Reads(l, Known(rows), i, meant)|, meant + Markers(l);
        SameFieldsSplit(ctx.params, other, Reads(l, Known(rows), i, meant), Reads(r, Known(rows), j, m));
        LeftIndex(ctx, rows, l, i, meant);
        EvalReads(ctx, rows, l, i, meant, other);
        EvalReads(ctx, rows, r, j, m, other);
        SidesEqual(ctx, ctx.(params := other), rows, op, l, r, i, j);
      case StrCmp(_, _, _) =>
        StrCmpReads(ctx, rows, e, i, meant, other);
      case _ =>
        LeafReads(ctx, rows, e, i, meant, other);
    }
  }

  lemma SidesEqual(ctx: Context, changed: Context, rows: seq<int>, op: Op, l: Expr, r: Expr, i: nat, j: nat)
    requires Eval(ctx, rows, l, i).index == j
    requires Eval(changed, rows, l, i) == Eval(ctx, rows, l, i) && Eval(changed, rows, r, j) == Eval(ctx, rows, r, j)
    ensures Eval(changed, rows, Complex(op, l, r), i) == Eval(ctx, rows, Complex(op, l, r), i)
  {
  }

  lemma LeafReads(ctx: Context, rows: seq<int>, e: Expr, i: nat, meant: nat, other: seq<Field>)
    requires !e.Complex? && !e.StrCmp? && (Typed(e) || IsOperand(e))
    requires SameFields(ctx.params, other, Reads(e, Known(rows), i, meant))
    ensures Eval(ctx.(params := other), rows, e, i) == Eval(ctx, rows, e, i)
  {
    if e.Wildcard? {
      assert Reads(e, Known(rows), i, meant)[0].field == i + 1;
    }
  }

  lemma LeftIndex(ctx: Context, rows: seq<int>, e: Expr, i: nat, meant: nat)
    requires WellFormed(ctx) && IsAssignment(ctx, rows) && Resolved(ctx, e) && (Typed(e) || IsOperand(e))
    ensures Eval(ctx, rows, e, i).index == i + |Reads(e, Known(rows), i, meant)|
  {
    if Typed(e) {
      EvalFacts(ctx, rows, e, i);
    } else {
      OperandFacts(ctx, rows, e, i);
    }
    ReadsLength(e, Known(rows), i, 0, i, meant);
  }

  lemma StrCmpReads(ctx: Context, rows: seq<int>, e: Expr, i: nat, meant: nat, other: seq<Field>)
    requires WellFormed(ctx) && IsAssignment(ctx, rows) && e.StrCmp? && Typed(e) && Resolved(ctx, e)
    requires SameFields(ctx.params, other, Reads(e, Known(rows), i, meant))
    ensures Eval(ctx.(params := other), rows, e, i) == Eval(ctx, rows, e, i)
  {
    var changed := ctx.(params := other);
    assert EvalString(changed, rows, e.left, i) == EvalString(ctx, rows, e.left, i);
    if !e.right.Wildcard? {
      assert EvalString(changed, rows, e.right, i) == EvalString(ctx, rows, e.right, i);
    } else if Skips(e, Known(rows)) {
      FetchValueFacts(ctx, e.left.col, rows);
    } else {
      assert Reads(e, Known(rows), i, meant)[0].field == i + 1;
      assert EvalString(changed, rows, e.right, i) == EvalString(ctx, rows, e.right, i);
    }
  }

  lemma OwnFieldsSplit(first: seq<Read>, second: seq<Read>)
    ensures ReadsOwnFields(first + second) <==> ReadsOwnFields(first) && ReadsOwnFields(second)
  {
    var all := first + second;
    assert forall k :: 0 <= k < |first| ==> all[k] == first[k];
    assert forall k :: 0 <= k < |second| ==> all[|first| + k] == second[k];
  }

  /** Each `?` is given its own record field exactly when the condition is aligned. */
  lemma {:induction false} MarkersReadOwnFields(e: Expr, known: set<nat>, index: nat)
    requires Typed(e) || IsOperand(e)
    ensures ReadsOwnFields(Reads(e, known, index, index)) <==> Aligned(e, known)
  {
    match e {
      case Complex(op, l, r) =>
        MarkersReadOwnFields(l, known, index);
        MarkersReadOwnFields(r, known, index + |Reads(l, known, index, index)|);
        ComplexReads(op, l, r, known, index);
      case _ =>
    }
  }

  lemma ComplexReads(op: Op, l: Expr, r: Expr, known: set<nat>, index: nat)
    requires Typed(l) || IsOperand(l)
    requires Typed(r) || IsOperand(r)
    requires ReadsOwnFields(Reads(l, known, index, index)) <==> Aligned(l, known)
    requires var i := index + |Reads(l, known, index, index)|;
      ReadsOwnFields(Reads(r, known, i, i)) <==> Aligned(r, known)
    ensures ReadsOwnFields(Reads(Complex(op, l, r), known, index, index)) <==> Aligned(Complex(op, l, r), known)
  {
    var first := Reads(l, known, index, index);
    var i := index + |first|;
    var meant := index + Markers(l);
    var second := Reads(r, known, i, meant);
    ReadsLag(l, known, index, index);
    OwnFieldsSplit(first, second);
    assert Reads(Complex(op, l, r), known, index, index) == first + second;
    if Skips(l, known) {
      LaggingReads(r, known, i, meant);
    } else {
      assert i == meant;
    }
  }

  /** Behind by at least one field, reads are right exactly when there are none; and then they are
      aligned as well. */
  lemma LaggingReads(e: Expr, known: set<nat>, index: nat, meant: nat)
    requires Typed(e) || IsOperand(e)
    requires index < meant
    ensures ReadsOwnFields(Reads(e, known, index, meant)) <==> !Consumes(e, known)
    ensures !Consumes(e, known) ==> ReadsOwnFields(Reads(e, known, index, index))
  {
    ReadsLag(e, known, index, meant);
    ReadsLag(e, known, index, index);
    var trace := Reads(e, known, index, meant);
    if trace != [] {
      assert trace[0].field < trace[0].own;
    }
  }

  // ---------------------------------------------------------------------------------------------
  // Monotonicity
  // ---------------------------------------------------------------------------------------------

  lemma OperandKept(ctx: Context, rows: seq<int>, more: seq<int>, e: Expr, i: nat, i': nat)
    requires WellFormed(ctx) && IsAssignment(ctx, rows) && IsAssignment(ctx, more) && Extends(rows, more)
    requires IsOperand(e) && Resolved(ctx, e)
    requires i == i' || !e.Wildcard?
    requires Eval(ctx, rows, e, i).status == Success
    ensures Eval(ctx, more, e, i').status == Success
    ensures Eval(ctx, more, e, i').val == Eval(ctx, rows, e, i).val
  {
    if IsNumericColumn(e) {
      FetchValueFacts(ctx, e.col, rows);
    }
  }

  lemma StrCmpKept(ctx: Context, rows: seq<int>, more: seq<int>, e: Expr, i: nat, i': nat)
    requires WellFormed(ctx) && IsAssignment(ctx, rows) && IsAssignment(ctx, more) && Extends(rows, more)
    requires Typed(e) && e.StrCmp? && Resolved(ctx, e)
    requires i == i' || !Consumes(e, Known(rows))
    requires Eval(ctx, rows, e, i).status == Success
    ensures Eval(ctx, more, e, i').status == Success
    ensures Eval(ctx, more, e, i').val == Eval(ctx, rows, e, i).val
  {
    StrCmpFacts(ctx, rows, e, i);
  }

  /** A decided side stays decided, so a decided AND, OR or comparison stays decided. */
  lemma BinaryKept(op: Op, l: Outcome, r: Outcome, l': Outcome, r': Outcome)
    requires IsAnswer(l.status) && IsAnswer(r.status) && IsAnswer(l'.status) && IsAnswer(r'.status)
    requires l.status == Success ==> l'.status == Success && l'.val == l.val
    requires r.status == Success ==> r'.status == Success && r'.val == r.val
    requires EvalBinary(op, l, r).status == Success
    ensures EvalBinary(op, l', r').status == Success
    ensures EvalBinary(op, l', r').val == EvalBinary(op, l, r).val
  {
    match op {
      case Eq => case And => case Or => case Gt => case Lt => case Le => case Ge => case Ne =>
      case IsNull => case NotNull =>
    }
  }

  /** Pruning soundness: a value found under a partial assignment is the value under every extension
      of it. */
  lemma {:induction false} EvalKept(ctx: Context, rows: seq<int>, more: seq<int>, e: Expr, i: nat, i': nat)
    requires WellFormed(ctx) && IsAssignment(ctx, rows) && IsAssignment(ctx, more) && Extends(rows, more)
    requires Typed(e) && Resolved(ctx, e)
    requires Aligned(e, Known(rows))
    requires i == i' || !Consumes(e, Known(rows))
    requires Eval(ctx, rows, e, i).status == Success
    ensures Eval(ctx, more, e, i').status == Success
    ensures Eval(ctx, more, e, i').val == Eval(ctx, rows, e, i).val
    decreases e
  {
    match e {
      case StrCmp(_, _, _) =>
        StrCmpKept(ctx, rows, more, e, i, i');
      case Unary(_, l) =>
        FetchValueFacts(ctx, l.col, rows);
      case Complex(op, l, r) =>
        ComplexKept(ctx, rows, more, e, i, i');
    }
  }

  lemma {:induction false} ComplexKept(ctx: Context, rows: seq<int>, more: seq<int>, e: Expr, i: nat, i': nat)
    requires WellFormed(ctx) && IsAssignment(ctx, rows) && IsAssignment(ctx, more) && Extends(rows, more)
    requires Typed(e) && e.Complex? && Resolved(ctx, e)
    requires Aligned(e, Known(rows))
    requires i == i' || !Consumes(e, Known(rows))
    requires Eval(ctx, rows, e, i).status == Success
    ensures Eval(ctx, more, e, i').status == Success
    ensures Eval(ctx, more, e, i').val == Eval(ctx, rows, e, i).val
    decreases e, 0
  {
    var ol, ol' := Eval(ctx, rows, e.left, i), Eval(ctx, more, e.left, i');
    var or, or' := Eval(ctx, rows, e.right, ol.index), Eval(ctx, more, e.right, ol'.index);
    if e.op == And || e.op == Or {
      EvalFacts(ctx, rows, e.left, i);
      EvalFacts(ctx, more, e.left, i');
      EvalFacts(ctx, rows, e.right, ol.index);
      EvalFacts(ctx, more, e.right, ol'.index);
      SkipsLess(e.left, rows, more);
      if ol.status == Success {
        EvalKept(ctx, rows, more, e.left, i, i');
      }
      if or.status == Success {
        EvalKept(ctx, rows, more, e.right, ol.index, ol'.index);
      }
    } else {
      OperandFacts(ctx, rows, e.left, i);
      OperandFacts(ctx, rows, e.right, ol.index);
      OperandKept(ctx, rows, more, e.left, i, i');
      OperandFacts(ctx, more, e.left, i');
      OperandKept(ctx, rows, more, e.right, ol.index, ol'.index);
    }
    BinaryKept(e.op, ol, or, ol', or');
  }

  lemma {:induction false} SkipsLess(e: Expr, rows: seq<int>, more: seq<int>)
    requires Extends(rows, more)
    ensures Known(rows) <= Known(more)
    ensures Skips(e, Known(more)) ==> Skips(e, Known(rows))
  {
    if e.Complex? {
      SkipsLess(e.left, rows, more);
      SkipsLess(e.right, rows, more);
    }
  }

  // ---------------------------------------------------------------------------------------------
  // Full assignments
  // ---------------------------------------------------------------------------------------------

  lemma {:induction false} FullSkipsNothing(ctx: Context, e: Expr, rows: seq<int>)
    requires IsAssignment(ctx, rows) && Full(rows) && Resolved(ctx, e)
    ensures !Skips(e, Known(rows))
  {
    match e {
      case Complex(_, l, r) =>
        FullSkipsNothing(ctx, l, rows);
        FullSkipsNothing(ctx, r, rows);
      case StrCmp(_, l, _) =>
      case _ =>
    }
  }

  lemma OperandFull(ctx: Context, rows: seq<int>, e: Expr, i: nat)
    requires WellFormed(ctx) && IsAssignment(ctx, rows) && Full(rows)
    requires IsOperand(e) && Resolved(ctx, e)
    ensures Eval(ctx, rows, e, i) == Outcome(Success, Some(Number(ctx, rows, e, i)), i + Markers(e))
  {
    if IsNumericColumn(e) {
      FetchValueFacts(ctx, e.col, rows);
    }
  }

  lemma StrCmpFull(ctx: Context, rows: seq<int>, e: Expr, i: nat)
    requires WellFormed(ctx) && IsAssignment(ctx, rows) && Full(rows)
    requires Typed(e) && e.StrCmp? && Resolved(ctx, e)
    ensures Eval(ctx, rows, e, i) == Outcome(Success, Some(BoolInt(Holds(ctx, rows, e, i))), i + Markers(e))
  {
    if e.left.ColString? {
      FetchValueFacts(ctx, e.left.col, rows);
    }
    if e.right.ColString? {
      FetchValueFacts(ctx, e.right.col, rows);
    }
    var l := EvalString(ctx, rows, e.left, i);
    var r := EvalString(ctx, rows, e.right, i);
    if l.str.Some? && r.str.Some? {
      LexZero(l.str.value, r.str.value);
    }
  }

  /** The evaluation is complete and agrees with the reference meaning. */
  predicate Decides(ctx: Context, rows: seq<int>, e: Expr, i: nat) {
    var o := Eval(ctx, rows, e, i);
    o.status == Success && o.val.Some? && (o.val.value != 0 <==> Holds(ctx, rows, e, i)) && o.index == i + Markers(e)
  }

  /** On a full assignment nothing is left open, and the value is the reference meaning. */
  lemma {:induction false} EvalFull(ctx: Context, rows: seq<int>, e: Expr, i: nat)
    requires WellFormed(ctx) && IsAssignment(ctx, rows) && Full(rows)
    requires Typed(e) && Resolved(ctx, e)
    ensures Decides(ctx, rows, e, i)
    decreases e, 1
  {
    match e {
      case StrCmp(_, _, _) =>
        StrCmpFull(ctx, rows, e, i);
      case Unary(op, l) =>
      case Complex(op, l, r) =>
        ComplexFull(ctx, rows, op, l, r, i);
    }
  }

  lemma {:induction false} ComplexFull(ctx: Context, rows: seq<int>, op: Op, l: Expr, r: Expr, i: nat)
    requires WellFormed(ctx) && IsAssignment(ctx, rows) && Full(rows)
    requires Typed(Complex(op, l, r)) && Resolved(ctx, Complex(op, l, r))
    ensures Decides(ctx, rows, Complex(op, l, r), i)
    decreases Complex(op, l, r), 0
  {
    if op == And || op == Or {
      EvalFull(ctx, rows, l, i);
      EvalFull(ctx, rows, r, i + Markers(l));
      LogicFull(ctx, rows, op, l, r, i, i + Markers(l));
    } else {
      ComparisonFull(ctx, rows, Complex(op, l, r), i);
    }
  }

  lemma LogicFull(ctx: Context, rows: seq<int>, op: Op, l: Expr, r: Expr, i: nat, m: nat)
    requires (op == And || op == Or) && m == i + Markers(l)
    requires Decides(ctx, rows, l, i) && Decides(ctx, rows, r, m)
    ensures Decides(ctx, rows, Complex(op, l, r), i)
  {
    var ol := Eval(ctx, rows, l, i);
    assert ol.index == m;
    LogicHolds(ctx, rows, op, l, r, i, m);
  }

  lemma LogicHolds(ctx: Context, rows: seq<int>, op: Op, l: Expr, r: Expr, i: nat, m: nat)
    requires (op == And || op == Or) && m == i + Markers(l)
    ensures Holds(ctx, rows, Complex(op, l, r), i) ==
      if op == And then Holds(ctx, rows, l, i) && Holds(ctx, rows, r, m)
      else Holds(ctx, rows, l, i) || Holds(ctx, rows, r, m)
  {
  }

  lemma ComparisonFull(ctx: Context, rows: seq<int>, e: Expr, i: nat)
    requires WellFormed(ctx) && IsAssignment(ctx, rows) && Full(rows)
    requires Typed(e) && e.Complex? && e.op != And && e.op != Or && Resolved(ctx, e)
    ensures Eval(ctx, rows, e, i) == Outcome(Success, Some(BoolInt(Holds(ctx, rows, e, i))), i + Markers(e))
  {
    OperandFull(ctx, rows, e.left, i);
    OperandFull(ctx, rows, e.right, i + Markers(e.left));
  }

  /** A false verdict on a partial assignment rules out every full extension; a true one admits every
      one of them. */
  lemma VerdictFinal(ctx: Context, rows: seq<int>, more: seq<int>, e: Expr)
    requires WellFormed(ctx) && IsAssignment(ctx, rows) && IsAssignment(ctx, more)
    requires Extends(rows, more) && Full(more)
    requires Typed(e) && Resolved(ctx, e) && Aligned(e, Known(rows))
    requires Eval(ctx, rows, e, 0).status == Success
    ensures Eval(ctx, rows, e, 0).val.Some?
    ensures Eval(ctx, rows, e, 0).val.value != 0 <==> Holds(ctx, more, e, 0)
  {
    EvalKept(ctx, rows, more, e, 0, 0);
    EvalFull(ctx, more, e, 0);
  }
}
