/** Evaluation of a WHERE condition under a partial assignment of rows to tables (libmsi/where.c). */
module WhereEval {
  import opened Prelude
  import opened Records

  /** Row index of a table that the nested loop has not reached yet. */
  const INVALID_ROW_INDEX := -1


  datatype Op = Eq | And | Or | Gt | Lt | Le | Ge | Ne | IsNull | NotNull

  /** A resolved column: the index of its table and its 1-based position in that table. */
  datatype ColumnRef = ColumnRef(table: nat, column: nat)

  /** A condition. `Column` and `IVal` are what the grammar builds; where_view_verify_condition turns
      them into the typed column forms and `UVal`. */
  datatype Expr =
    | Column(col: ColumnRef)
    | IVal(ival: int)
    | ColNumber(col: ColumnRef)
    | ColNumber32(col: ColumnRef)
    | ColString(col: ColumnRef)
    | UVal(uval: int)
    | SVal(sval: Str)
    | Wildcard
    | Complex(op: Op, left: Expr, right: Expr)
    | Unary(op: Op, left: Expr)
    | StrCmp(op: Op, left: Expr, right: Expr)

  /** A table below the WHERE view: column types and stored cells. */
  datatype JoinTable = JoinTable(types: seq<nat>, rows: seq<seq<nat>>)

  /** Everything an evaluation reads: the joined tables, the strings, the parameter record. */
  datatype Context = Context(tables: seq<JoinTable>, strings: map<nat, Str>, params: seq<Field>)

  ghost predicate WellFormedTable(t: JoinTable) {
    forall r :: 0 <= r < |t.rows| ==>
      |t.rows[r]| == |t.types| && forall c :: 0 <= c < |t.types| ==> t.rows[r][c] < TWO32
  }

  ghost predicate WellFormed(ctx: Context) {
    forall t :: 0 <= t < |ctx.tables| ==> WellFormedTable(ctx.tables[t])
  }

  predicate RefersTo(ctx: Context, c: ColumnRef) {
    c.table < |ctx.tables| && 1 <= c.column <= |ctx.tables[c.table].types|
  }

  /** parse_column succeeded on every column. */
  predicate Resolved(ctx: Context, e: Expr) {
    match e
    case Column(c) => RefersTo(ctx, c)
    case ColNumber(c) => RefersTo(ctx, c)
    case ColNumber32(c) => RefersTo(ctx, c)
    case ColString(c) => RefersTo(ctx, c)
    case Complex(_, l, r) => Resolved(ctx, l) && Resolved(ctx, r)
    case Unary(_, l) => Resolved(ctx, l)
    case StrCmp(_, l, r) => Resolved(ctx, l) && Resolved(ctx, r)
    case _ => true
  }

  // ---------------------------------------------------------------------------------------------
  // Evaluation
  // ---------------------------------------------------------------------------------------------

  /** table_view_fetch_int. */
  function FetchInt(t: JoinTable, row: nat, column: nat): (Status, nat) {
    if column == 0 || column > |t.types| then (InvalidParameter, 0)
    else if row >= |t.rows| then (NoMoreItems, 0)
    else if column > |t.rows[row]| then (FunctionFailed, 0)
    else (Success, t.rows[row][column - 1])
  }

  ghost predicate IsAssignment(ctx: Context, rows: seq<int>) {
    |rows| == |ctx.tables| &&
    forall t :: 0 <= t < |rows| ==> rows[t] == INVALID_ROW_INDEX || 0 <= rows[t] < |ctx.tables[t].rows|
  }

  /** expr_fetch_value. */
  function FetchValue(ctx: Context, c: ColumnRef, rows: seq<int>): (Status, nat) {
    if c.table >= |rows| || c.table >= |ctx.tables| then (FunctionFailed, 0)
    else if rows[c.table] < 0 then (Continue, 1)
    else FetchInt(ctx.tables[c.table], rows[c.table], c.column)
  }

  /** msi_string_lookup_id. */
  function LookupString(ctx: Context, id: nat): Option<Str> {
    if id == 0 then Some([]) else if id in ctx.strings then Some(ctx.strings[id]) else None
  }

  /** Result of an evaluation: the code, the value when one was stored through `val`, and rec_index. */
  datatype Outcome = Outcome(status: Status, val: Option<int>, index: nat)

  datatype StringOutcome = StringOutcome(status: Status, str: Option<Str>, index: nat)

  function BoolInt(b: bool): int { if b then 1 else 0 }

  /** What a caller that initialised its variable to 0 finds in it. */
  function ValueOr0(v: Option<int>): int { if v.Some? then v.value else 0 }

  /** Known, or not known yet; anything else is an error. */
  predicate IsAnswer(s: Status) { s == Success || s == Continue }

  /** The part of expr_eval_binary that follows two evaluations without an error. */
  function Combine(op: Op, rl: Status, lval: int, rr: Status, rval: int): (Status, Option<int>) {
    if rl == Continue || rr == Continue then
      if rl == rr then (Continue, Some(1))
      else if op == And && ((rl == Continue && rval == 0) || (rr == Continue && lval == 0)) then (Success, Some(0))
      else if op == Or && ((rl == Continue && rval != 0) || (rr == Continue && lval != 0)) then (Success, Some(1))
      else (Continue, Some(1))
    else match op
      case Eq => (Success, Some(BoolInt(lval == rval)))
      case And => (Success, Some(BoolInt(lval != 0 && rval != 0)))
      case Or => (Success, Some(BoolInt(lval != 0 || rval != 0)))
      case Gt => (Success, Some(BoolInt(lval > rval)))
      case Lt => (Success, Some(BoolInt(lval < rval)))
      case Le => (Success, Some(BoolInt(lval <= rval)))
      case Ge => (Success, Some(BoolInt(lval >= rval)))
      case Ne => (Success, Some(BoolInt(lval != rval)))
      case IsNull => (FunctionFailed, None)
      case NotNull => (FunctionFailed, None)
  }

  /** expr_eval_binary; an error on the left returns before the right side is looked at. */
  function EvalBinary(op: Op, l: Outcome, r: Outcome): Outcome {
    if !IsAnswer(l.status) then Outcome(l.status, None, l.index)
    else if !IsAnswer(r.status) then Outcome(r.status, None, r.index)
    else
      var (s, v) := Combine(op, l.status, ValueOr0(l.val), r.status, ValueOr0(r.val));
      Outcome(s, v, r.index)
  }

  /** expr_eval_unary. Nothing is stored in `val` when the row is not known. */
  function EvalUnary(ctx: Context, rows: seq<int>, op: Op, operand: Expr, index: nat): Outcome {
    if !IsColumn(operand) then Outcome(FunctionFailed, None, index)
    else
      var (r, lval) := FetchValue(ctx, operand.col, rows);
      if r != Success then Outcome(r, None, index)
      else match op
        case IsNull => Outcome(Success, Some(BoolInt(lval == 0)), index)
        case NotNull => Outcome(Success, Some(ToInt32(lval)), index)
        case _ => Outcome(FunctionFailed, None, index)
  }

  /** expr_eval_string. */
  function EvalString(ctx: Context, rows: seq<int>, e: Expr, index: nat): StringOutcome {
    match e
    case ColString(c) =>
      var (r, val) := FetchValue(ctx, c, rows);
      StringOutcome(r, if r == Success then LookupString(ctx, val) else None, index)
    case SVal(s) => StringOutcome(Success, Some(s), index)
    case Wildcard => StringOutcome(Success, GetStringRaw(ctx.params, index + 1), index + 1)
    case _ => StringOutcome(FunctionFailed, None, index)
  }

  /** The comparison in expr_eval_strcmp, where NULL and the empty string are the same. */
  function CompareStrings(l: Option<Str>, r: Option<Str>): int {
    var lEmpty := l.None? || l.value == [];
    var rEmpty := r.None? || r.value == [];
    if lEmpty && rEmpty then 0
    else if r.None? then 1
    else if l.None? then -1
    else Lex(l.value, r.value)
  }

  /** expr_eval_strcmp. It returns before looking at the right operand when the left one is not known. */
  function EvalStrCmp(ctx: Context, rows: seq<int>, op: Op, left: Expr, right: Expr, index: nat): Outcome {
    var l := EvalString(ctx, rows, left, index);
    if l.status == Continue then Outcome(Continue, Some(1), l.index)
    else
      var r := EvalString(ctx, rows, right, l.index);
      if r.status == Continue then Outcome(Continue, Some(1), r.index)
      else
        var sr := CompareStrings(l.str, r.str);
        Outcome(Success, Some(BoolInt((op == Eq && sr == 0) || (op == Ne && sr != 0))), r.index)
  }

  /** where_view_evaluate on a condition tree. */
  function Eval(ctx: Context, rows: seq<int>, e: Expr, index: nat): Outcome {
    match e
    case ColNumber(c) =>
      var (r, val) := FetchValue(ctx, c, rows);
      if r != Success then Outcome(r, None, index) else Outcome(Success, Some(ToInt32(val - 0x8000)), index)
    case ColNumber32(c) =>
      var (r, val) := FetchValue(ctx, c, rows);
      if r != Success then Outcome(r, None, index) else Outcome(Success, Some(ToInt32(val - TWO31)), index)
    case UVal(u) => Outcome(Success, Some(u), index)
    case Wildcard => Outcome(Success, Some(GetInt(ctx.params, index + 1)), index + 1)
    case Complex(op, left, right) =>
      var l := Eval(ctx, rows, left, index);
      EvalBinary(op, l, Eval(ctx, rows, right, l.index))
    case Unary(op, operand) => EvalUnary(ctx, rows, op, operand, index)
    case StrCmp(op, left, right) => EvalStrCmp(ctx, rows, op, left, right, index)
    case _ => Outcome(Success, None, index)
  }

  /** AND, OR and comparisons never look at the value of a side that is not known. */
  lemma ContinueValueUnused(op: Op, rl: Status, l: int, l': int, rr: Status, r: int, r': int)
    requires rl == Continue || l == l'
    requires rr == Continue || r == r'
    ensures Combine(op, rl, l, rr, r) == Combine(op, rl, l', rr, r')
  {
    match op {
      case Eq => case And => case Or => case Gt => case Lt => case Le => case Ge => case Ne =>
      case IsNull => case NotNull =>
    }
  }

  // ---------------------------------------------------------------------------------------------
  // Conditions the grammar and where_view_verify_condition let through
  // ---------------------------------------------------------------------------------------------

  predicate IsColumn(e: Expr) { e.Column? || e.ColNumber? || e.ColNumber32? || e.ColString? }

  predicate IsNumericColumn(e: Expr) { e.ColNumber? || e.ColNumber32? }

  predicate IsComparison(op: Op) { op in {Eq, Gt, Lt, Le, Ge, Ne} }

  /** The `expr` rule of libmsi/sql-parser.y: nothing but AND, OR, column-against-value comparisons
      and IS [NOT] NULL. */
  predicate Grammatical(e: Expr) {
    match e
    case Complex(op, l, r) =>
      if op == And || op == Or then Grammatical(l) && Grammatical(r)
      else IsComparison(op) && l.Column? && (r.Column? || r.IVal? || r.SVal? || r.Wildcard?)
    case Unary(op, l) => (op == IsNull || op == NotNull) && l.Column?
    case _ => false
  }

  /** The conditions that reach execution. */
  predicate Typed(e: Expr) {
    match e
    case Complex(op, l, r) =>
      if op == And || op == Or then Typed(l) && Typed(r)
      else IsComparison(op) && IsNumericColumn(l) && (IsNumericColumn(r) || r.UVal? || r.Wildcard?)
    case Unary(op, l) => (op == IsNull || op == NotNull) && (IsNumericColumn(l) || l.ColString?)
    case StrCmp(op, l, r) =>
      && (op == Eq || op == Ne)
      && (IsNumericColumn(l) || l.ColString?)
      && (IsNumericColumn(r) || r.ColString? || r.UVal? || r.SVal? || r.Wildcard?)
    case _ => false
  }

  function ColumnType(ctx: Context, c: ColumnRef): nat
    requires RefersTo(ctx, c)
  {
    ctx.tables[c.table].types[c.column - 1]
  }

  predicate IsStringType(t: nat) { (t / MSITYPE_STRING) % 2 == 1 }

  function TypedColumn(ctx: Context, c: ColumnRef): Expr
    requires RefersTo(ctx, c)
  {
    var t := ColumnType(ctx, c);
    if IsStringType(t) then ColString(c) else if t % 0x100 == 4 then ColNumber32(c) else ColNumber(c)
  }

  /** where_view_verify_condition; None when the condition is rejected. */
  function Verify(ctx: Context, e: Expr): Option<Expr> {
    match e
    case Column(c) => if RefersTo(ctx, c) then Some(TypedColumn(ctx, c)) else None
    case Complex(op, left, right) =>
      (match Verify(ctx, left)
       case None => None
       case Some(l) =>
         match Verify(ctx, right)
         case None => None
         case Some(r) =>
           if l.SVal? || l.ColString? || r.SVal? || r.ColString? then
             if op == Eq || op == Ne then Some(StrCmp(op, l, r)) else None
           else Some(Complex(op, l, r)))
    case Unary(op, left) =>
      if !left.Column? then None
      else (match Verify(ctx, left) { case None => None case Some(l) => Some(Unary(op, l)) })
    case IVal(i) => Some(UVal(i))
    case Wildcard => Some(Wildcard)
    case SVal(s) => Some(SVal(s))
    case _ => None
  }

  predicate IsStringOperand(ctx: Context, e: Expr) {
    e.SVal? || (e.Column? && RefersTo(ctx, e.col) && IsStringType(ColumnType(ctx, e.col)))
  }

  /** Some string is compared by order rather than by equality. */
  predicate OrdersStrings(ctx: Context, e: Expr) {
    e.Complex? &&
    if e.op == And || e.op == Or then OrdersStrings(ctx, e.left) || OrdersStrings(ctx, e.right)
    else e.op != Eq && e.op != Ne && (IsStringOperand(ctx, e.left) || IsStringOperand(ctx, e.right))
  }

  /** Verification accepts a grammatical condition over existing columns exactly when it orders no
      strings, and what it hands on is typed. */
  lemma {:induction false} VerifyTypes(ctx: Context, e: Expr)
    requires Grammatical(e) && Resolved(ctx, e)
    ensures Verify(ctx, e).None? <==> OrdersStrings(ctx, e)
    ensures Verify(ctx, e).Some? ==> Typed(Verify(ctx, e).value) && Resolved(ctx, Verify(ctx, e).value)
  {
    if e.Complex? && (e.op == And || e.op == Or) {
      VerifyTypes(ctx, e.left);
      VerifyTypes(ctx, e.right);
    }
  }

  // ---------------------------------------------------------------------------------------------
  // Parameter markers
  // ---------------------------------------------------------------------------------------------

  /** Number of `?` that a complete evaluation consumes. */
  function Markers(e: Expr): nat {
    match e
    case Wildcard => 1
    case Complex(_, l, r) => Markers(l) + Markers(r)
    case StrCmp(_, l, r) => (if l.Wildcard? then 1 else 0) + (if r.Wildcard? then 1 else 0)
    case _ => 0
  }

  predicate Unknown(rows: seq<int>, c: ColumnRef) {
    c.table < |rows| && rows[c.table] < 0
  }

  /** The tables that have a row assigned. */
  function Known(rows: seq<int>): set<nat> {
    set t: nat | t < |rows| && rows[t] >= 0
  }

  /** Some `?` is passed over without being consumed: it is the right operand of a string comparison
      whose left column is not known yet. */
  predicate Skips(e: Expr, known: set<nat>) {
    match e
    case Complex(_, l, r) => Skips(l, known) || Skips(r, known)
    case StrCmp(_, l, r) => l.ColString? && l.col.table !in known && r.Wildcard?
    case _ => false
  }

  /** Some `?` is consumed. */
  predicate Consumes(e: Expr, known: set<nat>) {
    match e
    case Wildcard => true
    case Complex(_, l, r) => Consumes(l, known) || Consumes(r, known)
    case StrCmp(_, l, r) => l.Wildcard? || (r.Wildcard? && !(l.ColString? && l.col.table !in known))
    case _ => false
  }

  /** No `?` is consumed after one that was passed over. */
  predicate Aligned(e: Expr, known: set<nat>) {
    e.Complex? ==>
      && Aligned(e.left, known)
      && Aligned(e.right, known)
      && (Skips(e.left, known) ==> !Consumes(e.right, known))
  }

  predicate Extends(rows: seq<int>, more: seq<int>) {
    |rows| == |more| && forall t :: 0 <= t < |rows| ==> rows[t] < 0 || more[t] == rows[t]
  }

  predicate Full(rows: seq<int>) {
    forall t :: 0 <= t < |rows| ==> rows[t] >= 0
  }

  /** A parameter read: the record field taken, and the field that the `?` stands for. */
  datatype Read = Read(field: int, own: int)

  /** The record fields that an evaluation reads, each paired with the field that its `?` stands for;
      `index` is rec_index and `meant` the number of `?` written to the left. */
  function Reads(e: Expr, known: set<nat>, index: nat, meant: nat): seq<Read> {
    match e
    case Wildcard => [Read(index + 1, meant + 1)]
    case Complex(_, l, r) =>
      var first := Reads(l, known, index, meant);
      first + Reads(r, known, index + |first|, meant + Markers(l))
    case StrCmp(_, l, r) =>
      if r.Wildcard? && !Skips(e, known) then [Read(index + 1, meant + 1)] else []
    case _ => []
  }

  predicate ReadsOwnFields(trace: seq<Read>) {
    forall k :: 0 <= k < |trace| ==> trace[k].field == trace[k].own
  }

  /** A fetch through a resolved column fails only by not being known yet. */
  lemma FetchValueFacts(ctx: Context, c: ColumnRef, rows: seq<int>)
    requires WellFormed(ctx) && IsAssignment(ctx, rows) && RefersTo(ctx, c)
    ensures FetchValue(ctx, c, rows).0 == if Unknown(rows, c) then Continue else Success
    ensures FetchValue(ctx, c, rows).1 < TWO32
  {
    if !Unknown(rows, c) {
      assert WellFormedTable(ctx.tables[c.table]);
    }
  }

  /** Operands of comparisons, markers included. */
  predicate IsOperand(e: Expr) { IsNumericColumn(e) || e.UVal? || e.Wildcard? }

  lemma OperandFacts(ctx: Context, rows: seq<int>, e: Expr, index: nat)
    requires WellFormed(ctx) && IsAssignment(ctx, rows) && IsOperand(e) && Resolved(ctx, e)
    ensures Answers(ctx, rows, e, index)
    ensures Eval(ctx, rows, e, index).status == if IsNumericColumn(e) && Unknown(rows, e.col) then Continue else Success
  {
    if IsNumericColumn(e) {
      FetchValueFacts(ctx, e.col, rows);
    }
  }

  lemma StrCmpFacts(ctx: Context, rows: seq<int>, e: Expr, index: nat)
    requires WellFormed(ctx) && IsAssignment(ctx, rows) && Typed(e) && e.StrCmp? && Resolved(ctx, e)
    ensures var o := Eval(ctx, rows, e, index);
      && o.val.Some?
      && o.status == (if (e.left.ColString? && Unknown(rows, e.left.col)) || (e.right.ColString? && Unknown(rows, e.right.col))
                      then Continue else Success)
      && (o.status == Continue ==> o.val == Some(1))
      && o.index == index + (if Skips(e, Known(rows)) then 0 else Markers(e))
  {
    if e.left.ColString? {
      FetchValueFacts(ctx, e.left.col, rows);
    }
    if e.right.ColString? {
      FetchValueFacts(ctx, e.right.col, rows);
    }
  }

  lemma {:induction false} ReadsLength(e: Expr, known: set<nat>, i: nat, m: nat, i': nat, m': nat)
    ensures |Reads(e, known, i, m)| == |Reads(e, known, i', m')|
  {
    if e.Complex? {
      ReadsLength(e.left, known, i, m, i', m');
      var n := |Reads(e.left, known, i, m)|;
      ReadsLength(e.right, known, i + n, m + Markers(e.left), i' + n, m' + Markers(e.left));
    }
  }

  lemma EvalBinaryFacts(op: Op, l: Outcome, r: Outcome)
    requires IsAnswer(l.status) && IsAnswer(r.status) && op != IsNull && op != NotNull
    ensures var o := EvalBinary(op, l, r);
      && IsAnswer(o.status)
      && o.val.Some?
      && (o.status == Continue ==> o.val == Some(1))
      && o.index == r.index
  {
    match op {
      case Eq => case And => case Or => case Gt => case Lt => case Le => case Ge => case Ne =>
    }
  }

  /** No error, a value is stored unless the condition is an IS [NOT] NULL that is not known, and
      rec_index advances by the number of markers exactly when none is skipped. */
  ghost predicate Answers(ctx: Context, rows: seq<int>, e: Expr, index: nat) {
    var o := Eval(ctx, rows, e, index);
    && IsAnswer(o.status)
    && (o.status == Success ==> o.val.Some?)
    && (o.status == Continue && !IsColumn(e) && !e.Unary? ==> o.val == Some(1))
    && (o.status == Continue && e.Unary? ==> o.val == None && IsColumn(e.left) && Unknown(rows, e.left.col))
    && index <= o.index <= index + Markers(e)
    && (o.index == index + Markers(e) <==> !Skips(e, Known(rows)))
    && o.index == index + |Reads(e, Known(rows), index, 0)|
  }

  /** A typed condition never fails. */
  lemma {:induction false} EvalFacts(ctx: Context, rows: seq<int>, e: Expr, index: nat)
    requires WellFormed(ctx) && IsAssignment(ctx, rows) && Typed(e) && Resolved(ctx, e)
    ensures Answers(ctx, rows, e, index)
  {
    match e {
      case Complex(op, l, r) =>
        var i := Eval(ctx, rows, l, index).index;
        if op == And || op == Or {
          EvalFacts(ctx, rows, l, index);
          EvalFacts(ctx, rows, r, i);
        } else {
          OperandFacts(ctx, rows, l, index);
          OperandFacts(ctx, rows, r, i);
        }
        ComplexFacts(ctx, rows, op, l, r, index);
      case Unary(op, l) =>
        FetchValueFacts(ctx, l.col, rows);
      case StrCmp(_, _, _) =>
        StrCmpFacts(ctx, rows, e, index);
      case _ =>
    }
  }

  lemma ComplexFacts(ctx: Context, rows: seq<int>, op: Op, l: Expr, r: Expr, index: nat)
    requires op != IsNull && op != NotNull
    requires Answers(ctx, rows, l, index)
    requires Answers(ctx, rows, r, Eval(ctx, rows, l, index).index)
    ensures Answers(ctx, rows, Complex(op, l, r), index)
  {
    var ol := Eval(ctx, rows, l, index);
    var or := Eval(ctx, rows, r, ol.index);
    assert Eval(ctx, rows, Complex(op, l, r), index) == EvalBinary(op, ol, or);
    EvalBinaryFacts(op, ol, or);
    ReadsBoth(op, l, r, Known(rows), index, ol.index);
  }

  lemma ReadsBoth(op: Op, l: Expr, r: Expr, known: set<nat>, index: nat, next: nat)
    requires next == index + |Reads(l, known, index, 0)|
    ensures |Reads(Complex(op, l, r), known, index, 0)| == |Reads(l, known, index, 0)| + |Reads(r, known, next, 0)|
  {
    ReadsLength(r, known, next, 0, next, Markers(l));
  }
}
