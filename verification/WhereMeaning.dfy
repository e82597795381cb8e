/** What a WHERE clause means, on the trees that the grammar builds and on the stored cells, and that
    verification and evaluation keep it (where_view_verify_condition and where_view_evaluate in
    libmsi/where.c). Nothing here goes through the functions of the evaluator. */
module WhereMeaning {
  import opened Prelude
  import opened Records
  import opened WhereEval
  import opened WherePruning
  import opened WhereSearch

  /** The row that a tuple picks from a table, and the types of its columns. */
  datatype Picked = Picked(types: seq<nat>, cells: seq<nat>)

  /** What a condition is about: a row of every table, the text of every string id, the parameters. */
  datatype Scene = Scene(picked: seq<Picked>, text: imap<nat, Str>, params: seq<Field>)

  ghost predicate Reaches(s: Scene, c: ColumnRef) {
    && c.table < |s.picked| && 1 <= c.column <= |s.picked[c.table].types|
    && |s.picked[c.table].cells| == |s.picked[c.table].types|
  }

  ghost function TypeOf(s: Scene, c: ColumnRef): nat
    requires Reaches(s, c)
  {
    s.picked[c.table].types[c.column - 1]
  }

  ghost function StoredCell(s: Scene, c: ColumnRef): nat
    requires Reaches(s, c)
  {
    s.picked[c.table].cells[c.column - 1]
  }

  ghost predicate AllReach(s: Scene, e: Expr) {
    match e
    case Column(c) => Reaches(s, c)
    case Complex(_, l, r) => AllReach(s, l) && AllReach(s, r)
    case Unary(_, l) => AllReach(s, l)
    case _ => true
  }

  function QuestionMarks(e: Expr): nat {
    match e
    case Wildcard => 1
    case Complex(_, l, r) => QuestionMarks(l) + QuestionMarks(r)
    case _ => 0
  }

  /** A literal text or a string column, whose type has bit 11. */
  ghost predicate IsText(s: Scene, e: Expr)
    requires AllReach(s, e)
  {
    e.SVal? || (e.Column? && (TypeOf(s, e.col) / 0x800) % 2 == 1)
  }

  /** The integer of an operand with m question marks before it. The low byte of an integer column's type is
      its width, and the bias of its cells 2^15 or 2^31; a NULL counts as the integer that is stored as 0. */
  ghost function IntegerOf(s: Scene, e: Expr, m: nat): int
    requires AllReach(s, e)
  {
    match e
    case Column(c) => ToInt32(StoredCell(s, c) - if TypeOf(s, c) % 0x100 == 4 then 0x8000_0000 else 0x8000)
    case IVal(i) => i
    case Wildcard =>
      if m >= |s.params| then -0x8000_0000
      else (match s.params[m]
            case IntField(i) => i
            case StrField(t) => (match IntFromString(t) { case Some(i) => i case None => -0x8000_0000 })
            case NullField => -0x8000_0000)
    case _ => 0
  }

  /** The text of an operand. NULL, and a number that is compared with a text, are empty. */
  ghost function TextOf(s: Scene, e: Expr, m: nat): Str
    requires AllReach(s, e)
  {
    match e
    case Column(c) => if IsText(s, e) && StoredCell(s, c) in s.text then s.text[StoredCell(s, c)] else []
    case SVal(t) => t
    case Wildcard => if m < |s.params| && s.params[m].StrField? then s.params[m].s else []
    case _ => []
  }

  /** A comparison is one of texts as soon as one side is a text, and then only equality is meant. */
  ghost predicate Compares(s: Scene, op: Op, l: Expr, r: Expr, m: nat)
    requires AllReach(s, l) && AllReach(s, r)
  {
    var m' := m + QuestionMarks(l);
    if IsText(s, l) || IsText(s, r) then
      (op == Eq && TextOf(s, l, m) == TextOf(s, r, m')) || (op == Ne && TextOf(s, l, m) != TextOf(s, r, m'))
    else
      var x, y := IntegerOf(s, l, m), IntegerOf(s, r, m');
      || (op == Eq && x == y) || (op == Ne && x != y) || (op == Lt && x < y)
      || (op == Gt && x > y) || (op == Le && x <= y) || (op == Ge && x >= y)
  }

  ghost predicate NullTest(s: Scene, op: Op, e: Expr)
    requires e.Column? && AllReach(s, e)
  {
    (op == IsNull && StoredCell(s, e.col) == 0) || (op == NotNull && StoredCell(s, e.col) != 0)
  }

  /** What a condition says of one row of every table, `m` question marks being written before it. */
  ghost predicate Means(s: Scene, e: Expr, m: nat)
    requires AllReach(s, e)
  {
    match e
    case Complex(op, l, r) =>
      if op == And then Means(s, l, m) && Means(s, r, m + QuestionMarks(l))
      else if op == Or then Means(s, l, m) || Means(s, r, m + QuestionMarks(l))
      else Compares(s, op, l, r, m)
    case Unary(op, l) =>
      l.Column? && NullTest(s, op, l)
    case _ => false
  }

  // ---------------------------------------------------------------------------------------------
  // Rows of a join
  // ---------------------------------------------------------------------------------------------

  ghost function PickedRows(ctx: Context, x: seq<int>): (picked: seq<Picked>)
    requires IsTuple(ctx, x)
    ensures |picked| == |ctx.tables|
    ensures forall t :: 0 <= t < |picked| ==> picked[t] == Picked(ctx.tables[t].types, ctx.tables[t].rows[x[t]])
  {
    seq(|ctx.tables|, t requires 0 <= t < |ctx.tables| => Picked(ctx.tables[t].types, ctx.tables[t].rows[x[t]]))
  }

  /** The text of a string id; 0 and unknown ids are empty. */
  ghost function TextIn(strings: map<nat, Str>): imap<nat, Str> {
    imap id: nat :: if id != 0 && id in strings then strings[id] else []
  }

  ghost function SceneOf(ctx: Context, x: seq<int>): Scene
    requires IsTuple(ctx, x)
  {
    Scene(PickedRows(ctx, x), TextIn(ctx.strings), ctx.params)
  }

  /** The optional condition of a statement, as it was written, for a tuple of rows. */
  ghost predicate Asked(ctx: Context, asked: Option<Expr>, x: seq<int>)
    requires WellFormed(ctx) && IsTuple(ctx, x) && (asked.Some? ==> Grammatical(asked.value) && Resolved(ctx, asked.value))
  {
    asked.Some? ==> (ResolvedReaches(ctx, x, asked.value); Means(SceneOf(ctx, x), asked.value, 0))
  }

  lemma {:induction false} ResolvedReaches(ctx: Context, x: seq<int>, e: Expr)
    requires WellFormed(ctx) && IsTuple(ctx, x) && Resolved(ctx, e)
    ensures AllReach(SceneOf(ctx, x), e)
  {
    match e {
      case Column(c) =>
        assert WellFormedTable(ctx.tables[c.table]);
      case Complex(_, l, r) =>
        ResolvedReaches(ctx, x, l);
        ResolvedReaches(ctx, x, r);
      case Unary(_, l) =>
        ResolvedReaches(ctx, x, l);
      case _ =>
    }
  }

  // ---------------------------------------------------------------------------------------------
  // Verification keeps the meaning
  // ---------------------------------------------------------------------------------------------

  /** The cell that the evaluator fetches is the one of the column. */
  lemma FetchedCell(ctx: Context, x: seq<int>, c: ColumnRef)
    requires WellFormed(ctx) && IsTuple(ctx, x) && RefersTo(ctx, c)
    ensures Reaches(SceneOf(ctx, x), c)
    ensures Cell(ctx, x, c) == ctx.tables[c.table].rows[x[c.table]][c.column - 1] == StoredCell(SceneOf(ctx, x), c) < TWO32
  {
    assert WellFormedTable(ctx.tables[c.table]);
  }

  /** Operands of comparisons, before and after verification. */
  lemma OperandMeans(ctx: Context, x: seq<int>, e: Expr, m: nat)
    requires WellFormed(ctx) && IsTuple(ctx, x) && Resolved(ctx, e)
    requires e.Column? || e.IVal? || e.SVal? || e.Wildcard?
    ensures Verify(ctx, e).Some? && AllReach(SceneOf(ctx, x), e)
    ensures var t, s := Verify(ctx, e).value, SceneOf(ctx, x);
      && (IsText(s, e) <==> t.SVal? || t.ColString?)
      && (!IsText(s, e) ==> Number(ctx, x, t, m) == IntegerOf(s, e, m))
      && Text(ctx, x, t, m) == TextOf(s, e, m)
      && QuestionMarks(e) == Markers(t) == if t.Wildcard? then 1 else 0
  {
    if e.Column? {
      FetchedCell(ctx, x, e.col);
    }
  }

  /** A comparison that is accepted compares texts as soon as one side is one. */
  lemma ComparisonVerified(ctx: Context, op: Op, l: Expr, r: Expr)
    requires IsComparison(op) && Verify(ctx, l).Some? && Verify(ctx, r).Some? && Verify(ctx, Complex(op, l, r)).Some?
    ensures var tl, tr := Verify(ctx, l).value, Verify(ctx, r).value;
      if tl.SVal? || tl.ColString? || tr.SVal? || tr.ColString?
      then (op == Eq || op == Ne) && Verify(ctx, Complex(op, l, r)) == Some(StrCmp(op, tl, tr))
      else Verify(ctx, Complex(op, l, r)) == Some(Complex(op, tl, tr))
  {
  }

  lemma ComparisonMeans(ctx: Context, x: seq<int>, op: Op, l: Expr, r: Expr, m: nat)
    requires WellFormed(ctx) && IsTuple(ctx, x) && Resolved(ctx, l) && Resolved(ctx, r) && IsComparison(op)
    requires l.Column? && (r.Column? || r.IVal? || r.SVal? || r.Wildcard?)
    requires Verify(ctx, Complex(op, l, r)).Some?
    ensures AllReach(SceneOf(ctx, x), Complex(op, l, r))
    ensures var t := Verify(ctx, Complex(op, l, r)).value;
      && Markers(t) == QuestionMarks(Complex(op, l, r))
      && (Holds(ctx, x, t, m) <==> Compares(SceneOf(ctx, x), op, l, r, m))
  {
    OperandMeans(ctx, x, l, m);
    OperandMeans(ctx, x, r, m);
    ComparisonVerified(ctx, op, l, r);
    var s, tl, tr := SceneOf(ctx, x), Verify(ctx, l).value, Verify(ctx, r).value;
    assert QuestionMarks(l) == Markers(tl) == 0;
    if IsText(s, l) || IsText(s, r) {
      TextsCompared(ctx, x, s, op, l, r, tl, tr, m);
    } else {
      NumbersCompared(ctx, x, s, op, l, r, tl, tr, m);
    }
  }

  lemma TextsCompared(ctx: Context, x: seq<int>, s: Scene, op: Op, l: Expr, r: Expr, tl: Expr, tr: Expr, m: nat)
    requires AllReach(s, l) && AllReach(s, r) && (IsText(s, l) || IsText(s, r)) && QuestionMarks(l) == 0
    requires Text(ctx, x, tl, m) == TextOf(s, l, m) && Text(ctx, x, tr, m) == TextOf(s, r, m) && (op == Eq || op == Ne)
    ensures Holds(ctx, x, StrCmp(op, tl, tr), m) <==> Compares(s, op, l, r, m)
  {
  }

  lemma NumbersCompared(ctx: Context, x: seq<int>, s: Scene, op: Op, l: Expr, r: Expr, tl: Expr, tr: Expr, m: nat)
    requires AllReach(s, l) && AllReach(s, r) && !IsText(s, l) && !IsText(s, r) && IsComparison(op)
    requires QuestionMarks(l) == Markers(tl) == 0
    requires Number(ctx, x, tl, m) == IntegerOf(s, l, m) && Number(ctx, x, tr, m) == IntegerOf(s, r, m)
    ensures Holds(ctx, x, Complex(op, tl, tr), m) <==> Compares(s, op, l, r, m)
  {
  }

  lemma LogicVerified(ctx: Context, op: Op, l: Expr, r: Expr)
    requires (op == And || op == Or) && Grammatical(l) && Grammatical(r) && Resolved(ctx, l) && Resolved(ctx, r)
    requires Verify(ctx, Complex(op, l, r)).Some?
    ensures Verify(ctx, l).Some? && Verify(ctx, r).Some?
    ensures Verify(ctx, Complex(op, l, r)) == Some(Complex(op, Verify(ctx, l).value, Verify(ctx, r).value))
  {
    VerifyTypes(ctx, l);
    VerifyTypes(ctx, r);
  }

  lemma UnaryMeans(ctx: Context, x: seq<int>, op: Op, l: Expr, m: nat)
    requires WellFormed(ctx) && IsTuple(ctx, x) && Grammatical(Unary(op, l)) && Resolved(ctx, l)
    ensures AllReach(SceneOf(ctx, x), Unary(op, l)) && Verify(ctx, Unary(op, l)).Some?
    ensures Markers(Verify(ctx, Unary(op, l)).value) == QuestionMarks(Unary(op, l)) == 0
    ensures Holds(ctx, x, Verify(ctx, Unary(op, l)).value, m) <==>
      Means(SceneOf(ctx, x), Unary(op, l), m)
  {
    FetchedCell(ctx, x, l.col);
    assert Verify(ctx, l) == Some(TypedColumn(ctx, l.col)) && TypedColumn(ctx, l.col).col == l.col;
  }

  /** The meaning as a value, where every column is there. */
  ghost function Verdict(s: Scene, e: Expr, m: nat): Option<bool> {
    if AllReach(s, e) then Some(Means(s, e, m)) else None
  }

  ghost function TypedVerdict(ctx: Context, x: seq<int>, t: Expr, m: nat): Option<bool> { Some(Holds(ctx, x, t, m)) }

  lemma VerdictLogic(s: Scene, op: Op, l: Expr, r: Expr, m: nat, m': nat)
    requires (op == And || op == Or) && m' == m + QuestionMarks(l)
    ensures var a, b := Verdict(s, l, m), Verdict(s, r, m');
      Verdict(s, Complex(op, l, r), m) ==
        if a.None? || b.None? then None else Some(if op == And then a.value && b.value else a.value || b.value)
  {
    ReachLogic(s, op, l, r);
    if AllReach(s, l) && AllReach(s, r) {
      MeansLogic(s, op, l, r, m, m');
    }
  }

  lemma ReachLogic(s: Scene, op: Op, l: Expr, r: Expr)
    ensures AllReach(s, Complex(op, l, r)) <==> AllReach(s, l) && AllReach(s, r)
  {
  }

  lemma MeansLogic(s: Scene, op: Op, l: Expr, r: Expr, m: nat, m': nat)
    requires (op == And || op == Or) && m' == m + QuestionMarks(l)
    requires AllReach(s, l) && AllReach(s, r) && AllReach(s, Complex(op, l, r))
    ensures Means(s, Complex(op, l, r), m) ==
      if op == And then Means(s, l, m) && Means(s, r, m') else Means(s, l, m) || Means(s, r, m')
  {
  }

  lemma TypedLogic(ctx: Context, x: seq<int>, op: Op, l: Expr, r: Expr, m: nat, m': nat)
    requires (op == And || op == Or) && m' == m + Markers(l)
    ensures var a, b := TypedVerdict(ctx, x, l, m), TypedVerdict(ctx, x, r, m');
      TypedVerdict(ctx, x, Complex(op, l, r), m) == Some(if op == And then a.value && b.value else a.value || b.value)
  {
    LogicHolds(ctx, x, op, l, r, m, m');
  }

  /** AND and OR of sides that agree. */
  lemma LogicMeans(ctx: Context, x: seq<int>, s: Scene, op: Op, l: Expr, r: Expr, tl: Expr, tr: Expr, m: nat, m': nat)
    requires (op == And || op == Or) && m + Markers(tl) == m + QuestionMarks(l) == m'
    requires TypedVerdict(ctx, x, tl, m) == Verdict(s, l, m)
    requires TypedVerdict(ctx, x, tr, m') == Verdict(s, r, m')
    ensures TypedVerdict(ctx, x, Complex(op, tl, tr), m) == Verdict(s, Complex(op, l, r), m)
  {
    VerdictLogic(s, op, l, r, m, m');
    TypedLogic(ctx, x, op, tl, tr, m, m');
  }

  /** Verification keeps the question marks. */
  lemma {:induction false} MarkersKept(ctx: Context, e: Expr, t: Expr)
    requires Grammatical(e) && Resolved(ctx, e) && Verify(ctx, e) == Some(t)
    ensures Markers(t) == QuestionMarks(e)
  {
    if e.Complex? && (e.op == And || e.op == Or) {
      LogicVerified(ctx, e.op, e.left, e.right);
      MarkersKept(ctx, e.left, t.left);
      MarkersKept(ctx, e.right, t.right);
    }
  }

  /** What verification hands on holds of a tuple exactly when the condition that was written means so. */
  lemma {:induction false} VerifiedMeans(ctx: Context, x: seq<int>, s: Scene, e: Expr, t: Expr, m: nat)
    requires WellFormed(ctx) && IsTuple(ctx, x) && s == SceneOf(ctx, x)
    requires Grammatical(e) && Resolved(ctx, e) && Verify(ctx, e) == Some(t)
    ensures TypedVerdict(ctx, x, t, m) == Verdict(s, e, m)
    decreases e
  {
    match e {
      case Complex(op, l, r) =>
        if op == And || op == Or {
          LogicVerified(ctx, op, l, r);
          var m' := m + QuestionMarks(l);
          MarkersKept(ctx, l, t.left);
          VerifiedMeans(ctx, x, s, l, t.left, m);
          VerifiedMeans(ctx, x, s, r, t.right, m');
          LogicMeans(ctx, x, s, op, l, r, t.left, t.right, m, m');
        } else {
          ComparisonMeans(ctx, x, op, l, r, m);
        }
      case Unary(op, l) =>
        UnaryMeans(ctx, x, op, l, m);
    }
  }

  /** The condition that was written and the one that is executed say the same of every tuple. */
  lemma VerifyMeans(ctx: Context, x: seq<int>, e: Expr)
    requires WellFormed(ctx) && IsTuple(ctx, x) && Grammatical(e) && Resolved(ctx, e) && Verify(ctx, e).Some?
    ensures AllReach(SceneOf(ctx, x), e)
    ensures Holds(ctx, x, Verify(ctx, e).value, 0) <==> Means(SceneOf(ctx, x), e, 0)
  {
    VerifiedMeans(ctx, x, SceneOf(ctx, x), e, Verify(ctx, e).value, 0);
  }

  /** A statement with this condition as written became a view with that one. */
  ghost predicate Accepts(ctx: Context, asked: Option<Expr>, cond: Option<Expr>) {
    if asked.None? then cond.None?
    else Grammatical(asked.value) && Resolved(ctx, asked.value) && cond.Some? && Verify(ctx, asked.value) == cond
  }

  /** The rows that the typed condition selects are those that the written one asks for. */
  lemma SelectedIsAsked(ctx: Context, asked: Option<Expr>, cond: Option<Expr>, x: seq<int>)
    requires WellFormed(ctx) && IsTuple(ctx, x) && Accepts(ctx, asked, cond)
    ensures Selected(ctx, cond, x) <==> Asked(ctx, asked, x)
  {
    if asked.Some? {
      VerifyMeans(ctx, x, asked.value);
    }
  }
}
