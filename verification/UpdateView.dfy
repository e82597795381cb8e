/** Execution of an UPDATE statement through its three stacked views (update_view_execute,
    select_view_set_row, where_view_set_row, table_view_set_row). */
module UpdateViews {
  import opened Prelude
  import opened Records
  import opened StringPools
  import opened TableLayout
  import opened TableRows
  import opened TableViews
  import opened Inserts
  import opened Updates
  import W = WhereEval
  import P = WherePruning
  import S = WhereSearch
  import O = WhereOrder
  import V = WhereViews
  import M = WhereMarkers
  import N = WhereMeaning
  import F = FieldMeaning

  // ---------------------------------------------------------------------------------------------
  // The table as the WHERE view reads it
  // ---------------------------------------------------------------------------------------------

  function StringMap(p: Pool): map<nat, Str> {
    map id: nat | id < |p.slots| && InUse(p.slots, id) :: TextOf(p.slots, id)
  }

  function ContextOf(types: seq<nat>, p: Pool, rows: seq<seq<nat>>, params: seq<Field>): W.Context {
    W.Context([W.JoinTable(types, rows)], StringMap(p), params)
  }

  /** The fields that follow those counted for the SET list; a record of the wrong size gives none. */
  function WhereParams(vals: seq<Val>, rec: Option<seq<Field>>): seq<Field> {
    if rec.Some? && |vals| < |rec.value| && |rec.value| - |vals| < 65535 then rec.value[|vals|..] else []
  }

  /** The first part of update_view_execute. */
  method WhereRecord(vals: seq<Val>, rec: Option<seq<Field>>) returns (params: seq<Field>)
    ensures params == WhereParams(vals, rec)
  {
    params := [];
    if rec.Some? && |vals| < |rec.value| && |rec.value| - |vals| < 65535 {
      params := NewRecord(|rec.value| - |vals|);
      for i := 0 to |params|
        invariant |params| == |rec.value| - |vals|
        invariant forall k {:trigger params[k]} :: 0 <= k < i ==> params[k] == rec.value[|vals| + k]
      {
        params := CopyField(rec.value, |vals| + i + 1, params, i + 1).value;
      }
    }
  }

  /** The `?`s of a statement stand for the fields of the record in turn, the SET list being written before
      the WHERE clause. Those of the SET list take their own fields. The WHERE clause gets the fields from
      its own first one on exactly when every value of the SET list is a `?`, or no field is left for it. */
  lemma MarkersTakeOwnFields(vals: seq<Val>, rec: seq<Field>)
    requires MarkersBefore(vals, |vals|) <= |rec| < 65535
    ensures forall i :: 0 <= i < |vals| && vals[i].Marker? ==>
      MarkersBefore(vals, i) < |rec| && MergedField(vals, rec, i) == rec[MarkersBefore(vals, i)]
    ensures WhereParams(vals, Some(rec)) == rec[MarkersBefore(vals, |vals|)..] <==>
      |rec| == MarkersBefore(vals, |vals|) || forall i :: 0 <= i < |vals| ==> vals[i].Marker?
  {
    forall i | 0 <= i < |vals| && vals[i].Marker?
      ensures MarkersBefore(vals, i) < |rec| && MergedField(vals, rec, i) == rec[MarkersBefore(vals, i)]
    {
      OwnField(vals, rec, i);
    }
    MarkersCounted(vals, |vals|);
    FieldsLeft(vals, rec, MarkersBefore(vals, |vals|));
  }

  lemma OwnField(vals: seq<Val>, rec: seq<Field>, i: nat)
    requires i < |vals| && vals[i].Marker? && MarkersBefore(vals, |vals|) <= |rec|
    ensures MarkersBefore(vals, i) < |rec| && MergedField(vals, rec, i) == rec[MarkersBefore(vals, i)]
  {
    MarkersGrow(vals, i + 1, |vals|);
  }

  lemma FieldsLeft(vals: seq<Val>, rec: seq<Field>, m: nat)
    requires m <= |rec| < 65535 && m <= |vals|
    ensures WhereParams(vals, Some(rec)) == rec[m..] <==> |rec| == m || m == |vals|
  {
    assert |rec[m..]| == |rec| - m;
  }

  lemma {:induction false} MarkersGrow(vals: seq<Val>, m: nat, n: nat)
    requires m <= n <= |vals|
    ensures MarkersBefore(vals, m) <= MarkersBefore(vals, n)
    decreases n
  {
    if m < n {
      MarkersGrow(vals, m, n - 1);
    }
  }

  /** `SET a = 1 WHERE b = ?` with one parameter: the `?` stands for field 1, but the WHERE clause is given
      no field at all. */
  lemma LiteralTakesField(v: int, f: Field)
    ensures MarkersBefore([IntVal(v)], 1) == 0
    ensures WhereParams([IntVal(v)], Some([f])) == [] != [f]
  {
    assert MarkersBefore([IntVal(v)], 0) == 0;
  }

  lemma {:induction false} MarkersCounted(vals: seq<Val>, n: nat)
    requires n <= |vals|
    ensures MarkersBefore(vals, n) <= n
    ensures MarkersBefore(vals, n) == n <==> forall i :: 0 <= i < n ==> vals[i].Marker?
  {
    if n > 0 {
      MarkersCounted(vals, n - 1);
    }
  }

  ghost predicate Ready(tv: TableView)
    reads tv, tv.strings, tv.strings.strings, tv.strings.sorted
  {
    tv.Shape() && tv.strings.Sound() && PlainTypes(tv.types)
  }

  /** The rows that a WHERE view over one table has found. */
  ghost predicate FoundRows(reorder: seq<seq<int>>, n: nat) {
    forall k :: 0 <= k < |reorder| ==> |reorder[k]| == 1 && 0 <= reorder[k][0] < n
  }

  // ---------------------------------------------------------------------------------------------
  // set_row through the views
  // ---------------------------------------------------------------------------------------------

  lemma {:induction false} NothingMasked(types: seq<nat>, p: Pool, cells: seq<nat>, rec: seq<Field>, c: nat,
        persistent: bool)
    requires |cells| == |types| && c <= |types| && Valid(p) && RecordOk(rec) && PlainTypes(types)
    ensures SetRowFrom(types, p, cells, rec, {}, c, persistent) == Written(Success, p, cells)
    decreases |types| - c
  {
    if c < |types| {
      NothingMasked(types, p, cells, rec, c + 1, persistent);
    }
  }

  /** where_view_set_row over one table: key columns are refused, everything else is passed on. */
  method WhereSetRow(tv: TableView, wv: V.WhereView, row: nat, rec: seq<Field>, mask: set<nat>) returns (r: Status)
    requires Ready(tv) && RecordOk(rec) && |rec| == |tv.types|
    requires FoundRows(wv.reorder, |tv.data|)
    modifies tv`data, tv`hash, tv.strings, tv.strings.strings, tv.strings.sorted
    ensures Ready(tv) && |tv.data| == old(|tv.data|)
    ensures row >= |wv.reorder| ==> r == NoMoreItems
    ensures row < |wv.reorder| && (exists b :: b in mask && b >= |tv.types|) ==> r == InvalidParameter
    ensures row < |wv.reorder| && (forall b :: b in mask ==> b < |tv.types|) && TouchesKey([tv.types], mask) ==>
      r == FunctionFailed
    ensures row >= |wv.reorder| || (exists b :: b in mask && b >= |tv.types|) || TouchesKey([tv.types], mask) ==>
      tv.Rows() == old(tv.Rows()) && tv.strings.Model() == old(tv.strings.Model())
    ensures row < |wv.reorder| && (forall b :: b in mask ==> b < |tv.types|) && !TouchesKey([tv.types], mask) ==>
      var t := wv.reorder[row][0];
      var w := SetRowFrom(tv.types, old(tv.strings.Model()), old(tv.Rows())[t], rec, mask, 0, tv.Flag(t));
      r == w.status && tv.strings.Model() == w.pool && tv.Rows() == old(tv.Rows())[t := w.cells]
    ensures tv.strings.strings == old(tv.strings.strings) || fresh(tv.strings.strings)
    ensures tv.strings.sorted == old(tv.strings.sorted) || fresh(tv.strings.sorted)
  {
    if row >= |wv.reorder| {
      return NoMoreItems;
    }
    var t := wv.reorder[row][0];
    if exists b :: b in mask && b >= |tv.types| {
      return InvalidParameter;
    }
    var touched := CheckKeys([tv.types], mask);
    if touched {
      return FunctionFailed;
    }
    r := WritePieces(tv, t, rec, mask);
  }

  /** The part of where_view_set_row that follows the checks. */
  method WritePieces(tv: TableView, t: nat, rec: seq<Field>, mask: set<nat>) returns (r: Status)
    requires Ready(tv) && RecordOk(rec) && |rec| == |tv.types| && t < |tv.data|
    requires forall b :: b in mask ==> b < |tv.types|
    modifies tv`data, tv`hash, tv.strings, tv.strings.strings, tv.strings.sorted
    ensures Ready(tv)
    ensures var w := SetRowFrom(tv.types, old(tv.strings.Model()), old(tv.Rows())[t], rec, mask, 0, tv.Flag(t));
      r == w.status && tv.strings.Model() == w.pool && tv.Rows() == old(tv.Rows())[t := w.cells]
    ensures tv.strings.strings == old(tv.strings.strings) || fresh(tv.strings.strings)
    ensures tv.strings.sorted == old(tv.strings.sorted) || fresh(tv.strings.sorted)
  {
    r := Success;
    assert Start([tv.types], 1) == Start([tv.types], 0) + |tv.types|;
    var writes := SplitRow([tv.types], rec, mask);
    if writes == [] {
      assert mask == {} by {
        assert forall b :: b in mask ==> Masked([tv.types], mask, 0, b);
      }
      NothingMasked(tv.types, tv.strings.Model(), tv.Rows()[t], rec, 0, tv.Flag(t));
      assert tv.Rows()[t := tv.Rows()[t]] == tv.Rows();
    } else {
      SinglePiece(tv.types, rec, mask, writes[0]);
      r := tv.SetRow(t, writes[0].rec, writes[0].mask);
    }
  }

  lemma SinglePiece(types: seq<nat>, rec: seq<Field>, mask: set<nat>, w: Write)
    requires |rec| == |types| == Start([types], 1) && IsPiece([types], rec, mask, w)
    requires forall b :: b in mask ==> b < |types|
    ensures w.table == 0 && w.rec == rec && w.mask == mask
  {
    assert w.rec == rec;
    forall b: nat
      ensures b in w.mask <==> b in mask
    {
      assert b in w.mask <==> Masked([types], mask, 0, b);
    }
  }

  /** The statement sets a key column through a WHERE view. */
  ghost predicate Refused(types: seq<nat>, wv: V.WhereView?, mask: set<nat>) {
    wv != null && TouchesKey([types], mask)
  }

  /** The row of the table that row i of the view below the SELECT view stands for. */
  function Target(wv: V.WhereView?, i: nat): nat
    requires wv != null ==> i < |wv.reorder| && |wv.reorder[i]| == 1 && wv.reorder[i][0] >= 0
    reads wv
  {
    if wv == null then i else wv.reorder[i][0]
  }

  /** select_view_set_row with every bit of the mask set, as update_view_execute calls it. */
  method SelectSetRow(tv: TableView, wv: V.WhereView?, cols: seq<nat>, row: nat, rec: seq<Field>) returns (r: Status)
    requires Ready(tv) && RecordOk(rec) && ColumnsOf(cols, |tv.types|) && |rec| == |cols|
    requires if wv == null then row < |tv.data| else FoundRows(wv.reorder, |tv.data|) && row < |wv.reorder|
    modifies tv`data, tv`hash, tv.strings, tv.strings.strings, tv.strings.sorted
    ensures Ready(tv)
    ensures var t, fields, mask := Target(wv, row), Expanded(|tv.types|, cols, rec), ColumnMask(cols);
      && RecordOk(fields)
      && var w := SetRowFrom(tv.types, old(tv.strings.Model()), old(tv.Rows())[t], fields, mask, 0, tv.Flag(t));
      if Refused(tv.types, wv, mask) then
        r == FunctionFailed && tv.Rows() == old(tv.Rows()) && tv.strings.Model() == old(tv.strings.Model())
      else r == w.status && tv.strings.Model() == w.pool && tv.Rows() == old(tv.Rows())[t := w.cells]
    ensures tv.strings.strings == old(tv.strings.strings) || fresh(tv.strings.strings)
    ensures tv.strings.sorted == old(tv.strings.sorted) || fresh(tv.strings.sorted)
  {
    var expanded, mask;
    r, expanded, mask := ExpandRecord(|tv.types|, cols, rec);
    if wv == null {
      r := tv.SetRow(row, expanded, mask);
    } else {
      r := WhereSetRow(tv, wv, row, expanded, mask);
    }
  }

  /** A table at a point of the run. */
  datatype Point = Point(pool: Pool, rows: seq<seq<nat>>)

  ghost function StandsAt(tv: TableView): Option<Point>
    reads tv, tv.strings, tv.strings.strings, tv.strings.sorted
  {
    if Ready(tv) then Some(Point(tv.strings.Model(), tv.Rows())) else None
  }

  /** Everything about a run that stays the same: what is written where. */
  datatype Job = Job(types: seq<nat>, fields: seq<Field>, mask: set<nat>, hit: seq<nat>, flags: seq<bool>)

  ghost predicate JobOk(j: Job, s: Point) {
    && Rectangular(j.types, s.rows) && Valid(s.pool) && RecordOk(j.fields) && PlainTypes(j.types)
    && |j.flags| == |s.rows| && forall k :: 0 <= k < |j.hit| ==> j.hit[k] < |s.rows|
  }

  /** The rows from the i-th hit on are written. */
  ghost function From(j: Job, s: Point, i: nat): Updated
    requires JobOk(j, s) && i <= |j.hit|
  {
    UpdateRows(j.types, s.pool, s.rows, j.fields, j.mask, j.hit[i..], j.flags)
  }

  /** The same, or a refusal at the first row. */
  ghost function Rest(j: Job, s: Point, i: nat, refused: bool): Updated
  {
    if JobOk(j, s) && i < |j.hit| && !refused then From(j, s, i)
    else Updated(if i == |j.hit| then Success else FunctionFailed, s.pool, s.rows)
  }

  /** The i-th row hit is written. */
  ghost function WrittenAt(j: Job, s: Point, i: nat): Written
    requires JobOk(j, s) && i < |j.hit|
  {
    SetRowFrom(j.types, s.pool, s.rows[j.hit[i]], j.fields, j.mask, 0, j.flags[j.hit[i]])
  }

  lemma FromStep(j: Job, s: Point, i: nat)
    requires JobOk(j, s) && i < |j.hit|
    ensures var w := WrittenAt(j, s, i);
      var next := Point(w.pool, s.rows[j.hit[i] := w.cells]);
      && JobOk(j, next)
      && From(j, s, i) == if w.status == Success then From(j, next, i + 1) else Updated(w.status, w.pool, next.rows)
  {
    assert j.hit[i..][0] == j.hit[i] && j.hit[i..][1..] == j.hit[i + 1..];
  }

  /** What the loop writes belongs to the job. None of it changes while rows are written. */
  ghost predicate Does(tv: TableView, wv: V.WhereView?, cols: seq<nat>, count: nat, rec: seq<Field>, j: Job)
    reads tv`persistent, wv
  {
    var n := |tv.persistent|;
    && RecordOk(rec) && ColumnsOf(cols, |tv.types|) && |rec| == |cols|
    && (if wv == null then count == n else FoundRows(wv.reorder, n) && count == |wv.reorder|)
    && j.types == tv.types && j.fields == Expanded(|tv.types|, cols, rec) && j.mask == ColumnMask(cols)
    && |j.hit| == count && (forall i :: 0 <= i < count ==> j.hit[i] == Target(wv, i) < n)
    && |j.flags| == n && (forall i :: 0 <= i < |j.flags| ==> j.flags[i] == tv.Flag(i))
  }

  /** The same as an equation, for the contracts of the loop. */
  ghost function Doing(tv: TableView, wv: V.WhereView?, cols: seq<nat>, count: nat, rec: seq<Field>, j: Job): Option<Job>
    reads tv`persistent, wv
  {
    if Does(tv, wv, cols, count, rec, j) then Some(j) else None
  }

  function FlagsOf(table: bool, rows: seq<bool>): (flags: seq<bool>)
    ensures |flags| == |rows| && forall i :: 0 <= i < |flags| ==> flags[i] == (table && rows[i])
  {
    seq(|rows|, i requires 0 <= i < |rows| => table && rows[i])
  }

  method WriteNext(tv: TableView, wv: V.WhereView?, cols: seq<nat>, i: nat, ghost count: nat, rec: seq<Field>,
        ghost j: Job, ghost s: Point)
    returns (r: Status, ghost s': Point)
    requires StandsAt(tv) == Some(s) && Doing(tv, wv, cols, count, rec, j) == Some(j) && i < count
    modifies tv`data, tv`hash, tv.strings, tv.strings.strings, tv.strings.sorted
    ensures StandsAt(tv) == Some(s') && Doing(tv, wv, cols, count, rec, j) == Some(j)
    ensures var refused := Refused(tv.types, wv, j.mask);
      Rest(j, s, i, refused) == if r == Success then Rest(j, s', i + 1, refused) else Updated(r, s'.pool, s'.rows)
    ensures tv.strings.strings == old(tv.strings.strings) || fresh(tv.strings.strings)
    ensures tv.strings.sorted == old(tv.strings.sorted) || fresh(tv.strings.sorted)
  {
    FromStep(j, s, i);
    r := SelectSetRow(tv, wv, cols, i, rec);
    s' := Point(tv.strings.Model(), tv.Rows());
  }

  /** The loop of update_view_execute, from one point of the table to another. */
  method WriteRows(tv: TableView, wv: V.WhereView?, cols: seq<nat>, count: nat, rec: seq<Field>, ghost j: Job,
        ghost first: Point)
    returns (r: Status, ghost last: Point)
    requires StandsAt(tv) == Some(first) && Doing(tv, wv, cols, count, rec, j) == Some(j)
    modifies tv`data, tv`hash, tv.strings, tv.strings.strings, tv.strings.sorted
    ensures StandsAt(tv) == Some(last)
    ensures Rest(j, first, 0, Refused(tv.types, wv, j.mask)) == Updated(r, last.pool, last.rows)
  {
    ghost var refused := Refused(tv.types, wv, j.mask);
    last, r := first, Success;
    var i := 0;
    while i < count && r == Success
      invariant 0 <= i <= count == |j.hit| && StandsAt(tv) == Some(last)
      invariant Rest(j, first, 0, refused) ==
        if r == Success then Rest(j, last, i, refused) else Updated(r, last.pool, last.rows)
      invariant Doing(tv, wv, cols, count, rec, j) == Some(j)
      invariant tv.strings.strings == old(tv.strings.strings) || fresh(tv.strings.strings)
      invariant tv.strings.sorted == old(tv.strings.sorted) || fresh(tv.strings.sorted)
      decreases count - i, r == Success
    {
      r, last := WriteNext(tv, wv, cols, i, count, rec, j, last);
      if r == Success {
        i := i + 1;
      }
    }
    RestEnds(j, last, refused);
  }

  lemma RestEnds(j: Job, s: Point, refused: bool)
    ensures Rest(j, s, |j.hit|, refused) == Updated(Success, s.pool, s.rows)
  {
  }

  // ---------------------------------------------------------------------------------------------
  // The statement
  // ---------------------------------------------------------------------------------------------

  /** The condition came through the grammar and the verification of the WHERE view, which sorts nothing. */
  ghost predicate Checked(wv: V.WhereView, ctx: W.Context) {
    wv.orderBy.None? && wv.cond.Some? && W.Typed(wv.cond.value) && W.Resolved(ctx, wv.cond.value)
  }

  /** The row is updated: there is no WHERE view, or its condition holds. */
  ghost predicate Wanted(wv: V.WhereView?, ctx: W.Context, i: nat) {
    wv == null || P.Selected(ctx, wv.cond, [i])
  }

  /** A table row as the subject of a condition. */
  ghost function RowScene(types: seq<nat>, slots: seq<Slot>, row: seq<nat>, params: seq<Field>): N.Scene {
    N.Scene([N.Picked(types, row)], imap id: nat :: TextOf(slots, id), params)
  }

  /** The condition, as it was written, means this row. */
  ghost predicate RowAsked(types: seq<nat>, slots: seq<Slot>, row: seq<nat>, params: seq<Field>, asked: Option<W.Expr>) {
    var s := RowScene(types, slots, row, params);
    asked.Some? ==> N.AllReach(s, asked.value) && N.Means(s, asked.value, 0)
  }

  /** What decides over accepting a statement is the types of the columns. */
  ghost predicate AcceptedOver(types: seq<nat>, asked: Option<W.Expr>, cond: Option<W.Expr>) {
    N.Accepts(W.Context([W.JoinTable(types, [])], map[], []), asked, cond)
  }

  lemma {:induction false} VerifyByTypes(types: seq<nat>, ctx: W.Context, e: W.Expr)
    requires |ctx.tables| == 1 && ctx.tables[0].types == types
    ensures var bare := W.Context([W.JoinTable(types, [])], map[], []);
      (W.Resolved(bare, e) <==> W.Resolved(ctx, e)) && W.Verify(bare, e) == W.Verify(ctx, e)
  {
    match e {
      case Complex(_, l, r) =>
        VerifyByTypes(types, ctx, l);
        VerifyByTypes(types, ctx, r);
      case Unary(_, l) =>
        VerifyByTypes(types, ctx, l);
      case StrCmp(_, l, r) =>
        VerifyByTypes(types, ctx, l);
        VerifyByTypes(types, ctx, r);
      case _ =>
    }
  }

  lemma RowIsScene(types: seq<nat>, p: Pool, rows: seq<seq<nat>>, params: seq<Field>, i: nat)
    requires var ctx := ContextOf(types, p, rows, params); W.WellFormed(ctx)
    requires i < |rows| && Valid(p)
    ensures S.IsTuple(ContextOf(types, p, rows, params), [i])
    ensures N.SceneOf(ContextOf(types, p, rows, params), [i]) == RowScene(types, p.slots, rows[i], params)
  {
    var s := N.SceneOf(ContextOf(types, p, rows, params), [i]);
    assert s.picked == [N.Picked(types, rows[i])];
    forall id: nat
      ensures s.text[id] == TextOf(p.slots, id)
    {
      assert SlotOk(p.slots[if id < |p.slots| then id else 0]);
    }
    assert s.text == RowScene(types, p.slots, rows[i], params).text;
  }

  /** A selected row is one that the condition means. */
  lemma SelectedRow(types: seq<nat>, p: Pool, rows: seq<seq<nat>>, params: seq<Field>, asked: Option<W.Expr>,
        cond: Option<W.Expr>, i: nat)
    requires var ctx := ContextOf(types, p, rows, params);
      W.WellFormed(ctx) && AcceptedOver(types, asked, cond) && i < |rows| && Valid(p)
    ensures P.Selected(ContextOf(types, p, rows, params), cond, [i]) <==> RowAsked(types, p.slots, rows[i], params, asked)
  {
    var ctx := ContextOf(types, p, rows, params);
    if asked.Some? {
      VerifyByTypes(types, ctx, asked.value);
      N.SelectedIsAsked(ctx, asked, cond, [i]);
      N.ResolvedReaches(ctx, [i], asked.value);
      RowIsScene(types, p, rows, params, i);
    }
  }

  /** The rows hit are those that the condition means, however it was written. */
  ghost predicate HitAsked(types: seq<nat>, slots: seq<Slot>, rows: seq<seq<nat>>, params: seq<Field>,
        cond: Option<W.Expr>, hit: seq<nat>)
  {
    forall asked, i: nat :: AcceptedOver(types, asked, cond) ==>
      (i in hit <==> i < |rows| && RowAsked(types, slots, rows[i], params, asked))
  }

  lemma HitMeans(types: seq<nat>, p: Pool, rows: seq<seq<nat>>, params: seq<Field>, cond: Option<W.Expr>, hit: seq<nat>)
    requires W.WellFormed(ContextOf(types, p, rows, params)) && Valid(p)
    requires forall i: nat :: i in hit <==> i < |rows| && P.Selected(ContextOf(types, p, rows, params), cond, [i])
    ensures HitAsked(types, p.slots, rows, params, cond, hit)
  {
    forall asked, i: nat | AcceptedOver(types, asked, cond)
      ensures i in hit <==> i < |rows| && RowAsked(types, p.slots, rows[i], params, asked)
    {
      if i < |rows| {
        SelectedRow(types, p, rows, params, asked, cond, i);
      }
    }
  }

  lemma OneTableAnswerable(wv: V.WhereView, ctx: W.Context)
    requires Checked(wv, ctx) && |ctx.tables| == 1
    ensures wv.Answerable(ctx)
  {
    V.PickedOrder(ctx, wv.cond);
    M.SafeQueries(wv.cond, O.OrderedTables(wv.cond, 1));
  }

  /** The rows a WHERE view over one table answers with. */
  lemma AnswerRows(wv: V.WhereView, ctx: W.Context, reorder: seq<seq<int>>)
    requires |ctx.tables| == 1 && V.IsAnswerTo(ctx, wv.cond, [], reorder)
    ensures FoundRows(reorder, |ctx.tables[0].rows|)
    ensures forall i: nat :: [i] in reorder <==> i < |ctx.tables[0].rows| && Wanted(wv, ctx, i)
  {
    forall k | 0 <= k < |reorder|
      ensures |reorder[k]| == 1 && 0 <= reorder[k][0] < |ctx.tables[0].rows|
    {
      assert reorder[k] in reorder;
    }
    forall i: nat
      ensures [i] in reorder <==> i < |ctx.tables[0].rows| && Wanted(wv, ctx, i)
    {
      var x: seq<int> := [i];
      assert x in reorder <==> S.IsTuple(ctx, x) && P.Selected(ctx, wv.cond, x);
    }
  }

  /** execute and get_dimensions on the views below; the condition is evaluated on the table as it is. */
  method SelectRows(tv: TableView, wv: V.WhereView?, params: seq<Field>) returns (r: Status, count: nat,
        ghost hit: seq<nat>)
    requires Ready(tv)
    requires wv != null ==> Checked(wv, ContextOf(tv.types, tv.strings.Model(), tv.Rows(), params))
    modifies wv
    ensures r == Success && |hit| == count
    ensures if wv == null then count == |tv.data| else FoundRows(wv.reorder, |tv.data|) && count == |wv.reorder|
    ensures forall i :: 0 <= i < count ==> hit[i] == Target(wv, i) < |tv.data|
    ensures forall i: nat :: i in hit <==>
      i < |tv.data| && Wanted(wv, ContextOf(tv.types, tv.strings.Model(), tv.Rows(), params), i)
    ensures wv != null ==> HitAsked(tv.types, tv.strings.Model().slots, tv.Rows(), params, wv.cond, hit)
  {
    r := Success;
    if wv == null {
      count := |tv.data|;
      hit := seq(count, i => i);
      forall i: nat | i < count
        ensures i in hit
      {
        assert hit[i] == i;
      }
    } else {
      r := ExecuteWhere(tv, wv, params);
      count := |wv.reorder|;
      hit := Hits(wv.reorder, |tv.data|);
      tv.RowsAreWords();
      HitMeans(tv.types, tv.strings.Model(), tv.Rows(), params, wv.cond, hit);
    }
  }

  method ExecuteWhere(tv: TableView, wv: V.WhereView, params: seq<Field>) returns (r: Status)
    requires Ready(tv) && Checked(wv, ContextOf(tv.types, tv.strings.Model(), tv.Rows(), params))
    modifies wv
    ensures r == Success && FoundRows(wv.reorder, |tv.data|)
    ensures var ctx := ContextOf(tv.types, tv.strings.Model(), tv.Rows(), params);
      forall i: nat :: [i] in wv.reorder <==> i < |tv.data| && Wanted(wv, ctx, i)
  {
    var ctx := ContextOf(tv.types, tv.strings.Model(), tv.Rows(), params);
    tv.RowsAreWords();
    assert W.WellFormedTable(ctx.tables[0]);
    OneTableAnswerable(wv, ctx);
    r := wv.Execute(ctx);
    AnswerRows(wv, ctx, wv.reorder);
  }

  ghost function Hits(reorder: seq<seq<int>>, n: nat): (hit: seq<nat>)
    requires FoundRows(reorder, n)
    ensures |hit| == |reorder| && forall k :: 0 <= k < |hit| ==> hit[k] == reorder[k][0] < n
    ensures forall i: nat :: i in hit <==> [i] in reorder
  {
    var hit: seq<nat> := seq(|reorder|, k requires 0 <= k < |reorder| => (var i: nat := reorder[k][0]; i));
    HitsListed(reorder, hit);
    hit
  }

  lemma HitsListed(reorder: seq<seq<int>>, hit: seq<nat>)
    requires |hit| == |reorder| && forall k :: 0 <= k < |hit| ==> |reorder[k]| == 1 && hit[k] == reorder[k][0]
    ensures forall i: nat :: i in hit <==> [i] in reorder
  {
    forall i: nat
      ensures i in hit <==> [i] in reorder
    {
      var x: seq<int> := [i];
      if i in hit {
        var k :| 0 <= k < |hit| && hit[k] == i;
        assert reorder[k] == x;
      }
      if x in reorder {
        var k :| 0 <= k < |reorder| && reorder[k] == x;
        assert hit[k] == i;
      }
    }
  }

  /** The field that a SET list gives table column c. */
  function SetField(cols: seq<nat>, vals: seq<Val>, given: seq<Field>, c: nat): Field
    requires |vals| == |cols|
  {
    var k := LastOf(cols, c + 1, |cols|);
    if k.Some? then MergedField(vals, given, k.value) else NullField
  }

  /** The columns of a statement: `fields` is what every column is to be set to. */
  ghost predicate IsSetList(fields: seq<Field>, width: nat, cols: seq<nat>, vals: seq<Val>, rec: Option<seq<Field>>)
    requires |vals| == |cols|
  {
    && |fields| == width && RecordOk(fields)
    && forall c {:trigger fields[c]} :: 0 <= c < width ==>
      fields[c] == SetField(cols, vals, if rec.Some? then rec.value else [], c)
  }

  lemma MergedOk(width: nat, cols: seq<nat>, vals: seq<Val>, rec: Option<seq<Field>>, merged: seq<Field>)
    requires |vals| == |cols| == |merged| && ValsOk(vals) && (rec.Some? ==> RecordOk(rec.value))
    requires forall i :: 0 <= i < |merged| ==> merged[i] == MergedField(vals, if rec.Some? then rec.value else [], i)
    ensures RecordOk(merged) && IsSetList(Expanded(width, cols, merged), width, cols, vals, rec)
  {
  }

  /** update_view_execute. `hit` lists the rows whose condition held before; `fields` is None when a `?`
      of the SET list has no record to take its value from. */
  method UpdateExecute(tv: TableView, wv: V.WhereView?, cols: seq<nat>, vals: seq<Val>, rec: Option<seq<Field>>)
    returns (r: Status, ghost hit: seq<nat>, ghost fields: Option<seq<Field>>)
    requires Ready(tv) && |cols| == |vals| && ColumnsOf(cols, |tv.types|) && ValsOk(vals) && (rec.Some? ==> RecordOk(rec.value))
    requires wv != null ==> Checked(wv, ContextOf(tv.types, tv.strings.Model(), tv.Rows(), WhereParams(vals, rec)))
    modifies wv, tv`data, tv`hash, tv.strings, tv.strings.strings, tv.strings.sorted
    ensures Ready(tv)
    ensures var ctx := ContextOf(tv.types, old(tv.strings.Model()), old(tv.Rows()), WhereParams(vals, rec));
      forall i: nat :: i in hit <==> (i < old(|tv.data|) && Wanted(wv, ctx, i))
    ensures fields.None? <==> rec.None? && exists i :: 0 <= i < |vals| && vals[i].Marker?
    ensures wv != null ==>
      HitAsked(tv.types, old(tv.strings.Model()).slots, old(tv.Rows()), WhereParams(vals, rec), wv.cond, hit)
    ensures fields.Some? ==> IsSetList(fields.value, |tv.types|, cols, vals, rec)
    ensures OnlyHitChanged(tv.types, old(tv.Rows()), tv.Rows(), ColumnMask(cols), hit)
    ensures KeepsIds(old(tv.strings.Model()), tv.strings.Model())
    ensures fields.None? || (hit != [] && Refused(tv.types, wv, ColumnMask(cols))) ==>
      r == FunctionFailed && tv.Rows() == old(tv.Rows()) && tv.strings.Model() == old(tv.strings.Model())
    ensures r == Success || r == FunctionFailed
    ensures r == Success <==>
      (fields.Some? &&
       (hit == [] || (!Refused(tv.types, wv, ColumnMask(cols)) && MaskStorable(tv.types, fields.value, ColumnMask(cols)))))
    ensures r == Success && |tv.strings.Model().slots| <= TWO24 ==>
      HitStores(tv.types, tv.strings.Model(), tv.Rows(), fields.value, ColumnMask(cols), hit) &&
      HitHolds(tv.types, tv.strings.Model().slots, tv.Rows(), cols, vals, if rec.Some? then rec.value else [], hit)
  {
    ghost var before := Point(tv.strings.Model(), tv.Rows());
    var params := WhereRecord(vals, rec);
    var count;
    r, count, hit := SelectRows(tv, wv, params);
    var values := MergeRecord(|vals|, vals, rec);
    if values.None? {
      return FunctionFailed, hit, None;
    }
    MergedOk(|tv.types|, cols, vals, rec, values.value);
    fields := Some(Expanded(|tv.types|, cols, values.value));
    ghost var j := Job(tv.types, fields.value, ColumnMask(cols), hit, FlagsOf(tv.tablePersistent, tv.persistent));
    ghost var after;
    r, after := WriteRows(tv, wv, cols, count, values.value, j, before);
    RestEffect(j, before, Refused(tv.types, wv, j.mask), Updated(r, after.pool, after.rows));
    if r == Success && |after.pool.slots| <= TWO24 {
      SetHolds(tv.types, after.pool, after.rows, cols, vals, rec, fields.value, hit);
    }
  }

  /** The rows hit hold, in every column, the last value set for it. */
  ghost predicate HitHolds(types: seq<nat>, slots: seq<Slot>, rows: seq<seq<nat>>, cols: seq<nat>, vals: seq<Val>,
        params: seq<Field>, hit: seq<nat>)
    requires |vals| == |cols| && Rectangular(types, rows)
  {
    forall i: nat, c: nat, k: nat :: i in hit && i < |rows| && c < |types| && F.LastFor(cols, c + 1, k) ==>
      F.HoldsValue(types[c], slots, rows[i][c], vals, k, params)
  }

  lemma SetHolds(types: seq<nat>, p: Pool, rows: seq<seq<nat>>, cols: seq<nat>, vals: seq<Val>, rec: Option<seq<Field>>,
        fields: seq<Field>, hit: seq<nat>)
    requires |vals| == |cols| && Rectangular(types, rows) && PlainTypes(types) && Valid(p)
    requires ValsOk(vals) && (rec.Some? ==> RecordOk(rec.value)) && IsSetList(fields, |types|, cols, vals, rec)
    requires HitStores(types, p, rows, fields, ColumnMask(cols), hit) && ColumnsOf(cols, |types|)
    ensures HitHolds(types, p.slots, rows, cols, vals, if rec.Some? then rec.value else [], hit)
  {
    var params := if rec.Some? then rec.value else [];
    forall i: nat, c: nat, k: nat | i in hit && i < |rows| && c < |types| && F.LastFor(cols, c + 1, k)
      ensures F.HoldsValue(types[c], p.slots, rows[i][c], vals, k, params)
    {
      var last := LastOf(cols, c + 1, |cols|);
      assert last == Some(k) && cols[k] == c + 1 && c in ColumnMask(cols);
      assert fields[c] == MergedField(vals, params, k) == FieldAt(fields, c);
      MergedHolds(types[c], p, vals, params, k, rows[i][c]);
    }
  }

  /** What the rows and the code are after the loop. */
  lemma RestEffect(j: Job, s: Point, refused: bool, u: Updated)
    requires JobOk(j, s) && u == Rest(j, s, 0, refused) && KeepsIds(s.pool, u.pool)
    ensures OnlyHitChanged(j.types, s.rows, u.rows, j.mask, j.hit)
    ensures j.hit != [] && refused ==> u == Updated(FunctionFailed, s.pool, s.rows)
    ensures u.status == Success || u.status == FunctionFailed
    ensures u.status == Success <==> j.hit == [] || (!refused && MaskStorable(j.types, j.fields, j.mask))
    ensures u.status == Success && |u.pool.slots| <= TWO24 ==> HitStores(j.types, u.pool, u.rows, j.fields, j.mask, j.hit)
  {
    assert j.hit[0..] == j.hit;
    UpdateRowsEffect(j.types, s.pool, s.rows, j.fields, j.mask, j.hit, j.flags);
  }

  /** A cell that was written from an integer or a text is what a condition sees as that integer or text. */
  lemma WrittenIsSeen(s: N.Scene, slots: seq<Slot>, c: W.ColumnRef, f: Field, m: nat)
    requires N.Reaches(s, c) && Plain(N.TypeOf(s, c)) && F.HoldsField(N.TypeOf(s, c), slots, N.StoredCell(s, c), f)
    requires N.StoredCell(s, c) in s.text && s.text[N.StoredCell(s, c)] == TextOf(slots, N.StoredCell(s, c))
    requires TextOf(slots, 0) == []
    ensures !N.IsText(s, W.Column(c)) && F.IntegerIn(f).Some? && -TWO31 <= F.IntegerIn(f).value < TWO31 ==>
      N.IntegerOf(s, W.Column(c), m) == F.IntegerIn(f).value
    ensures N.IsText(s, W.Column(c)) && f.StrField? ==> N.TextOf(s, W.Column(c), m) == f.s
  {
  }

  /** Without a column that is set twice every SET value goes to its own column; otherwise the last one
      for a column wins. */
  lemma SetFieldOwn(cols: seq<nat>, vals: seq<Val>, given: seq<Field>, k: nat)
    requires |vals| == |cols| && k < |cols| && cols[k] >= 1
    ensures (forall j :: k < j < |cols| ==> cols[j] != cols[k]) ==>
      SetField(cols, vals, given, cols[k] - 1) == MergedField(vals, given, k)
    ensures (forall j :: 0 <= j < |cols| && cols[j] == cols[k] ==> j <= k) || exists j ::
      k < j < |cols| && cols[j] == cols[k] && SetField(cols, vals, given, cols[k] - 1) == MergedField(vals, given, j)
  {
    var j := LastOf(cols, cols[k], |cols|).value;
    assert cols[j] == cols[k];
  }

  /** select_view_fetch_int over a table: columns count from 1, and 0 stands for a column that is empty. */
  method SelectFetchInt(tv: TableView, cols: seq<nat>, row: nat, col: nat) returns (r: Status, val: nat)
    requires tv.Shape()
    ensures col == 0 || col > |cols| ==> r == FunctionFailed
    ensures 1 <= col <= |cols| && cols[col - 1] == 0 ==> r == Success && val == 0
    ensures 1 <= col <= |cols| && 1 <= cols[col - 1] <= |tv.types| ==>
      r == (if row >= |tv.data| then NoMoreItems else Success) &&
      (r == Success ==> val == tv.Rows()[row][cols[col - 1] - 1])
  {
    if col == 0 || col > |cols| {
      return FunctionFailed, 0;
    }
    if cols[col - 1] == 0 {
      return Success, 0;
    }
    r, val := tv.FetchInt(row, cols[col - 1]);
  }
}
