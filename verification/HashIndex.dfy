/** The per-column index: 37 chains of rows, each in ascending order (table_view_find_matching_rows in
    libmsi/table.c). The entries lie in one block, so a pointer to an entry is its position there. */
module HashIndex {
  import opened Prelude

  const HASH_TABLE_SIZE := 37

  datatype Entry = Entry(next: Option<nat>, value: nat, row: nat)

  datatype Index = Index(heads: seq<Option<nat>>, entries: seq<Entry>)

  /** The cells of column c. */
  function Column(rows: seq<seq<nat>>, c: nat): (column: seq<nat>)
    requires forall i :: 0 <= i < |rows| ==> c < |rows[i]|
    ensures |column| == |rows|
    ensures forall i :: 0 <= i < |rows| ==> column[i] == rows[i][c]
  {
    seq(|rows|, i requires 0 <= i < |rows| => rows[i][c])
  }

  function Bucket(v: nat): (b: nat)
    ensures b < HASH_TABLE_SIZE
  {
    v % HASH_TABLE_SIZE
  }

  /** The first row at or after `from` in bucket b. */
  function NextInBucket(column: seq<nat>, b: nat, from: nat): (n: Option<nat>)
    requires from <= |column|
    ensures n.Some? ==> from <= n.value < |column| && Bucket(column[n.value]) == b
    ensures forall i :: from <= i < (if n.Some? then n.value else |column|) ==> Bucket(column[i]) != b
    decreases |column| - from
  {
    if from == |column| then None
    else if Bucket(column[from]) == b then Some(from)
    else NextInBucket(column, b, from + 1)
  }

  /** The index of a column: entry i is row i, and each pointer leads to the next row of the bucket. */
  ghost predicate Agrees(h: Index, column: seq<nat>) {
    && |h.heads| == HASH_TABLE_SIZE && |h.entries| == |column|
    && (forall b {:trigger h.heads[b]} :: 0 <= b < HASH_TABLE_SIZE ==> h.heads[b] == NextInBucket(column, b, 0))
    && (forall i {:trigger h.entries[i]} :: 0 <= i < |column| ==>
          h.entries[i] == Entry(NextInBucket(column, Bucket(column[i]), i + 1), column[i], i))
  }

  /** The values of entries. */
  function Values(entries: seq<Entry>): seq<nat> {
    if entries == [] then [] else [entries[0].value] + Values(entries[1..])
  }

  lemma {:induction false} ValuesAre(entries: seq<Entry>, column: seq<nat>)
    requires |entries| == |column| && forall i :: 0 <= i < |column| ==> entries[i].value == column[i]
    ensures Values(entries) == column
  {
    if entries != [] {
      ValuesAre(entries[1..], column[1..]);
    }
  }

  /** The column that an index was built from; None when it agrees with no column. */
  ghost function Source(h: Index): Option<seq<nat>> {
    if Agrees(h, Values(h.entries)) then Some(Values(h.entries)) else None
  }

  lemma SourceOf(h: Index, column: seq<nat>)
    requires Agrees(h, column)
    ensures Source(h) == Some(column)
  {
    ValuesAre(h.entries, column);
  }

  lemma SourceAgrees(h: Index, column: seq<nat>)
    requires Source(h) == Some(column)
    ensures Agrees(h, column)
  {
  }

  /** A table of another length has no index in common. */
  lemma StaleIndex(h: Index, column: seq<nat>, other: seq<nat>)
    requires Agrees(h, column) && |other| != |column|
    ensures !Agrees(h, other)
  {
  }

  // ---------------------------------------------------------------------------------------------
  // Building
  // ---------------------------------------------------------------------------------------------

  /** Appending a row only extends chains that ran out. */
  lemma {:induction false} NextAfterAppend(column: seq<nat>, v: nat, b: nat, from: nat)
    requires from <= |column|
    ensures NextInBucket(column + [v], b, from) ==
      if NextInBucket(column, b, from).Some? then NextInBucket(column, b, from)
      else if Bucket(v) == b then Some(|column|) else None
    decreases |column| - from
  {
    if from < |column| {
      NextAfterAppend(column, v, b, from + 1);
    } else {
      assert NextInBucket(column + [v], b, |column| + 1) == None;
    }
  }

  /** The last entry of a chain, from entry e on. */
  method LastInChain(h: Index, ghost column: seq<nat>, e: nat) returns (last: nat)
    requires Agrees(h, column) && e < |column|
    ensures e <= last < |column| && Bucket(column[last]) == Bucket(column[e])
    ensures h.entries[last].next == None
  {
    last := e;
    while h.entries[last].next.Some?
      invariant e <= last < |column| && Bucket(column[last]) == Bucket(column[e])
      decreases |column| - last
    {
      last := h.entries[last].next.value;
    }
  }

  /** The loop body of the builder: a new entry at the end of its chain. */
  method AddEntry(h: Index, ghost column: seq<nat>, v: nat) returns (h': Index)
    requires Agrees(h, column)
    ensures Agrees(h', column + [v])
  {
    var i, b := |h.entries|, v % HASH_TABLE_SIZE;
    var entries := h.entries + [Entry(None, v, i)];
    if h.heads[b].Some? {
      var last := LastInChain(h, column, h.heads[b].value);
      ChainExtended(h, column, v, last);
      h' := Index(h.heads, entries[last := entries[last].(next := Some(i))]);
    } else {
      ChainStarted(h, column, v);
      h' := Index(h.heads[b := Some(i)], entries);
    }
  }

  lemma AllNextAfterAppend(column: seq<nat>, v: nat)
    ensures forall from, b :: 0 <= from <= |column| && 0 <= b < HASH_TABLE_SIZE ==>
      NextInBucket(column + [v], b, from) ==
        if NextInBucket(column, b, from).Some? then NextInBucket(column, b, from)
        else if Bucket(v) == b then Some(|column|) else None
  {
    forall from, b | 0 <= from <= |column| && 0 <= b < HASH_TABLE_SIZE {
      NextAfterAppend(column, v, b, from);
    }
  }

  lemma ChainExtended(h: Index, column: seq<nat>, v: nat, last: nat)
    requires Agrees(h, column) && last < |column| && Bucket(column[last]) == Bucket(v) && h.entries[last].next == None
    ensures var entries, i := h.entries + [Entry(None, v, |h.entries|)], |h.entries|;
      Agrees(Index(h.heads, entries[last := entries[last].(next := Some(i))]), column + [v])
  {
    AllNextAfterAppend(column, v);
    OnlyLastEnds(h, column, Bucket(v), last);
  }

  lemma ChainStarted(h: Index, column: seq<nat>, v: nat)
    requires Agrees(h, column) && h.heads[Bucket(v)] == None
    ensures Agrees(Index(h.heads[Bucket(v) := Some(|h.entries|)], h.entries + [Entry(None, v, |h.entries|)]), column + [v])
  {
    AllNextAfterAppend(column, v);
    NoneBefore(column, Bucket(v));
  }

  /** In a chain exactly one entry has no successor. */
  lemma OnlyLastEnds(h: Index, column: seq<nat>, b: nat, last: nat)
    requires Agrees(h, column) && last < |column| && Bucket(column[last]) == b && h.entries[last].next == None
    ensures forall i :: 0 <= i < |column| && Bucket(column[i]) == b ==> (h.entries[i].next == None <==> i == last)
    ensures h.heads[b].Some?
  {
  }

  lemma NoneBefore(column: seq<nat>, b: nat)
    requires NextInBucket(column, b, 0) == None
    ensures forall i :: 0 <= i < |column| ==> Bucket(column[i]) != b
  {
  }

  /** The build of the index, row by row. */
  method Build(column: seq<nat>) returns (h: Index)
    ensures Agrees(h, column)
  {
    h := Index(seq(HASH_TABLE_SIZE, _ => None), []);
    ghost var done: seq<nat> := [];
    for i := 0 to |column|
      invariant done == column[..i] && Agrees(h, done)
    {
      h := AddEntry(h, done, column[i]);
      done := done + [column[i]];
    }
    assert done == column;
  }

  // ---------------------------------------------------------------------------------------------
  // Searching
  // ---------------------------------------------------------------------------------------------

  /** The first row at or after `from` whose cell is val. */
  function NextMatch(column: seq<nat>, val: nat, from: nat): (n: Option<nat>)
    requires from <= |column|
    ensures n.Some? ==> from <= n.value < |column| && column[n.value] == val
    ensures forall i :: from <= i < (if n.Some? then n.value else |column|) ==> column[i] != val
    decreases |column| - from
  {
    if from == |column| then None
    else if column[from] == val then Some(from)
    else NextMatch(column, val, from + 1)
  }

  /** The row that a search with this handle starts from. */
  function After(handle: Option<nat>): nat { if handle.None? then 0 else handle.value + 1 }

  /** Following a chain to the next entry with the value finds the next matching row. */
  method Search(h: Index, ghost column: seq<nat>, val: nat, handle: Option<nat>) returns (entry: Option<nat>)
    requires Agrees(h, column) && (handle.Some? ==> handle.value < |column| && column[handle.value] == val)
    ensures entry == NextMatch(column, val, After(handle))
    ensures entry.Some? ==> h.entries[entry.value].row == entry.value
  {
    ghost var from := After(handle);
    ghost var at := from;
    if handle.None? {
      entry := h.heads[val % HASH_TABLE_SIZE];
    } else {
      entry := h.entries[handle.value].next;
    }
    while entry.Some? && h.entries[entry.value].value != val
      invariant from <= at <= |column|
      invariant entry == NextInBucket(column, Bucket(val), at)
      invariant NextMatch(column, val, from) == NextMatch(column, val, at)
      decreases |column| - at
    {
      MatchSkips(column, val, at);
      at := entry.value + 1;
      entry := h.entries[entry.value].next;
    }
    MatchSkips(column, val, at);
  }

  /** Rows of other buckets do not match. */
  lemma {:induction false} MatchSkips(column: seq<nat>, val: nat, from: nat)
    requires from <= |column|
    ensures var n := NextInBucket(column, Bucket(val), from);
      NextMatch(column, val, from) ==
        if n.None? then None else if column[n.value] == val then n else NextMatch(column, val, n.value + 1)
    decreases |column| - from
  {
    if from < |column| {
      MatchSkips(column, val, from + 1);
    }
  }

  /** What iterating from a null handle yields. */
  function Matches(column: seq<nat>, val: nat, from: nat): seq<nat>
    requires from <= |column|
    decreases |column| - from
  {
    match NextMatch(column, val, from)
    case None => []
    case Some(i) => [i] + Matches(column, val, i + 1)
  }

  /** An iteration that has yielded `before` and stands at a handle, or has ended, yields all matches. */
  ghost predicate Iterates(column: seq<nat>, val: nat, before: seq<nat>, handle: Option<nat>, more: bool) {
    && (handle.Some? ==> handle.value < |column| && column[handle.value] == val)
    && Matches(column, val, 0) == if more then before + Matches(column, val, After(handle)) else before
  }

  lemma IteratesOn(column: seq<nat>, val: nat, before: seq<nat>, handle: Option<nat>, next: Option<nat>)
    requires Iterates(column, val, before, handle, true) && next == NextMatch(column, val, After(handle))
    ensures next.None? ==> Iterates(column, val, before, next, false)
    ensures next.Some? ==> Iterates(column, val, before + [next.value], next, true)
  {
  }

  /** Exactly the rows whose cell is val, in ascending order. */
  lemma {:induction false} MatchesExact(column: seq<nat>, val: nat, from: nat)
    requires from <= |column|
    ensures forall i :: i in Matches(column, val, from) <==> from <= i < |column| && column[i] == val
    ensures forall a, b :: 0 <= a < b < |Matches(column, val, from)| ==>
      Matches(column, val, from)[a] < Matches(column, val, from)[b]
    decreases |column| - from
  {
    match NextMatch(column, val, from) {
      case None =>
      case Some(i) =>
        MatchesExact(column, val, i + 1);
        var rest := Matches(column, val, i + 1);
        assert forall a :: 0 <= a < |rest| ==> rest[a] in rest;
        assert Matches(column, val, from) == [i] + rest;
    }
  }

  // ---------------------------------------------------------------------------------------------
  // Searching through the index of a column that has gained a cell since
  // ---------------------------------------------------------------------------------------------

  lemma MatchesStep(column: seq<nat>, val: nat, from: nat)
    requires from < |column|
    ensures Matches(column, val, from) == (if column[from] == val then [from] else []) + Matches(column, val, from + 1)
  {
  }

  lemma {:induction false} MatchesBelow(a: seq<nat>, column: seq<nat>, val: nat, from: nat)
    requires from <= |a| <= |column|
    requires forall k :: 0 <= k < |a| ==> column[k] == a[k]
    ensures Matches(column, val, from) == Matches(a, val, from) + Matches(column, val, |a|)
    decreases |a| - from
  {
    if from < |a| {
      MatchesBelow(a, column, val, from + 1);
      MatchesStep(a, val, from);
      MatchesStep(column, val, from);
      ConcatAssociative(if a[from] == val then [from] else [], Matches(a, val, from + 1), Matches(column, val, |a|));
    }
  }

  /** Row numbers one higher. */
  function Raised(rows: seq<nat>): (raised: seq<nat>)
    ensures |raised| == |rows| && forall k :: 0 <= k < |rows| ==> raised[k] == rows[k] + 1
  {
    seq(|rows|, k requires 0 <= k < |rows| => rows[k] + 1)
  }

  lemma RaisedFirst(first: nat, rows: seq<nat>)
    ensures Raised([first] + rows) == [first + 1] + Raised(rows)
    ensures Raised([] + rows) == [] + Raised(rows)
  {
    assert [] + rows == rows;
  }

  lemma {:induction false} MatchesRaised(column: seq<nat>, more: seq<nat>, val: nat, from: nat)
    requires from <= |column| && |more| == |column| + 1
    requires forall k :: from <= k < |column| ==> more[k + 1] == column[k]
    ensures Matches(more, val, from + 1) == Raised(Matches(column, val, from))
    decreases |column| - from
  {
    if from < |column| {
      MatchesRaised(column, more, val, from + 1);
      MatchesStep(column, val, from);
      MatchesStep(more, val, from + 1);
      RaisedFirst(from, Matches(column, val, from + 1));
    }
  }

  /** A lookup through the index of the column as it was before cell x came in at place i: it finds the
      rows above the place, misses the new row, and gives the rows below under their old numbers. It is
      right exactly for the values that are neither the new one nor found at or below the place. */
  lemma StaleLookup(column: seq<nat>, i: nat, x: nat, val: nat)
    requires i <= |column|
    ensures var more := column[..i] + [x] + column[i..];
      var above, below := Matches(column[..i], val, 0), Matches(column, val, i);
      && Matches(column, val, 0) == above + below
      && Matches(more, val, 0) == above + (if x == val then [i] else []) + Raised(below)
      && (Matches(more, val, 0) == Matches(column, val, 0) <==> x != val && below == [])
  {
    var more := column[..i] + [x] + column[i..];
    var above, below := Matches(column[..i], val, 0), Matches(column, val, i);
    MatchesBelow(column[..i], column, val, 0);
    MatchesBelow(column[..i], more, val, 0);
    MatchesStep(more, val, i);
    MatchesRaised(column, more, val, i);
    ListsDiffer(above, below, if x == val then [i] else []);
  }

  lemma ListsDiffer(above: seq<nat>, below: seq<nat>, new_: seq<nat>)
    requires |new_| <= 1
    ensures above + new_ + Raised(below) == above + (new_ + Raised(below))
    ensures above + new_ + Raised(below) == above + below <==> new_ == [] && below == []
  {
    if new_ == [] && below != [] {
      assert (above + new_ + Raised(below))[|above|] == below[0] + 1;
      assert (above + below)[|above|] == below[0];
    } else if new_ != [] {
      assert |above + new_ + Raised(below)| > |above + below|;
    }
  }
}
