/** The string interning table as a value (libmsi/string.c): its invariant, what adding a string does
    to it, and what any run of additions keeps. */
module StringPools {
  import opened Prelude

  const MAX_COUNT := 0xffff

  /** One msistring: two 16-bit reference counts and the text. */
  datatype Slot = Slot(persistent: nat, nonpersistent: nat, str: Option<Str>)

  const FREE := Slot(0, 0, None)

  /** `sorted` is the part of the index in use, sorted[0..sortcount). */
  datatype Pool = Pool(slots: seq<Slot>, sorted: seq<nat>, freeslot: nat, codepage: nat)

  predicate Used(s: Slot) { s.persistent != 0 || s.nonpersistent != 0 }

  predicate InUse(slots: seq<Slot>, id: nat) { id < |slots| && Used(slots[id]) }

  /** The text of a slot, a missing one reading as empty. */
  function TextOf(slots: seq<Slot>, id: nat): Str {
    if id < |slots| && slots[id].str.Some? then slots[id].str.value else []
  }

  ghost predicate SlotOk(s: Slot) {
    && s.persistent <= MAX_COUNT && s.nonpersistent <= MAX_COUNT
    && (Used(s) ==> s.str.Some? && s.str.value != [] && NulFree(s.str.value))
    && (!Used(s) ==> s.str.None?)
  }

  ghost predicate SlotsOk(slots: seq<Slot>) {
    && |slots| >= 1 && slots[0] == FREE
    && forall i :: 0 <= i < |slots| ==> SlotOk(slots[i])
  }

  /** Strictly increasing by strcmp. */
  ghost predicate Increasing(slots: seq<Slot>, sorted: seq<nat>) {
    forall i, j :: 0 <= i < j < |sorted| ==> Lex(TextOf(slots, sorted[i]), TextOf(slots, sorted[j])) < 0
  }

  /** The index lists exactly the ids in use. */
  ghost predicate Indexes(slots: seq<Slot>, sorted: seq<nat>) {
    forall id: nat :: id in sorted <==> InUse(slots, id)
  }

  ghost predicate Valid(p: Pool) {
    && SlotsOk(p.slots)
    && Increasing(p.slots, p.sorted)
    && Indexes(p.slots, p.sorted)
    && 1 <= p.freeslot <= |p.slots|
  }

  function FreeSlots(n: nat): (slots: seq<Slot>)
    ensures |slots| == n
    ensures forall i :: 0 <= i < n ==> slots[i] == FREE
  {
    seq(n, _ => FREE)
  }

  /** init_stringtable. */
  function Init(entries: nat, codepage: nat): Pool {
    Pool(FreeSlots(if entries < 1 then 1 else entries), [], 1, codepage)
  }

  // ---------------------------------------------------------------------------------------------
  // Lookup
  // ---------------------------------------------------------------------------------------------

  ghost predicate Present(p: Pool, s: Str) {
    exists id: nat :: InUse(p.slots, id) && TextOf(p.slots, id) == s
  }

  ghost function IdOf(p: Pool, s: Str): (id: nat)
    requires Present(p, s)
    ensures InUse(p.slots, id) && TextOf(p.slots, id) == s
  {
    var id: nat :| InUse(p.slots, id) && TextOf(p.slots, id) == s;
    id
  }

  /** Different ids hold different strings. */
  lemma TextsDistinct(p: Pool, a: nat, b: nat)
    requires Increasing(p.slots, p.sorted) && Indexes(p.slots, p.sorted)
    requires InUse(p.slots, a) && InUse(p.slots, b)
    ensures a == b <==> TextOf(p.slots, a) == TextOf(p.slots, b)
  {
    var i :| 0 <= i < |p.sorted| && p.sorted[i] == a;
    var j :| 0 <= j < |p.sorted| && p.sorted[j] == b;
    LexZero(TextOf(p.slots, a), TextOf(p.slots, b));
    LexAntisymmetric(TextOf(p.slots, a), TextOf(p.slots, b));
  }

  // ---------------------------------------------------------------------------------------------
  // Addition
  // ---------------------------------------------------------------------------------------------

  /** Number of leading index entries whose text is smaller than s. */
  function Rank(slots: seq<Slot>, sorted: seq<nat>, s: Str): (r: nat)
    ensures r <= |sorted|
    ensures forall i :: 0 <= i < r ==> Lex(TextOf(slots, sorted[i]), s) < 0
    ensures r < |sorted| ==> Lex(TextOf(slots, sorted[r]), s) >= 0
  {
    if sorted == [] || Lex(TextOf(slots, sorted[0]), s) >= 0 then 0
    else 1 + Rank(slots, sorted[1..], s)
  }

  function InsertAt(sorted: seq<nat>, i: nat, id: nat): seq<nat>
    requires i <= |sorted|
  {
    sorted[..i] + [id] + sorted[i..]
  }

  /** insert_string_sorted: a string that is indexed already is left alone. */
  function Indexed(slots: seq<Slot>, sorted: seq<nat>, id: nat): seq<nat> {
    var s := TextOf(slots, id);
    var r := Rank(slots, sorted, s);
    if r < |sorted| && Lex(TextOf(slots, sorted[r]), s) == 0 then sorted
    else InsertAt(sorted, r, id)
  }

  /** set_st_entry. */
  function SetEntry(p: Pool, n: nat, s: Str, refcount: nat, persistent: bool): Pool
    requires n < |p.slots|
  {
    var slots := p.slots[n := if persistent then Slot(refcount, 0, Some(s)) else Slot(0, refcount, Some(s))];
    Pool(slots, Indexed(slots, p.sorted, n), n + 1, p.codepage)
  }

  /** The first free slot in [from, |slots|), or |slots|. */
  function FirstFree(slots: seq<Slot>, from: nat): (n: nat)
    requires from <= |slots|
    ensures from <= n <= |slots|
    ensures n < |slots| ==> !Used(slots[n])
    ensures forall i :: from <= i < n ==> Used(slots[i])
    decreases |slots| - from
  {
    if from == |slots| || !Used(slots[from]) then from else FirstFree(slots, from + 1)
  }

  /** Size after a dynamic resize. */
  function Grown(maxcount: nat): nat { maxcount + 1 + maxcount / 2 }

  /** st_find_free_entry: the slot, and the table, grown when nothing was free. */
  function FindFree(p: Pool): (Pool, nat)
    requires |p.slots| >= 1 && 1 <= p.freeslot <= |p.slots|
  {
    var n := FirstFree(p.slots, p.freeslot);
    if n < |p.slots| then (p, n)
    else
      var m := FirstFree(p.slots, 1);
      if m < |p.slots| then (p, m)
      else
        var maxcount := |p.slots|;
        (p.(slots := p.slots + FreeSlots(Grown(maxcount) - maxcount), freeslot := maxcount), maxcount)
  }

  /** The 16-bit counts of an existing string after another reference. */
  function Bumped(s: Slot, refcount: nat, persistent: bool): Slot {
    if persistent then s.(persistent := (s.persistent + refcount) % TWO16)
    else s.(nonpersistent := (s.nonpersistent + refcount) % TWO16)
  }

  /** _libmsi_add_string with a NUL-terminated string; the empty string has id 0. */
  ghost function Add(p: Pool, s: Str, refcount: nat, persistent: bool): (Pool, nat)
    requires |p.slots| >= 1 && 1 <= p.freeslot <= |p.slots|
  {
    if s == [] then (p, 0)
    else if Present(p, s) then
      var n := IdOf(p, s);
      (p.(slots := p.slots[n := Bumped(p.slots[n], refcount, persistent)]), n)
    else
      var (q, n) := FindFree(p);
      (SetEntry(q, n, s, refcount, persistent), n)
  }

  /** The addition leaves the string with a non-zero count: a fresh string needs a reference, and the
      16-bit count of an old one must not wrap round to nothing. */
  ghost predicate Counted(p: Pool, s: Str, refcount: nat, persistent: bool) {
    s != [] ==>
      if Present(p, s) then Used(Bumped(p.slots[IdOf(p, s)], refcount, persistent)) else refcount != 0
  }

  // ---------------------------------------------------------------------------------------------
  // One step keeps the invariant
  // ---------------------------------------------------------------------------------------------

  /** What follows a text that is not smaller than s is larger than s. */
  lemma LargerAbove(slots: seq<Slot>, sorted: seq<nat>, s: Str, r: nat, k: nat)
    requires Increasing(slots, sorted) && r <= k < |sorted|
    requires TextOf(slots, sorted[r]) != s && Lex(TextOf(slots, sorted[r]), s) >= 0
    ensures Lex(s, TextOf(slots, sorted[k])) < 0
  {
    var first, last := TextOf(slots, sorted[r]), TextOf(slots, sorted[k]);
    LexZero(first, s);
    LexAntisymmetric(first, s);
    if r < k {
      LexTransitive(s, first, last);
    }
  }

  lemma InsertBetween(slots: seq<Slot>, sorted: seq<nat>, r: nat, id: nat)
    requires Increasing(slots, sorted) && r <= |sorted|
    requires forall k :: 0 <= k < r ==> Lex(TextOf(slots, sorted[k]), TextOf(slots, id)) < 0
    requires forall k :: r <= k < |sorted| ==> Lex(TextOf(slots, id), TextOf(slots, sorted[k])) < 0
    ensures Increasing(slots, InsertAt(sorted, r, id))
  {
    var more := InsertAt(sorted, r, id);
    assert forall i :: 0 <= i < r ==> more[i] == sorted[i];
    assert forall i :: r < i < |more| ==> more[i] == sorted[i - 1];
  }

  /** Inserting at the rank keeps the index increasing. */
  lemma InsertIncreasing(slots: seq<Slot>, sorted: seq<nat>, id: nat)
    requires Increasing(slots, sorted)
    requires forall i :: 0 <= i < |sorted| ==> TextOf(slots, sorted[i]) != TextOf(slots, id)
    ensures var r := Rank(slots, sorted, TextOf(slots, id));
      Indexed(slots, sorted, id) == InsertAt(sorted, r, id)
    ensures Increasing(slots, Indexed(slots, sorted, id))
  {
    var s := TextOf(slots, id);
    var r := Rank(slots, sorted, s);
    forall k | r <= k < |sorted|
      ensures Lex(s, TextOf(slots, sorted[k])) < 0
    {
      LargerAbove(slots, sorted, s, r, k);
    }
    InsertBetween(slots, sorted, r, id);
    if r < |sorted| {
      LexZero(TextOf(slots, sorted[r]), s);
    }
  }

  /** A free slot that receives a string not present yet. */
  lemma SetEntryValid(p: Pool, n: nat, s: Str, refcount: nat, persistent: bool)
    requires Valid(p) && 1 <= n < |p.slots| && !Used(p.slots[n])
    requires s != [] && NulFree(s) && !Present(p, s) && 1 <= refcount <= MAX_COUNT
    ensures Valid(SetEntry(p, n, s, refcount, persistent))
  {
    var q := SetEntry(p, n, s, refcount, persistent);
    forall i | 0 <= i < |p.sorted|
      ensures TextOf(p.slots, p.sorted[i]) == TextOf(q.slots, p.sorted[i])
      ensures TextOf(q.slots, p.sorted[i]) != TextOf(q.slots, n)
    {
      assert p.sorted[i] in p.sorted;
      assert InUse(p.slots, p.sorted[i]);
    }
    InsertIncreasing(q.slots, p.sorted, n);
    var r := Rank(q.slots, p.sorted, TextOf(q.slots, n));
    forall id: nat
      ensures id in q.sorted <==> InUse(q.slots, id)
    {
      InsertedMember(p.sorted, r, n, id);
    }
  }

  lemma InsertedMember(list: seq<nat>, r: nat, n: nat, id: nat)
    requires r <= |list|
    ensures id in list[..r] + [n] + list[r..] <==> id in list || id == n
  {
    assert list == list[..r] + list[r..];
  }

  /** Growing the table adds free slots only. */
  lemma GrowValid(p: Pool)
    requires Valid(p)
    ensures var (q, n) := FindFree(p);
      && Valid(q) && 1 <= n < |q.slots| && !Used(q.slots[n])
      && p.slots <= q.slots && q.sorted == p.sorted && q.codepage == p.codepage
      && (forall s :: Present(q, s) <==> Present(p, s))
  {
    var (q, n) := FindFree(p);
    assert forall id: nat :: InUse(q.slots, id) <==> InUse(p.slots, id);
    assert forall id: nat :: InUse(p.slots, id) ==> TextOf(q.slots, id) == TextOf(p.slots, id);
    forall i | 0 <= i < |p.sorted|
      ensures TextOf(p.slots, p.sorted[i]) == TextOf(q.slots, p.sorted[i])
    {
      assert p.sorted[i] in p.sorted;
    }
    forall s
      ensures Present(q, s) <==> Present(p, s)
    {
    }
  }

  /** Ids that are handed out keep their text, whatever is added. */
  ghost predicate KeepsIds(p: Pool, q: Pool) {
    forall id: nat :: InUse(p.slots, id) ==> InUse(q.slots, id) && TextOf(q.slots, id) == TextOf(p.slots, id)
  }

  /** An addition that leaves the string counted keeps the invariant and every id, and the string ends
      up present under the id returned. */
  lemma AddKeeps(p: Pool, s: Str, refcount: nat, persistent: bool)
    requires Valid(p) && NulFree(s) && refcount <= MAX_COUNT && Counted(p, s, refcount, persistent)
    ensures var (q, id) := Add(p, s, refcount, persistent);
      && Valid(q) && KeepsIds(p, q) && q.codepage == p.codepage
      && (s != [] ==> InUse(q.slots, id)) && TextOf(q.slots, id) == s
  {
    if s == [] {
    } else if Present(p, s) {
      BumpKeeps(p, IdOf(p, s), refcount, persistent);
    } else {
      var (q, n) := FindFree(p);
      GrowValid(p);
      SetEntryValid(q, n, s, refcount, persistent);
    }
  }

  lemma BumpKeeps(p: Pool, n: nat, refcount: nat, persistent: bool)
    requires Valid(p) && InUse(p.slots, n) && refcount <= MAX_COUNT
    requires Used(Bumped(p.slots[n], refcount, persistent))
    ensures var q := p.(slots := p.slots[n := Bumped(p.slots[n], refcount, persistent)]);
      Valid(q) && KeepsIds(p, q)
  {
    var q := p.(slots := p.slots[n := Bumped(p.slots[n], refcount, persistent)]);
    assert forall id: nat :: TextOf(q.slots, id) == TextOf(p.slots, id);
    assert forall id: nat :: InUse(q.slots, id) <==> InUse(p.slots, id);
  }

  /** The condition is exact: an addition that leaves its string uncounted breaks the invariant, since
      the index then lists a slot that counts as free. */
  lemma AddBreaks(p: Pool, s: Str, refcount: nat, persistent: bool)
    requires Valid(p) && NulFree(s) && refcount <= MAX_COUNT && !Counted(p, s, refcount, persistent)
    ensures var (q, id) := Add(p, s, refcount, persistent);
      !Valid(q) && id in q.sorted && !InUse(q.slots, id)
  {
    if Present(p, s) {
      var n := IdOf(p, s);
      assert n in p.sorted;
    } else {
      var (q, n) := FindFree(p);
      GrowValid(p);
      var slots := SetEntry(q, n, s, refcount, persistent).slots;
      forall i | 0 <= i < |q.sorted|
        ensures TextOf(slots, q.sorted[i]) == TextOf(q.slots, q.sorted[i]) != s
      {
        assert q.sorted[i] in q.sorted;
      }
      InsertIncreasing(slots, q.sorted, n);
      assert n in SetEntry(q, n, s, refcount, persistent).sorted;
    }
  }

  /** A table with one string. */
  function OneString(s: Str, count: nat): Pool { Pool([FREE, Slot(count, 0, Some(s))], [1], 2, 0) }

  lemma OneStringValid(s: Str, count: nat)
    requires s != [] && NulFree(s) && 1 <= count <= MAX_COUNT
    ensures Valid(OneString(s, count))
    ensures Present(OneString(s, count), s) && IdOf(OneString(s, count), s) == 1
  {
    var p := OneString(s, count);
    assert InUse(p.slots, 1) && TextOf(p.slots, 1) == s;
  }

  /** One reference too many to a string, and the next new string is given the same id. */
  lemma IdReused(s: Str, t: Str)
    requires s != [] && t != [] && s != t && NulFree(s) && NulFree(t)
    ensures var p := OneString(s, MAX_COUNT);
      var (q, id) := Add(p, s, 1, true);
      && Valid(p) && !Counted(p, s, 1, true) && id == 1
      && 1 <= q.freeslot <= |q.slots| && Add(q, t, 1, true).1 == 1
  {
    var p := OneString(s, MAX_COUNT);
    OneStringValid(s, MAX_COUNT);
    var (q, id) := Add(p, s, 1, true);
    assert q.slots == [FREE, Slot(0, 0, Some(s))];
    assert !Present(q, t);
    assert FirstFree(q.slots, 2) == 2 && FirstFree(q.slots, 1) == 1;
  }

  // ---------------------------------------------------------------------------------------------
  // Every run
  // ---------------------------------------------------------------------------------------------

  datatype Request = Request(s: Str, refcount: nat, persistent: bool)

  ghost predicate Acceptable(p: Pool, r: Request) {
    NulFree(r.s) && r.refcount <= MAX_COUNT && Counted(p, r.s, r.refcount, r.persistent)
  }

  /** Every addition of the run is acceptable where it happens. */
  ghost predicate RunAcceptable(p: Pool, run: seq<Request>)
    requires Valid(p)
    decreases |run|
  {
    run != [] ==>
      && Acceptable(p, run[0])
      && (AddKeeps(p, run[0].s, run[0].refcount, run[0].persistent);
          RunAcceptable(Add(p, run[0].s, run[0].refcount, run[0].persistent).0, run[1..]))
  }

  /** The table after a run, and the ids it returned. */
  ghost function Run(p: Pool, run: seq<Request>): (result: (Pool, seq<nat>))
    requires Valid(p) && RunAcceptable(p, run)
    ensures |result.1| == |run|
    decreases |run|
  {
    if run == [] then (p, [])
    else
      AddKeeps(p, run[0].s, run[0].refcount, run[0].persistent);
      var (q, id) := Add(p, run[0].s, run[0].refcount, run[0].persistent);
      var (last, ids) := Run(q, run[1..]);
      (last, [id] + ids)
  }

  /** Interning: after any run the table is valid, ids handed out before and during it keep their
      strings, and two requests got the same id exactly when they had the same string. */
  lemma {:induction false} RunInterns(p: Pool, run: seq<Request>)
    requires Valid(p) && RunAcceptable(p, run)
    ensures var (q, ids) := Run(p, run);
      && Valid(q) && KeepsIds(p, q)
      && (forall i :: 0 <= i < |run| ==> TextOf(q.slots, ids[i]) == run[i].s)
      && (forall i :: 0 <= i < |run| && run[i].s != [] ==> InUse(q.slots, ids[i]))
    decreases |run|
  {
    if run != [] {
      AddKeeps(p, run[0].s, run[0].refcount, run[0].persistent);
      var (next, id) := Add(p, run[0].s, run[0].refcount, run[0].persistent);
      RunInterns(next, run[1..]);
    }
  }

  lemma IdsAgree(p: Pool, run: seq<Request>, i: nat, j: nat)
    requires Valid(p) && RunAcceptable(p, run) && i < |run| && j < |run|
    ensures Run(p, run).1[i] == Run(p, run).1[j] <==> run[i].s == run[j].s
  {
    RunInterns(p, run);
    var (q, ids) := Run(p, run);
    if run[i].s != [] && run[j].s != [] {
      TextsDistinct(q, ids[i], ids[j]);
    } else {
      EmptyHasIdZero(p, run, i);
      EmptyHasIdZero(p, run, j);
    }
  }

  lemma {:induction false} EmptyHasIdZero(p: Pool, run: seq<Request>, i: nat)
    requires Valid(p) && RunAcceptable(p, run) && i < |run|
    ensures run[i].s == [] ==> Run(p, run).1[i] == 0
    decreases |run|
  {
    AddKeeps(p, run[0].s, run[0].refcount, run[0].persistent);
    if i > 0 {
      EmptyHasIdZero(Add(p, run[0].s, run[0].refcount, run[0].persistent).0, run[1..], i - 1);
    }
  }
}
