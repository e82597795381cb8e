/** The string interning table as the code keeps it: a slot array, an index array and a free-slot hint
    (libmsi/string.c). Every method is tied to the value model of StringPools and StringCodec. */
module StringTables {
  import opened Prelude
  import opened LittleEndian
  import opened StringPools
  import opened StringCodec

  /** The rank is the only place that separates smaller from not smaller texts. */
  lemma {:induction false} RankIs(slots: seq<Slot>, sorted: seq<nat>, s: Str, r: nat)
    requires r <= |sorted|
    requires forall k :: 0 <= k < r ==> Lex(TextOf(slots, sorted[k]), s) < 0
    requires r < |sorted| ==> Lex(TextOf(slots, sorted[r]), s) >= 0
    ensures Rank(slots, sorted, s) == r
  {
    if r > 0 {
      RankIs(slots, sorted[1..], s, r - 1);
    }
  }

  /** In an increasing index, comparing with entry i settles every entry on one side of it. */
  lemma BinaryStep(slots: seq<Slot>, sorted: seq<nat>, s: Str, i: nat)
    requires Increasing(slots, sorted) && i < |sorted|
    ensures Lex(s, TextOf(slots, sorted[i])) > 0 ==> forall k :: 0 <= k <= i ==> Lex(TextOf(slots, sorted[k]), s) < 0
    ensures Lex(s, TextOf(slots, sorted[i])) <= 0 ==> forall k :: i < k < |sorted| ==> Lex(TextOf(slots, sorted[k]), s) > 0
    ensures Lex(s, TextOf(slots, sorted[i])) < 0 ==> Lex(TextOf(slots, sorted[i]), s) > 0
  {
    var t := TextOf(slots, sorted[i]);
    LexAntisymmetric(s, t);
    LexZero(s, t);
    forall k | 0 <= k < |sorted|
      ensures k < i && Lex(t, s) < 0 ==> Lex(TextOf(slots, sorted[k]), s) < 0
      ensures k > i && Lex(s, t) <= 0 ==> Lex(TextOf(slots, sorted[k]), s) > 0
    {
      var u := TextOf(slots, sorted[k]);
      LexAntisymmetric(s, u);
      if k < i && Lex(t, s) < 0 {
        LexTransitive(u, t, s);
      }
      if k > i && Lex(s, t) < 0 {
        LexTransitive(s, t, u);
      }
    }
  }

  lemma FoundAt(p: Pool, s: Str, i: nat)
    requires Valid(p) && i < |p.sorted| && Lex(s, TextOf(p.slots, p.sorted[i])) == 0
    ensures Present(p, s) && p.sorted[i] == IdOf(p, s)
  {
    LexZero(s, TextOf(p.slots, p.sorted[i]));
    assert p.sorted[i] in p.sorted;
    TextsDistinct(p, p.sorted[i], IdOf(p, s));
  }

  lemma AbsentText(p: Pool, s: Str)
    requires Valid(p) && forall k :: 0 <= k < |p.sorted| ==> Lex(TextOf(p.slots, p.sorted[k]), s) != 0
    ensures !Present(p, s)
  {
    forall id: nat | InUse(p.slots, id)
      ensures TextOf(p.slots, id) != s
    {
      assert id in p.sorted;
      LexZero(TextOf(p.slots, id), s);
    }
  }

  /** memmove of the tail by one place, then the new entry. */
  lemma ShiftedIn(before: seq<nat>, after: seq<nat>, i: nat, id: nat)
    requires i <= |before| && |after| == |before| + 1
    requires forall k :: 0 <= k < i ==> after[k] == before[k]
    requires after[i] == id
    requires forall k :: i < k < |after| ==> after[k] == before[k - 1]
    ensures after == InsertAt(before, i, id)
  {
  }

  class StringTable {
    var maxcount: nat
    var freeslot: nat
    var codepage: nat
    var sortcount: nat
    var strings: array<Slot>
    var sorted: array<nat>

    predicate Shape()
      reads this
    {
      strings.Length == sorted.Length == maxcount >= 1 && sortcount <= maxcount && 1 <= freeslot <= maxcount
    }

    /** The value this table stands for. */
    function Model(): Pool
      requires Shape()
      reads this, strings, sorted
    {
      Pool(strings[..], sorted[..sortcount], freeslot, codepage)
    }

    ghost predicate Sound()
      reads this, strings, sorted
    {
      Shape() && Valid(Model())
    }

    /** init_stringtable. */
    constructor (entries: nat, codepage: nat)
      ensures Shape() && Model() == Init(entries, codepage)
      ensures fresh(strings) && fresh(sorted)
    {
      var n := if entries < 1 then 1 else entries;
      maxcount, freeslot, sortcount := n, 1, 0;
      this.codepage := codepage;
      strings := new Slot[n](_ => FREE);
      sorted := new nat[n](_ => 0);
    }

    /** msi_string_lookup_id; None is a null pointer. */
    method LookupId(id: nat) returns (s: Option<Str>)
      requires Shape()
      ensures id == 0 ==> s == Some([])
      ensures id > 0 && !InUse(strings[..], id) ==> s == None
      ensures id > 0 && InUse(strings[..], id) ==> s == strings[id].str
    {
      if id == 0 {
        return Some([]);
      }
      if id >= maxcount {
        return None;
      }
      if strings[id].persistent == 0 && strings[id].nonpersistent == 0 {
        return None;
      }
      s := strings[id].str;
    }

    /** _libmsi_id_from_string_utf8: binary search succeeds exactly when the string is present. */
    method IdFromString(s: Str) returns (r: Status, id: nat)
      requires Sound()
      ensures r == Success || r == InvalidParameter
      ensures r == Success <==> Present(Model(), s)
      ensures r == Success ==> id == IdOf(Model(), s)
    {
      ghost var m := Model();
      id := 0;
      var low, high := 0, sortcount - 1;
      while low <= high
        invariant 0 <= low <= high + 1 <= sortcount
        invariant forall k :: 0 <= k < low ==> Lex(TextOf(m.slots, m.sorted[k]), s) < 0
        invariant forall k :: high < k < sortcount ==> Lex(TextOf(m.slots, m.sorted[k]), s) > 0
        decreases high - low
      {
        var i := (low + high) / 2;
        var text := TextAtSlot(sorted[i]);
        BinaryStep(m.slots, m.sorted, s, i);
        var c := Lex(s, text);
        if c < 0 {
          high := i - 1;
        } else if c > 0 {
          low := i + 1;
        } else {
          FoundAt(m, s, i);
          return Success, sorted[i];
        }
      }
      AbsentText(m, s);
      r := InvalidParameter;
    }

    /** The text pointer of a slot, dereferenced. */
    function TextAtSlot(id: nat): (s: Str)
      requires Shape()
      reads this, strings
      ensures s == TextOf(strings[..], id)
    {
      if id < maxcount && strings[id].str.Some? then strings[id].str.value else []
    }

    /** find_insert_index: -1 when the text is indexed already, else its rank. */
    method FindInsertIndex(id: nat) returns (at: int)
      requires Shape() && Increasing(Model().slots, Model().sorted)
      ensures var m := Model(); var s := TextOf(m.slots, id); var r := Rank(m.slots, m.sorted, s);
        at == if r < |m.sorted| && Lex(TextOf(m.slots, m.sorted[r]), s) == 0 then -1 else r
    {
      ghost var m := Model();
      var s := TextAtSlot(id);
      var low, high := 0, sortcount - 1;
      while low <= high
        invariant 0 <= low <= high + 1 <= sortcount
        invariant forall k :: 0 <= k < low ==> Lex(TextOf(m.slots, m.sorted[k]), s) < 0
        invariant forall k :: high < k < sortcount ==> Lex(TextOf(m.slots, m.sorted[k]), s) > 0
        decreases high - low
      {
        var i := (low + high) / 2;
        var text := TextAtSlot(sorted[i]);
        BinaryStep(m.slots, m.sorted, s, i);
        var c := Lex(s, text);
        if c < 0 {
          high := i - 1;
        } else if c > 0 {
          low := i + 1;
        } else {
          LexAntisymmetric(s, text);
          if i > 0 {
            LexZero(s, text);
          }
          RankIs(m.slots, m.sorted, s, i);
          return -1;
        }
      }
      RankIs(m.slots, m.sorted, s, low);
      at := high + 1;
    }

    /** insert_string_sorted. */
    method InsertStringSorted(id: nat)
      requires Shape() && Increasing(Model().slots, Model().sorted) && sortcount < maxcount
      modifies this`sortcount, sorted
      ensures Shape()
      ensures Model() == old(Model()).(sorted := Indexed(old(strings[..]), old(sorted[..sortcount]), id))
    {
      var i := FindInsertIndex(id);
      if i == -1 {
        return;
      }
      PutAt(i, id);
    }

    /** The shift that makes room in the index. */
    method PutAt(i: nat, id: nat)
      requires Shape() && sortcount < maxcount && i <= sortcount
      modifies this`sortcount, sorted
      ensures Shape() && sortcount == old(sortcount) + 1
      ensures sorted[..sortcount] == InsertAt(old(sorted[..sortcount]), i, id)
    {
      ghost var before := sorted[..sortcount];
      forall k | i < k <= sortcount {
        sorted[k] := sorted[k - 1];
      }
      sorted[i] := id;
      sortcount := sortcount + 1;
      ShiftedIn(before, sorted[..sortcount], i, id);
    }

    /** set_st_entry. */
    method SetStEntry(n: nat, s: Str, refcount: nat, persistent: bool)
      requires Shape() && n < maxcount && sortcount < maxcount
      requires Increasing(SetEntrySlots(n, s, refcount, persistent), Model().sorted)
      modifies this`sortcount, this`freeslot, strings, sorted
      ensures Shape()
      ensures Model() == SetEntry(old(Model()), n, s, refcount, persistent)
    {
      if persistent {
        strings[n] := Slot(refcount, 0, Some(s));
      } else {
        strings[n] := Slot(0, refcount, Some(s));
      }
      assert strings[..] == old(SetEntrySlots(n, s, refcount, persistent));
      InsertStringSorted(n);
      if n < maxcount {
        freeslot := n + 1;
      }
    }

    ghost function SetEntrySlots(n: nat, s: Str, refcount: nat, persistent: bool): seq<Slot>
      requires n < strings.Length
      reads this, strings
    {
      strings[..][n := if persistent then Slot(refcount, 0, Some(s)) else Slot(0, refcount, Some(s))]
    }

    method ScanFree(from: nat) returns (n: nat)
      requires Shape() && from <= maxcount
      ensures n == FirstFree(strings[..], from)
    {
      n := from;
      while n < maxcount && (strings[n].persistent != 0 || strings[n].nonpersistent != 0)
        invariant from <= n <= maxcount
        invariant FirstFree(strings[..], from) == FirstFree(strings[..], n)
      {
        n := n + 1;
      }
    }

    /** st_find_free_entry: after the hint, then from the start, then by growing by half. */
    method FindFreeEntry() returns (n: nat)
      requires Shape()
      modifies this`maxcount, this`freeslot, this`strings, this`sorted
      ensures Shape() && (Model(), n) == FindFree(old(Model()))
      ensures strings == old(strings) || fresh(strings)
      ensures sorted == old(sorted) || fresh(sorted)
    {
      n := ScanFree(freeslot);
      if n < maxcount {
        return;
      }
      n := ScanFree(1);
      if n < maxcount {
        return;
      }
      Resize(maxcount + 1 + maxcount / 2);
      n := freeslot;
    }

    /** The dynamic resize: both arrays are reallocated, and the hint is the first new slot. */
    method Resize(sz: nat)
      requires Shape() && sz > maxcount
      modifies this`maxcount, this`freeslot, this`strings, this`sorted
      ensures Shape() && fresh(strings) && fresh(sorted)
      ensures freeslot == old(maxcount)
      ensures var m := old(Model());
        Model() == m.(slots := m.slots + FreeSlots(sz - |m.slots|), freeslot := |m.slots|)
    {
      var p := new Slot[sz](_ => FREE);
      forall i | 0 <= i < maxcount {
        p[i] := strings[i];
      }
      var s := new nat[sz](_ => 0);
      forall i | 0 <= i < maxcount {
        s[i] := sorted[i];
      }
      assert p[..] == strings[..] + FreeSlots(sz - maxcount);
      assert s[..sortcount] == sorted[..sortcount];
      strings, sorted := p, s;
      freeslot := maxcount;
      maxcount := sz;
    }

    /** The index has room for one more id than it lists: slot 0 is never listed. */
    lemma IndexHasRoom()
      requires Sound()
      ensures sortcount < maxcount
    {
      var m := Model();
      forall i, j | 0 <= i < j < |m.sorted|
        ensures m.sorted[i] != m.sorted[j]
      {
        LexZero(TextOf(m.slots, m.sorted[i]), TextOf(m.slots, m.sorted[j]));
      }
      forall i | 0 <= i < |m.sorted|
        ensures m.sorted[i] < maxcount
      {
        assert m.sorted[i] in m.sorted;
      }
      DistinctFits(m.sorted, maxcount);
      assert 0 !in m.sorted;
    }

    method Bump(id: nat, refcount: nat, persistent: bool)
      requires Shape() && id < maxcount
      modifies strings
      ensures Shape()
      ensures var m := old(Model());
        Model() == m.(slots := m.slots[id := Bumped(m.slots[id], refcount, persistent)])
    {
      if persistent {
        strings[id] := strings[id].(persistent := (strings[id].persistent + refcount) % TWO16);
      } else {
        strings[id] := strings[id].(nonpersistent := (strings[id].nonpersistent + refcount) % TWO16);
      }
    }

    /** The second half of _libmsi_add_string: a string that is not there yet. */
    method AddFresh(data: Str, refcount: nat, persistent: bool) returns (n: nat)
      requires Sound() && data != [] && !Present(Model(), data)
      modifies this, strings, sorted
      ensures Shape() && (Model(), n) == Add(old(Model()), data, refcount, persistent)
      ensures strings == old(strings) || fresh(strings)
      ensures sorted == old(sorted) || fresh(sorted)
    {
      GrowValid(Model());
      n := FindFreeEntry();
      IndexHasRoom();
      FreshTextIncreasing(Model(), n, data, refcount, persistent);
      SetStEntry(n, data, refcount, persistent);
    }

    /** _libmsi_add_string. */
    method AddString(data: Str, refcount: nat, persistent: bool) returns (n: nat)
      requires Sound() && refcount <= MAX_COUNT
      modifies this, strings, sorted
      ensures Shape() && (Model(), n) == Add(old(Model()), data, refcount, persistent)
      ensures NulFree(data) ==> (Sound() <==> Counted(old(Model()), data, refcount, persistent))
      ensures strings == old(strings) || fresh(strings)
      ensures sorted == old(sorted) || fresh(sorted)
    {
      ghost var before := Model();
      if data == [] {
        n := 0;
      } else {
        var r;
        r, n := IdFromString(data);
        if r == Success {
          Bump(n, refcount, persistent);
        } else {
          n := AddFresh(data, refcount, persistent);
        }
      }
      if NulFree(data) {
        if Counted(before, data, refcount, persistent) {
          AddKeeps(before, data, refcount, persistent);
        } else {
          AddBreaks(before, data, refcount, persistent);
        }
      }
    }
  }

  /** Filling a free slot does not disturb the index. */
  lemma FreshTextIncreasing(p: Pool, n: nat, s: Str, refcount: nat, persistent: bool)
    requires Valid(p) && n < |p.slots| && !Used(p.slots[n])
    ensures Increasing(SetEntry(p, n, s, refcount, persistent).slots, p.sorted)
  {
    var slots := SetEntry(p, n, s, refcount, persistent).slots;
    forall i | 0 <= i < |p.sorted|
      ensures TextOf(p.slots, p.sorted[i]) == TextOf(slots, p.sorted[i])
    {
      assert p.sorted[i] in p.sorted;
    }
  }
}
