/** Saving and loading the string table through byte buffers (string_totalsize,
    msi_save_string_table and msi_load_string_table in libmsi/string.c). */
module StringTableIo {
  import opened Prelude
  import opened LittleEndian
  import opened StringPools
  import opened StringCodec
  import opened StringTables

  /** validate_codepage. */
  predicate CodepageKnown(c: nat)
    ensures CodepageKnown(c) ==> c < TWO16
  {
    || c in [0, 37, 424, 437, 500, 737, 775, 850, 852, 855, 856, 857, 860, 861, 862, 863, 864, 865, 866, 869]
    || c in [874, 875, 878, 932, 936, 949, 950, 1006, 1026, 1361]
    || 1250 <= c <= 1258
    || c in [10000, 10006, 10007, 10029, 10079, 10081, 20127, 20866, 20932, 21866]
    || 28591 <= c <= 28600
    || 28603 <= c <= 28606
    || c in [65000, 65001]
  }

  /** The Windows code pages, ISO 8859-1 to 10 and 13 to 16, the UTF-7 and UTF-8 ones, the default, and those of
      DOS, EBCDIC, East Asia and the Macintosh that are listed. */
  lemma CodepagesAre(c: nat)
    ensures CodepageKnown(c) <==>
      || 0 <= c - 1250 <= 8 || (1 <= c - 28590 <= 16 && c - 28590 != 11 && c - 28590 != 12)
      || c == 65000 || c == 65001 || c == 0
      || c in {437, 737, 775, 850, 852, 855, 856, 857, 860, 861, 862, 863, 864, 865, 866, 869}
      || c in {37, 424, 500, 875, 1026} || c in {874, 878, 932, 936, 949, 950, 1006, 1361}
      || c in {10000, 10006, 10007, 10029, 10079, 10081} || c in {20127, 20866, 20932, 21866}
  {
  }

  lemma EntriesStep(slots: seq<Slot>, n: nat)
    requires 1 <= n < |slots|
    ensures Entries(slots, n + 1) == Entries(slots, n) + Entry(slots[n])
    ensures Texts(slots, n + 1) == Texts(slots, n) + StoredText(slots[n])
    ensures |Entries(slots, n + 1)| <= |Entries(slots, |slots|)|
    ensures |Texts(slots, n + 1)| <= |Texts(slots, |slots|)|
  {
    var _ := EntriesBetween(slots, n + 1, |slots|);
    var _ := TextsBetween(slots, n + 1, |slots|);
  }

  /** string_totalsize predicts the sizes of both streams. */
  method TotalSize(st: StringTable) returns (datasize: nat, poolsize: nat)
    requires st.Sound()
    ensures datasize == |DataBytes(st.Model())|
    ensures poolsize == |PoolBytes(st.Model())|
  {
    ghost var slots := st.strings[..];
    poolsize, datasize := 4, 0;
    var holesize := 0;
    var i := 1;
    while i < st.maxcount
      invariant 1 <= i <= st.maxcount
      invariant holesize == 0
      invariant poolsize == 4 + |Entries(slots, i)| && datasize == |Texts(slots, i)|
    {
      var s := st.strings[i];
      assert SlotOk(slots[i]);
      EntriesStep(slots, i);
      if s.persistent == 0 {
        poolsize := poolsize + 4;
      } else if s.str.Some? {
        var len := |s.str.value|;
        datasize := datasize + len;
        if len > 0xffff {
          poolsize := poolsize + 4;
        }
        poolsize := poolsize + holesize + 4;
        holesize := 0;
      } else {
        holesize := holesize + 4;
      }
      i := i + 1;
    }
  }

  /** Two bytes, low one first. */
  method PutWord(a: array<Byte>, at: nat, w: nat)
    requires at + 2 <= a.Length
    modifies a
    ensures a[..at + 2] == old(a[..at]) + Bytes(w, 2)
  {
    a[at] := w % 0x100;
    a[at + 1] := (w / 0x100) % 0x100;
    TwoBytes(w);
  }

  /** _libmsi_string_id with an identity conversion: copies the text of an id into a buffer. */
  method StringId(st: StringTable, id: nat, buffer: array<Byte>, at: nat) returns (r: Status, sz: nat)
    requires st.Sound() && 1 <= id < st.maxcount && at <= buffer.Length
    requires buffer as object != st.strings && buffer as object != st.sorted
    modifies buffer
    ensures st.Shape() && st.Model() == old(st.Model())
    ensures r == Success <==> InUse(st.strings[..], id) && at + |TextOf(st.strings[..], id)| <= buffer.Length
    ensures r == Success ==> sz == |TextOf(st.strings[..], id)|
    ensures r == Success ==> buffer[..at + sz] == old(buffer[..at]) + TextOf(st.strings[..], id)
    ensures r != Success ==> buffer[..] == old(buffer[..])
  {
    assert SlotOk(st.strings[..][id]);
    var s := st.LookupId(id);
    if s.None? {
      return FunctionFailed, 0;
    }
    sz := |s.value|;
    if buffer.Length - at < sz {
      return FunctionFailed, sz;
    }
    forall k | 0 <= k < sz {
      buffer[at + k] := s.value[k];
    }
    r := Success;
  }

  /** Writes the entry of a string of the given length and count. */
  method PutEntry(pool: array<Byte>, i: nat, sz: nat, count: nat) returns (next: nat)
    requires 4 * i + (if sz >= 0x10000 then 8 else 4) <= pool.Length
    modifies pool
    ensures next == if sz >= 0x10000 then i + 2 else i + 1
    ensures pool[..4 * next] == old(pool[..4 * i]) + (Dummy(sz) + Bytes(sz, 2) + Bytes(count, 2))
  {
    ghost var before := pool[..4 * i];
    next := i;
    if sz >= 0x10000 {
      PutWord(pool, 4 * next, 0);
      PutWord(pool, 4 * next + 2, sz / TWO16);
      TwoBytes(0);
      assert pool[..4 * next + 4] == before + Dummy(sz);
      next := next + 1;
    }
    assert pool[..4 * next] == before + Dummy(sz);
    PutWord(pool, 4 * next, sz);
    PutWord(pool, 4 * next + 2, count);
    next := next + 1;
  }

  /** msi_save_string_table: neither overrun check fires, and the buffers hold the stored form. */
  method Save(st: StringTable) returns (r: Status, width: nat, data: array<Byte>, pool: array<Byte>)
    requires st.Sound() && CodepageKnown(st.codepage)
    ensures r == Success
    ensures pool[..] == PoolBytes(st.Model()) && data[..] == DataBytes(st.Model())
    ensures width == RefWidth(st.maxcount)
  {
    var datasize, poolsize := TotalSize(st);
    pool := new Byte[poolsize](_ => 0);
    data := new Byte[datasize](_ => 0);
    r := FunctionFailed;
    width := PutHeader(st, pool);

    var used := SaveSlots(st, pool, data);
    if used != datasize {
      return;
    }
    assert pool[..] == pool[..poolsize] && data[..] == data[..datasize];
    r := Success;
  }

  /** What slot n adds to both streams. */
  lemma StoredStep(m: Pool, n: nat)
    requires 1 <= n < |m.slots|
    ensures Header(m) + Entries(m.slots, n + 1) == Header(m) + Entries(m.slots, n) + Entry(m.slots[n])
    ensures |Entries(m.slots, n + 1)| == |Entries(m.slots, n)| + |Entry(m.slots[n])| <= |PoolBytes(m)| - 4
    ensures Texts(m.slots, n + 1) == Texts(m.slots, n) + StoredText(m.slots[n])
    ensures |Texts(m.slots, n + 1)| == |Texts(m.slots, n)| + |StoredText(m.slots[n])| <= |DataBytes(m)|
  {
    EntriesStep(m.slots, n);
    ConcatAssociative(Header(m), Entries(m.slots, n), Entry(m.slots[n]));
  }

  /** The loop of the writer; it stops when the text overruns its buffer. */
  method SaveSlots(st: StringTable, pool: array<Byte>, data: array<Byte>) returns (used: nat)
    requires st.Sound() && pool != data
    requires data as object != st.strings && data as object != st.sorted
    requires pool as object != st.strings && pool as object != st.sorted
    requires pool.Length == |PoolBytes(st.Model())| && data.Length == |DataBytes(st.Model())|
    requires pool[..4] == Header(st.Model())
    modifies data, pool
    ensures st.Shape() && st.Model() == old(st.Model())
    ensures used == data.Length
    ensures pool[..pool.Length] == PoolBytes(st.Model())
    ensures data[..used] == DataBytes(st.Model())
  {
    ghost var m := st.Model();
    ghost var slots := m.slots;
    var i, n := 1, 1;
    used := 0;
    while n < st.maxcount
      invariant 1 <= n <= st.maxcount && st.Shape() && st.Model() == m
      invariant 4 * i == 4 + |Entries(slots, n)| && 4 * i <= pool.Length
      invariant pool[..4 * i] == Header(m) + Entries(slots, n)
      invariant used == |Texts(slots, n)| && used <= data.Length
      invariant data[..used] == Texts(slots, n)
    {
      StoredStep(m, n);
      i, used := SaveSlot(st, n, pool, i, data, used);
      if used > data.Length {
        return;
      }
      n := n + 1;
    }
  }

  /** The loop body of the writer. */
  method SaveSlot(st: StringTable, n: nat, pool: array<Byte>, i: nat, data: array<Byte>, used: nat)
    returns (next: nat, end: nat)
    requires st.Sound() && 1 <= n < st.maxcount && pool != data
    requires data as object != st.strings && data as object != st.sorted
    requires pool as object != st.strings && pool as object != st.sorted
    requires used + |StoredText(st.strings[n])| <= data.Length && 4 * i + |Entry(st.strings[n])| <= pool.Length
    modifies data, pool
    ensures st.Shape() && st.Model() == old(st.Model())
    ensures 4 * next == 4 * i + |Entry(st.strings[n])| && end == used + |StoredText(st.strings[n])|
    ensures pool[..4 * next] == old(pool[..4 * i]) + Entry(st.strings[n])
    ensures data[..end] == old(data[..used]) + StoredText(st.strings[n])
  {
    var sz, count := TextSize(st, n, data, used);
    next := PutEntry(pool, i, sz, count);
    end := used + sz;
  }

  /** The header word: code page and width flag. */
  method PutHeader(st: StringTable, pool: array<Byte>) returns (width: nat)
    requires st.Shape() && st.codepage < TWO16 && pool.Length >= 4
    requires pool as object != st.strings && pool as object != st.sorted
    modifies pool
    ensures st.Shape() && st.Model() == old(st.Model())
    ensures pool[..4] == Header(st.Model())
    ensures width == RefWidth(st.maxcount)
  {
    PutWord(pool, 0, st.codepage);
    PutWord(pool, 2, st.codepage / TWO16);
    TwoBytes(0);
    TwoBytes(0x8000);
    if st.maxcount > 0xffff {
      pool[3] := 0x80;
      width := LONG_STR_BYTES;
    } else {
      width := SHORT_STR_BYTES;
    }
  }

  /** The length and count to write for slot n; its text is copied behind what is used already. */
  method TextSize(st: StringTable, n: nat, data: array<Byte>, used: nat) returns (sz: nat, count: nat)
    requires st.Sound() && 1 <= n < st.maxcount
    requires data as object != st.strings && data as object != st.sorted
    requires used + |StoredText(st.strings[n])| <= data.Length
    modifies data
    ensures st.Shape() && st.Model() == old(st.Model())
    ensures sz == |StoredText(st.strings[n])| && count == StoredCount(st.strings[n])
    ensures data[..used + sz] == old(data[..used]) + StoredText(st.strings[n])
  {
    assert SlotOk(st.strings[..][n]);
    if st.strings[n].persistent == 0 {
      return 0, 0;
    }
    var r;
    r, sz := StringId(st, n, data, used);
    sz := SizeAfter(r, sz);
    count := CountFor(sz, st.strings[n].persistent);
  }

  /** A string that cannot be had is written as an empty one, and an empty one without a count. */
  function SizeAfter(r: Status, sz: nat): nat { if r == Success then sz else 0 }

  function CountFor(sz: nat, refs: nat): nat { if sz == 0 then 0 else refs }

  /** msi_load_string_table; null when the code page is not a known one. */
  method LoadTable(pool: seq<Byte>, data: seq<Byte>) returns (st: StringTable?, width: nat)
    ensures st == null <==> !CodepageKnown(StoredCodepage(pool))
    ensures st != null ==> st.Shape() && st.Model() == Load(pool, data)
    ensures width == StoredWidth(pool)
  {
    width := if |pool| > 4 && PoolWord(pool, 1) >= LONG_FLAG then LONG_STR_BYTES else SHORT_STR_BYTES;
    var count := |pool| / 4;
    var codepage := StoredCodepage(pool);
    if !CodepageKnown(codepage) {
      return null, width;
    }
    st := new StringTable(count, codepage);
    var offset: nat, n: nat, i: nat, stop := 0, 1, 1, false;
    while !stop && i < count
      invariant fresh(st) && fresh(st.strings) && fresh(st.sorted) && st.Shape() && st.maxcount >= count
      invariant CursorOk(pool, data, Cursor(st.Model(), i, n, offset))
      invariant Indexable(st.Model(), n)
      invariant LoadFrom(pool, data, Cursor(st.Model(), i, n, offset)).st == Load(pool, data)
      invariant stop ==> st.Model() == Load(pool, data)
      decreases !stop, count - i
    {
      stop, i, n, offset := LoadEntry(st, pool, data, i, n, offset, Cursor(st.Model(), i, n, offset));
    }
  }

  /** The loop body of the reader; `stop` is its break. */
  method LoadEntry(st: StringTable, pool: seq<Byte>, data: seq<Byte>, i: nat, n: nat, offset: nat, ghost c: Cursor)
    returns (stop: bool, i': nat, n': nat, offset': nat)
    requires st.Shape() && c == Cursor(st.Model(), i, n, offset)
    requires CursorOk(pool, data, c) && i < |pool| / 4 && Indexable(c.st, n)
    modifies st, st.strings, st.sorted
    ensures st.Shape() && st.maxcount == old(st.maxcount)
    ensures st.strings == old(st.strings) && st.sorted == old(st.sorted)
    ensures Advance(pool, data, c) == if stop then None else Some(Cursor(st.Model(), i', n', offset'))
    ensures stop ==> Cursor(st.Model(), i', n', offset') == c
    ensures Indexable(st.Model(), n')
  {
    var next, len, refs, skip;
    stop, skip, next, len, refs := ReadEntry(pool, data, i, offset, c);
    i', n', offset' := i, n, offset;
    if !stop {
      if skip {
      } else {
        AddLoaded(st, n, data, offset, len, refs);
      }
      i', n', offset' := next, n + 1, offset + len;
    }
  }

  /** The two or four words of an entry: the end of the text is reached, there is no string, or there is
      one of this length and count. */
  method ReadEntry(pool: seq<Byte>, data: seq<Byte>, i: nat, offset: nat, ghost c: Cursor)
    returns (stop: bool, skip: bool, next: nat, len: nat, refs: nat)
    requires CursorOk(pool, data, c) && c.i == i < |pool| / 4 && c.offset == offset
    ensures stop ==> Advance(pool, data, c) == None
    ensures !stop ==> offset + len <= |data|
    ensures !stop ==>
      var st := if skip then c.st else LoadString(c.st, c.n, data, offset, len, refs);
      Advance(pool, data, c) == Some(Cursor(st, next, c.n + 1, offset + len))
  {
    stop, skip, next, len := false, false, i + 1, 0;
    refs := PoolWord(pool, 2 * i + 1);
    if PoolWord(pool, 2 * i) == 0 && refs == 0 {
      skip := true;
      return;
    }
    var (size, after) := LengthAt(pool, i);
    if offset + size > |data| {
      stop := true;
      return;
    }
    len, next := size, after;
  }

  /** While loading, the index is increasing and lists ids below n only, each once. */
  ghost predicate Indexable(p: Pool, n: nat) {
    Increasing(p.slots, p.sorted) && DistinctBelow(p.sorted, n)
  }

  /** msi_addstring at a given slot. */
  method AddLoaded(st: StringTable, n: nat, data: seq<Byte>, offset: nat, len: nat, refs: nat)
    requires st.Shape() && n < st.maxcount && offset + len <= |data|
    requires Indexable(st.Model(), n)
    modifies st, st.strings, st.sorted
    ensures st.Shape() && st.maxcount == old(st.maxcount)
    ensures st.strings == old(st.strings) && st.sorted == old(st.sorted)
    ensures st.Model() == LoadString(old(st.Model()), n, data, offset, len, refs)
    ensures Indexable(st.Model(), n + 1)
  {
    ghost var m := st.Model();
    if offset == |data| || data[offset] == 0 {
      return;
    }
    if st.strings[n].persistent != 0 || st.strings[n].nonpersistent != 0 {
      return;
    }
    var str := CString(data[offset..offset + len]);
    DistinctFits(m.sorted, n);
    ghost var slots := st.SetEntrySlots(n, str, refs, true);
    assert forall i :: 0 <= i < |m.sorted| ==> TextOf(slots, m.sorted[i]) == TextOf(m.slots, m.sorted[i]);
    st.SetStEntry(n, str, refs, true);
    IndexedDistinct(slots, m.sorted, n);
  }

  lemma TextElsewhere(slots: seq<Slot>, sorted: seq<nat>, s: Str, r: nat, i: nat)
    requires Increasing(slots, sorted) && r <= |sorted| && i < |sorted|
    requires forall k :: 0 <= k < r ==> Lex(TextOf(slots, sorted[k]), s) < 0
    requires r < |sorted| ==> Lex(TextOf(slots, sorted[r]), s) > 0
    ensures TextOf(slots, sorted[i]) != s
  {
    LexZero(s, s);
    if i > r {
      LargerAbove(slots, sorted, s, r, i);
    }
  }

  lemma IndexedDistinct(slots: seq<Slot>, sorted: seq<nat>, n: nat)
    requires Increasing(slots, sorted) && DistinctBelow(sorted, n)
    ensures Increasing(slots, Indexed(slots, sorted, n)) && DistinctBelow(Indexed(slots, sorted, n), n + 1)
  {
    var s := TextOf(slots, n);
    var r := Rank(slots, sorted, s);
    if r == |sorted| || Lex(TextOf(slots, sorted[r]), s) != 0 {
      forall i | 0 <= i < |sorted|
        ensures TextOf(slots, sorted[i]) != s
      {
        TextElsewhere(slots, sorted, s, r, i);
      }
      InsertIncreasing(slots, sorted, n);
      InsertDistinct(sorted, r, n);
    }
  }

  lemma InsertDistinct(sorted: seq<nat>, r: nat, n: nat)
    requires DistinctBelow(sorted, n) && r <= |sorted|
    ensures DistinctBelow(InsertAt(sorted, r, n), n + 1)
  {
    var more := InsertAt(sorted, r, n);
    assert forall i :: 0 <= i < r ==> more[i] == sorted[i];
    assert forall i :: r < i < |more| ==> more[i] == sorted[i - 1];
  }
}
