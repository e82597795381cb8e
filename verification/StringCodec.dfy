/** The stored form of the string table: a pool of lengths and counts, and the concatenated text
    (msi_save_string_table and msi_load_string_table in libmsi/string.c). */
module StringCodec {
  import opened Prelude
  import opened LittleEndian
  import opened StringPools

  const SHORT_STR_BYTES := 2
  const LONG_FLAG := 0x8000

  // ---------------------------------------------------------------------------------------------
  // Writing
  // ---------------------------------------------------------------------------------------------

  /** The text that is written for a slot: nothing unless it has a persistent count. */
  function StoredText(s: Slot): Str {
    if s.persistent != 0 && s.str.Some? then s.str.value else []
  }

  /** The count that is written for a slot. */
  function StoredCount(s: Slot): nat { if StoredText(s) == [] then 0 else s.persistent }

  /** The pool entry of a slot: length and count. A string of 64k and more is preceded by a dummy entry
      that carries the high word of its length. */
  function Entry(s: Slot): seq<Byte> {
    Dummy(|StoredText(s)|) + Bytes(|StoredText(s)|, 2) + Bytes(StoredCount(s), 2)
  }

  function Dummy(size: nat): seq<Byte> {
    if size >= TWO16 then [0, 0] + Bytes(size / TWO16, 2) else []
  }

  /** Entries of slots 1, ..., n-1. */
  function Entries(slots: seq<Slot>, n: nat): seq<Byte>
    requires n <= |slots|
  {
    if n <= 1 then [] else Entries(slots, n - 1) + Entry(slots[n - 1])
  }

  /** Text of slots 1, ..., n-1. */
  function Texts(slots: seq<Slot>, n: nat): seq<Byte>
    requires n <= |slots|
  {
    if n <= 1 then [] else Texts(slots, n - 1) + StoredText(slots[n - 1])
  }

  /** The header word: the code page, with the top bit set when ids take three bytes. */
  function HeaderWord(p: Pool): nat {
    if |p.slots| > 0xffff && p.codepage < TWO31 then p.codepage + TWO31 else p.codepage
  }

  function Header(p: Pool): (h: seq<Byte>)
    ensures |h| == 4
  {
    Bytes(HeaderWord(p) % TWO16, 2) + Bytes(HeaderWord(p) / TWO16, 2)
  }

  function PoolBytes(p: Pool): seq<Byte> { Header(p) + Entries(p.slots, |p.slots|) }

  function DataBytes(p: Pool): seq<Byte> { Texts(p.slots, |p.slots|) }

  /** Bytes per string reference, as the writer reports it. */
  function RefWidth(maxcount: nat): nat { if maxcount > 0xffff then LONG_STR_BYTES else SHORT_STR_BYTES }

  function WidthLimit(width: nat): nat { if width == LONG_STR_BYTES then TWO24 else TWO16 }

  /** The chosen width fits every id exactly when there are no more than 2^24 slots. */
  lemma RefWidthFits(maxcount: nat)
    ensures maxcount <= WidthLimit(RefWidth(maxcount)) <==> maxcount <= TWO24
  {
  }

  // ---------------------------------------------------------------------------------------------
  // Reading
  // ---------------------------------------------------------------------------------------------

  /** The 16-bit word at index k of the pool; nothing is stored past its end. */
  function PoolWord(pool: seq<Byte>, k: nat): nat {
    if 2 * k + 1 < |pool| then pool[2 * k] as int + 0x100 * pool[2 * k + 1] as int else 0
  }

  lemma PoolWordIs(pool: seq<Byte>, k: nat, w: nat)
    requires 2 * k + 1 < |pool| && pool[2 * k..2 * k + 2] == Bytes(w, 2) && w < TWO16
    ensures PoolWord(pool, k) == w
  {
    assert Bytes(w, 2) == [w % 0x100] + Bytes(w / 0x100, 1) && Bytes(w / 0x100, 1) == [w / 0x100 % 0x100];
    assert pool[2 * k] == pool[2 * k..2 * k + 2][0] && pool[2 * k + 1] == pool[2 * k..2 * k + 2][1];
  }

  /** msi_addstring at a given slot: nothing happens when the text starts with a NUL or the slot is
      taken. */
  function LoadString(st: Pool, n: nat, data: seq<Byte>, offset: nat, len: nat, refs: nat): Pool
    requires n < |st.slots| && offset + len <= |data|
  {
    if offset == |data| || data[offset] == 0 || Used(st.slots[n]) then st
    else SetEntry(st, n, CString(data[offset..offset + len]), refs, true)
  }

  /** What the loading loop stands at: the table, the entry, the slot and the position in the text. */
  datatype Cursor = Cursor(st: Pool, i: nat, n: nat, offset: nat)

  /** The length of the string whose entry is at i, and the next entry. */
  function LengthAt(pool: seq<Byte>, i: nat): (nat, nat) {
    if PoolWord(pool, 2 * i) == 0
    then (PoolWord(pool, 2 * i + 3) * TWO16 + PoolWord(pool, 2 * i + 2), i + 2)
    else (PoolWord(pool, 2 * i), i + 1)
  }

  ghost predicate CursorOk(pool: seq<Byte>, data: seq<Byte>, c: Cursor) {
    c.n <= c.i && |pool| / 4 <= |c.st.slots| && c.offset <= |data|
  }

  /** One iteration of the loading loop; None is its break. */
  function Advance(pool: seq<Byte>, data: seq<Byte>, c: Cursor): (next: Option<Cursor>)
    requires CursorOk(pool, data, c) && c.i < |pool| / 4
    ensures next.Some? ==> CursorOk(pool, data, next.value) && next.value.i > c.i && |next.value.st.slots| == |c.st.slots|
  {
    var refs := PoolWord(pool, 2 * c.i + 1);
    if PoolWord(pool, 2 * c.i) == 0 && refs == 0 then Some(c.(i := c.i + 1, n := c.n + 1))
    else
      var (len, i) := LengthAt(pool, c.i);
      if c.offset + len > |data| then None
      else Some(Cursor(LoadString(c.st, c.n, data, c.offset, len, refs), i, c.n + 1, c.offset + len))
  }

  /** The loop of msi_load_string_table. */
  function LoadFrom(pool: seq<Byte>, data: seq<Byte>, c: Cursor): (last: Cursor)
    requires CursorOk(pool, data, c)
    ensures |last.st.slots| == |c.st.slots|
    decreases |pool| / 4 - c.i
  {
    if c.i >= |pool| / 4 then c
    else match Advance(pool, data, c)
      case None => c
      case Some(next) => LoadFrom(pool, data, next)
  }

  /** The code page in the header; a pool of one entry has none. */
  function StoredCodepage(pool: seq<Byte>): nat {
    if |pool| <= 4 then 0
    else
      var high := PoolWord(pool, 1);
      PoolWord(pool, 0) + TWO16 * (if high >= LONG_FLAG then high - LONG_FLAG else high)
  }

  function StoredWidth(pool: seq<Byte>): nat {
    if |pool| > 4 && PoolWord(pool, 1) >= LONG_FLAG then LONG_STR_BYTES else SHORT_STR_BYTES
  }

  /** msi_load_string_table for a code page that is accepted. */
  function Load(pool: seq<Byte>, data: seq<Byte>): Pool {
    LoadFrom(pool, data, Cursor(Init(|pool| / 4, StoredCodepage(pool)), 1, 1, 0)).st
  }

  // ---------------------------------------------------------------------------------------------
  // Sizes
  // ---------------------------------------------------------------------------------------------

  /** The text does not fit an entry of its own. */
  predicate Long(s: Slot) { |StoredText(s)| >= TWO16 }

  /** The number of pool entries before slot n's, the header being the first: two for a long string. */
  function Units(slots: seq<Slot>, n: nat): (units: nat)
    requires n <= |slots|
    ensures n <= units && 1 <= units
  {
    if n <= 1 then 1 else Units(slots, n - 1) + (if Long(slots[n - 1]) then 2 else 1)
  }

  lemma {:induction false} EntriesSize(slots: seq<Slot>, n: nat)
    requires n <= |slots|
    ensures |Entries(slots, n)| == 4 * (Units(slots, n) - 1)
  {
    if n > 1 {
      EntriesSize(slots, n - 1);
    }
  }

  lemma {:induction false} UnitsGrow(slots: seq<Slot>, m: nat, n: nat)
    requires 1 <= m <= n <= |slots|
    ensures Units(slots, m) <= Units(slots, n)
    decreases n
  {
    if m < n {
      UnitsGrow(slots, m, n - 1);
    }
  }

  /** The entries of slots m, ..., n-1. */
  function EntriesBetween(slots: seq<Slot>, m: nat, n: nat): (rest: seq<Byte>)
    requires m <= n <= |slots|
    ensures Entries(slots, n) == Entries(slots, m) + rest
    decreases n
  {
    if m == n || n <= 1 then [] else EntriesBetween(slots, m, n - 1) + Entry(slots[n - 1])
  }

  function TextsBetween(slots: seq<Slot>, m: nat, n: nat): (rest: seq<Byte>)
    requires m <= n <= |slots|
    ensures Texts(slots, n) == Texts(slots, m) + rest
    decreases n
  {
    if m == n || n <= 1 then [] else TextsBetween(slots, m, n - 1) + StoredText(slots[n - 1])
  }

  /** Slot n's own entry and text sit where the preceding slots end. */
  lemma EntryAt(p: Pool, n: nat) returns (rest: seq<Byte>)
    requires 1 <= n < |p.slots|
    ensures PoolBytes(p) == Header(p) + Entries(p.slots, n) + Entry(p.slots[n]) + rest
  {
    rest := EntriesBetween(p.slots, n + 1, |p.slots|);
    assert Entries(p.slots, n + 1) == Entries(p.slots, n) + Entry(p.slots[n]);
  }

  lemma TextAt(slots: seq<Slot>, n: nat) returns (rest: seq<Byte>)
    requires 1 <= n < |slots|
    ensures Texts(slots, |slots|) == Texts(slots, n) + StoredText(slots[n]) + rest
  {
    rest := TextsBetween(slots, n + 1, |slots|);
    assert Texts(slots, n + 1) == Texts(slots, n) + StoredText(slots[n]);
  }

  // ---------------------------------------------------------------------------------------------
  // Round trip
  // ---------------------------------------------------------------------------------------------

  /** What a slot holds after reopening. */
  function Reopened(s: Slot): Slot {
    if s.persistent != 0 then Slot(s.persistent, 0, s.str) else FREE
  }

  /** A long string comes back only if its count is the high word of its length. */
  predicate Restorable(s: Slot) { Long(s) ==> s.persistent == |StoredText(s)| / TWO16 }

  predicate AllRestorable(slots: seq<Slot>) {
    forall i :: 0 <= i < |slots| ==> Restorable(slots[i])
  }

  /** Lengths are 32-bit numbers. */
  ghost predicate LengthsFit(slots: seq<Slot>) {
    forall i :: 0 <= i < |slots| ==> |StoredText(slots[i])| < TWO32
  }

  /** The slots below n are loaded, the others still free, and the index is right. */
  ghost predicate LoadedUpTo(p: Pool, st: Pool, n: nat) {
    && Valid(st) && 1 <= n <= |p.slots| <= |st.slots|
    && (forall i :: 0 <= i < n ==> st.slots[i] == Reopened(p.slots[i]))
    && (forall i :: n <= i < |st.slots| ==> st.slots[i] == FREE)
  }

  /** Slot n's entry, long or not, stands behind those before it. */
  lemma EntryStands(p: Pool, n: nat) returns (before: seq<Byte>, rest: seq<Byte>)
    requires 1 <= n < |p.slots|
    ensures |before| == 4 * Units(p.slots, n) && PoolBytes(p) == before + Entry(p.slots[n]) + rest
  {
    EntriesSize(p.slots, n);
    rest := EntryAt(p, n);
    before := Header(p) + Entries(p.slots, n);
  }

  lemma TwoBytes(w: nat)
    ensures Bytes(w, 2) == [w % 0x100, (w / 0x100) % 0x100]
  {
    assert Bytes(w / 0x100, 1) == [(w / 0x100) % 0x100] + Bytes(w / 0x100 / 0x100, 0);
  }

  lemma LowBytes(w: nat)
    ensures Bytes(w, 2) == Bytes(w % TWO16, 2)
  {
    ModSplit(w / 0x100, w % 0x100, 0x100);
    var v := w % TWO16;
    assert v == w % 0x100 + 0x100 * (w / 0x100 % 0x100);
    assert Bytes(w / 0x100, 1) == Bytes(v / 0x100, 1);
  }

  /** The four words of a long string's two entries. */
  lemma LongEntryWords(pool: seq<Byte>, before: seq<Byte>, s: Slot, rest: seq<Byte>, i: nat)
    requires pool == before + Entry(s) + rest && |before| == 4 * i
    requires SlotOk(s) && TWO16 <= |StoredText(s)| < TWO32
    ensures PoolWord(pool, 2 * i) == 0 && PoolWord(pool, 2 * i + 1) == |StoredText(s)| / TWO16
    ensures PoolWord(pool, 2 * i + 2) == |StoredText(s)| % TWO16 && PoolWord(pool, 2 * i + 3) == s.persistent
  {
    var size := |StoredText(s)|;
    var dummy, own := Dummy(size), Bytes(size, 2) + Bytes(s.persistent, 2);
    TwoBytes(0);
    assert dummy == Bytes(0, 2) + Bytes(size / TWO16, 2);
    assert Entry(s) == dummy + own;
    assert pool == before + dummy + (own + rest);
    assert pool == (before + dummy) + own + rest;
    TwoWords(pool, before, dummy, own + rest, i, 0, size / TWO16);
    SplitPair(pool, before + dummy, Bytes(size, 2), Bytes(s.persistent, 2), rest);
    LowBytes(size);
    PoolWordIs(pool, 2 * i + 2, size % TWO16);
    PoolWordIs(pool, 2 * i + 3, s.persistent);
  }

  /** Where the reader goes wrong on long strings: it takes the high word of the length from the count
      of the entry that follows the dummy one, so the length is right exactly when that count happens to
      equal the high word. */
  lemma LongEntryLength(pool: seq<Byte>, before: seq<Byte>, s: Slot, rest: seq<Byte>, i: nat)
    requires pool == before + Entry(s) + rest && |before| == 4 * i
    requires SlotOk(s) && TWO16 <= |StoredText(s)| < TWO32
    ensures LengthAt(pool, i) == (|StoredText(s)|, i + 2) <==> s.persistent == |StoredText(s)| / TWO16
  {
    LongEntryWords(pool, before, s, rest, i);
  }

  /** The entry of a slot, byte by byte: length and count, low byte first; a long string has its length's high
      word in an entry before. */
  lemma EntryInBytes(p: Pool, n: nat)
    requires Valid(p) && 1 <= n < |p.slots| && |StoredText(p.slots[n])| < TWO32
    ensures var b, len, count := PoolBytes(p), |StoredText(p.slots[n])|, p.slots[n].persistent;
      var at := 4 * Units(p.slots, n) + if len >= 0x1_0000 then 4 else 0;
      && at + 4 <= |b|
      && b[at..at + 4] == [len % 0x100, len / 0x100 % 0x100] + (if len == 0 then [0, 0] else [count % 0x100, count / 0x100])
      && (len >= 0x1_0000 ==> b[at - 4..at] == [0, 0, len / 0x1_0000 % 0x100, len / 0x1_0000 / 0x100 % 0x100])
  {
    assert SlotOk(p.slots[n]);
    var before, rest := EntryStands(p, n);
    var s := p.slots[n];
    EntryParts(s);
    SplitPair(PoolBytes(p), before, DummyBytes(s), OwnBytes(s), rest);
  }

  function DummyBytes(s: Slot): seq<Byte> {
    var len := |StoredText(s)|;
    if len >= 0x1_0000 then [0, 0, len / 0x1_0000 % 0x100, len / 0x1_0000 / 0x100 % 0x100] else []
  }

  function OwnBytes(s: Slot): seq<Byte>
    requires s.persistent <= MAX_COUNT
  {
    var len := |StoredText(s)|;
    [len % 0x100, len / 0x100 % 0x100] + if len == 0 then [0, 0] else [s.persistent % 0x100, s.persistent / 0x100]
  }

  lemma EntryParts(s: Slot)
    requires SlotOk(s)
    ensures Entry(s) == DummyBytes(s) + OwnBytes(s)
  {
    TwoBytes(|StoredText(s)|);
    TwoBytes(StoredCount(s));
    TwoBytes(|StoredText(s)| / TWO16);
    assert Dummy(|StoredText(s)|) == DummyBytes(s);
    assert Bytes(|StoredText(s)|, 2) + Bytes(StoredCount(s), 2) == OwnBytes(s);
    ConcatAssociative(Dummy(|StoredText(s)|), Bytes(|StoredText(s)|, 2), Bytes(StoredCount(s), 2));
  }

  /** The header: the code page, with bit 31 for ids of three bytes; and where the text of a slot is. */
  lemma HeaderInBytes(p: Pool)
    requires |p.slots| >= 1 && p.codepage < TWO16
    ensures var b := PoolBytes(p);
      && |b| >= 4 && b[0] == p.codepage % 0x100 && b[1] == p.codepage / 0x100 && b[2] == 0
      && b[3] == if |p.slots| > 0xffff then 0x80 else 0
  {
    TwoBytes(HeaderWord(p) % TWO16);
    TwoBytes(HeaderWord(p) / TWO16);
  }

  /** What the reader takes from the entry of a slot that can be restored. */
  lemma EntryRead(pool: seq<Byte>, before: seq<Byte>, s: Slot, rest: seq<Byte>, i: nat)
    requires pool == before + Entry(s) + rest && |before| == 4 * i
    requires SlotOk(s) && |StoredText(s)| < TWO32 && Restorable(s)
    ensures PoolWord(pool, 2 * i + 1) == StoredCount(s)
    ensures if StoredCount(s) == 0 then PoolWord(pool, 2 * i) == 0 && StoredText(s) == []
      else LengthAt(pool, i) == (|StoredText(s)|, i + (if Long(s) then 2 else 1))
  {
    if Long(s) {
      LongEntryWords(pool, before, s, rest, i);
    } else {
      TwoWords(pool, before, Entry(s), rest, i, |StoredText(s)|, StoredCount(s));
    }
  }

  /** The two words of an entry. */
  lemma TwoWords(pool: seq<Byte>, before: seq<Byte>, entry: seq<Byte>, rest: seq<Byte>, n: nat, a: nat, b: nat)
    requires pool == before + entry + rest && |before| == 4 * n
    requires entry == Bytes(a, 2) + Bytes(b, 2) && a < TWO16 && b < TWO16
    ensures PoolWord(pool, 2 * n) == a
    ensures PoolWord(pool, 2 * n + 1) == b
  {
    SplitPair(pool, before, Bytes(a, 2), Bytes(b, 2), rest);
    PoolWordIs(pool, 2 * n, a);
    PoolWordIs(pool, 2 * n + 1, b);
  }

  lemma SplitPair(pool: seq<Byte>, before: seq<Byte>, x: seq<Byte>, y: seq<Byte>, rest: seq<Byte>)
    requires pool == before + (x + y) + rest
    ensures |before| + |x| + |y| <= |pool|
    ensures pool[|before|..|before| + |x|] == x
    ensures pool[|before| + |x|..|before| + |x| + |y|] == y
  {
    assert pool == before + x + (y + rest);
    assert pool == (before + x) + y + rest;
  }

  /** A string that is still to be loaded is not there yet. */
  lemma NotLoadedYet(p: Pool, st: Pool, n: nat)
    requires Valid(p) && LoadedUpTo(p, st, n) && n < |p.slots| && p.slots[n].persistent != 0
    ensures !Present(st, StoredText(p.slots[n]))
  {
    assert SlotOk(p.slots[n]);
    forall id: nat | InUse(st.slots, id)
      ensures TextOf(st.slots, id) != StoredText(p.slots[n])
    {
      assert id < n && st.slots[id] == Reopened(p.slots[id]);
      TextsDistinct(p, id, n);
    }
  }

  /** What loading slot n's string does. */
  lemma LoadsText(st: Pool, n: nat, data: seq<Byte>, before: seq<Byte>, text: Str, rest: seq<Byte>, refs: nat)
    requires data == before + text + rest && n < |st.slots| && !Used(st.slots[n])
    requires text != [] && NulFree(text)
    ensures LoadString(st, n, data, |before|, |text|, refs) == SetEntry(st, n, text, refs, true)
  {
    assert data[|before| + 0] == text[0];
    CStringWhole(text);
  }

  /** Loading slot n's string puts it back. */
  lemma LoadOne(p: Pool, st: Pool, n: nat)
    requires Valid(p) && LoadedUpTo(p, st, n) && n < |p.slots| && p.slots[n].persistent != 0
    ensures LoadedUpTo(p, SetEntry(st, n, StoredText(p.slots[n]), p.slots[n].persistent, true), n + 1)
  {
    assert SlotOk(p.slots[n]);
    NotLoadedYet(p, st, n);
    SetEntryValid(st, n, StoredText(p.slots[n]), p.slots[n].persistent, true);
  }

  /** The table after slot n's string is loaded, if it has one. */
  function WithSlot(p: Pool, st: Pool, n: nat): Pool
    requires n < |p.slots| && n < |st.slots|
  {
    if p.slots[n].persistent == 0 then st
    else SetEntry(st, n, StoredText(p.slots[n]), p.slots[n].persistent, true)
  }

  /** What slot n adds to the table that is loaded. */
  lemma SlotLoaded(p: Pool, st: Pool, n: nat)
    requires Valid(p) && LoadedUpTo(p, st, n) && n < |p.slots|
    ensures LoadedUpTo(p, WithSlot(p, st, n), n + 1)
  {
    if p.slots[n].persistent != 0 {
      LoadOne(p, st, n);
    }
  }

  /** Where the loop stands before slot n, and the table that it has then. */
  ghost predicate Before(p: Pool, c: Cursor, n: nat) {
    && 1 <= n <= |p.slots| && c.i == Units(p.slots, n) && c.n == n && c.offset == |Texts(p.slots, n)|
    && |c.st.slots| == Units(p.slots, |p.slots|) && |PoolBytes(p)| == 4 * |c.st.slots|
    && c.i <= |c.st.slots| && c.offset <= |DataBytes(p)|
  }

  /** Where it stands behind it. */
  function NextCursor(p: Pool, st: Pool, n: nat): Cursor
    requires n < |p.slots| && n < |st.slots|
  {
    Cursor(WithSlot(p, st, n), Units(p.slots, n + 1), n + 1, |Texts(p.slots, n + 1)|)
  }

  /** One iteration of the loop over what was written, at a free slot. */
  lemma LoadStep(p: Pool, c: Cursor, n: nat)
    requires Before(p, c, n) && n < |p.slots| && SlotReady(p.slots[n]) && Restorable(p.slots[n]) && !Used(c.st.slots[n])
    ensures Before(p, NextCursor(p, c.st, n), n + 1) && c.i < |PoolBytes(p)| / 4
    ensures Advance(PoolBytes(p), DataBytes(p), c) == Some(NextCursor(p, c.st, n))
  {
    UnitsGrow(p.slots, n + 1, |p.slots|);
    TextsGrow(p.slots, n);
    StepRead(p, c, n);
  }

  lemma TextsGrow(slots: seq<Slot>, n: nat)
    requires 1 <= n < |slots|
    ensures |Texts(slots, n + 1)| == |Texts(slots, n)| + |StoredText(slots[n])| <= |Texts(slots, |slots|)|
  {
    var after := TextAt(slots, n);
  }

  lemma NextIs(p: Pool, c: Cursor, n: nat)
    requires Before(p, c, n) && n < |p.slots|
    ensures NextCursor(p, c.st, n) == Cursor(WithSlot(p, c.st, n), c.i + (if Long(p.slots[n]) then 2 else 1), c.n + 1,
                                             c.offset + |StoredText(p.slots[n])|)
  {
    TextsGrow(p.slots, n);
    assert Units(p.slots, n + 1) == Units(p.slots, n) + (if Long(p.slots[n]) then 2 else 1);
  }

  lemma StepRead(p: Pool, c: Cursor, n: nat)
    requires Before(p, c, n) && n < |p.slots| && SlotReady(p.slots[n]) && Restorable(p.slots[n]) && !Used(c.st.slots[n])
    requires c.i < |PoolBytes(p)| / 4
    ensures Advance(PoolBytes(p), DataBytes(p), c) == Some(NextCursor(p, c.st, n))
  {
    var before, rest := EntryStands(p, n);
    var after := TextAt(p.slots, n);
    NextIs(p, c, n);
    SlotRead(PoolBytes(p), DataBytes(p), before, rest, Texts(p.slots, n), after, p.slots[n], c, NextCursor(p, c.st, n));
  }

  /** A string or a free slot, of a length that 32 bits hold. */
  ghost predicate SlotReady(s: Slot) { SlotOk(s) && |StoredText(s)| < TWO32 }

  /** What is loaded for a slot, one without a string included. */
  lemma SlotText(data: seq<Byte>, text: seq<Byte>, more: seq<Byte>, s: Slot, st: Pool, n: nat, st': Pool)
    requires data == text + StoredText(s) + more && SlotOk(s) && n < |st.slots| && !Used(st.slots[n])
    requires st' == if s.persistent == 0 then st else SetEntry(st, n, StoredText(s), s.persistent, true)
    ensures |text| + |StoredText(s)| <= |data|
    ensures st' == if StoredCount(s) == 0 then st
      else LoadString(st, n, data, |text|, |StoredText(s)|, StoredCount(s))
  {
    if s.persistent != 0 {
      LoadsText(st, n, data, text, StoredText(s), more, s.persistent);
    }
  }

  /** One iteration at the entry of a slot whose text comes next. */
  lemma SlotRead(pool: seq<Byte>, data: seq<Byte>, before: seq<Byte>, rest: seq<Byte>, text: seq<Byte>, more: seq<Byte>,
        s: Slot, c: Cursor, next: Cursor)
    requires pool == before + Entry(s) + rest && |before| == 4 * c.i && c.i < |pool| / 4
    requires data == text + StoredText(s) + more && |text| == c.offset
    requires SlotReady(s) && Restorable(s) && CursorOk(pool, data, c) && c.n < |c.st.slots| && !Used(c.st.slots[c.n])
    requires next == Cursor(if s.persistent == 0 then c.st else SetEntry(c.st, c.n, StoredText(s), s.persistent, true),
                            c.i + (if Long(s) then 2 else 1), c.n + 1, c.offset + |StoredText(s)|)
    ensures Advance(pool, data, c) == Some(next)
  {
    EntryRead(pool, before, s, rest, c.i);
    SlotText(data, text, more, s, c.st, c.n, next.st);
    AdvanceOne(pool, data, c, s, next.i, next.st);
  }

  /** One iteration at the entry of a slot. */
  lemma AdvanceOne(pool: seq<Byte>, data: seq<Byte>, c: Cursor, s: Slot, next: nat, st: Pool)
    requires CursorOk(pool, data, c) && c.i < |pool| / 4 && c.offset + |StoredText(s)| <= |data|
    requires next == c.i + (if Long(s) then 2 else 1)
    requires PoolWord(pool, 2 * c.i + 1) == StoredCount(s)
    requires if StoredCount(s) == 0 then PoolWord(pool, 2 * c.i) == 0 && StoredText(s) == []
      else LengthAt(pool, c.i) == (|StoredText(s)|, next)
    requires st == if StoredCount(s) == 0 then c.st
      else LoadString(c.st, c.n, data, c.offset, |StoredText(s)|, StoredCount(s))
    ensures Advance(pool, data, c) == Some(Cursor(st, next, c.n + 1, c.offset + |StoredText(s)|))
  {
    if StoredCount(s) != 0 {
      Taken(pool, data, c, |StoredText(s)|, next, StoredCount(s));
    } else {
      Skipped(pool, data, c);
    }
  }

  lemma Skipped(pool: seq<Byte>, data: seq<Byte>, c: Cursor)
    requires CursorOk(pool, data, c) && c.i < |pool| / 4
    requires PoolWord(pool, 2 * c.i) == 0 && PoolWord(pool, 2 * c.i + 1) == 0
    ensures Advance(pool, data, c) == Some(c.(i := c.i + 1, n := c.n + 1))
  {
  }

  lemma Taken(pool: seq<Byte>, data: seq<Byte>, c: Cursor, len: nat, next: nat, refs: nat)
    requires CursorOk(pool, data, c) && c.i < |pool| / 4 && c.offset + len <= |data| && refs != 0
    requires PoolWord(pool, 2 * c.i + 1) == refs && LengthAt(pool, c.i) == (len, next)
    ensures Advance(pool, data, c) ==
      Some(Cursor(LoadString(c.st, c.n, data, c.offset, len, refs), next, c.n + 1, c.offset + len))
  {
  }

  lemma ReadyAt(p: Pool, st: Pool, n: nat)
    requires Valid(p) && LengthsFit(p.slots) && LoadedUpTo(p, st, n) && n < |p.slots|
    ensures SlotReady(p.slots[n]) && st.slots[n] == FREE
  {
  }

  lemma LoadFromNext(pool: seq<Byte>, data: seq<Byte>, c: Cursor, next: Cursor)
    requires CursorOk(pool, data, c) && c.i < |pool| / 4 && Advance(pool, data, c) == Some(next)
    ensures CursorOk(pool, data, next) && LoadFrom(pool, data, c) == LoadFrom(pool, data, next)
  {
  }

  /** The loop stands before slot n, all slots below being loaded. */
  ghost function Standing(p: Pool, c: Cursor, n: nat): Option<Cursor> {
    if Valid(p) && LengthsFit(p.slots) && Before(p, c, n) && LoadedUpTo(p, c.st, n) then Some(c) else None
  }

  lemma StandNext(p: Pool, c: Cursor, n: nat)
    requires Standing(p, c, n) == Some(c) && n < |p.slots| && Restorable(p.slots[n])
    ensures CursorOk(PoolBytes(p), DataBytes(p), c) && n < |c.st.slots|
    ensures var next := NextCursor(p, c.st, n);
      && Standing(p, next, n + 1) == Some(next) && CursorOk(PoolBytes(p), DataBytes(p), next)
      && LoadFrom(PoolBytes(p), DataBytes(p), c) == LoadFrom(PoolBytes(p), DataBytes(p), next)
  {
    ReadyAt(p, c.st, n);
    LoadStep(p, c, n);
    SlotLoaded(p, c.st, n);
    LoadFromNext(PoolBytes(p), DataBytes(p), c, NextCursor(p, c.st, n));
  }

  /** Steps that keep an invariant and do not change where the loop ends. */
  lemma {:induction false} Iterate(step: (Cursor, nat) -> Cursor, stands: (Cursor, nat) -> bool, ends: Cursor -> Pool,
        c: Cursor, n: nat, m: nat) returns (last: Cursor)
    requires stands(c, n) && n <= m
    requires forall d: Cursor, k: nat {:trigger stands(d, k)} :: stands(d, k) && k < m ==>
      stands(step(d, k), k + 1) && ends(step(d, k)) == ends(d)
    ensures stands(last, m) && ends(last) == ends(c)
    decreases m - n
  {
    last := c;
    if n < m {
      last := Iterate(step, stands, ends, step(c, n), n + 1, m);
    }
  }

  /** Where the loop ends that stands at a cursor; a cursor out of bounds ends where it is. */
  ghost function EndOf(p: Pool, c: Cursor): Pool {
    if CursorOk(PoolBytes(p), DataBytes(p), c) then LoadFrom(PoolBytes(p), DataBytes(p), c).st else c.st
  }

  function StepOf(p: Pool, c: Cursor, n: nat): Cursor {
    if n < |p.slots| && n < |c.st.slots| then NextCursor(p, c.st, n) else c
  }

  lemma StepStands(p: Pool, c: Cursor, n: nat)
    requires Standing(p, c, n) == Some(c) && n < |p.slots| && Restorable(p.slots[n])
    ensures Standing(p, StepOf(p, c, n), n + 1) == Some(StepOf(p, c, n)) && EndOf(p, StepOf(p, c, n)) == EndOf(p, c)
  {
    StandNext(p, c, n);
  }

  /** The loop gets from slot n to slot m when every string between can be restored. */
  lemma LoadReaches(p: Pool, c: Cursor, n: nat, m: nat) returns (last: Cursor)
    requires Standing(p, c, n) == Some(c) && n <= m <= |p.slots|
    requires forall i :: n <= i < m ==> Restorable(p.slots[i])
    ensures Standing(p, last, m) == Some(last) && EndOf(p, last) == EndOf(p, c)
  {
    var stands := (d: Cursor, k: nat) => n <= k && Standing(p, d, k) == Some(d);
    var step := (d: Cursor, k: nat) => StepOf(p, d, k);
    var ends := (d: Cursor) => EndOf(p, d);
    forall d: Cursor, k: nat | stands(d, k) && k < m
      ensures stands(step(d, k), k + 1) && ends(step(d, k)) == ends(d)
    {
      StepStands(p, d, k);
    }
    last := Iterate(step, stands, ends, c, n, m);
  }

  /** The loop leaves the slots that it has passed, and the code page, alone. */
  lemma {:induction false} LoadKeeps(pool: seq<Byte>, data: seq<Byte>, c: Cursor)
    requires CursorOk(pool, data, c)
    ensures var last := LoadFrom(pool, data, c);
      && last.st.codepage == c.st.codepage
      && forall k :: 0 <= k < c.n && k < |c.st.slots| ==> last.st.slots[k] == c.st.slots[k]
    decreases |pool| / 4 - c.i
  {
    if c.i < |pool| / 4 && Advance(pool, data, c).Some? {
      LoadKeeps(pool, data, Advance(pool, data, c).value);
    }
  }

  lemma SpoilsHere(p: Pool, c: Cursor, n: nat) returns (last: Pool)
    requires Before(p, c, n) && n < |p.slots| && SlotReady(p.slots[n]) && !Restorable(p.slots[n]) && c.st.slots[n] == FREE
    ensures last == EndOf(p, c) && n < |last.slots| && last.slots[n] != Reopened(p.slots[n])
  {
    var before, rest := EntryStands(p, n);
    LongEntryWords(PoolBytes(p), before, p.slots[n], rest, c.i);
    UnitsGrow(p.slots, n + 1, |p.slots|);
    WrongCount(PoolBytes(p), DataBytes(p), c, p.slots[n]);
    last := LoadFrom(PoolBytes(p), DataBytes(p), c).st;
  }

  /** The count that is stored with a long string is the one in front of it. */
  lemma WrongCount(pool: seq<Byte>, data: seq<Byte>, c: Cursor, s: Slot)
    requires CursorOk(pool, data, c) && c.i < |pool| / 4 && c.n < |c.st.slots| && c.st.slots[c.n] == FREE
    requires s.persistent != 0 && PoolWord(pool, 2 * c.i + 1) !in {0, s.persistent}
    ensures LoadFrom(pool, data, c).st.slots[c.n] != Reopened(s)
  {
    var next := Advance(pool, data, c);
    if next.Some? {
      LoadKeeps(pool, data, next.value);
      assert next.value.st.slots[c.n].persistent in {0, PoolWord(pool, 2 * c.i + 1)};
    }
  }

  lemma HeaderExact(p: Pool)
    requires |p.slots| > 1 && p.codepage < TWO31
    ensures |PoolBytes(p)| == 4 * Units(p.slots, |p.slots|)
    ensures StoredCodepage(PoolBytes(p)) == p.codepage
    ensures StoredWidth(PoolBytes(p)) == RefWidth(|p.slots|)
  {
    EntriesSize(p.slots, |p.slots|);
    var w := HeaderWord(p);
    TwoWords(PoolBytes(p), [], Header(p), Entries(p.slots, |p.slots|), 0, w % TWO16, w / TWO16);
  }

  /** Reopening what was saved: code page and width are the old ones. Every persistent string is at its old
      id with its old count, and every other slot free, if and only if each string is short or has the high
      word of its length for its count; and then the index is valid again. */
  lemma RoundTrip(p: Pool)
    requires Valid(p) && LengthsFit(p.slots) && p.codepage < TWO31 && |p.slots| > 1
    ensures var q := Load(PoolBytes(p), DataBytes(p));
      && |q.slots| == Units(p.slots, |p.slots|) && q.codepage == p.codepage
      && (AllRestorable(p.slots) <==> forall i :: 0 <= i < |p.slots| ==> q.slots[i] == Reopened(p.slots[i]))
      && (AllRestorable(p.slots) ==> LoadedUpTo(p, q, |p.slots|))
    ensures StoredWidth(PoolBytes(p)) == RefWidth(|p.slots|)
  {
    HeaderExact(p);
    var st := Init(Units(p.slots, |p.slots|), p.codepage);
    var c := Cursor(st, 1, 1, 0);
    assert LoadedUpTo(p, st, 1) && Before(p, c, 1);
    assert Standing(p, c, 1) == Some(c);
    LoadKeeps(PoolBytes(p), DataBytes(p), c);
    if AllRestorable(p.slots) {
      var last := LoadReaches(p, c, 1, |p.slots|);
      assert EndOf(p, last) == last.st;
    } else {
      var bad := FirstSpoiled(p);
      var before := LoadReaches(p, c, 1, bad);
      ReadyAt(p, before.st, bad);
      var last := SpoilsHere(p, before, bad);
    }
  }

  /** A string of 0x20000 bytes that is referred to once does not come back. */
  lemma LongStringLost(s: Str)
    requires |s| == 0x20000 && NulFree(s)
    ensures var p := OneString(s, 1);
      Valid(p) && Load(PoolBytes(p), DataBytes(p)).slots[..2] != [FREE, Slot(1, 0, Some(s))]
  {
    var p := OneString(s, 1);
    OneStringValid(s, 1);
    assert StoredText(p.slots[1]) == s && !Restorable(p.slots[1]);
    RoundTrip(p);
    var q := Load(PoolBytes(p), DataBytes(p));
    var i :| 0 <= i < 2 && q.slots[i] != Reopened(p.slots[i]);
    assert q.slots[..2][i] == q.slots[i];
  }

  lemma FirstSpoiled(p: Pool) returns (bad: nat)
    requires Valid(p) && !AllRestorable(p.slots)
    ensures 1 <= bad < |p.slots| && !Restorable(p.slots[bad]) && forall i :: 1 <= i < bad ==> Restorable(p.slots[i])
  {
    assert Restorable(p.slots[0]);
    bad := 1;
    while Restorable(p.slots[bad])
      invariant 1 <= bad < |p.slots| && forall i :: 0 <= i < bad ==> Restorable(p.slots[i])
      decreases |p.slots| - bad
    {
      bad := bad + 1;
    }
  }

  /** A table that never held a string stores four bytes, and comes back with code page 0. */
  lemma EmptyRoundTrip(p: Pool)
    requires Valid(p) && |p.slots| == 1
    ensures Load(PoolBytes(p), DataBytes(p)) == Init(1, 0)
    ensures Load(PoolBytes(p), DataBytes(p)).codepage == p.codepage <==> p.codepage == 0
  {
  }

  /** Such a table with the code page of Western Europe. */
  lemma CodepageForgotten()
    ensures var p := Init(1, 1252);
      Valid(p) && p.codepage == 1252 && Load(PoolBytes(p), DataBytes(p)).codepage == 0
  {
    EmptyRoundTrip(Init(1, 1252));
  }
}
