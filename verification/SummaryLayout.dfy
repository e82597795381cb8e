/** The summary information stream in numbers and bytes: which code belongs to which property, where everything
    stands, that reading such a stream gives its values, and that writing gives such a stream
    (libmsi/libmsi-summary-info.c). */
module SummaryLayout {
  import opened Prelude
  import opened LittleEndian
  import opened SummaryInfo

  /** The four bytes at an offset, low one first. */
  ghost predicate DwordAt(data: seq<Byte>, ofs: nat, v: int) {
    && ofs + 4 <= |data|
    && v == data[ofs] as int + 0x100 * data[ofs + 1] as int + 0x1_0000 * data[ofs + 2] as int + 0x100_0000 * data[ofs + 3] as int
  }

  /** A value as it stands in the section: its code, 2, 3, 30 or 64, and its bytes. */
  ghost predicate ValueAt(data: seq<Byte>, at: nat, p: Prop) {
    match p
    case Empty => false
    case I2(i) => DwordAt(data, at, 2) && DwordAt(data, at + 4, if i < 0 then i + 0x1_0000_0000 else i)
    case I4(i) => DwordAt(data, at, 3) && DwordAt(data, at + 4, if i < 0 then i + 0x1_0000_0000 else i)
    case FileTime(t) =>
      && DwordAt(data, at, 64)
      && DwordAt(data, at + 4, t % 0x1_0000_0000) && DwordAt(data, at + 8, t / 0x1_0000_0000)
    case LpStr(s) =>
      && DwordAt(data, at, 30) && DwordAt(data, at + 4, |s| + 1) && at + 8 + |s| < |data|
      && (forall k :: 0 <= k < |s| ==> data[at + 8 + k] == s[k]) && data[at + 8 + |s|] == 0
  }

  /** An entry of the directory: the number of a property, where its value is, and the value. */
  datatype Item = Item(id: nat, at: nat, value: Prop)

  /** A section: size and number of entries, the directory, the values anywhere behind. */
  ghost predicate SectionLaid(data: seq<Byte>, items: seq<Item>) {
    && |data| < 0x8000_0000 && |items| <= 20
    && DwordAt(data, 0, |data|) && DwordAt(data, 4, |items|)
    && forall k :: 0 <= k < |items| ==> ItemLaid(data, k, items[k])
  }

  ghost predicate ItemLaid(data: seq<Byte>, k: nat, e: Item) {
    && DwordAt(data, 8 + 8 * k, e.id) && DwordAt(data, 12 + 8 * k, e.at)
    && NumberTakes(e.id, e.value) && InRange(e.value) && ValueAt(data, e.at, e.value)
  }

  /** A stream: byte order mark, format id, and where the section is. */
  ghost predicate StreamLaid(file: seq<Byte>, section: nat, items: seq<Item>) {
    && 48 <= |file| && section <= |file| && file[0] == 0xfe && file[1] == 0xff
    && file[28..44] == [0xe0, 0x85, 0x9f, 0xf2, 0xf9, 0x4f, 0x68, 0x10, 0xab, 0x91, 0x08, 0x00, 0x2b, 0x27, 0xb3, 0xd9]
    && DwordAt(file, 44, section) && SectionLaid(file[section..], items)
  }

  lemma FourByteWord(b: seq<Byte>)
    requires |b| == 4
    ensures Word(b) == b[0] as int + 0x100 * b[1] as int + 0x1_0000 * b[2] as int + 0x100_0000 * b[3] as int
  {
    assert Word(b[1..][1..][1..][1..]) == 0;
    assert Word(b[1..][1..][1..]) == b[3];
    assert Word(b[1..][1..]) == b[2] as int + 0x100 * b[3] as int;
    assert Word(b[1..]) == b[1] as int + 0x100 * (b[2] as int + 0x100 * b[3] as int);
  }

  lemma DwordRead(data: seq<Byte>, ofs: nat, v: int)
    requires ofs + 4 <= |data|
    ensures DwordAt(data, ofs, v) <==> ReadDword(data, ofs) == v
  {
    FourByteWord(Window(data, ofs, 4));
  }

  // ---------------------------------------------------------------------------------------------
  // Reading
  // ---------------------------------------------------------------------------------------------

  lemma TypesAre(id: nat, p: Prop)
    ensures id < MAX_PROPS && p != Empty && TypeOf(p) == GetType(id) <==> NumberTakes(id, p)
  {
  }

  lemma IntegerRead(w: nat, i: int)
    requires -TWO31 <= i < TWO31 && w == if i < 0 then i + TWO32 else i
    ensures Signed(w) == i
  {
  }

  lemma ValueRead(data: seq<Byte>, at: nat, p: Prop)
    requires ValueAt(data, at, p) && InRange(p) && |data| < TWO31
    ensures at + 4 <= |data| && RawValue(data, |data|, at) == Some(p)
  {
    match p {
      case I2(i) =>
        DwordRead(data, at, 2);
        DwordRead(data, at + 4, if i < 0 then i + TWO32 else i);
      case I4(i) =>
        DwordRead(data, at, 3);
        DwordRead(data, at + 4, if i < 0 then i + TWO32 else i);
      case FileTime(t) =>
        DwordRead(data, at, 64);
        DwordRead(data, at + 4, t % TWO32);
        DwordRead(data, at + 8, t / TWO32);
      case LpStr(s) =>
        DwordRead(data, at, 30);
        DwordRead(data, at + 4, |s| + 1);
        assert Window(data, at + 8, |s|) == s;
        StringRaw(data, at, s);
    }
  }

  lemma ItemRead(lib: Library, data: seq<Byte>, k: nat, e: Item, props: seq<Prop>)
    requires |data| < TWO31 && ItemLaid(data, k, e) && |props| == MAX_PROPS
    ensures e.id < MAX_PROPS && Reader(lib, data, |data|)(k, props) == Some(props[e.id := e.value])
  {
    DwordRead(data, 8 + 8 * k, e.id);
    DwordRead(data, 12 + 8 * k, e.at);
    TypesAre(e.id, e.value);
    ValueRead(data, e.at, e.value);
    EntryRead(lib, data, k, e.id, e.at, e.value, props);
  }

  lemma EntryRead(lib: Library, data: seq<Byte>, k: nat, id: nat, at: nat, p: Prop, props: seq<Prop>)
    requires ReadDword(data, 8 + 8 * k) == id && ReadDword(data, 12 + 8 * k) == at && at + 4 <= |data| < TWO31
    requires id < MAX_PROPS == |props| && p != Empty && TypeOf(p) == GetType(id) && RawValue(data, |data|, at) == Some(p)
    ensures Reader(lib, data, |data|)(k, props) == Some(props[id := p])
  {
    assert ReadEntry(lib, data, |data|, 8 + 8 * k, props) == ReadProperty(lib, data, |data|, id, at, props);
  }

  /** A text in the place of a number or a time is converted; a date that does not parse leaves the time that is
      there. Any other value of a wrong type ends the reading. */
  lemma OtherTypeRead(lib: Library, data: seq<Byte>, k: nat, id: nat, at: nat, p: Prop, props: seq<Prop>)
    requires |data| < TWO31 && |props| == MAX_PROPS && InRange(p) && ValueAt(data, at, p) && !NumberTakes(id, p)
    requires DwordAt(data, 8 + 8 * k, id) && DwordAt(data, 12 + 8 * k, at) && id < TWO31
    ensures var next := Reader(lib, data, |data|)(k, props);
      if p.LpStr? && id == 1 then next == Some(props[id := I2(ToInt32(lib.atoi(p.str)))])
      else if p.LpStr? && (id == 14 || id == 15 || id == 16 || id == 19) then next == Some(props[id := I4(ToInt32(lib.atoi(p.str)))])
      else if p.LpStr? && 10 <= id <= 13 then
        match lib.parseTime(p.str)
        case Some(t) => next == Some(props[id := FileTime(t % 0x1_0000_0000_0000_0000)])
        case None => next == Some(props[id := FileTime(if props[id].FileTime? then props[id].time else 0)])
      else next == None
  {
    DwordRead(data, 8 + 8 * k, id);
    DwordRead(data, 12 + 8 * k, at);
    ValueRead(data, at, p);
    AnyEntryRead(lib, data, k, id, at, p, props);
    TypesAre(id, p);
  }

  lemma AnyEntryRead(lib: Library, data: seq<Byte>, k: nat, id: nat, at: nat, p: Prop, props: seq<Prop>)
    requires ReadDword(data, 8 + 8 * k) == id < TWO31 && ReadDword(data, 12 + 8 * k) == at && at + 4 <= |data| < TWO31
    requires |props| == MAX_PROPS && RawValue(data, |data|, at) == Some(p)
    ensures Reader(lib, data, |data|)(k, props) ==
      if id >= MAX_PROPS || GetType(id) == VtEmpty || Converted(lib, GetType(id), props[id], p).None? then None
      else Some(props[id := Converted(lib, GetType(id), props[id], p).value])
  {
    assert ReadEntry(lib, data, |data|, 8 + 8 * k, props) == ReadProperty(lib, data, |data|, id, at, props);
  }

  /** The values of a list of entries, a later one replacing an earlier one. */
  function Assigned(items: seq<Item>, n: nat, props: seq<Prop>): (after: seq<Prop>)
    requires n <= |items|
    ensures |after| == |props|
  {
    if n == 0 then props
    else
      var before := Assigned(items, n - 1, props);
      if items[n - 1].id < |props| then before[items[n - 1].id := items[n - 1].value] else before
  }

  lemma NextRead(lib: Library, data: seq<Byte>, items: seq<Item>, n: nat, props: seq<Prop>)
    requires SectionLaid(data, items) && n < |items| && |props| == MAX_PROPS
    ensures Reader(lib, data, |data|)(n, Assigned(items, n, props)) == Some(Assigned(items, n + 1, props))
  {
    assert ItemLaid(data, n, items[n]);
    ItemRead(lib, data, n, items[n], Assigned(items, n, props));
  }

  lemma RoundsStep(round: Round, n: nat, m: nat, props: seq<Prop>, next: seq<Prop>)
    requires n < m && round(n, props) == Some(next)
    ensures Rounds(round, n, m, props) == Rounds(round, n + 1, m, next)
  {
  }

  lemma {:induction false} ItemsRead(lib: Library, data: seq<Byte>, items: seq<Item>, n: nat, props: seq<Prop>)
    requires SectionLaid(data, items) && n <= |items| && |props| == MAX_PROPS
    ensures Rounds(Reader(lib, data, |data|), n, |items|, Assigned(items, n, props)) == Assigned(items, |items|, props)
    decreases |items| - n
  {
    if n < |items| {
      NextRead(lib, data, items, n, props);
      RoundsStep(Reader(lib, data, |data|), n, |items|, Assigned(items, n, props), Assigned(items, n + 1, props));
      ItemsRead(lib, data, items, n + 1, props);
    }
  }

  /** Reading a stream that is laid out like this gives exactly its values. */
  lemma LaidIsLoaded(lib: Library, file: seq<Byte>, section: nat, items: seq<Item>, props: seq<Prop>)
    requires StreamLaid(file, section, items) && |props| == MAX_PROPS
    ensures Load(lib, file, props) == Assigned(items, |items|, props)
  {
    var data := file[section..];
    DwordRead(file, 44, section);
    DwordRead(data, 0, |data|);
    DwordRead(data, 4, |items|);
    SectionRead(file, section, data);
    assert Window(file, 28, 16) == file[28..44];
    ItemsRead(lib, data, items, 0, props);
  }

  lemma SectionRead(file: seq<Byte>, section: nat, data: seq<Byte>)
    requires section + 8 <= |file| && data == file[section..]
    ensures ReadDword(file, section) == ReadDword(data, 0) && ReadDword(file, section + 4) == ReadDword(data, 4)
  {
    assert Window(file, section, 4) == Window(data, 0, 4) && Window(file, section + 4, 4) == Window(data, 4, 4);
  }

  /** Every property has the value of its last entry. */
  lemma {:induction false} AssignedLast(items: seq<Item>, n: nat, k: nat, props: seq<Prop>)
    requires k < n <= |items| && items[k].id < |props|
    requires forall l :: k < l < n ==> items[l].id != items[k].id
    ensures Assigned(items, n, props)[items[k].id] == items[k].value
    decreases n
  {
    if k < n - 1 {
      AssignedLast(items, n - 1, k, props);
    }
  }

  /** And it stays as it was without one. */
  lemma {:induction false} NotAssigned(items: seq<Item>, n: nat, id: nat, props: seq<Prop>)
    requires n <= |items| && id < |props| && forall k :: 0 <= k < n ==> items[k].id != id
    ensures Assigned(items, n, props)[id] == props[id]
    decreases n
  {
    if n > 0 {
      NotAssigned(items, n - 1, id, props);
    }
  }

  // ---------------------------------------------------------------------------------------------
  // Writing
  // ---------------------------------------------------------------------------------------------

  lemma DwordStands(data: seq<Byte>, ofs: nat, v: int)
    requires Located(data, ofs, Dword(v)) && -TWO31 <= v < TWO32
    ensures DwordAt(data, ofs, if v < 0 then v + TWO32 else v)
  {
    DwordBack(data, ofs, v);
    DwordRead(data, ofs, if v < 0 then v + TWO32 else v);
  }

  lemma ValueStands(data: seq<Byte>, at: nat, p: Prop)
    requires Located(data, at, PropBytes(p)) && p != Empty && InRange(p) && |data| < TWO31
    ensures ValueAt(data, at, p)
  {
    match p {
      case I2(i) =>
        assert PropBytes(p) == Dword(2) + Dword(i);
        PairStands(data, at, 2, i);
      case I4(i) =>
        assert PropBytes(p) == Dword(3) + Dword(i);
        PairStands(data, at, 3, i);
      case FileTime(t) =>
        assert PropBytes(p) == Dword(64) + Dword(t % TWO32) + Dword(t / TWO32);
        LocatedParts(data, at, Dword(64) + Dword(t % TWO32), Dword(t / TWO32), at + 8);
        PairStands(data, at, 64, t % TWO32);
        DwordStands(data, at + 8, t / TWO32);
      case LpStr(s) =>
        var padding := Zeros(Size(p) - 8 - |s|);
        assert PropBytes(p) == Dword(30) + Dword(|s| + 1) + (s + padding);
        LocatedParts(data, at, Dword(30) + Dword(|s| + 1), s + padding, at + 8);
        PairStands(data, at, 30, |s| + 1);
        TextStands(data, at + 8, s, padding);
    }
  }

  lemma PairStands(data: seq<Byte>, at: nat, v: int, w: int)
    requires Located(data, at, Dword(v) + Dword(w)) && 0 <= v < TWO32 && -TWO31 <= w < TWO32
    ensures DwordAt(data, at, v) && DwordAt(data, at + 4, if w < 0 then w + TWO32 else w)
  {
    LocatedParts(data, at, Dword(v), Dword(w), at + 4);
    DwordStands(data, at, v);
    DwordStands(data, at + 4, w);
  }

  lemma TextStands(data: seq<Byte>, at: nat, s: Str, padding: seq<Byte>)
    requires Located(data, at, s + padding) && padding != [] && padding[0] == 0
    ensures at + |s| < |data| && (forall k :: 0 <= k < |s| ==> data[at + k] == s[k]) && data[at + |s|] == 0
  {
    var all := s + padding;
    assert data[at..at + |all|][|s|] == all[|s|] == padding[0];
    forall k | 0 <= k < |s|
      ensures data[at + k] == s[k]
    {
      assert data[at..at + |all|][k] == all[k];
    }
  }

  /** The entries that are written for the first n properties. */
  function Items(props: seq<Prop>, n: nat): (items: seq<Item>)
    requires n <= |props|
    ensures |items| == Count(props, n)
  {
    if n == 0 then []
    else Items(props, n - 1) + if props[n - 1] == Empty then [] else [Item(n - 1, Offset(props, n - 1), props[n - 1])]
  }

  lemma {:induction false} ItemsStand(props: seq<Prop>, data: seq<Byte>, n: nat)
    requires Typed(props) && n <= |props| && data == Section(props) && |data| < TWO31
    ensures forall k :: 0 <= k < |Items(props, n)| ==> ItemLaid(data, k, Items(props, n)[k])
  {
    if n > 0 {
      ItemsStand(props, data, n - 1);
      if props[n - 1] != Empty {
        ItemStands(props, data, n - 1);
      }
      forall k | 0 <= k < |Items(props, n)|
        ensures ItemLaid(data, k, Items(props, n)[k])
      {
        if k < |Items(props, n - 1)| {
          assert Items(props, n)[k] == Items(props, n - 1)[k];
        } else {
          assert k == Count(props, n - 1) && Items(props, n)[k] == Item(n - 1, Offset(props, n - 1), props[n - 1]);
        }
      }
    }
  }

  lemma ItemStands(props: seq<Prop>, data: seq<Byte>, j: nat)
    requires Typed(props) && j < |props| && props[j] != Empty && data == Section(props) && |data| < TWO31
    ensures ItemLaid(data, Count(props, j), Item(j, Offset(props, j), props[j]))
  {
    SectionOffsets(props, j);
    assert Entry(props, j) == Dword(j) + Dword(Offset(props, j)) && Offset(props, j) < TWO31;
    EntryWords(data, Count(props, j), j, Offset(props, j));
    ValueStands(data, Offset(props, j), props[j]);
    TypesAre(j, props[j]);
  }

  lemma EntryWords(data: seq<Byte>, k: nat, id: nat, at: nat)
    requires Located(data, 8 + 8 * k, Dword(id) + Dword(at)) && id < TWO31 && at < TWO31
    ensures DwordAt(data, 8 + 8 * k, id) && DwordAt(data, 12 + 8 * k, at)
  {
    PairStands(data, 8 + 8 * k, id, at);
  }

  /** What is written is laid out like this. */
  lemma StreamIsLaid(props: seq<Prop>)
    requires Typed(props) && SectionSize(props) < TWO31
    ensures StreamLaid(Stream(props), 48, Items(props, |props|))
  {
    var file, data := Stream(props), Section(props);
    SectionLength(props);
    assert file[48..] == data;
    SectionOpens(props, data);
    PairStands(data, 0, SectionSize(props), Count(props, |props|));
    ItemsStand(props, data, |props|);
    HeaderStands(file, data);
  }

  lemma HeaderStands(file: seq<Byte>, data: seq<Byte>)
    requires file == SetHeader() + data
    ensures |file| >= 48 && file[0] == 0xfe && file[1] == 0xff && DwordAt(file, 44, 48)
    ensures file[28..44] == [0xe0, 0x85, 0x9f, 0xf2, 0xf9, 0x4f, 0x68, 0x10, 0xab, 0x91, 0x08, 0x00, 0x2b, 0x27, 0xb3, 0xd9]
  {
    var start := [0xfe, 0xff, 0, 0] + Dword(0x0002_0005) + Zeros(16) + Dword(1);
    assert SetHeader() == start + FMTID_SUMMARY + Dword(48) && |start| == 28;
    assert file[28..44] == FMTID_SUMMARY;
    assert file[44..48] == Dword(48);
    DwordStands(file, 44, 48);
  }
}
