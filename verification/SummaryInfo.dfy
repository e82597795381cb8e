/** The summary information: a property set stream ([MS-OLEPS] sections 2.20 and 2.21) written and read by
    libmsi/libmsi-summary-info.c. */
module SummaryInfo {
  import opened Prelude
  import opened LittleEndian

  const MAX_PROPS := 20

  /** A property: its variant type and its value; integers are 32-bit, file times 64-bit. */
  datatype Prop = Empty | I2(int2: int) | I4(int4: int) | LpStr(str: Str) | FileTime(time: nat)

  datatype VarType = VtEmpty | VtI2 | VtI4 | VtLpStr | VtFileTime

  function TypeOf(p: Prop): VarType {
    match p
    case Empty => VtEmpty
    case I2(_) => VtI2
    case I4(_) => VtI4
    case LpStr(_) => VtLpStr
    case FileTime(_) => VtFileTime
  }

  /** The number of a variant type. */
  function Code(t: VarType): nat {
    match t
    case VtEmpty => 0
    case VtI2 => 2
    case VtI4 => 3
    case VtLpStr => 30
    case VtFileTime => 64
  }

  /** get_type. */
  function GetType(id: int): VarType {
    if id == 1 then VtI2
    else if 2 <= id <= 9 || id == 18 then VtLpStr
    else if 10 <= id <= 13 then VtFileTime
    else if id == 14 || id == 15 || id == 16 || id == 19 then VtI4
    else VtEmpty
  }

  /** The code page is a 16-bit integer; 2 to 9 and 18 are texts, 10 to 13 times, 14, 15, 16 and 19 integers. */
  predicate NumberTakes(id: nat, p: Prop) {
    || (id == 1 && p.I2?)
    || ((2 <= id <= 9 || id == 18) && p.LpStr?)
    || (10 <= id <= 13 && p.FileTime?)
    || ((id == 14 || id == 15 || id == 16 || id == 19) && p.I4?)
  }

  predicate InRange(p: Prop) {
    match p
    case Empty => true
    case I2(i) => -TWO31 <= i < TWO31
    case I4(i) => -TWO31 <= i < TWO31
    case LpStr(s) => NulFree(s)
    case FileTime(t) => t < TWO32 * TWO32
  }

  /** Every property that is set has the type of its number. */
  predicate Typed(props: seq<Prop>) {
    && |props| == MAX_PROPS
    && forall i :: 0 <= i < MAX_PROPS ==> InRange(props[i]) && (props[i] == Empty || TypeOf(props[i]) == GetType(i))
  }

  // ---------------------------------------------------------------------------------------------
  // Layout
  // ---------------------------------------------------------------------------------------------

  function Dword(v: int): (b: seq<Byte>)
    ensures |b| == 4
  {
    Bytes(v % TWO32, 4)
  }

  /** Bytes of a property; what write_property_to_data returns. */
  function Size(p: Prop): nat {
    match p
    case Empty => 0
    case I2(_) => 8
    case I4(_) => 8
    case FileTime(_) => 12
    case LpStr(s) => 4 + (7 + (|s| + 1)) / 4 * 4
  }

  /** A TypedPropertyValue: type, value, and padding to a multiple of four bytes. */
  function PropBytes(p: Prop): (b: seq<Byte>)
    ensures |b| == Size(p)
  {
    match p
    case Empty => []
    case I2(i) => Dword(Code(VtI2)) + Dword(i)
    case I4(i) => Dword(Code(VtI4)) + Dword(i)
    case FileTime(t) => Dword(Code(VtFileTime)) + Dword(t % TWO32) + Dword(t / TWO32)
    case LpStr(s) => Dword(Code(VtLpStr)) + Dword(|s| + 1) + (s + Zeros(Size(p) - 8 - |s|))
  }

  /** Set properties among the first n. */
  function Count(props: seq<Prop>, n: nat): (c: nat)
    requires n <= |props|
    ensures c <= n
  {
    if n == 0 then 0 else Count(props, n - 1) + if props[n - 1] == Empty then 0 else 1
  }

  function SizeBefore(props: seq<Prop>, n: nat): nat
    requires n <= |props|
  {
    if n == 0 then 0 else SizeBefore(props, n - 1) + Size(props[n - 1])
  }

  /** Where the directory entry of property i is, and where the property is, from the start of the section. */
  function EntryPlace(props: seq<Prop>, i: nat): nat
    requires i <= |props|
  {
    8 + 8 * Count(props, i)
  }

  function Offset(props: seq<Prop>, i: nat): nat
    requires i <= |props|
  {
    8 + 8 * Count(props, |props|) + SizeBefore(props, i)
  }

  /** The PropertyIdentifierAndOffset of property i, if it is set. */
  function Entry(props: seq<Prop>, i: nat): seq<Byte>
    requires i < |props|
  {
    if props[i] == Empty then [] else Dword(i) + Dword(Offset(props, i))
  }

  function DirectoryFrom(props: seq<Prop>, i: nat): (b: seq<Byte>)
    requires i <= |props|
    decreases |props| - i
  {
    if i == |props| then [] else Entry(props, i) + DirectoryFrom(props, i + 1)
  }

  function ValuesFrom(props: seq<Prop>, i: nat): (b: seq<Byte>)
    requires i <= |props|
    decreases |props| - i
  {
    if i == |props| then [] else PropBytes(props[i]) + ValuesFrom(props, i + 1)
  }

  function SectionSize(props: seq<Prop>): nat { Offset(props, |props|) }

  /** The size and count that a section starts with. */
  function SectionHead(props: seq<Prop>): (b: seq<Byte>)
    ensures |b| == 8
  {
    Dword(SectionSize(props)) + Dword(Count(props, |props|))
  }

  function Section(props: seq<Prop>): seq<Byte> {
    SectionHead(props) + (DirectoryFrom(props, 0) + ValuesFrom(props, 0))
  }

  const FMTID_SUMMARY: seq<Byte> :=
    [0xe0, 0x85, 0x9f, 0xf2, 0xf9, 0x4f, 0x68, 0x10, 0xab, 0x91, 0x08, 0x00, 0x2b, 0x27, 0xb3, 0xd9]

  /** The set header and the format header. */
  function SetHeader(): (b: seq<Byte>)
    ensures |b| == 48
  {
    [0xfe, 0xff, 0, 0] + Dword(0x0002_0005) + Zeros(16) + Dword(1) + FMTID_SUMMARY + Dword(48)
  }

  function Stream(props: seq<Prop>): seq<Byte> { SetHeader() + Section(props) }

  lemma {:induction false} DirectoryLength(props: seq<Prop>, i: nat)
    requires i <= |props|
    ensures |DirectoryFrom(props, i)| == 8 * (Count(props, |props|) - Count(props, i))
    decreases |props| - i
  {
    if i < |props| {
      DirectoryLength(props, i + 1);
    }
  }

  lemma ValuesStep(props: seq<Prop>, i: nat)
    requires i < |props|
    ensures |ValuesFrom(props, i)| == |PropBytes(props[i])| + |ValuesFrom(props, i + 1)|
    ensures SizeBefore(props, i + 1) == SizeBefore(props, i) + |PropBytes(props[i])|
  {
  }

  lemma {:induction false} ValuesLength(props: seq<Prop>, i: nat)
    requires i <= |props|
    ensures |ValuesFrom(props, i)| == SizeBefore(props, |props|) - SizeBefore(props, i)
    decreases |props| - i
  {
    if i < |props| {
      ValuesLength(props, i + 1);
      ValuesStep(props, i);
    }
  }

  /** The section size that is written is the size of the section. */
  lemma SectionLength(props: seq<Prop>)
    ensures |Section(props)| == SectionSize(props) && |Stream(props)| == 28 + 20 + SectionSize(props)
  {
    DirectoryLength(props, 0);
    ValuesLength(props, 0);
  }

  // ---------------------------------------------------------------------------------------------
  // Reading
  // ---------------------------------------------------------------------------------------------

  /** Addition of two unsigned 32-bit numbers. */
  function AddU32(a: nat, b: nat): nat { if a + b < TWO32 then a + b else a + b - TWO32 }

  /** An unsigned 32-bit number as a C int. */
  function Signed(w: nat): int { if w < TWO31 then w else w - TWO32 }

  /** Bytes of the stream; what lies past its end is taken as 0. */
  function Window(data: seq<Byte>, ofs: nat, n: nat): (b: seq<Byte>)
    ensures |b| == n && forall k :: 0 <= k < n ==> b[k] == ByteAt(data, ofs + k)
  {
    (data + Zeros(ofs + n))[ofs..ofs + n]
  }

  /** read_dword. */
  function ReadDword(data: seq<Byte>, ofs: nat): (v: nat)
    ensures v < TWO32
  {
    WordBound(Window(data, ofs, 4));
    Word(Window(data, ofs, 4))
  }

  /** Conversions that the C library makes: atoi, and the date parser, which may leave the value alone. */
  datatype Library = Library(atoi: Str -> int, parseTime: Str -> Option<nat>)

  /** A value as it is stored, before the check of its type; None when it is cut off or unknown. */
  function RawValue(data: seq<Byte>, sz: nat, ofs: nat): Option<Prop> {
    var code, v := ReadDword(data, ofs), AddU32(ofs, 4);
    if AddU32(v, 4) > sz then None
    else if code == 2 then Some(I2(Signed(ReadDword(data, v))))
    else if code == 3 then Some(I4(Signed(ReadDword(data, v))))
    else if code == 64 then
      if AddU32(v, 8) > sz then None
      else Some(FileTime(ReadDword(data, v) + TWO32 * ReadDword(data, AddU32(v, 4))))
    else if code == 30 then
      var len, s := ReadDword(data, v), AddU32(v, 4);
      if len == 0 || AddU32(s, len) > sz then None
      else Some(LpStr(CString(Window(data, s, len - 1))))
    else None
  }

  /** The value as property type t keeps it; a string is converted. */
  function Converted(lib: Library, t: VarType, was: Prop, raw: Prop): Option<Prop> {
    if TypeOf(raw) == t then Some(raw)
    else if !raw.LpStr? then None
    else match t
      case VtI2 => Some(I2(ToInt32(lib.atoi(raw.str))))
      case VtI4 => Some(I4(ToInt32(lib.atoi(raw.str))))
      case VtFileTime =>
        var time := lib.parseTime(raw.str);
        Some(FileTime(if time.Some? then time.value % (TWO32 * TWO32) else if was.FileTime? then was.time else 0))
      case _ => None
  }

  /** One round of read_properties_from_data on a directory entry; None ends the loop. */
  function ReadProperty(lib: Library, data: seq<Byte>, sz: nat, id: int, at: nat, props: seq<Prop>): Option<seq<Prop>> {
    if id >= MAX_PROPS then None
    else if GetType(id) == VtEmpty || id >= |props| then None
    else if AddU32(at, 4) > sz then None
    else
      var raw := RawValue(data, sz, at);
      if raw.None? then None
      else
        var value := Converted(lib, GetType(id), props[id], raw.value);
        if value.None? then None else Some(props[id := value.value])
  }

  /** The round on the entry at `ofs`. */
  function ReadEntry(lib: Library, data: seq<Byte>, sz: nat, ofs: nat, props: seq<Prop>): Option<seq<Prop>> {
    ReadProperty(lib, data, sz, Signed(ReadDword(data, ofs)), ReadDword(data, ofs + 4), props)
  }

  /** A round of the loop: from the number of an entry and the properties so far to the new properties. */
  type Round = (nat, seq<Prop>) -> Option<seq<Prop>>

  function Reader(lib: Library, data: seq<Byte>, sz: nat): Round {
    (i: nat, props: seq<Prop>) => ReadEntry(lib, data, sz, 8 + 8 * i, props)
  }

  /** Rounds i, i + 1, ... up to n, or to the first that ends the loop. */
  function Rounds(round: Round, i: nat, n: nat, props: seq<Prop>): seq<Prop>
    decreases n - i
  {
    if i >= n then props
    else
      var next := round(i, props);
      if next.None? then props else Rounds(round, i + 1, n, next.value)
  }

  function NoProps(): (props: seq<Prop>)
    ensures |props| == MAX_PROPS && forall i :: 0 <= i < MAX_PROPS ==> props[i] == Empty
  {
    seq(MAX_PROPS, _ => Empty)
  }

  /** load_summary_info: the properties after loading a stream into `props`. */
  function Load(lib: Library, file: seq<Byte>, props: seq<Prop>): seq<Prop> {
    if file == [] || ByteAt(file, 0) + 0x100 * ByteAt(file, 1) != 0xfffe || Window(file, 28, 16) != FMTID_SUMMARY then props
    else
      var section := ReadDword(file, 44);
      var size, count := ReadDword(file, section), ReadDword(file, section + 4);
      if count > MAX_PROPS then props
      else Rounds(Reader(lib, if section <= |file| then file[section..] else [], size), 0, count, props)
  }

  // ---------------------------------------------------------------------------------------------
  // Round trip
  // ---------------------------------------------------------------------------------------------

  /** The bytes stand at this offset. */
  predicate Located(data: seq<Byte>, ofs: nat, b: seq<Byte>) {
    ofs + |b| <= |data| && data[ofs..ofs + |b|] == b
  }

  lemma LocatedParts(data: seq<Byte>, ofs: nat, a: seq<Byte>, b: seq<Byte>, mid: nat)
    requires Located(data, ofs, a + b) && mid == ofs + |a|
    ensures Located(data, ofs, a) && Located(data, mid, b)
  {
    assert a == (a + b)[..|a|] && b == (a + b)[|a|..];
  }

  lemma WindowBack(data: seq<Byte>, ofs: nat, b: seq<Byte>)
    requires Located(data, ofs, b)
    ensures Window(data, ofs, |b|) == b
  {
  }

  /** A double word that is written is read back, whatever stands around it. */
  lemma DwordBack(data: seq<Byte>, ofs: nat, v: int)
    requires Located(data, ofs, Dword(v))
    ensures ReadDword(data, ofs) == v % TWO32 && (0 <= v < TWO32 ==> ReadDword(data, ofs) == v)
  {
    WindowBack(data, ofs, Dword(v));
    WordBytes(v % TWO32, 4);
  }

  lemma TwoDwordsBack(data: seq<Byte>, ofs: nat, v: int, w: int)
    requires Located(data, ofs, Dword(v) + Dword(w))
    ensures ReadDword(data, ofs) == v % TWO32 && (0 <= v < TWO32 ==> ReadDword(data, ofs) == v)
    ensures ReadDword(data, ofs + 4) == w % TWO32 && (0 <= w < TWO32 ==> ReadDword(data, ofs + 4) == w)
  {
    LocatedParts(data, ofs, Dword(v), Dword(w), ofs + 4);
    DwordBack(data, ofs, v);
    DwordBack(data, ofs + 4, w);
  }

  lemma StringRaw(data: seq<Byte>, ofs: nat, s: Str)
    requires ofs + 8 + |s| + 1 <= |data| < TWO31 && NulFree(s)
    requires ReadDword(data, ofs) == 30 && ReadDword(data, ofs + 4) == |s| + 1 && Window(data, ofs + 8, |s|) == s
    ensures RawValue(data, |data|, ofs) == Some(LpStr(s))
  {
    CStringWhole(s);
  }

  lemma TimeBack(data: seq<Byte>, ofs: nat, t: nat)
    requires Located(data, ofs, Dword(64) + Dword(t % TWO32) + Dword(t / TWO32)) && t < TWO32 * TWO32 && |data| < TWO31
    ensures RawValue(data, |data|, ofs) == Some(FileTime(t))
  {
    LocatedParts(data, ofs, Dword(64) + Dword(t % TWO32), Dword(t / TWO32), ofs + 8);
    TwoDwordsBack(data, ofs, 64, t % TWO32);
    DwordBack(data, ofs + 8, t / TWO32);
  }

  lemma StringBack(data: seq<Byte>, ofs: nat, s: Str, padding: seq<Byte>)
    requires Located(data, ofs, Dword(30) + Dword(|s| + 1) + (s + padding))
    requires NulFree(s) && padding != [] && |data| < TWO31
    ensures RawValue(data, |data|, ofs) == Some(LpStr(s))
  {
    LocatedParts(data, ofs, Dword(30) + Dword(|s| + 1), s + padding, ofs + 8);
    TwoDwordsBack(data, ofs, 30, |s| + 1);
    LocatedParts(data, ofs + 8, s, padding, ofs + 8 + |s|);
    WindowBack(data, ofs + 8, s);
    StringRaw(data, ofs, s);
  }

  /** A property that is written is read back. */
  lemma RawBack(data: seq<Byte>, ofs: nat, p: Prop)
    requires Located(data, ofs, PropBytes(p)) && p != Empty && InRange(p) && |data| < TWO31
    ensures ofs + 4 <= |data| && RawValue(data, |data|, ofs) == Some(p)
  {
    match p {
      case I2(i) =>
        TwoDwordsBack(data, ofs, 2, i);
      case I4(i) =>
        TwoDwordsBack(data, ofs, 3, i);
      case FileTime(t) => TimeBack(data, ofs, t);
      case LpStr(s) => StringBack(data, ofs, s, Zeros(Size(p) - 8 - |s|));
    }
  }

  /** What has been read after the entries of the first i properties. */
  function ReadSoFar(props: seq<Prop>, i: nat): (acc: seq<Prop>)
    requires i <= |props|
    ensures |acc| == |props|
  {
    props[..i] + seq(|props| - i, _ => Empty)
  }

  /** One entry of the directory gives its property. */
  lemma EntryBack(lib: Library, p: Prop, i: nat, at: nat, data: seq<Byte>, ofs: nat, acc: seq<Prop>)
    requires i < MAX_PROPS && p != Empty && InRange(p) && TypeOf(p) == GetType(i) && |data| < TWO31 && |acc| == MAX_PROPS
    requires Located(data, ofs, Dword(i) + Dword(at)) && Located(data, at, PropBytes(p))
    ensures ReadEntry(lib, data, |data|, ofs, acc) == Some(acc[i := p])
  {
    TwoDwordsBack(data, ofs, i, at);
    RawBack(data, at, p);
  }

  /** If every entry gives its property, then the loop gives the properties that were written. */
  lemma {:induction false} RoundsBack(round: Round, props: seq<Prop>, i: nat)
    requires i <= |props|
    requires forall j :: i <= j < |props| && props[j] != Empty ==>
      round(Count(props, j), ReadSoFar(props, j)) == Some(ReadSoFar(props, j + 1))
    ensures Rounds(round, Count(props, i), Count(props, |props|), ReadSoFar(props, i)) == props
    decreases |props| - i
  {
    if i == |props| {
      assert ReadSoFar(props, i) == props;
    } else {
      SoFar(props, i);
      RoundsBack(round, props, i + 1);
    }
  }

  /** The directory and the values, one property further. */
  lemma PlaceFound(props: seq<Prop>, i: nat, data: seq<Byte>)
    requires i < |props|
    requires Located(data, EntryPlace(props, i), DirectoryFrom(props, i))
    requires Located(data, Offset(props, i), ValuesFrom(props, i))
    ensures Located(data, EntryPlace(props, i), Entry(props, i))
    ensures Located(data, EntryPlace(props, i + 1), DirectoryFrom(props, i + 1))
    ensures Located(data, Offset(props, i), PropBytes(props[i]))
    ensures Located(data, Offset(props, i + 1), ValuesFrom(props, i + 1))
  {
    LocatedParts(data, EntryPlace(props, i), Entry(props, i), DirectoryFrom(props, i + 1), EntryPlace(props, i + 1));
    LocatedParts(data, Offset(props, i), PropBytes(props[i]), ValuesFrom(props, i + 1), Offset(props, i + 1));
  }

  lemma StepBack(lib: Library, props: seq<Prop>, i: nat, data: seq<Byte>, ofs: nat)
    requires Typed(props) && i < MAX_PROPS && |data| < TWO31 && props[i] != Empty
    requires Located(data, ofs, Entry(props, i)) && Located(data, Offset(props, i), PropBytes(props[i]))
    ensures ReadEntry(lib, data, |data|, ofs, ReadSoFar(props, i)) == Some(ReadSoFar(props, i + 1))
  {
    EntryBack(lib, props[i], i, Offset(props, i), data, ofs, ReadSoFar(props, i));
    NextReadSoFar(props, i);
  }

  lemma NextReadSoFar(props: seq<Prop>, i: nat)
    requires Typed(props) && i < MAX_PROPS
    ensures ReadSoFar(props, i)[i := props[i]] == ReadSoFar(props, i + 1)
  {
  }

  /** What one property adds to the directory and to what has been read. */
  lemma SoFar(props: seq<Prop>, i: nat)
    requires i < |props|
    ensures props[i] == Empty ==> Count(props, i + 1) == Count(props, i) && ReadSoFar(props, i + 1) == ReadSoFar(props, i)
    ensures props[i] != Empty ==> Count(props, i + 1) == Count(props, i) + 1 <= Count(props, |props|)
  {
    CountMonotone(props, i + 1, |props|);
    if props[i] == Empty {
      assert ReadSoFar(props, i) == ReadSoFar(props, i + 1);
    }
  }

  lemma {:induction false} CountMonotone(props: seq<Prop>, i: nat, j: nat)
    requires i <= j <= |props|
    ensures Count(props, i) <= Count(props, j)
  {
    if i < j {
      CountMonotone(props, i, j - 1);
    }
  }

  /** Round trip: whatever typed properties are written, reading the stream gives them back, as long as
      the size of the section fits an int. */
  lemma RoundTrip(lib: Library, props: seq<Prop>)
    requires Typed(props) && SectionSize(props) < TWO31
    ensures Load(lib, Stream(props), NoProps()) == props
  {
    SectionLength(props);
    SectionOpens(props, Section(props));
    LoadOpens(lib, props, Section(props), NoProps());
    AllLocated(props);
    EveryEntryBack(lib, props, Section(props));
    RoundsBack(Reader(lib, Section(props), SectionSize(props)), props, 0);
    assert NoProps() == ReadSoFar(props, 0);
  }

  /** Every entry of the section that was written gives its property. */
  lemma EveryEntryBack(lib: Library, props: seq<Prop>, data: seq<Byte>)
    requires Typed(props) && |data| < TWO31
    requires forall j :: 0 <= j < |props| ==> EntryLocated(props, data, j)
    ensures forall j :: 0 <= j < |props| && props[j] != Empty ==>
      Reader(lib, data, |data|)(Count(props, j), ReadSoFar(props, j)) == Some(ReadSoFar(props, j + 1))
  {
    forall j | 0 <= j < |props| && props[j] != Empty
      ensures Reader(lib, data, |data|)(Count(props, j), ReadSoFar(props, j)) == Some(ReadSoFar(props, j + 1))
    {
      assert EntryLocated(props, data, j);
      ThatEntryBack(lib, props, j, data);
    }
  }

  lemma ThatEntryBack(lib: Library, props: seq<Prop>, j: nat, data: seq<Byte>)
    requires Typed(props) && |data| < TWO31 && EntryLocated(props, data, j) && props[j] != Empty
    ensures Reader(lib, data, |data|)(Count(props, j), ReadSoFar(props, j)) == Some(ReadSoFar(props, j + 1))
  {
    StepBack(lib, props, j, data, EntryPlace(props, j));
    ReaderReads(lib, data, Count(props, j), ReadSoFar(props, j), Some(ReadSoFar(props, j + 1)));
  }

  /** The entry and the value of property j are where they should be. */
  ghost predicate EntryLocated(props: seq<Prop>, data: seq<Byte>, j: nat) {
    j < |props| && Located(data, EntryPlace(props, j), Entry(props, j)) && Located(data, Offset(props, j), PropBytes(props[j]))
  }

  lemma AllLocated(props: seq<Prop>)
    ensures forall j :: 0 <= j < |props| ==> EntryLocated(props, Section(props), j)
  {
    forall j | 0 <= j < |props|
      ensures EntryLocated(props, Section(props), j)
    {
      SectionOffsets(props, j);
    }
  }

  lemma ReaderReads(lib: Library, data: seq<Byte>, k: nat, acc: seq<Prop>, next: Option<seq<Prop>>)
    requires ReadEntry(lib, data, |data|, 8 + 8 * k, acc) == next
    ensures Reader(lib, data, |data|)(k, acc) == next
  {
  }

  lemma SectionOpens(props: seq<Prop>, section: seq<Byte>)
    requires section == Section(props)
    ensures Located(section, 0, SectionHead(props))
    ensures Located(section, 8, DirectoryFrom(props, 0))
    ensures Located(section, Offset(props, 0), ValuesFrom(props, 0))
  {
    var rest := DirectoryFrom(props, 0) + ValuesFrom(props, 0);
    assert Located(section, 0, SectionHead(props) + rest);
    LocatedParts(section, 0, SectionHead(props), rest, 8);
    DirectoryLength(props, 0);
    LocatedParts(section, 8, DirectoryFrom(props, 0), ValuesFrom(props, 0), Offset(props, 0));
  }

  lemma LoadOpens(lib: Library, props: seq<Prop>, section: seq<Byte>, before: seq<Prop>)
    requires Typed(props) && SectionSize(props) < TWO31 && Located(section, 0, SectionHead(props))
    ensures Load(lib, SetHeader() + section, before) ==
      Rounds(Reader(lib, section, SectionSize(props)), 0, Count(props, |props|), before)
  {
    var file := SetHeader() + section;
    HeaderBack(section);
    TwoDwordsBack(file, 48, SectionSize(props), Count(props, |props|));
    assert file[48..] == section;
  }

  lemma HeaderBack(section: seq<Byte>)
    ensures var file := SetHeader() + section;
      && ByteAt(file, 0) + 0x100 * ByteAt(file, 1) == 0xfffe
      && Window(file, 28, 16) == FMTID_SUMMARY && ReadDword(file, 44) == 48
  {
    var file := SetHeader() + section;
    var start: seq<Byte> := [0xfe, 0xff, 0, 0] + Dword(0x0002_0005) + Zeros(16) + Dword(1);
    assert Located(file, 0, start + FMTID_SUMMARY + Dword(48));
    LocatedParts(file, 0, start + FMTID_SUMMARY, Dword(48), 44);
    LocatedParts(file, 0, start, FMTID_SUMMARY, 28);
    WindowBack(file, 28, FMTID_SUMMARY);
    DwordBack(file, 44, 48);
    assert file[0] == start[0] && file[1] == start[1];
  }

  /** Every entry of the directory stands in its place, and its offset points at the value. */
  lemma {:induction false} OffsetsPoint(props: seq<Prop>, i: nat, j: nat, data: seq<Byte>)
    requires i <= j < |props|
    requires Located(data, EntryPlace(props, i), DirectoryFrom(props, i))
    requires Located(data, Offset(props, i), ValuesFrom(props, i))
    ensures Located(data, EntryPlace(props, j), Entry(props, j)) && Located(data, Offset(props, j), PropBytes(props[j]))
    decreases j - i
  {
    PlaceFound(props, i, data);
    if i < j {
      OffsetsPoint(props, i + 1, j, data);
    }
  }

  lemma SectionOffsets(props: seq<Prop>, j: nat)
    requires j < |props|
    ensures Located(Section(props), EntryPlace(props, j), Entry(props, j))
    ensures Located(Section(props), Offset(props, j), PropBytes(props[j]))
  {
    SectionOpens(props, Section(props));
    OffsetsPoint(props, 0, j, Section(props));
  }

  /** Values start at multiples of four. */
  lemma OffsetAligned(props: seq<Prop>, n: nat)
    requires n <= |props|
    ensures Offset(props, n) % 4 == 0
  {
    Aligned(props, n);
    var c, s := Count(props, |props|), SizeBefore(props, n);
    assert Offset(props, n) == 4 * (2 + 2 * c + s / 4);
  }

  lemma {:induction false} Aligned(props: seq<Prop>, n: nat)
    requires n <= |props|
    ensures SizeBefore(props, n) % 4 == 0
  {
    if n > 0 {
      Aligned(props, n - 1);
      assert Size(props[n - 1]) % 4 == 0;
    }
  }

  // ---------------------------------------------------------------------------------------------
  // Types are kept
  // ---------------------------------------------------------------------------------------------

  lemma {:induction false} CStringNulFree(b: seq<Byte>)
    ensures NulFree(CString(b))
  {
    if b != [] && b[0] != 0 {
      CStringNulFree(b[1..]);
      var s := CString(b);
      assert forall k :: 1 <= k < |s| ==> s[k] == CString(b[1..])[k - 1];
    }
  }

  lemma RawInRange(data: seq<Byte>, sz: nat, ofs: nat)
    ensures RawValue(data, sz, ofs).Some? ==> InRange(RawValue(data, sz, ofs).value) && RawValue(data, sz, ofs).value != Empty
  {
    var v := AddU32(ofs, 4);
    var len, s := ReadDword(data, v), AddU32(v, 4);
    if len > 0 {
      CStringNulFree(Window(data, s, len - 1));
    }
  }

  lemma EntryTyped(lib: Library, data: seq<Byte>, sz: nat, ofs: nat, props: seq<Prop>)
    requires Typed(props)
    ensures ReadEntry(lib, data, sz, ofs, props).Some? ==> Typed(ReadEntry(lib, data, sz, ofs, props).value)
  {
    RawInRange(data, sz, ReadDword(data, ofs + 4));
  }

  lemma {:induction false} RoundsTyped(round: Round, i: nat, n: nat, props: seq<Prop>)
    requires Typed(props) && forall k, acc :: Typed(acc) && round(k, acc).Some? ==> Typed(round(k, acc).value)
    ensures Typed(Rounds(round, i, n, props))
    decreases n - i
  {
    if i < n && round(i, props).Some? {
      RoundsTyped(round, i + 1, n, round(i, props).value);
    }
  }

  /** Whatever bytes are loaded, every property that is set has the type of its number. */
  lemma LoadTyped(lib: Library, file: seq<Byte>, props: seq<Prop>)
    requires Typed(props)
    ensures Typed(Load(lib, file, props))
  {
    var section := ReadDword(file, 44);
    var data, size := if section <= |file| then file[section..] else [], ReadDword(file, section);
    forall k: nat, acc | Typed(acc)
      ensures Reader(lib, data, size)(k, acc).Some? ==> Typed(Reader(lib, data, size)(k, acc).value)
    {
      EntryTyped(lib, data, size, 8 + 8 * k, acc);
    }
    RoundsTyped(Reader(lib, data, size), 0, ReadDword(file, section + 4), props);
  }

  // ---------------------------------------------------------------------------------------------
  // Writing
  // ---------------------------------------------------------------------------------------------

  /** The buffer holds what was written, and zeros after it. */
  ghost predicate Filled(data: array<Byte>, done: seq<Byte>)
    reads data
  {
    && |done| <= data.Length && data[..|done|] == done
    && forall k :: |done| <= k < data.Length ==> data[k] == 0
  }

  lemma FourBytes(w: nat)
    ensures Bytes(w, 4) == [w % 0x100, w / 0x100 % 0x100, w / 0x100 / 0x100 % 0x100, w / 0x100 / 0x100 / 0x100 % 0x100]
  {
    assert Bytes(w / 0x100 / 0x100 / 0x100, 1) == [w / 0x100 / 0x100 / 0x100 % 0x100];
    assert Bytes(w / 0x100 / 0x100, 2) == [w / 0x100 / 0x100 % 0x100, w / 0x100 / 0x100 / 0x100 % 0x100];
    assert Bytes(w / 0x100, 3) == [w / 0x100 % 0x100, w / 0x100 / 0x100 % 0x100, w / 0x100 / 0x100 / 0x100 % 0x100];
  }

  /** write_dword. */
  method WriteDword(data: array<Byte>, ofs: nat, val: int, ghost done: seq<Byte>)
    requires Filled(data, done) && ofs == |done| && ofs + 4 <= data.Length
    modifies data
    ensures Filled(data, done + Dword(val))
  {
    var w := val % TWO32;
    FourBytes(w);
    data[ofs] := w % 0x100;
    data[ofs + 1] := w / 0x100 % 0x100;
    data[ofs + 2] := w / 0x100 / 0x100 % 0x100;
    data[ofs + 3] := w / 0x100 / 0x100 / 0x100 % 0x100;
  }

  /** memcpy. */
  method Copy(data: array<Byte>, ofs: nat, s: seq<Byte>, ghost done: seq<Byte>)
    requires Filled(data, done) && ofs == |done| && ofs + |s| <= data.Length
    modifies data
    ensures Filled(data, done + s)
  {
    for i := 0 to |s|
      invariant data[..ofs + i] == done + s[..i]
      invariant forall k :: ofs + i <= k < data.Length ==> data[k] == 0
    {
      data[ofs + i] := s[i];
      assert data[..ofs + i] == done + s[..i];
    }
    assert s[..|s|] == s;
  }

  /** write_property_to_data. */
  method WriteProperty(data: array<Byte>, ofs: nat, p: Prop, ghost done: seq<Byte>) returns (sz: nat)
    requires Filled(data, done) && ofs == |done| && ofs + Size(p) <= data.Length
    modifies data
    ensures sz == Size(p) && Filled(data, done + PropBytes(p))
  {
    if p == Empty {
      assert done + [] == done;
      return 0;
    }
    var code := Code(TypeOf(p));
    WriteDword(data, ofs, code, done);
    match p {
      case I2(i) =>
        assert PropBytes(p) == Dword(code) + Dword(i);
        sz := WriteInteger(data, ofs, i, code, done);
      case I4(i) =>
        assert PropBytes(p) == Dword(code) + Dword(i);
        sz := WriteInteger(data, ofs, i, code, done);
      case FileTime(t) =>
        assert PropBytes(p) == Dword(64) + Dword(t % TWO32) + Dword(t / TWO32);
        sz := WriteTime(data, ofs, t, done);
      case LpStr(s) =>
        assert PropBytes(p) == Dword(30) + Dword(|s| + 1) + (s + Zeros(Size(p) - 8 - |s|));
        sz := WriteString(data, ofs, s, Size(p), done);
    }
  }

  /** write_filetime. */
  method WriteTime(data: array<Byte>, ofs: nat, t: nat, ghost done: seq<Byte>) returns (sz: nat)
    requires ofs == |done| && ofs + 12 <= data.Length && Filled(data, done + Dword(64))
    modifies data
    ensures sz == 12 && Filled(data, done + (Dword(64) + Dword(t % TWO32) + Dword(t / TWO32)))
  {
    ghost var head := Dword(64) + Dword(t % TWO32);
    ConcatAssociative(done, Dword(64), Dword(t % TWO32));
    ConcatAssociative(done, head, Dword(t / TWO32));
    WriteDword(data, ofs + 4, t % TWO32, done + Dword(64));
    WriteDword(data, ofs + 8, t / TWO32, done + head);
    sz := 12;
  }

  method WriteInteger(data: array<Byte>, ofs: nat, i: int, code: nat, ghost done: seq<Byte>) returns (sz: nat)
    requires ofs == |done| && ofs + 8 <= data.Length && Filled(data, done + Dword(code))
    modifies data
    ensures sz == 8 && Filled(data, done + (Dword(code) + Dword(i)))
  {
    WriteDword(data, ofs + 4, i, done + Dword(code));
    ConcatAssociative(done, Dword(code), Dword(i));
    sz := 8;
  }

  /** write_string. */
  method WriteString(data: array<Byte>, ofs: nat, s: Str, ghost size: nat, ghost done: seq<Byte>) returns (sz: nat)
    requires ofs == |done| && ofs + size <= data.Length && Filled(data, done + Dword(30)) && size == 4 + (7 + (|s| + 1)) / 4 * 4
    modifies data
    ensures sz == size && Filled(data, done + (Dword(30) + Dword(|s| + 1) + (s + Zeros(size - 8 - |s|))))
  {
    var len := |s| + 1;
    ghost var head := done + Dword(30) + Dword(len);
    WriteDword(data, ofs + 4, len, done + Dword(30));
    Copy(data, ofs + 8, s, head);
    assert head + s + Zeros(size - 8 - |s|) == done + (Dword(30) + Dword(|s| + 1) + (s + Zeros(size - 8 - |s|)));
    sz := 4 + (7 + len) / 4 * 4;
  }

  /** The headers that suminfo_persist writes. */
  method WriteHeader(data: array<Byte>) returns (sz: nat)
    requires Filled(data, []) && data.Length >= 48
    modifies data
    ensures sz == 48 && Filled(data, SetHeader())
  {
    ghost var word: seq<Byte> := [0xfe, 0xff];
    Copy(data, 0, [0xfe, 0xff], []);
    ghost var done: seq<Byte> := [0xfe, 0xff, 0, 0];
    assert [] + word + Zeros(2) == done;
    WriteDword(data, 4, 0x0002_0005, done);
    done := done + Dword(0x0002_0005);
    done := done + Zeros(16);
    WriteDword(data, 24, 1, done);
    done := done + Dword(1);
    Copy(data, 28, FMTID_SUMMARY, done);
    WriteDword(data, 44, 48, done + FMTID_SUMMARY);
    sz := 48;
  }

  /** The directory loop of suminfo_persist. */
  method WriteDirectory(data: array<Byte>, props: seq<Prop>, start: nat, cProperties: nat, ghost before: seq<Byte>)
    returns (sz: nat, dwOffset: nat)
    requires Filled(data, before) && start == |before| && cProperties == Count(props, |props|)
    requires start + |DirectoryFrom(props, 0)| <= data.Length
    modifies data
    ensures Filled(data, before + DirectoryFrom(props, 0)) && sz == start + |DirectoryFrom(props, 0)|
    ensures dwOffset == Offset(props, |props|)
  {
    ghost var target := before + DirectoryFrom(props, 0);
    ghost var done := before;
    sz, dwOffset := start, 8 + cProperties * 8;
    for i := 0 to |props|
      invariant Filled(data, done) && sz == |done| && target == done + DirectoryFrom(props, i)
      invariant dwOffset == Offset(props, i) && |target| <= data.Length
    {
      ConcatAssociative(done, Entry(props, i), DirectoryFrom(props, i + 1));
      sz, dwOffset := WriteOneEntry(data, props, i, sz, dwOffset, done);
      done := done + Entry(props, i);
    }
    assert done + [] == done;
  }

  /** The body of the directory loop: an empty property has no entry. */
  method WriteOneEntry(data: array<Byte>, props: seq<Prop>, i: nat, sz: nat, dwOffset: nat, ghost done: seq<Byte>)
    returns (sz': nat, dwOffset': nat)
    requires i < |props| && Filled(data, done) && sz == |done| && dwOffset == Offset(props, i)
    requires |done| + |Entry(props, i)| <= data.Length
    modifies data
    ensures Filled(data, done + Entry(props, i)) && sz' == |done + Entry(props, i)| && dwOffset' == Offset(props, i + 1)
  {
    var propsz := Size(props[i]);
    sz', dwOffset' := sz, dwOffset + propsz;
    if propsz > 0 {
      WriteEntry(data, sz, i, dwOffset, done);
      sz' := sz + 8;
    } else {
      assert done + [] == done;
    }
  }

  method WriteEntry(data: array<Byte>, sz: nat, i: nat, dwOffset: nat, ghost done: seq<Byte>)
    requires Filled(data, done) && sz == |done| && sz + 8 <= data.Length
    modifies data
    ensures Filled(data, done + (Dword(i) + Dword(dwOffset)))
  {
    WriteDword(data, sz, i, done);
    WriteDword(data, sz + 4, dwOffset, done + Dword(i));
    ConcatAssociative(done, Dword(i), Dword(dwOffset));
  }

  /** The last loop of suminfo_persist. */
  method WriteValues(data: array<Byte>, props: seq<Prop>, start: nat, ghost before: seq<Byte>) returns (sz: nat)
    requires Filled(data, before) && start == |before| && start + |ValuesFrom(props, 0)| <= data.Length
    modifies data
    ensures Filled(data, before + ValuesFrom(props, 0)) && sz == start + |ValuesFrom(props, 0)|
  {
    ghost var target := before + ValuesFrom(props, 0);
    ghost var done := before;
    sz := start;
    for i := 0 to |props|
      invariant Filled(data, done) && sz == |done| && target == done + ValuesFrom(props, i)
      invariant |target| <= data.Length
    {
      ConcatAssociative(done, PropBytes(props[i]), ValuesFrom(props, i + 1));
      var n := WriteProperty(data, sz, props[i], done);
      sz := sz + n;
      done := done + PropBytes(props[i]);
    }
    assert done + [] == done;
  }

  /** get_property_count, and the size of the section. */
  method Measure(props: seq<Prop>) returns (cProperties: nat, cbSection: nat)
    ensures cProperties == Count(props, |props|) && cbSection == SectionSize(props)
  {
    cProperties := 0;
    for i := 0 to |props|
      invariant cProperties == Count(props, i)
    {
      if props[i] != Empty {
        cProperties := cProperties + 1;
      }
    }
    cbSection := 8 + cProperties * 8;
    for i := 0 to |props|
      invariant cbSection == Offset(props, i)
    {
      cbSection := cbSection + Size(props[i]);
    }
  }

  class SummaryInformation {
    var updateCount: nat
    var property: seq<Prop>

    constructor (updateCount: nat)
      ensures Valid() && this.updateCount == updateCount && property == NoProps()
    {
      this.updateCount, property := updateCount, NoProps();
    }

    ghost predicate Valid()
      reads this
    {
      Typed(property)
    }

    /** suminfo_persist up to the bytes that are stored; its assertions always hold. */
    method Persist() returns (data: array<Byte>)
      requires Valid() && SectionSize(property) < TWO31
      ensures fresh(data) && data[..] == Stream(property)
    {
      var cProperties, cbSection := Measure(property);
      data := new Byte[28 + 20 + cbSection](_ => 0);
      SectionLength(property);
      ghost var dir, values := DirectoryFrom(property, 0), ValuesFrom(property, 0);
      var sz := WriteHeader(data);
      assert sz == 28 + 20;
      WriteEntry(data, sz, cbSection, cProperties, SetHeader());
      sz := sz + 8;
      assert sz == 28 + 20 + 8;
      var dwOffset;
      sz, dwOffset := WriteDirectory(data, property, sz, cProperties, SetHeader() + SectionHead(property));
      assert dwOffset == cbSection;
      sz := WriteValues(data, property, sz, SetHeader() + SectionHead(property) + dir);
      assert sz == 28 + 20 + cbSection;
      Assembled(SetHeader(), SectionHead(property), dir, values);
    }

    /** read_properties_from_data and load_summary_info. */
    method LoadStream(lib: Library, file: seq<Byte>)
      requires Valid()
      modifies this`property
      ensures Valid() && property == Load(lib, file, old(property))
    {
      LoadTyped(lib, file, property);
      if |file| == 0 {
        return;
      }
      if ByteAt(file, 0) + 0x100 * ByteAt(file, 1) != 0xfffe {
        return;
      }
      if Window(file, 28, 16) != FMTID_SUMMARY {
        return;
      }
      var ofs := ReadDword(file, 44);
      var cbSection, cProperties := ReadDword(file, ofs), ReadDword(file, ofs + 4);
      if cProperties > MAX_PROPS {
        return;
      }
      ReadProperties(lib, if ofs <= |file| then file[ofs..] else [], cbSection, cProperties);
    }

    method ReadProperties(lib: Library, data: seq<Byte>, sz: nat, cProperties: nat)
      modifies this`property
      ensures property == Rounds(Reader(lib, data, sz), 0, cProperties, old(property))
    {
      var idofs := 8;
      for i := 0 to cProperties
        invariant idofs == 8 + 8 * i
        invariant Rounds(Reader(lib, data, sz), 0, cProperties, old(property))
          == Rounds(Reader(lib, data, sz), i, cProperties, property)
      {
        var next := ReadOne(lib, data, sz, i, idofs);
        if next.None? {
          return;
        }
        property := next.value;
        idofs := idofs + 8;
      }
    }

    /** The loop body of read_properties_from_data. */
    method ReadOne(lib: Library, data: seq<Byte>, sz: nat, ghost i: nat, idofs: nat) returns (next: Option<seq<Prop>>)
      requires idofs == 8 + 8 * i
      ensures next == Reader(lib, data, sz)(i, property)
    {
      next := ReadEntry(lib, data, sz, idofs, property);
    }

    /** _libmsi_summary_info_set_property behind the type checks of its callers; `value` is not empty. */
    method SetProperty(id: nat, value: Prop) returns (r: Status)
      requires Valid() && value != Empty && InRange(value)
      modifies this
      ensures Valid()
      ensures r == DatatypeMismatch <==> !NumberTakes(id, value)
      ensures r == if TypeOf(value) != GetType(id) then DatatypeMismatch
        else if old(property)[id] == Empty && old(updateCount) == 0 then FunctionFailed else Success
      ensures r == Success ==> property == old(property)[id := value]
      ensures r != Success ==> property == old(property)
      ensures updateCount == old(updateCount) - if r == Success && old(property)[id] == Empty then 1 else 0
    {
      if GetType(id) != TypeOf(value) {
        return DatatypeMismatch;
      }
      if property[id] == Empty {
        if updateCount == 0 {
          return FunctionFailed;
        }
        updateCount := updateCount - 1;
      } else if TypeOf(property[id]) != TypeOf(value) {
        return Success;
      }
      property := property[id := value];
      r := Success;
    }
  }

  lemma Assembled(head: seq<Byte>, start: seq<Byte>, dir: seq<Byte>, values: seq<Byte>)
    ensures head + start + dir + values == head + (start + (dir + values))
  {
  }
}
