/** Names of streams: pairs of file name characters packed into three bytes of UTF-8 (libmsi/table.c). */
module StreamNames {
  import opened Prelude

  /** The UTF-8 form of a code point of three bytes (section 3 of RFC 3629). */
  function ThreeBytes(cp: nat): (s: Str)
    requires 0x800 <= cp < 0x1_0000
    ensures |s| == 3
  {
    [0xe0 + cp / 0x1000, 0x80 + cp / 0x40 % 0x40, 0x80 + cp % 0x40]
  }

  const TABLE_PREFIX: Str := [0xe4, 0xa1, 0x80]
  const MAX_STREAM_NAME := 0x1f

  // ---------------------------------------------------------------------------------------------
  // Characters
  // ---------------------------------------------------------------------------------------------

  /** utf2mime; None is -1. */
  function Utf2Mime(x: int): (m: Option<nat>)
    ensures m.Some? ==> m.value < 64
  {
    if 48 <= x <= 57 then Some(x - 48)
    else if 65 <= x <= 90 then Some(x - 65 + 10)
    else if 97 <= x <= 122 then Some(x - 97 + 10 + 26)
    else if x == 46 then Some(10 + 26 + 26)
    else if x == 95 then Some(10 + 26 + 26 + 1)
    else None
  }

  function Mime2Utf(x: nat): Byte {
    if x < 10 then x + 48
    else if x < 10 + 26 then x - 10 + 65
    else if x < 10 + 26 + 26 then x - 10 - 26 + 97
    else if x == 10 + 26 + 26 then 46
    else 95
  }

  /** x ^ 0xa0: bits 7 and 5 change. */
  function XorA0(x: Byte): Byte {
    x + (if x >= 0x80 then -0x80 else 0x80) + (if x / 0x20 % 2 == 1 then -0x20 else 0x20)
  }

  /** The bytes for one character, and for two. */
  function SingleForm(ch: nat): (s: Str)
    requires ch < 64
    ensures s == ThreeBytes(0x4800 + ch)
  {
    [0xe4, 0xa0, 0x80 + ch]
  }

  function PairForm(ch: nat, next: nat): (s: Str)
    requires ch < 64 && next < 64
    ensures s == ThreeBytes(0x3800 + 0x40 * next + ch)
  {
    [0xe3 + next / 0x20, XorA0(next), 0x80 + ch]
  }

  /** What one round of the encoding loop reads and writes. */
  datatype Step = Step(consumed: nat, out: Str)

  function EncodeStep(s: Str): (st: Step)
    requires s != []
    ensures 1 <= st.consumed <= |s| && 1 <= |st.out| <= 3
  {
    var ch := Utf2Mime(s[0]);
    if ch.None? then Step(1, [s[0]])
    else
      var next := Utf2Mime(ByteAt(s, 1));
      if next.None? then Step(1, SingleForm(ch.value))
      else Step(2, PairForm(ch.value, next.value))
  }

  function Encode(s: Str): Str
  {
    if s == [] then [] else EncodeStep(s).out + Encode(s[EncodeStep(s).consumed..])
  }

  /** Rounds of the loop before the terminating NUL. */
  function Rounds(s: Str): (n: nat)
    ensures n <= |s|
  {
    if s == [] then 0 else 1 + Rounds(s[EncodeStep(s).consumed..])
  }

  /** One round, seen from the whole output. */
  lemma EncodeFrom(u: Str, whole: Str, done: Str)
    requires u != [] && whole == done + Encode(u)
    ensures var st := EncodeStep(u);
      && whole == (done + st.out) + Encode(u[st.consumed..])
      && Rounds(u) == 1 + Rounds(u[st.consumed..])
  {
    var st := EncodeStep(u);
    ConcatAssociative(done, st.out, Encode(u[st.consumed..]));
  }

  /** encode_streamname; None when a table name is too long for the buffer. */
  method EncodeStreamName(table: bool, s: Str) returns (r: Option<Str>)
    requires NulFree(s)
    ensures r == if !table then Some(Encode(s)) else if Rounds(s) <= 29 then Some(TABLE_PREFIX + Encode(s)) else None
  {
    var count := if table then MAX_STREAM_NAME else |s| + 2;
    var out := new Byte[count * 3];
    var p := 0;
    if table {
      out[0], out[1], out[2] := 0xe4, 0xa1, 0x80;
      p, count := 3, count - 1;
    }
    assert out[..p] == if table then TABLE_PREFIX else [];
    assert [] + Encode(s) == Encode(s);
    r := EncodeRounds(s, out, p, count);
  }

  /** The loop of encode_streamname. */
  method EncodeRounds(s: Str, out: array<Byte>, p0: nat, count0: nat) returns (r: Option<Str>)
    requires NulFree(s) && p0 + 3 * count0 <= out.Length
    modifies out
    ensures r == if Rounds(s) < count0 then Some(old(out[..p0]) + Encode(s)) else None
  {
    var p, i, count := p0, 0, count0;
    ghost var whole := out[..p] + Encode(s);
    assert s[0..] == s;
    while count > 0
      invariant 0 <= i <= |s| && 0 <= count <= count0
      invariant 0 <= p && p + 3 * count <= out.Length
      invariant whole == out[..p] + Encode(s[i..])
      invariant Rounds(s) == count0 - count + Rounds(s[i..])
    {
      count := count - 1;
      if ByteAt(s, i) == 0 {
        ghost var done := out[..p];
        assert s[i..] == [] && done + [] == done;
        out[p] := 0;
        assert out[..p] == done;
        return Some(out[..p]);
      }
      EncodeFrom(s[i..], whole, out[..p]);
      assert s[i..][EncodeStep(s[i..]).consumed..] == s[i + EncodeStep(s[i..]).consumed..];
      i, p := EncodeRound(s, i, out, p);
    }
    r := None;
  }

  /** The loop body of encode_streamname after the test for the end. */
  method EncodeRound(s: Str, i: nat, out: array<Byte>, p: nat) returns (i': nat, p': nat)
    requires i < |s| && p + 3 <= out.Length
    modifies out
    ensures var st := EncodeStep(s[i..]);
      i' == i + st.consumed && p' == p + |st.out| && out[..p'] == old(out[..p]) + st.out
  {
    i', p' := i + 1, p;
    var ch := Utf2Mime(s[i]);
    if ch.Some? {
      assert ByteAt(s[i..], 1) == ByteAt(s, i + 1);
      var next := Utf2Mime(ByteAt(s, i'));
      if next.None? {
        out[p], out[p + 1], out[p + 2] := 0xe4, 0xa0, 0x80 + ch.value;
      } else {
        out[p], out[p + 1], out[p + 2] := 0xe3 + next.value / 0x20, XorA0(next.value), 0x80 + ch.value;
        i' := i' + 1;
      }
      p' := p + 3;
    } else {
      out[p] := s[i];
      p' := p + 1;
    }
  }

  // ---------------------------------------------------------------------------------------------
  // Decoding
  // ---------------------------------------------------------------------------------------------

  predicate IsPair(t: Str) {
    (ByteAt(t, 0) == 0xe3 && ByteAt(t, 1) >= 0xa0) || (ByteAt(t, 0) == 0xe4 && ByteAt(t, 1) < 0xa0)
  }

  predicate IsSingle(t: Str) { ByteAt(t, 0) == 0xe4 && ByteAt(t, 1) == 0xa0 }

  /** Bytes that are copied together, by their first byte. */
  function CopyLength(ch: Byte): nat {
    1 + (if ch >= 0xc1 then 1 else 0) + (if ch >= 0xe0 then 1 else 0) + (if ch >= 0xf0 then 1 else 0)
  }

  function DecodeStep(t: Str): (st: Step)
    requires t != []
    ensures 1 <= st.consumed && 1 <= |st.out| && (st.consumed <= |t| ==> |st.out| <= st.consumed)
  {
    if IsPair(t) then Step(3, [Mime2Utf(ByteAt(t, 2) % 0x80), Mime2Utf(XorA0(ByteAt(t, 1)))])
    else if IsSingle(t) then Step(3, [Mime2Utf(ByteAt(t, 2) % 0x80)])
    else
      var n := CopyLength(t[0]);
      Step(n, if n <= |t| then t[..n] else t)
  }

  /** decode_streamname; None when it runs past the end of a string that is cut off inside a character. */
  function Decode(t: Str): (r: Option<Str>)
    ensures r.Some? ==> |r.value| <= |t|
  {
    if t == [] then Some([])
    else
      var st := DecodeStep(t);
      if st.consumed > |t| then None
      else
        var rest := Decode(t[st.consumed..]);
        if rest.None? then None else Some(st.out + rest.value)
  }

  /** One round, seen from the whole result. */
  lemma DecodeFrom(u: Str, whole: Str, done: Str)
    requires u != [] && Decode(u).Some? && done + Decode(u).value == whole
    ensures var st := DecodeStep(u);
      && st.consumed <= |u| && Decode(u[st.consumed..]).Some?
      && (done + st.out) + Decode(u[st.consumed..]).value == whole
  {
    var st := DecodeStep(u);
    ConcatAssociative(done, st.out, Decode(u[st.consumed..]).value);
  }

  /** The loop of decode_streamname, writing into a buffer of the length of the input and one more. */
  method DecodeStreamName(t: Str) returns (r: Str)
    requires NulFree(t) && Decode(t).Some?
    ensures r == Decode(t).value
  {
    var out := new Byte[|t| + 1];
    var p, q := 0, 0;
    ghost var whole, u := Decode(t).value, t;
    while ByteAt(t, p) != 0
      invariant 0 <= q <= p <= |t| && u == t[p..] && Decode(u).Some?
      invariant out[..q] + Decode(u).value == whole
      decreases |t| - p
    {
      ghost var st := DecodeStep(u);
      DecodeFrom(u, whole, out[..q]);
      p, q := DecodeRound(t, p, out, q);
      u := u[st.consumed..];
    }
    out[q] := 0;
    assert u == [] && out[..q] + [] == whole;
    r := out[..q];
  }

  method DecodeRound(t: Str, p: nat, out: array<Byte>, q: nat) returns (p': nat, q': nat)
    requires p < |t| && q <= p && out.Length == |t| + 1 && p + DecodeStep(t[p..]).consumed <= |t|
    modifies out
    ensures var st := DecodeStep(t[p..]);
      p' == p + st.consumed && q' == q + |st.out| && out[..q'] == old(out[..q]) + st.out
  {
    var ch := t[p];
    assert t[p..][0] == ch && ByteAt(t[p..], 1) == ByteAt(t, p + 1) && ByteAt(t[p..], 2) == ByteAt(t, p + 2);
    if (ch == 0xe3 && ByteAt(t, p + 1) >= 0xa0) || (ch == 0xe4 && ByteAt(t, p + 1) < 0xa0) {
      out[q], out[q + 1] := Mime2Utf(ByteAt(t, p + 2) % 0x80), Mime2Utf(XorA0(ByteAt(t, p + 1)));
      return p + 3, q + 2;
    }
    if ch == 0xe4 && ByteAt(t, p + 1) == 0xa0 {
      out[q] := Mime2Utf(ByteAt(t, p + 2) % 0x80);
      return p + 3, q + 1;
    }
    out[q] := t[p];
    p', q' := p + 1, q + 1;
    if ch >= 0xc1 {
      out[q'] := t[p'];
      p', q' := p' + 1, q' + 1;
    }
    if ch >= 0xe0 {
      out[q'] := t[p'];
      p', q' := p' + 1, q' + 1;
    }
    if ch >= 0xf0 {
      out[q'] := t[p'];
      p', q' := p' + 1, q' + 1;
    }
  }

  // ---------------------------------------------------------------------------------------------
  // Well-formed UTF-8 (section 4 of RFC 3629)
  // ---------------------------------------------------------------------------------------------

  predicate Tail(x: Byte) { 0x80 <= x <= 0xbf }

  /** Length of the character that a string starts with, if it is well-formed. */
  function CharLength(s: Str): (n: Option<nat>)
    ensures n.Some? ==> 1 <= n.value <= |s|
    ensures n.Some? ==> forall k :: 1 <= k < n.value ==> Tail(s[k])
  {
    if s == [] then None
    else
      var b := s[0];
      if b < 0x80 then Some(1)
      else if |s| >= 2 && 0xc2 <= b <= 0xdf && Tail(s[1]) then Some(2)
      else if |s| >= 3 && 0xe0 <= b <= 0xef && Tail(s[1]) && Tail(s[2])
        && (b == 0xe0 ==> s[1] >= 0xa0) && (b == 0xed ==> s[1] <= 0x9f) then Some(3)
      else if |s| >= 4 && 0xf0 <= b <= 0xf4 && Tail(s[1]) && Tail(s[2]) && Tail(s[3])
        && (b == 0xf0 ==> s[1] >= 0x90) && (b == 0xf4 ==> s[1] <= 0x8f) then Some(4)
      else None
  }

  predicate Utf8(s: Str) {
    s == [] || (CharLength(s).Some? && Utf8(s[CharLength(s).value..]))
  }

  /** The first code point of a well-formed string. */
  function CodePoint(s: Str): nat
    requires CharLength(s).Some?
  {
    match CharLength(s).value
    case 1 => s[0]
    case 2 => (s[0] as int - 0xc0) * 0x40 + (s[1] as int - 0x80)
    case 3 => (s[0] as int - 0xe0) * 0x1000 + (s[1] as int - 0x80) * 0x40 + (s[2] - 0x80)
    case _ => (s[0] as int - 0xf0) * 0x4_0000 + (s[1] as int - 0x80) * 0x1000 + (s[2] as int - 0x80) * 0x40 + (s[3] - 0x80)
  }

  /** A code point of a name that the encoding uses for itself. */
  predicate HasReserved(s: Str) {
    CharLength(s).Some? && (0x3800 <= CodePoint(s) <= 0x483f || HasReserved(s[CharLength(s).value..]))
  }

  // ---------------------------------------------------------------------------------------------
  // Round trip
  // ---------------------------------------------------------------------------------------------

  /** The decoder takes one character at a time, and unpacks exactly the reserved code points. */
  lemma DecodesCharacters(s: Str)
    requires CharLength(s).Some?
    ensures DecodeStep(s).consumed == CharLength(s).value
    ensures 0x3800 <= CodePoint(s) <= 0x483f <==> IsPair(s) || IsSingle(s)
    ensures !(0x3800 <= CodePoint(s) <= 0x483f) ==> DecodeStep(s).out == s[..CharLength(s).value]
    ensures 0x3800 <= CodePoint(s) <= 0x483f ==> |DecodeStep(s).out| < 3 == CharLength(s).value
  {
  }

  lemma JoinedFixes(s: Str, n: nat, out: Str, rest: Str)
    requires n <= |s| && |out| <= n && |rest| <= |s| - n && (|out| == n ==> out == s[..n])
    ensures out + rest == s <==> |out| == n && rest == s[n..]
    ensures s[..n] + s[n..] == s
  {
    assert s[..n] + s[n..] == s;
    if |out| < n {
      assert |out + rest| < |s|;
    } else {
      assert (out + rest)[n..] == rest;
    }
  }

  /** A well-formed name is decoded to itself exactly when it has no reserved code point; otherwise the
      result is shorter. */
  lemma {:induction false} DecodeFixes(s: Str)
    requires Utf8(s)
    ensures Decode(s).Some?
    ensures Decode(s) == Some(s) <==> !HasReserved(s)
    ensures HasReserved(s) ==> |Decode(s).value| < |s|
  {
    if s != [] {
      var n := CharLength(s).value;
      DecodeFixes(s[n..]);
      DecodeFirst(s, n);
      JoinedFixes(s, n, DecodeStep(s).out, Decode(s[n..]).value);
      DecodesCharacters(s);
    }
  }

  lemma DecodeFirst(s: Str, n: nat)
    requires CharLength(s) == Some(n)
    ensures Decode(s) == Joined(DecodeStep(s).out, Decode(s[n..]))
  {
    DecodesCharacters(s);
    assert s[..n] + s[n..] == s;
    DecodeCons(s[..n], s[n..]);
  }

  /** What is decoded after a step is appended to its output. */
  function Joined(out: Str, rest: Option<Str>): Option<Str> {
    if rest.None? then None else Some(out + rest.value)
  }

  lemma DecodeCons(head: Str, rest: Str)
    requires head != [] && DecodeStep(head + rest).consumed == |head|
    ensures Decode(head + rest) == Joined(DecodeStep(head + rest).out, Decode(rest))
  {
    assert (head + rest)[|head|..] == rest;
  }

  lemma DecodeAscii(s: Str)
    requires s != [] && s[0] < 0x80
    ensures Decode(s) == Joined([s[0]], Decode(s[1..]))
  {
    assert s == [s[0]] + s[1..];
    DecodeCons([s[0]], s[1..]);
  }

  /** A character that is no file name character passes through the encoding. */
  lemma {:induction false} EncodeCopies(s: Str, n: nat)
    requires n <= |s| && forall k :: 0 <= k < n ==> Utf2Mime(s[k]).None?
    ensures Encode(s) == s[..n] + Encode(s[n..])
  {
    if n == 0 {
      assert s[0..] == s && s[..0] == [];
    } else {
      EncodeCopies(s[1..], n - 1);
      assert s[1..][..n - 1] == s[1..n] && s[1..][n - 1..] == s[n..];
      assert s[..n] == [s[0]] + s[1..n];
      ConcatAssociative([s[0]], s[1..n], Encode(s[n..]));
    }
  }

  lemma CharacterPasses(s: Str, n: nat)
    requires CharLength(s) == Some(n) && Utf2Mime(s[0]).None?
    ensures Encode(s) == s[..n] + Encode(s[n..]) && s == s[..n] + s[n..]
  {
    EncodeCopies(s, n);
  }

  lemma MimeBack(x: int)
    requires Utf2Mime(x).Some?
    ensures Mime2Utf(Utf2Mime(x).value) == x && 0 < x < 0x80
  {
  }

  lemma PackedBack(ch: nat, next: nat, rest: Str)
    requires ch < 64 && next < 64
    ensures DecodeStep(SingleForm(ch) + rest) == Step(3, [Mime2Utf(ch)])
    ensures DecodeStep(PairForm(ch, next) + rest) == Step(3, [Mime2Utf(ch), Mime2Utf(next)])
  {
  }

  /** Encoding a well-formed name makes no difference to the decoder. */
  lemma {:induction false} DecodeAfterEncode(s: Str)
    requires Utf8(s)
    ensures Decode(Encode(s)) == Decode(s)
    decreases |s|
  {
    DecodeFixes(s);
    if s != [] {
      if Utf2Mime(s[0]).Some? {
        FileNameCharacter(s);
      } else {
        OtherCharacter(s);
      }
    }
  }

  /** The case of a character that is copied. */
  lemma {:induction false} OtherCharacter(s: Str)
    requires s != [] && Utf8(s) && Utf2Mime(s[0]).None?
    ensures Decode(Encode(s)) == Decode(s)
    decreases |s|, 0
  {
    var n := CharLength(s).value;
    DecodeAfterEncode(s[n..]);
    CharacterPasses(s, n);
    CharacterCopied(s[..n], s[n..], Encode(s[n..]));
  }

  lemma CharacterCopied(head: Str, rest: Str, later: Str)
    requires CharLength(head + rest) == Some(|head|) && Decode(later) == Decode(rest)
    ensures Decode(head + later) == Decode(head + rest)
  {
    DecodesCharacters(head + rest);
    DecodeCons(head, later);
    DecodeCons(head, rest);
  }

  /** The case of one or two characters that are packed. */
  lemma {:induction false} FileNameCharacter(s: Str)
    requires s != [] && Utf8(s) && Utf2Mime(s[0]).Some?
    ensures Decode(Encode(s)) == Decode(s)
    decreases |s|, 0
  {
    var ch, next := Utf2Mime(s[0]).value, Utf2Mime(ByteAt(s, 1));
    MimeBack(s[0]);
    DecodeAscii(s);
    if next.None? {
      DecodeAfterEncode(s[1..]);
      PackedBack(ch, 0, Encode(s[1..]));
      DecodeCons(SingleForm(ch), Encode(s[1..]));
    } else {
      MimeBack(ByteAt(s, 1));
      PairDecoded(s, ch, next.value);
      DecodeAscii(s[1..]);
      assert s[1..][1..] == s[2..];
      DecodeAfterEncode(s[2..]);
    }
  }

  lemma PairFormDecoded(ch: nat, next: nat, rest: Str)
    requires ch < 64 && next < 64
    ensures Decode(PairForm(ch, next) + rest) == Joined([Mime2Utf(ch), Mime2Utf(next)], Decode(rest))
  {
    PackedBack(ch, next, rest);
    DecodeCons(PairForm(ch, next), rest);
  }

  lemma JoinedTwice(a: Byte, b: Byte, rest: Option<Str>)
    ensures Joined([a], Joined([b], rest)) == Joined([a, b], rest)
  {
    if rest.Some? {
      assert [a] + ([b] + rest.value) == [a, b] + rest.value;
    }
  }

  lemma PairDecoded(s: Str, ch: nat, next: nat)
    requires |s| >= 2 && Utf2Mime(s[0]) == Some(ch) && Utf2Mime(s[1]) == Some(next)
    ensures Decode(Encode(s)) == Joined([s[0]], Joined([s[1]], Decode(Encode(s[2..]))))
  {
    MimeBack(s[0]);
    MimeBack(s[1]);
    assert EncodeStep(s) == Step(2, PairForm(ch, next));
    PairFormDecoded(ch, next, Encode(s[2..]));
    JoinedTwice(s[0], s[1], Decode(Encode(s[2..])));
  }

  /** Round trip: a well-formed name comes back exactly when none of its code points is in
      U+3800..U+483F. */
  lemma RoundTrip(s: Str)
    requires Utf8(s)
    ensures Decode(Encode(s)).Some?
    ensures Decode(Encode(s)) == Some(s) <==> !HasReserved(s)
  {
    DecodeAfterEncode(s);
    DecodeFixes(s);
  }

  /** Two such names never share a stream. */
  lemma NamesDistinct(s: Str, t: Str)
    requires Utf8(s) && Utf8(t) && !HasReserved(s) && !HasReserved(t)
    ensures Encode(s) == Encode(t) <==> s == t
  {
    RoundTrip(s);
    RoundTrip(t);
  }

  /** The stored name is well-formed UTF-8 again. */
  lemma {:induction false} EncodedWellFormed(s: Str)
    requires Utf8(s)
    ensures Utf8(Encode(s))
    decreases |s|
  {
    if s != [] {
      var ch := Utf2Mime(s[0]);
      if ch.None? {
        var n := CharLength(s).value;
        EncodedWellFormed(s[n..]);
        CharacterPasses(s, n);
      } else {
        var st := EncodeStep(s);
        AsciiDropped(s, st.consumed);
        EncodedWellFormed(s[st.consumed..]);
        PackedCharacter(s, Encode(s[st.consumed..]));
      }
    }
  }

  /** The characters that are packed are ASCII, so what follows them is well-formed. */
  lemma AsciiDropped(s: Str, n: nat)
    requires Utf8(s) && s != [] && Utf2Mime(s[0]).Some? && n == EncodeStep(s).consumed
    ensures Utf8(s[n..])
  {
    MimeBack(s[0]);
    assert CharLength(s) == Some(1);
    if n == 2 {
      MimeBack(s[1]);
      assert CharLength(s[1..]) == Some(1) && s[1..][1..] == s[2..];
    }
  }

  /** They become one character of three bytes. */
  lemma PackedCharacter(s: Str, rest: Str)
    requires s != [] && Utf2Mime(s[0]).Some? && Utf8(rest)
    ensures Utf8(EncodeStep(s).out + rest)
  {
    var out := EncodeStep(s).out;
    assert |out| == 3;
    assert CharLength(out + rest) == Some(3) && (out + rest)[3..] == rest;
  }

  // ---------------------------------------------------------------------------------------------
  // The encoding, character by character
  // ---------------------------------------------------------------------------------------------

  /** The 64 characters that are packed, in their order. */
  function Letter(i: nat): Byte
    requires i < 64
  {
    if i < 10 then '0' as int + i
    else if i < 36 then 'A' as int + (i - 10)
    else if i < 62 then 'a' as int + (i - 36)
    else if i == 62 then '.' as int
    else '_' as int
  }

  ghost predicate IsLetter(b: Byte) { exists i: nat :: i < 64 && b == Letter(i) }

  lemma LettersAre(b: Byte)
    ensures forall i: nat :: i < 64 ==> (Utf2Mime(b) == Some(i) <==> b == Letter(i))
    ensures Utf2Mime(b).None? <==> !IsLetter(b)
  {
    if Utf2Mime(b).Some? {
      assert b == Letter(Utf2Mime(b).value);
    }
  }

  /** Two letters share the code point U+3800 plus 64 times the second plus the first. */
  lemma PairEncoded(s: Str, i: nat, j: nat)
    requires i < 64 && j < 64 && |s| >= 2 && s[0] == Letter(i) && s[1] == Letter(j)
    ensures Encode(s) == ThreeBytes(0x3800 + 0x40 * j + i) + Encode(s[2..])
  {
    LettersAre(s[0]);
    LettersAre(s[1]);
  }

  /** A letter that is followed by none becomes U+4800 plus itself. */
  lemma LoneEncoded(s: Str, i: nat)
    requires i < 64 && s != [] && s[0] == Letter(i) && (|s| == 1 || !IsLetter(s[1]))
    ensures Encode(s) == ThreeBytes(0x4800 + i) + Encode(s[1..])
  {
    LettersAre(s[0]);
    LettersAre(ByteAt(s, 1));
  }

  /** Every other byte stays; and the prefix of table streams is U+4840. */
  lemma OtherEncoded(s: Str)
    requires s != [] && !IsLetter(s[0])
    ensures Encode(s) == [s[0]] + Encode(s[1..])
    ensures TABLE_PREFIX == ThreeBytes(0x4840)
  {
    LettersAre(s[0]);
  }
}
