/** Vocabulary shared by every module: result codes, bytes, C strings and their order. */
module Prelude {

  datatype Option<+T> = None | Some(value: T)

  /** The result codes that the modelled functions return (LibmsiResultError, plus NO_MORE_ITEMS). */
  datatype Status =
    | Success
    | Continue
    | FunctionFailed
    | InvalidParameter
    | InvalidData
    | NotFound
    | NoMoreItems
    | DatatypeMismatch

  type Byte = b: int | 0 <= b < 256

  /** A C string, without its terminating NUL. */
  type Str = seq<Byte>

  const TWO16 := 0x1_0000
  const TWO24 := 0x100_0000
  const TWO31 := 0x8000_0000
  const TWO32 := 0x1_0000_0000

  /** The flag of string columns in a column type. */
  const MSITYPE_STRING := 0x800

  /** Bytes of a string id in memory; on disk it may have one less. */
  const LONG_STR_BYTES := 3

  /** Conversion of an unsigned 32-bit word to a C int. */
  function ToInt32(w: int): (v: int)
    ensures -TWO31 <= v < TWO31
    ensures (v - w) % TWO32 == 0
  {
    var u := w % TWO32;
    if u >= TWO31 then u - TWO32 else u
  }

  predicate NulFree(s: Str) {
    forall i :: 0 <= i < |s| ==> s[i] != 0
  }

  /** The bytes up to the first NUL. */
  function CString(b: seq<Byte>): Str {
    if b == [] || b[0] == 0 then [] else [b[0]] + CString(b[1..])
  }

  lemma {:induction false} CStringWhole(b: seq<Byte>)
    requires NulFree(b)
    ensures CString(b) == b
  {
    if b != [] {
      CStringWhole(b[1..]);
    }
  }

  /** A byte of a string or a stream, 0 behind its end. */
  function ByteAt(s: seq<Byte>, i: nat): Byte { if i < |s| then s[i] else 0 }

  function Zeros(n: nat): (z: seq<Byte>)
    ensures |z| == n && forall k :: 0 <= k < n ==> z[k] == 0
  {
    seq(n, _ => 0)
  }

  /** Lexicographic comparison, a prefix coming first. On strings this is strcmp. */
  function Lex(a: seq<int>, b: seq<int>): int {
    if a == [] && b == [] then 0
    else if a == [] then -1
    else if b == [] then 1
    else if a[0] < b[0] then -1
    else if a[0] > b[0] then 1
    else Lex(a[1..], b[1..])
  }

  lemma {:induction false} LexZero(a: seq<int>, b: seq<int>)
    ensures Lex(a, b) == 0 <==> a == b
  {
    if a != [] && b != [] {
      LexZero(a[1..], b[1..]);
      assert a == [a[0]] + a[1..];
      assert b == [b[0]] + b[1..];
    }
  }

  lemma {:induction false} LexAntisymmetric(a: seq<int>, b: seq<int>)
    ensures Lex(b, a) == -Lex(a, b)
  {
    if a != [] && b != [] {
      LexAntisymmetric(a[1..], b[1..]);
    }
  }

  lemma {:induction false} LexTransitive(a: seq<int>, b: seq<int>, c: seq<int>)
    requires Lex(a, b) < 0 && Lex(b, c) < 0
    ensures Lex(a, c) < 0
  {
    if a != [] && b != [] && c != [] && a[0] == b[0] == c[0] {
      LexTransitive(a[1..], b[1..], c[1..]);
    }
  }

  /** The first difference decides. */
  lemma {:induction false} LexDecided(a: seq<int>, b: seq<int>, k: nat)
    requires k < |a| && k < |b| && a[..k] == b[..k] && a[k] != b[k]
    ensures Lex(a, b) == if a[k] < b[k] then -1 else 1
  {
    if k > 0 {
      assert a[0] == a[..k][0] == b[..k][0] == b[0];
      assert a[1..][..k - 1] == a[..k][1..];
      assert b[1..][..k - 1] == b[..k][1..];
      LexDecided(a[1..], b[1..], k - 1);
    }
  }

  lemma {:induction false} LexConcat(a: seq<int>, b: seq<int>, x: seq<int>, y: seq<int>)
    requires |a| == |b|
    ensures Lex(a + x, b + y) == if a == b then Lex(x, y) else Lex(a, b)
  {
    if a == [] {
      assert a + x == x && b + y == y;
    } else {
      assert (a + x)[1..] == a[1..] + x;
      assert (b + y)[1..] == b[1..] + y;
      assert a == [a[0]] + a[1..] && b == [b[0]] + b[1..];
      LexConcat(a[1..], b[1..], x, y);
    }
  }

  lemma ConcatAssociative<T>(a: seq<T>, b: seq<T>, c: seq<T>)
    ensures a + b + c == a + (b + c)
  {
  }

  // ---------------------------------------------------------------------------------------------
  // Lists without duplicates
  // ---------------------------------------------------------------------------------------------

  predicate Distinct(s: seq<nat>) {
    forall i, j :: 0 <= i < j < |s| ==> s[i] != s[j]
  }

  predicate DistinctBelow(s: seq<nat>, n: nat) {
    Distinct(s) && forall i :: 0 <= i < |s| ==> s[i] < n
  }

  predicate Covers(s: seq<nat>, n: nat) {
    forall t: nat :: t < n ==> t in s
  }

  /** A duplicate-free list of numbers below n has at most n of them, and n only if it has all. */
  lemma {:induction false} DistinctFits(s: seq<nat>, n: nat)
    requires DistinctBelow(s, n)
    ensures |s| <= n
    ensures Covers(s, n) <==> |s| == n
    decreases n
  {
    if s != [] {
      assert s[0] < n;
    }
    if n > 0 {
      if n - 1 in s {
        var i :| 0 <= i < |s| && s[i] == n - 1;
        var rest := Without(s, i);
        DistinctFits(rest, n - 1);
        assert Covers(rest, n - 1) <==> Covers(s, n);
      } else {
        DistinctFits(s, n - 1);
      }
    }
  }

  /** A duplicate-free list without one of its entries. */
  function Without(s: seq<nat>, i: nat): (rest: seq<nat>)
    requires Distinct(s) && i < |s|
    ensures |rest| == |s| - 1 && Distinct(rest)
    ensures forall t: nat :: t in rest <==> t in s && t != s[i]
    ensures forall k :: 0 <= k < |rest| ==> rest[k] in s
  {
    var rest := s[..i] + s[i + 1..];
    assert forall k :: 0 <= k < |rest| ==> rest[k] == s[if k < i then k else k + 1];
    assert forall t: nat | t in s && t != s[i] :: t in rest by {
      forall t: nat | t in s && t != s[i]
        ensures t in rest
      {
        var k :| 0 <= k < |s| && s[k] == t;
        assert rest[if k < i then k else k - 1] == t;
      }
    }
    rest
  }
}
