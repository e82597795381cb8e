/** What a stored cell says of the field or the literal that it was written from, and which fields a column
    without the nullable flag takes. Stated on the bits of the column type and on the values themselves. */
module FieldMeaning {
  import opened Prelude
  import opened Records
  import opened StringPools

  /** Bit 11 of a column type. */
  predicate TextType(t: nat) { (t / 0x800) % 2 == 1 }

  /** The integer that a field has in an integer column; a text is read as a decimal number. */
  function IntegerIn(f: Field): Option<int> {
    match f
    case NullField => None
    case IntField(i) => Some(i)
    case StrField(s) => IntFromString(s)
  }

  /** The cell of a field: the id of its text, the integer with the bias of its width, or 0. */
  ghost predicate HoldsField(t: nat, slots: seq<Slot>, cell: nat, f: Field) {
    if TextType(t) then
      if f.StrField? && f.s != [] then cell != 0 && InUse(slots, cell) && TextOf(slots, cell) == f.s else cell == 0
    else
      match IntegerIn(f)
      case None => cell == 0
      case Some(i) => cell == i + if t % 0x100 == 2 then 0x8000 else 0x8000_0000
  }

  /** The number of question marks among the first n values. */
  ghost function Questions(vals: seq<Val>, n: nat): nat
    requires n <= |vals|
  {
    |set i: nat | i < n && vals[i].Marker?|
  }

  /** The cell of entry k of a value list: its literal, an empty text being NULL, or the parameter that its
      question mark stands for. */
  ghost predicate HoldsValue(t: nat, slots: seq<Slot>, cell: nat, vals: seq<Val>, k: nat, params: seq<Field>)
    requires k < |vals|
  {
    match vals[k]
    case IntVal(n) => HoldsField(t, slots, cell, IntField(n))
    case StrVal(s) => if s == [] then cell == 0 else HoldsField(t, slots, cell, StrField(s))
    case Marker =>
      var m := Questions(vals, k);
      HoldsField(t, slots, cell, if m < |params| then params[m] else NullField)
  }

  /** Entry k is the last one for x. */
  ghost predicate LastFor<T>(list: seq<T>, x: T, k: nat) {
    k < |list| && list[k] == x && forall j :: k < j < |list| ==> list[j] != x
  }

  /** A column without bit 12 that is not an OBJECT refuses NULL, an empty or missing text, and whatever reads
      as the integer that stands for NULL in a record. */
  predicate Refuses(t: nat, f: Field) {
    && (t / 0x1000) % 2 == 0 && t != 0x900 && t != 0x1900
    && if TextType(t) then !(f.StrField? && f.s != [])
       else IntegerIn(f).None? || IntegerIn(f) == Some(-0x8000_0000)
  }

  /** The same for entry k of a value list. */
  ghost predicate RefusesValue(t: nat, vals: seq<Val>, k: nat, params: seq<Field>)
    requires k < |vals|
  {
    match vals[k]
    case IntVal(n) => Refuses(t, IntField(n))
    case StrVal(s) => Refuses(t, if s == [] then NullField else StrField(s))
    case Marker =>
      var m := Questions(vals, k);
      Refuses(t, if m < |params| then params[m] else NullField)
  }

  // ---------------------------------------------------------------------------------------------
  // Numbers in decimal
  // ---------------------------------------------------------------------------------------------

  function Decimal(n: nat): (s: Str)
    ensures s != [] && s[0] != 45
  {
    if n < 10 then [48 + n] else Decimal(n / 10) + [48 + n % 10]
  }

  function SignedDecimal(i: int): Str { if i < 0 then [45] + Decimal(-i) else Decimal(i) }

  lemma {:induction false} DigitsConcat(a: Str, b: Str, acc: int)
    ensures DigitsValue(a + b, acc) ==
      match DigitsValue(a, acc) { case None => None case Some(v) => DigitsValue(b, v) }
  {
    if a == [] {
      assert a + b == b;
    } else {
      assert (a + b)[0] == a[0] && (a + b)[1..] == a[1..] + b;
      if 48 <= a[0] <= 57 {
        DigitsConcat(a[1..], b, acc * 10 + (a[0] - 48));
      }
    }
  }

  lemma {:induction false} DecimalDigits(n: nat)
    ensures DigitsValue(Decimal(n), 0) == Some(n)
  {
    if n >= 10 {
      DecimalDigits(n / 10);
      DigitsConcat(Decimal(n / 10), [48 + n % 10], 0);
      assert DigitsValue([48 + n % 10], n / 10) == DigitsValue([], n / 10 * 10 + n % 10);
    } else {
      assert DigitsValue([48 + n], 0) == DigitsValue([], n);
    }
  }

  /** The decimal form of every 32-bit integer is read as that integer. */
  lemma DecimalRead(i: int)
    requires -TWO31 <= i < TWO31
    ensures IntFromString(SignedDecimal(i)) == Some(i)
  {
    DecimalDigits(if i < 0 then -i else i);
    if i < 0 {
      assert ([45] + Decimal(-i))[1..] == Decimal(-i);
    }
  }
}
