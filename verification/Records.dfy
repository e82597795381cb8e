/** Parameter records and the values read from them (libmsi/libmsi-record.c). */
module Records {
  import opened Prelude

  /** LIBMSI_NULL_INT, read as a C int. */
  const NULL_INT := -TWO31

  /** A field of a record; integers are 32-bit. Field n of a record is at index n - 1. */
  datatype Field = NullField | IntField(i: int) | StrField(s: Str)

  /** A value in a VALUES or SET list. */
  datatype Val = StrVal(s: Str) | IntVal(i: int) | Marker

  function DigitsValue(s: Str, acc: int): Option<int> {
    if s == [] then Some(acc)
    else if s[0] < 48 || s[0] > 57 then None
    else DigitsValue(s[1..], acc * 10 + (s[0] - 48))
  }

  /** expr_int_from_string; overflow wraps to 32 bits. */
  function IntFromString(s: Str): Option<int> {
    if s != [] && s[0] == 45 then
      match DigitsValue(s[1..], 0) { case Some(x) => Some(ToInt32(-x)) case None => None }
    else
      match DigitsValue(s, 0) { case Some(x) => Some(ToInt32(x)) case None => None }
  }

  /** libmsi_record_get_int on field `n` (1-based). */
  function GetInt(params: seq<Field>, n: nat): int
    requires n >= 1
  {
    if n > |params| then NULL_INT
    else match params[n - 1]
      case IntField(i) => i
      case StrField(s) => (match IntFromString(s) { case Some(x) => x case None => NULL_INT })
      case NullField => NULL_INT
  }

  /** _libmsi_record_get_string_raw on field `n` (1-based); None is the NULL pointer. */
  function GetStringRaw(params: seq<Field>, n: nat): Option<Str>
    requires n >= 1
  {
    if n <= |params| && params[n - 1].StrField? then Some(params[n - 1].s) else None
  }

  /** libmsi_record_is_null. */
  predicate IsNullField(params: seq<Field>, n: nat)
    requires n >= 1
  {
    n > |params| || params[n - 1].NullField?
  }

  /** libmsi_record_new: every field is null. */
  function NewRecord(n: nat): (rec: seq<Field>)
    ensures |rec| == n
    ensures forall i :: 0 <= i < n ==> rec[i] == NullField
  {
    seq(n, _ => NullField)
  }

  /** _libmsi_record_copy_field from field m to field n of another record; None when it fails. */
  function CopyField(from: seq<Field>, m: nat, to: seq<Field>, n: nat): Option<seq<Field>>
    requires m >= 1 && n >= 1
  {
    if m > |from| || n > |to| then None else Some(to[n - 1 := from[m - 1]])
  }

  /** The last of the first n entries that is x. */
  function LastOf<T(==)>(list: seq<T>, x: T, n: nat): (k: Option<nat>)
    requires n <= |list|
    ensures k.Some? ==> k.value < n && list[k.value] == x
    ensures k.None? ==> forall j :: 0 <= j < n ==> list[j] != x
    ensures k.Some? ==> forall j :: k.value < j < n ==> list[j] != x
  {
    if n == 0 then None else if list[n - 1] == x then Some(n - 1) else LastOf(list, x, n - 1)
  }
}
