/** Little-endian words of any width. */
module LittleEndian {
  import opened Prelude

  function Pow256(n: nat): (p: nat)
    ensures p >= 1
  {
    if n == 0 then 1 else 0x100 * Pow256(n - 1)
  }

  /** The n low bytes of w. */
  function Bytes(w: nat, n: nat): (b: seq<Byte>)
    ensures |b| == n
  {
    if n == 0 then [] else [w % 0x100] + Bytes(w / 0x100, n - 1)
  }

  function Word(b: seq<Byte>): nat {
    if b == [] then 0 else b[0] + 0x100 * Word(b[1..])
  }

  /** n bytes keep a word modulo 256^n. */
  lemma {:induction false} WordBytes(w: nat, n: nat)
    ensures Word(Bytes(w, n)) == w % Pow256(n)
    ensures w < Pow256(n) ==> Word(Bytes(w, n)) == w
  {
    if n > 0 {
      WordBytes(w / 0x100, n - 1);
      var p := Pow256(n - 1);
      var high, low := w / 0x100, w % 0x100;
      assert Bytes(w, n)[1..] == Bytes(high, n - 1);
      ModSplit(high, low, p);
    }
  }

  lemma ModSplit(high: nat, low: nat, p: nat)
    requires low < 0x100 && p >= 1
    ensures (0x100 * high + low) % (0x100 * p) == low + 0x100 * (high % p)
    ensures 0x100 * high + low < 0x100 * p ==> high < p
  {
    var q, r := high / p, high % p;
    assert high == q * p + r;
    assert 0x100 * high + low == q * (0x100 * p) + (0x100 * r + low);
    Remainder(q, 0x100 * p, 0x100 * r + low);
  }

  lemma Remainder(q: nat, d: nat, r: nat)
    requires r < d
    ensures (q * d + r) / d == q
    ensures (q * d + r) % d == r
  {
    var x := q * d + r;
    var e := x / d - q;
    assert x == (x / d) * d + x % d;
    assert e * d == r - x % d;
  }

  lemma {:induction false} WordBound(b: seq<Byte>)
    ensures Word(b) < Pow256(|b|)
  {
    if b != [] {
      WordBound(b[1..]);
    }
  }

  // ---------------------------------------------------------------------------------------------
  // Products
  // ---------------------------------------------------------------------------------------------

  lemma ProductMonotone(a: nat, b: nat, n: nat)
    requires a <= b
    ensures a * n <= b * n
  {
    assert (b - a) * n >= 0;
  }

  lemma ProductStep(i: nat, j: nat, w: nat)
    requires i < j
    ensures i * w + w <= j * w
  {
    ProductMonotone(i + 1, j, w);
  }

  lemma ProductSum(a: nat, b: nat, n: nat)
    ensures (a + b) * n == a * n + b * n
  {
  }
}
