/** The bit operators of C++ on natural numbers, bit by bit, and what the expressions of the codecs come to. */
module BitOps {
  import opened Chunks

  function Pow2(n: nat): (r: nat)
    ensures r > 0
  {
    if n == 0 then 1 else 2 * Pow2(n - 1)
  }

  /** a & b */
  function And(a: nat, b: nat): (r: nat) {
    if a == 0 || b == 0 then 0
    else 2 * And(a / 2, b / 2) + if a % 2 == 1 && b % 2 == 1 then 1 else 0
  }

  /** a | b */
  function Or(a: nat, b: nat): (r: nat) {
    if a == 0 then b else if b == 0 then a
    else 2 * Or(a / 2, b / 2) + if a % 2 == 1 || b % 2 == 1 then 1 else 0
  }

  /** a ^ b */
  function Xor(a: nat, b: nat): (r: nat) {
    if a == 0 then b else if b == 0 then a
    else 2 * Xor(a / 2, b / 2) + if a % 2 != b % 2 then 1 else 0
  }

  /** a << k in `bits` bits */
  function ShiftLeft(a: nat, k: nat, bits: nat): (r: nat) {
    (a * Pow2(k)) % Pow2(bits)
  }

  /** -a in `bits` bits */
  function Negated(a: nat, bits: nat): (r: nat) {
    (0 - a) % Pow2(bits)
  }

  /** The number a two's-complement bit pattern stands for, and back. */
  function Signed(u: nat, bits: nat): (r: int)
    requires bits > 0
  {
    if u < Pow2(bits - 1) then u else u - Pow2(bits)
  }

  function Unsigned(n: int, bits: nat): (r: int) {
    if n < 0 then n + Pow2(bits) else n
  }

  predicate Fits(n: int, bits: nat)
    requires bits > 0
  {
    0 - Pow2(bits - 1) <= n < Pow2(bits - 1)
  }

  /** a >> k of a signed number: the quotient, rounded down */
  function ShiftRight(n: int, k: nat): (r: int) {
    n / Pow2(k)
  }

  lemma Halves(k: nat)
    requires k > 0
    ensures (Pow2(k) - 1) / 2 == Pow2(k - 1) - 1 && (Pow2(k) - 1) % 2 == 1
  {
    assert Pow2(k) - 1 == 2 * (Pow2(k - 1) - 1) + 1;
  }

  /** Masking the low bits is a remainder. */
  lemma {:induction false} AndLow(a: nat, k: nat)
    ensures And(a, Pow2(k) - 1) == a % Pow2(k)
  {
    if k == 0 {
      assert a % 1 == 0;
    } else if a == 0 {
      DivUnique(0, Pow2(k), 0, 0);
    } else {
      Halves(k);
      AndLow(a / 2, k - 1);
      HalfCut(a, Pow2(k - 1));
      if k == 1 {
        assert And(a, 1) == 2 * And(a / 2, 0) + a % 2;
      }
    }
  }

  lemma HalfCut(a: nat, p: nat)
    requires p > 0
    ensures a % (2 * p) == 2 * ((a / 2) % p) + a % 2
  {
    var q, r := (a / 2) / p, (a / 2) % p;
    DivMod(a / 2, p);
    assert a == 2 * (a / 2) + a % 2;
    assert 2 * (q * p + r) + a % 2 == q * (2 * p) + (2 * r + a % 2);
    DivUnique(a, 2 * p, q, 2 * r + a % 2);
  }

  /** Where the operands have no bit in common an or is a sum. */
  lemma {:induction false} OrApart(a: nat, b: nat, k: nat)
    requires a < Pow2(k)
    ensures Or(a, b * Pow2(k)) == a + b * Pow2(k)
  {
    if a > 0 && b * Pow2(k) > 0 {
      var c := b * Pow2(k - 1);
      assert b * Pow2(k) == 2 * c by { Doubled(b, Pow2(k - 1)); }
      OrApart(a / 2, b, k - 1);
      assert a == 2 * (a / 2) + a % 2;
    }
  }

  lemma Doubled(b: nat, p: nat)
    ensures b * (2 * p) == 2 * (b * p)
  {
  }

  /** Exclusive or with all ones is the complement. */
  lemma {:induction false} XorOnes(a: nat, k: nat)
    requires a < Pow2(k)
    ensures Xor(a, Pow2(k) - 1) == Pow2(k) - 1 - a
  {
    if k > 0 && a > 0 {
      Halves(k);
      XorOnes(a / 2, k - 1);
      assert a == 2 * (a / 2) + a % 2;
    }
  }
}
