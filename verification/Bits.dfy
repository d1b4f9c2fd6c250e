/** The bitwise operators of the source's unsigned integers, on naturals: what `&`, `|` and `<<`
    do to individual bits, and the arithmetic they stand for when one operand is a mask. */
module Bits {

  function Pow2(n: nat): (p: nat)
    ensures p >= 1
  {
    if n == 0 then 1 else 2 * Pow2(n - 1)
  }

  /** Bit `i` of `w`, counting from the least significant. */
  predicate Bit(w: nat, i: nat) {
    if i == 0 then w % 2 == 1 else Bit(w / 2, i - 1)
  }

  function And(a: nat, b: nat): nat {
    if a == 0 || b == 0 then 0 else 2 * And(a / 2, b / 2) + (if a % 2 == 1 && b % 2 == 1 then 1 else 0)
  }

  function Or(a: nat, b: nat): nat {
    if a == 0 then b
    else if b == 0 then a
    else 2 * Or(a / 2, b / 2) + (if a % 2 == 1 || b % 2 == 1 then 1 else 0)
  }

  function Shl(a: nat, k: nat): nat {
    a * Pow2(k)
  }

  function Shr(a: nat, k: nat): nat {
    Quotient(a, Pow2(k))
  }

  function Quotient(a: nat, d: nat): nat
    requires d > 0
  {
    a / d
  }

  lemma BitOfZero(i: nat)
    ensures !Bit(0, i)
  {
  }

  lemma {:induction false} OrIsBitwise(a: nat, b: nat, i: nat)
    ensures Bit(Or(a, b), i) == (Bit(a, i) || Bit(b, i))
    decreases i
  {
    if a == 0 || b == 0 {
      BitOfZero(i);
    } else if i > 0 {
      OrIsBitwise(a / 2, b / 2, i - 1);
    }
  }

  /** `1 << k` has bit `k` and no other. */
  lemma {:induction false} BitOfPow2(k: nat, i: nat)
    ensures Bit(Pow2(k), i) == (i == k)
    decreases k
  {
    if k == 0 {
      if i > 0 { BitOfZero(i - 1); }
    } else if i > 0 {
      BitOfPow2(k - 1, i - 1);
    }
  }

  /** The test `w & (1 << k) > 0`. */
  lemma {:induction false} AndPow2(w: nat, k: nat)
    ensures And(w, Pow2(k)) > 0 <==> Bit(w, k)
    decreases k
  {
    if w == 0 {
      BitOfZero(k);
    } else if k == 0 {
      assert And(w / 2, 0) == 0;
    } else {
      AndPow2(w / 2, k - 1);
    }
  }

  /** `w - (1 << k)` clears bit `k` and leaves the others, when bit `k` is set. */
  lemma {:induction false} SubPow2(w: nat, k: nat, i: nat)
    requires Bit(w, k)
    ensures w >= Pow2(k)
    ensures Bit(w - Pow2(k), i) == (i != k && Bit(w, i))
    decreases k
  {
    if k == 0 {
      if i > 0 { assert (w - 1) / 2 == w / 2; }
    } else {
      SubPow2(w / 2, k - 1, if i > 0 then i - 1 else 0);
      assert (w - Pow2(k)) / 2 == w / 2 - Pow2(k - 1);
    }
  }

  /** A bit is a binary digit. */
  lemma {:induction false} BitIsDigit(w: nat, i: nat)
    ensures Bit(w, i) == (w / Pow2(i) % 2 == 1)
    decreases i
  {
    if i > 0 {
      BitIsDigit(w / 2, i - 1);
      HalfFirst(w, Pow2(i - 1));
    }
  }

  lemma HalfFirst(w: nat, p: nat)
    requires p > 0
    ensures w / 2 / p == w / (2 * p)
  {
    var q := w / 2 / p;
    var r := w / 2 - q * p;
    assert w == q * (2 * p) + (2 * r + w % 2) by { assert 2 * (q * p) == q * (2 * p); }
    ModUnique(w, 2 * p, q, 2 * r + w % 2);
  }

  lemma {:induction false} Pow2Monotone(a: nat, b: nat)
    requires a <= b
    ensures Pow2(a) <= Pow2(b)
    decreases b
  {
    if a < b { Pow2Monotone(a, b - 1); }
  }

  lemma {:induction false} OrBound(a: nat, b: nat, n: nat)
    requires a < Pow2(n) && b < Pow2(n)
    ensures Or(a, b) < Pow2(n)
    decreases n
  {
    if a > 0 && b > 0 && n > 0 { OrBound(a / 2, b / 2, n - 1); }
  }

  lemma {:induction false} Pow2Add(a: nat, b: nat)
    ensures Pow2(a + b) == Pow2(a) * Pow2(b)
    decreases a
  {
    if a > 0 {
      Pow2Add(a - 1, b);
      assert Pow2(a + b) == 2 * Pow2(a - 1 + b);
      assert 2 * (Pow2(a - 1) * Pow2(b)) == (2 * Pow2(a - 1)) * Pow2(b);
    }
  }

  /** Masking with `(1 << k) - 1` is the remainder modulo `2^k`. */
  lemma {:induction false} AndMask(a: nat, k: nat)
    ensures And(a, Pow2(k) - 1) == a % Pow2(k)
    decreases k
  {
    if k > 0 {
      var p := Pow2(k - 1);
      AndMask(a / 2, k - 1);
      ModHalf(a, p);
      AndOdd(a, p - 1);
    }
  }

  lemma AndOdd(a: nat, m: nat)
    ensures And(a, 2 * m + 1) == 2 * And(a / 2, m) + a % 2
  {
    assert (2 * m + 1) / 2 == m && (2 * m + 1) % 2 == 1;
  }

  lemma ModHalf(a: nat, p: nat)
    requires p > 0
    ensures a % (2 * p) == 2 * (a / 2 % p) + a % 2
  {
    var q, r := a / 2 / p, a / 2 % p;
    assert a == 2 * (q * p + r) + a % 2;
    assert a == q * (2 * p) + (2 * r + a % 2);
    ModUnique(a, 2 * p, q, 2 * r + a % 2);
  }

  lemma ModUnique(a: nat, d: nat, q: nat, r: nat)
    requires r < d && a == q * d + r
    ensures a % d == r && a / d == q
  {
    var q', r' := a / d, a % d;
    assert a == q' * d + r';
    assert (q - q') * d == r' - r;
    if q > q' {
      assert (q - q') * d >= d by { MulAtLeast(q - q', d); }
      assert false;
    } else if q' > q {
      assert (q' - q) * d >= d by { MulAtLeast(q' - q, d); }
      assert false;
    }
  }

  lemma MulAtLeast(m: nat, d: nat)
    requires m >= 1
    ensures m * d >= d
  {
  }

  /** `(hi << k) | lo` packs two fields that do not overlap. */
  lemma {:induction false} OrPack(hi: nat, lo: nat, k: nat)
    requires lo < Pow2(k)
    ensures Or(Shl(hi, k), lo) == Shl(hi, k) + lo
    decreases k
  {
    if k > 0 {
      var p := Pow2(k - 1);
      assert Shl(hi, k) == 2 * Shl(hi, k - 1) by { assert hi * (2 * p) == 2 * (hi * p); }
      OrPack(hi, lo / 2, k - 1);
      OrEven(Shl(hi, k - 1), lo);
    }
  }

  /** The bits of two fields side by side. */
  lemma {:induction false} BitOfPack(hi: nat, lo: nat, k: nat, i: nat)
    requires lo < Pow2(k)
    ensures Bit(hi * Pow2(k) + lo, i) == if i < k then Bit(lo, i) else Bit(hi, i - k)
    decreases k
  {
    if k > 0 {
      var w := hi * Pow2(k) + lo;
      assert hi * Pow2(k) == 2 * (hi * Pow2(k - 1));
      assert w % 2 == lo % 2 && w / 2 == hi * Pow2(k - 1) + lo / 2;
      BitOfPack(hi, lo / 2, k - 1, if i > 0 then i - 1 else 0);
    }
  }

  lemma OrEven(x: nat, lo: nat)
    ensures Or(2 * x, lo) == 2 * Or(x, lo / 2) + lo % 2
  {
    assert 2 * x / 2 == x && 2 * x % 2 == 0;
  }

  /** The two fields come apart again under `>> k` and the mask. */
  lemma UnpackFields(hi: nat, lo: nat, k: nat)
    requires lo < Pow2(k)
    ensures Shr(Or(Shl(hi, k), lo), k) == hi
    ensures And(Or(Shl(hi, k), lo), Pow2(k) - 1) == lo
  {
    OrPack(hi, lo, k);
    AndMask(Shl(hi, k) + lo, k);
    ModUnique(Shl(hi, k) + lo, Pow2(k), hi, lo);
  }

  /** How many low-order ones precede the lowest zero. */
  function TrailingOnes(w: nat): nat {
    if w % 2 == 0 then 0 else 1 + TrailingOnes(w / 2)
  }

  lemma {:induction false} TrailingOnesIsLowestZero(w: nat)
    ensures !Bit(w, TrailingOnes(w))
    ensures forall i | 0 <= i < TrailingOnes(w) :: Bit(w, i)
    decreases w
  {
    if w % 2 == 1 {
      TrailingOnesIsLowestZero(w / 2);
      forall i | 0 <= i < TrailingOnes(w) ensures Bit(w, i) {
        if i > 0 { assert Bit(w / 2, i - 1); }
      }
    }
  }

  /** An `n`-bit word other than all ones has a zero among its `n` bits. */
  lemma {:induction false} TrailingOnesFits(w: nat, n: nat)
    requires w < Pow2(n) - 1
    ensures TrailingOnes(w) < n
    decreases n
  {
    if w % 2 == 1 { TrailingOnesFits(w / 2, n - 1); }
  }

  lemma {:induction false} AllOnes(n: nat, i: nat)
    requires i < n
    ensures Bit(Pow2(n) - 1, i)
    decreases n
  {
    var p := Pow2(n - 1);
    assert (2 * p - 1) / 2 == p - 1 && (2 * p - 1) % 2 == 1;
    if i > 0 { AllOnes(n - 1, i - 1); }
  }
}
