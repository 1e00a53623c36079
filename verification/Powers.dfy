/** Powers of two and the bits of an index. */
module Powers {
  function Pow2(n: nat): (p: nat)
    ensures p > 0
  {
    if n == 0 then 1 else 2 * Pow2(n - 1)
  }

  /** `bit(n, lv)`: (n >> lv) & 1 === 1. */
  predicate Bit(n: nat, lv: nat) {
    n / Pow2(lv) % 2 == 1
  }

  lemma Pow2Step(n: nat)
    requires n > 0
    ensures Pow2(n) == 2 * Pow2(n - 1)
  {
  }

  lemma TwiceProduct(a: int, b: int)
    ensures (2 * a) * b == 2 * (a * b)
  {
  }

  /** The quotient, without a division. */
  lemma QuotientBounds(n: nat, d: nat)
    requires d > 0
    ensures n / d >= 0 && n / d * d <= n < (n / d + 1) * d
  {
    var q, r := n / d, n % d;
    assert n == q * d + r && 0 <= r < d;
    assert (q + 1) * d == q * d + d;
  }

  lemma {:induction false} Pow2Add(a: nat, b: nat)
    ensures Pow2(a + b) == Pow2(a) * Pow2(b)
  {
    if a == 0 {
      assert Pow2(0) * Pow2(b) == Pow2(b);
    } else {
      Pow2Add(a - 1, b);
      Pow2Step(a);
      Pow2Step(a + b);
      hide Pow2;
      assert a + b - 1 == a - 1 + b;
      TwiceProduct(Pow2(a - 1), Pow2(b));
    }
  }

  lemma {:induction false} Pow2Mono(a: nat, b: nat)
    requires a <= b
    ensures Pow2(a) <= Pow2(b)
  {
    if a < b {
      Pow2Mono(a, b - 1);
    }
  }

  lemma MulMono(a: int, b: int, d: int)
    requires a <= b && d > 0
    ensures a * d <= b * d
  {
  }

  lemma DivUnique(n: int, d: int, q: int)
    requires d > 0
    requires q * d <= n < (q + 1) * d
    ensures n / d == q
  {
    var p := n / d;
    assert p * d <= n < (p + 1) * d;
    if p < q {
      MulMono(p + 1, q, d);
    }
    if p > q {
      MulMono(q + 1, p, d);
    }
  }

  /** Dividing after adding a multiple of the divisor. */
  lemma DivAddMultiple(a: int, k: int, d: int)
    requires d > 0
    ensures (a + k * d) / d == a / d + k
  {
    var q := a / d;
    assert a == q * d + a % d;
    assert (q + k) * d == q * d + k * d;
    assert (q + k + 1) * d == (q + k) * d + d;
    DivUnique(a + k * d, d, q + k);
  }

  /** In a block of 2^lv the top bit says which half an index is in. */
  lemma TopBit(i: nat, lv: nat)
    requires lv > 0 && i < Pow2(lv)
    ensures Bit(i, lv - 1) <==> i >= Pow2(lv - 1)
  {
    var half := Pow2(lv - 1);
    if i >= half {
      DivUnique(i, half, 1);
    } else {
      DivUnique(i, half, 0);
    }
  }

  lemma AddEven(a: nat, m: nat)
    ensures (a + 2 * m) % 2 == a % 2
  {
  }

  lemma Regroup(k: int, m: int, d: int)
    ensures k * ((2 * m) * d) == (2 * (k * m)) * d
  {
    assert (2 * m) * d == 2 * (m * d);
    assert k * (2 * (m * d)) == 2 * (k * (m * d));
    assert k * (m * d) == (k * m) * d;
  }

  lemma ParityKept(i: nat, m: nat, d: nat, n: nat)
    requires d > 0 && n == i + (2 * m) * d
    ensures n / d % 2 == i / d % 2
  {
    DivAddMultiple(i, 2 * m, d);
    AddEven(i / d, m);
  }

  /** Adding a multiple of 2^lv leaves the bits below lv alone. */
  lemma {:induction false} LowBit(i: nat, k: nat, lv: nat, l: nat)
    requires l < lv
    ensures Bit(i + k * Pow2(lv), l) == Bit(i, l)
  {
    var m, d, p := Pow2(lv - l - 1), Pow2(l), Pow2(lv);
    assert p == (2 * m) * d by {
      Pow2Add(lv - l, l);
    }
    Regroup(k, m, d);
    ParityKept(i, k * m, d, i + k * p);
  }

  lemma {:induction false} LowBits(i: nat, lv: nat)
    ensures forall l :: 0 <= l < lv ==> Bit(i + Pow2(lv), l) == Bit(i, l)
  {
    forall l | 0 <= l < lv ensures Bit(i + Pow2(lv), l) == Bit(i, l) {
      LowBit(i, 1, lv, l);
    }
  }
}
