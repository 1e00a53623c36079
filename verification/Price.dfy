/** Quote conversions (web/src/price.ts): token units to wei rounds down, wei to token
    units rounds up.  */
module Price {
  import opened Powers
  import opened Wrappers

  /** Wei per whole token, as an exact fraction, and the token's decimals. */
  datatype Quote = Quote(num: nat, den: nat, decimals: nat)

  function Pow10(n: nat): (p: nat)
    ensures p > 0
  {
    if n == 0 then 1 else 10 * Pow10(n - 1)
  }

  /** Amounts are not negative, where BigInt division and Dafny's agree.
      None stands for the division by zero the source throws on. */
  function TokenToNative(amount: nat, q: Quote): Option<int> {
    var oneToken := Pow10(q.decimals);
    if q.den * oneToken == 0 then None
    else Some((amount * q.num * Pow10(18)) / (q.den * oneToken))
  }

  function NativeToToken(wei: nat, q: Quote): int {
    var num := wei * q.den * Pow10(q.decimals);
    var den := q.num * Pow10(18);
    if den == 0 then 0 else (num + den - 1) / den
  }

  // ---- floor and ceiling --------------------------------------------------

  lemma FloorAtLeast(w: int, y: int, b: int)
    requires b > 0
    ensures w <= y / b <==> w * b <= y
  {
    var q := y / b;
    assert q * b <= y < (q + 1) * b;
    if w <= q {
      MulMono(w, q, b);
    } else {
      MulMono(q + 1, w, b);
    }
  }

  lemma CeilAtMost(x: int, t: int, d: int)
    requires d > 0
    ensures (x + d - 1) / d <= t <==> x <= t * d
  {
    FloorAtLeast(t + 1, x + d - 1, d);
    assert (t + 1) * d == t * d + d;
  }

  lemma Positive(a: nat, b: nat)
    requires a > 0 && b > 0
    ensures a * b > 0
  {
  }

  /** The two conversions over the common factors wei-rate and unit. */
  lemma Normal(q: Quote, w: nat, t: nat) returns (rate: nat, unit: nat)
    requires q.num > 0 && q.den > 0
    ensures rate > 0 && unit > 0
    ensures NativeToToken(w, q) == (w * unit + rate - 1) / rate
    ensures TokenToNative(t, q) == Some((t * rate) / unit)
  {
    rate, unit := q.num * Pow10(18), q.den * Pow10(q.decimals);
    Positive(q.num, Pow10(18));
    Positive(q.den, Pow10(q.decimals));
    assert w * q.den * Pow10(q.decimals) == w * unit by {
      Associates(w, q.den, Pow10(q.decimals));
    }
    assert t * q.num * Pow10(18) == t * rate by {
      Associates(t, q.num, Pow10(18));
    }
  }

  lemma Associates(a: int, b: int, c: int)
    ensures a * b * c == a * (b * c)
  {
  }

  // ---- the conversions are adjoint ----------------------------------------

  /** `t` units are enough for `w` wei exactly when they convert back to at least `w`. */
  lemma Adjoint(q: Quote, w: nat, t: nat)
    requires q.num > 0 && q.den > 0
    ensures TokenToNative(t, q).Some?
    ensures NativeToToken(w, q) <= t <==> w <= TokenToNative(t, q).value
  {
    var rate, unit := Normal(q, w, t);
    CeilAtMost(w * unit, t, rate);
    FloorAtLeast(w, t * rate, unit);
  }

  lemma ZeroRate(q: Quote, w: nat, t: nat)
    requires q.den > 0 && q.num == 0
    ensures NativeToToken(w, q) == 0 && TokenToNative(t, q) == Some(0)
  {
    Positive(q.den, Pow10(q.decimals));
    hide Pow10;
    Associates(t, 0, Pow10(18));
  }

  /** With a zero rate the guard answers 0, and the adjunction is left for w = 0 alone. */
  lemma AdjointExactly(q: Quote, w: nat, t: nat)
    requires q.den > 0
    ensures TokenToNative(t, q).Some?
    ensures (NativeToToken(w, q) <= t <==> w <= TokenToNative(t, q).value) <==> (q.num > 0 || w == 0)
  {
    if q.num > 0 {
      Adjoint(q, w, t);
    } else {
      ZeroRate(q, w, t);
    }
  }

  /** The rounded-up amount suffices, one unit less never does, and what it converts back to
      exceeds the wei asked for by at most the worth of one unit. */
  lemma NeededAmount(q: Quote, w: nat)
    requires q.num > 0 && q.den > 0
    ensures var u := NativeToToken(w, q);
      && 0 <= u
      && TokenToNative(u, q).Some? && w <= TokenToNative(u, q).value
      && (u > 0 ==> TokenToNative(u - 1, q).Some? && TokenToNative(u - 1, q).value < w)
      && TokenToNative(1, q).Some? && TokenToNative(u, q).value - w <= TokenToNative(1, q).value
  {
    var u := NativeToToken(w, q);
    var rate, unit := Normal(q, w, 0);
    FloorAtLeast(0, w * unit + rate - 1, rate);
    Adjoint(q, w, u);
    if u > 0 {
      Adjoint(q, w, u - 1);
    }
    Excess(q, w, u);
  }

  lemma Excess(q: Quote, w: nat, u: nat)
    requires q.num > 0 && q.den > 0 && u == NativeToToken(w, q)
    ensures TokenToNative(u, q).Some? && TokenToNative(1, q).Some?
    ensures TokenToNative(u, q).value <= w + TokenToNative(1, q).value
  {
    var rate, unit := q.num * Pow10(18), q.den * Pow10(q.decimals);
    Positive(q.num, Pow10(18));
    Positive(q.den, Pow10(q.decimals));
    Associates(w, q.den, Pow10(q.decimals));
    Associates(u, q.num, Pow10(18));
    Associates(1, q.num, Pow10(18));
    var y := u * rate;
    assert y < w * unit + rate by {
      if u != 0 {
        CeilAtMost(w * unit, u - 1, rate);
        assert (u - 1) * rate == y - rate;
      }
    }
    var one := rate / unit;
    FloorAtLeast(one + 1, rate, unit);
    assert rate < (one + 1) * unit;
    assert (w + one + 1) * unit == w * unit + (one + 1) * unit;
    FloorAtLeast(w + one + 1, y, unit);
  }

  /** One whole token is worth its rate in whole native coins of 10^18 wei, rounded down,
      whatever its decimals. */
  lemma WholeToken(q: Quote)
    requires q.den > 0
    ensures TokenToNative(Pow10(q.decimals), q) == Some(q.num * 1_000_000_000_000_000_000 / q.den)
  {
    var one, scale := Pow10(q.decimals), Pow10(18);
    Scales();
    Positive(q.den, one);
    hide Pow10;
    assert one * q.num * scale == (q.num * scale) * one by {
      Commutes(one, q.num, scale);
    }
    CancelUnit(q.num * scale, q.den, one);
  }

  lemma Commutes(a: int, b: int, c: int)
    ensures a * b * c == (b * c) * a
  {
  }

  lemma CancelUnit(n: nat, d: nat, u: nat)
    requires d > 0 && u > 0
    ensures d * u > 0 && (n * u) / (d * u) == n / d
  {
    var k := n / d;
    Positive(d, u);
    QuotientBounds(n, d);
    MulMono(k * d, n, u);
    MulMono(n + 1, (k + 1) * d, u);
    Associates(k, d, u);
    Associates(k + 1, d, u);
    assert (n + 1) * u == n * u + u;
    DivUnique(n * u, d * u, k);
  }

  /** USDC has six decimals, the native coin eighteen. */
  lemma {:induction false} Scales()
    ensures Pow10(0) == 1 && Pow10(6) == 1_000_000 && Pow10(18) == 1_000_000_000_000_000_000
  {
    assert Pow10(3) == 1000;
    assert Pow10(6) == 1_000_000;
    assert Pow10(9) == 1_000_000_000;
    assert Pow10(12) == 1_000_000_000_000;
    assert Pow10(15) == 1_000_000_000_000_000;
  }
}
