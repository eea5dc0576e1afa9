/**
 The conversion of whole numbers to Java's float: 24 binary digits and an exponent, rounded
 to nearest with ties to the even multiple.
 */
module JavaFloat {
  import opened Common

  /** Up to here every whole number is a float. */
  const FLOAT_EXACT := 0x100_0000

  /** The whole numbers that are floats. (The greatest exponent is far beyond a long.) */
  ghost predicate IsFloat(w: int) {
    exists m: int, e: nat :: IsScaled(w, m, e)
  }

  ghost predicate IsScaled(w: int, m: int, e: nat) {
    -FLOAT_EXACT <= m <= FLOAT_EXACT && w == m * Pow2(e)
  }

  /** The exponent of the neighbouring floats of n: the least e with n below 2^24 * 2^e. */
  function Exponent(n: nat): nat {
    if n < FLOAT_EXACT then 0 else 1 + Exponent(n / 2)
  }

  function NearestMultiple(n: nat, u: nat): int
    requires u > 0
  {
    var q, r := n / u, n % u;
    if 2 * r < u || (2 * r == u && q % 2 == 0) then q * u else (q + 1) * u
  }

  function ToFloat(x: int): int {
    if x >= 0 then NearestMultiple(x, Pow2(Exponent(x))) else -NearestMultiple(-x, Pow2(Exponent(-x)))
  }

  function Distance(x: int, y: int): nat {
    if x <= y then y - x else x - y
  }

  lemma {:induction false} ExponentFits(n: nat)
    ensures n < FLOAT_EXACT * Pow2(Exponent(n))
    ensures Exponent(n) > 0 ==> n >= FLOAT_EXACT * Pow2(Exponent(n) - 1)
    decreases n
  {
    if n >= FLOAT_EXACT {
      ExponentFits(n / 2);
    }
  }

  /** Between two neighbouring multiples the nearest one is chosen. */
  lemma NearestOfTwo(n: nat, u: nat, q: nat, r: nat)
    requires u > 0 && q == n / u && r == n % u
    ensures n == q * u + r && r < u
    ensures NearestMultiple(n, u) in {q * u, (q + 1) * u}
    ensures Distance(n, NearestMultiple(n, u)) <= r && Distance(n, NearestMultiple(n, u)) <= u - r
  {
    assert (q + 1) * u == q * u + u;
  }

  /** No other multiple is closer. */
  lemma NearestOfAll(n: nat, u: nat, m: int)
    requires u > 0
    ensures Distance(n, NearestMultiple(n, u)) <= Distance(n, m * u)
  {
    var q, r := n / u, n % u;
    NearestOfTwo(n, u, q, r);
    if m <= q {
      Grows(q - m, u);
      assert m * u == q * u - (q - m) * u;
    } else {
      Grows(m - q - 1, u);
      assert m * u == q * u + u + (m - q - 1) * u;
    }
  }

  lemma Grows(d: nat, u: nat)
    ensures d * u >= 0
  {
  }

  lemma Scales(x: int, y: int, u: nat)
    requires x <= y
    ensures x * u <= y * u
  {
    Grows(y - x, u);
    assert y * u == x * u + (y - x) * u;
  }

  /** The rounded number has at most 24 digits before its exponent. */
  lemma RoundedIsScaled(n: nat)
    ensures var e := Exponent(n); exists m: nat :: IsScaled(NearestMultiple(n, Pow2(e)), m, e)
  {
    var e := Exponent(n);
    var u := Pow2(e);
    var q, r := n / u, n % u;
    NearestOfTwo(n, u, q, r);
    ExponentFits(n);
    if q >= FLOAT_EXACT {
      Scales(FLOAT_EXACT, q, u);
    }
    assert IsScaled(q * u, q, e) && IsScaled((q + 1) * u, q + 1, e);
  }

  /** A float is a multiple of the unit at n, or lies below all floats of that unit at n. */
  lemma FloatsNear(n: nat, w: int, m: int, e: nat)
    requires IsScaled(w, m, e)
    ensures var u := Pow2(Exponent(n));
      (exists k: int :: w == k * u) || w <= FLOAT_EXACT / 2 * u <= n
  {
    var d := Exponent(n);
    if e >= d {
      PowersAdd(e - d, d);
      assert w == (m * Pow2(e - d)) * Pow2(d);
    } else {
      ExponentFits(n);
      SmallFloats(m, e, d - 1);
      assert Pow2(d) == 2 * Pow2(d - 1);
    }
  }

  lemma SmallFloats(m: int, e: nat, d: nat)
    requires m <= FLOAT_EXACT && e <= d
    ensures m * Pow2(e) <= FLOAT_EXACT * Pow2(d)
  {
    PowersAdd(d - e, e);
    Scales(m, FLOAT_EXACT, Pow2(e));
    Scales(1, Pow2(d - e), Pow2(e));
    Scales(Pow2(e), Pow2(d), FLOAT_EXACT);
  }

  lemma NearestOfFloats(n: nat, w: int)
    requires IsFloat(w)
    ensures Distance(n, NearestMultiple(n, Pow2(Exponent(n)))) <= Distance(n, w)
  {
    var m, e :| IsScaled(w, m, e);
    var u := Pow2(Exponent(n));
    FloatsNear(n, w, m, e);
    if k: int :| w == k * u {
      NearestOfAll(n, u, k);
    } else {
      NearestOfAll(n, u, FLOAT_EXACT / 2);
    }
  }

  lemma NegatedFloat(w: int)
    requires IsFloat(w)
    ensures IsFloat(-w)
  {
    var m, e :| IsScaled(w, m, e);
    assert IsScaled(-w, -m, e);
  }

  /** The conversion yields a float, none is closer, and small numbers are converted exactly. */
  lemma ToFloatIsNearest(x: int)
    ensures IsFloat(ToFloat(x))
    ensures forall w :: IsFloat(w) ==> Distance(x, ToFloat(x)) <= Distance(x, w)
    ensures -FLOAT_EXACT <= x <= FLOAT_EXACT ==> ToFloat(x) == x
  {
    var n := if x >= 0 then x else -x;
    RoundedIsScaled(n);
    var v := NearestMultiple(n, Pow2(Exponent(n)));
    assert IsFloat(v);
    NegatedFloat(v);
    forall w | IsFloat(w) ensures Distance(x, ToFloat(x)) <= Distance(x, w) {
      NegatedFloat(w);
      NearestOfFloats(n, w);
      NearestOfFloats(n, -w);
    }
    if n <= FLOAT_EXACT {
      assert Pow2(0) == 1 && IsScaled(n, n, 0);
      NearestOfFloats(n, n);
    }
  }
}
