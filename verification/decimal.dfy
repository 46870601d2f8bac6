/** Exact decimal numbers: an integer count of units of 10^-places.
    The page computes with IEEE doubles; this model computes the same
    formulas exactly and only rounds where the page calls toFixed(2). */
module Decimal {

  function Pow10(e: nat): (p: nat)
    ensures p >= 1
  {
    if e == 0 then 1 else 10 * Pow10(e - 1)
  }

  lemma {:induction false} Pow10Add(a: nat, b: nat)
    ensures Pow10(a + b) == Pow10(a) * Pow10(b)
  {
    if b > 0 {
      Pow10Add(a, b - 1);
      calc {
        Pow10(a + b);
        10 * Pow10(a + b - 1);
        10 * (Pow10(a) * Pow10(b - 1));
        Pow10(a) * (10 * Pow10(b - 1));
      }
    }
  }

  function Abs(x: int): nat {
    if x < 0 then -x else x
  }

  function AbsReal(x: real): real {
    if x < 0.0 then -x else x
  }

  /** The number units × 10^-places. */
  datatype Dec = Dec(units: int, places: nat)

  /** The rational number a decimal denotes. */
  function Value(d: Dec): real {
    d.units as real / Pow10(d.places) as real
  }

  lemma ScaleFraction(u: int, p: nat, k: nat)
    requires p >= 1 && k >= 1
    ensures (u * k) as real / (p * k) as real == u as real / p as real
  {
    assert (u * k) as real == u as real * k as real;
    assert (p * k) as real == p as real * k as real;
  }

  lemma SumFraction(x: int, y: int, p: nat)
    requires p >= 1
    ensures (x + y) as real / p as real == x as real / p as real + y as real / p as real
  {
  }

  /** The same number written with more fractional digits. */
  function Rescale(d: Dec, places: nat): (r: Dec)
    requires d.places <= places
    ensures r.places == places
    ensures Value(r) == Value(d)
  {
    var k := Pow10(places - d.places);
    Pow10Add(d.places, places - d.places);
    ScaleFraction(d.units, Pow10(d.places), k);
    Dec(d.units * k, places)
  }

  function Max(a: nat, b: nat): nat {
    if a < b then b else a
  }

  /** Exact sum. */
  function Add(a: Dec, b: Dec): (r: Dec)
    ensures Value(r) == Value(a) + Value(b)
    ensures r.places == Max(a.places, b.places)
  {
    var places := Max(a.places, b.places);
    var a', b' := Rescale(a, places), Rescale(b, places);
    SumFraction(a'.units, b'.units, Pow10(places));
    Dec(a'.units + b'.units, places)
  }

  /** Exact product with an integer. */
  function MulInt(a: Dec, n: int): (r: Dec)
    ensures Value(r) == Value(a) * n as real
    ensures r.places == a.places
  {
    assert (a.units * n) as real == a.units as real * n as real;
    Dec(a.units * n, a.places)
  }

  /** The count of hundredths nearest to |Value(d)|, a half rounded up: the
      digits Number.prototype.toFixed(2) writes after any minus sign. */
  function RoundedCents(d: Dec): (n: nat)
    ensures (2 * n - 1) * Pow10(d.places) <= 200 * Abs(d.units)
    ensures 200 * Abs(d.units) < (2 * n + 1) * Pow10(d.places)
  {
    NearestMultiple(200 * Abs(d.units), Pow10(d.places))
  }

  /** The n for which n × p is nearest to x/2, a tie going to the larger n. */
  function NearestMultiple(x: nat, p: nat): (n: nat)
    requires p >= 1
    ensures (2 * n - 1) * p <= x < (2 * n + 1) * p
  {
    var n := (x + p) / (2 * p);
    DivBounds(x + p, 2 * p);
    assert (2 * n - 1) * p == 2 * p * n - p && (2 * n + 1) * p == 2 * p * n + p by {
      assert (2 * n) * p == 2 * p * n;
    }
    n
  }

  lemma DivBounds(a: nat, q: nat)
    requires q >= 1
    ensures q * (a / q) <= a < q * (a / q) + q
  {
  }
}
