/** Exact integer fractions as the three programs keep them: division and
    remainder truncating toward zero (the `/` and `%` of C, Rust and JS on
    integers), Euclid's recursive gcd built on that remainder, and the two
    ways of reducing a fraction by its gcd. */
module Fractions {

  function Abs(x: int): (r: nat)
    ensures r == x || r == -x
  {
    if x < 0 then -x else x
  }

  lemma MulAssoc(x: int, y: int, z: int)
    ensures (x * y) * z == x * (y * z)
  {
  }

  lemma Distrib(g: int, x: int, y: int)
    ensures g * x + g * y == g * (x + y)
  {
  }

  lemma Cancel(g: int, x: int, y: int)
    requires g != 0 && g * x == g * y
    ensures x == y
  {
    Distrib(g, x, -y);
    MultipleBound(if g < 0 then -g else g, x - y);
  }

  /** A nonzero multiple of y is at least y away from zero. */
  lemma MultipleBound(y: int, d: int)
    requires y > 0
    ensures d == 0 || y * d >= y || y * d <= -y
  {
    if d >= 1 {
      assert y * d == y * (d - 1) + y;
    } else if d <= -1 {
      assert y * d == y * (d + 1) - y;
    }
  }

  /** Euclidean division has exactly one quotient and remainder. */
  lemma DivUnique(x: nat, y: nat, q: int, r: int)
    requires y > 0 && x == y * q + r && 0 <= r < y
    ensures x / y == q && x % y == r
  {
    var q', r' := x / y, x % y;
    assert x == y * q' + r';
    assert y * (q - q') == r' - r;
    MultipleBound(y, q - q');
  }

  /** Integer division truncating toward zero. */
  function Quot(a: int, b: int): int
    requires b != 0
  {
    if (a < 0) == (b < 0) then Abs(a) / Abs(b) else -(Abs(a) / Abs(b))
  }

  /** Remainder with the sign of the dividend: `a % b` in C, Rust and JS. */
  function Rem(a: int, b: int): (r: int)
    requires b != 0
    ensures Abs(r) < Abs(b)
    ensures r == 0 || (r < 0 <==> a < 0)
  {
    if a < 0 then -(Abs(a) % Abs(b)) else Abs(a) % Abs(b)
  }

  /** Quotient and remainder put the dividend back together. */
  lemma QuotRem(a: int, b: int)
    requires b != 0
    ensures a == b * Quot(a, b) + Rem(a, b)
  {
    var q, m := Abs(a) / Abs(b), Abs(a) % Abs(b);
    assert Abs(a) == Abs(b) * q + m;
    if a < 0 {
      assert b < 0 ==> b * q == -(Abs(b) * q);
      assert b >= 0 ==> b * -q == -(Abs(b) * q);
    } else {
      assert b < 0 ==> b * -q == Abs(b) * q;
    }
  }

  /** Rem(a, 2) is zero exactly when a is even. */
  lemma RemEven(a: int)
    ensures Rem(a, 2) == 0 <==> a % 2 == 0
  {
    if a < 0 {
      var m := (-a) % 2;
      assert -a == 2 * ((-a) / 2) + m;
      assert a == 2 * (-((-a) / 2) - 1) + (2 - m) || m == 0;
    }
  }

  /** Truncating division is exact on a multiple of the divisor, so the
      programs' `x /= gcd` loses nothing. */
  lemma QuotExact(a: int, d: int, p: int)
    requires d != 0 && a == d * p
    ensures Quot(a, d) == p
  {
    assert Abs(a) == Abs(d) * Abs(p) by {
      if d < 0 && p < 0 { assert a == (-d) * (-p); }
      else if d < 0 { assert Abs(a) == (-d) * p; }
      else if p < 0 { assert Abs(a) == d * (-p); }
    }
    DivUnique(Abs(a), Abs(d), Abs(p), 0);
    if p > 0 {
      assert (a < 0) == (d < 0) by {
        if d < 0 { assert a == -((-d) * p); }
      }
    } else if p < 0 {
      assert (a < 0) != (d < 0) by {
        if d < 0 { assert a == (-d) * (-p); } else { assert a == -(d * (-p)); }
      }
    }
  }

  /** Euclid's algorithm, recursive as in the programs: gcd(a, b) = b == 0 ? a : gcd(b, a % b).
      With a truncating remainder the result may be negative; it is zero only
      for gcd(0, 0). */
  function Gcd(a: int, b: int): (g: int)
    ensures g == 0 <==> a == 0 && b == 0
    decreases Abs(b)
  {
    if b == 0 then a else Gcd(b, Rem(a, b))
  }

  /** The gcd divides both of its arguments; the cofactors are returned. */
  lemma {:induction false} GcdDivides(a: int, b: int) returns (p: int, q: int)
    ensures a == Gcd(a, b) * p && b == Gcd(a, b) * q
    decreases Abs(b)
  {
    if b == 0 {
      p, q := 1, 0;
    } else {
      var r := Rem(a, b);
      var t := Quot(a, b);
      QuotRem(a, b);
      var g := Gcd(b, r);
      var p', q' := GcdDivides(b, r);
      MulAssoc(g, p', t);
      Distrib(g, p' * t, q');
      p, q := p' * t + q', p';
    }
  }

  /** Dividing by a nonzero gcd is exact for both arguments. */
  lemma GcdQuotients(a: int, b: int)
    requires Gcd(a, b) != 0
    ensures a == Gcd(a, b) * Quot(a, Gcd(a, b)) && b == Gcd(a, b) * Quot(b, Gcd(a, b))
  {
    var p, q := GcdDivides(a, b);
    QuotExact(a, Gcd(a, b), p);
    QuotExact(b, Gcd(a, b), q);
  }

  /** Every common divisor of a and b divides their gcd. */
  lemma {:induction false} GcdGreatest(a: int, b: int, d: int, x: int, y: int) returns (m: int)
    requires a == d * x && b == d * y
    ensures Gcd(a, b) == d * m
    decreases Abs(b)
  {
    if b == 0 {
      m := x;
    } else {
      var t := Quot(a, b);
      QuotRem(a, b);
      calc {
        Rem(a, b);
        a - b * t;
        d * x - (d * y) * t;
        d * (x - y * t);
      }
      m := GcdGreatest(b, Rem(a, b), d, y, x - y * t);
    }
  }

  /** Multiplying by a nonzero integer never shrinks the magnitude. */
  lemma AbsMulGe(h: int, m: int)
    requires m != 0
    ensures Abs(h * m) >= Abs(h)
  {
    var am := Abs(m);
    assert Abs(h * m) == Abs(h) * am by {
      if h < 0 && m < 0 { assert h * m == (-h) * (-m); }
      else if h < 0 { assert h * m == -((-h) * m); }
      else if m < 0 { assert h * m == -(h * (-m)); }
    }
    assert Abs(h) * am == Abs(h) * (am - 1) + Abs(h);
  }

  lemma UnitProduct(h: int, m: int)
    requires h * m == 1
    ensures h == 1 || h == -1
  {
    assert m != 0;
    AbsMulGe(h, m);
  }

  datatype Frac = Frac(nom: int, denom: int)

  /** The common factor that a reduction divides out of f (one when the
      numerator is zero, because then nothing is divided). */
  function ReductionFactor(f: Frac): (g: int)
    ensures g != 0
  {
    if f.nom == 0 then 1 else Gcd(f.nom, f.denom)
  }

  /** `simplify` of the C and JS programs as a value: a zero numerator is left
      alone; otherwise both parts are divided by their gcd. The result times
      the factor gives back f, so the fraction keeps its value. */
  function Reduced(f: Frac): (r: Frac)
    ensures f.nom == 0 ==> r == f
    ensures r.nom == 0 <==> f.nom == 0
    ensures f.denom != 0 ==> r.denom != 0
  {
    if f.nom == 0 then f
    else
      var g := Gcd(f.nom, f.denom);
      GcdQuotients(f.nom, f.denom);
      Frac(Quot(f.nom, g), Quot(f.denom, g))
  }

  /** The reduced fraction times the factor gives back f, so reducing keeps
      the value of the fraction. */
  lemma ReducedScales(f: Frac)
    ensures f.nom == ReductionFactor(f) * Reduced(f).nom && f.denom == ReductionFactor(f) * Reduced(f).denom
  {
    if f.nom != 0 {
      GcdQuotients(f.nom, f.denom);
    }
  }

  /** A fraction reduced with a nonzero numerator is in lowest terms: the
      only common divisors left are 1 and -1. */
  lemma ReducedIsLowest(f: Frac)
    requires f.nom != 0
    ensures Abs(Gcd(Reduced(f).nom, Reduced(f).denom)) == 1
  {
    var g := Gcd(f.nom, f.denom);
    var r := Reduced(f);
    var h := Gcd(r.nom, r.denom);
    ReducedScales(f);
    var p, q := GcdDivides(r.nom, r.denom);
    MulAssoc(g, h, p);
    MulAssoc(g, h, q);
    var m := GcdGreatest(f.nom, f.denom, g * h, p, q);
    MulAssoc(g, h, m);
    Cancel(g, h * m, 1);
    UnitProduct(h, m);
  }

  /** `Fraction::simplify` of the Rust program: like Reduced, except that a
      zero numerator yields 0/0 instead of keeping the denominator. */
  function Simplified(f: Frac): (r: Frac)
    ensures r.nom == Reduced(f).nom
    ensures f.nom != 0 ==> r == Reduced(f)
    ensures f.nom == 0 ==> r.denom == 0
  {
    if f.nom == 0 then Frac(0, 0)
    else
      var g := Gcd(f.nom, f.denom);
      Frac(Quot(f.nom, g), Quot(f.denom, g))
  }

  /** `simplify(int *frac)` of the C program and `simplify(frac)` of the JS
      program: reduces the two-element array in place and returns the divisor
      used, or 0 when the numerator is zero and nothing was changed. */
  method Simplify(frac: array<int>) returns (div: int)
    requires frac.Length == 2
    modifies frac
    ensures frac[..] == [Reduced(Frac(old(frac[0]), old(frac[1]))).nom,
                         Reduced(Frac(old(frac[0]), old(frac[1]))).denom]
    ensures div == 0 <==> old(frac[0]) == 0
    ensures div != 0 ==> div == ReductionFactor(Frac(old(frac[0]), old(frac[1])))
  {
    if frac[0] == 0 {
      return 0;
    }
    div := Gcd(frac[0], frac[1]);
    frac[0] := Quot(frac[0], div);
    frac[1] := Quot(frac[1], div);
  }
}
