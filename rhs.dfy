/**
 * Exact complex numbers over the reals, as pairs (re, im): enough arithmetic
 * for the right-hand side of the DNLS, with no rounding.
 */
module ComplexArith {

  datatype Complex = Complex(re: real, im: real)

  const Zero := Complex(0.0, 0.0)

  function Plus(z: Complex, w: Complex): Complex
  {
    Complex(z.re + w.re, z.im + w.im)
  }

  /** A real multiple r z. */
  function Scale(r: real, z: Complex): Complex
  {
    Complex(r * z.re, r * z.im)
  }

  /** The product i z with the imaginary unit. */
  function TimesI(z: Complex): Complex
  {
    Complex(-z.im, z.re)
  }

  /** The squared modulus |z|^2, numpy's `abs(z)**2` without the rounding. */
  function NormSq(z: Complex): real
  {
    z.re * z.re + z.im * z.im
  }
}

/**
 * The right-hand side f(t, y) = -i L |y|^2 y + 0.5 i H y of the DNLS that
 * `dnls_rhs` in dnls.py returns, with H the coupling matrix.
 */
module RightHandSide {
  import opened ComplexArith
  import opened Coupling
  import opened Hopping

  /** The product of a real row with a complex vector. */
  function Dot(row: seq<real>, y: seq<Complex>): Complex
    requires |row| == |y|
  {
    if row == [] then Zero else Plus(Scale(row[0], y[0]), Dot(row[1..], y[1..]))
  }

  /** Dot distributes over a sum of rows. */
  lemma {:induction false} DotAdd(r1: seq<real>, r2: seq<real>, r: seq<real>, y: seq<Complex>)
    requires |r1| == |r2| == |r| == |y|
    requires forall j :: 0 <= j < |r| ==> r[j] == r1[j] + r2[j]
    ensures Dot(r, y) == Plus(Dot(r1, y), Dot(r2, y))
  {
    if r != [] {
      DotAdd(r1[1..], r2[1..], r[1..], y[1..]);
      var s1, s2 := Scale(r1[0], y[0]), Scale(r2[0], y[0]);
      assert Scale(r[0], y[0]) == Plus(s1, s2);
      var d1, d2 := Dot(r1[1..], y[1..]), Dot(r2[1..], y[1..]);
      assert Dot(r, y) == Plus(Plus(s1, s2), Plus(d1, d2));
      assert Dot(r1, y) == Plus(s1, d1) && Dot(r2, y) == Plus(s2, d2);
    }
  }

  /** A row that is zero except perhaps at column p picks out y[p] only. */
  lemma {:induction false} DotSingle(row: seq<real>, y: seq<Complex>, p: int)
    requires |row| == |y|
    requires forall j :: 0 <= j < |row| && j != p ==> row[j] == 0.0
    ensures Dot(row, y) == if 0 <= p < |row| then Scale(row[p], y[p]) else Zero
  {
    if row != [] {
      DotSingle(row[1..], y[1..], p - 1);
    }
  }

  /** The matrix-vector product, numpy's `dot(H, y)`. */
  function MatVec(H: Matrix, y: seq<Complex>): (v: seq<Complex>)
    requires IsSquare(H, |y|)
    ensures |v| == |y|
  {
    seq(|y|, i requires 0 <= i < |y| => Dot(H[i], y))
  }

  /**
   * Entry i of the coupling term H y involves only the two neighbours of
   * site i: h[i-1] y[i-1] + h[i] y[i+1], the end sites having one neighbour
   * each.
   */
  lemma CouplingAt(h: seq<real>, y: seq<Complex>, i: nat)
    requires |y| == |h| + 1 && i < |y|
    ensures MatVec(HoppingMatrix(h), y)[i] ==
      Plus(if i > 0 then Scale(h[i - 1], y[i - 1]) else Zero,
           if i < |h| then Scale(h[i], y[i + 1]) else Zero)
  {
    var n := |h| + 1;
    var lower, upper := Diag(h, -1), Diag(h, 1);
    DotAdd(lower[i], upper[i], HoppingMatrix(h)[i], y);
    DotSingle(lower[i], y, i - 1);
    DotSingle(upper[i], y, i + 1);
  }

  /**
   * The rate of one site: the on-site cubic term -i L |z|^2 z plus half of i
   * times the site's coupling term c = (H y)_i.
   */
  function SiteRate(L: real, z: Complex, c: Complex): Complex
  {
    Plus(TimesI(Scale(-L * NormSq(z), z)), TimesI(Scale(0.5, c)))
  }

  /** `f(t, y)` for coupling matrix H and nonlinearity L; t is unused. */
  function Rhs(H: Matrix, L: real, t: real, y: seq<Complex>): (dy: seq<Complex>)
    requires IsSquare(H, |y|)
    ensures |dy| == |y|
  {
    var Hy := MatVec(H, y);
    seq(|y|, i requires 0 <= i < |y| => SiteRate(L, y[i], Hy[i]))
  }

  lemma RhsAt(H: Matrix, L: real, t: real, y: seq<Complex>, i: nat)
    requires IsSquare(H, |y|) && i < |y|
    ensures Rhs(H, L, t, y)[i] == SiteRate(L, y[i], MatVec(H, y)[i])
  {
  }

  /** The function `dnls_rhs(M, L, aperiodicity)` returns, applied to (t, y). */
  function DnlsRhs(M: nat, L: real, aperiodicity: real, phi: real, t: real, y: seq<Complex>): (dy: seq<Complex>)
    requires M >= 1 && |y| == M
    requires 1.0 < phi < 2.0
    requires Denominator(aperiodicity, phi) != 0.0
    ensures |dy| == M
  {
    CouplingMatrixShape(M, aperiodicity, phi, 0, 0);
    Rhs(CouplingMatrix(M, aperiodicity, phi), L, t, y)
  }

  /**
   * Site i of the right-hand side: the nonlinear on-site term plus half of i
   * times the hoppings to its neighbours.
   */
  lemma DnlsRhsAt(M: nat, L: real, aperiodicity: real, phi: real, t: real, y: seq<Complex>, i: nat)
    requires M >= 1 && |y| == M && i < M
    requires 1.0 < phi < 2.0
    requires Denominator(aperiodicity, phi) != 0.0
    ensures var h := Hoppings(M, aperiodicity, phi);
      DnlsRhs(M, L, aperiodicity, phi, t, y)[i] ==
        SiteRate(L, y[i], Plus(if i > 0 then Scale(h[i - 1], y[i - 1]) else Zero,
                               if i < M - 1 then Scale(h[i], y[i + 1]) else Zero))
  {
    var h := Hoppings(M, aperiodicity, phi);
    var H := CouplingMatrix(M, aperiodicity, phi);
    assert H == HoppingMatrix(h);
    CouplingAt(h, y, i);
    var Hy := MatVec(H, y);
    assert Hy[i] == Plus(if i > 0 then Scale(h[i - 1], y[i - 1]) else Zero,
                         if i < M - 1 then Scale(h[i], y[i + 1]) else Zero);
    RhsAt(H, L, t, y, i);
    assert DnlsRhs(M, L, aperiodicity, phi, t, y) == Rhs(H, L, t, y);
  }

  /**
   * Locality: site i of f(t, y) depends only on sites i - 1, i and i + 1 of y,
   * and not on t.
   */
  lemma DnlsRhsLocal(M: nat, L: real, aperiodicity: real, phi: real,
                     t1: real, t2: real, y1: seq<Complex>, y2: seq<Complex>, i: nat)
    requires M >= 1 && |y1| == M && |y2| == M && i < M
    requires 1.0 < phi < 2.0
    requires Denominator(aperiodicity, phi) != 0.0
    requires forall j :: 0 <= j < M && i <= j + 1 && j <= i + 1 ==> y1[j] == y2[j]
    ensures DnlsRhs(M, L, aperiodicity, phi, t1, y1)[i] == DnlsRhs(M, L, aperiodicity, phi, t2, y2)[i]
  {
    DnlsRhsAt(M, L, aperiodicity, phi, t1, y1, i);
    DnlsRhsAt(M, L, aperiodicity, phi, t2, y2, i);
    assert y1[i] == y2[i];
    assert i > 0 ==> y1[i - 1] == y2[i - 1];
    assert i < M - 1 ==> y1[i + 1] == y2[i + 1];
  }

  /**
   * A real amplitude x with a real coupling term c changes at the purely
   * imaginary rate i (c / 2 - L x^3).
   */
  lemma RealSiteRate(L: real, x: real, c: real)
    ensures SiteRate(L, Complex(x, 0.0), Complex(c, 0.0)) == Complex(0.0, 0.5 * c - L * x * x * x)
  {
  }

  /**
   * The coupling term of site i when every hopping is 1 and every amplitude
   * is the real x: 2 x inside the chain and x at its two ends.
   */
  lemma UniformCoupling(h: seq<real>, y: seq<Complex>, x: real, i: nat)
    requires |h| >= 1 && |y| == |h| + 1 && i < |y|
    requires forall k :: 0 <= k < |h| ==> h[k] == 1.0
    requires forall j :: 0 <= j < |y| ==> y[j] == Complex(x, 0.0)
    ensures Plus(if i > 0 then Scale(h[i - 1], y[i - 1]) else Zero,
                 if i < |h| then Scale(h[i], y[i + 1]) else Zero)
            == Complex(if 0 < i < |h| then x + x else x, 0.0)
  {
    var z := Complex(x, 0.0);
    assert Scale(1.0, z) == z;
    assert i > 0 ==> Scale(h[i - 1], y[i - 1]) == z;
    assert i < |h| ==> Scale(h[i], y[i + 1]) == z;
    if 0 < i < |h| {
      assert Plus(z, z) == Complex(x + x, 0.0);
    } else if i == 0 {
      assert Plus(Zero, z) == z;
    } else {
      assert Plus(z, Zero) == z;
    }
  }

  /**
   * The periodic chain with the same real amplitude x at every site: f is
   * i (x - L x^3) at interior sites and i (x / 2 - L x^3) at the two end
   * sites, which have one neighbour; all ones gives i (1 - L) and
   * i (1/2 - L).
   */
  lemma UniformRealState(M: nat, L: real, phi: real, t: real, y: seq<Complex>, x: real, i: nat)
    requires M >= 2 && |y| == M && i < M
    requires 1.0 < phi < 2.0
    requires forall j :: 0 <= j < M ==> y[j] == Complex(x, 0.0)
    ensures 0 < i < M - 1 ==> DnlsRhs(M, L, 0.0, phi, t, y)[i] == Complex(0.0, x - L * x * x * x)
    ensures i == 0 || i == M - 1 ==> DnlsRhs(M, L, 0.0, phi, t, y)[i] == Complex(0.0, 0.5 * x - L * x * x * x)
  {
    var h := Hoppings(M, 0.0, phi);
    DnlsRhsAt(M, L, 0.0, phi, t, y, i);
    UniformCoupling(h, y, x, i);
    var c := if 0 < i < M - 1 then x + x else x;
    assert y[i] == Complex(x, 0.0);
    assert DnlsRhs(M, L, 0.0, phi, t, y)[i] == SiteRate(L, Complex(x, 0.0), Complex(c, 0.0));
    RealSiteRate(L, x, c);
  }
}
