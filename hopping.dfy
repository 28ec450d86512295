/**
 * The two hopping strengths of the Fibonacci chain (`ab_values`) and the
 * hopping sequence built from them (`fibonacci_hoppings`), both in dnls.py.
 * The golden ratio is not computed: it is the parameter `phi`, with
 * 1 < phi < 2, and phi * phi == phi + 1 where the golden identity is needed.
 */
module Hopping {
  import opened FibonacciWord

  /** The denominator of the strength `a`: 1 + (2 - phi) p. */
  function Denominator(p: real, phi: real): real
  {
    1.0 + (2.0 - phi) * p
  }

  /**
   * `ab_values(length, p)`: a = 1 / (1 + (2 - phi) p) and b = a (1 + p).
   * The length is accepted and ignored, as in the source.
   */
  function ABValues(length: int, p: real, phi: real): (ab: (real, real))
    requires 1.0 < phi < 2.0
    requires Denominator(p, phi) != 0.0
    ensures ab.0 * Denominator(p, phi) == 1.0
    ensures p == 0.0 ==> ab == (1.0, 1.0)
    ensures 0.0 < p ==> 0.0 < ab.0 < 1.0 < ab.1
  {
    var d := Denominator(p, phi);
    StrengthBounds(1.0 / d, d, p, phi);
    (1.0 / d, (1.0 / d) * (1.0 + p))
  }

  /** The facts about a = 1 / d and b = a (1 + p) that `ABValues` promises. */
  lemma StrengthBounds(a: real, d: real, p: real, phi: real)
    requires 1.0 < phi < 2.0
    requires d == Denominator(p, phi) && d != 0.0 && a == 1.0 / d
    ensures a * d == 1.0
    ensures p == 0.0 ==> a == 1.0 && a * (1.0 + p) == 1.0
    ensures 0.0 < p ==> 0.0 < a < 1.0 < a * (1.0 + p)
  {
    Reciprocal(d);
    if 0.0 < p {
      DenominatorBounds(p, phi);
      ReciprocalBelowOne(d);
      MulLess(a, d, 1.0 + p);
    }
  }

  /** For p > 0 the denominator lies strictly between 1 and 1 + p. */
  lemma DenominatorBounds(p: real, phi: real)
    requires 1.0 < phi < 2.0 && 0.0 < p
    ensures 1.0 < Denominator(p, phi) < 1.0 + p
  {
    ProductPositive(2.0 - phi, p);
    ProductPositive(phi - 1.0, p);
    var d := Denominator(p, phi);
    assert (phi - 1.0) * p == phi * p - p;
    assert (1.0 + p) - d == phi * p - p;
    assert 0.0 < (1.0 + p) - d;
  }

  lemma ProductPositive(x: real, y: real)
    requires 0.0 < x && 0.0 < y
    ensures 0.0 < x * y
  {
  }

  lemma Reciprocal(d: real)
    requires d != 0.0
    ensures (1.0 / d) * d == 1.0
  {
  }

  lemma ReciprocalBelowOne(d: real)
    requires 1.0 < d
    ensures 0.0 < 1.0 / d < 1.0
  {
  }

  lemma MulLess(x: real, y: real, z: real)
    requires 0.0 < x && y < z
    ensures x * y < x * z
  {
    ProductPositive(x, z - y);
    assert x * z - x * y == x * (z - y);
  }

  /** The ratio of the two strengths is 1 + p, so p measures the aperiodicity. */
  lemma RatioIsOnePlusP(length: int, p: real, phi: real)
    requires 1.0 < phi < 2.0
    requires Denominator(p, phi) != 0.0
    ensures ABValues(length, p, phi).1 / ABValues(length, p, phi).0 == 1.0 + p
  {
    var (a, b) := ABValues(length, p, phi);
    assert a != 0.0;
    calc {
      b / a;
      (a * (1.0 + p)) / a;
      1.0 + p;
    }
  }

  /** The strength `a` falls as p grows (where the denominator is positive). */
  lemma AFalls(length: int, p1: real, p2: real, phi: real)
    requires 1.0 < phi < 2.0
    requires p1 < p2 && 0.0 < Denominator(p1, phi)
    ensures 0.0 < Denominator(p2, phi)
    ensures ABValues(length, p1, phi).0 > ABValues(length, p2, phi).0
  {
    var d1, d2 := Denominator(p1, phi), Denominator(p2, phi);
    DenominatorRises(p1, p2, phi);
    var a1, a2 := ABValues(length, p1, phi).0, ABValues(length, p2, phi).0;
    ReciprocalFalls(a1, d1, a2, d2);
  }

  /** The denominator grows strictly with p. */
  lemma DenominatorRises(p1: real, p2: real, phi: real)
    requires phi < 2.0 && p1 < p2
    ensures Denominator(p1, phi) < Denominator(p2, phi)
  {
    ProductPositive(2.0 - phi, p2 - p1);
    assert (2.0 - phi) * (p2 - p1) == (2.0 - phi) * p2 - (2.0 - phi) * p1;
  }

  /** Of two positive numbers, the larger has the smaller reciprocal. */
  lemma ReciprocalFalls(a1: real, d1: real, a2: real, d2: real)
    requires 0.0 < d1 < d2 && a1 * d1 == 1.0 && a2 * d2 == 1.0
    ensures a1 > a2
  {
    assert a1 > 0.0 && a2 > 0.0;
    MulLess(a1, d1, d2);
    if a1 <= a2 {
      if a1 < a2 {
        MulLess(d2, a1, a2);
      }
      assert false;
    }
  }

  /**
   * The strength `b` is an affine, decreasing function of `a`:
   * (2 - phi) b == 1 - (phi - 1) a.
   */
  lemma BAffineInA(length: int, p: real, phi: real)
    requires 1.0 < phi < 2.0
    requires Denominator(p, phi) != 0.0
    ensures (2.0 - phi) * ABValues(length, p, phi).1 == 1.0 - (phi - 1.0) * ABValues(length, p, phi).0
  {
    var (a, b) := ABValues(length, p, phi);
    var c := 2.0 - phi;
    calc {
      c * b;
      c * (a * (1.0 + p));
      a * (c + c * p);
      a * (Denominator(p, phi) - (1.0 - c));
      a * Denominator(p, phi) - a * (1.0 - c);
      1.0 - (phi - 1.0) * a;
    }
  }

  /** The strength `b` rises as p grows (where the denominator is positive). */
  lemma BRises(length: int, p1: real, p2: real, phi: real)
    requires 1.0 < phi < 2.0
    requires p1 < p2 && 0.0 < Denominator(p1, phi)
    ensures 0.0 < Denominator(p2, phi)
    ensures ABValues(length, p1, phi).1 < ABValues(length, p2, phi).1
  {
    AFalls(length, p1, p2, phi);
    BAffineInA(length, p1, phi);
    BAffineInA(length, p2, phi);
    var (a1, b1) := ABValues(length, p1, phi);
    var (a2, b2) := ABValues(length, p2, phi);
    AffineFalls(2.0 - phi, phi - 1.0, a1, b1, a2, b2);
  }

  /**
   * Below the pole of `a` (where the denominator is negative) the strength
   * `a` is negative, and it still falls as p grows.
   */
  lemma AFallsBelowPole(length: int, p1: real, p2: real, phi: real)
    requires 1.0 < phi < 2.0
    requires p1 < p2 && Denominator(p2, phi) < 0.0
    ensures Denominator(p1, phi) < 0.0
    ensures ABValues(length, p1, phi).0 > ABValues(length, p2, phi).0
  {
    var d1, d2 := Denominator(p1, phi), Denominator(p2, phi);
    DenominatorRises(p1, p2, phi);
    var a1, a2 := ABValues(length, p1, phi).0, ABValues(length, p2, phi).0;
    assert (-a2) * (-d2) == 1.0 && (-a1) * (-d1) == 1.0;
    ReciprocalFalls(-a2, -d2, -a1, -d1);
  }

  /** Below the pole of `a` the strength `b` still rises as p grows. */
  lemma BRisesBelowPole(length: int, p1: real, p2: real, phi: real)
    requires 1.0 < phi < 2.0
    requires p1 < p2 && Denominator(p2, phi) < 0.0
    ensures Denominator(p1, phi) < 0.0
    ensures ABValues(length, p1, phi).1 < ABValues(length, p2, phi).1
  {
    AFallsBelowPole(length, p1, p2, phi);
    BAffineInA(length, p1, phi);
    BAffineInA(length, p2, phi);
    var (a1, b1) := ABValues(length, p1, phi);
    var (a2, b2) := ABValues(length, p2, phi);
    AffineFalls(2.0 - phi, phi - 1.0, a1, b1, a2, b2);
  }

  /** If c b == 1 - k a with c, k > 0, then b falls when a rises. */
  lemma AffineFalls(c: real, k: real, a1: real, b1: real, a2: real, b2: real)
    requires 0.0 < c && 0.0 < k && a2 < a1
    requires c * b1 == 1.0 - k * a1 && c * b2 == 1.0 - k * a2
    ensures b1 < b2
  {
    MulLess(k, a2, a1);
    if b2 <= b1 {
      if b2 < b1 {
        MulLess(c, b2, b1);
      }
      assert false;
    }
  }

  /** `ab_values` does not depend on the chain length it is given. */
  lemma LengthIgnored(length1: int, length2: int, p: real, phi: real)
    requires 1.0 < phi < 2.0
    requires Denominator(p, phi) != 0.0
    ensures ABValues(length1, p, phi) == ABValues(length2, p, phi)
  {
  }

  /**
   * The design intent of `ab_values`: weighting a by 1/phi and b by 1/phi^2
   * (the limiting shares of the two symbols in the Fibonacci word) gives a
   * mean hopping of exactly 1 when phi is the golden ratio.
   */
  lemma MeanHoppingIsOne(length: int, p: real, phi: real)
    requires 1.0 < phi < 2.0 && phi * phi == phi + 1.0
    requires Denominator(p, phi) != 0.0
    ensures ABValues(length, p, phi).0 / phi
          + ABValues(length, p, phi).1 / (phi * phi) == 1.0
  {
    var (a, b) := ABValues(length, p, phi);
    assert phi * (phi - 1.0) == 1.0;
    assert 1.0 / phi == phi - 1.0;
    assert 1.0 / (phi * phi) == 2.0 - phi by {
      assert (phi * phi) * (2.0 - phi) == 1.0;
    }
    calc {
      a / phi + b / (phi * phi);
      a * (1.0 / phi) + b * (1.0 / (phi * phi));
      a * (phi - 1.0) + a * (1.0 + p) * (2.0 - phi);
      a * (1.0 + (2.0 - phi) * p);
      1.0;
    }
  }

  /** The sum of a sequence of reals. */
  function Sum(s: seq<real>): real
  {
    if s == [] then 0.0 else s[0] + Sum(s[1..])
  }

  lemma {:induction false} SumAppend(s: seq<real>, t: seq<real>)
    ensures Sum(s + t) == Sum(s) + Sum(t)
  {
    if s == [] {
      assert s + t == t;
    } else {
      assert (s + t)[1..] == s[1..] + t;
      SumAppend(s[1..], t);
    }
  }

  /** The total hopping of `na` links of strength a and `nb` of strength b. */
  function Total(na: nat, nb: nat, a: real, b: real): real
  {
    na as real * a + nb as real * b
  }

  lemma TotalAdd(na1: nat, nb1: nat, na2: nat, nb2: nat, a: real, b: real)
    ensures Total(na1, nb1, a, b) + Total(na2, nb2, a, b) == Total(na1 + na2, nb1 + nb2, a, b)
  {
  }

  /**
   * Generation step n of the Fibonacci word holds Fib(n + 1) links of
   * strength a and Fib(n) of strength b, so its total hopping is
   * Fib(n + 1) a + Fib(n) b.
   */
  lemma {:induction false} WordSum(n: nat, a: real, b: real)
    ensures Sum(Word(n, a, b)) == Total(Fib(n + 1), Fib(n), a, b)
  {
    if n == 0 {
      assert Sum(Word(n, a, b)) == a + Sum([]);
    } else if n == 1 {
      assert Sum(Word(n, a, b)) == a + Sum([b]);
      assert Sum([b]) == b + Sum([]);
    } else {
      calc {
        Sum(Word(n, a, b));
        { SumAppend(Word(n - 1, a, b), Word(n - 2, a, b)); }
        Sum(Word(n - 1, a, b)) + Sum(Word(n - 2, a, b));
        { WordSum(n - 1, a, b); WordSum(n - 2, a, b); }
        Total(Fib(n), Fib(n - 1), a, b) + Total(Fib(n - 1), Fib(n - 2), a, b);
        { TotalAdd(Fib(n), Fib(n - 1), Fib(n - 1), Fib(n - 2), a, b); }
        Total(Fib(n) + Fib(n - 1), Fib(n - 1) + Fib(n - 2), a, b);
        Total(Fib(n + 1), Fib(n), a, b);
      }
    }
  }

  /**
   * `fibonacci_hoppings(length, p)`: the chain of the given length over the
   * two strengths of `ab_values`.
   */
  function FibonacciHoppings(length: nat, p: real, phi: real): (h: seq<real>)
    requires 1.0 < phi < 2.0
    requires Denominator(p, phi) != 0.0
    ensures |h| == length
    ensures forall x :: x in h ==> x == ABValues(length, p, phi).0 || x == ABValues(length, p, phi).1
  {
    var (a, b) := ABValues(length, p, phi);
    Chain(length, a, b)
  }

  /** At p = 0 the Fibonacci hoppings are uniform: every strength is 1. */
  lemma PeriodicLimit(length: nat, phi: real)
    requires 1.0 < phi < 2.0
    ensures forall i :: 0 <= i < length ==> FibonacciHoppings(length, 0.0, phi)[i] == 1.0
  {
    var h := FibonacciHoppings(length, 0.0, phi);
    forall i | 0 <= i < length
      ensures h[i] == 1.0
    {
      assert h[i] in h;
    }
  }
}
