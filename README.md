# DNLS lattice set-up, modelled in Dafny

This project models the exact, discrete part of `dnls.py`. That file simulates the discrete
nonlinear Schrödinger equation (DNLS) on an open chain of M sites, optionally with
quasi-periodic ("Fibonacci") hopping strengths. The model covers:

- `fibonacci(length, a, b)`: the Fibonacci substitution word over two symbols, built by the
  loop `next = second + first` and truncated to `length` symbols. It is modelled as the method
  `FibonacciWord.Fibonacci`, with its loop and invariants. The method is proved equal to the
  function `FibonacciWord.Chain`, which is the first `length` symbols of the first generation
  step `Word(k)` that is long enough.
- `ab_values(length, p)`: the two hopping strengths a = 1 / (1 + (2 - φ) p) and b = a (1 + p),
  over exact reals. The golden ratio φ is a parameter with 1 < φ < 2. Where the golden
  identity is needed, the lemma also requires φ² = φ + 1.
- `fibonacci_hoppings(length, p)`: the chain of the given length over (a, b).
- The coupling matrix of `dnls_rhs`, `diag(h, -1) + diag(h, 1)`. Here h is all ones when the
  aperiodicity is 0, and otherwise the Fibonacci hoppings of length M - 1.
- The right-hand side `f(t, y) = -1j*L*abs(y)**2*y + 0.5j*dot(H, y)`, over exact complex
  numbers (pairs of reals). The time t is accepted and ignored, so the system is autonomous.
- From `central_amplitude`: the central index (M - 1) / 2, and the initial condition. That is
  a fresh array of M zeros with a 1 written at the central site.

The code validates neither of the following inputs, and the model follows the code:

- `fibonacci` with length 0 does not raise. The loop runs once and slices to an empty chain.
  The model takes `length: nat` and returns `[]` for 0.
- An even M is not rejected. The central index is taken by integer (floor) division, as under
  Python 2. Under Python 3, `(M - 1)/2` is a float, and current numpy refuses it as an index.

## Model

| member | source | states |
|---|---|---|
| FibonacciWord.Fibonacci | dnls.py:75-106 | The loop computes exactly `Chain(length, a, b)`: the base cases return [a] and [a, b]; the loop keeps `first` = Word(k-1) and `second` = Word(k), of lengths Fib(k+1) and Fib(k+2), `first` a strict prefix of `second`, and `second` shorter than `length`; it terminates because the length of `second` strictly increases towards `length`. |
| FibonacciWord.Chain | dnls.py:89-91 | The chain has exactly `length` elements, and each of them is `a` or `b`. |
| FibonacciWord.WordLength | dnls.py:99-102 | Generation step n has length Fib(n + 2), so `first` and `second` always have consecutive Fibonacci lengths. |
| FibonacciWord.WordSymbols | dnls.py:99-102 | Every generation step holds only the symbols a and b. |
| FibonacciWord.WordGrows | dnls.py:102-106 | Each generation step is a strict prefix of the next (`first` is a strict prefix of `second`). |
| FibonacciWord.WordPrefix | dnls.py:102-106 | An earlier generation step is a prefix of every later one. |
| FibonacciWord.Cover | dnls.py:101-104 | The step index at which the loop stops holds at least `length` symbols, and the step before it (if any) holds fewer. |
| FibonacciWord.CoverIsLeast | dnls.py:101-104 | No earlier generation step than the one the loop stops at is long enough. |
| FibonacciWord.ChainIsWordPrefix | dnls.py:102-104 | Truncating any generation step that is long enough gives the same chain: the chain is a prefix of the Fibonacci word. |
| FibonacciWord.ChainPrefix | dnls.py:102-104 | For n <= m, the chain of length n is a prefix of the chain of length m. |
| FibonacciWord.ChainBaseCases | dnls.py:94-97 | Length 1 gives [a] and length 2 gives [a, b]. |
| FibonacciWord.WordFive | dnls.py:99-102 | Generation step 5 is the thirteen-symbol word a b a a b a b a a b a a b. |
| FibonacciWord.ChainExamples | test/test_dnls.py:34-41 | For any two symbols, length 13 gives a b a a b a b a a b a a b and length 12 drops the last b; over ('a', 'b') these are "abaababaabaab" and "abaababaabaa". |
| Hopping.ABValues | dnls.py:60-72 | a (1 + (2 - φ) p) = 1; p = 0 gives (1, 1); for p > 0, 0 < a < 1 < b. |
| Hopping.RatioIsOnePlusP | dnls.py:70-71 | b / a = 1 + p. |
| Hopping.AFalls | dnls.py:61-63 | For p1 < p2 with a positive denominator at p1, a(p1) > a(p2). |
| Hopping.AFallsBelowPole | dnls.py:61-63 | For p1 < p2 with a negative denominator at p2, the denominator is negative at p1 too, and a(p1) > a(p2). |
| Hopping.BAffineInA | dnls.py:70-71 | (2 - φ) b = 1 - (φ - 1) a, so b falls exactly as a rises, and vice versa. |
| Hopping.BRises | dnls.py:61-63 | For p1 < p2 with a positive denominator at p1, b(p1) < b(p2). |
| Hopping.BRisesBelowPole | dnls.py:61-63 | For p1 < p2 with a negative denominator at p2, b(p1) < b(p2). |
| Hopping.LengthIgnored | dnls.py:60-72 | The result does not depend on `length`. |
| Hopping.MeanHoppingIsOne | dnls.py:61-69 | When φ² = φ + 1, the mean of a and b weighted by 1/φ and 1/φ² is exactly 1. |
| Hopping.WordSum | dnls.py:66-68 | The total hopping over generation step n is Fib(n+1) a + Fib(n) b. |
| Hopping.FibonacciHoppings | dnls.py:52-57 | The hopping sequence has `length` entries, and each is the a or the b of `ab_values`. |
| Hopping.PeriodicLimit | dnls.py:39-44 | At p = 0, the Fibonacci hoppings are all 1, so both branches of the matrix assembly agree. |
| Coupling.HoppingMatrix | dnls.py:44 | `diag(h,-1) + diag(h,1)` is (n+1)×(n+1) for h of length n. It is symmetric, with a zero diagonal and zeros wherever i and j are not adjacent, and H[k][k+1] = H[k+1][k] = h[k]. |
| Coupling.Hoppings | dnls.py:39-43 | The hopping sequence has M - 1 entries. They are all 1 when the aperiodicity is 0, and otherwise the Fibonacci chain over the a and b of `ab_values`. |
| Coupling.CouplingMatrix | dnls.py:39-44 | The matrix of either branch is the hopping matrix of that branch's hopping sequence. |
| Coupling.CouplingMatrixShape | dnls.py:39-44 | The coupling matrix is M×M, symmetric, and zero where i and j are not adjacent. Its off-diagonal entries are 1 in the periodic case, and H[i][i+1] is entry i of the Fibonacci chain otherwise. |
| RightHandSide.MatVec | dnls.py:47 | `dot(H, y)` has one entry per site. |
| RightHandSide.CouplingAt | dnls.py:47 | Entry i of `dot(H, y)` is h[i-1] y[i-1] + h[i] y[i+1]. The end sites get only the one neighbour term they have. |
| RightHandSide.Rhs | dnls.py:46-47 | f(t, y) has the length of y. |
| RightHandSide.DnlsRhs | dnls.py:22-49 | The function returned by `dnls_rhs(M, L, aperiodicity)` maps a vector of M sites to a vector of M sites. |
| RightHandSide.DnlsRhsAt | dnls.py:46-47 | Site i of f is -i L abs(y_i)² y_i + 0.5 i (h[i-1] y[i-1] + h[i] y[i+1]). |
| RightHandSide.DnlsRhsLocal | dnls.py:46-47 | Site i of f depends only on sites i-1, i and i+1 of y, and not on t. |
| RightHandSide.RealSiteRate | dnls.py:47 | A real amplitude x with a real coupling term c changes at the purely imaginary rate i (c/2 - L x³). |
| RightHandSide.UniformCoupling | dnls.py:44-47 | With every hopping 1 and every amplitude the real x, the coupling term is 2x at interior sites and x at the two ends. |
| RightHandSide.UniformRealState | dnls.py:39-47 | On the periodic chain, with the same real amplitude x at every site, f is i (x - L x³) inside and i (x/2 - L x³) at the two ends; with y all ones, i (1 - L) inside and i (0.5 - L) at the ends. |
| Central.CentralIndex | dnls.py:13 | The central index is a site of the lattice. It has equally many sites on both sides exactly when M is odd. For even M, there is one more site on the right. |
| Central.UnitVector | dnls.py:14-15 | The initial vector has length M, holds 1 at the given index and 0 everywhere else. |
| Central.InitialCondition | dnls.py:13-15 | `zeros(M)` followed by writing 1 at the central index gives a fresh array equal to the unit vector at `CentralIndex(M)`. |

## Left out

- The ODE integration (`complex_ode`, `set_initial_value`, `integrate`) and the returned
  `abs(y[central_site_index])`. These are an adaptive floating-point solver from SciPy, so the
  result of `central_amplitude` is not modelled beyond its initial condition.
- Floating point: every quantity is an exact Dafny `real`. Rounding in numpy, and the
  difference between `abs(y)**2` and re² + im², are not modelled.
- The golden ratio `(1 + sqrt(5))/2` is not computed. It is the parameter φ, with 1 < φ < 2,
  and φ² = φ + 1 where the lemma needs it.
- Hopping.ABValues: requires a non-zero denominator 1 + (2 - φ) p. At p = -1/(2 - φ), numpy
  would return an infinite strength, which is not modelled.
- Hopping.AFalls: proved only where the denominator is positive at p1. The branch below the pole,
  where a is negative, is `Hopping.AFallsBelowPole`. Across the pole the strengths change sign
  and are not monotone.
- Hopping.BRises: proved only where the denominator is positive at p1. The branch below the pole
  is `Hopping.BRisesBelowPole`; across the pole b is not monotone.
- Hopping.MeanHoppingIsOne: takes the limiting frequencies 1/φ and 1/φ² of the two symbols as
  given. The finite count is what `Hopping.WordSum` states.
- FibonacciWord.Fibonacci: negative lengths are not modelled. Python's slice `next[0:length]`
  would count from the end.
- Coupling.CouplingMatrix: requires M >= 1; M = 0 is not modelled. In the periodic branch numpy
  raises on the negative shape of `ones`. In the aperiodic branch nothing raises:
  `fibonacci(-1, a, b)` returns `next[0:-1]`, which is (a, b), so `diag` builds a 3×3 matrix
  and the returned `f` accepts vectors of 3 sites.
- Hopping.FibonacciHoppings: uses the function `Chain` instead of calling the method
  `Fibonacci`. The two are proved equal.
- RightHandSide.DnlsRhs: requires y to have M entries. numpy's `dot` raises for other
  lengths.
- The closure that `dnls_rhs` returns is modelled as a function that takes M, L, the
  aperiodicity, φ, t and y together.
- test/test_dnls.py is not itself modelled. Its expected values are stated as lemmas.
