/**
 * The coupling (hopping) matrix that `dnls_rhs` in dnls.py assembles: the
 * hopping sequence placed on the first sub- and super-diagonals of an M x M
 * matrix, `diag(h, -1) + diag(h, 1)`, with h all ones when the aperiodicity
 * is 0 and the Fibonacci hoppings otherwise.
 */
module Coupling {
  import opened FibonacciWord
  import opened Hopping

  /** A matrix of reals, as a sequence of rows. */
  type Matrix = seq<seq<real>>

  predicate IsSquare(H: Matrix, n: nat)
  {
    |H| == n && forall i :: 0 <= i < n ==> |H[i]| == n
  }

  function Abs(k: int): nat
  {
    if k < 0 then -k else k
  }

  /**
   * numpy's `diag(v, k)`: the square matrix of size |v| + |k| that holds v on
   * its k-th diagonal (above the main one for k > 0, below it for k < 0) and
   * zero everywhere else.
   */
  function Diag(v: seq<real>, k: int): (D: Matrix)
    ensures IsSquare(D, |v| + Abs(k))
  {
    var n := |v| + Abs(k);
    seq(n, i requires 0 <= i < n =>
      seq(n, j requires 0 <= j < n =>
        if j - i == k then v[if k >= 0 then i else j] else 0.0))
  }

  /** The element-wise sum of two matrices of the same size. */
  function Add(A: Matrix, B: Matrix, n: nat): (C: Matrix)
    requires IsSquare(A, n) && IsSquare(B, n)
    ensures IsSquare(C, n)
    ensures forall i, j :: 0 <= i < n && 0 <= j < n ==> C[i][j] == A[i][j] + B[i][j]
  {
    seq(n, i requires 0 <= i < n => seq(n, j requires 0 <= j < n => A[i][j] + B[i][j]))
  }

  /**
   * `diag(h, -1) + diag(h, 1)`: the tridiagonal coupling matrix of a chain of
   * |h| + 1 sites, entry k of h being the hopping between sites k and k + 1.
   * It is symmetric, has a zero diagonal and is zero off the first sub- and
   * super-diagonals; the chain is open, not a ring.
   */
  function HoppingMatrix(h: seq<real>): (H: Matrix)
    ensures IsSquare(H, |h| + 1)
    ensures forall k :: 0 <= k < |h| ==> H[k][k + 1] == h[k] && H[k + 1][k] == h[k]
    ensures forall i, j :: 0 <= i < |H| && 0 <= j < |H| ==> H[i][j] == H[j][i]
    ensures forall i :: 0 <= i < |H| ==> H[i][i] == 0.0
    ensures forall i, j :: 0 <= i < |H| && 0 <= j < |H| && i - j != 1 && j - i != 1 ==> H[i][j] == 0.0
  {
    Add(Diag(h, -1), Diag(h, 1), |h| + 1)
  }

  /** An all-ones vector, numpy's `ones(shape=(n,))`. */
  function Ones(n: nat): (v: seq<real>)
    ensures |v| == n && forall i :: 0 <= i < n ==> v[i] == 1.0
  {
    seq(n, _ => 1.0)
  }

  /**
   * The hopping sequence of an M-site chain: all ones when the aperiodicity
   * is 0, the M - 1 Fibonacci hoppings otherwise.
   */
  function Hoppings(M: nat, aperiodicity: real, phi: real): (h: seq<real>)
    requires M >= 1
    requires 1.0 < phi < 2.0
    requires Denominator(aperiodicity, phi) != 0.0
    ensures |h| == M - 1
    ensures aperiodicity == 0.0 ==> forall k :: 0 <= k < M - 1 ==> h[k] == 1.0
    ensures aperiodicity != 0.0 ==>
      h == Chain(M - 1, ABValues(M - 1, aperiodicity, phi).0, ABValues(M - 1, aperiodicity, phi).1)
  {
    if aperiodicity == 0.0 then Ones(M - 1) else FibonacciHoppings(M - 1, aperiodicity, phi)
  }

  /** The coupling matrix `hoppings` of `dnls_rhs(M, L, aperiodicity)`. */
  function CouplingMatrix(M: nat, aperiodicity: real, phi: real): (H: Matrix)
    requires M >= 1
    requires 1.0 < phi < 2.0
    requires Denominator(aperiodicity, phi) != 0.0
    ensures H == HoppingMatrix(Hoppings(M, aperiodicity, phi))
  {
    if aperiodicity == 0.0 then
      HoppingMatrix(Ones(M - 1))
    else
      HoppingMatrix(FibonacciHoppings(M - 1, aperiodicity, phi))
  }

  /**
   * The shape of the coupling matrix: M x M, symmetric, zero diagonal,
   * tridiagonal, with the hoppings on the two off-diagonals, all ones in the
   * periodic case and the Fibonacci chain over (a, b) otherwise.
   */
  lemma CouplingMatrixShape(M: nat, aperiodicity: real, phi: real, i: nat, j: nat)
    requires M >= 1
    requires 1.0 < phi < 2.0
    requires Denominator(aperiodicity, phi) != 0.0
    requires i < M && j < M
    ensures IsSquare(CouplingMatrix(M, aperiodicity, phi), M)
    ensures CouplingMatrix(M, aperiodicity, phi)[i][j] == CouplingMatrix(M, aperiodicity, phi)[j][i]
    ensures i - j != 1 && j - i != 1 ==> CouplingMatrix(M, aperiodicity, phi)[i][j] == 0.0
    ensures aperiodicity == 0.0 && (i - j == 1 || j - i == 1) ==> CouplingMatrix(M, aperiodicity, phi)[i][j] == 1.0
    ensures aperiodicity != 0.0 && j == i + 1 ==>
      var (a, b) := ABValues(M - 1, aperiodicity, phi);
      CouplingMatrix(M, aperiodicity, phi)[i][j] == Chain(M - 1, a, b)[i]
  {
    var h := Hoppings(M, aperiodicity, phi);
    var H := CouplingMatrix(M, aperiodicity, phi);
    if i - j == 1 {
      assert H[i][j] == h[j];
    } else if j - i == 1 {
      assert H[i][j] == h[i];
    }
  }
}
