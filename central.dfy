/**
 * The set-up of `central_amplitude` in dnls.py: the index of the central
 * site and the initial condition, amplitude 1 there and 0 at every other
 * site, written into a fresh array.
 */
module Central {

  /**
   * The central site index (M - 1) / 2, by integer division. It is a site of
   * the lattice; it has as many sites on its left as on its right exactly
   * when M is odd, and for even M one more on its right.
   */
  function CentralIndex(M: nat): (c: nat)
    requires M >= 1
    ensures c < M
    ensures c == M - 1 - c <==> M % 2 == 1
    ensures M % 2 == 0 ==> M - 1 - c == c + 1
  {
    (M - 1) / 2
  }

  /** The unit vector of length M with its 1 at index c. */
  function UnitVector(M: nat, c: nat): (v: seq<real>)
    requires c < M
    ensures |v| == M && v[c] == 1.0
    ensures forall i :: 0 <= i < M && i != c ==> v[i] == 0.0
  {
    seq(M, i => if i == c then 1.0 else 0.0)
  }

  /**
   * `ic = zeros(shape=(M,))` followed by `ic[central_site_index] = 1`: a
   * fresh array of M zeros with a 1 written at the central site.
   */
  method InitialCondition(M: nat) returns (ic: array<real>)
    requires M >= 1
    ensures fresh(ic)
    ensures ic[..] == UnitVector(M, CentralIndex(M))
  {
    ic := new real[M](_ => 0.0);
    var c := CentralIndex(M);
    ic[c] := 1.0;
    assert forall i :: 0 <= i < M && i != c ==> ic[i] == 0.0;
  }
}
