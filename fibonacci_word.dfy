/**
 * The Fibonacci word over two symbols, as generated by `fibonacci` in dnls.py:
 * start from [a] and [a, b] and repeatedly append the older word to the newer
 * one; answer with the first `length` symbols of the first word that is long
 * enough.
 */
module FibonacciWord {

  /** The Fibonacci numbers, Fib(0) = 0 and Fib(1) = 1. */
  function Fib(n: nat): nat
  {
    if n < 2 then n else Fib(n - 1) + Fib(n - 2)
  }

  lemma {:induction false} FibPositive(n: nat)
    requires n >= 1
    ensures Fib(n) >= 1
  {
    if n > 2 {
      FibPositive(n - 1);
    }
  }

  lemma {:induction false} FibMonotone(n: nat, m: nat)
    requires n <= m
    ensures Fib(n) <= Fib(m)
  {
    if n < m {
      FibMonotone(n, m - 1);
    }
  }

  /**
   * The generation steps of the Fibonacci word: Word(0) = [a],
   * Word(1) = [a, b] and Word(n + 2) = Word(n + 1) + Word(n), the newer word
   * followed by the older one.
   */
  function Word<T>(n: nat, a: T, b: T): seq<T>
  {
    if n == 0 then [a]
    else if n == 1 then [a, b]
    else Word(n - 1, a, b) + Word(n - 2, a, b)
  }

  /** Consecutive generation steps have consecutive Fibonacci lengths. */
  lemma {:induction false} WordLength<T>(n: nat, a: T, b: T)
    ensures |Word(n, a, b)| == Fib(n + 2)
  {
    if n >= 2 {
      WordLength(n - 1, a, b);
      WordLength(n - 2, a, b);
    }
  }

  /** Every generation step is drawn from the two symbols only. */
  lemma {:induction false} WordSymbols<T>(n: nat, a: T, b: T)
    ensures forall x :: x in Word(n, a, b) ==> x == a || x == b
  {
    if n >= 2 {
      WordSymbols(n - 1, a, b);
      WordSymbols(n - 2, a, b);
    }
  }

  /** Each generation step is a strict prefix of the next one. */
  lemma WordGrows<T>(n: nat, a: T, b: T)
    ensures Word(n, a, b) < Word(n + 1, a, b)
  {
    if n >= 1 {
      var w, v := Word(n, a, b), Word(n - 1, a, b);
      WordLength(n - 1, a, b);
      FibPositive(n + 1);
      assert Word(n + 1, a, b) == w + v;
      assert (w + v)[..|w|] == w;
    }
  }

  /** Earlier generation steps are prefixes of later ones. */
  lemma {:induction false} WordPrefix<T>(n: nat, m: nat, a: T, b: T)
    requires n <= m
    ensures Word(n, a, b) <= Word(m, a, b)
  {
    if n < m {
      WordPrefix(n, m - 1, a, b);
      WordGrows(m - 1, a, b);
      var u, v, w := Word(n, a, b), Word(m - 1, a, b), Word(m, a, b);
      assert w[..|v|] == v;
      assert v[..|u|] == u;
      assert w[..|u|] == w[..|v|][..|u|];
    }
  }

  /**
   * The index of the first generation step that holds at least `length`
   * symbols: it is long enough, and the step before it (if any) is not.
   */
  function Cover(length: nat): (k: nat)
    ensures length <= Fib(k + 2)
    ensures k == 0 || Fib(k + 1) < length
  {
    if length <= 1 then 0
    else
      var k := Cover(length - 1);
      FibPositive(k + 1);
      if length <= Fib(k + 2) then k else k + 1
  }

  /** No earlier step than Cover(length) is long enough. */
  lemma CoverIsLeast(length: nat, j: nat)
    requires j < Cover(length)
    ensures Fib(j + 2) < length
  {
    FibMonotone(j + 2, Cover(length) + 1);
  }

  /**
   * The chain of the requested length: the first `length` symbols of the first
   * generation step that is long enough.
   */
  function Chain<T>(length: nat, a: T, b: T): (c: seq<T>)
    ensures |c| == length
    ensures forall x :: x in c ==> x == a || x == b
  {
    var w := Word(Cover(length), a, b);
    WordLength(Cover(length), a, b);
    WordSymbols(Cover(length), a, b);
    assert forall x :: x in w[..length] ==> x in w;
    w[..length]
  }

  /**
   * Truncating ANY generation step that is long enough gives the same chain:
   * the chain is a prefix of the Fibonacci word, whichever step it is cut from.
   */
  lemma ChainIsWordPrefix<T>(length: nat, k: nat, a: T, b: T)
    requires length <= |Word(k, a, b)|
    ensures Chain(length, a, b) == Word(k, a, b)[..length]
  {
    var c := Cover(length);
    WordLength(c, a, b);
    if c <= k {
      WordPrefix(c, k, a, b);
      var u, w := Word(c, a, b), Word(k, a, b);
      assert w[..|u|][..length] == w[..length];
    } else {
      WordPrefix(k, c, a, b);
      var u, w := Word(k, a, b), Word(c, a, b);
      assert w[..|u|][..length] == w[..length];
    }
  }

  /** A shorter chain is a prefix of a longer one. */
  lemma ChainPrefix<T>(n: nat, m: nat, a: T, b: T)
    requires n <= m
    ensures Chain(n, a, b) <= Chain(m, a, b)
  {
    var k := Cover(m);
    WordLength(k, a, b);
    ChainIsWordPrefix(n, k, a, b);
    ChainIsWordPrefix(m, k, a, b);
    var w := Word(k, a, b);
    assert w[..m][..n] == w[..n];
  }

  /** The two base cases of `fibonacci`. */
  lemma ChainBaseCases<T>(a: T, b: T)
    ensures Chain(1, a, b) == [a]
    ensures Chain(2, a, b) == [a, b]
  {
  }

  /** Generation step 5, the thirteen-symbol word. */
  lemma WordFive<T>(a: T, b: T)
    ensures Word(5, a, b) == [a, b, a, a, b, a, b, a, a, b, a, a, b]
  {
    assert Word(2, a, b) == [a, b, a];
    assert Word(3, a, b) == [a, b, a, a, b];
    assert Word(4, a, b) == [a, b, a, a, b, a, b, a];
  }

  /**
   * The chains of lengths 13 and 12, over any two symbols; over ('a', 'b')
   * they are "abaababaabaab" and "abaababaabaa".
   */
  lemma ChainExamples<T>(a: T, b: T)
    ensures Chain(13, a, b) == [a, b, a, a, b, a, b, a, a, b, a, a, b]
    ensures Chain(12, a, b) == [a, b, a, a, b, a, b, a, a, b, a, a]
  {
    var w := Word(5, a, b);
    WordFive(a, b);
    assert w[..13] == w;
    assert w[..12] == [a, b, a, a, b, a, b, a, a, b, a, a];
    ChainIsWordPrefix(13, 5, a, b);
    ChainIsWordPrefix(12, 5, a, b);
  }

  /**
   * `fibonacci(length, a, b)`: the two base cases, then a loop that grows the
   * words `first` and `second` until the next one is long enough.
   */
  method Fibonacci<T>(length: nat, a: T, b: T) returns (chain: seq<T>)
    ensures chain == Chain(length, a, b)
  {
    if length == 1 {
      return [a];
    }
    if length == 2 {
      return [a, b];
    }
    var first := [a];
    var second := [a, b];
    ghost var k: nat := 1;
    while true
      invariant 1 <= k
      invariant first == Word(k - 1, a, b) && second == Word(k, a, b)
      invariant |first| == Fib(k + 1) && |second| == Fib(k + 2)
      invariant first < second
      invariant length == 0 || |second| < length
      decreases length - |second|
    {
      var next := second + first;
      if |next| >= length {
        ChainIsWordPrefix(length, k + 1, a, b);
        return next[..length];
      }
      assert next[..|second|] == second;
      first, second := second, next;
      k := k + 1;
    }
  }
}
