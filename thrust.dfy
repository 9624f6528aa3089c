/** Sequential models of the parts of the Thrust library that `wuk::equal` and
    `wuk::generate` are built on: `thrust::maximum`, `thrust::inner_product`
    with `maximum` as its combining operator, and the state of
    `thrust::default_random_engine` as far as this core can observe it. */
module Thrust {

  /** `thrust::maximum<char>`: the larger of its two arguments. */
  function Maximum(x: int, y: int): (m: int)
    ensures x <= m && y <= m
    ensures m == x || m == y
  {
    if x < y then y else x
  }

  /** The laws that make the result of a reduction with `Maximum` independent
      of how the elements are grouped, ordered or repeated. */
  lemma MaximumLaws(x: int, y: int, z: int)
    ensures Maximum(Maximum(x, y), z) == Maximum(x, Maximum(y, z))
    ensures Maximum(x, y) == Maximum(y, x)
    ensures Maximum(x, x) == x
  {
  }

  /** `thrust::inner_product(first1, first1 + n, first2, init, maximum, f)`,
      run sequentially: starting from `init`, the pairs `(first1[i], first2[i])`
      for `i` from 0 to `n - 1` are mapped by `f` and combined into the
      accumulator as `acc := Maximum(acc, f(first1[i], first2[i]))`.
      The result is the largest of `init` and the mapped values. */
  function InnerProductMax(first1: seq<real>, n: nat, first2: seq<real>, init: int, f: (real, real) -> int): (r: int)
    requires n <= |first1| && n <= |first2|
    ensures init <= r
    ensures forall i :: 0 <= i < n ==> f(first1[i], first2[i]) <= r
    ensures r == init || exists i :: 0 <= i < n && r == f(first1[i], first2[i])
  {
    if n == 0 then init
    else Maximum(InnerProductMax(first1, n - 1, first2, init, f), f(first1[n - 1], first2[n - 1]))
  }

  /** Splitting the range at any point `m` and combining the two partial
      reductions (each started from `init`) gives the sequential result: a
      parallel reduction over any partition agrees with the sequential one. */
  lemma InnerProductSplit(first1: seq<real>, first2: seq<real>, m: nat, n: nat, init: int, f: (real, real) -> int)
    requires m <= n <= |first1| && n <= |first2|
    ensures InnerProductMax(first1, n, first2, init, f)
         == Maximum(InnerProductMax(first1, m, first2, init, f), InnerProductMax(first1[m..], n - m, first2[m..], init, f))
  {
  }

  /** Every pair `(xs[i], ys[i])` with `i < n` also occurs as some
      `(xs'[j], ys'[j])` with `j < n'`. */
  ghost predicate PairsCovered(xs: seq<real>, ys: seq<real>, n: nat, xs': seq<real>, ys': seq<real>, n': nat)
    requires n <= |xs| && n <= |ys| && n' <= |xs'| && n' <= |ys'|
  {
    forall i :: 0 <= i < n ==> exists j :: 0 <= j < n' && xs'[j] == xs[i] && ys'[j] == ys[i]
  }

  /** When every pair of the first range also occurs in the second, the first
      reduces to no more than the second. */
  lemma InnerProductCovered(xs: seq<real>, ys: seq<real>, n: nat, xs': seq<real>, ys': seq<real>, n': nat, init: int, f: (real, real) -> int)
    requires n <= |xs| && n <= |ys| && n' <= |xs'| && n' <= |ys'|
    requires PairsCovered(xs, ys, n, xs', ys', n')
    ensures InnerProductMax(xs, n, ys, init, f) <= InnerProductMax(xs', n', ys', init, f)
  {
  }

  /** The result depends only on which pairs are combined, not on their order
      nor on how often each occurs: two ranges holding the same pairs reduce
      to the same value. */
  lemma OrderIndependent(xs: seq<real>, ys: seq<real>, n: nat, xs': seq<real>, ys': seq<real>, n': nat, init: int, f: (real, real) -> int)
    requires n <= |xs| && n <= |ys| && n' <= |xs'| && n' <= |ys'|
    requires PairsCovered(xs, ys, n, xs', ys', n') && PairsCovered(xs', ys', n', xs, ys, n)
    ensures InnerProductMax(xs, n, ys, init, f) == InnerProductMax(xs', n', ys', init, f)
  {
    InnerProductCovered(xs, ys, n, xs', ys', n', init, f);
    InnerProductCovered(xs', ys', n', xs, ys, n, init, f);
  }

  /** `thrust::default_random_engine`, seen only through its state: the
      engine constructed from `seed` after `drawn` values have been drawn or
      discarded. Two engines in the same state produce the same stream. */
  datatype DefaultRandomEngine = DefaultRandomEngine(seed: int, drawn: nat) {

    /** The engine constructed from seed `s`, before any draw. This is the
        definition of the abstract state; it has no contract of its own. */
    static function Seeded(s: int): DefaultRandomEngine {
      DefaultRandomEngine(s, 0)
    }

    /** The state after one more value has been drawn from the engine. */
    function Draw(): DefaultRandomEngine {
      DefaultRandomEngine(seed, drawn + 1)
    }

    /** `discard(z)`: the state the engine reaches after `z` consecutive
        draws. */
    function Discard(z: nat): (e: DefaultRandomEngine)
      ensures e == Advance(this, z)
    {
      AdvanceCounts(this, z);
      DefaultRandomEngine(seed, drawn + z)
    }
  }

  /** The state of engine `e` after `k` consecutive draws. */
  ghost function Advance(e: DefaultRandomEngine, k: nat): DefaultRandomEngine {
    if k == 0 then e else Advance(e, k - 1).Draw()
  }

  /** `k` draws keep the seed and add `k` to the number of values drawn. */
  lemma {:induction false} AdvanceCounts(e: DefaultRandomEngine, k: nat)
    ensures Advance(e, k) == DefaultRandomEngine(e.seed, e.drawn + k)
  {
    if k > 0 {
      AdvanceCounts(e, k - 1);
    }
  }

  /** Discarding in two steps reaches the same state as discarding the total
      at once. */
  lemma DiscardAdditive(e: DefaultRandomEngine, x: nat, y: nat)
    ensures e.Discard(x).Discard(y) == e.Discard(x + y)
  {
  }

  /** A distribution object constructed from `(a, b)` and applied to an
      engine: the sample it draws from the engine in the given state. Its
      internals are not modelled; it is a parameter of the operations. */
  type Distribution = (real, real, DefaultRandomEngine) -> real
}
