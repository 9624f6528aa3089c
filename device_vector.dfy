/** The `wuk` namespace: a fixed-size device buffer, tolerance comparison of
    two buffers (`equal`) and the index-seeded random fill (`generate`).
    Elements are modelled as `real`; the source's element type `T` is a
    template parameter, and `bool` is refused for it at compile time, which
    has no counterpart here. */
module Wuk {
  import opened Thrust

  /** `device_vector<T>`: `size` elements allocated once at construction.
      No member written in the header reassigns the element handle or the
      count after construction, so both are `const`; only the elements
      change. */
  class DeviceVector {
    const data: array<real>
    const size: nat

    /** The handle addresses exactly `size` elements. */
    ghost predicate Valid() {
      data.Length == size
    }

    /** Allocates `n` elements. Their initial values are unspecified. */
    constructor (n: nat)
      ensures Valid() && Size() == n
      ensures fresh(data)
    {
      size := n;
      data := new real[n];
    }

    /** `size()`: the number of elements the buffer was allocated with. */
    function Size(): (n: nat)
      requires Valid()
      ensures n == data.Length
    {
      size
    }

    /** `data()` (both overloads): access to the elements, no ownership transfer. */
    function Data(): (p: array<real>)
      requires Valid()
      ensures p.Length == Size()
      ensures p == data
    {
      data
    }

    /** The elements, as a value. */
    ghost function Contents(): (s: seq<real>)
      reads data
      requires Valid()
      ensures |s| == Size()
    {
      data[..]
    }
  }

  /** The intermediate `tmp` of `AbsDiff::operator()`: the larger value minus
      the smaller one. */
  function Difference(a: real, b: real): (tmp: real)
    ensures 0.0 <= tmp
    ensures tmp == a - b || tmp == b - a
  {
    if a < b then b - a else a - b
  }

  /** `tmp` does not depend on the order of the operands. */
  lemma DifferenceSymmetric(a: real, b: real)
    ensures Difference(a, b) == Difference(b, a)
  {
  }

  /** `AbsDiff<T>`: the per-element flag of `equal`, carrying the tolerance. */
  datatype AbsDiff = AbsDiff(eps: real) {

    /** `operator()`: 1 when `a` and `b` are at least `eps` apart, else 0. */
    function Apply(a: real, b: real): (flag: int)
      ensures flag == 0 || flag == 1
      ensures flag == 1 <==> (a - b >= eps || b - a >= eps)
    {
      var tmp := Difference(a, b);
      if tmp >= eps then 1 else 0
    }
  }

  /** `equal(lhs, rhs, eps)`: false at once when the sizes differ; otherwise
      the `AbsDiff` flags of all pairs are reduced with `maximum` from
      `(char)0`, and the buffers are equal when the reduction is 0 (the
      source returns its logical negation). When the sizes differ, the
      `reads` clause admits no element at all. */
  function Equal(lhs: DeviceVector, rhs: DeviceVector, eps: real): (r: bool)
    reads if lhs.size != rhs.size then {} else {lhs.data, rhs.data}
    requires lhs.Valid() && rhs.Valid()
    ensures lhs.Size() != rhs.Size() ==> !r
    ensures lhs.Size() == rhs.Size() ==>
              (r <==> forall i :: 0 <= i < lhs.Size() ==> -eps < lhs.Contents()[i] - rhs.Contents()[i] < eps)
  {
    if lhs.Size() != rhs.Size() then false
    else
      var op := AbsDiff(eps);
      var reduced := InnerProductMax(lhs.data[..], lhs.Size(), rhs.data[..], 0, (x, y) => op.Apply(x, y));
      assert lhs.Contents() == lhs.data[..] && rhs.Contents() == rhs.data[..];
      reduced == 0
  }

  /** Buffers of different sizes are never equal, whatever their contents and
      tolerance. */
  lemma EqualSizeMismatch(lhs: DeviceVector, rhs: DeviceVector, eps: real)
    requires lhs.Valid() && rhs.Valid()
    requires lhs.Size() != rhs.Size()
    ensures !Equal(lhs, rhs, eps)
  {
  }

  /** Two empty buffers are equal for every tolerance. */
  lemma EqualEmpty(lhs: DeviceVector, rhs: DeviceVector, eps: real)
    requires lhs.Valid() && rhs.Valid()
    requires lhs.Size() == 0 && rhs.Size() == 0
    ensures Equal(lhs, rhs, eps)
  {
  }

  /** With a tolerance of zero or less no pair passes `tmp < eps`, so a
      non-empty buffer is unequal even to itself. */
  lemma EqualNonPositiveTolerance(lhs: DeviceVector, rhs: DeviceVector, eps: real)
    requires lhs.Valid() && rhs.Valid()
    requires eps <= 0.0 && lhs.Size() > 0
    ensures !Equal(lhs, rhs, eps)
  {
  }

  /** With a positive tolerance every buffer is equal to itself. */
  lemma EqualReflexive(x: DeviceVector, eps: real)
    requires x.Valid()
    requires eps > 0.0
    ensures Equal(x, x, eps)
  {
  }

  /** `equal` does not depend on the order of its buffer arguments. */
  lemma EqualSymmetric(lhs: DeviceVector, rhs: DeviceVector, eps: real)
    requires lhs.Valid() && rhs.Valid()
    ensures Equal(lhs, rhs, eps) == Equal(rhs, lhs, eps)
  {
  }

  /** The value the fill stores at index `i`: one sample, from the
      distribution over `(a, b)`, of a fresh engine seeded with `s` after
      `i` consecutive draws. */
  ghost function Gen(dist: Distribution, s: int, a: real, b: real, i: nat): real {
    dist(a, b, Advance(DefaultRandomEngine.Seeded(s), i))
  }

  /** `QuickGenerator<T, Tdistribution>`: the per-index functor of `generate`. */
  datatype QuickGenerator = QuickGenerator(a: real, b: real, seed: int, dist: Distribution) {

    /** `operator()(idx)`: a fresh engine from `seed`, `idx` draws discarded,
        then one sample of the distribution over `(a, b)`. */
    function Apply(idx: nat): (x: real)
      ensures x == Gen(dist, seed, a, b, idx)
    {
      var rng := DefaultRandomEngine.Seeded(seed).Discard(idx);
      dist(a, b, rng)
    }
  }

  /** `generate(v, a, b, s)`: `thrust::tabulate` over `[p, p + v.size())`
      with a `QuickGenerator`, run here as a sequential loop. Every element
      is overwritten and none is read. */
  method Generate(v: DeviceVector, a: real, b: real, s: int, dist: Distribution)
    requires v.Valid()
    modifies v.data
    ensures v.Contents() == seq(v.Size(), i requires 0 <= i => Gen(dist, s, a, b, i))
  {
    var p := v.Data();
    var gen := QuickGenerator(a, b, s, dist);
    for i := 0 to v.Size()
      invariant forall j :: 0 <= j < i ==> p[j] == Gen(dist, s, a, b, j)
    {
      p[i] := gen.Apply(i);
    }
  }

  /** Filling a fresh buffer twice with the same arguments, and filling a
      second fresh buffer of the same size, reproduce the same contents. */
  method GenerateReproducible(n: nat, a: real, b: real, s: int, dist: Distribution)
    returns (first: seq<real>, again: seq<real>, other: seq<real>)
    ensures first == again == other
    ensures |first| == n
  {
    var v := new DeviceVector(n);
    Generate(v, a, b, s, dist);
    first := v.data[..];
    Generate(v, a, b, s, dist);
    again := v.data[..];
    var w := new DeviceVector(n);
    Generate(w, a, b, s, dist);
    other := w.data[..];
  }

  /** The contents after the functor has been applied, one index after
      another, at the indices listed in `schedule`, starting from `prior`:
      one possible execution order of the parallel tabulate. Indices outside
      the buffer are skipped. */
  ghost function ApplyInOrder(prior: seq<real>, gen: QuickGenerator, schedule: seq<nat>): (r: seq<real>)
    ensures |r| == |prior|
  {
    if schedule == [] then prior
    else
      var done := ApplyInOrder(prior, gen, schedule[..|schedule| - 1]);
      var i := schedule[|schedule| - 1];
      if i < |done| then done[i := gen.Apply(i)] else done
  }

  /** Under any schedule, an index that has been visited holds its generated
      value and an index that has not holds its prior value. */
  lemma {:induction false} ApplyInOrderAt(prior: seq<real>, gen: QuickGenerator, schedule: seq<nat>, i: nat)
    requires i < |prior|
    ensures ApplyInOrder(prior, gen, schedule)[i] == if i in schedule then gen.Apply(i) else prior[i]
  {
    if schedule != [] {
      var front := schedule[..|schedule| - 1];
      ApplyInOrderAt(prior, gen, front, i);
      assert schedule == front + [schedule[|schedule| - 1]];
    }
  }

  /** Every schedule that visits each index at least once, in any order and
      with any repetitions, leaves the same contents as `Generate`, whatever
      the buffer held before. */
  lemma FillOrderIndependent(prior: seq<real>, gen: QuickGenerator, schedule: seq<nat>)
    requires forall i :: 0 <= i < |prior| ==> i in schedule
    ensures forall i :: 0 <= i < |prior| ==>
              ApplyInOrder(prior, gen, schedule)[i] == Gen(gen.dist, gen.seed, gen.a, gen.b, i)
  {
    forall i | 0 <= i < |prior|
      ensures ApplyInOrder(prior, gen, schedule)[i] == Gen(gen.dist, gen.seed, gen.a, gen.b, i)
    {
      ApplyInOrderAt(prior, gen, schedule, i);
    }
  }
}
