# wuk::device_vector — a Dafny model

This project models the header `include/wuk/device_vector.h`. It has three parts:

- `wuk::device_vector<T>`: a buffer of accelerator memory whose size is fixed when it is constructed.
- `wuk::equal`: compares two buffers element by element within an absolute tolerance.
- `wuk::generate`: fills a buffer with pseudo-random values. Each element is a pure function of the seed, the distribution bounds and its index.

The two algorithms run on library primitives. `equal` uses `thrust::inner_product` with `thrust::maximum` as the combiner. `generate` uses `thrust::tabulate` with a freshly seeded `thrust::default_random_engine` per index. These primitives are modelled sequentially in module `Thrust` (`thrust.dfy`). The `wuk` namespace itself is module `Wuk` (`device_vector.dfy`).

Modelling choices:

- Elements are `real`, so arithmetic is exact. The per-element flag (a `char` in the source) is an `int` that is always 0 or 1.
- `device_vector` is a class. Its element array and its count are `const` fields, because no member written in the header reassigns them after construction. `generate` writes into the array in place, in a `for` loop.
- The random engine is represented only by its state: the seed it was built from and the number of values drawn or discarded since. The distribution is an uninterpreted function parameter (`Thrust.Distribution`). It maps the bounds `(a, b)` and an engine state to one sample.
- `Wuk.Gen(dist, s, a, b, i)` is the reference value for index `i`: the sample taken from a fresh engine seeded with `s` after `i` consecutive draws (`Thrust.Advance`).

The flag is set when `tmp >= eps`, where `tmp` is the absolute difference. With `eps <= 0` every pair is flagged, so a non-empty buffer is unequal even to itself (`Wuk.EqualNonPositiveTolerance`).

## Model

| member | source | states |
|---|---|---|
| `Thrust.Maximum` | include/wuk/device_vector.h:76-77 | the combiner `maximum<char>` returns one of its arguments and is at least both |
| `Thrust.MaximumLaws` | include/wuk/device_vector.h:76-77 | the combiner is associative, commutative and idempotent |
| `Thrust.InnerProductMax` | include/wuk/device_vector.h:76-77 | the sequential `inner_product` with `maximum` returns the largest of `init` and the mapped values: it is at least `init`, at least every `f(first1[i], first2[i])` with `i < n`, and equal to `init` or to one of them |
| `Thrust.InnerProductSplit` | include/wuk/device_vector.h:76-77 | reducing `[0, m)` and `[m, n)` separately and combining the two results gives the sequential result, so any partition of a parallel reduction agrees with it |
| `Thrust.InnerProductCovered` | include/wuk/device_vector.h:76-77 | if every pair of one range also occurs in another, the first range reduces to no more than the second |
| `Thrust.OrderIndependent` | include/wuk/device_vector.h:76-77 | two ranges holding the same pairs, in any order and with any repetitions, reduce to the same value |
| `Thrust.DefaultRandomEngine.Discard` | include/wuk/device_vector.h:90 | `discard(z)` reaches the same state as `z` consecutive draws (`Advance(this, z)`) |
| `Thrust.AdvanceCounts` | include/wuk/device_vector.h:90 | `k` consecutive draws keep the seed and advance the draw count by exactly `k` |
| `Thrust.DiscardAdditive` | include/wuk/device_vector.h:90 | discarding `x` then `y` draws reaches the state of discarding `x + y` |
| `Wuk.DeviceVector.constructor` | include/wuk/device_vector.h:22-23 | a new buffer owns a freshly allocated array of exactly `n` elements, and `size()` returns `n` |
| `Wuk.DeviceVector.Size` | include/wuk/device_vector.h:27 | `size()` is the number of elements the buffer was allocated with |
| `Wuk.DeviceVector.Data` | include/wuk/device_vector.h:25-26 | `data()` gives the buffer's own elements, and there are exactly `size()` of them |
| `Wuk.DeviceVector.Contents` | include/wuk/device_vector.h:18-19 | the elements viewed as a value, of length `size()`; `Wuk.Equal` and `Wuk.Generate` state their contracts over it |
| `Wuk.Difference` | include/wuk/device_vector.h:63 | `tmp` is non-negative and is either `a - b` or `b - a`, i.e. exactly the absolute difference |
| `Wuk.DifferenceSymmetric` | include/wuk/device_vector.h:63 | `tmp` is the same for `(a, b)` and `(b, a)` |
| `Wuk.AbsDiff.Apply` | include/wuk/device_vector.h:62-65 | the flag is 0 or 1, and it is 1 exactly when `a` and `b` are at least `eps` apart |
| `Wuk.Equal` | include/wuk/device_vector.h:70-78 | buffers of different sizes are unequal; buffers of equal size are equal iff every pair of corresponding elements differs by strictly less than `eps`; when the sizes differ it reads no element |
| `Wuk.EqualSizeMismatch` | include/wuk/device_vector.h:72-73 | different sizes give `false` for every content and every `eps` |
| `Wuk.EqualEmpty` | include/wuk/device_vector.h:76-77 | two empty buffers are equal for every `eps`, because the fold returns its initial `(char)0` |
| `Wuk.EqualNonPositiveTolerance` | include/wuk/device_vector.h:63-77 | with `eps <= 0`, a non-empty buffer is unequal to every buffer, itself included |
| `Wuk.EqualReflexive` | include/wuk/device_vector.h:63-77 | with `eps > 0`, every buffer is equal to itself |
| `Wuk.EqualSymmetric` | include/wuk/device_vector.h:63-77 | `equal(l, r, eps) == equal(r, l, eps)` |
| `Wuk.QuickGenerator.Apply` | include/wuk/device_vector.h:88-93 | a fresh engine from `seed` (`Thrust.DefaultRandomEngine.Seeded`, line 89), `idx` draws discarded and one sample taken yields `Gen(dist, seed, a, b, idx)`, the sample at position `idx` of the stream of draws |
| `Wuk.Generate` | include/wuk/device_vector.h:97-101 | afterwards the contents are exactly `[Gen(dist, s, a, b, 0), …, Gen(dist, s, a, b, v.size() - 1)]`; the size and the array are unchanged, and the result does not depend on the prior contents |
| `Wuk.GenerateReproducible` | include/wuk/device_vector.h:97-101 | filling a buffer twice with the same arguments, and filling a second buffer of the same size, give identical contents |
| `Wuk.ApplyInOrder` | include/wuk/device_vector.h:100 | applying the functor along any schedule of indices keeps the buffer's length |
| `Wuk.ApplyInOrderAt` | include/wuk/device_vector.h:100 | after any schedule, a visited index holds its generated value and an unvisited one keeps its prior value |
| `Wuk.FillOrderIndependent` | include/wuk/device_vector.h:100 | every schedule that visits each index at least once, in any order, leaves `Gen(…, i)` at every index `i`, whatever the buffer held before |

## Left out

- Device memory management (`device_malloc`, `device_free`, `device_ptr`, `device_pointer_cast`, `raw_pointer_cast`) and the destructor: these are calls into the Thrust library. Ownership and lifetime are not modelled. Allocation failure is not modelled either, nor is the failure of the `inner_product` and `tabulate` launches, which the library raises and which propagate out of `equal` and `generate`.
- The build switch `WUK_DEVICE_VECTOR_USE_THRUST` (lines 32-38): it only aliases the library's own container.
- Parallel execution of `inner_product` and `tabulate`: both run sequentially here. `Thrust.InnerProductSplit`, `Thrust.OrderIndependent` and `Wuk.FillOrderIndependent` state why the order does not matter.
- The internals of `default_random_engine`, `discard` and `uniform_real_distribution`: the engine is reduced to its state, and the distribution is a function parameter. No claim is made that samples lie in `[a, b)`, because that is the distribution's promise, not this code's.
- The default seed argument (`default_random_engine::default_seed`): it is a library constant, so callers of `Wuk.Generate` pass the seed explicitly. The default distribution template argument is covered by passing the distribution as a parameter.
- The conversion of the `int` seed to the engine's `result_type`: the seed is an opaque `int`.
- Floating-point rounding, NaN and the element type `T` in general: elements are exact `real` values.
- The `static_assert` that rejects `bool` elements: it is a compile-time check with no runtime behaviour.
- The `__host__ __device__ __forceinline__` qualifiers.
- The implicit copy constructor and copy assignment of `device_vector`: the class declares neither, so the compiler generates both, and they copy the handle and the count. Copy assignment would change `size()` of the assigned-to buffer. The model's `const` fields rule that out, so the model does not capture copying or the aliasing of one allocation by two buffers.
