# wiz: push-iterator combinators and slice search helpers, in Dafny

This project models two parts of the Go package `wiz` (module catermujo/lo):

- the push-iterator combinators of `basics.go`: `IFilter`, `IReduce`, `Chain`, `IMap`
  and `Zip`. A Go `iter.Seq[V]` over a finite source is modelled by the source itself,
  a `seq<V>`. The consumer's `yield` is a `Consumer`: `Drain` answers true to every
  value, and `StopAt(k)` answers false to the k-th one, as a `range` loop that breaks
  after k values does. Each combinator is a pure function returning a `Run`. A `Run`
  records the values delivered, how far the source was pulled, and whether the run was
  stopped. `Chain` returns a `ChainRun`, which counts the sub-iterators started instead.
  The partners of `IFilter`, `IMap`, `Chain` and `Zip` are eager reference operations in
  `Seqs`: `Kept` (filter), `Mapped`, `Concat` and `Pairs`. `IReduce` has no reference
  operation; its partners are its own snoc `ensures` and the lemma `IReduceAppend`.
- the slice helpers of the package's find family: `IndexOf`, `LastIndexOf`, `Find`,
  `FindIndexOf`, `FindLastIndexOf`, `FindOrElse`, `FindKey`, `FindKeyBy`,
  `FindUniques(By)`, `FindDuplicates(By)`, `Min`, `Max`, `MinBy`, `MaxBy`, `Earliest`,
  `Latest`, `EarliestBy`, `LatestBy`, `First`, `Last` and their `...Or` / `...OrEmpty`
  forms, `Nth`, `Sample` and `Samples`. find.go is not part of this model. These
  functions are modelled from the behaviour that find_test.go pins down. Every value
  assertion of those tests is restated as a lemma in module `TestCases`. The type checks
  on named slice types are the exception (see "## Left out").

Modules and files:

| file | module | contents |
|---|---|---|
| seqs.dfy | `Seqs` | reference definitions: `Kept`, `Mapped`, `Concat`, `Pairs`, `Reverse`, and their algebra |
| results.dfy | `Results` | Go's multi-value returns: `Lookup` (value, ok), `Hit` (item, index, ok), `Fetched` (value, error) |
| iter.dfy | `Iter` | the combinators of basics.go and the consumer model |
| search.dfy | `Search` | index and predicate searches, and key search in maps |
| uniqueness.dfy | `Uniqueness` | the two-pass uniqueness and duplicate analysis |
| extrema.dfy | `Extrema` | Min/Max and their `By` and time-valued forms |
| positional.dfy | `Positional` | First/Last, Nth, Sample, Samples |
| test_cases.dfy | `TestCases` | the concrete cases of find_test.go, and worked examples of the basics.go combinators |

Go's zero value of a type parameter is an explicit `zero` argument. `time.Time` is an
`int` instant, with the zero Time as 0. Go's map iteration order is an `order` argument
listing the keys. The random numbers behind `Sample` and `Samples` are arguments too.

For the uniqueness operations the model chooses a two-pass algorithm. The first pass
(`MarkDuplicates`) builds a `map<K, bool>` that marks each key true once it has been seen
a second time. The second pass walks the input in order. `FindUniquesBy` and
`FindDuplicatesBy` are proved equal to the count-based reference definitions `Uniques` and
`Duplicates`, so the choice of algorithm does not affect any contract.

Some members are the loops behind listed operations and have no row of their own:
`Extrema.BestIndex` is the selection loop of MinBy and MaxBy, described by
`BestIndexIsFirstBest`. `Search.ForwardProbes` and `Search.BackwardProbes` record the order
of predicate calls, described by `FindIndexOfProbes` and `FindLastIndexOfProbes`.

## Model

| member | source | states |
|---|---|---|
| Iter.IFilter | basics.go:7-15 | The values delivered are exactly the pulled source elements that pass `f`, in source order. No more than the source is pulled. The run is stopped exactly when the consumer's stop point is within the number of passing elements. |
| Iter.IFilterDelivers | basics.go:9-12 | The lazy filter delivers the eager filter's result cut off at the number of values handed to the consumer, the one it answers false to included. |
| Iter.IFilterPullsOnlyWhatIsNeeded | basics.go:9-12 | A run that is not stopped has pulled the whole source. A stopped run has delivered exactly k values, and its last pulled element is the k-th passing one, so nothing after the stopping element is pulled. |
| Iter.IFilterDrained | basics.go:7-15 | A consumer that never stops receives exactly the filtered source, the whole source is pulled, and the run is not stopped. |
| Iter.IReduce | basics.go:17-23 | The accumulator starts at `init`, and the last step combines the fold of all earlier elements with the last element: `f(IReduce(s[..n-1]), s[n-1])`. |
| Iter.IReduceAppend | basics.go:17-23 | Reducing a concatenation equals reducing the second part, starting from the first part's result (left-fold associativity). |
| Iter.IReduceStep | basics.go:19-21 | One more element turns accumulator `r` into `f(r, e)`. |
| Iter.Forward | basics.go:28-32 | For one sub-iterator, the inner loop delivers the prefix the consumer accepts, and it stops exactly when the consumer's stop point falls within it. |
| Iter.Chain | basics.go:25-35 | The chain delivers the concatenation of the sub-iterators, cut off where the consumer stops. It is stopped exactly when the stop point is within the total length, and it never starts more sub-iterators than it has. |
| Iter.ChainStartsOnlyWhatIsNeeded | basics.go:27-33 | A chain that is not stopped starts every sub-iterator. A stopped chain starts exactly those up to the one holding the consumer's k-th value: n starts with total length before the n-th < k <= total through the n-th. |
| Iter.IMap | basics.go:37-45 | Each delivered value is `f` of the source element at the same position. Exactly as many elements are pulled as values are handed to the consumer, and the run is stopped exactly when the stop point is within the source. |
| Iter.IMapDelivers | basics.go:39-43 | The lazy map delivers the eager map's result cut off at the consumer's stop point. |
| Iter.Zip | basics.go:47-58 | Lengths must be equal (the source panics otherwise). The values delivered are the index-wise pairs, cut off where the consumer stops, and the run is stopped exactly when the stop point is within the length. |
| Iter.ZipFrom | basics.go:51-57 | From index `i`, the loop delivers `(ki[i+j], vi[i+j])` for each accepted step j and stops exactly when the consumer does. |
| Search.IndexOf | find_test.go:13-22 | Returns the first index holding `v`, or -1 exactly when `v` does not occur. |
| Search.LastIndexOf | find_test.go:24-33 | Returns the last index holding `v`, or -1 exactly when `v` does not occur. |
| Search.IndexOfIsFindIndexOf | find_test.go:13-22 | IndexOf answers what FindIndexOf answers for the predicate "equals `v`": the same first index, or -1 in both. |
| Search.LastIndexOfIsFindLastIndexOf | find_test.go:24-33 | LastIndexOf answers what FindLastIndexOf answers for the predicate "equals `v`": the same last index, or -1 in both. |
| Search.FindIndexOf | find_test.go:57-78 | On success, returns the first matching index and its element. Otherwise it returns `(zero, -1, false)`, and no element matches. |
| Search.FindIndexOfProbes | find_test.go:62-66 | The predicate sees the elements front to back, up to and including the first match, or all of them when nothing matches. |
| Search.Find | find_test.go:35-55 | Returns the first matching element and true, or the zero value and false, and then no element matches. |
| Search.FindOrElse | find_test.go:103-120 | Returns the first matching element, or the fallback exactly when no element matches. |
| Search.FindLastIndexOf | find_test.go:80-101 | On success, returns the last matching index and its element. Otherwise it returns `(zero, -1, false)`, and no element matches. |
| Search.FindLastIndexOfProbes | find_test.go:85-89 | The predicate sees the elements back to front, from the last one down to the last match, or all of them in reverse when nothing matches. |
| Search.FindKeyBy | find_test.go:147-162 | Returns a key whose entry satisfies the predicate, and true. The zero key and false come back only when no entry satisfies it. Both hold for every visiting order. |
| Search.ScanKeys | find_test.go:147-162 | The map-range loop over the keys in visiting order: a returned key is in the map and its entry satisfies the predicate. A miss returns the zero key, and then no visited key's entry satisfies it. |
| Search.FindKey | find_test.go:122-145 | Returns a key mapped to `v`, and true. The zero key and false come back only when `v` is not among the map's values. |
| Uniqueness.MarkDuplicates | find_test.go:164-290 | After the first pass, every key of the input is marked, and its mark is true exactly when the key occurs at least twice. |
| Uniqueness.FindUniquesBy | find_test.go:194-232 | Returns exactly the elements whose key no other element shares, in input order. |
| Uniqueness.FindUniques | find_test.go:164-192 | Returns elements that each occur exactly once in the input, and every element occurring once is included. |
| Uniqueness.FindDuplicatesBy | find_test.go:259-290 | Returns, for every key shared by two or more elements, the first element with that key, in first-occurrence order. |
| Uniqueness.FindDuplicates | find_test.go:234-257 | Each result element occurs at least twice in the input and exactly once in the result, and every repeated value is included. |
| Uniqueness.DistinctKeysUniques | find_test.go:164-290 | When no two elements share a key, FindUniquesBy returns the whole input and FindDuplicatesBy returns nothing. |
| Uniqueness.RepeatedKeysNoUniques | find_test.go:164-232 | When every key of the input occurs at least twice, FindUniquesBy returns nothing. |
| Uniqueness.FirstByKeyKeys | find_test.go:259-290 | The first-occurrence list holds exactly one element for each key of the input and nothing else. |
| Uniqueness.UniquesByKeys | find_test.go:194-232 | The uniques result holds one element for each key occurring once and none for any other key. |
| Uniqueness.DuplicatesByKeys | find_test.go:259-290 | The duplicates result holds one element for each key occurring at least twice and none for any other key. |
| Uniqueness.UniquesDuplicatesPartition | find_test.go:164-290 | Every key of the input is represented exactly once across the two results, and no other key appears in either. |
| Uniqueness.UniquesIdempotent | find_test.go:164-232 | Applying FindUniquesBy to its own result changes nothing. |
| Extrema.BestIndexIsFirstBest | find_test.go:307-324 | For a strict weak order, the selection loop keeps an element that no element beats and that strictly beats every earlier one, so ties keep the earlier element. |
| Extrema.MinBy | find_test.go:307-324 | The empty input gives the zero value. Otherwise the result is an element of the input, and for a strict weak order it is the first minimal one. |
| Extrema.MaxBy | find_test.go:380-397 | The empty input gives the zero value. Otherwise the result is an element of the input, and for a strict weak order it is the first maximal one. |
| Extrema.Min | find_test.go:292-305 | The result is an element that is <= every element, or 0 for the empty input. |
| Extrema.Max | find_test.go:365-378 | The result is an element that is >= every element, or 0 for the empty input. |
| Extrema.Earliest | find_test.go:326-337 | The result is the earliest instant given, or the zero Time when none is given. |
| Extrema.Latest | find_test.go:399-410 | The result is the latest instant given, or the zero Time when none is given. |
| Extrema.EarliestBy | find_test.go:339-363 | The result is the first element whose instant is the earliest, or the zero element for the empty input. |
| Extrema.LatestBy | find_test.go:412-436 | The result is the first element whose instant is the latest, or the zero element for the empty input. |
| Positional.First | find_test.go:438-449 | Returns the first element and true, or the zero value and false exactly when the input is empty. |
| Positional.FirstOrEmpty | find_test.go:451-462 | Returns the value First returns: the zero value for an empty input. |
| Positional.FirstOr | find_test.go:464-475 | Returns the value First returns, with the caller's fallback for an empty input. |
| Positional.Last | find_test.go:477-488 | Returns the last element and true, or the zero value and false exactly when the input is empty. |
| Positional.LastOrEmpty | find_test.go:490-501 | Returns the value Last returns: the zero value for an empty input. |
| Positional.LastOr | find_test.go:503-514 | Returns the value Last returns, with the caller's fallback for an empty input. |
| Positional.LastIsFirstOfReverse | find_test.go:438-488 | Last of a slice equals First of the reversed slice. |
| Positional.Nth | find_test.go:516-539 | No error exactly when `-len <= n < len`. Then `n >= 0` selects `s[n]` and `n < 0` selects `s[len+n]`. Any other `n` gives the zero value with an out-of-bounds error carrying `n`. |
| Positional.NthNegative | find_test.go:516-539 | Index `i - len` names the same element as `i`. |
| Positional.NthAgreesWithFirstAndLast | find_test.go:516-539 | `Nth(s, 0)` agrees with First and `Nth(s, -1)` agrees with Last, in both value and success. |
| Positional.Sample | find_test.go:541-552 | A non-empty input gives one of its elements. An empty one gives the zero value. |
| Positional.Draw | find_test.go:554-572 | Each step draws one element from the pool and removes it. The result has min(count, pool size) elements, takes each element at most as often as the pool holds it, and is a permutation of the pool when count >= pool size. |
| Positional.Samples | find_test.go:554-572 | Returns min(count, len) elements, none for a non-positive count, each taken at most as often as it occurs. When count >= len, the result is a permutation of the input. |
| TestCases.IndexOfCases | find_test.go:13-33 | The IndexOf and LastIndexOf cases. |
| TestCases.FindCases | find_test.go:35-120 | The Find, FindIndexOf, FindLastIndexOf and FindOrElse cases. Also the elements each predicate receives, in order: `["a", "b"]` for the forward scans of find_test.go:41 and :63, `["b"]` for the backward scan of :86, and `["foobar"]` for the one-element scans of :47, :68, :91 and :114. |
| TestCases.FindKeyCases | find_test.go:122-162 | All FindKey and FindKeyBy cases, with the int-valued map and the struct-valued map, whatever order the map is visited in. |
| TestCases.MinMaxCases | find_test.go:292-397 | The int-slice Min and Max cases and all MinBy and MaxBy cases. The `time.Duration` cases are in TimeCases. |
| TestCases.TimeCases | find_test.go:292-436 | The Earliest, Latest, EarliestBy and LatestBy cases, for every starting instant. Also the `time.Duration` Min and Max cases of find_test.go:298 and :371, with durations as whole seconds. |
| TestCases.PositionalCases | find_test.go:438-539 | The First, Last, `...Or`, `...OrEmpty` and Nth cases. |
| TestCases.SampleCases | find_test.go:541-572 | The Sample and Samples cases, for every sequence of random numbers. |
| TestCases.UniquesCases | find_test.go:164-192 | `FindUniques` of `[1, 2, 3]`, `[1, 2, 2, 3, 1, 2]`, `[1, 2, 2, 1]` and `[]` is `[1, 2, 3]`, `[3]`, `[]` and `[]`. |
| TestCases.UniquesByCases | find_test.go:194-232 | `FindUniquesBy` with `i % 3` of `[0, 1, 2]`, `[0, 1, 2, 3, 4]`, `[0, 1, 2, 3, 4, 5]` and `[]` is `[0, 1, 2]`, `[2]`, `[]` and `[]`. |
| TestCases.DuplicatesCases | find_test.go:234-257 | `FindDuplicates` of `[1, 2, 2, 1, 2, 3]`, `[1, 2, 3]` and `[]` is `[1, 2]`, `[]` and `[]`. |
| TestCases.DuplicatesByCases | find_test.go:259-290 | `FindDuplicatesBy` of `[3, 4, 5, 6, 7]` with `i % 3` is `[3, 4]`, of `[0, 1, 2, 3, 4]` with `i % 5` is `[]`, and of `[]` is `[]`. |
| TestCases.FilterCase | basics.go:7-15 | Filtering `[1, 2, 3, 4]` for even numbers delivers `[2, 4]` to a draining consumer. A consumer that stops at its first value gets `[2]` after two elements are pulled. |
| TestCases.MapCase | basics.go:37-45 | A consumer stopping at its second value receives two mapped values, and exactly two elements are pulled. |
| TestCases.ChainCase | basics.go:25-35 | A consumer stopping at its second value starts two of three sub-iterators. An empty chain delivers nothing. |
| TestCases.ReduceZipCase | basics.go:17-58 | Summing `[1, 2, 3]` gives 6, and zipping pairs the elements index-wise. |

## Left out

- find.go is not part of this model. The find family is modelled from the behaviour find_test.go pins down. The two-pass uniqueness algorithm is the model's own choice, and it is proved equal to the count-based references.
- Iterators as first-class values (composing one lazy producer into another, or restarting one) are not modelled. Each combinator is applied to a finite source and one consumer.
- Iter.Zip: the length-mismatch panic is the precondition `|ki| == |vi|`. The panic message is not modelled.
- Predicates, projections and consumers with side effects are not modelled. The order in which the search predicates are called is recorded by `ForwardProbes` and `BackwardProbes`.
- Extrema.MinBy: minimality is proved only for comparisons that are strict weak orders. For any other comparison the result is only shown to be an element of the input.
- Extrema.MaxBy: as MinBy, maximality is proved only for strict weak orders.
- Extrema.Min: modelled on `int` only. Floats and strings are not modelled, nor is NaN handling. A `time.Duration` is an integer count of seconds, which is how TimeCases states the Duration cases.
- Extrema.Max: modelled on `int` only, as Min.
- Extrema.Earliest: `time.Time` is abstracted to an integer instant. Monotonic clock readings and locations are not modelled.
- Search.FindKey: Go's map iteration order is unspecified, so it is the `order` argument. When several keys qualify, the contract says only that some qualifying key is returned.
- Search.FindKeyBy: as FindKey, the visiting order is the `order` argument.
- Positional.Sample: the random source is the `roll` argument. Which index it picks is not constrained beyond being in range.
- Positional.Samples: the random numbers are the `roll` argument, and drawn elements are removed preserving order. Exactly how the implementation removes drawn elements is not known here, so the contract states only length and multiset bounds.
- Positional.Nth: Go's `int` width and the conversion of an arbitrary integer index type are not modelled, because indices are unbounded integers. The error message text is modelled only as `OutOfBounds(n)`.
- The type-preservation checks of the tests (`is.IsType` on named slice types) have no counterpart: Dafny sequences have no named slice types.
- `t.Parallel`, testify's assertion plumbing and `rand.Seed` are test infrastructure and are not modelled.
