# Mean and median of a list of numbers

A Dafny model of `function_practice.py`, a small Python module with two
statistics over a list of numbers:

- `get_mean(data)` returns `sum(data) / len(data)`.
- `get_median(data)` takes a sorted copy of `data`, computes the middle index
  `n // 2`, and returns the middle element when `n` is odd or the average of
  the elements at `mid_index - 1` and `mid_index` when `n` is even.

The module builds the sample list `x = list(range(0, 10, 1))` and calls both
functions on it.

Layout:

- `Sequences.dfy` (module `Sequences`): `Sum`, which is Python's `sum` as a
  left fold from 0, plus `Count`, `Min` and `Max`. It proves that sums and
  counts depend only on the multiset of the elements, and it bounds sums and
  averages.
- `Sorting.dfy` (module `Sorting`): `Sort` is Python's `sorted`, specified as
  "an ascending permutation of the input". `InsertionSort` shows that such a
  permutation exists. `SortIsUnique` shows there is only one, so the result
  does not depend on the algorithm (Python uses Timsort).
- `FunctionPractice.dfy` (module `FunctionPractice`): `GetMean` and
  `GetMedian`, with the sample list and the lemmas about both functions.

Values and results are `real`, and division is exact. Python raises on an
empty list. The model returns `Failure(ZeroDivisionError)` from `GetMean` and
`Failure(IndexError)` from `GetMedian` instead. For the median, Python's list
indexing is written out in `PyIndex`: a negative index counts from the end.
On an empty list, `n = 0` takes the even branch, and `sorted_data[-1]` then
raises IndexError.

`get_median` leaves the caller's list unchanged, because `sorted` builds a
new list instead of sorting in place. In the model this holds by
construction: Dafny sequences are immutable values, and the functions are deterministic, so two calls on the same
list always give the same result.

## Model

| member | source | states |
|---|---|---|
| `FunctionPractice.EmptyInputFails` | function_practice.py:5-6 | An empty list is the only input on which `get_mean` fails (ZeroDivisionError) and the only one on which `get_median` fails (IndexError from `sorted_data[-1]`). |
| `FunctionPractice.MeanBalances` | function_practice.py:5-6 | The mean is the balance point of the list: the deviations `data[i] - mean` add up to zero. |
| `FunctionPractice.MeanPermutation` | function_practice.py:6 | Permuting the list does not change the mean. This includes the failure on an empty list. |
| `FunctionPractice.MeanBetweenMinMax` | function_practice.py:6 | The mean of a non-empty list lies between its least and its greatest element. |
| `FunctionPractice.MedianRule` | function_practice.py:22-28 | On a non-empty list, Python's negative indexing never applies. Odd `n` gives `sorted_data[n // 2]`. Even `n` gives the average of `sorted_data[n // 2 - 1]` and `sorted_data[n // 2]`. |
| `FunctionPractice.MedianPermutation` | function_practice.py:22-28 | Permuting the list does not change the median, because only the sorted copy is indexed. |
| `FunctionPractice.MedianOddIsElement` | function_practice.py:24-28 | For odd `n`, the median is one of the input values. |
| `FunctionPractice.MedianSplitsInput` | function_practice.py:22-28 | At least ceil(n/2) input values are at most the median, and at least ceil(n/2) are at least the median. For odd `n` that is `n // 2 + 1` on each side. |
| `FunctionPractice.MedianBetweenMinMax` | function_practice.py:22-28 | The median of a non-empty list lies between its least and its greatest element. |
| `FunctionPractice.ConstantMeanMedian` | function_practice.py:5-28 | A non-empty list whose values are all `x`, such as [7] or [2, 2, 2, 2], has `x` as both its mean and its median. |
| `FunctionPractice.SampleMean` | function_practice.py:3-8 | The sample call `get_mean(x)` with `x = [0, ..., 9]` gives 4.5. |
| `FunctionPractice.SampleMedian` | function_practice.py:22-30 | The sample call `get_median(x)` gives (4 + 5) / 2 = 4.5. |
| `FunctionPractice.UnsortedOddExample` | function_practice.py:22-28 | The median of the unsorted list [5, 3, 1] is 3, the middle of its sorted copy [1, 3, 5]. |
| `FunctionPractice.SumRange` | function_practice.py:3 | Twice the sum of `list(range(0, n, 1))` is n * (n - 1). |
| `Sorting.Sort` | function_practice.py:22 | `sorted(data)` is ascending and holds exactly the elements of `data`, each as often as `data` does. |
| `Sorting.InsertionSort` | function_practice.py:22 | Insertion sort produces an ascending permutation of its input, so a sorted copy always exists. |
| `Sorting.InsertionSortIsSort` | function_practice.py:22 | Insertion sort returns exactly the specified sorted copy `Sort(data)`. |
| `Sorting.SortIsUnique` | function_practice.py:22 | Every ascending permutation of the input is equal to `Sort(data)`, so the sorting algorithm does not matter. |
| `Sorting.SortPermutation` | function_practice.py:22 | Lists with the same elements have the same sorted copy. |
| `Sequences.SumPermutation` | function_practice.py:6 | `sum` does not depend on the order of the elements. |
| `Sequences.CountPermutation` | function_practice.py:22 | Counting the elements that satisfy a predicate does not depend on their order. |
| `Sequences.SumDeviations` | function_practice.py:6 | The deviations `data[i] - c` from any centre `c` add up to `sum(data) - len(data) * c`. |
| `Sequences.SumBounds` | function_practice.py:6 | If each of the n terms lies between lo and hi, the sum lies between n * lo and n * hi. |
| `Sequences.AverageBounds` | function_practice.py:6 | If each element lies between lo and hi, then `sum(data) / len(data)` does too. |

## Left out

- Python's int/float distinction and IEEE rounding of `/`: values are exact reals, so the model has no rounding or overflow.
- Timsort and sort stability: `sorted` is specified only by its result. Stability cannot be observed on plain numbers.
- Non-numeric list elements and the TypeError they would raise: Dafny's types rule them out.
- NaN and infinities: reals have neither, so `sorted` always has an ascending result here.
- The module-level calls `get_mean(x)` and `get_median(x)` discard their results. They appear only as the lemmas `SampleMean` and `SampleMedian`, not as program behaviour.
- `GetMedian` is a ghost function, because its sorted copy is given by the specification of `sorted` rather than computed. `InsertionSort` is the computable sort, and `InsertionSortIsSort` proves that it gives the same copy.
