# Squash — a Dafny model of MoreLinq's Squash operator

MoreLinq's `Squash` takes a sequence and removes runs of consecutive elements
whose keys compare equal, keeping the first element of each run. It holds one
pending element, starting with the first element of the source. Each later
element is compared with the pending element, in the order
`comparer(key(pending), key(current))`. If the keys differ, the pending
element is yielded and the current element becomes pending. If they are equal,
the current element is dropped. When the source is exhausted, the pending
element is yielded.

The model has two modules:

- `Squash` (`squash.dfy`) holds the following:
  - `SquashFrom` and `Squashed`, the recursive specification of the iterator.
  - `Iterate`, the iterator itself as a method with a `while` loop. It holds
    the pending element `prev` and builds the output by appending. It is
    proved equal to `Squashed`.
  - The three public overloads, with their null checks (`SquashBy`,
    `SquashByKey`, `SquashDefault`).
  - The lemmas about them.
- `SquashExamples` (`squash_examples.dfy`) holds concrete runs. One of them
  uses a comparer that is not transitive. There, comparing against the
  pending run head gives a different answer than comparing against the
  previous input element would.

The key selector is a total function `T -> K`. The comparer is any
`(K, K) -> bool`. Nothing assumes the comparer is reflexive, symmetric or
transitive. A null argument is `Option.None`. A null comparer becomes
`Equal`, Dafny's `==` on keys.

## Model

| member | source | states |
|---|---|---|
| `Squash.Equal` | MoreLinq/Squash.cs:51 | default equality on keys, Dafny's `==` |
| `Squash.Identity` | MoreLinq/Squash.cs:17 | the identity key selector of the one-argument overload |
| `Squash.SquashFrom` | MoreLinq/Squash.cs:60-69 | while `pending` is held and `rest` is unread, the output is non-empty, starts with the pending element, and holds at most one element more than `rest` |
| `Squash.Squashed` | MoreLinq/Squash.cs:57-69 | the output for a non-empty source is non-empty, no longer than the source, and starts with the source's first element |
| `Squash.LastRunHead` | MoreLinq/Squash.cs:57-69 | gives the index of the element still pending at the end; every later element has a key that compares equal to its key |
| `Squash.LastRunHeadIsHead` | MoreLinq/Squash.cs:62-65 | the element at `LastRunHead` is a run head: unless it is the first element, its key does not compare equal to the key of the element pending just before it, so it replaced that element |
| `Squash.Iterate` | MoreLinq/Squash.cs:53-71 | the loop with the pending `prev` yields exactly `Squashed(source, keySelector, comparer)` |
| `Squash.Comparer` | MoreLinq/Squash.cs:51 | a null comparer becomes default equality; a non-null comparer is used as given |
| `Squash.SquashBy` | MoreLinq/Squash.cs:45-72 | a null source gives `ArgumentNull("source")`; otherwise a null key selector gives `ArgumentNull("keySelector")`; otherwise the result is the squashed source, and no two adjacent output elements compare equal |
| `Squash.SquashByKey` | MoreLinq/Squash.cs:30-31 | same error cases as the three-argument overload; on success the result is squashed with default equality on keys, so no two adjacent output elements have equal keys |
| `Squash.SquashDefault` | MoreLinq/Squash.cs:17 | a null source gives `ArgumentNull("source")`; otherwise the result is squashed with the identity key and default equality, so no two adjacent output elements are equal |
| `Squash.SquashFromNoAdjacentEqual` | MoreLinq/Squash.cs:62-65 | from any pending state, the output has no neighbours `a, b` with `eq(key(a), key(b))`, for any comparer |
| `Squash.SquashNoAdjacentEqual` | MoreLinq/Squash.cs:62-65 | the output of Squash has no neighbours `a, b` with `eq(key(a), key(b))`, for any comparer |
| `Squash.SquashFromSubsequence` | MoreLinq/Squash.cs:60-69 | everything yielded after the pending element is an order-preserving subsequence of the unread elements |
| `Squash.SquashSubsequence` | MoreLinq/Squash.cs:60-69 | the output is an order-preserving subsequence of the source |
| `Squash.SquashFromKeepsAll` | MoreLinq/Squash.cs:60-69 | from a pending state, no element is dropped exactly when no two neighbours of pending-then-rest compare equal (both directions) |
| `Squash.SquashIdentityIff` | MoreLinq/Squash.cs:60-69 | the output equals the source, and equivalently has the same length, exactly when no two neighbouring source elements compare equal |
| `Squash.SquashIdempotent` | MoreLinq/Squash.cs:62-69 | squashing the output again with the same key and comparer changes nothing |
| `Squash.SquashFromAppend` | MoreLinq/Squash.cs:62-65 | one more element `x` is dropped exactly when its key compares equal to the key of the last element yielded so far, the pending run head; otherwise it is appended |
| `Squash.SquashAppend` | MoreLinq/Squash.cs:62-65 | `Squashed(s + [x])` is `Squashed(s)` when `eq(key(last of Squashed(s)), key(x))`, and `Squashed(s) + [x]` otherwise |
| `Squash.SquashFirstLast` | MoreLinq/Squash.cs:57-69 | the output starts with the source's first element and ends with the element at `LastRunHead`, the head of the last run |
| `SquashExamples.Singleton` | MoreLinq/Squash.cs:57-69 | `[5]` squashes to `[5]` |
| `SquashExamples.Runs` | MoreLinq/Squash.cs:60-69 | `[1,1,2,2,2,3,1]` squashes to `[1,2,3,1]` |
| `SquashExamples.NonAdjacentRepeatKept` | MoreLinq/Squash.cs:60-69 | `[1,2,1]` squashes to itself |
| `SquashExamples.ParityKeys` | MoreLinq/Squash.cs:60-69 | with key `x % 2`, `[1,2,3]` squashes to itself |
| `SquashExamples.CaseInsensitive` | MoreLinq/Squash.cs:60-69 | with a case-insensitive comparer, `["a","A","b"]` squashes to `["a","b"]` |
| `SquashExamples.ComparesWithRunHead` | MoreLinq/Squash.cs:62 | with a non-transitive "within one" comparer, `[1,2,3]` squashes to `[1,3]`: 3 is compared with the pending 1, not with the dropped 2 |

## Left out

- Deferred execution and streaming (`yield return`). The model computes the whole output eagerly as a `seq`. It does not capture that the null checks run at call time while enumeration waits for the consumer. The model states the null checks first, as separate error results.
- The `using` block and `Dispose` of the enumerator. This is resource cleanup, with no effect on the output.
- Empty source. The iterator calls `MoveNext()` once and ignores its result, then reads `Current`. With an empty source, the outcome depends on the enumerator: it may throw `InvalidOperationException` or yield a default value. So an empty source does not reliably raise `InvalidOperationException`. The model therefore requires a non-empty source once both null checks have passed.
- Exceptions thrown by the caller's key selector or comparer. Both are modelled as total functions.
- Infinite sources and single-pass sources. Sources are finite `seq`s.
- `EqualityComparer<TKey>.Default` is modelled as Dafny's `==` on keys. User-defined `Equals` overrides on key types are not modelled. Any such comparer can still be passed explicitly as the comparer argument.
- SquashExamples.ParityKeys: uses Dafny's `%`, which agrees with C#'s remainder only for the non-negative inputs used there.
