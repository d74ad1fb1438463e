# TypeScript-Linq query operators in Dafny

This project models the query operators that `app/linq.ts` adds to the
JavaScript array type: `single`, `first`, `indexOfFirst`, `any`, `select`,
`where`, `distinct` and `count`. Each one is eager. None of them changes its
source array. Here they are free functions and methods over `seq<T>` in the
module `Linq` (`linq.dfy`), not extensions of a built-in type. The module
`Wrappers` (`wrappers.dfy`) holds `Option` and `Result`:

- `Option` stands for the `null` that `first` returns when nothing matches.
- `Result` stands for the strings `single` throws. They are the constants
  `NoItemsMessage` and `MoreThanOneMessage`, with the exact source text.

The caller's callbacks are total Dafny functions: `T -> bool`, `T -> R` and
`(T, T) -> bool`.

How the operators take form:

- Loops become methods. `indexOfFirst` runs a `while` loop over `result` and
  `n`. `first` is an early-return loop. `select`, `where` and `distinct` push
  onto a local array. Each method is proved against a specification function
  (`FirstIndex`, `FirstMatch`, `Filter`, `Dedup`) or against a direct
  postcondition (`Select`). The lemmas then state what the source promises
  about those functions.
- `single`, `any` and `count` are expressions in the source, so they are
  functions here.
- `any` calls `first` and `count` calls `where`. A function cannot call a
  method, so `Any` and `Count` use the specification functions of those two.
- `distinct` asks `any` (given a relation) or `indexOf` (given none) for each
  candidate. `Linq.Distinct` does the same: it calls `Any` or `IndexOfFirst`.
- The relation is applied as `e(candidate, accepted)`, in the order of
  `app/linq.ts:83`.
- The default comparison is the `===` used by `indexOf` (`app/linq.ts:85`).
  The model uses Dafny's `==` on an element type with equality instead. For
  class types that is reference identity, as `===` is on objects; for
  datatypes it is value equality. Unlike `===` on `NaN`, `==` always holds
  between a value and itself (see "Left out").
- The optional predicate of `count` and the optional relation of `distinct`
  are `Option` parameters, because the code tests for them (`app/linq.ts:82`,
  `:98`).

The tests in `tests/linq-test.ts:18-49` call a `remove` operator, but the
interface at `app/linq.ts:6-17` does not declare it and nothing implements it.
This model follows the code (see "Left out").

## Model

| member | source | states |
|---|---|---|
| `Linq.Single` | TypeScript-Linq/src/TypeScript-Linq/app/linq.ts:20-30 | succeeds exactly when the length is 1, and then the sequence is the one-element sequence of the result; fails with "Collection has no items." on an empty sequence and with "Collection has more than one item." when there are several |
| `Linq.FirstIndex` | TypeScript-Linq/src/TypeScript-Linq/app/linq.ts:44-54 | the result lies in [-1, length); a non-negative result indexes an element satisfying p; every index before it (every index when it is -1) fails p |
| `Linq.IndexOfFirst` | TypeScript-Linq/src/TypeScript-Linq/app/linq.ts:44-54 | the while loop that stops once `result` is set returns exactly FirstIndex: the least matching index, or -1 |
| `Linq.First` | TypeScript-Linq/src/TypeScript-Linq/app/linq.ts:36-41 | the early-return loop returns FirstMatch: the earliest element satisfying p, or None |
| `Linq.FirstMatch` | TypeScript-Linq/src/TypeScript-Linq/app/linq.ts:36-41 | the functional form of first, which Any uses for `this.first(lambda)`: a Some result is an element of s satisfying p, and None means no element satisfies p |
| `Linq.FirstMatchAtFirstIndex` | TypeScript-Linq/src/TypeScript-Linq/app/linq.ts:32-54 | first and indexOfFirst agree: first returns None exactly when indexOfFirst returns -1, and otherwise the element at that index |
| `Linq.FirstMatchMeaning` | TypeScript-Linq/src/TypeScript-Linq/app/linq.ts:36-41 | first returns None exactly when no element satisfies p (so on an empty sequence too); otherwise it returns an element at a position k that satisfies p, with no earlier position satisfying p |
| `Linq.Any` | TypeScript-Linq/src/TypeScript-Linq/app/linq.ts:56-58 | first(p) is not None exactly when some element satisfies p; false on an empty sequence |
| `Linq.Select` | TypeScript-Linq/src/TypeScript-Linq/app/linq.ts:60-66 | the result has the source's length and its i-th element is f applied to the i-th source element |
| `Linq.Filter` | TypeScript-Linq/src/TypeScript-Linq/app/linq.ts:68-76 | the result of where is no longer than the source |
| `Linq.Where` | TypeScript-Linq/src/TypeScript-Linq/app/linq.ts:68-76 | the push loop returns exactly Filter(s, p) |
| `Linq.FilterMembers` | TypeScript-Linq/src/TypeScript-Linq/app/linq.ts:70-74 | an element is in the result of where exactly when it is in the source and satisfies p |
| `Linq.FilterSubsequence` | TypeScript-Linq/src/TypeScript-Linq/app/linq.ts:70-74 | the result of where is a subsequence of the source, so relative order is kept |
| `Linq.FilterCountsMatches` | TypeScript-Linq/src/TypeScript-Linq/app/linq.ts:68-76 | the length of where(p) is the number of source positions whose element satisfies p |
| `Linq.FilterKeepsAll` | TypeScript-Linq/src/TypeScript-Linq/app/linq.ts:68-76 | when every element satisfies p, where returns the source unchanged |
| `Linq.FilterIdempotent` | TypeScript-Linq/src/TypeScript-Linq/app/linq.ts:68-76 | where(p) applied to where(p) gives where(p) again |
| `Linq.Count` | TypeScript-Linq/src/TypeScript-Linq/app/linq.ts:97-100 | without a predicate, the length; with one, the number of positions whose element satisfies it; never more than the length |
| `Linq.CountOfWhere` | TypeScript-Linq/src/TypeScript-Linq/app/linq.ts:97-100 | where(p).count() and where(p).count(p) both equal count(p) |
| `Linq.AnyIffCountPositive` | TypeScript-Linq/src/TypeScript-Linq/app/linq.ts:56-100 | any(p) holds exactly when count(p) is positive |
| `Linq.Dedup` | TypeScript-Linq/src/TypeScript-Linq/app/linq.ts:78-95 | the result of distinct is no longer than the source |
| `Linq.Distinct` | TypeScript-Linq/src/TypeScript-Linq/app/linq.ts:78-95 | the loop, which asks any (given a relation) or indexOf (given none) for each candidate, returns exactly Dedup(s, eq) |
| `Linq.DedupSubsequence` | TypeScript-Linq/src/TypeScript-Linq/app/linq.ts:88-94 | the result of distinct is a subsequence of the source |
| `Linq.DedupNoEarlierEqual` | TypeScript-Linq/src/TypeScript-Linq/app/linq.ts:82-91 | no element of the result is equal, as the relation's first argument, to an element accepted before it |
| `Linq.Equal` | TypeScript-Linq/src/TypeScript-Linq/app/linq.ts:82-86 | the comparison the `predicate` closure uses: the caller's relation applied as (candidate, accepted), or `==` when there is none |
| `Linq.Accepts` | TypeScript-Linq/src/TypeScript-Linq/app/linq.ts:82-86 | the `predicate` closure: a candidate passes when no accepted element equals it under Equal |
| `Linq.DedupKeepsUnmatched` | TypeScript-Linq/src/TypeScript-Linq/app/linq.ts:82-91 | when distinct reaches s[k], it appends s[k] if no element accepted so far equals it (candidate first), and otherwise leaves the accepted elements unchanged |
| `Linq.DedupCovers` | TypeScript-Linq/src/TypeScript-Linq/app/linq.ts:82-91 | every source element s[k] is appended when reached, or equals (as the relation's first argument) an element accepted before it, that is, in the result for s[..k] |
| `Linq.DedupKeepsAll` | TypeScript-Linq/src/TypeScript-Linq/app/linq.ts:82-91 | when no source element equals (as the first argument) an earlier one, distinct returns the source unchanged |
| `Linq.DedupPrefix` | TypeScript-Linq/src/TypeScript-Linq/app/linq.ts:88-94 | the result for any prefix of the source is a prefix of the result for the whole source |
| `Linq.DedupByIdentity` | TypeScript-Linq/src/TypeScript-Linq/app/linq.ts:84-85 | with the default comparison the result holds the same elements as the source, each exactly once; with DedupPrefix, first occurrences keep their order |
| `Linq.FirstOccurrenceKept` | TypeScript-Linq/src/TypeScript-Linq/app/linq.ts:84-91 | with the default comparison, the first occurrence of a value is always appended when it is reached |
| `Linq.DedupFirstOccurrenceOrder` | TypeScript-Linq/src/TypeScript-Linq/app/linq.ts:84-91 | with the default comparison, if the first occurrence of x comes before the first occurrence of y in s, then x comes before y in the result |
| `Linq.DedupExample` | TypeScript-Linq/src/TypeScript-Linq/app/linq.ts:84-92 | distinct() on [a, b, a] with a != b gives [a, b] |
| `Linq.DedupNeverEqualExample` | TypeScript-Linq/src/TypeScript-Linq/app/linq.ts:82-91 | with a relation that never holds, distinct on [a, a] keeps both copies |

## Left out

- `remove` is not modelled. `tests/linq-test.ts:18-49` calls it, but `app/linq.ts` neither declares nor implements it. There is no code for `aggregate`, `sum` or `groupBy` either.
- The `Array.prototype` assignments and the global interface augmentation (`app/linq.ts:6-17`) become plain functions and methods over sequences.
- `Linq.First`: the path with no predicate is not modelled, so the predicate is a required parameter. At `app/linq.ts:33` that path tests the free global `length` (not `this.length`), and otherwise it calls an undefined callback; what it does depends on the host environment.
- `Linq.Any`: for the same reason the predicate is required; `any` without one reaches only that path of `first`.
- `Linq.Select`: the mapper is a required parameter. The source declares it optional but calls it without a check (`app/linq.ts:63`).
- `Linq.IndexOfFirst`: the predicate is a required parameter. The source declares it optional but calls it without a check (`app/linq.ts:48`).
- Callbacks that throw are not modelled: the callbacks are total functions.
- JavaScript loose typing is not modelled: `!= null` coercion and `null` or `undefined` stored as an element. In the source, `any` is false when the first matching element is itself `null`. The model assumes elements are never `null`.
- Numbers are unbounded integers. Array indices never reach the limits of JavaScript numbers.
- `Linq.Distinct` and `Linq.Equal`: the default comparison assumes that every element equals itself. The source's `indexOf` compares with `===`, under which `NaN` is not equal to itself. So in the source `[NaN, NaN].distinct()` keeps both copies, while `Dedup(s, None)` would keep one. JavaScript numbers are not modelled.
