/**
 LINQ-style query operators over an ordered sequence: element selection
 (Single, First, IndexOfFirst), filtering (Any, Where, Count), projection
 (Select) and deduplication (Distinct). Every operator is eager and leaves
 its source sequence untouched; the caller's callbacks are total functions.

 The operators whose source builds its result with a loop are methods, each
 proved against a specification function (FirstMatch, FirstIndex, Filter,
 Dedup) whose properties are proved as lemmas below; Single, Any and Count
 are expressions in the source and are functions here.
 */
module Linq {
  import opened Wrappers

  // ---------------------------------------------------------------------
  // Subsequences
  // ---------------------------------------------------------------------

  /** r can be obtained from s by deleting elements, keeping the order of the rest. */
  ghost predicate Subseq<T>(r: seq<T>, s: seq<T>)
    decreases |s|
  {
    |r| == 0 ||
    (|s| > 0 &&
     ((r[|r| - 1] == s[|s| - 1] && Subseq(r[..|r| - 1], s[..|s| - 1])) ||
      Subseq(r, s[..|s| - 1])))
  }

  lemma {:induction false} SubseqMembers<T>(r: seq<T>, s: seq<T>)
    requires Subseq(r, s)
    ensures forall x :: x in r ==> x in s
    decreases |s|
  {
    if |r| > 0 {
      var r', s' := r[..|r| - 1], s[..|s| - 1];
      if r[|r| - 1] == s[|s| - 1] && Subseq(r', s') {
        SubseqMembers(r', s');
        assert r == r' + [r[|r| - 1]];
        assert s == s' + [s[|s| - 1]];
      } else {
        SubseqMembers(r, s');
        assert s == s' + [s[|s| - 1]];
      }
    }
  }

  // ---------------------------------------------------------------------
  // single
  // ---------------------------------------------------------------------

  const NoItemsMessage := "Collection has no items."
  const MoreThanOneMessage := "Collection has more than one item."

  /** The sole element of s; the two thrown messages become Failure values. */
  function Single<T>(s: seq<T>): (r: Result<T, string>)
    ensures r.Success? <==> |s| == 1
    ensures r.Success? ==> s == [r.value]
    ensures |s| == 0 ==> r == Failure(NoItemsMessage)
    ensures |s| > 1 ==> r == Failure(MoreThanOneMessage)
  {
    if |s| == 1 then
      Success(s[0])
    else if |s| == 0 then
      Failure(NoItemsMessage)
    else
      Failure(MoreThanOneMessage)
  }

  // ---------------------------------------------------------------------
  // indexOfFirst
  // ---------------------------------------------------------------------

  /** The least index whose element satisfies p, or -1 when no element does. */
  function FirstIndex<T>(s: seq<T>, p: T -> bool): (r: int)
    ensures -1 <= r < |s|
    ensures 0 <= r ==> p(s[r])
    ensures forall j :: 0 <= j < |s| && (r < 0 || j < r) ==> !p(s[j])
    decreases |s|
  {
    if |s| == 0 then
      -1
    else if p(s[0]) then
      0
    else
      var k := FirstIndex(s[1..], p);
      assert forall j :: 1 <= j < |s| ==> s[j] == s[1..][j - 1];
      if k < 0 then -1 else k + 1
  }

  /** The search loop of indexOfFirst: it stops one step after the first match. */
  method IndexOfFirst<T>(s: seq<T>, p: T -> bool) returns (result: int)
    ensures result == FirstIndex(s, p)
  {
    result := -1;
    var n := 0;
    while result < 0 && n < |s|
      invariant 0 <= n <= |s|
      invariant result < 0 ==> result == -1 && forall j :: 0 <= j < n ==> !p(s[j])
      invariant 0 <= result ==> result == n - 1 && p(s[result])
      invariant 0 <= result ==> forall j :: 0 <= j < result ==> !p(s[j])
      decreases |s| - n
    {
      if p(s[n]) {
        result := n;
      }
      n := n + 1;
    }
  }

  // ---------------------------------------------------------------------
  // first and any
  // ---------------------------------------------------------------------

  /** The earliest element satisfying p, or None; the specification of First. */
  function FirstMatch<T>(s: seq<T>, p: T -> bool): (r: Option<T>)
    ensures r.Some? ==> r.value in s && p(r.value)
    ensures r.None? ==> forall i :: 0 <= i < |s| ==> !p(s[i])
    decreases |s|
  {
    if |s| == 0 then None
    else if p(s[0]) then Some(s[0])
    else FirstMatch(s[1..], p)
  }

  /** first and indexOfFirst agree: the element First returns sits at FirstIndex. */
  lemma {:induction false} FirstMatchAtFirstIndex<T>(s: seq<T>, p: T -> bool)
    ensures FirstMatch(s, p) == if FirstIndex(s, p) < 0 then None else Some(s[FirstIndex(s, p)])
    decreases |s|
  {
    if |s| > 0 && !p(s[0]) {
      FirstMatchAtFirstIndex(s[1..], p);
    }
  }

  /** What First promises its caller, in terms of the positions of s. */
  lemma {:induction false} FirstMatchMeaning<T>(s: seq<T>, p: T -> bool)
    ensures FirstMatch(s, p).None? <==> forall i :: 0 <= i < |s| ==> !p(s[i])
    ensures FirstMatch(s, p).Some? ==>
              exists k :: 0 <= k < |s| && s[k] == FirstMatch(s, p).value && p(s[k]) &&
                          forall j :: 0 <= j < k ==> !p(s[j])
  {
    FirstMatchAtFirstIndex(s, p);
    var k := FirstIndex(s, p);
    if 0 <= k {
      assert s[k] == FirstMatch(s, p).value && p(s[k]);
    }
  }

  /** The early-return loop of first over a predicate. */
  method First<T>(s: seq<T>, p: T -> bool) returns (r: Option<T>)
    ensures r == FirstMatch(s, p)
  {
    for i := 0 to |s|
      invariant FirstMatch(s[i..], p) == FirstMatch(s, p)
    {
      if p(s[i]) {
        return Some(s[i]);
      }
      assert s[i..][1..] == s[i + 1..];
    }
    return None;
  }

  /** any(p) is first(p) != null: true exactly when some element satisfies p. */
  function Any<T>(s: seq<T>, p: T -> bool): (b: bool)
    ensures b <==> exists i :: 0 <= i < |s| && p(s[i])
    ensures |s| == 0 ==> !b
  {
    FirstMatchMeaning(s, p);
    FirstMatch(s, p).Some?
  }

  // ---------------------------------------------------------------------
  // select
  // ---------------------------------------------------------------------

  /** The projection loop of select. */
  method Select<T, R>(s: seq<T>, f: T -> R) returns (result: seq<R>)
    ensures |result| == |s|
    ensures forall i :: 0 <= i < |s| ==> result[i] == f(s[i])
  {
    result := [];
    for i := 0 to |s|
      invariant |result| == i
      invariant forall k :: 0 <= k < i ==> result[k] == f(s[k])
    {
      result := result + [f(s[i])];
    }
  }

  // ---------------------------------------------------------------------
  // where and count
  // ---------------------------------------------------------------------

  /** The elements of s satisfying p, in their order in s; the specification of Where. */
  function Filter<T>(s: seq<T>, p: T -> bool): (r: seq<T>)
    ensures |r| <= |s|
    decreases |s|
  {
    if |s| == 0 then
      []
    else
      var r := Filter(s[..|s| - 1], p);
      if p(s[|s| - 1]) then r + [s[|s| - 1]] else r
  }

  /** The positions of s whose element satisfies p. */
  ghost function MatchingIndices<T>(s: seq<T>, p: T -> bool): (m: set<int>)
  {
    set i | 0 <= i < |s| && p(s[i])
  }

  /** The filtering loop of where. */
  method Where<T>(s: seq<T>, p: T -> bool) returns (result: seq<T>)
    ensures result == Filter(s, p)
  {
    result := [];
    for i := 0 to |s|
      invariant result == Filter(s[..i], p)
    {
      assert s[..i + 1][..i] == s[..i];
      if p(s[i]) {
        result := result + [s[i]];
      }
    }
    assert s[..|s|] == s;
  }

  /** The result of where holds exactly the elements of s that satisfy p. */
  lemma {:induction false} FilterMembers<T>(s: seq<T>, p: T -> bool)
    ensures forall x :: x in Filter(s, p) ==> x in s && p(x)
    ensures forall x :: x in s && p(x) ==> x in Filter(s, p)
    decreases |s|
  {
    if |s| > 0 {
      var s' := s[..|s| - 1];
      FilterMembers(s', p);
      assert s == s' + [s[|s| - 1]];
    }
  }

  /** The result of where keeps the source order: it is a subsequence of s. */
  lemma {:induction false} FilterSubsequence<T>(s: seq<T>, p: T -> bool)
    ensures Subseq(Filter(s, p), s)
    decreases |s|
  {
    if |s| > 0 {
      var s' := s[..|s| - 1];
      FilterSubsequence(s', p);
      var r := Filter(s', p);
      if p(s[|s| - 1]) {
        assert (r + [s[|s| - 1]])[..|r|] == r;
      }
    }
  }

  /** where drops exactly the non-matching positions: its length counts the matching ones. */
  lemma {:induction false} FilterCountsMatches<T>(s: seq<T>, p: T -> bool)
    ensures |Filter(s, p)| == |MatchingIndices(s, p)|
    decreases |s|
  {
    if |s| > 0 {
      var n := |s| - 1;
      var s' := s[..n];
      FilterCountsMatches(s', p);
      var before := MatchingIndices(s', p);
      assert n !in before;
      if p(s[n]) {
        assert MatchingIndices(s, p) == before + {n};
      } else {
        assert MatchingIndices(s, p) == before;
      }
    }
  }

  /** where returns its source unchanged when every element already satisfies p. */
  lemma {:induction false} FilterKeepsAll<T>(s: seq<T>, p: T -> bool)
    requires forall i :: 0 <= i < |s| ==> p(s[i])
    ensures Filter(s, p) == s
    decreases |s|
  {
    if |s| > 0 {
      var s' := s[..|s| - 1];
      FilterKeepsAll(s', p);
      assert s == s' + [s[|s| - 1]];
    }
  }

  /** Filtering twice by the same predicate is filtering once. */
  lemma {:induction false} FilterIdempotent<T>(s: seq<T>, p: T -> bool)
    ensures Filter(Filter(s, p), p) == Filter(s, p)
  {
    var r := Filter(s, p);
    FilterMembers(s, p);
    forall i | 0 <= i < |r|
      ensures p(r[i])
    {
      assert r[i] in Filter(s, p);
    }
    FilterKeepsAll(r, p);
  }

  /** count(): the length; count(p): the length of where(p), that is, the number of matches. */
  function Count<T>(s: seq<T>, p: Option<T -> bool>): (n: nat)
    ensures p.None? ==> n == |s|
    ensures p.Some? ==> n == |MatchingIndices(s, p.value)|
    ensures n <= |s|
  {
    match p
    case None => |s|
    case Some(q) =>
      FilterCountsMatches(s, q);
      |Filter(s, q)|
  }

  /** Counting the result of where, with or without the same predicate, is counting with it. */
  lemma {:induction false} CountOfWhere<T>(s: seq<T>, p: T -> bool)
    ensures Count(Filter(s, p), None) == Count(s, Some(p))
    ensures Count(Filter(s, p), Some(p)) == Count(s, Some(p))
  {
    FilterIdempotent(s, p);
    FilterCountsMatches(Filter(s, p), p);
    FilterCountsMatches(s, p);
  }

  /** any(p) holds exactly when count(p) is positive. */
  lemma AnyIffCountPositive<T>(s: seq<T>, p: T -> bool)
    ensures Any(s, p) <==> Count(s, Some(p)) > 0
  {
    if Any(s, p) {
      var i :| 0 <= i < |s| && p(s[i]);
      assert i in MatchingIndices(s, p);
    }
  }

  // ---------------------------------------------------------------------
  // distinct
  // ---------------------------------------------------------------------

  /** The comparison distinct uses: the caller's relation, or strict equality when there is none. */
  predicate Equal<T(==)>(eq: Option<(T, T) -> bool>, a: T, b: T)
  {
    match eq
    case None => a == b
    case Some(e) => e(a, b)
  }

  /** distinct accepts x when no accepted element equals it, x being the first argument. */
  predicate Accepts<T(==)>(accepted: seq<T>, x: T, eq: Option<(T, T) -> bool>)
  {
    forall i :: 0 <= i < |accepted| ==> !Equal(eq, x, accepted[i])
  }

  /** The elements distinct accepts, in the order it accepts them; the specification of Distinct. */
  function Dedup<T(==)>(s: seq<T>, eq: Option<(T, T) -> bool>): (r: seq<T>)
    ensures |r| <= |s|
    decreases |s|
  {
    if |s| == 0 then
      []
    else
      var d := Dedup(s[..|s| - 1], eq);
      if Accepts(d, s[|s| - 1], eq) then d + [s[|s| - 1]] else d
  }

  /** The accumulating loop of distinct: with a relation it asks any, without one indexOf. */
  method Distinct<T(==)>(s: seq<T>, eq: Option<(T, T) -> bool>) returns (result: seq<T>)
    ensures result == Dedup(s, eq)
  {
    result := [];
    for i := 0 to |s|
      invariant result == Dedup(s[..i], eq)
    {
      var x := s[i];
      var accept: bool;
      match eq {
        case Some(e) =>
          accept := !Any(result, y => e(x, y));
        case None =>
          var k := IndexOfFirst(result, y => y == x);
          accept := k < 0;
      }
      assert accept == Accepts(result, x, eq);
      assert s[..i + 1][..i] == s[..i];
      if accept {
        result := result + [x];
      }
    }
    assert s[..|s|] == s;
  }

  /** distinct keeps the source order: its result is a subsequence of s. */
  lemma {:induction false} DedupSubsequence<T>(s: seq<T>, eq: Option<(T, T) -> bool>)
    ensures Subseq(Dedup(s, eq), s)
    decreases |s|
  {
    if |s| > 0 {
      var s' := s[..|s| - 1];
      DedupSubsequence(s', eq);
      var d := Dedup(s', eq);
      if Accepts(d, s[|s| - 1], eq) {
        assert (d + [s[|s| - 1]])[..|d|] == d;
      }
    }
  }

  /** No accepted element equals (as the first argument) one accepted before it. */
  lemma {:induction false} DedupNoEarlierEqual<T>(s: seq<T>, eq: Option<(T, T) -> bool>)
    ensures forall i, j :: 0 <= i < j < |Dedup(s, eq)| ==> !Equal(eq, Dedup(s, eq)[j], Dedup(s, eq)[i])
    decreases |s|
  {
    if |s| > 0 {
      DedupNoEarlierEqual(s[..|s| - 1], eq);
    }
  }

  /** One step of distinct: the candidate s[k] is appended exactly when Accepts says so. */
  lemma DedupStep<T>(s: seq<T>, eq: Option<(T, T) -> bool>, k: nat)
    requires k < |s|
    ensures Dedup(s[..k + 1], eq) ==
            if Accepts(Dedup(s[..k], eq), s[k], eq) then Dedup(s[..k], eq) + [s[k]] else Dedup(s[..k], eq)
  {
    assert s[..k + 1][..k] == s[..k];
  }

  /** A candidate is kept exactly when no element accepted before it equals it (candidate first). */
  lemma DedupKeepsUnmatched<T>(s: seq<T>, eq: Option<(T, T) -> bool>, k: nat)
    requires k < |s|
    ensures (forall y :: y in Dedup(s[..k], eq) ==> !Equal(eq, s[k], y)) ==>
              Dedup(s[..k + 1], eq) == Dedup(s[..k], eq) + [s[k]]
    ensures (exists y :: y in Dedup(s[..k], eq) && Equal(eq, s[k], y)) ==>
              Dedup(s[..k + 1], eq) == Dedup(s[..k], eq)
  {
    DedupStep(s, eq, k);
    var d := Dedup(s[..k], eq);
    if !Accepts(d, s[k], eq) {
      var i :| 0 <= i < |d| && Equal(eq, s[k], d[i]);
      assert d[i] in d;
    }
  }

  /** When distinct reaches s[k], it appends it or rejects it for an element accepted before it. */
  ghost predicate AppendedOrMatched<T>(s: seq<T>, eq: Option<(T, T) -> bool>, k: nat)
    requires k < |s|
  {
    Dedup(s[..k + 1], eq) == Dedup(s[..k], eq) + [s[k]] ||
    exists y :: y in Dedup(s[..k], eq) && Equal(eq, s[k], y)
  }

  /** Every source element is appended when reached, or equals (as the first argument) an element accepted before it. */
  lemma DedupCovers<T>(s: seq<T>, eq: Option<(T, T) -> bool>)
    ensures forall k: nat :: k < |s| ==> AppendedOrMatched(s, eq, k)
  {
    forall k: nat | k < |s|
      ensures AppendedOrMatched(s, eq, k)
    {
      DedupKeepsUnmatched(s, eq, k);
    }
  }

  /** distinct returns its source unchanged when no element equals (as the first argument) an earlier one. */
  lemma {:induction false} DedupKeepsAll<T>(s: seq<T>, eq: Option<(T, T) -> bool>)
    requires forall i, j :: 0 <= j < i < |s| ==> !Equal(eq, s[i], s[j])
    ensures Dedup(s, eq) == s
    decreases |s|
  {
    if |s| > 0 {
      var s' := s[..|s| - 1];
      DedupKeepsAll(s', eq);
      assert Accepts(s', s[|s| - 1], eq);
      assert s == s' + [s[|s| - 1]];
    }
  }

  /** distinct is online: the result for a prefix of s is a prefix of the result for s. */
  lemma {:induction false} DedupPrefix<T>(s: seq<T>, eq: Option<(T, T) -> bool>, k: nat)
    requires k <= |s|
    ensures Dedup(s[..k], eq) <= Dedup(s, eq)
    decreases |s|
  {
    if k < |s| {
      var s' := s[..|s| - 1];
      assert s'[..k] == s[..k];
      DedupPrefix(s', eq, k);
    } else {
      assert s[..k] == s;
    }
  }

  /** With the default identity comparison: the same elements as s, each exactly once. */
  lemma {:induction false} DedupByIdentity<T>(s: seq<T>)
    ensures forall x :: x in Dedup(s, None) <==> x in s
    ensures forall i, j :: 0 <= i < j < |Dedup(s, None)| ==> Dedup(s, None)[i] != Dedup(s, None)[j]
  {
    var r := Dedup(s, None);
    DedupSubsequence(s, None);
    SubseqMembers(r, s);
    DedupCovers(s, None);
    forall x | x in s
      ensures x in r
    {
      var k :| 0 <= k < |s| && s[k] == x;
      DedupPrefix(s, None, k);
      DedupPrefix(s, None, k + 1);
      var d := Dedup(s[..k], None);
      assert AppendedOrMatched(s, None, k);
      if d + [x] == Dedup(s[..k + 1], None) {
        assert x == r[|d|];
      } else {
        var y :| y in d && Equal(None, x, y);
        assert y in r;
      }
    }
    DedupNoEarlierEqual(s, None);
  }

  /** With the default identity comparison, a first occurrence s[k] is always appended. */
  lemma FirstOccurrenceKept<T>(s: seq<T>, k: nat)
    requires k < |s| && s[k] !in s[..k]
    ensures Dedup(s[..k + 1], None) == Dedup(s[..k], None) + [s[k]]
  {
    DedupSubsequence(s[..k], None);
    SubseqMembers(Dedup(s[..k], None), s[..k]);
    DedupKeepsUnmatched(s, None, k);
  }

  /** With the default identity comparison, values appear in the order of their first occurrence in s. */
  lemma DedupFirstOccurrenceOrder<T>(s: seq<T>, i: nat, j: nat)
    requires i < j < |s|
    requires s[i] !in s[..i] && s[j] !in s[..j]
    ensures exists a, b :: 0 <= a < b < |Dedup(s, None)| &&
                           Dedup(s, None)[a] == s[i] && Dedup(s, None)[b] == s[j]
  {
    var r := Dedup(s, None);
    var di := Dedup(s[..i], None);
    var dj := Dedup(s[..j], None);
    FirstOccurrenceKept(s, i);
    FirstOccurrenceKept(s, j);
    assert s[..j][..i + 1] == s[..i + 1];
    DedupPrefix(s[..j], None, i + 1);
    DedupPrefix(s, None, i + 1);
    DedupPrefix(s, None, j + 1);
    assert |di| < |dj|;
    assert r[|di|] == s[i] && r[|dj|] == s[j];
  }

  /** A repeated element is dropped and the first occurrences keep their order. */
  lemma DedupExample<T>(a: T, b: T)
    requires a != b
    ensures Dedup([a, b, a], None) == [a, b]
  {
    assert [a][..0] == [];
    assert Dedup([a], None) == [a];
    assert [a, b][..1] == [a];
    assert Dedup([a, b], None) == [a, b];
    assert [a, b, a][..2] == [a, b];
    assert !Accepts([a, b], a, None) by {
      assert [a, b][0] == a;
    }
  }

  /** With a relation that never holds, a repeated value is kept every time. */
  lemma DedupNeverEqualExample<T>(a: T)
    ensures Dedup([a, a], Some((x: T, y: T) => false)) == [a, a]
  {
    DedupKeepsAll([a, a], Some((x: T, y: T) => false));
  }
}
