/** Small shared vocabulary: optional values, results and order-preserving
    filtering. */
module Basics {

  datatype Option<+T> = None | Some(value: T)

  datatype Result<+R, +E> = Success(value: R) | Failure(error: E)

  /** `r` is `s` with some elements left out and the rest in their original
      order: `idx` names, for each element of `r`, where it sits in `s`. */
  ghost predicate SubsequenceAt<T>(r: seq<T>, s: seq<T>, idx: seq<int>)
  {
    && |idx| == |r|
    && (forall j :: 0 <= j < |idx| ==> 0 <= idx[j] < |s| && r[j] == s[idx[j]])
    && (forall i, j :: 0 <= i < j < |idx| ==> idx[i] < idx[j])
  }

  ghost predicate Subsequence<T>(r: seq<T>, s: seq<T>)
  {
    exists idx :: SubsequenceAt(r, s, idx)
  }

  /** The elements of `s` that satisfy `keep`, in the order of `s`
      (a list comprehension with an `if`, or a loop that appends). */
  function Select<T(!new)>(s: seq<T>, keep: T -> bool): (r: seq<T>)
    ensures |r| <= |s|
    ensures forall x :: x in r <==> x in s && keep(x)
  {
    if s == [] then []
    else
      var init, last := s[..|s| - 1], s[|s| - 1];
      assert s == init + [last];
      Select(init, keep) + (if keep(last) then [last] else [])
  }

  lemma SelectSnoc<T(!new)>(s: seq<T>, x: T, keep: T -> bool)
    ensures Select(s + [x], keep) == Select(s, keep) + (if keep(x) then [x] else [])
  {
    assert (s + [x])[..|s|] == s;
  }

  /** Nothing is kept when no element qualifies. */
  lemma {:induction false} SelectNone<T(!new)>(s: seq<T>, keep: T -> bool)
    requires forall x :: x in s ==> !keep(x)
    ensures Select(s, keep) == []
  {
    if s != [] {
      SelectNone(s[..|s| - 1], keep);
      assert s[|s| - 1] in s;
    }
  }

  /** Every kept value keeps all its occurrences; no other value remains. */
  lemma {:induction false} SelectCounts<T(!new)>(s: seq<T>, keep: T -> bool)
    ensures forall x :: keep(x) ==> multiset(Select(s, keep))[x] == multiset(s)[x]
    ensures forall x :: !keep(x) ==> multiset(Select(s, keep))[x] == 0
  {
    if s != [] {
      var init, last := s[..|s| - 1], s[|s| - 1];
      assert s == init + [last];
      SelectCounts(init, keep);
      SelectSnoc(init, last, keep);
    }
  }

  /** Indices of the kept elements, in increasing order. */
  function SelectedIndices<T>(s: seq<T>, keep: T -> bool): seq<int>
  {
    if s == [] then []
    else
      SelectedIndices(s[..|s| - 1], keep) + (if keep(s[|s| - 1]) then [|s| - 1] else [])
  }

  lemma {:induction false} SelectIsSubsequence<T(!new)>(s: seq<T>, keep: T -> bool)
    ensures SubsequenceAt(Select(s, keep), s, SelectedIndices(s, keep))
    ensures Subsequence(Select(s, keep), s)
  {
    if s != [] {
      var init := s[..|s| - 1];
      assert s == init + [s[|s| - 1]];
      SelectIsSubsequence(init, keep);
      var idx := SelectedIndices(init, keep);
      assert forall j :: 0 <= j < |idx| ==> idx[j] < |init|;
    }
    assert SubsequenceAt(Select(s, keep), s, SelectedIndices(s, keep));
  }
}
