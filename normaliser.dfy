/** The sequence normaliser of `Tree#initialize`: `merge_sort(array).uniq!`. */
module Normaliser {
  import opened Optional
  import opened Sequences
  import opened MergeSort

  /** Ruby's `uniq`: the values of `s`, each kept once. */
  function Uniq(s: seq<int>): (r: seq<int>)
    ensures Distinct(r)
    ensures forall x :: x in r <==> x in s
    decreases |s|
  {
    if s == [] then
      []
    else
      var init, last := s[..|s| - 1], s[|s| - 1];
      assert s == init + [last];
      var u := Uniq(init);
      if last in u then u else u + [last]
  }

  /** Ruby's `uniq!`: the de-duplicated array, or `nil` when no element was removed. */
  function UniqBang(s: seq<int>): Option<seq<int>>
  {
    var u := Uniq(s);
    if u == s then None else Some(u)
  }

  /** `merge_sort(array).uniq!`, the value `Tree#initialize` stores as `@processed_array`. */
  ghost function Normalise(input: seq<int>): Option<seq<int>>
  {
    UniqBang(MergeSorted(input))
  }

  /** A duplicate-free sequence is its own `uniq`. */
  lemma {:induction false} UniqOfDistinct(s: seq<int>)
    requires Distinct(s)
    ensures Uniq(s) == s
    decreases |s|
  {
    if s != [] {
      var init, last := s[..|s| - 1], s[|s| - 1];
      assert s == init + [last];
      assert Distinct(init);
      UniqOfDistinct(init);
      assert last !in init by {
        forall k | 0 <= k < |init| ensures init[k] != last {
          assert s[k] != s[|s| - 1];
        }
      }
    }
  }

  /** `uniq!` answers `nil` exactly when nothing is repeated. */
  lemma UniqBangNil(s: seq<int>)
    ensures UniqBang(s).None? <==> Distinct(s)
  {
    if Distinct(s) {
      UniqOfDistinct(s);
    }
  }

  /** On an ascending sequence `uniq` leaves a strictly ascending one. */
  lemma {:induction false} UniqOfAscending(s: seq<int>)
    requires Ascending(s)
    ensures StrictlyAscending(Uniq(s))
    decreases |s|
  {
    if s != [] {
      var init, last := s[..|s| - 1], s[|s| - 1];
      assert s == init + [last];
      UniqOfAscending(init);
      var u := Uniq(init);
      if last !in u {
        forall y | y in u ensures y < last {
          var k :| 0 <= k < |init| && init[k] == y;
          assert s[k] <= s[|s| - 1];
        }
        StrictlyAscendingConcat(u, last, []);
        assert u + [last] + [] == u + [last];
      }
    }
  }

  /** `@processed_array` is `nil` exactly when the input has no duplicate. */
  lemma NormaliseNil(input: seq<int>)
    ensures Normalise(input).None? <==> Distinct(input)
  {
    MergeSortedSorts(input);
    UniqBangNil(MergeSorted(input));
    DistinctPermutation(MergeSorted(input), input);
  }

  /** Otherwise `@processed_array` is strictly ascending and holds each input value once. */
  lemma NormaliseSpec(input: seq<int>)
    requires HasDuplicate(input)
    ensures Normalise(input).Some?
    ensures StrictlyAscending(Normalise(input).value)
    ensures forall x :: x in Normalise(input).value <==> x in input
  {
    NormaliseNil(input);
    var sorted := MergeSorted(input);
    MergeSortedSorts(input);
    UniqOfAscending(sorted);
    forall x ensures x in sorted <==> x in input {
      assert x in sorted <==> x in multiset(sorted);
      assert x in input <==> x in multiset(input);
    }
  }

  /** So `@processed_array` is the one strictly ascending sequence holding exactly the input's values. */
  lemma NormaliseIs(input: seq<int>, expected: seq<int>)
    requires HasDuplicate(input) && StrictlyAscending(expected)
    requires forall x :: x in expected <==> x in input
    ensures Normalise(input) == Some(expected)
  {
    NormaliseSpec(input);
    StrictlyAscendingUnique(Normalise(input).value, expected);
  }
}
