/** The recursive midpoint merge sort of `MergeSort#merge_sort`. */
module MergeSort {
  import opened Sequences

  /** One merge step after another: take the front of `a` when it is strictly smaller, else the front of `b`. */
  ghost function Merged(a: seq<int>, b: seq<int>): seq<int>
    decreases |a| + |b|
  {
    if a == [] || b == [] then
      a + b
    else if a[0] < b[0] then
      [a[0]] + Merged(a[1..], b)
    else
      [b[0]] + Merged(a, b[1..])
  }

  /** The result of `merge_sort`, stated recursively. */
  ghost function MergeSorted(s: seq<int>): seq<int>
    decreases |s|
  {
    if |s| <= 1 then
      s
    else
      var mid := |s| / 2;
      Merged(MergeSorted(s[..mid]), MergeSorted(s[mid..]))
  }

  /** Merging loses and invents nothing. */
  lemma {:induction false} MergedPermutes(a: seq<int>, b: seq<int>)
    ensures multiset(Merged(a, b)) == multiset(a) + multiset(b)
    decreases |a| + |b|
  {
    if a != [] && b != [] {
      if a[0] < b[0] {
        assert a == [a[0]] + a[1..];
        MergedPermutes(a[1..], b);
      } else {
        assert b == [b[0]] + b[1..];
        MergedPermutes(a, b[1..]);
      }
    }
  }

  /** Merging two ascending sequences gives an ascending sequence. */
  lemma {:induction false} MergedAscending(a: seq<int>, b: seq<int>)
    requires Ascending(a) && Ascending(b)
    ensures Ascending(Merged(a, b))
    decreases |a| + |b|
  {
    if a != [] && b != [] {
      if a[0] < b[0] {
        assert a == [a[0]] + a[1..];
        MergedAscending(a[1..], b);
        MergedPermutes(a[1..], b);
        LeastInFront(a[0], a[1..], b, Merged(a[1..], b));
      } else {
        assert b == [b[0]] + b[1..];
        MergedAscending(a, b[1..]);
        MergedPermutes(a, b[1..]);
        LeastInFront(b[0], b[1..], a, Merged(a, b[1..]));
      }
    }
  }

  /** `merge_sort` keeps every element, as often as it occurs. */
  lemma {:induction false} MergeSortedPermutes(s: seq<int>)
    ensures multiset(MergeSorted(s)) == multiset(s)
    decreases |s|
  {
    if |s| > 1 {
      var mid := |s| / 2;
      var front, back := s[..mid], s[mid..];
      assert s == front + back;
      calc {
        multiset(MergeSorted(s));
        multiset(Merged(MergeSorted(front), MergeSorted(back)));
        { MergedPermutes(MergeSorted(front), MergeSorted(back)); }
        multiset(MergeSorted(front)) + multiset(MergeSorted(back));
        { MergeSortedPermutes(front); MergeSortedPermutes(back); }
        multiset(front) + multiset(back);
        multiset(s);
      }
    }
  }

  /** `merge_sort` returns an ascending sequence. */
  lemma {:induction false} MergeSortedAscending(s: seq<int>)
    ensures Ascending(MergeSorted(s))
    decreases |s|
  {
    if |s| > 1 {
      var mid := |s| / 2;
      MergeSortedAscending(s[..mid]);
      MergeSortedAscending(s[mid..]);
      MergedAscending(MergeSorted(s[..mid]), MergeSorted(s[mid..]));
    }
  }

  /** `merge_sort` returns an ascending permutation of its input, and short inputs unchanged. */
  lemma MergeSortedSorts(s: seq<int>)
    ensures Ascending(MergeSorted(s))
    ensures multiset(MergeSorted(s)) == multiset(s)
    ensures |s| <= 1 ==> MergeSorted(s) == s
  {
    MergeSortedAscending(s);
    MergeSortedPermutes(s);
  }

  /** When `h` is no larger than anything that follows it, putting it in front keeps the order. */
  lemma LeastInFront(h: int, x: seq<int>, y: seq<int>, rest: seq<int>)
    requires multiset(rest) == multiset(x) + multiset(y)
    requires Ascending([h] + x) && Ascending(y) && Ascending(rest)
    requires y != [] ==> h <= y[0]
    ensures Ascending([h] + rest)
  {
    var t := [h] + x;
    assert forall k :: 0 <= k < |x| ==> x[k] == t[k + 1];
    forall k | 0 <= k < |rest| ensures h <= rest[k] {
      assert rest[k] in multiset(rest);
      if rest[k] in x {
        var i :| 0 <= i < |x| && x[i] == rest[k];
        assert t[0] <= t[i + 1];
      } else {
        assert rest[k] in y;
        AscendingHeadIsLeast(y, rest[k]);
      }
    }
    var u := [h] + rest;
    forall i, j | 0 <= i < j < |u| ensures u[i] <= u[j] {
      if i > 0 {
        assert u[i] == rest[i - 1] && u[j] == rest[j - 1];
      } else {
        assert u[j] == rest[j - 1];
      }
    }
  }

  /** One turn of the merge loop moves the front element it takes onto the end of `sorted`. */
  lemma MergedStep(sorted: seq<int>, a: seq<int>, b: seq<int>)
    requires a != [] && b != []
    ensures a[0] < b[0] ==> sorted + Merged(a, b) == (sorted + [a[0]]) + Merged(a[1..], b)
    ensures !(a[0] < b[0]) ==> sorted + Merged(a, b) == (sorted + [b[0]]) + Merged(a, b[1..])
  {
  }

  /** The loop of `merge_sort`: the fronts of `a` and `b` are shifted onto `sorted` until one side is
      empty, and the rest of both is appended. */
  method Merge(a: seq<int>, b: seq<int>) returns (r: seq<int>)
    ensures r == Merged(a, b)
  {
    var sorted, x, y := [], a, b;
    while x != [] && y != []
      invariant sorted + Merged(x, y) == Merged(a, b)
      decreases |x| + |y|
    {
      MergedStep(sorted, x, y);
      if x[0] < y[0] {
        sorted, x := sorted + [x[0]], x[1..];
      } else {
        sorted, y := sorted + [y[0]], y[1..];
      }
    }
    assert Merged(x, y) == x + y;
    r := sorted + x + y;
  }

  /** `merge_sort`: arrays of size 0 or 1 come back as they are; longer ones are split at `size / 2`,
      both halves sorted, and the halves merged. */
  method Sort(s: seq<int>) returns (r: seq<int>)
    ensures r == MergeSorted(s)
    ensures Ascending(r) && multiset(r) == multiset(s)
    ensures |s| <= 1 ==> r == s
    decreases |s|
  {
    MergeSortedSorts(s);
    if !(|s| > 1) {
      return s;
    }
    var mid := |s| / 2;
    var a := Sort(s[..mid]);
    var b := Sort(s[mid..]);
    r := Merge(a, b);
  }
}
