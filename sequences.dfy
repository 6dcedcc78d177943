/** The conventional absent-or-present wrapper; `None` plays the part of Ruby's `nil`. */
module Optional {
  datatype Option<+T> = None | Some(value: T)
}

/** Orderings on integer sequences and the two list edits the tree operations are specified by. */
module Sequences {

  ghost predicate Ascending(s: seq<int>) {
    forall i, j :: 0 <= i < j < |s| ==> s[i] <= s[j]
  }

  ghost predicate StrictlyAscending(s: seq<int>) {
    forall i, j :: 0 <= i < j < |s| ==> s[i] < s[j]
  }

  ghost predicate Distinct(s: seq<int>) {
    forall i, j :: 0 <= i < j < |s| ==> s[i] != s[j]
  }

  ghost predicate HasDuplicate(s: seq<int>) {
    !Distinct(s)
  }

  /** Sorted insertion: `v` goes in front of the first element that is not below it. */
  ghost function SlotIn(s: seq<int>, v: int): seq<int>
  {
    if s == [] || v <= s[0] then [v] + s else [s[0]] + SlotIn(s[1..], v)
  }

  /** Sorted insertion adds one occurrence of `v` and loses nothing. */
  lemma {:induction false} SlotInPermutes(s: seq<int>, v: int)
    ensures multiset(SlotIn(s, v)) == multiset(s) + multiset{v}
  {
    if s != [] && v > s[0] {
      SlotInPermutes(s[1..], v);
      assert s == [s[0]] + s[1..];
    }
  }

  /** Slotting a new value into a strictly ascending sequence keeps it strictly ascending. */
  lemma {:induction false} SlotInAscending(s: seq<int>, v: int)
    requires StrictlyAscending(s) && v !in s
    ensures StrictlyAscending(SlotIn(s, v))
  {
    StrictlyAscendingCons(v, s);
    if s != [] && v > s[0] {
      var rest := SlotIn(s[1..], v);
      StrictlyAscendingCons(s[0], s[1..]);
      SlotInAscending(s[1..], v);
      SlotInPermutes(s[1..], v);
      forall y | y in rest ensures s[0] < y {
        assert y in multiset(rest);
        assert y in multiset(s[1..]) || y == v;
      }
      StrictlyAscendingCons(s[0], rest);
    } else if s != [] {
      forall y | y in s ensures v < y {
        AscendingHeadIsLeast(s, y);
      }
    }
  }

  /** The sequence with every occurrence of `v` removed, order kept. */
  ghost function Without(s: seq<int>, v: int): seq<int>
  {
    if s == [] then [] else (if s[0] == v then [] else [s[0]]) + Without(s[1..], v)
  }

  /** What is left is everything of `s` except `v`. */
  lemma {:induction false} WithoutContents(s: seq<int>, v: int)
    ensures forall x :: x in Without(s, v) <==> x in s && x != v
  {
    if s != [] {
      WithoutContents(s[1..], v);
      assert s == [s[0]] + s[1..];
    }
  }

  /** Strict ascent of `l + [x] + r` broken into its parts: each side ascends, `l` lies below `x`, `r` above. */
  lemma StrictlyAscendingConcat(l: seq<int>, x: int, r: seq<int>)
    ensures StrictlyAscending(l + [x] + r) <==>
      StrictlyAscending(l) && StrictlyAscending(r) &&
      (forall y :: y in l ==> y < x) && (forall y :: y in r ==> x < y)
  {
    if StrictlyAscending(l + [x] + r) {
      ConcatSplits(l, x, r);
    }
    if StrictlyAscending(l) && StrictlyAscending(r) &&
       (forall y :: y in l ==> y < x) && (forall y :: y in r ==> x < y) {
      ConcatJoins(l, x, r);
    }
  }

  lemma ConcatSplits(l: seq<int>, x: int, r: seq<int>)
    requires StrictlyAscending(l + [x] + r)
    ensures StrictlyAscending(l) && StrictlyAscending(r)
    ensures (forall y :: y in l ==> y < x) && (forall y :: y in r ==> x < y)
  {
    var t := l + [x] + r;
    assert forall k :: 0 <= k < |l| ==> t[k] == l[k];
    assert t[|l|] == x;
    assert forall k :: 0 <= k < |r| ==> t[|l| + 1 + k] == r[k];
    forall i, j | 0 <= i < j < |r| ensures r[i] < r[j] {
      assert t[|l| + 1 + i] < t[|l| + 1 + j];
    }
    forall y | y in l ensures y < x {
      var k :| 0 <= k < |l| && l[k] == y;
      assert t[k] < t[|l|];
    }
    forall y | y in r ensures x < y {
      var k :| 0 <= k < |r| && r[k] == y;
      assert t[|l|] < t[|l| + 1 + k];
    }
  }

  lemma ConcatJoins(l: seq<int>, x: int, r: seq<int>)
    requires StrictlyAscending(l) && StrictlyAscending(r)
    requires (forall y :: y in l ==> y < x) && (forall y :: y in r ==> x < y)
    ensures StrictlyAscending(l + [x] + r)
  {
    var t := l + [x] + r;
    assert forall k :: 0 <= k < |l| ==> t[k] == l[k];
    assert t[|l|] == x;
    assert forall k :: 0 <= k < |r| ==> t[|l| + 1 + k] == r[k];
    forall i, j | 0 <= i < j < |t| ensures t[i] < t[j] {
      if j < |l| {
        assert t[i] == l[i] && t[j] == l[j];
      } else if j == |l| {
        assert t[i] == l[i] && l[i] in l;
      } else if i < |l| {
        assert t[i] == l[i] && l[i] in l;
        assert t[j] == r[j - |l| - 1] && r[j - |l| - 1] in r;
      } else if i == |l| {
        assert t[j] == r[j - |l| - 1] && r[j - |l| - 1] in r;
      } else {
        assert t[i] == r[i - |l| - 1] && t[j] == r[j - |l| - 1];
      }
    }
  }

  /** The one-element-in-front case of `StrictlyAscendingConcat`. */
  lemma StrictlyAscendingCons(h: int, s: seq<int>)
    ensures StrictlyAscending([h] + s) <==> StrictlyAscending(s) && forall y :: y in s ==> h < y
  {
    StrictlyAscendingConcat([], h, s);
    assert [] + [h] + s == [h] + s;
  }

  lemma {:induction false} SlotInAfter(a: seq<int>, b: seq<int>, v: int)
    requires forall y :: y in a ==> y < v
    ensures SlotIn(a + b, v) == a + SlotIn(b, v)
  {
    if a == [] {
      assert a + b == b;
    } else {
      assert (a + b)[0] == a[0] && (a + b)[1..] == a[1..] + b;
      assert a[0] in a && forall y :: y in a[1..] ==> y in a;
      SlotInAfter(a[1..], b, v);
      assert a == [a[0]] + a[1..];
    }
  }

  lemma {:induction false} SlotInBefore(a: seq<int>, b: seq<int>, v: int)
    requires b != [] && v <= b[0]
    ensures SlotIn(a + b, v) == SlotIn(a, v) + b
  {
    if a == [] {
      assert a + b == b;
    } else {
      assert (a + b)[0] == a[0] && (a + b)[1..] == a[1..] + b;
      if v > a[0] {
        SlotInBefore(a[1..], b, v);
      }
    }
  }

  lemma SlotInFrontOf(a: seq<int>, x: int, c: seq<int>, v: int)
    requires v <= x
    ensures SlotIn(a + ([x] + c), v) == SlotIn(a, v) + ([x] + c)
  {
    var b := [x] + c;
    assert b[0] == x;
    SlotInBefore(a, b, v);
  }

  lemma {:induction false} WithoutConcat(a: seq<int>, b: seq<int>, v: int)
    ensures Without(a + b, v) == Without(a, v) + Without(b, v)
  {
    if a == [] {
      assert a + b == b;
    } else {
      assert (a + b)[0] == a[0] && (a + b)[1..] == a[1..] + b;
      WithoutConcat(a[1..], b, v);
    }
  }

  lemma {:induction false} WithoutAbsent(s: seq<int>, v: int)
    requires v !in s
    ensures Without(s, v) == s
  {
    if s != [] {
      WithoutAbsent(s[1..], v);
      assert s == [s[0]] + s[1..];
    }
  }

  /** Removing a value that occurs once, between `front` and `back`, joins the two. */
  lemma WithoutOnce(front: seq<int>, v: int, back: seq<int>)
    requires v !in front && v !in back
    ensures Without(front + [v] + back, v) == front + back
  {
    var head := front + [v];
    WithoutConcat(front, [v], v);
    WithoutAbsent(front, v);
    assert Without([v], v) == [];
    assert Without(head, v) == front;
    WithoutConcat(head, back, v);
    WithoutAbsent(back, v);
  }

  /** A sequence is duplicate-free exactly when no value occurs in it twice. */
  lemma {:induction false} DistinctCounts(s: seq<int>)
    ensures Distinct(s) <==> forall x :: multiset(s)[x] <= 1
  {
    if s != [] {
      var h, t := s[0], s[1..];
      assert s == [h] + t;
      assert multiset(s) == multiset{h} + multiset(t);
      DistinctCounts(t);
      if Distinct(s) {
        forall i, j | 0 <= i < j < |t| ensures t[i] != t[j] {
          assert s[i + 1] == t[i] && s[j + 1] == t[j];
        }
        forall k | 0 <= k < |t| ensures t[k] != h {
          assert s[0] != s[k + 1];
        }
        assert multiset(t)[h] == 0;
      }
      if forall x :: multiset(s)[x] <= 1 {
        assert multiset(s)[h] == 1 + multiset(t)[h];
        assert h !in multiset(t);
        forall x ensures multiset(t)[x] <= 1 {
          assert multiset(s)[x] >= multiset(t)[x];
        }
        forall i, j | 0 <= i < j < |s| ensures s[i] != s[j] {
          if i == 0 {
            assert s[j] == t[j - 1];
          } else {
            assert s[i] == t[i - 1] && s[j] == t[j - 1];
          }
        }
      }
    }
  }

  /** Reordering a sequence neither adds nor removes a duplicate. */
  lemma DistinctPermutation(a: seq<int>, b: seq<int>)
    requires multiset(a) == multiset(b)
    ensures Distinct(a) <==> Distinct(b)
  {
    DistinctCounts(a);
    DistinctCounts(b);
  }

  lemma AscendingHeadIsLeast(s: seq<int>, x: int)
    requires Ascending(s) && x in s
    ensures s[0] <= x
  {
    var k :| 0 <= k < |s| && s[k] == x;
  }

  /** The head of a strictly ascending sequence lies below the rest, which ascends strictly too. */
  lemma StrictlyAscendingTail(a: seq<int>)
    requires StrictlyAscending(a) && a != []
    ensures StrictlyAscending(a[1..])
    ensures forall x :: x in a[1..] <==> x in a && x != a[0]
    ensures forall x :: x in a ==> a[0] <= x
  {
    assert a == [a[0]] + a[1..];
    StrictlyAscendingCons(a[0], a[1..]);
  }

  /** A non-empty sequence holds its first element. Stated as a disjunction, it can be called where the
      facts in scope already rule out a non-empty sequence, without an index check there. */
  lemma EmptyOrHeadIn(s: seq<int>)
    ensures s == [] || s[0] in s
  {
  }

  /** Two strictly ascending sequences with the same elements are equal. */
  lemma {:induction false} StrictlyAscendingUnique(a: seq<int>, b: seq<int>)
    requires StrictlyAscending(a) && StrictlyAscending(b)
    requires forall x :: x in a <==> x in b
    ensures a == b
    decreases |a|
  {
    if a == [] {
      EmptyOrHeadIn(b);
    } else if b == [] {
      EmptyOrHeadIn(a);
    } else {
      StrictlyAscendingTail(a);
      StrictlyAscendingTail(b);
      assert a[0] in b && b[0] in a;
      assert a[0] == b[0];
      StrictlyAscendingUnique(a[1..], b[1..]);
      assert a == [a[0]] + a[1..] && b == [b[0]] + b[1..];
    }
  }

  /** Strict ascent follows from strict ascent of each adjacent pair. */
  lemma {:induction false} StrictlyAscendingByNeighbours(s: seq<int>)
    requires forall i :: 0 <= i < |s| - 1 ==> s[i] < s[i + 1]
    ensures StrictlyAscending(s)
  {
    if s != [] {
      var t := s[1..];
      assert forall i :: 0 <= i < |t| - 1 ==> t[i] < t[i + 1] by {
        forall i | 0 <= i < |t| - 1 ensures t[i] < t[i + 1] {
          assert t[i] == s[i + 1] && t[i + 1] == s[i + 2];
        }
      }
      StrictlyAscendingByNeighbours(t);
      if t != [] {
        assert s[0] < t[0];
        forall y | y in t ensures s[0] < y {
          var k :| 0 <= k < |t| && t[k] == y;
          if k > 0 {
            assert t[0] < t[k];
          }
        }
      }
      StrictlyAscendingCons(s[0], t);
      assert s == [s[0]] + t;
    }
  }
}
