/** The ordering engine: one stable top-down merge sort, generic over the
    element type and over a comparator `first`, where `first(x, y)` means
    "x may be placed before y" (the left run wins when it holds, which is what
    makes every merge in the program stable). The value-returning sorts use
    `MergeSort`; the index-range sorts that work in place on a vector use
    `MergeSortRange` on an array. */
module Ordering {

  /** Every comparator the program merges with is total and transitive. */
  ghost predicate TotalPreorder<T(!new)>(first: (T, T) -> bool) {
    && (forall x, y :: first(x, y) || first(y, x))
    && (forall x, y, z :: first(x, y) && first(y, z) ==> first(x, z))
  }

  /** Every element may be placed before every later one. */
  predicate SortedBy<T>(s: seq<T>, first: (T, T) -> bool) {
    forall i, j :: 0 <= i < j < |s| ==> first(s[i], s[j])
  }

  /** Neither of x and y has to precede the other: they have equal keys. */
  predicate Tied<T>(x: T, y: T, first: (T, T) -> bool) {
    first(x, y) && first(y, x)
  }

  /** The elements of s tied with x, in their order in s. */
  function Ties<T>(s: seq<T>, x: T, first: (T, T) -> bool): (r: seq<T>)
    ensures |r| <= |s|
  {
    if s == [] then []
    else if Tied(s[0], x, first) then [s[0]] + Ties(s[1..], x, first)
    else Ties(s[1..], x, first)
  }

  /** r keeps, for every key, exactly the elements of s with that key, in
      their order in s: the definition of a stable reordering. */
  ghost predicate Stable<T(!new)>(r: seq<T>, s: seq<T>, first: (T, T) -> bool) {
    forall x :: Ties(r, x, first) == Ties(s, x, first)
  }

  lemma {:induction false} TiesAppend<T>(a: seq<T>, b: seq<T>, x: T, first: (T, T) -> bool)
    ensures Ties(a + b, x, first) == Ties(a, x, first) + Ties(b, x, first)
  {
    if a == [] {
      assert a + b == b;
    } else {
      assert (a + b)[1..] == a[1..] + b;
      TiesAppend(a[1..], b, x, first);
    }
  }

  lemma {:induction false} TiesMember<T>(s: seq<T>, x: T, y: T, first: (T, T) -> bool)
    requires y in Ties(s, x, first)
    ensures y in s && Tied(y, x, first)
  {
    if s != [] {
      if y != s[0] || !Tied(s[0], x, first) {
        TiesMember(s[1..], x, y, first);
      }
    }
  }

  lemma {:induction false} TiesNone<T>(s: seq<T>, x: T, first: (T, T) -> bool)
    requires forall y :: y in s ==> !Tied(y, x, first)
    ensures Ties(s, x, first) == []
  {
    if s != [] {
      assert s[0] in s;
      TiesNone(s[1..], x, first);
    }
  }

  lemma {:induction false} Reflexive<T(!new)>(x: T, first: (T, T) -> bool)
    requires TotalPreorder(first)
    ensures first(x, x)
  {
    assert first(x, x) || first(x, x);
  }

  lemma {:induction false} TiesSelf<T(!new)>(s: seq<T>, first: (T, T) -> bool)
    requires TotalPreorder(first) && s != []
    ensures Ties(s, s[0], first) != []
  {
    Reflexive(s[0], first);
  }

  lemma {:induction false} HeadFirst<T(!new)>(s: seq<T>, first: (T, T) -> bool)
    requires TotalPreorder(first) && SortedBy(s, first) && s != []
    ensures forall y :: y in s ==> first(s[0], y)
  {
    forall y | y in s ensures first(s[0], y) {
      var k :| 0 <= k < |s| && s[k] == y;
      if k == 0 { Reflexive(y, first); }
    }
  }

  lemma {:induction false} PrependSorted<T>(x: T, s: seq<T>, first: (T, T) -> bool)
    requires SortedBy(s, first)
    requires forall y :: y in s ==> first(x, y)
    ensures SortedBy([x] + s, first)
  {
    var r := [x] + s;
    forall i, j | 0 <= i < j < |r| ensures first(r[i], r[j]) {
      if i == 0 {
        assert r[j] == s[j - 1] && s[j - 1] in s;
      } else {
        assert r[i] == s[i - 1] && r[j] == s[j - 1];
      }
    }
  }

  /** The merge step: repeatedly take the head of the left run when it may go
      first, else the head of the right run; the rest of either run follows. */
  function Merge<T>(a: seq<T>, b: seq<T>, first: (T, T) -> bool): (r: seq<T>)
    ensures |r| == |a| + |b|
    decreases |a| + |b|
  {
    if a == [] then b
    else if b == [] then a
    else if first(a[0], b[0]) then
      assert a == [a[0]] + a[1..];
      [a[0]] + Merge(a[1..], b, first)
    else
      assert b == [b[0]] + b[1..];
      [b[0]] + Merge(a, b[1..], first)
  }

  lemma {:induction false} MergeSorted<T(!new)>(a: seq<T>, b: seq<T>, first: (T, T) -> bool)
    requires TotalPreorder(first) && SortedBy(a, first) && SortedBy(b, first)
    ensures SortedBy(Merge(a, b, first), first)
    decreases |a| + |b|
  {
    if a != [] && b != [] {
      HeadFirst(a, first);
      HeadFirst(b, first);
      if first(a[0], b[0]) {
        var m := Merge(a[1..], b, first);
        MergeSorted(a[1..], b, first);
        MergePermutes(a[1..], b, first);
        forall y | y in m ensures first(a[0], y) {
          assert y in multiset(m);
          if y in a[1..] { assert y in a; } else { assert y in b; }
        }
        PrependSorted(a[0], m, first);
      } else {
        var m := Merge(a, b[1..], first);
        MergeSorted(a, b[1..], first);
        MergePermutes(a, b[1..], first);
        forall y | y in m ensures first(b[0], y) {
          assert y in multiset(m);
          if y in a { assert first(b[0], a[0]); } else { assert y in b; }
        }
        PrependSorted(b[0], m, first);
      }
    }
  }

  /** Merging sorted runs keeps, for every key, the left run's tied elements
      ahead of the right run's. */
  lemma {:induction false} MergeTies<T(!new)>(a: seq<T>, b: seq<T>, x: T, first: (T, T) -> bool)
    requires TotalPreorder(first) && SortedBy(a, first) && SortedBy(b, first)
    ensures Ties(Merge(a, b, first), x, first) == Ties(a, x, first) + Ties(b, x, first)
    decreases |a| + |b|
  {
    if a == [] {
    } else if b == [] {
    } else if first(a[0], b[0]) {
      MergeTies(a[1..], b, x, first);
    } else {
      MergeTies(a, b[1..], x, first);
      if Tied(b[0], x, first) {
        HeadFirst(a, first);
        forall y | y in a ensures !Tied(y, x, first) {
          assert first(a[0], y);
        }
        TiesNone(a, x, first);
      }
    }
  }

  /** The value-returning merge sort: split at the midpoint |s| / 2, sort each
      half, merge. It returns a permutation of its input; MergeSortSpec
      shows that it is sorted and stable. */
  function MergeSort<T(!new)>(s: seq<T>, first: (T, T) -> bool): (r: seq<T>)
    requires TotalPreorder(first)
    ensures |r| == |s|
    decreases |s|
  {
    if |s| <= 1 then s
    else Merge(MergeSort(s[..|s| / 2], first), MergeSort(s[|s| / 2..], first), first)
  }

  /** MergeSort returns a permutation of its input, sorted, and stably:
      tied elements keep their input order. */
  lemma {:induction false} MergeSortSpec<T(!new)>(s: seq<T>, first: (T, T) -> bool)
    requires TotalPreorder(first)
    ensures multiset(MergeSort(s, first)) == multiset(s)
    ensures SortedBy(MergeSort(s, first), first)
    ensures Stable(MergeSort(s, first), s, first)
    decreases |s|
  {
    if |s| >= 2 {
      MergeSortSpec(s[..|s| / 2], first);
      MergeSortSpec(s[|s| / 2..], first);
      MergeHalves(s, MergeSort(s[..|s| / 2], first), MergeSort(s[|s| / 2..], first), first);
    }
  }

  /** Merge loses and invents nothing: its result is a permutation of the
      two runs together. */
  lemma {:induction false} MergePermutes<T>(a: seq<T>, b: seq<T>, first: (T, T) -> bool)
    ensures multiset(Merge(a, b, first)) == multiset(a) + multiset(b)
    decreases |a| + |b|
  {
    if a == [] || b == [] {
    } else if first(a[0], b[0]) {
      MergePermutes(a[1..], b, first);
      Uncons(a);
      assert Merge(a, b, first) == [a[0]] + Merge(a[1..], b, first);
    } else {
      MergePermutes(a, b[1..], first);
      Uncons(b);
      assert Merge(a, b, first) == [b[0]] + Merge(a, b[1..], first);
    }
  }

  /** A non-empty sequence holds its head and the elements of its tail. */
  lemma {:induction false} Uncons<T>(s: seq<T>)
    requires s != []
    ensures multiset(s) == multiset{s[0]} + multiset(s[1..])
  {
    assert s == [s[0]] + s[1..];
  }

  /** The inductive step of MergeSort: merging sorted, stable permutations of
      the two halves gives a sorted, stable permutation of the whole. */
  lemma {:induction false} MergeHalves<T(!new)>(s: seq<T>, left: seq<T>, right: seq<T>, first: (T, T) -> bool)
    requires TotalPreorder(first) && |s| >= 2
    requires multiset(left) == multiset(s[..|s| / 2]) && SortedBy(left, first) && Stable(left, s[..|s| / 2], first)
    requires multiset(right) == multiset(s[|s| / 2..]) && SortedBy(right, first) && Stable(right, s[|s| / 2..], first)
    ensures multiset(Merge(left, right, first)) == multiset(s)
    ensures SortedBy(Merge(left, right, first), first)
    ensures Stable(Merge(left, right, first), s, first)
  {
    assert s[..|s| / 2] + s[|s| / 2..] == s;
    MergePermutes(left, right, first);
    MergeSorted(left, right, first);
    MergeOfStable(s[..|s| / 2], s[|s| / 2..], left, right, first);
  }

  lemma {:induction false} MergeOfStable<T(!new)>(a: seq<T>, b: seq<T>, ra: seq<T>, rb: seq<T>, first: (T, T) -> bool)
    requires TotalPreorder(first) && SortedBy(ra, first) && SortedBy(rb, first)
    requires Stable(ra, a, first) && Stable(rb, b, first)
    ensures Stable(Merge(ra, rb, first), a + b, first)
  {
    forall x ensures Ties(Merge(ra, rb, first), x, first) == Ties(a + b, x, first) {
      MergeTies(ra, rb, x, first);
      TiesAppend(a, b, x, first);
    }
  }

  /** A stable sort has only one possible result: two sorted sequences that
      keep the same tied elements in the same order are equal. */
  lemma {:induction false} StableSortUnique<T(!new)>(r1: seq<T>, r2: seq<T>, first: (T, T) -> bool)
    requires TotalPreorder(first) && SortedBy(r1, first) && SortedBy(r2, first)
    requires forall x :: Ties(r1, x, first) == Ties(r2, x, first)
    ensures r1 == r2
    decreases |r1|
  {
    if r1 == [] || r2 == [] {
      if r1 != [] {
        TiesSelf(r1, first);
        assert false;
      }
      if r2 != [] {
        TiesSelf(r2, first);
        assert false;
      }
    } else {
      var h1, h2 := r1[0], r2[0];
      Reflexive(h1, first);
      Reflexive(h2, first);
      HeadFirst(r1, first);
      HeadFirst(r2, first);
      var y1 := Ties(r2, h1, first)[0];
      assert Ties(r1, h1, first)[0] == h1;
      TiesMember(r2, h1, y1, first);
      assert first(h2, h1);
      var y2 := Ties(r1, h2, first)[0];
      assert Ties(r2, h2, first)[0] == h2;
      TiesMember(r1, h2, y2, first);
      assert first(h1, h2);
      assert Ties(r2, h1, first)[0] == h2;
      assert h1 == h2;
      forall x ensures Ties(r1[1..], x, first) == Ties(r2[1..], x, first) {
        if Tied(h1, x, first) {
          assert Ties(r1, x, first) == [h1] + Ties(r1[1..], x, first);
          assert Ties(r2, x, first) == [h1] + Ties(r2[1..], x, first);
          assert ([h1] + Ties(r1[1..], x, first))[1..] == Ties(r1[1..], x, first);
          assert ([h1] + Ties(r2[1..], x, first))[1..] == Ties(r2[1..], x, first);
        } else {
          assert Ties(r1, x, first) == Ties(r1[1..], x, first);
          assert Ties(r2, x, first) == Ties(r2[1..], x, first);
        }
      }
      StableSortUnique(r1[1..], r2[1..], first);
      assert r1 == [h1] + r1[1..] && r2 == [h2] + r2[1..];
    }
  }

  /** Where the merge sort splits does not matter: merging the sorts of any
      two consecutive pieces gives the sort of the whole. */
  lemma {:induction false} MergeSortSplit<T(!new)>(s: seq<T>, n: int, first: (T, T) -> bool)
    requires TotalPreorder(first) && 0 <= n <= |s|
    ensures Merge(MergeSort(s[..n], first), MergeSort(s[n..], first), first) == MergeSort(s, first)
  {
    var ra, rb := MergeSort(s[..n], first), MergeSort(s[n..], first);
    assert s[..n] + s[n..] == s;
    MergeSortSpec(s[..n], first);
    MergeSortSpec(s[n..], first);
    MergeSortSpec(s, first);
    MergeSorted(ra, rb, first);
    MergeOfStable(s[..n], s[n..], ra, rb, first);
    StableSortUnique(Merge(ra, rb, first), MergeSort(s, first), first);
  }

  /** The first position of s whose element is tied with x. */
  lemma {:induction false} TiesHead<T>(s: seq<T>, x: T, first: (T, T) -> bool)
    requires Ties(s, x, first) != []
    ensures exists p :: 0 <= p < |s| && s[p] == Ties(s, x, first)[0] && Tied(s[p], x, first) &&
                        forall q :: 0 <= q < p ==> !Tied(s[q], x, first)
  {
    if Tied(s[0], x, first) {
      assert s[0] == Ties(s, x, first)[0];
    } else {
      TiesHead(s[1..], x, first);
      var p :| 0 <= p < |s[1..]| && s[1..][p] == Ties(s[1..], x, first)[0] && Tied(s[1..][p], x, first) &&
                forall q :: 0 <= q < p ==> !Tied(s[1..][q], x, first);
      assert s[p + 1] == Ties(s, x, first)[0];
      forall q | 0 <= q < p + 1 ensures !Tied(s[q], x, first) {
        if q > 0 { assert s[q] == s[1..][q - 1]; }
      }
    }
  }

  /** The first element of a stable sort may precede every element, and it is
      the earliest such element of the input: every element before it in the
      input has a key that must come after its own. */
  lemma {:induction false} StableSortHead<T(!new)>(s: seq<T>, first: (T, T) -> bool)
    requires TotalPreorder(first) && s != []
    ensures forall y :: y in s ==> first(MergeSort(s, first)[0], y)
    ensures exists p :: 0 <= p < |s| && s[p] == MergeSort(s, first)[0] &&
                        forall q :: 0 <= q < p ==> !first(s[q], s[p])
  {
    var r := MergeSort(s, first);
    MergeSortSpec(s, first);
    HeadFirst(r, first);
    forall y | y in s ensures first(r[0], y) {
      assert y in multiset(r);
    }
    Reflexive(r[0], first);
    assert Ties(r, r[0], first)[0] == r[0];
    TiesHead(s, r[0], first);
    var p :| 0 <= p < |s| && s[p] == Ties(s, r[0], first)[0] && Tied(s[p], r[0], first) &&
             forall q :: 0 <= q < p ==> !Tied(s[q], r[0], first);
    forall q | 0 <= q < p ensures !first(s[q], s[p]) {
      assert s[q] in s;
    }
  }

  /** std::string's operator< : lexicographic by character code, with a
      proper prefix ordered first. */
  predicate LexLess(a: string, b: string)
    decreases |a|
  {
    if a == [] then b != []
    else if b == [] then false
    else a[0] < b[0] || (a[0] == b[0] && LexLess(a[1..], b[1..]))
  }

  /** std::string's operator<= . */
  predicate LexLeq(a: string, b: string) {
    a == b || LexLess(a, b)
  }

  lemma {:induction false} LexLessIrreflexive(a: string)
    ensures !LexLess(a, a)
  {
    if a != [] {
      LexLessIrreflexive(a[1..]);
    }
  }

  lemma {:induction false} LexLessTransitive(a: string, b: string, c: string)
    requires LexLess(a, b) && LexLess(b, c)
    ensures LexLess(a, c)
    decreases |a|
  {
    if a != [] && a[0] == b[0] && b[0] == c[0] {
      LexLessTransitive(a[1..], b[1..], c[1..]);
    }
  }

  lemma {:induction false} LexTrichotomy(a: string, b: string)
    ensures a == b || LexLess(a, b) || LexLess(b, a)
    decreases |a|
  {
    if a != [] && b != [] && a[0] == b[0] {
      LexTrichotomy(a[1..], b[1..]);
      if a[1..] == b[1..] {
        assert a == [a[0]] + a[1..] && b == [b[0]] + b[1..];
      }
    }
  }

  /** Exactly one of a < b, a == b, b < a holds. */
  lemma {:induction false} LexLessAsymmetric(a: string, b: string)
    ensures !(LexLess(a, b) && LexLess(b, a))
  {
    if LexLess(a, b) && LexLess(b, a) {
      LexLessTransitive(a, b, a);
      LexLessIrreflexive(a);
    }
  }

  /** String order is a total order: the comparator of mergeSortString is a
      total preorder whose ties are equal strings. */
  lemma {:induction false} LexLeqTotalOrder()
    ensures TotalPreorder(LexLeq)
    ensures forall a, b :: Tied(a, b, LexLeq) ==> a == b
  {
    forall a, b ensures LexLeq(a, b) || LexLeq(b, a) {
      LexTrichotomy(a, b);
    }
    forall a, b, c | LexLeq(a, b) && LexLeq(b, c) ensures LexLeq(a, c) {
      if a != b && b != c {
        LexLessTransitive(a, b, c);
      }
    }
    forall a, b | Tied(a, b, LexLeq) ensures a == b {
      LexLessAsymmetric(a, b);
    }
  }

  /** One step of Merge on two non-empty runs: the head of the result is
      the head of the run that goes first, the rest is the merge of what
      remains. */
  lemma {:induction false} MergeStep<T>(l: seq<T>, r: seq<T>, first: (T, T) -> bool)
    requires l != [] && r != []
    ensures first(l[0], r[0]) ==>
      Merge(l, r, first)[0] == l[0] && Merge(l, r, first)[1..] == Merge(l[1..], r, first)
    ensures !first(l[0], r[0]) ==>
      Merge(l, r, first)[0] == r[0] && Merge(l, r, first)[1..] == Merge(l, r[1..], first)
  {
  }

  /** MergeStep at positions i and j of the two runs, inside the merge of the
      whole runs, when the left head goes first. */
  lemma {:induction false} MergeAtLeft<T>(merged: seq<T>, left: seq<T>, right: seq<T>, i: int, j: int, first: (T, T) -> bool)
    requires 0 <= i < |left| && 0 <= j < |right| && i + j < |merged|
    requires merged[i + j..] == Merge(left[i..], right[j..], first)
    requires first(left[i], right[j])
    ensures merged[i + j] == left[i] && merged[i + j + 1..] == Merge(left[i + 1..], right[j..], first)
  {
    MergeStep(left[i..], right[j..], first);
    assert merged[i + j + 1..] == merged[i + j..][1..];
    assert merged[i + j] == merged[i + j..][0];
    assert left[i..][1..] == left[i + 1..];
  }

  /** The same when the right head goes first. */
  lemma {:induction false} MergeAtRight<T>(merged: seq<T>, left: seq<T>, right: seq<T>, i: int, j: int, first: (T, T) -> bool)
    requires 0 <= i < |left| && 0 <= j < |right| && i + j < |merged|
    requires merged[i + j..] == Merge(left[i..], right[j..], first)
    requires !first(left[i], right[j])
    ensures merged[i + j] == right[j] && merged[i + j + 1..] == Merge(left[i..], right[j + 1..], first)
  {
    MergeStep(left[i..], right[j..], first);
    assert merged[i + j + 1..] == merged[i + j..][1..];
    assert merged[i + j] == merged[i + j..][0];
    assert right[j..][1..] == right[j + 1..];
  }

  /** The merge step of every index-range sort (mergeString, mergePairs,
      merge, mergeInt): copy arr[low..mid] and arr[mid+1..high] into two
      temporaries, then fill arr[low..high] from them, the left run winning
      ties, and finally copy whatever remains of either run. */
  method MergeRange<T>(a: array<T>, low: int, mid: int, high: int, first: (T, T) -> bool)
    requires 0 <= low <= mid < high < a.Length
    modifies a
    ensures MergesRange(old(a[..]), a[..], low, mid, high, first)
  {
    ghost var a0 := a[..];
    var left := a[low..mid + 1];
    var right := a[mid + 1..high + 1];
    ghost var merged := Merge(left, right, first);
    var i, j := MergeHeads(a, low, left, right, first);
    ghost var placed := a[..];
    CopyRun(a, low + i + j, left[i..]);
    ghost var copied := a[..];
    CopyRun(a, low + |left| + j, right[j..]);
    forall q | 0 <= q < |merged| ensures a[low..high + 1][q] == merged[q] {
      if q < i + j {
        assert a[low + q] == copied[low + q] == placed[low + q];
      } else if q < |left| + j {
        assert a[low + q] == copied[low + q] == left[i..][q - i - j];
        assert merged[q] == merged[i + j..][q - i - j];
      } else {
        assert merged[q] == merged[i + j..][q - i - j];
      }
    }
    forall p | 0 <= p < a.Length && !(low <= p <= high) ensures a[p] == a0[p] {
      assert a[p] == copied[p] == placed[p];
    }
    assert a[..low] == a0[..low];
    assert a[high + 1..] == a0[high + 1..];
  }

  /** after is before with before[low..high] replaced by the merge of its
      two runs before[low..mid] and before[mid+1..high]. */
  ghost predicate MergesRange<T>(before: seq<T>, after: seq<T>, low: int, mid: int, high: int, first: (T, T) -> bool)
  {
    0 <= low <= mid < high < |before| == |after| &&
    after[..low] == before[..low] && after[high + 1..] == before[high + 1..] &&
    after[low..high + 1] == Merge(before[low..mid + 1], before[mid + 1..high + 1], first)
  }

  /** after is before with before[low..high] replaced by its stable merge
      sort. */
  ghost predicate SortsRange<T(!new)>(before: seq<T>, after: seq<T>, low: int, high: int, first: (T, T) -> bool)
    requires TotalPreorder(first)
  {
    0 <= low <= high < |before| == |after| &&
    after[..low] == before[..low] && after[high + 1..] == before[high + 1..] &&
    after[low..high + 1] == MergeSort(before[low..high + 1], first)
  }

  /** The first loop of the merge step: while both runs have elements left,
      store the one that goes first (the left one on a tie) at the next
      position from low. It stops as soon as one run is used up. */
  method MergeHeads<T>(a: array<T>, low: int, left: seq<T>, right: seq<T>, first: (T, T) -> bool)
    returns (i: int, j: int)
    requires 0 <= low && low + |left| + |right| <= a.Length
    modifies a
    ensures 0 <= i <= |left| && 0 <= j <= |right| && (i == |left| || j == |right|)
    ensures Merge(left, right, first)[i + j..] == left[i..] + right[j..]
    ensures forall p :: low <= p < low + i + j ==> a[p] == Merge(left, right, first)[p - low]
    ensures forall p :: 0 <= p < a.Length && !(low <= p < low + i + j) ==> a[p] == old(a[p])
  {
    ghost var merged := Merge(left, right, first);
    i, j := 0, 0;
    var k := low;
    while i < |left| && j < |right|
      invariant 0 <= i <= |left| && 0 <= j <= |right| && k == low + i + j
      invariant merged[i + j..] == Merge(left[i..], right[j..], first)
      invariant forall p :: low <= p < k ==> a[p] == merged[p - low]
      invariant forall p :: 0 <= p < a.Length && !(low <= p < k) ==> a[p] == old(a[p])
    {
      if first(left[i], right[j]) {
        MergeAtLeft(merged, left, right, i, j, first);
        a[k] := left[i];
        i := i + 1;
      } else {
        MergeAtRight(merged, left, right, i, j, first);
        a[k] := right[j];
        j := j + 1;
      }
      k := k + 1;
    }
  }

  /** The copy loops of the merge step: store what remains of one run at
      consecutive positions from k. */
  method CopyRun<T>(a: array<T>, k: int, run: seq<T>)
    requires 0 <= k && k + |run| <= a.Length
    modifies a
    ensures forall p :: k <= p < k + |run| ==> a[p] == run[p - k]
    ensures forall p :: 0 <= p < a.Length && !(k <= p < k + |run|) ==> a[p] == old(a[p])
  {
    var n := 0;
    while n < |run|
      invariant 0 <= n <= |run|
      invariant forall p :: k <= p < k + n ==> a[p] == run[p - k]
      invariant forall p :: 0 <= p < a.Length && !(k <= p < k + n) ==> a[p] == old(a[p])
    {
      a[k + n] := run[n];
      n := n + 1;
    }
  }

  /** The index-range merge sort (mergeSortString, mergeSortPairs, mergeSort,
      mergeSortInt): nothing happens when low >= high; otherwise it sorts
      arr[low..mid] and arr[mid+1..high] and merges the two runs, which
      leaves the array holding RangeSort of its old contents. */
  method MergeSortRange<T>(a: array<T>, low: int, high: int, first: (T, T) -> bool)
    requires 0 <= low && high < a.Length
    modifies a
    ensures a[..] == RangeSort(old(a[..]), low, high, first)
    decreases high - low
  {
    if low >= high {
      return;
    }
    var mid := low + (high - low) / 2;
    ghost var a0 := a[..];
    MergeSortRange(a, low, mid, first);
    ghost var a1 := a[..];
    MergeSortRange(a, mid + 1, high, first);
    ghost var a2 := a[..];
    MergeRange(a, low, mid, high, first);
    RangeSortStep(a0, a1, a2, a[..], low, mid, high, first);
  }

  /** One call of the index-range merge sort, on snapshots of the array. */
  lemma {:induction false} RangeSortStep<T>(a0: seq<T>, a1: seq<T>, a2: seq<T>, a3: seq<T>, low: int, mid: int, high: int, first: (T, T) -> bool)
    requires 0 <= low <= mid < high < |a0| && mid == low + (high - low) / 2
    requires a1 == RangeSort(a0, low, mid, first) && a2 == RangeSort(a1, mid + 1, high, first)
    requires MergesRange(a2, a3, low, mid, high, first)
    ensures a3 == RangeSort(a0, low, high, first)
  {
    MergesRangeIs(a2, a3, low, mid, high, first);
    RangeSortUnfold(a0, low, mid, high, first);
  }

  lemma {:induction false} RangeSortUnfold<T>(s: seq<T>, low: int, mid: int, high: int, first: (T, T) -> bool)
    requires 0 <= low <= mid < high < |s| && mid == low + (high - low) / 2
    ensures RangeSort(s, low, high, first) == RangeSortAt(s, low, mid, high, first)
  {
  }

  /** s with s[low..high] replaced by the merge of its two runs s[low..mid]
      and s[mid+1..high]. */
  ghost function MergedRange<T>(s: seq<T>, low: int, mid: int, high: int, first: (T, T) -> bool): seq<T>
    requires 0 <= low <= mid < high < |s|
  {
    s[..low] + Merge(s[low..mid + 1], s[mid + 1..high + 1], first) + s[high + 1..]
  }

  /** What the index-range merge sort leaves in s, split for split as the
      method works. */
  ghost function RangeSort<T>(s: seq<T>, low: int, high: int, first: (T, T) -> bool): (r: seq<T>)
    requires 0 <= low && high < |s|
    ensures |r| == |s|
    decreases high - low, 1
  {
    if low >= high then s else RangeSortAt(s, low, low + (high - low) / 2, high, first)
  }

  /** RangeSort of a range of two or more elements split at mid: sort the
      left run, then the right run, then merge them. */
  ghost function RangeSortAt<T>(s: seq<T>, low: int, mid: int, high: int, first: (T, T) -> bool): (r: seq<T>)
    requires 0 <= low <= mid < high < |s|
    ensures |r| == |s|
    decreases high - low, 0
  {
    MergedRange(RangeSort(RangeSort(s, low, mid, first), mid + 1, high, first), low, mid, high, first)
  }

  lemma {:induction false} MergesRangeIs<T>(before: seq<T>, after: seq<T>, low: int, mid: int, high: int, first: (T, T) -> bool)
    requires MergesRange(before, after, low, mid, high, first)
    ensures after == MergedRange(before, low, mid, high, first)
  {
    assert after == after[..low] + after[low..high + 1] + after[high + 1..];
  }

  lemma {:induction false} MergedRangeMerges<T>(s: seq<T>, low: int, mid: int, high: int, first: (T, T) -> bool)
    requires 0 <= low <= mid < high < |s|
    ensures MergesRange(s, MergedRange(s, low, mid, high, first), low, mid, high, first)
  {
    var r := MergedRange(s, low, mid, high, first);
    var m := Merge(s[low..mid + 1], s[mid + 1..high + 1], first);
    assert r[..low] == s[..low];
    assert r[low..high + 1] == m;
    assert r[high + 1..] == s[high + 1..];
  }

  /** The index-range merge sort sorts its range: RangeSort replaces
      s[low..high] by its stable merge sort and leaves the rest alone. */
  lemma {:induction false} RangeSortSorts<T(!new)>(s: seq<T>, low: int, high: int, first: (T, T) -> bool)
    requires TotalPreorder(first) && 0 <= low <= high < |s|
    ensures SortsRange(s, RangeSort(s, low, high, first), low, high, first)
    decreases high - low
  {
    if low == high {
      SortsSingle(s, low, first);
    } else {
      var mid := low + (high - low) / 2;
      var a1 := RangeSort(s, low, mid, first);
      var a2 := RangeSort(a1, mid + 1, high, first);
      RangeSortSorts(s, low, mid, first);
      RangeSortSorts(a1, mid + 1, high, first);
      MergedRangeMerges(a2, low, mid, high, first);
      RangeSortUnfold(s, low, mid, high, first);
      SortHalves(s, a1, a2, MergedRange(a2, low, mid, high, first), low, mid, high, first);
    }
  }

  /** A range of one element is already sorted. */
  lemma {:induction false} SortsSingle<T(!new)>(s: seq<T>, low: int, first: (T, T) -> bool)
    requires TotalPreorder(first) && 0 <= low < |s|
    ensures SortsRange(s, s, low, low, first)
  {
    assert |s[low..low + 1]| == 1;
  }

  /** The three steps of the index-range merge sort, on snapshots of the
      array: sorting arr[low..mid], then arr[mid+1..high], then merging the
      two runs sorts arr[low..high] and leaves the rest alone. */
  lemma {:induction false} SortHalves<T(!new)>(a0: seq<T>, a1: seq<T>, a2: seq<T>, a3: seq<T>, low: int, mid: int, high: int, first: (T, T) -> bool)
    requires TotalPreorder(first)
    requires SortsRange(a0, a1, low, mid, first) && SortsRange(a1, a2, mid + 1, high, first)
    requires MergesRange(a2, a3, low, mid, high, first)
    ensures SortsRange(a0, a3, low, high, first)
  {
    HalvesFrame(a0, a1, a2, low, mid, high);
    HalvesSorted(a0, a1, a2, a3, low, mid, high, first);
  }

  /** The sorting half of SortHalves, from the facts each step provides. */
  lemma {:induction false} HalvesSorted<T(!new)>(a0: seq<T>, a1: seq<T>, a2: seq<T>, a3: seq<T>, low: int, mid: int, high: int, first: (T, T) -> bool)
    requires TotalPreorder(first) && 0 <= low <= mid < high < |a0| == |a1| == |a2| == |a3|
    requires a1[low..mid + 1] == MergeSort(a0[low..mid + 1], first)
    requires a2[low..mid + 1] == a1[low..mid + 1]
    requires a1[mid + 1..high + 1] == a0[mid + 1..high + 1]
    requires a2[mid + 1..high + 1] == MergeSort(a1[mid + 1..high + 1], first)
    requires a3[low..high + 1] == Merge(a2[low..mid + 1], a2[mid + 1..high + 1], first)
    ensures a3[low..high + 1] == MergeSort(a0[low..high + 1], first)
  {
    SliceSplit(a0, low, mid + 1, high + 1);
    MergeSortConcat(a0[low..mid + 1], a0[mid + 1..high + 1], first);
  }

  /** A slice is its two adjacent sub-slices. */
  lemma {:induction false} SliceSplit<T>(s: seq<T>, i: int, j: int, k: int)
    requires 0 <= i <= j <= k <= |s|
    ensures s[i..k] == s[i..j] + s[j..k]
  {
  }

  /** MergeSortSplit for a sequence given as its two parts. */
  lemma {:induction false} MergeSortConcat<T(!new)>(x: seq<T>, y: seq<T>, first: (T, T) -> bool)
    requires TotalPreorder(first)
    ensures Merge(MergeSort(x, first), MergeSort(y, first), first) == MergeSort(x + y, first)
  {
    MergeSortSplit(x + y, |x|, first);
    assert (x + y)[..|x|] == x && (x + y)[|x|..] == y;
  }

  /** What each step of the index-range merge sort leaves in place. */
  lemma {:induction false} HalvesFrame<T>(a0: seq<T>, a1: seq<T>, a2: seq<T>, low: int, mid: int, high: int)
    requires 0 <= low <= mid < high < |a0| == |a1| == |a2|
    requires a1[..low] == a0[..low] && a1[mid + 1..] == a0[mid + 1..]
    requires a2[..mid + 1] == a1[..mid + 1] && a2[high + 1..] == a1[high + 1..]
    ensures a1[mid + 1..high + 1] == a0[mid + 1..high + 1]
    ensures a2[low..mid + 1] == a1[low..mid + 1]
    ensures a2[..low] == a0[..low] && a2[high + 1..] == a0[high + 1..]
  {
    assert a1[mid + 1..high + 1] == a1[mid + 1..][..high - mid];
    assert a0[mid + 1..high + 1] == a0[mid + 1..][..high - mid];
    assert a2[low..mid + 1] == a2[..mid + 1][low..];
    assert a1[low..mid + 1] == a1[..mid + 1][low..];
    assert a2[..low] == a2[..mid + 1][..low];
    assert a1[..low] == a1[..mid + 1][..low];
    assert a1[high + 1..] == a1[mid + 1..][high - mid..];
    assert a0[high + 1..] == a0[mid + 1..][high - mid..];
  }

  /** What an index-range sort promises: arr[low..high] ends up sorted, as a
      stable permutation of what it held, and the whole array is a
      permutation of what it was. */
  lemma {:induction false} SortsRangeMeans<T(!new)>(before: seq<T>, after: seq<T>, low: int, high: int, first: (T, T) -> bool)
    requires TotalPreorder(first) && SortsRange(before, after, low, high, first)
    ensures SortedBy(after[low..high + 1], first)
    ensures multiset(after[low..high + 1]) == multiset(before[low..high + 1])
    ensures Stable(after[low..high + 1], before[low..high + 1], first)
    ensures multiset(after) == multiset(before)
    ensures forall i, j :: low <= i < j <= high ==> first(after[i], after[j])
    ensures forall p :: 0 <= p < |before| && !(low <= p <= high) ==> after[p] == before[p]
  {
    MergeSortSpec(before[low..high + 1], first);
    ThreePieces(before, after, low, high);
    SortsRangeIndexed(before, after, low, high, first);
  }

  /** Replacing a range of a sequence by a permutation of it permutes the
      whole sequence. */
  lemma {:induction false} ThreePieces<T>(before: seq<T>, after: seq<T>, low: int, high: int)
    requires 0 <= low <= high < |before| == |after|
    requires after[..low] == before[..low] && after[high + 1..] == before[high + 1..]
    requires multiset(after[low..high + 1]) == multiset(before[low..high + 1])
    ensures multiset(after) == multiset(before)
  {
    assert before == before[..low] + before[low..high + 1] + before[high + 1..];
    assert after == after[..low] + after[low..high + 1] + after[high + 1..];
  }

  /** The same promise, element by element: every pair in the range is in
      order and every element outside it stays where it was. */
  lemma {:induction false} SortsRangeIndexed<T(!new)>(before: seq<T>, after: seq<T>, low: int, high: int, first: (T, T) -> bool)
    requires TotalPreorder(first) && SortsRange(before, after, low, high, first)
    ensures forall i, j :: low <= i < j <= high ==> first(after[i], after[j])
    ensures forall p :: 0 <= p < |before| && !(low <= p <= high) ==> after[p] == before[p]
  {
    MergeSortSpec(before[low..high + 1], first);
    SortedSlice(after, low, high + 1, first);
    FrameIndexed(before, after, low, high);
  }

  /** A sorted slice orders every pair of its positions. */
  lemma {:induction false} SortedSlice<T>(s: seq<T>, low: int, high: int, first: (T, T) -> bool)
    requires 0 <= low <= high <= |s| && SortedBy(s[low..high], first)
    ensures forall i, j :: low <= i < j < high ==> first(s[i], s[j])
  {
    forall i, j | low <= i < j < high ensures first(s[i], s[j]) {
      assert s[i] == s[low..high][i - low] && s[j] == s[low..high][j - low];
    }
  }

  /** Equal prefixes and suffixes, element by element. */
  lemma {:induction false} FrameIndexed<T>(before: seq<T>, after: seq<T>, low: int, high: int)
    requires 0 <= low <= high < |before| == |after|
    requires after[..low] == before[..low] && after[high + 1..] == before[high + 1..]
    ensures forall p :: 0 <= p < |before| && !(low <= p <= high) ==> after[p] == before[p]
  {
    forall p | 0 <= p < |before| && !(low <= p <= high) ensures after[p] == before[p] {
      if p < low {
        assert after[p] == after[..low][p];
      } else {
        assert after[p] == after[high + 1..][p - high - 1];
      }
    }
  }
}
