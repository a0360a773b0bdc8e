/** The membership index of the program: the ignore lists are kept sorted
    (bucketSort, with insertSort inside every bucket) so that binarySearch
    can answer "is this word ignored?". Strings are ordered by
    std::string's operator<, `LexLess`. */
module Membership {
  import opened Ordering

  /** `binarySearch`: halve [left, right] until the middle element is the
      target or the range is empty. Whatever the vector, a "found" is
      genuine; on a sorted vector, every present target is found. */
  method BinarySearch(arr: seq<string>, target: string) returns (found: bool)
    ensures found ==> target in arr
    ensures SortedBy(arr, LexLeq) && target in arr ==> found
  {
    var left, right := 0, |arr| - 1;
    while left <= right
      invariant 0 <= left <= right + 1 <= |arr|
      invariant SortedBy(arr, LexLeq) ==>
        forall k :: 0 <= k < |arr| && arr[k] == target ==> left <= k <= right
      decreases right - left
    {
      var mid := left + (right - left) / 2;
      if arr[mid] == target {
        return true;
      } else if LexLess(arr[mid], target) {
        if SortedBy(arr, LexLeq) {
          forall k | 0 <= k <= mid ensures arr[k] != target {
            LexLeqLess(arr[k], arr[mid], target);
            LexLessIrreflexive(target);
          }
        }
        left := mid + 1;
      } else {
        if SortedBy(arr, LexLeq) {
          LexTrichotomy(arr[mid], target);
          forall k | mid <= k < |arr| ensures arr[k] != target {
            LexLessLeq(target, arr[mid], arr[k]);
            LexLessIrreflexive(target);
          }
        }
        right := mid - 1;
      }
    }
    return false;
  }

  lemma {:induction false} LexLeqLess(a: string, b: string, c: string)
    requires LexLeq(a, b) && LexLess(b, c)
    ensures LexLess(a, c)
  {
    if a != b {
      LexLessTransitive(a, b, c);
    }
  }

  lemma {:induction false} LexLessLeq(a: string, b: string, c: string)
    requires LexLess(a, b) && LexLeq(b, c)
    ensures LexLess(a, c)
  {
    if b != c {
      LexLessTransitive(a, b, c);
    }
  }

  /** The position `insertSort` stops at: the first element of bucket that
      is not less than val. */
  function InsertionPoint(bucket: seq<string>, val: string): (p: int)
    ensures 0 <= p <= |bucket|
    ensures forall q :: 0 <= q < p ==> LexLess(bucket[q], val)
    ensures p == |bucket| || !LexLess(bucket[p], val)
  {
    if bucket == [] || !LexLess(bucket[0], val) then 0
    else 1 + InsertionPoint(bucket[1..], val)
  }

  /** bucket with val inserted at its insertion point. */
  function InsertAt(bucket: seq<string>, val: string): seq<string> {
    var p := InsertionPoint(bucket, val);
    bucket[..p] + [val] + bucket[p..]
  }

  /** `insertSort`: walk past the elements less than val, insert val
      there. */
  method InsertSort(bucket: seq<string>, val: string) returns (r: seq<string>)
    ensures r == InsertAt(bucket, val)
  {
    var i := 0;
    while i < |bucket| && LexLess(bucket[i], val)
      invariant 0 <= i <= InsertionPoint(bucket, val)
    {
      i := i + 1;
    }
    r := bucket[..i] + [val] + bucket[i..];
  }

  lemma {:induction false} LexLeqTrans(a: string, b: string, c: string)
    requires LexLeq(a, b) && LexLeq(b, c)
    ensures LexLeq(a, c)
  {
    if a != b && b != c {
      LexLessTransitive(a, b, c);
    }
  }

  /** Inserting adds exactly val to the bucket. */
  lemma {:induction false} InsertAtPermutes(bucket: seq<string>, val: string)
    ensures multiset(InsertAt(bucket, val)) == multiset(bucket) + multiset{val}
  {
    var p := InsertionPoint(bucket, val);
    assert bucket == bucket[..p] + bucket[p..];
  }

  /** When the first element is not less than val, val goes in front. */
  lemma {:induction false} InsertAtFront(bucket: seq<string>, val: string)
    requires bucket == [] || !LexLess(bucket[0], val)
    ensures InsertAt(bucket, val) == [val] + bucket
  {
  }

  /** Otherwise the first element stays first and val goes into the rest. */
  lemma {:induction false} InsertAtCons(bucket: seq<string>, val: string)
    requires bucket != [] && LexLess(bucket[0], val)
    ensures InsertAt(bucket, val) == [bucket[0]] + InsertAt(bucket[1..], val)
  {
    var p := InsertionPoint(bucket, val);
    assert InsertionPoint(bucket[1..], val) == p - 1;
    assert bucket[..p] == [bucket[0]] + bucket[1..][..p - 1];
    assert bucket[p..] == bucket[1..][p - 1..];
  }

  /** Inserting into a sorted bucket keeps it sorted. */
  lemma {:induction false} InsertAtSorted(bucket: seq<string>, val: string)
    requires SortedBy(bucket, LexLeq)
    ensures SortedBy(InsertAt(bucket, val), LexLeq)
  {
    if bucket == [] || !LexLess(bucket[0], val) {
      InsertAtFront(bucket, val);
      forall y | y in bucket ensures LexLeq(val, y) {
        LexTrichotomy(bucket[0], val);
        LexLeqTrans(val, bucket[0], y);
      }
      PrependSorted(val, bucket, LexLeq);
    } else {
      var rest := InsertAt(bucket[1..], val);
      InsertAtCons(bucket, val);
      InsertAtSorted(bucket[1..], val);
      InsertAtPermutes(bucket[1..], val);
      forall y | y in rest ensures LexLeq(bucket[0], y) {
        assert multiset(rest)[y] > 0;
        if y != val {
          assert y in bucket[1..];
        }
      }
      PrependSorted(bucket[0], rest, LexLeq);
    }
  }

  /** The buckets glued together in order. */
  function Flatten(bs: seq<seq<string>>): seq<string>
  {
    if bs == [] then [] else Flatten(bs[..|bs| - 1]) + bs[|bs| - 1]
  }

  /** Every word of bucket b starts with the b-th lower-case letter. */
  ghost predicate InBucket(w: string, b: int) {
    w != [] && w[0] as int == 'a' as int + b
  }

  ghost predicate BucketsSorted(bs: seq<seq<string>>) {
    forall b :: 0 <= b < |bs| ==> SortedBy(bs[b], LexLeq) && forall w :: w in bs[b] ==> InBucket(w, b)
  }

  lemma {:induction false} FlattenSorted(bs: seq<seq<string>>)
    requires BucketsSorted(bs)
    ensures SortedBy(Flatten(bs), LexLeq)
    ensures forall w :: w in Flatten(bs) ==> w != [] && w[0] as int < 'a' as int + |bs|
  {
    if bs != [] {
      var init := bs[..|bs| - 1];
      var last := bs[|bs| - 1];
      assert BucketsSorted(init) by {
        forall b | 0 <= b < |init| ensures SortedBy(init[b], LexLeq) && forall w :: w in init[b] ==> InBucket(w, b) {
          assert init[b] == bs[b];
        }
      }
      FlattenSorted(init);
      var f := Flatten(init) + last;
      forall i, j | 0 <= i < j < |f| ensures LexLeq(f[i], f[j]) {
        if j >= |Flatten(init)| && i < |Flatten(init)| {
          assert f[i] in Flatten(init);
          assert f[j] in last;
        } else if j < |Flatten(init)| {
          assert f[i] == Flatten(init)[i] && f[j] == Flatten(init)[j];
        } else {
          assert f[i] == last[i - |Flatten(init)|] && f[j] == last[j - |Flatten(init)|];
        }
      }
      forall w | w in f ensures w != [] && w[0] as int < 'a' as int + |bs| {
        if w in last {
          assert InBucket(w, |bs| - 1);
        }
      }
    }
  }

  /** Replacing one bucket swaps its words for the new ones in the whole. */
  lemma {:induction false} FlattenUpdate(bs: seq<seq<string>>, i: int, x: seq<string>)
    requires 0 <= i < |bs|
    ensures multiset(Flatten(bs[i := x])) == multiset(Flatten(bs)) - multiset(bs[i]) + multiset(x)
  {
    var n := |bs|;
    if i == n - 1 {
      assert bs[i := x][..n - 1] == bs[..n - 1];
    } else {
      FlattenUpdate(bs[..n - 1], i, x);
      assert bs[i := x][..n - 1] == bs[..n - 1][i := x];
      assert multiset(bs[i]) <= multiset(Flatten(bs[..n - 1])) by {
        FlattenHas(bs[..n - 1], i);
      }
    }
  }

  /** Adding one word to one bucket adds that word to the whole. */
  lemma {:induction false} FlattenInsert(bs: seq<seq<string>>, i: int, x: seq<string>, w: string)
    requires 0 <= i < |bs| && multiset(x) == multiset(bs[i]) + multiset{w}
    ensures multiset(Flatten(bs[i := x])) == multiset(Flatten(bs)) + multiset{w}
  {
    FlattenUpdate(bs, i, x);
    FlattenHas(bs, i);
  }

  lemma {:induction false} FlattenHas(bs: seq<seq<string>>, i: int)
    requires 0 <= i < |bs|
    ensures multiset(bs[i]) <= multiset(Flatten(bs))
  {
    if i < |bs| - 1 {
      FlattenHas(bs[..|bs| - 1], i);
    }
  }

  /** `bucketSort`: drop every word into the bucket of its first letter,
      keeping each bucket sorted with InsertSort, then write the buckets
      back in alphabetical order. The words are then sorted and are the
      same words as before. */
  method BucketSort(words: array<string>)
    requires forall i :: 0 <= i < words.Length ==> words[i] != [] && 'a' <= words[i][0] <= 'z'
    modifies words
    ensures SortedBy(words[..], LexLeq)
    ensures multiset(words[..]) == multiset(old(words[..]))
  {
    var buckets := Distribute(words);
    FlattenSorted(buckets);
    CopyBack(words, buckets);
  }

  /** The first loop of bucketSort: every word goes into bucket
      word[0] - 'a' through InsertSort. */
  method Distribute(words: array<string>) returns (buckets: seq<seq<string>>)
    requires forall i :: 0 <= i < words.Length ==> words[i] != [] && 'a' <= words[i][0] <= 'z'
    ensures |buckets| == 26 && BucketsSorted(buckets)
    ensures multiset(Flatten(buckets)) == multiset(words[..])
  {
    buckets := seq(26, _ => []);
    FlattenEmpty(buckets);
    var n := 0;
    while n < words.Length
      invariant 0 <= n <= words.Length
      invariant |buckets| == 26 && BucketsSorted(buckets)
      invariant multiset(Flatten(buckets)) == multiset(words[..n])
    {
      var word := words[n];
      var b := word[0] as int - 'a' as int;
      var grown := InsertSort(buckets[b], word);
      DistributeStep(buckets, b, word);
      buckets := buckets[b := grown];
      assert words[..n + 1] == words[..n] + [word];
      n := n + 1;
    }
    assert words[..n] == words[..];
  }

  /** One step of the first loop keeps every bucket sorted and in its
      letter, and adds the word to the whole. */
  lemma {:induction false} DistributeStep(bs: seq<seq<string>>, b: int, word: string)
    requires BucketsSorted(bs) && 0 <= b < |bs| && InBucket(word, b)
    ensures BucketsSorted(bs[b := InsertAt(bs[b], word)])
    ensures multiset(Flatten(bs[b := InsertAt(bs[b], word)])) == multiset(Flatten(bs)) + multiset{word}
  {
    var grown := InsertAt(bs[b], word);
    InsertAtSorted(bs[b], word);
    InsertAtPermutes(bs[b], word);
    FlattenInsert(bs, b, grown, word);
    forall w | w in grown ensures InBucket(w, b) {
      assert multiset(grown)[w] > 0;
      if w != word {
        assert w in bs[b];
      }
    }
  }

  lemma {:induction false} FlattenEmpty(bs: seq<seq<string>>)
    requires forall b :: 0 <= b < |bs| ==> bs[b] == []
    ensures Flatten(bs) == []
  {
    if bs != [] {
      FlattenEmpty(bs[..|bs| - 1]);
    }
  }

  /** The second loop of bucketSort: write the buckets back over words,
      bucket after bucket. */
  method CopyBack(words: array<string>, bs: seq<seq<string>>)
    requires multiset(Flatten(bs)) == multiset(words[..])
    modifies words
    ensures words[..] == Flatten(bs)
  {
    assert |Flatten(bs)| == words.Length by {
      assert |multiset(Flatten(bs))| == |multiset(words[..])|;
    }
    var index := 0;
    var b := 0;
    while b < |bs|
      invariant 0 <= b <= |bs|
      invariant index == |Flatten(bs[..b])| <= words.Length
      invariant words[..index] == Flatten(bs[..b])
    {
      FlattenPrefix(bs, b + 1);
      assert bs[..b + 1][..b] == bs[..b];
      assert Flatten(bs[..b + 1]) == Flatten(bs[..b]) + bs[b];
      index := CopyBucket(words, index, bs[b]);
      assert words[..index] == Flatten(bs[..b]) + bs[b];
      b := b + 1;
    }
    assert bs[..b] == bs;
    assert words[..] == words[..index];
  }

  /** The inner loop of the second loop: one bucket written at index. */
  method CopyBucket(words: array<string>, index: int, bucket: seq<string>) returns (next: int)
    requires 0 <= index && index + |bucket| <= words.Length
    modifies words
    ensures next == index + |bucket|
    ensures words[..next] == old(words[..index]) + bucket
  {
    next := index;
    var j := 0;
    while j < |bucket|
      invariant 0 <= j <= |bucket| && next == index + j
      invariant words[..next] == old(words[..index]) + bucket[..j]
    {
      words[next] := bucket[j];
      assert bucket[..j + 1] == bucket[..j] + [bucket[j]];
      next := next + 1;
      j := j + 1;
    }
    assert bucket[..j] == bucket;
  }

  /** The words of the first k buckets are no more than all the words. */
  lemma {:induction false} FlattenPrefix(bs: seq<seq<string>>, k: int)
    requires 0 <= k <= |bs|
    ensures |Flatten(bs[..k])| <= |Flatten(bs)|
  {
    if k < |bs| {
      FlattenPrefix(bs[..|bs| - 1], k);
      assert bs[..|bs| - 1][..k] == bs[..k];
    } else {
      assert bs[..k] == bs;
    }
  }
}
