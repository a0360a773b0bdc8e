/** The two frequency reports that print a table instead of returning
    it: genre counts found by sorting and counting runs, and release-year
    counts found by find-or-create and then an exchange sort. The model
    returns the lines they print, as (key, count) entries. */
module Frequencies {
  import opened Ordering
  import opened Grouping
  import opened Text
  import opened Membership
  import opened Movies

  /** Each piece of a comma-separated string, trimmed. */
  function Trimmed(pieces: seq<string>): seq<string> {
    if pieces == [] then [] else Trimmed(pieces[..|pieces| - 1]) + [Trim(pieces[|pieces| - 1])]
  }

  lemma {:induction false} TrimmedStep(pieces: seq<string>, k: int)
    requires 0 <= k < |pieces|
    ensures Trimmed(pieces[..k + 1]) == Trimmed(pieces[..k]) + [Trim(pieces[k])]
  {
    assert pieces[..k + 1][..k] == pieces[..k];
  }

  /** The genres of one movie's genre column entries. */
  function GenresOf(genres: seq<string>): seq<string> {
    if genres == [] then []
    else GenresOf(genres[..|genres| - 1]) + Trimmed(GetlineTokens(genres[|genres| - 1], ','))
  }

  /** Every genre of every movie, in reading order. */
  function AllGenres(movies: seq<Movie>): seq<string> {
    if movies == [] then [] else AllGenres(movies[..|movies| - 1]) + GenresOf(movies[|movies| - 1].genres)
  }

  /** The runs of equal neighbours of s, each with its length. */
  function RunLengths(s: seq<string>): (r: seq<Entry<string>>)
    ensures |r| <= |s|
    ensures s != [] ==> r != [] && r[|r| - 1].key == s[|s| - 1]
  {
    if s == [] then []
    else
      var r := RunLengths(s[..|s| - 1]);
      var x := s[|s| - 1];
      if r != [] && r[|r| - 1].key == x then r[..|r| - 1] + [Entry(x, r[|r| - 1].value + 1)]
      else r + [Entry(x, 1)]
  }

  /** On a sorted list the runs are the distinct values in ascending
      order, each with its number of occurrences. */
  lemma {:induction false} RunLengthsSpec(s: seq<string>)
    requires SortedBy(s, LexLeq)
    ensures forall i, j :: 0 <= i < j < |RunLengths(s)| ==> LexLess(RunLengths(s)[i].key, RunLengths(s)[j].key)
    ensures forall i :: 0 <= i < |RunLengths(s)| ==>
      RunLengths(s)[i].key in s && RunLengths(s)[i].value == multiset(s)[RunLengths(s)[i].key]
    ensures forall x :: x in s ==> x in Keys(RunLengths(s))
  {
    RunsAscending(s);
    RunsCount(s);
    RunsCover(s);
  }

  /** In a sorted list whose last element differs from the one before,
      everything before the last element is smaller. */
  lemma {:induction false} BelowLast(init: seq<string>, x: string)
    requires SortedBy(init + [x], LexLeq)
    requires init == [] || init[|init| - 1] != x
    ensures forall e :: e in init ==> LexLess(e, x)
  {
    var s := init + [x];
    forall e | e in init ensures LexLess(e, x) {
      var p :| 0 <= p < |init| && init[p] == e;
      var y := init[|init| - 1];
      assert s[p] == e && s[|init| - 1] == y && s[|init|] == x;
      assert LexLeq(e, y) && LexLeq(y, x) && y != x;
      LexLeqLess(e, y, x);
    }
  }

  lemma {:induction false} SortedInit(s: seq<string>)
    requires s != [] && SortedBy(s, LexLeq)
    ensures SortedBy(s[..|s| - 1], LexLeq) && s == s[..|s| - 1] + [s[|s| - 1]]
  {
  }

  /** The run keys come from s and strictly ascend. */
  lemma {:induction false} RunsAscending(s: seq<string>)
    requires SortedBy(s, LexLeq)
    ensures forall i :: 0 <= i < |RunLengths(s)| ==> RunLengths(s)[i].key in s
    ensures forall i, j :: 0 <= i < j < |RunLengths(s)| ==> LexLess(RunLengths(s)[i].key, RunLengths(s)[j].key)
  {
    if s != [] {
      var init := s[..|s| - 1];
      var x := s[|s| - 1];
      SortedInit(s);
      RunsAscending(init);
      var r := RunLengths(init);
      if r != [] && r[|r| - 1].key == x {
        RunsAscendingSame(init, x);
      } else {
        BelowLast(init, x);
        RunsAscendingNew(init, x);
      }
    }
  }

  /** A last element equal to the last run's key lengthens that run. */
  lemma {:induction false} RunsAscendingSame(init: seq<string>, x: string)
    requires RunLengths(init) != [] && RunLengths(init)[|RunLengths(init)| - 1].key == x
    requires forall i :: 0 <= i < |RunLengths(init)| ==> RunLengths(init)[i].key in init
    requires forall i, j :: 0 <= i < j < |RunLengths(init)| ==> LexLess(RunLengths(init)[i].key, RunLengths(init)[j].key)
    ensures forall i :: 0 <= i < |RunLengths(init + [x])| ==> RunLengths(init + [x])[i].key in init + [x]
    ensures forall i, j :: 0 <= i < j < |RunLengths(init + [x])| ==>
      LexLess(RunLengths(init + [x])[i].key, RunLengths(init + [x])[j].key)
  {
    var s := init + [x];
    var r := RunLengths(init);
    var t := RunLengths(s);
    RunLengthsSnoc(init, x);
    forall i | 0 <= i < |t| ensures t[i].key == r[i].key && t[i].key in s {
      if i < |r| - 1 {
        assert t[i] == r[i];
      }
      assert r[i].key in init;
    }
  }

  /** One step of the run-counting loop: the runs of s[..i + 1] from the
      runs of s[..i], split into the closed runs and the open one. */
  lemma {:induction false} RunLengthsAt(s: seq<string>, i: int, counts: seq<Entry<string>>, count: int)
    requires 1 <= i < |s| && counts + [Entry(s[i - 1], count)] == RunLengths(s[..i])
    ensures s[i] != s[i - 1] ==>
      RunLengths(s[..i + 1]) == (counts + [Entry(s[i - 1], count)]) + [Entry(s[i], 1)]
    ensures s[i] == s[i - 1] ==> RunLengths(s[..i + 1]) == counts + [Entry(s[i], count + 1)]
  {
    assert s[..i + 1] == s[..i] + [s[i]];
    RunLengthsSnoc(s[..i], s[i]);
    var r := RunLengths(s[..i]);
    assert r[..|r| - 1] == counts;
  }

  /** RunLengths unfolded once at the end of its input. */
  lemma {:induction false} RunLengthsSnoc(init: seq<string>, x: string)
    ensures var r := RunLengths(init);
      RunLengths(init + [x]) ==
        if r != [] && r[|r| - 1].key == x then r[..|r| - 1] + [Entry(x, r[|r| - 1].value + 1)]
        else r + [Entry(x, 1)]
  {
    assert (init + [x])[..|init|] == init;
  }

  /** Any other last element opens a new run after the others. */
  lemma {:induction false} RunsAscendingNew(init: seq<string>, x: string)
    requires RunLengths(init) == [] || RunLengths(init)[|RunLengths(init)| - 1].key != x
    requires forall e :: e in init ==> LexLess(e, x)
    requires forall i :: 0 <= i < |RunLengths(init)| ==> RunLengths(init)[i].key in init
    requires forall i, j :: 0 <= i < j < |RunLengths(init)| ==> LexLess(RunLengths(init)[i].key, RunLengths(init)[j].key)
    ensures forall i :: 0 <= i < |RunLengths(init + [x])| ==> RunLengths(init + [x])[i].key in init + [x]
    ensures forall i, j :: 0 <= i < j < |RunLengths(init + [x])| ==>
      LexLess(RunLengths(init + [x])[i].key, RunLengths(init + [x])[j].key)
  {
    var s := init + [x];
    var r := RunLengths(init);
    var t := RunLengths(s);
    RunLengthsSnoc(init, x);
    forall i | 0 <= i < |t| ensures t[i].key in s && (i < |r| ==> t[i].key in init) {
      if i < |r| {
        assert t[i] == r[i];
      }
    }
    forall i, j | 0 <= i < j < |t| ensures LexLess(t[i].key, t[j].key) {
      if j < |r| {
        assert t[i] == r[i] && t[j] == r[j];
      }
    }
  }

  /** Each run's length is the number of occurrences of its key. */
  lemma {:induction false} RunsCount(s: seq<string>)
    requires SortedBy(s, LexLeq)
    ensures forall i :: 0 <= i < |RunLengths(s)| ==> RunLengths(s)[i].value == multiset(s)[RunLengths(s)[i].key]
  {
    if s != [] {
      var init := s[..|s| - 1];
      var x := s[|s| - 1];
      SortedInit(s);
      RunsCount(init);
      RunsAscending(init);
      var r := RunLengths(init);
      if r != [] && r[|r| - 1].key == x {
        CountSame(init, x);
      } else {
        BelowLast(init, x);
        CountNew(init, x);
      }
    }
  }

  lemma {:induction false} CountSame(init: seq<string>, x: string)
    requires var r := RunLengths(init); r != [] && r[|r| - 1].key == x
    requires forall i :: 0 <= i < |RunLengths(init)| ==>
      RunLengths(init)[i].value == multiset(init)[RunLengths(init)[i].key]
    requires forall i, j :: 0 <= i < j < |RunLengths(init)| ==> LexLess(RunLengths(init)[i].key, RunLengths(init)[j].key)
    ensures var t := RunLengths(init + [x]);
      forall i :: 0 <= i < |t| ==> t[i].value == multiset(init + [x])[t[i].key]
  {
    var s := init + [x];
    var r := RunLengths(init);
    var n := |r| - 1;
    var t := RunLengths(s);
    assert s[..|s| - 1] == init;
    assert t == r[..n] + [Entry(x, r[n].value + 1)];
    assert multiset(s) == multiset(init) + multiset{x};
    LexLessIrreflexive(x);
    forall i | 0 <= i < n ensures t[i].value == multiset(s)[t[i].key] {
      assert t[i] == r[i];
      assert LexLess(r[i].key, r[n].key);
    }
  }

  lemma {:induction false} CountNew(init: seq<string>, x: string)
    requires forall e :: e in init ==> LexLess(e, x)
    requires forall i :: 0 <= i < |RunLengths(init)| ==>
      RunLengths(init)[i].value == multiset(init)[RunLengths(init)[i].key]
    requires forall i :: 0 <= i < |RunLengths(init)| ==> RunLengths(init)[i].key in init
    requires var r := RunLengths(init); r == [] || r[|r| - 1].key != x
    ensures var t := RunLengths(init + [x]);
      forall i :: 0 <= i < |t| ==> t[i].value == multiset(init + [x])[t[i].key]
  {
    var s := init + [x];
    var r := RunLengths(init);
    var t := RunLengths(s);
    assert s[..|s| - 1] == init;
    assert t == r + [Entry(x, 1)];
    assert multiset(s) == multiset(init) + multiset{x};
    LexLessIrreflexive(x);
    forall i | 0 <= i < |t| ensures t[i].value == multiset(s)[t[i].key] {
      if i < |r| {
        assert t[i] == r[i];
      }
    }
  }

  /** Every element of s is the key of a run. */
  lemma {:induction false} RunsCover(s: seq<string>)
    ensures forall y :: y in s ==> y in Keys(RunLengths(s))
  {
    if s != [] {
      var init := s[..|s| - 1];
      var x := s[|s| - 1];
      assert s == init + [x];
      RunsCover(init);
      var r := RunLengths(init);
      var t := RunLengths(s);
      forall y | y in s ensures y in Keys(t) {
        if y == x {
          assert Keys(t)[|t| - 1] == y;
        } else {
          assert y in init;
          var i :| 0 <= i < |r| && Keys(r)[i] == y;
          assert t[i].key == r[i].key;
          assert Keys(t)[i] == y;
        }
      }
    }
  }

  /** The counting loop of `countAllGenresFrequency`: compare each element
      with its predecessor, closing a run when they differ, and close the
      last run if there is one. */
  method CountRuns(s: seq<string>) returns (counts: seq<Entry<string>>)
    ensures counts == RunLengths(s)
  {
    counts := [];
    var count := 1;
    var i := 1;
    while i < |s|
      invariant |s| == 0 ==> counts == []
      invariant |s| > 0 ==> 1 <= i <= |s| && counts + [Entry(s[i - 1], count)] == RunLengths(s[..i])
    {
      RunLengthsAt(s, i, counts, count);
      if s[i] != s[i - 1] {
        counts := counts + [Entry(s[i - 1], count)];
        count := 1;
      } else {
        count := count + 1;
      }
      i := i + 1;
    }
    if |s| > 0 {
      assert s[..|s|] == s;
      assert s[..1][..0] == [];
      counts := counts + [Entry(s[|s| - 1], count)];
    } else {
      assert counts == [];
    }
  }

  /** `countAllGenresFrequency`: split every genre entry at ',', trim each
      piece, sort all of them, and report each distinct genre with its
      number of occurrences, in ascending order. */
  method CountAllGenresFrequency(movies: seq<Movie>) returns (counts: seq<Entry<string>>)
    ensures forall i, j :: 0 <= i < j < |counts| ==> LexLess(counts[i].key, counts[j].key)
    ensures forall i :: 0 <= i < |counts| ==>
      counts[i].key in AllGenres(movies) && counts[i].value == multiset(AllGenres(movies))[counts[i].key]
    ensures forall g :: g in AllGenres(movies) ==> g in Keys(counts)
  {
    var all := CollectGenres(movies);
    var a := new string[|all|](k requires 0 <= k < |all| => all[k]);
    assert a[..] == all;
    MergeSortString(a, 0, |all| - 1);
    var sorted := a[..];
    assert SortedBy(sorted, LexLeq);
    assert multiset(sorted) == multiset(all);
    RunLengthsSpec(sorted);
    counts := CountRuns(sorted);
    forall g ensures g in sorted <==> g in all {
      assert g in sorted <==> g in multiset(sorted);
    }
  }

  /** The collecting loops of `countAllGenresFrequency`. */
  method CollectGenres(movies: seq<Movie>) returns (all: seq<string>)
    ensures all == AllGenres(movies)
  {
    all := [];
    for i := 0 to |movies|
      invariant all == AllGenres(movies[..i])
    {
      var genres := MovieGenres(movies[i].genres);
      all := all + genres;
      assert movies[..i + 1][..i] == movies[..i];
    }
    assert movies[..|movies|] == movies;
  }

  /** The loop over one movie's genre entries. */
  method MovieGenres(genres: seq<string>) returns (r: seq<string>)
    ensures r == GenresOf(genres)
  {
    r := [];
    for j := 0 to |genres|
      invariant r == GenresOf(genres[..j])
    {
      GenresStep(genres, j);
      var pieces := TrimmedPieces(genres[j]);
      r := r + pieces;
    }
    assert genres[..|genres|] == genres;
  }

  lemma {:induction false} GenresStep(genres: seq<string>, j: int)
    requires 0 <= j < |genres|
    ensures GenresOf(genres[..j + 1]) == GenresOf(genres[..j]) + Trimmed(GetlineTokens(genres[j], ','))
  {
    assert genres[..j + 1][..j] == genres[..j];
  }

  /** The `getline(ss, individualGenre, ',')` loop: each piece of the
      entry, trimmed, in order. */
  method TrimmedPieces(genre: string) returns (r: seq<string>)
    ensures r == Trimmed(GetlineTokens(genre, ','))
  {
    var pieces := GetlineTokens(genre, ',');
    r := [];
    for k := 0 to |pieces|
      invariant r == Trimmed(pieces[..k])
    {
      var individualGenre := Trim(pieces[k]);
      TrimmedStep(pieces, k);
      r := r + [individualGenre];
    }
    assert pieces[..|pieces|] == pieces;
  }

  /** The years `countReleaseYearFrequency` reads: the last four
      characters of every release date of length at least 4, as read by
      `stoi`. A date whose last four characters hold no number makes
      `stoi` throw, and the whole report fails: None. */
  function ReleaseYears(movies: seq<Movie>): Option<seq<int>> {
    if movies == [] then Some([])
    else
      match ReleaseYears(movies[..|movies| - 1])
      case None => None
      case Some(ys) =>
        var d := movies[|movies| - 1].releaseDate;
        if |d| < 4 then Some(ys)
        else
          match Stoi(d[|d| - 4..])
          case None => None
          case Some(y) => Some(ys + [y])
  }

  /** A report that failed on a prefix fails on the whole list. */
  lemma {:induction false} ReleaseYearsFail(movies: seq<Movie>, i: int)
    requires 0 <= i <= |movies| && ReleaseYears(movies[..i]).None?
    ensures ReleaseYears(movies).None?
    decreases |movies| - i
  {
    if i < |movies| {
      assert movies[..i + 1][..i] == movies[..i];
      ReleaseYearsFail(movies, i + 1);
    } else {
      assert movies[..i] == movies;
    }
  }

  /** `countReleaseYearFrequency`: count the movies of each year, then
      order the (year, count) entries by descending count with an
      exchange sort. The result lists each year read exactly once, with
      the number of movies released that year. */
  method CountReleaseYearFrequency(movies: seq<Movie>) returns (r: Option<seq<Entry<int>>>)
    ensures r.None? <==> ReleaseYears(movies).None?
    ensures r.Some? ==> forall i, j :: 0 <= i < j < |r.value| ==> r.value[i].value >= r.value[j].value
    ensures r.Some? ==> multiset(r.value) == multiset(Totals(Ones(ReleaseYears(movies).value)))
  {
    var t: seq<Entry<int>> := [];
    ghost var years: seq<int> := [];
    for i := 0 to |movies|
      invariant ReleaseYears(movies[..i]) == Some(years) && t == Totals(Ones(years))
    {
      var d := movies[i].releaseDate;
      assert movies[..i + 1][..i] == movies[..i];
      if |d| >= 4 {
        var year := Stoi(d[|d| - 4..]);
        if year.None? {
          ReleaseYearsFail(movies, i + 1);
          return None;
        }
        FoldSnoc([], years, year.value, 1);
        t := Accumulate(t, year.value, 1);
        years := years + [year.value];
      }
    }
    assert movies[..|movies|] == movies;
    var a := new Entry<int>[|t|](k requires 0 <= k < |t| => t[k]);
    assert a[..] == t;
    ExchangeSort(a);
    r := Some(a[..]);
  }

  /** What the year report holds: for every entry, the year was read and
      the count is the number of movies with that year; the counts add up
      to the number of years read. */
  lemma {:induction false} YearFrequencySpec(years: seq<int>)
    ensures forall e :: e in Totals(Ones(years)) ==> e.key in years && e.value == multiset(years)[e.key]
    ensures SumValues(Totals(Ones(years))) == |years|
  {
    YearEntries(years);
    if years != [] {
      CountSpec(years, years[0]);
    }
  }

  lemma {:induction false} YearEntries(years: seq<int>)
    ensures forall e :: e in Totals(Ones(years)) ==> e.key in years && e.value == multiset(years)[e.key]
  {
    var t := Totals(Ones(years));
    forall e | e in t ensures e.key in years && e.value == multiset(years)[e.key] {
      var i :| 0 <= i < |t| && t[i] == e;
      YearEntry(years, i);
    }
  }

  lemma {:induction false} YearEntry(years: seq<int>, i: int)
    requires 0 <= i < |Totals(Ones(years))|
    ensures var e := Totals(Ones(years))[i]; e.key in years && e.value == multiset(years)[e.key]
  {
    var t := Totals(Ones(years));
    var e := t[i];
    TotalsSpec(Ones(years));
    FirstsOnes(years);
    assert Keys(t)[i] == e.key;
    var f := Find(t, e.key);
    assert Keys(t)[f] == Keys(t)[i];
    CountSpec(years, e.key);
  }

  /** The nested swap loops of `countReleaseYearFrequency`: position i
      receives, by swaps, the largest count of what follows it. */
  method ExchangeSort(a: array<Entry<int>>)
    modifies a
    ensures forall i, j :: 0 <= i < j < a.Length ==> a[i].value >= a[j].value
    ensures multiset(a[..]) == multiset(old(a[..]))
  {
    for i := 0 to a.Length
      invariant multiset(a[..]) == multiset(old(a[..]))
      invariant forall p, q :: 0 <= p < i && p < q < a.Length ==> a[p].value >= a[q].value
    {
      SwapLargestTo(a, i);
    }
  }

  /** The inner loop: compare position i with every later position and
      swap whenever the later count is larger, so that position i ends up
      holding the largest count from i on. The positions before i, already
      holding larger counts, are not touched. */
  method SwapLargestTo(a: array<Entry<int>>, i: int)
    requires 0 <= i < a.Length
    requires forall p, q :: 0 <= p < i && p < q < a.Length ==> a[p].value >= a[q].value
    modifies a
    ensures forall p, q :: 0 <= p <= i && p < q < a.Length ==> a[p].value >= a[q].value
    ensures multiset(a[..]) == multiset(old(a[..]))
  {
    for j := i + 1 to a.Length
      invariant multiset(a[..]) == multiset(old(a[..]))
      invariant forall p, q :: 0 <= p < i && p < q < a.Length ==> a[p].value >= a[q].value
      invariant forall q :: i < q < j ==> a[i].value >= a[q].value
    {
      CompareSwap(a, i, j);
    }
  }

  /** One step of the inner loop: swap a[i] and a[j] when a[j] holds the
      larger count. */
  method CompareSwap(a: array<Entry<int>>, i: int, j: int)
    requires 0 <= i < j < a.Length
    modifies a
    ensures a[i].value >= a[j].value
    ensures (a[i] == old(a[i]) && a[j] == old(a[j])) || (a[i] == old(a[j]) && a[j] == old(a[i]))
    ensures forall q :: 0 <= q < a.Length && q != i && q != j ==> a[q] == old(a[q])
    ensures multiset(a[..]) == multiset(old(a[..]))
  {
    if a[i].value < a[j].value {
      Swap(a, i, j);
    }
  }

  /** `swap(a[i], a[j])`. */
  method Swap(a: array<Entry<int>>, i: int, j: int)
    requires 0 <= i < j < a.Length
    modifies a
    ensures a[..] == old(a[..])[i := old(a[j])][j := old(a[i])]
    ensures multiset(a[..]) == multiset(old(a[..]))
  {
    a[i], a[j] := a[j], a[i];
  }
}
