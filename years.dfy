/** `countTitleWordsByYear` and `sortWordFrequenciesByYear`: a table of
    (year, word frequencies) pairs. A movie with a release date is read
    for its year, the characters after the last '/' passed to stoi; a year
    on the exclusion list is skipped; otherwise the surviving words of the
    movie's title, split on single spaces, are counted into the year's
    table, which is created, possibly empty, on the year's first
    movie. */
module Years {
  import opened Ordering
  import opened Grouping
  import opened Text
  import opened Membership
  import opened Movies
  import opened Counters
  import opened Titles

  /** The years left out of the table, 1912 listed twice as in the
      engine. */
  const ExcludedYears: seq<int> := [1911, 1912, 1912, 1913, 1914, 2024, 2025, 2026]

  /** A dated movie whose year stoi cannot read: the engine stops with an
      exception there. */
  predicate YearFails(m: Movie) {
    m.releaseDate != [] && Stoi(AfterLastSlash(m.releaseDate)).None?
  }

  /** Movie m is dated, its year reads as y and y is not excluded. */
  predicate HasYear(m: Movie, y: int) {
    m.releaseDate != [] && Stoi(AfterLastSlash(m.releaseDate)) == Some(y) && y !in ExcludedYears
  }

  /** The surviving title words of a movie: `split(title, ' ')`, then the
      normaliser and the ignore list. */
  function TitleTokens(m: Movie, ignoredWords: seq<string>): seq<string> {
    Clean(NonEmpty(GetlineTokens(m.title, ' ')), ignoredWords)
  }

  /** The step movie m contributes: its year and its surviving words, when
      it has a readable year that is not excluded. */
  function YearStep(m: Movie, ignoredWords: seq<string>): seq<(int, seq<string>)> {
    if m.releaseDate == [] then []
    else
      match Stoi(AfterLastSlash(m.releaseDate))
      case None => []
      case Some(y) => if y in ExcludedYears then [] else [(y, TitleTokens(m, ignoredWords))]
  }

  function YearSteps(movies: seq<Movie>, ignoredWords: seq<string>): seq<(int, seq<string>)> {
    if movies == [] then []
    else YearSteps(movies[..|movies| - 1], ignoredWords) + YearStep(movies[|movies| - 1], ignoredWords)
  }

  /** The surviving title words of the movies of year y, movie after
      movie: the independent description of one year's table. */
  function YearWords(movies: seq<Movie>, y: int, ignoredWords: seq<string>): seq<string> {
    if movies == [] then []
    else
      var m := movies[|movies| - 1];
      YearWords(movies[..|movies| - 1], y, ignoredWords) + (if HasYear(m, y) then TitleTokens(m, ignoredWords) else [])
  }

  /** `countTitleWordsByYear(movies, ignoredWords)`, with ignoredWords
      supplied sorted. A date whose year stoi cannot read ends the run
      (None); otherwise the table is the one the year steps build. */
  method CountTitleWordsByYear(movies: seq<Movie>, ignoredWords: seq<string>) returns (r: Option<seq<Group<int>>>)
    requires SortedBy(ignoredWords, LexLeq)
    ensures r.None? <==> exists i :: 0 <= i < |movies| && YearFails(movies[i])
    ensures r.Some? ==> r.value == Groups(YearSteps(movies, ignoredWords))
  {
    var table: seq<Group<int>> := [];
    for i := 0 to |movies|
      invariant forall q :: 0 <= q < i ==> !YearFails(movies[q])
      invariant table == Groups(YearSteps(movies[..i], ignoredWords))
    {
      YearStepsNext(movies, i, ignoredWords);
      var failed;
      failed, table := CountYearMovie(table, movies[i], YearSteps(movies[..i], ignoredWords), ignoredWords);
      if failed {
        return None;
      }
      assert forall q :: 0 <= q < i + 1 ==> !YearFails(movies[q]) by {
        assert !YearFails(movies[i]);
      }
    }
    assert movies[..|movies|] == movies;
    r := Some(table);
  }

  /** The body of the year loop for one movie m: a dated movie whose year
      stoi cannot read fails; otherwise the table takes m's year step. */
  method CountYearMovie(table: seq<Group<int>>, m: Movie, ghost done: seq<(int, seq<string>)>, ignoredWords: seq<string>)
      returns (failed: bool, r: seq<Group<int>>)
    requires SortedBy(ignoredWords, LexLeq)
    requires table == Groups(done)
    ensures failed <==> YearFails(m)
    ensures !failed ==> r == Groups(done + YearStep(m, ignoredWords))
  {
    r := table;
    failed := false;
    if m.releaseDate != [] {
      var yearString := YearString(m.releaseDate);
      var parsed := Stoi(yearString);
      if parsed.None? {
        return true, r;
      }
      assert !YearFails(m);
      var year := parsed.value;
      var excluded := Contains(ExcludedYears, year);
      if !excluded {
        var tokens := Split(m.title, ' ');
        GroupsSnoc(done, year, TitleTokens(m, ignoredWords));
        r := EnterYear(table, year, tokens, ignoredWords);
      } else {
        assert done + [] == done;
      }
    } else {
      assert !YearFails(m);
      assert done + [] == done;
    }
  }

  lemma {:induction false} YearStepsNext(movies: seq<Movie>, i: int, ignoredWords: seq<string>)
    requires 0 <= i < |movies|
    ensures YearSteps(movies[..i + 1], ignoredWords) == YearSteps(movies[..i], ignoredWords) + YearStep(movies[i], ignoredWords)
  {
    assert movies[..i + 1][..i] == movies[..i];
  }

  /** The year loop for one movie: the entry of the year counts the
      movie's words; without one, a new entry holding just those counts is
      pushed. */
  method EnterYear(table: seq<Group<int>>, year: int, tokens: seq<string>, ignoredWords: seq<string>)
      returns (r: seq<Group<int>>)
    requires SortedBy(ignoredWords, LexLeq)
    ensures r == Enter(table, year, Clean(tokens, ignoredWords))
  {
    var k := 0;
    while k < |table|
      invariant 0 <= k <= |table|
      invariant forall q :: 0 <= q < k ==> table[q].key != year
    {
      if table[k].key == year {
        FindIs(Heads(table), year, k);
        var words := CountTokens(table[k].words, tokens, ignoredWords);
        return table[k := Group(year, words)];
      }
      k := k + 1;
    }
    FindIs(Heads(table), year, |table|);
    var words := CountTokens([], tokens, ignoredWords);
    r := table + [Group(year, words)];
  }

  /** The years the steps mention and the words they give each one. */
  lemma {:induction false} YearStepsMeaning(movies: seq<Movie>, iw: seq<string>, y: int)
    ensures y in Firsts(YearSteps(movies, iw)) <==> exists i :: 0 <= i < |movies| && HasYear(movies[i], y)
    ensures WordsFor(YearSteps(movies, iw), y) == YearWords(movies, y, iw)
  {
    if movies != [] {
      var init := movies[..|movies| - 1];
      var m := movies[|movies| - 1];
      YearStepsMeaning(init, iw, y);
      FirstsAppend(YearSteps(init, iw), YearStep(m, iw));
      WordsForAppend(YearSteps(init, iw), YearStep(m, iw), y);
      StepMeaning(m, iw, y);
      HasYearPrefix(movies, init, y);
    }
  }

  /** What one movie's step says about year y. */
  lemma {:induction false} StepMeaning(m: Movie, iw: seq<string>, y: int)
    ensures y in Firsts(YearStep(m, iw)) <==> HasYear(m, y)
    ensures WordsFor(YearStep(m, iw), y) == if HasYear(m, y) then TitleTokens(m, iw) else []
  {
    var st := YearStep(m, iw);
    if st != [] {
      assert Firsts(st) == [st[0].0];
      assert st[..0] == [];
    }
  }

  /** Some movie has year y exactly when one of the earlier movies or the
      last one does. */
  lemma {:induction false} HasYearPrefix(movies: seq<Movie>, init: seq<Movie>, y: int)
    requires movies != [] && init == movies[..|movies| - 1]
    ensures (exists i :: 0 <= i < |movies| && HasYear(movies[i], y)) <==>
      (exists i :: 0 <= i < |init| && HasYear(init[i], y)) || HasYear(movies[|movies| - 1], y)
  {
    var p := m => HasYear(m, y);
    ExistsSnoc(movies, init, p);
    assert forall i :: 0 <= i < |movies| ==> (p(movies[i]) <==> HasYear(movies[i], y));
    assert forall i :: 0 <= i < |init| ==> (p(init[i]) <==> HasYear(init[i], y));
  }

  lemma {:induction false} ExistsSnoc<T>(s: seq<T>, init: seq<T>, p: T -> bool)
    requires s != [] && init == s[..|s| - 1]
    ensures (exists i :: 0 <= i < |s| && p(s[i])) <==> (exists i :: 0 <= i < |init| && p(init[i])) || p(s[|s| - 1])
  {
    if exists i :: 0 <= i < |s| && p(s[i]) {
      var i :| 0 <= i < |s| && p(s[i]);
      if i < |init| {
        assert p(init[i]);
      }
    }
    if exists i :: 0 <= i < |init| && p(init[i]) {
      var i :| 0 <= i < |init| && p(init[i]);
      assert p(s[i]);
    }
  }

  /** What the year table means: no year twice; a year has an entry
      exactly when some dated movie reads as that year and the year is not
      excluded (even if none of its title words survives); each entry
      counts exactly the surviving title words of that year's movies. */
  lemma {:induction false} YearTableSpec(movies: seq<Movie>, iw: seq<string>)
    ensures var gs := Groups(YearSteps(movies, iw));
      && Distinct(Keys(Heads(gs)))
      && (forall y :: y in Keys(Heads(gs)) <==> exists i :: 0 <= i < |movies| && HasYear(movies[i], y))
      && (forall i :: 0 <= i < |gs| ==> gs[i].words == Totals(Ones(YearWords(movies, gs[i].key, iw))))
  {
    var st := YearSteps(movies, iw);
    var gs := Groups(st);
    GroupsMeaning(st);
    forall y ensures y in Keys(Heads(gs)) <==> exists i :: 0 <= i < |movies| && HasYear(movies[i], y) {
      YearStepsMeaning(movies, iw, y);
    }
    forall i | 0 <= i < |gs| ensures gs[i].words == Totals(Ones(YearWords(movies, gs[i].key, iw))) {
      YearStepsMeaning(movies, iw, gs[i].key);
    }
  }

  /** Inside one year's table: no word twice, each word counted as often
      as it survives in that year's titles, and every counted word
      non-empty, lower-case alphanumeric and not ignored. */
  lemma {:induction false} YearWordsSpec(movies: seq<Movie>, y: int, iw: seq<string>, w: string)
    ensures var t := Totals(Ones(YearWords(movies, y, iw)));
      && Distinct(Keys(t))
      && ValueOf(t, w) == multiset(YearWords(movies, y, iw))[w]
      && (w in Keys(t) ==> w != [] && AllAlnum(w) && NoUpper(w) && w !in iw)
  {
    WordTable(YearWords(movies, y, iw), w);
    YearWordsClean(movies, y, iw);
  }

  lemma {:induction false} YearWordsClean(movies: seq<Movie>, y: int, iw: seq<string>)
    ensures forall w :: w in YearWords(movies, y, iw) ==>
      w != [] && AllAlnum(w) && NoUpper(w) && w !in iw
  {
    if movies != [] {
      var m := movies[|movies| - 1];
      YearWordsClean(movies[..|movies| - 1], y, iw);
      CleanWords(NonEmpty(GetlineTokens(m.title, ' ')), iw);
    }
  }

  /** A movie of a readable, not excluded year creates an entry for that
      year even when none of its title words survives. */
  lemma {:induction false} EmptyYearEntry(m: Movie, y: int, iw: seq<string>)
    requires HasYear(m, y) && TitleTokens(m, iw) == []
    ensures Groups(YearSteps([m], iw)) == [Group(y, [])]
  {
    OneYearStep(m, y, iw);
    var empty: seq<(int, seq<string>)> := [];
    assert [(y, TitleTokens(m, iw))] == empty + [(y, [])];
    GroupsSnoc(empty, y, []);
    assert Totals(Ones<string>([])) == [];
  }

  /** A single movie with a readable, not excluded year y takes one step. */
  lemma {:induction false} OneYearStep(m: Movie, y: int, iw: seq<string>)
    requires HasYear(m, y)
    ensures YearSteps([m], iw) == [(y, TitleTokens(m, iw))]
  {
    assert [m][..0] == [];
    assert YearStep(m, iw) == [(y, TitleTokens(m, iw))];
  }

  /** `sortWordFrequenciesByYear`: each year's word table sorted in place,
      stably by descending frequency; the years keep their order. */
  method SortWordFrequenciesByYear(a: array<Group<int>>)
    modifies a
    ensures forall i :: 0 <= i < a.Length ==>
      a[i] == Group(old(a[i]).key, MergeSort(old(a[i]).words, ByValue<string>))
  {
    ghost var before := a[..];
    for i := 0 to a.Length
      invariant forall q :: 0 <= q < i ==> a[q] == SortedGroup(before[q])
      invariant a[i..] == before[i..]
    {
      assert a[i] == a[i..][0];
      a[i] := SortGroup(a[i]);
    }
  }

  /** A year entry with its word table sorted stably by descending
      frequency. */
  function SortedGroup(g: Group<int>): Group<int> {
    Group(g.key, MergeSort(g.words, ByValue<string>))
  }

  /** `mergeSort(yearEntry.second, 0, yearEntry.second.size() - 1)`. */
  method SortGroup(g: Group<int>) returns (r: Group<int>)
    ensures r == SortedGroup(g)
  {
    var words := SortByValue(g.words);
    r := Group(g.key, words);
  }
}
