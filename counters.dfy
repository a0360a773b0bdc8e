/** The flat find-or-create aggregators: one table of (key, total)
    entries built movie by movie with a linear scan per key, and the two
    selections that report the first entry after a stable sort by
    descending total. */
module Counters {
  import opened Ordering
  import opened Grouping
  import opened Text
  import opened Membership
  import opened Movies

  function CountriesOf(m: Movie): seq<string> {
    m.productionCountries
  }

  function CompaniesOf(m: Movie): seq<string> {
    m.productionCompanies
  }

  /** The names a movie lists (its countries, its companies), movie after
      movie. */
  function Listed(movies: seq<Movie>, names: Movie -> seq<string>): seq<string> {
    if movies == [] then []
    else Listed(movies[..|movies| - 1], names) + names(movies[|movies| - 1])
  }

  /** Each listed name with the revenue of the movie that lists it. */
  function Credits(movies: seq<Movie>, names: Movie -> seq<string>): seq<(string, int)> {
    if movies == [] then []
    else
      var m := movies[|movies| - 1];
      Credits(movies[..|movies| - 1], names) + Weighted(names(m), m.revenue)
  }

  /** The revenue earned by name c, counted the way a reader of the data
      would: a movie's revenue once for each time the movie lists c. */
  function Earned(movies: seq<Movie>, names: Movie -> seq<string>, c: string): int {
    if movies == [] then 0
    else
      var m := movies[|movies| - 1];
      Earned(movies[..|movies| - 1], names, c) + multiset(names(m))[c] * m.revenue
  }

  /** The key that the selections report: the first entry of a stable
      descending sort, or nothing for an empty table. */
  function Top<K>(t: seq<Entry<K>>): Option<K> {
    if t == [] then None else Some(t[Leader(t)].key)
  }

  /** In a table with distinct keys, the scan for an entry's key stops at
      that entry. */
  lemma {:induction false} FindDistinct<K>(t: seq<Entry<K>>, i: int)
    requires Distinct(Keys(t)) && 0 <= i < |t|
    ensures Find(t, t[i].key) == i
  {
    var f := Find(t, t[i].key);
    assert f <= i;
    assert Keys(t)[f] == Keys(t)[i];
  }

  /** A scan that stopped at the first entry with key k, or ran off the
      end, stopped where Find does. */
  lemma {:induction false} FindIs<K>(t: seq<Entry<K>>, k: K, i: int)
    requires 0 <= i <= |t| && (i < |t| ==> t[i].key == k)
    requires forall q :: 0 <= q < i ==> t[q].key != k
    ensures Find(t, k) == i
  {
  }

  /** The element a stable descending sort puts first is the first entry
      of largest value. */
  lemma {:induction false} SortedHead<K(!new)>(t: seq<Entry<K>>)
    requires t != []
    ensures MergeSort(t, ByValue<K>)[0] == t[Leader(t)]
  {
    ValueOrder<K>();
    StableSortHead(t, ByValue<K>);
    var head := MergeSort(t, ByValue<K>)[0];
    var p :| 0 <= p < |t| && t[p] == head && forall q :: 0 <= q < p ==> !ByValue(t[q], t[p]);
    forall q | 0 <= q < |t| ensures t[q].value <= t[p].value {
      assert t[q] in t;
    }
    LeaderUnique(t, p);
  }

  /** The reported key of a table of totals is None exactly for an empty
      stream; otherwise it is a key of the stream whose total no other key
      beats, and no key seen before it has the same total. */
  lemma {:induction false} TopSpec<K>(ps: seq<(K, int)>)
    ensures Top(Totals(ps)) == None <==> ps == []
    ensures forall c :: Top(Totals(ps)) == Some(c) ==>
      c in Firsts(ps) && forall k :: k in Firsts(ps) ==> SumFor(ps, k) <= SumFor(ps, c)
    ensures forall c, q ::
      (Top(Totals(ps)) == Some(c) && 0 <= q < |Dedup(Firsts(ps))| &&
       SumFor(ps, Dedup(Firsts(ps))[q]) == SumFor(ps, c)) ==> c in Dedup(Firsts(ps))[..q + 1]
  {
    TopEmpty(ps);
    if Totals(ps) != [] {
      TopValues(ps);
      TopMax(ps);
      TopFirst(ps);
    }
  }

  lemma {:induction false} TopEmpty<K>(ps: seq<(K, int)>)
    ensures Totals(ps) == [] <==> ps == []
  {
    TotalsSpec(ps);
    if ps != [] {
      assert ps[0].0 in Firsts(ps);
    }
  }

  /** In a table of totals, each entry's value is its key's total. */
  lemma {:induction false} TopValues<K>(ps: seq<(K, int)>)
    ensures forall i :: 0 <= i < |Totals(ps)| ==> SumFor(ps, Totals(ps)[i].key) == Totals(ps)[i].value
  {
    TotalsSpec(ps);
    forall i | 0 <= i < |Totals(ps)| ensures SumFor(ps, Totals(ps)[i].key) == Totals(ps)[i].value {
      FindDistinct(Totals(ps), i);
      assert ValueOf(Totals(ps), Totals(ps)[i].key) == Totals(ps)[i].value;
    }
  }

  lemma {:induction false} TopMax<K>(ps: seq<(K, int)>)
    requires Totals(ps) != []
    requires forall i :: 0 <= i < |Totals(ps)| ==> SumFor(ps, Totals(ps)[i].key) == Totals(ps)[i].value
    ensures var t := Totals(ps); var c := t[Leader(t)].key;
      c in Firsts(ps) && forall k :: k in Firsts(ps) ==> SumFor(ps, k) <= SumFor(ps, c)
  {
    var t := Totals(ps);
    TotalsSpec(ps);
    var c := t[Leader(t)].key;
    assert Keys(t)[Leader(t)] == c;
    forall k | k in Firsts(ps) ensures SumFor(ps, k) <= SumFor(ps, c) {
      var i :| 0 <= i < |t| && Keys(t)[i] == k;
    }
  }

  lemma {:induction false} TopFirst<K>(ps: seq<(K, int)>)
    requires Totals(ps) != []
    requires forall i :: 0 <= i < |Totals(ps)| ==> SumFor(ps, Totals(ps)[i].key) == Totals(ps)[i].value
    ensures var t := Totals(ps); var c := t[Leader(t)].key; var d := Dedup(Firsts(ps));
      forall q :: 0 <= q < |d| && SumFor(ps, d[q]) == SumFor(ps, c) ==> c in d[..q + 1]
  {
    var t := Totals(ps);
    TotalsSpec(ps);
    var l := Leader(t);
    var c := t[l].key;
    var d := Dedup(Firsts(ps));
    forall q | 0 <= q < |d| && SumFor(ps, d[q]) == SumFor(ps, c) ensures c in d[..q + 1] {
      assert d[q] == Keys(t)[q] == t[q].key;
      assert d[l] == c && l <= q;
      assert d[..q + 1][l] == c;
    }
  }

  /** The credits of one more movie are folded into the table. */
  lemma {:induction false} CreditsStep(movies: seq<Movie>, i: int, names: Movie -> seq<string>)
    requires 0 <= i < |movies|
    ensures Totals(Credits(movies[..i + 1], names)) ==
      Fold(Totals(Credits(movies[..i], names)), Weighted(names(movies[i]), movies[i].revenue))
  {
    assert movies[..i + 1][..i] == movies[..i];
    TotalsAppend(Credits(movies[..i], names), Weighted(names(movies[i]), movies[i].revenue));
  }

  /** The names of one more movie are counted into the table. */
  lemma {:induction false} ListedStep(movies: seq<Movie>, i: int, names: Movie -> seq<string>)
    requires 0 <= i < |movies|
    ensures Totals(Ones(Listed(movies[..i + 1], names))) ==
      Fold(Totals(Ones(Listed(movies[..i], names))), Ones(names(movies[i])))
  {
    assert movies[..i + 1][..i] == movies[..i];
    TotalsStep(Listed(movies[..i], names), names(movies[i]));
  }

  /** A name's credited total is the revenue it earned. */
  lemma {:induction false} CreditsEarned(movies: seq<Movie>, names: Movie -> seq<string>, c: string)
    ensures SumFor(Credits(movies, names), c) == Earned(movies, names, c)
  {
    if movies != [] {
      var init := movies[..|movies| - 1];
      var m := movies[|movies| - 1];
      CreditsEarned(init, names, c);
      SumForAppend(Credits(init, names), Weighted(names(m), m.revenue), c);
      WeightedSum(names(m), m.revenue, c);
    }
  }

  lemma {:induction false} SumForAppend<K>(ps: seq<(K, int)>, qs: seq<(K, int)>, k: K)
    ensures SumFor(ps + qs, k) == SumFor(ps, k) + SumFor(qs, k)
  {
    if qs == [] {
      assert ps + qs == ps;
    } else {
      var init := qs[..|qs| - 1];
      SumForAppend(ps, init, k);
      assert (ps + qs)[..|ps + qs| - 1] == ps + init;
      assert (ps + qs)[|ps + qs| - 1] == qs[|qs| - 1];
    }
  }

  lemma {:induction false} WeightedSum<K>(ks: seq<K>, w: int, k: K)
    ensures SumFor(Weighted(ks, w), k) == multiset(ks)[k] * w
  {
    if ks != [] {
      var init := ks[..|ks| - 1];
      var n := multiset(init)[k];
      assert (n + 1) * w == n * w + w;
      WeightedSum(init, w, k);
      assert Weighted(ks, w)[..|ks| - 1] == Weighted(init, w);
      MultisetLast(ks, k);
    }
  }

  /** The count of k in a sequence is its count in the front plus one if
      the last element is k. */
  lemma {:induction false} MultisetLast<K>(ks: seq<K>, k: K)
    requires ks != []
    ensures multiset(ks)[k] == multiset(ks[..|ks| - 1])[k] + (if ks[|ks| - 1] == k then 1 else 0)
  {
    assert ks == ks[..|ks| - 1] + [ks[|ks| - 1]];
  }

  /** `findMostProducingCountry`: count every (movie, country) pair, sort
      the counts stably by descending count and report the first country.
      An empty table has no first element; the model answers None. */
  method FindMostProducingCountry(movies: seq<Movie>) returns (country: Option<string>)
    ensures country == Top(Totals(Ones(Listed(movies, CountriesOf))))
  {
    var t: seq<Entry<string>> := [];
    for i := 0 to |movies|
      invariant t == Totals(Ones(Listed(movies[..i], CountriesOf)))
    {
      var cs := movies[i].productionCountries;
      ghost var t0 := t;
      for j := 0 to |cs|
        invariant t == Fold(t0, Ones(cs[..j]))
      {
        FoldStep(t0, cs, j, 1);
        t := Accumulate(t, cs[j], 1);
      }
      assert cs[..|cs|] == cs;
      ListedStep(movies, i, CountriesOf);
    }
    assert movies[..|movies|] == movies;
    country := FirstAfterSort(t);
  }

  /** `findCountryWithHighestProperty(movies, &Movie::revenue)`: sum each
      country's revenue over the movies listing it, sort stably by
      descending total and report the first country. */
  method FindCountryWithHighestRevenue(movies: seq<Movie>) returns (country: Option<string>)
    ensures country == Top(Totals(Credits(movies, CountriesOf)))
  {
    var t: seq<Entry<string>> := [];
    for i := 0 to |movies|
      invariant t == Totals(Credits(movies[..i], CountriesOf))
    {
      var m := movies[i];
      var cs := m.productionCountries;
      ghost var t0 := t;
      for j := 0 to |cs|
        invariant t == Fold(t0, Weighted(cs[..j], m.revenue))
      {
        FoldStep(t0, cs, j, m.revenue);
        t := Accumulate(t, cs[j], m.revenue);
      }
      assert cs[..|cs|] == cs;
      CreditsStep(movies, i, CountriesOf);
    }
    assert movies[..|movies|] == movies;
    country := FirstAfterSort(t);
  }

  /** The tail shared by both selections: `mergeSortPairs(t, 0, size - 1)`
      and then element 0. */
  method FirstAfterSort(t: seq<Entry<string>>) returns (first: Option<string>)
    ensures first == Top(t)
  {
    var sorted := SortByValue(t);
    if |sorted| == 0 {
      return None;
    }
    SortedHead(t);
    first := Some(sorted[0].key);
  }

  /** A table copied into an array and sorted there, stably by descending
      value. */
  method SortByValue<K(!new)>(t: seq<Entry<K>>) returns (sorted: seq<Entry<K>>)
    ensures sorted == MergeSort(t, ByValue<K>)
  {
    var a := new Entry<K>[|t|](k requires 0 <= k < |t| => t[k]);
    assert a[0..|t|] == t;
    MergeSortByValue(a, 0, |t| - 1);
    sorted := a[0..|t|];
  }

  /** What the most-producing country means: None exactly when no movie
      lists a country; otherwise a listed country that no other country
      outnumbers, and the first listed among those with its count. The
      counts add up to the number of (movie, country) pairs. */
  lemma {:induction false} MostProducingSpec(movies: seq<Movie>)
    ensures var ks := Listed(movies, CountriesOf);
      && (Top(Totals(Ones(ks))) == None <==> ks == [])
      && (forall c :: Top(Totals(Ones(ks))) == Some(c) ==>
           c in ks && forall k :: k in ks ==> multiset(ks)[k] <= multiset(ks)[c])
      && (forall c, q ::
           (Top(Totals(Ones(ks))) == Some(c) && 0 <= q < |Dedup(ks)| &&
            multiset(ks)[Dedup(ks)[q]] == multiset(ks)[c]) ==> c in Dedup(ks)[..q + 1])
      && SumValues(Totals(Ones(ks))) == |ks|
  {
    var ks := Listed(movies, CountriesOf);
    TopSpec(Ones(ks));
    FirstsOnes(ks);
    forall k ensures SumFor(Ones(ks), k) == multiset(ks)[k] {
      OnesSum(ks, k);
    }
    if ks != [] {
      CountSpec(ks, ks[0]);
    }
  }

  /** What the highest-revenue country means: None exactly when no movie
      lists a country; otherwise a listed country whose earned revenue no
      other country beats, and the first listed among those with its
      total. */
  lemma {:induction false} HighestRevenueSpec(movies: seq<Movie>)
    ensures var ps := Credits(movies, CountriesOf);
      && (Top(Totals(ps)) == None <==> Listed(movies, CountriesOf) == [])
      && (forall c :: Top(Totals(ps)) == Some(c) ==>
           c in Listed(movies, CountriesOf) &&
           forall k :: k in Listed(movies, CountriesOf) ==>
             Earned(movies, CountriesOf, k) <= Earned(movies, CountriesOf, c))
      && (forall c, q ::
           (Top(Totals(ps)) == Some(c) && 0 <= q < |Dedup(Listed(movies, CountriesOf))| &&
            Earned(movies, CountriesOf, Dedup(Listed(movies, CountriesOf))[q]) == Earned(movies, CountriesOf, c)) ==>
           c in Dedup(Listed(movies, CountriesOf))[..q + 1])
  {
    var ps := Credits(movies, CountriesOf);
    TopSpec(ps);
    CreditsFirsts(movies, CountriesOf);
    forall k {
      CreditsEarned(movies, CountriesOf, k);
    }
  }

  /** The names credited are the names listed. */
  lemma {:induction false} CreditsFirsts(movies: seq<Movie>, names: Movie -> seq<string>)
    ensures Firsts(Credits(movies, names)) == Listed(movies, names)
  {
    if movies != [] {
      var init := movies[..|movies| - 1];
      var m := movies[|movies| - 1];
      CreditsFirsts(init, names);
      var ps := Credits(init, names);
      var qs := Weighted(names(m), m.revenue);
      assert |Firsts(ps + qs)| == |Listed(movies, names)|;
      forall i | 0 <= i < |ps| + |qs|
        ensures Firsts(ps + qs)[i] == Listed(movies, names)[i]
      {
        if i < |ps| {
          assert (ps + qs)[i] == ps[i];
        } else {
          assert (ps + qs)[i] == qs[i - |ps|];
        }
      }
    }
  }

  function LanguageOf(m: Movie): seq<string> {
    [m.originalLanguage]
  }

  /** Two parallel vectors read as one table. */
  function Zip<K>(keys: seq<K>, counts: seq<int>): (t: seq<Entry<K>>)
    requires |keys| == |counts|
    ensures |t| == |keys| && forall i :: 0 <= i < |t| ==> t[i] == Entry(keys[i], counts[i])
  {
    seq(|keys|, i requires 0 <= i < |keys| => Entry(keys[i], counts[i]))
  }

  /** `languageDistribution`: the languages in first-seen order and, at
      the same index, how many movies use each. */
  method LanguageDistribution(movies: seq<Movie>) returns (languages: seq<string>, counts: seq<int>)
    ensures |languages| == |counts|
    ensures Zip(languages, counts) == Totals(Ones(Listed(movies, LanguageOf)))
  {
    languages, counts := [], [];
    for n := 0 to |movies|
      invariant |languages| == |counts|
      invariant Zip(languages, counts) == Totals(Ones(Listed(movies[..n], LanguageOf)))
    {
      var lang := movies[n].originalLanguage;
      var i := 0;
      while i < |languages| && languages[i] != lang
        invariant 0 <= i <= |languages|
        invariant forall q :: 0 <= q < i ==> languages[q] != lang
      {
        i := i + 1;
      }
      ZipAdd(languages, counts, lang, i);
      LanguageStep(movies, n);
      if i < |languages| {
        counts := counts[i := counts[i] + 1];
      } else {
        languages := languages + [lang];
        counts := counts + [1];
      }
    }
    assert movies[..|movies|] == movies;
  }

  /** One more movie bumps its language's count or appends the language. */
  lemma {:induction false} LanguageStep(movies: seq<Movie>, n: int)
    requires 0 <= n < |movies|
    ensures Totals(Ones(Listed(movies[..n + 1], LanguageOf))) ==
      Add(Totals(Ones(Listed(movies[..n], LanguageOf))), movies[n].originalLanguage, 1)
  {
    ListedStep(movies, n, LanguageOf);
    assert [movies[n].originalLanguage] == [] + [movies[n].originalLanguage];
    FoldSnoc(Totals(Ones(Listed(movies[..n], LanguageOf))), [], movies[n].originalLanguage, 1);
  }

  /** The scan over the parallel vectors stopped at i: bumping counts[i],
      or appending when i ran off the end, is the find-or-create step on
      the table they form. */
  lemma {:induction false} ZipAdd(languages: seq<string>, counts: seq<int>, lang: string, i: int)
    requires |languages| == |counts| && 0 <= i <= |languages|
    requires i < |languages| ==> languages[i] == lang
    requires forall q :: 0 <= q < i ==> languages[q] != lang
    ensures i < |languages| ==> Zip(languages, counts[i := counts[i] + 1]) == Add(Zip(languages, counts), lang, 1)
    ensures i == |languages| ==> Zip(languages + [lang], counts + [1]) == Add(Zip(languages, counts), lang, 1)
  {
    FindIs(Zip(languages, counts), lang, i);
  }

  /** Every movie lists exactly one language, so the counts add up to the
      number of movies; each count is the number of movies in that
      language, and the languages are distinct. */
  lemma {:induction false} LanguageDistributionSpec(movies: seq<Movie>, lang: string)
    ensures |Listed(movies, LanguageOf)| == |movies|
    ensures SumValues(Totals(Ones(Listed(movies, LanguageOf)))) == |movies|
    ensures ValueOf(Totals(Ones(Listed(movies, LanguageOf))), lang) ==
      multiset(Listed(movies, LanguageOf))[lang]
    ensures Distinct(Keys(Totals(Ones(Listed(movies, LanguageOf)))))
  {
    if movies != [] {
      LanguageDistributionSpec(movies[..|movies| - 1], lang);
    }
    CountSpec(Listed(movies, LanguageOf), lang);
    TotalsSpec(Ones(Listed(movies, LanguageOf)));
  }

  /** `insert`: bump the word's frequency, or append it with frequency 1. */
  method Insert(wordFreq: seq<Entry<string>>, word: string) returns (r: seq<Entry<string>>)
    ensures r == Add(wordFreq, word, 1)
  {
    r := Accumulate(wordFreq, word, 1);
  }

  /** The lowercase forms of the tokens that are not ignored, in order. */
  function Kept(tokens: seq<string>, ignored: seq<string>): seq<string> {
    if tokens == [] then []
    else
      var w := LowerAll(tokens[|tokens| - 1]);
      Kept(tokens[..|tokens| - 1], ignored) + (if w in ignored then [] else [w])
  }

  /** Every counted title word, movie after movie. */
  function TitleWords(movies: seq<Movie>, ignored: seq<string>): seq<string> {
    if movies == [] then []
    else TitleWords(movies[..|movies| - 1], ignored) + Kept(Words(movies[|movies| - 1].title), ignored)
  }

  /** `countWords`: every whitespace-separated title word, lowercased,
      unless the sorted ignore list holds it, is counted into one table. */
  method CountWords(movies: seq<Movie>, ignoredWords: seq<string>) returns (wordFreq: seq<Entry<string>>)
    requires SortedBy(ignoredWords, LexLeq)
    ensures wordFreq == Totals(Ones(TitleWords(movies, ignoredWords)))
  {
    wordFreq := [];
    for i := 0 to |movies|
      invariant wordFreq == Totals(Ones(TitleWords(movies[..i], ignoredWords)))
    {
      var words := Words(movies[i].title);
      ghost var t0 := wordFreq;
      for j := 0 to |words|
        invariant wordFreq == Fold(t0, Ones(Kept(words[..j], ignoredWords)))
      {
        var lowercaseWord := LowerWord(words[j]);
        var ignored := BinarySearch(ignoredWords, lowercaseWord);
        assert words[..j + 1][..j] == words[..j];
        if !ignored {
          FoldSnoc(t0, Kept(words[..j], ignoredWords), lowercaseWord, 1);
          wordFreq := Accumulate(wordFreq, lowercaseWord, 1);
        } else {
          assert Kept(words[..j + 1], ignoredWords) == Kept(words[..j], ignoredWords);
        }
      }
      assert words[..|words|] == words;
      assert movies[..i + 1][..i] == movies[..i];
      TotalsStep(TitleWords(movies[..i], ignoredWords), Kept(words, ignoredWords));
    }
    assert movies[..|movies|] == movies;
  }

  /** What `countWords` yields: each word's frequency is the number of
      times it was read and kept, the words are distinct, and every
      counted word is lower-case and not on the ignore list. */
  lemma {:induction false} CountWordsSpec(movies: seq<Movie>, ignored: seq<string>, w: string)
    ensures ValueOf(Totals(Ones(TitleWords(movies, ignored))), w) == multiset(TitleWords(movies, ignored))[w]
    ensures Distinct(Keys(Totals(Ones(TitleWords(movies, ignored)))))
    ensures w in Keys(Totals(Ones(TitleWords(movies, ignored)))) ==> w !in ignored && NoUpper(w)
  {
    var ws := TitleWords(movies, ignored);
    CountSpec(ws, w);
    TotalsSpec(Ones(ws));
    FirstsOnes(ws);
    TitleWordsClean(movies, ignored);
  }

  lemma {:induction false} TitleWordsClean(movies: seq<Movie>, ignored: seq<string>)
    ensures forall w :: w in TitleWords(movies, ignored) ==> w !in ignored && NoUpper(w)
  {
    if movies != [] {
      TitleWordsClean(movies[..|movies| - 1], ignored);
      KeptClean(Words(movies[|movies| - 1].title), ignored);
    }
  }

  lemma {:induction false} KeptClean(tokens: seq<string>, ignored: seq<string>)
    ensures forall w :: w in Kept(tokens, ignored) ==> w !in ignored && NoUpper(w)
  {
    if tokens != [] {
      KeptClean(tokens[..|tokens| - 1], ignored);
      LowerAllIdempotent(tokens[|tokens| - 1]);
    }
  }
}
