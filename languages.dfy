/** `countTitleWordsByOriginalLanguage`: a table of rows, one per original
    language, each row a header entry {language, 1} followed by the
    frequencies of the title words of that language's movies. Movies whose
    language is on the ignore list are skipped, and a language gets a row
    only once one of its title words survives the normaliser and the word
    ignore list. */
module Languages {
  import opened Ordering
  import opened Grouping
  import opened Text
  import opened Membership
  import opened Movies
  import opened Counters
  import opened Titles

  /** One step per surviving word, each credited to language k. */
  function Singles(k: string, ws: seq<string>): (st: seq<(string, seq<string>)>)
    ensures |st| == |ws| && forall i :: 0 <= i < |ws| ==> st[i] == (k, [ws[i]])
  {
    if ws == [] then [] else Singles(k, ws[..|ws| - 1]) + [(k, [ws[|ws| - 1]])]
  }

  /** The stream of (language, [word]) steps the movies give, in reading
      order: every surviving whitespace-separated title word of every movie
      whose language is not ignored. */
  function LanguageSteps(movies: seq<Movie>, ignoredLanguages: seq<string>, ignoredWords: seq<string>): seq<(string, seq<string>)> {
    if movies == [] then []
    else
      var m := movies[|movies| - 1];
      LanguageSteps(movies[..|movies| - 1], ignoredLanguages, ignoredWords) +
        (if m.originalLanguage in ignoredLanguages then []
         else Singles(m.originalLanguage, Clean(Words(m.title), ignoredWords)))
  }

  /** The rows as the engine holds them: the header entry {language, 1}
      (whose frequency is never changed), then the word entries. */
  function Headed(gs: seq<Group<string>>): (rows: seq<seq<Entry<string>>>)
    ensures |rows| == |gs|
    ensures forall i :: 0 <= i < |gs| ==> rows[i] == [Entry(gs[i].key, 1)] + gs[i].words
  {
    seq(|gs|, i requires 0 <= i < |gs| => [Entry(gs[i].key, 1)] + gs[i].words)
  }

  /** The surviving title words of the movies in language lang, movie after
      movie: the independent description of one row. */
  function LanguageWords(movies: seq<Movie>, lang: string, ignoredWords: seq<string>): seq<string> {
    if movies == [] then []
    else
      var m := movies[|movies| - 1];
      LanguageWords(movies[..|movies| - 1], lang, ignoredWords) +
        (if m.originalLanguage == lang then Clean(Words(m.title), ignoredWords) else [])
  }

  /** `countTitleWordsByOriginalLanguage(movies, ignoredLanguages,
      ignoredWords)`: the caller's ignoredLanguages is bucket-sorted in
      place first (its first letters must be 'a'..'z'); ignoredWords is
      supplied sorted. */
  method CountTitleWordsByOriginalLanguage(movies: seq<Movie>, ignoredLanguages: array<string>, ignoredWords: seq<string>)
      returns (table: seq<seq<Entry<string>>>)
    requires forall i :: 0 <= i < ignoredLanguages.Length ==>
      ignoredLanguages[i] != [] && 'a' <= ignoredLanguages[i][0] <= 'z'
    requires SortedBy(ignoredWords, LexLeq)
    modifies ignoredLanguages
    ensures SortedBy(ignoredLanguages[..], LexLeq)
    ensures multiset(ignoredLanguages[..]) == multiset(old(ignoredLanguages[..]))
    ensures table == Headed(Groups(LanguageSteps(movies, old(ignoredLanguages[..]), ignoredWords)))
  {
    ghost var given := ignoredLanguages[..];
    BucketSort(ignoredLanguages);
    var languages := ignoredLanguages[..];
    SameMembers(given, languages);
    LanguageStepsSame(movies, given, languages, ignoredWords);
    table := CountByLanguage(movies, languages, ignoredWords);
  }

  lemma {:induction false} SameMembers(a: seq<string>, b: seq<string>)
    requires multiset(a) == multiset(b)
    ensures forall x :: x in a <==> x in b
  {
    assert forall x :: x in a <==> x in multiset(a);
    assert forall x :: x in b <==> x in multiset(b);
  }

  /** The movie loop, once the ignored languages are sorted. */
  method CountByLanguage(movies: seq<Movie>, languages: seq<string>, ignoredWords: seq<string>)
      returns (table: seq<seq<Entry<string>>>)
    requires SortedBy(languages, LexLeq) && SortedBy(ignoredWords, LexLeq)
    ensures table == Headed(Groups(LanguageSteps(movies, languages, ignoredWords)))
  {
    ghost var gs: seq<Group<string>> := [];
    table := [];
    for i := 0 to |movies|
      invariant gs == Groups(LanguageSteps(movies[..i], languages, ignoredWords))
      invariant table == Headed(gs)
    {
      var m := movies[i];
      StepsNext(movies, i, languages, ignoredWords);
      var skip := BinarySearch(languages, m.originalLanguage);
      if !skip {
        table := CountMovie(table, gs, movies[..i], m, languages, ignoredWords);
        gs := Groups(LanguageSteps(movies[..i], languages, ignoredWords) +
          Singles(m.originalLanguage, Clean(Words(m.title), ignoredWords)));
      } else {
        assert LanguageSteps(movies[..i], languages, ignoredWords) + [] == LanguageSteps(movies[..i], languages, ignoredWords);
      }
    }
    assert movies[..|movies|] == movies;
  }

  /** The word loop for one movie whose language is not ignored. */
  method CountMovie(table: seq<seq<Entry<string>>>, ghost gs: seq<Group<string>>, ghost done: seq<Movie>, m: Movie,
                    languages: seq<string>, ignoredWords: seq<string>)
      returns (r: seq<seq<Entry<string>>>)
    requires SortedBy(ignoredWords, LexLeq)
    requires m.originalLanguage !in languages
    requires gs == Groups(LanguageSteps(done, languages, ignoredWords)) && table == Headed(gs)
    ensures r == Headed(Groups(LanguageSteps(done, languages, ignoredWords) +
      Singles(m.originalLanguage, Clean(Words(m.title), ignoredWords))))
  {
    var words := Words(m.title);
    ghost var steps := LanguageSteps(done, languages, ignoredWords);
    r := table;
    ghost var rs := gs;
    SinglesNone(steps, m.originalLanguage, words, ignoredWords);
    for j := 0 to |words|
      invariant rs == Groups(steps + Singles(m.originalLanguage, Clean(words[..j], ignoredWords)))
      invariant r == Headed(rs)
    {
      var w := NormaliseWord(words[j]);
      var ignored := BinarySearch(ignoredWords, w);
      if !ignored && w != [] {
        SinglesSnoc(steps, m.originalLanguage, words, j, ignoredWords);
        r := EnterWord(r, rs, m.originalLanguage, w);
        rs := Enter(rs, m.originalLanguage, [w]);
      } else {
        CleanSkip(words, j, ignoredWords);
      }
    }
    assert words[..|words|] == words;
  }

  /** The steps of one more movie. */
  lemma {:induction false} StepsNext(movies: seq<Movie>, i: int, il: seq<string>, iw: seq<string>)
    requires 0 <= i < |movies|
    ensures LanguageSteps(movies[..i + 1], il, iw) == LanguageSteps(movies[..i], il, iw) +
      (if movies[i].originalLanguage in il then [] else Singles(movies[i].originalLanguage, Clean(Words(movies[i].title), iw)))
  {
    assert movies[..i + 1][..i] == movies[..i];
  }

  lemma {:induction false} StepsSnoc(done: seq<Movie>, m: Movie, il: seq<string>, iw: seq<string>)
    ensures LanguageSteps(done + [m], il, iw) == LanguageSteps(done, il, iw) +
      (if m.originalLanguage in il then [] else Singles(m.originalLanguage, Clean(Words(m.title), iw)))
  {
    assert (done + [m])[..|done|] == done;
  }

  lemma {:induction false} SinglesNone(steps: seq<(string, seq<string>)>, k: string, words: seq<string>, iw: seq<string>)
    ensures steps + Singles(k, Clean(words[..0], iw)) == steps
  {
    assert words[..0] == [];
  }

  /** The language loop for one surviving word: the row whose header is
      the language counts the word among its entries from index 1 on;
      without such a row, {language, 1}, {word, 1} is pushed. */
  method EnterWord(table: seq<seq<Entry<string>>>, ghost gs: seq<Group<string>>, language: string, w: string)
      returns (r: seq<seq<Entry<string>>>)
    requires table == Headed(gs)
    ensures r == Headed(Enter(gs, language, [w]))
  {
    var k := 0;
    while k < |table|
      invariant 0 <= k <= |table|
      invariant forall q :: 0 <= q < k ==> gs[q].key != language
    {
      if table[k][0].key == language {
        FindIs(Heads(gs), language, k);
        assert table[k][1..] == gs[k].words;
        var words := Accumulate(table[k][1..], w, 1);
        r := table[k := [table[k][0]] + words];
        EnterFoundRow(gs, k, language, w);
        return;
      }
      k := k + 1;
    }
    FindIs(Heads(gs), language, |table|);
    r := table + [[Entry(language, 1), Entry(w, 1)]];
    EnterNewRow(gs, language, w);
  }

  lemma {:induction false} EnterFoundRow(gs: seq<Group<string>>, k: int, language: string, w: string)
    requires 0 <= k < |gs| && Find(Heads(gs), language) == k
    ensures Headed(Enter(gs, language, [w])) ==
      Headed(gs)[k := [Entry(language, 1)] + Add(gs[k].words, w, 1)]
  {
    OneWord(gs[k].words, w);
    var r := Enter(gs, language, [w]);
    assert r == gs[k := Group(language, Add(gs[k].words, w, 1))];
    assert Heads(gs)[k].key == language;
  }

  lemma {:induction false} EnterNewRow(gs: seq<Group<string>>, language: string, w: string)
    requires Find(Heads(gs), language) == |gs|
    ensures Headed(Enter(gs, language, [w])) == Headed(gs) + [[Entry(language, 1), Entry(w, 1)]]
  {
    OneWord([], w);
    var empty: seq<Entry<string>> := [];
    assert Add(empty, w, 1) == [Entry(w, 1)];
    assert Enter(gs, language, [w]) == gs + [Group(language, [Entry(w, 1)])];
    HeadedSnoc(gs, language, w);
  }

  lemma {:induction false} HeadedSnoc(gs: seq<Group<string>>, language: string, w: string)
    ensures Headed(gs + [Group(language, [Entry(w, 1)])]) == Headed(gs) + [[Entry(language, 1), Entry(w, 1)]]
  {
    var r := gs + [Group(language, [Entry(w, 1)])];
    var row := [Entry(language, 1), Entry(w, 1)];
    assert [Entry(language, 1)] + [Entry(w, 1)] == row;
    assert forall i :: 0 <= i < |r| ==> Headed(r)[i] == (Headed(gs) + [row])[i];
  }

  /** A token that survives adds one single-word step. */
  lemma {:induction false} SinglesSnoc(steps: seq<(string, seq<string>)>, k: string, words: seq<string>, j: int, iw: seq<string>)
    requires 0 <= j < |words|
    requires Normalise(words[j]) !in iw && Normalise(words[j]) != []
    ensures Groups(steps + Singles(k, Clean(words[..j + 1], iw))) ==
      Enter(Groups(steps + Singles(k, Clean(words[..j], iw))), k, [Normalise(words[j])])
  {
    var ws := Clean(words[..j], iw);
    var w := Normalise(words[j]);
    CleanKeep(words, j, iw);
    assert Singles(k, ws + [w]) == Singles(k, ws) + [(k, [w])];
    assert steps + Singles(k, ws + [w]) == (steps + Singles(k, ws)) + [(k, [w])];
    GroupsSnoc(steps + Singles(k, ws), k, [w]);
  }

  /** Only which languages are ignored matters, not their order. */
  lemma {:induction false} LanguageStepsSame(movies: seq<Movie>, a: seq<string>, b: seq<string>, ignoredWords: seq<string>)
    requires forall x :: x in a <==> x in b
    ensures LanguageSteps(movies, a, ignoredWords) == LanguageSteps(movies, b, ignoredWords)
  {
    if movies != [] {
      LanguageStepsSame(movies[..|movies| - 1], a, b, ignoredWords);
    }
  }

  /** The language a stream of single-word steps mentions, and the words
      it gives to each language. */
  lemma {:induction false} SinglesMeaning(k: string, ws: seq<string>, lang: string)
    ensures lang in Firsts(Singles(k, ws)) <==> lang == k && ws != []
    ensures WordsFor(Singles(k, ws), lang) == if lang == k then ws else []
  {
    if lang in Firsts(Singles(k, ws)) {
      assert Firsts(Singles(k, ws))[0] == k;
    }
    if ws != [] && lang == k {
      assert Firsts(Singles(k, ws))[0] == k;
    }
    SinglesWords(k, ws, lang);
  }

  lemma {:induction false} SinglesWords(k: string, ws: seq<string>, lang: string)
    ensures WordsFor(Singles(k, ws), lang) == if lang == k then ws else []
  {
    if ws != [] {
      var init := ws[..|ws| - 1];
      SinglesWords(k, init, lang);
      assert Singles(k, ws)[..|ws| - 1] == Singles(k, init);
      assert ws == init + [ws[|ws| - 1]];
    }
  }

  /** The languages the steps mention and the words they give each one. */
  lemma {:induction false} StepsMeaning(movies: seq<Movie>, il: seq<string>, iw: seq<string>, lang: string)
    ensures lang in Firsts(LanguageSteps(movies, il, iw)) <==> lang !in il && LanguageWords(movies, lang, iw) != []
    ensures WordsFor(LanguageSteps(movies, il, iw), lang) == if lang in il then [] else LanguageWords(movies, lang, iw)
  {
    if movies != [] {
      var init := movies[..|movies| - 1];
      var m := movies[|movies| - 1];
      assert movies == init + [m];
      StepsMeaning(init, il, iw, lang);
      if m.originalLanguage in il {
        StepsMeaningSkip(init, m, il, iw, lang);
      } else {
        StepsMeaningKept(init, m, il, iw, lang);
      }
    }
  }

  lemma {:induction false} StepsMeaningSkip(init: seq<Movie>, m: Movie, il: seq<string>, iw: seq<string>, lang: string)
    requires m.originalLanguage in il
    requires lang in Firsts(LanguageSteps(init, il, iw)) <==> lang !in il && LanguageWords(init, lang, iw) != []
    requires WordsFor(LanguageSteps(init, il, iw), lang) == if lang in il then [] else LanguageWords(init, lang, iw)
    ensures lang in Firsts(LanguageSteps(init + [m], il, iw)) <==> lang !in il && LanguageWords(init + [m], lang, iw) != []
    ensures WordsFor(LanguageSteps(init + [m], il, iw), lang) == if lang in il then [] else LanguageWords(init + [m], lang, iw)
  {
    StepsSnoc(init, m, il, iw);
    assert LanguageSteps(init, il, iw) + [] == LanguageSteps(init, il, iw);
    WordsSnoc(init, m, lang, iw);
    if lang !in il {
      assert m.originalLanguage != lang;
      assert LanguageWords(init, lang, iw) + [] == LanguageWords(init, lang, iw);
    }
  }

  lemma {:induction false} StepsMeaningKept(init: seq<Movie>, m: Movie, il: seq<string>, iw: seq<string>, lang: string)
    requires m.originalLanguage !in il
    requires lang in Firsts(LanguageSteps(init, il, iw)) <==> lang !in il && LanguageWords(init, lang, iw) != []
    requires WordsFor(LanguageSteps(init, il, iw), lang) == if lang in il then [] else LanguageWords(init, lang, iw)
    ensures lang in Firsts(LanguageSteps(init + [m], il, iw)) <==> lang !in il && LanguageWords(init + [m], lang, iw) != []
    ensures WordsFor(LanguageSteps(init + [m], il, iw), lang) == if lang in il then [] else LanguageWords(init + [m], lang, iw)
  {
    var a := LanguageSteps(init, il, iw);
    var ws := Clean(Words(m.title), iw);
    var b := Singles(m.originalLanguage, ws);
    StepsSnoc(init, m, il, iw);
    WordsSnoc(init, m, lang, iw);
    FirstsAppend(a, b);
    WordsForAppend(a, b, lang);
    SinglesMeaning(m.originalLanguage, ws, lang);
  }

  /** The words of one more movie. */
  lemma {:induction false} WordsSnoc(init: seq<Movie>, m: Movie, lang: string, iw: seq<string>)
    ensures LanguageWords(init + [m], lang, iw) ==
      LanguageWords(init, lang, iw) + (if m.originalLanguage == lang then Clean(Words(m.title), iw) else [])
  {
    assert (init + [m])[..|init|] == init;
  }

  /** What the language table means: no language twice; a language has a
      row exactly when it is not ignored and some title word of its movies
      survives; each row counts exactly those words. */
  lemma {:induction false} LanguageTableSpec(movies: seq<Movie>, il: seq<string>, iw: seq<string>)
    ensures var gs := Groups(LanguageSteps(movies, il, iw));
      && Distinct(Keys(Heads(gs)))
      && (forall lang :: lang in Keys(Heads(gs)) <==> lang !in il && LanguageWords(movies, lang, iw) != [])
      && (forall i :: 0 <= i < |gs| ==> gs[i].words == Totals(Ones(LanguageWords(movies, gs[i].key, iw))))
  {
    var st := LanguageSteps(movies, il, iw);
    var gs := Groups(st);
    GroupsMeaning(st);
    forall lang ensures lang in Firsts(st) <==> lang !in il && LanguageWords(movies, lang, iw) != [] {
      StepsMeaning(movies, il, iw, lang);
    }
    forall i | 0 <= i < |gs| ensures gs[i].words == Totals(Ones(LanguageWords(movies, gs[i].key, iw))) {
      assert gs[i].key == Keys(Heads(gs))[i];
      StepsMeaning(movies, il, iw, gs[i].key);
    }
  }

  /** Inside one row: no word twice, each word counted as often as it
      survives in the language's titles, and every counted word non-empty,
      lower-case alphanumeric and not ignored. */
  lemma {:induction false} LanguageWordsSpec(movies: seq<Movie>, lang: string, iw: seq<string>, w: string)
    ensures var t := Totals(Ones(LanguageWords(movies, lang, iw)));
      && Distinct(Keys(t))
      && ValueOf(t, w) == multiset(LanguageWords(movies, lang, iw))[w]
      && (w in Keys(t) ==> w != [] && AllAlnum(w) && NoUpper(w) && w !in iw)
  {
    WordTable(LanguageWords(movies, lang, iw), w);
    LanguageWordsClean(movies, lang, iw);
  }

  lemma {:induction false} LanguageWordsClean(movies: seq<Movie>, lang: string, iw: seq<string>)
    ensures forall w :: w in LanguageWords(movies, lang, iw) ==>
      w != [] && AllAlnum(w) && NoUpper(w) && w !in iw
  {
    if movies != [] {
      LanguageWordsClean(movies[..|movies| - 1], lang, iw);
      CleanWords(Words(movies[|movies| - 1].title), iw);
    }
  }

  /** A language row with its header kept in place and the word entries
      after it sorted stably by descending frequency. */
  function SortedRow(row: seq<Entry<string>>): seq<Entry<string>> {
    if row == [] then [] else [row[0]] + MergeSort(row[1..], ByValue<string>)
  }

  /** `mergeSort(languageEntry, 1, languageEntry.size() - 1)`. */
  method SortRow(row: seq<Entry<string>>) returns (sorted: seq<Entry<string>>)
    ensures sorted == SortedRow(row)
  {
    if |row| == 0 {
      return [];
    }
    var words := SortByValue(row[1..]);
    sorted := [row[0]] + words;
  }

  /** The loop in `main` that sorts each language row after its header. */
  method SortLanguageTable(rows: array<seq<Entry<string>>>)
    modifies rows
    ensures forall i :: 0 <= i < rows.Length ==> rows[i] == SortedRow(old(rows[i]))
  {
    ghost var before := rows[..];
    for i := 0 to rows.Length
      invariant forall q :: 0 <= q < i ==> rows[q] == SortedRow(before[q])
      invariant rows[i..] == before[i..]
    {
      assert rows[i] == rows[i..][0];
      rows[i] := SortRow(rows[i]);
    }
  }
}
