/** `processCompanyInfo`: one record per production company, built movie by
    movie and company by company with a linear scan for the company's
    name. A company seen again gets the movie's revenue added to its total
    and the movie's countries it has not produced in yet appended to its
    country list; a new company is pushed with the movie's revenue and the
    movie's country list as they are. */
module Companies {
  import opened Ordering
  import opened Grouping
  import opened Text
  import opened Movies
  import opened Counters

  /** The (name, total revenue) table the company records form. */
  function Ledger(cs: seq<CompanyInfo>): (t: seq<Entry<string>>)
    ensures |t| == |cs| && forall i :: 0 <= i < |cs| ==> t[i] == Entry(cs[i].name, cs[i].totalRevenue)
  {
    seq(|cs|, i requires 0 <= i < |cs| => Entry(cs[i].name, cs[i].totalRevenue))
  }

  /** One company of movie m credited to the records. */
  function Credit(cs: seq<CompanyInfo>, company: string, m: Movie): seq<CompanyInfo> {
    var i := Find(Ledger(cs), company);
    if i < |cs| then
      cs[i := CompanyInfo(company, cs[i].totalRevenue + m.revenue,
                          Absorb(cs[i].producedCountries, m.productionCountries))]
    else cs + [CompanyInfo(company, m.revenue, m.productionCountries)]
  }

  /** The companies names, in order, credited with movie m. */
  function CreditAll(cs: seq<CompanyInfo>, names: seq<string>, m: Movie): seq<CompanyInfo> {
    if names == [] then cs
    else Credit(CreditAll(cs, names[..|names| - 1], m), names[|names| - 1], m)
  }

  /** The records after every movie has been processed. */
  function Process(movies: seq<Movie>): seq<CompanyInfo> {
    if movies == [] then []
    else
      var m := movies[|movies| - 1];
      CreditAll(Process(movies[..|movies| - 1]), m.productionCompanies, m)
  }

  /** The country list of company c in the records, or nothing when c has
      no record. */
  function ProducedFor(cs: seq<CompanyInfo>, c: string): seq<string> {
    var i := Find(Ledger(cs), c);
    if i < |cs| then cs[i].producedCountries else []
  }

  /** The countries of every movie that lists company c, movie after
      movie. */
  function CountriesOfCompany(movies: seq<Movie>, c: string): seq<string> {
    if movies == [] then []
    else
      var m := movies[|movies| - 1];
      CountriesOfCompany(movies[..|movies| - 1], c) +
        (if c in m.productionCompanies then m.productionCountries else [])
  }

  /** `processCompanyInfo(movies)`. */
  method ProcessCompanyInfo(movies: seq<Movie>) returns (companies: seq<CompanyInfo>)
    ensures companies == Process(movies)
  {
    companies := [];
    for i := 0 to |movies|
      invariant companies == Process(movies[..i])
    {
      var m := movies[i];
      var names := m.productionCompanies;
      ghost var before := companies;
      for j := 0 to |names|
        invariant companies == CreditAll(before, names[..j], m)
      {
        assert names[..j + 1][..j] == names[..j];
        companies := CreditCompany(companies, names[j], m);
      }
      assert names[..|names|] == names;
      assert movies[..i + 1][..i] == movies[..i];
    }
    assert movies[..|movies|] == movies;
  }

  /** The body of the company loop: scan the records for the company's
      name; bump the record found, or push a new one. */
  method CreditCompany(companies: seq<CompanyInfo>, company: string, m: Movie) returns (r: seq<CompanyInfo>)
    ensures r == Credit(companies, company, m)
  {
    var k := 0;
    while k < |companies|
      invariant 0 <= k <= |companies|
      invariant forall q :: 0 <= q < k ==> companies[q].name != company
    {
      if companies[k].name == company {
        FindIs(Ledger(companies), company, k);
        var countries := AbsorbCountries(companies[k].producedCountries, m.productionCountries);
        return companies[k := CompanyInfo(company, companies[k].totalRevenue + m.revenue, countries)];
      }
      k := k + 1;
    }
    FindIs(Ledger(companies), company, |companies|);
    r := companies + [CompanyInfo(company, m.revenue, m.productionCountries)];
  }

  /** The country loop: each country of the movie is appended to the
      company's list unless a scan of the list finds it. */
  method AbsorbCountries(produced: seq<string>, countries: seq<string>) returns (r: seq<string>)
    ensures r == Absorb(produced, countries)
  {
    r := produced;
    for j := 0 to |countries|
      invariant r == Absorb(produced, countries[..j])
    {
      assert countries[..j + 1][..j] == countries[..j];
      var found := Contains(r, countries[j]);
      if !found {
        r := r + [countries[j]];
      }
    }
    assert countries[..|countries|] == countries;
  }

  /** Crediting a company is one find-or-create step on the (name, total)
      table. */
  lemma {:induction false} LedgerCredit(cs: seq<CompanyInfo>, company: string, m: Movie)
    ensures Ledger(Credit(cs, company, m)) == Add(Ledger(cs), company, m.revenue)
  {
    var i := Find(Ledger(cs), company);
    if i < |cs| {
      assert Ledger(Credit(cs, company, m)) == Ledger(cs)[i := Entry(company, cs[i].totalRevenue + m.revenue)];
    } else {
      assert Ledger(Credit(cs, company, m)) == Ledger(cs) + [Entry(company, m.revenue)];
    }
  }

  lemma {:induction false} LedgerCreditAll(cs: seq<CompanyInfo>, names: seq<string>, m: Movie)
    ensures Ledger(CreditAll(cs, names, m)) == Fold(Ledger(cs), Weighted(names, m.revenue))
  {
    if names != [] {
      var init := names[..|names| - 1];
      LedgerCreditAll(cs, init, m);
      LedgerCredit(CreditAll(cs, init, m), names[|names| - 1], m);
      FoldSnoc(Ledger(cs), init, names[|names| - 1], m.revenue);
      assert init + [names[|names| - 1]] == names;
    }
  }

  /** The (name, total) table of the records is the table the revenue
      credits of every (movie, company) pair fold into. */
  lemma {:induction false} LedgerProcess(movies: seq<Movie>)
    ensures Ledger(Process(movies)) == Totals(Credits(movies, CompaniesOf))
  {
    if movies != [] {
      var init := movies[..|movies| - 1];
      var m := movies[|movies| - 1];
      LedgerProcess(init);
      LedgerCreditAll(Process(init), m.productionCompanies, m);
      TotalsAppend(Credits(init, CompaniesOf), Weighted(m.productionCompanies, m.revenue));
    }
  }

  /** What the records mean: one record per company listed by some movie,
      no company twice, in the order the companies are first listed, each
      with the revenue the company earned. */
  lemma {:induction false} ProcessSpec(movies: seq<Movie>)
    ensures var cs := Process(movies);
      && (forall i, j :: 0 <= i < j < |cs| ==> cs[i].name != cs[j].name)
      && Keys(Ledger(cs)) == Dedup(Listed(movies, CompaniesOf))
      && (forall c :: c in Keys(Ledger(cs)) <==> c in Listed(movies, CompaniesOf))
      && (forall i :: 0 <= i < |cs| ==> cs[i].totalRevenue == Earned(movies, CompaniesOf, cs[i].name))
  {
    var cs := Process(movies);
    var ps := Credits(movies, CompaniesOf);
    LedgerProcess(movies);
    TotalsSpec(ps);
    CreditsFirsts(movies, CompaniesOf);
    var t := Ledger(cs);
    assert forall i :: 0 <= i < |cs| ==> Keys(t)[i] == cs[i].name;
    forall i | 0 <= i < |cs|
      ensures cs[i].totalRevenue == Earned(movies, CompaniesOf, cs[i].name)
    {
      FindDistinct(t, i);
      assert ValueOf(t, cs[i].name) == cs[i].totalRevenue;
      CreditsEarned(movies, CompaniesOf, cs[i].name);
    }
  }

  /** Crediting company k leaves the country list of every other company as
      it was, and the country list of k grows by the movie's countries,
      only at its end and only by countries it did not hold. A company
      credited for the first time takes the movie's list as it is, so the
      list stays duplicate-free when the movie's list is. */
  lemma {:induction false} CreditCountries(cs: seq<CompanyInfo>, k: string, m: Movie, c: string)
    ensures AppendsNew(ProducedFor(cs, c), ProducedFor(Credit(cs, k, m), c))
    ensures k != c ==> ProducedFor(Credit(cs, k, m), c) == ProducedFor(cs, c)
    ensures k == c ==> forall x :: x in ProducedFor(Credit(cs, k, m), c) <==>
      x in ProducedFor(cs, c) || x in m.productionCountries
    ensures Distinct(ProducedFor(cs, c)) && Distinct(m.productionCountries) ==>
      Distinct(ProducedFor(Credit(cs, k, m), c))
  {
    var i := Find(Ledger(cs), k);
    if i < |cs| {
      CreditFound(cs, k, m, c);
    } else {
      CreditNew(cs, k, m, c);
    }
  }

  lemma {:induction false} CreditFound(cs: seq<CompanyInfo>, k: string, m: Movie, c: string)
    requires Find(Ledger(cs), k) < |cs|
    ensures AppendsNew(ProducedFor(cs, c), ProducedFor(Credit(cs, k, m), c))
    ensures k != c ==> ProducedFor(Credit(cs, k, m), c) == ProducedFor(cs, c)
    ensures k == c ==> forall x :: x in ProducedFor(Credit(cs, k, m), c) <==>
      x in ProducedFor(cs, c) || x in m.productionCountries
    ensures Distinct(ProducedFor(cs, c)) && Distinct(m.productionCountries) ==>
      Distinct(ProducedFor(Credit(cs, k, m), c))
  {
    var i := Find(Ledger(cs), k);
    var r := Credit(cs, k, m);
    KeysSame(Ledger(cs), Ledger(r));
    FindKeys(Ledger(cs), Ledger(r), c);
    AbsorbSpec(cs[i].producedCountries, m.productionCountries);
  }

  lemma {:induction false} CreditNew(cs: seq<CompanyInfo>, k: string, m: Movie, c: string)
    requires Find(Ledger(cs), k) == |cs|
    ensures AppendsNew(ProducedFor(cs, c), ProducedFor(Credit(cs, k, m), c))
    ensures k != c ==> ProducedFor(Credit(cs, k, m), c) == ProducedFor(cs, c)
    ensures k == c ==> forall x :: x in ProducedFor(Credit(cs, k, m), c) <==>
      x in ProducedFor(cs, c) || x in m.productionCountries
    ensures Distinct(ProducedFor(cs, c)) && Distinct(m.productionCountries) ==>
      Distinct(ProducedFor(Credit(cs, k, m), c))
  {
    var r := Credit(cs, k, m);
    assert Ledger(r) == Ledger(cs) + [Entry(k, m.revenue)];
    FindIn(Ledger(cs), k);
    FindIn(Ledger(cs), c);
    FindAppend(Ledger(cs), Entry(k, m.revenue), c);
  }

  lemma {:induction false} CreditAllCountries(cs: seq<CompanyInfo>, names: seq<string>, m: Movie, c: string)
    ensures AppendsNew(ProducedFor(cs, c), ProducedFor(CreditAll(cs, names, m), c))
    ensures forall x :: x in ProducedFor(CreditAll(cs, names, m), c) <==>
      x in ProducedFor(cs, c) || (c in names && x in m.productionCountries)
    ensures Distinct(ProducedFor(cs, c)) && Distinct(m.productionCountries) ==>
      Distinct(ProducedFor(CreditAll(cs, names, m), c))
  {
    if names != [] {
      var init := names[..|names| - 1];
      var k := names[|names| - 1];
      CreditAllCountries(cs, init, m, c);
      CreditCountries(CreditAll(cs, init, m), k, m, c);
      AppendsNewTrans(ProducedFor(cs, c), ProducedFor(CreditAll(cs, init, m), c), ProducedFor(CreditAll(cs, names, m), c));
      assert names == init + [k];
    }
  }

  /** A company's country list holds exactly the countries of the movies
      that list the company. */
  lemma {:induction false} ProcessCountries(movies: seq<Movie>, c: string)
    ensures forall x :: x in ProducedFor(Process(movies), c) <==> x in CountriesOfCompany(movies, c)
  {
    if movies != [] {
      var init := movies[..|movies| - 1];
      var m := movies[|movies| - 1];
      ProcessCountries(init, c);
      CreditAllCountries(Process(init), m.productionCompanies, m, c);
    }
  }

  /** Processing one more movie only appends to a company's country
      list, and only countries the list did not hold. */
  lemma {:induction false} ProcessAppends(movies: seq<Movie>, m: Movie, c: string)
    ensures var before := ProducedFor(Process(movies), c);
      var after := ProducedFor(Process(movies + [m]), c);
      before <= after && forall i :: |before| <= i < |after| ==> after[i] !in before
  {
    assert (movies + [m])[..|movies|] == movies;
    CreditAllCountries(Process(movies), m.productionCompanies, m, c);
  }

  /** When no movie lists a country twice, no company's country list
      holds a country twice. */
  lemma {:induction false} ProcessDistinct(movies: seq<Movie>, c: string)
    requires forall i :: 0 <= i < |movies| ==> Distinct(movies[i].productionCountries)
    ensures Distinct(ProducedFor(Process(movies), c))
  {
    if movies != [] {
      var init := movies[..|movies| - 1];
      var m := movies[|movies| - 1];
      ProcessDistinct(init, c);
      CreditAllCountries(Process(init), m.productionCompanies, m, c);
    }
  }

  /** A company first seen on a movie that lists a country twice keeps
      both copies: the new record copies the movie's list as it is. */
  lemma {:induction false} DuplicateCountries()
    ensures var m := Movie("A", "2001", 1, 0, 90, "en", [], ["a"], ["US", "US"]);
      ProducedFor(Process([m]), "a") == ["US", "US"] && !Distinct(ProducedFor(Process([m]), "a"))
  {
    var m := Movie("A", "2001", 1, 0, 90, "en", [], ["a"], ["US", "US"]);
    var empty: seq<CompanyInfo> := [];
    assert [m][..0] == [] && ["a"][..0] == [];
    assert Process([m]) == Credit(empty, "a", m);
    var one := [CompanyInfo("a", 1, ["US", "US"])];
    assert Credit(empty, "a", m) == one;
    assert Ledger(one) == [Entry("a", 1)];
    assert Find(Ledger(one), "a") == 0;
    var us: seq<string> := ["US", "US"];
    assert us[0] == us[1];
  }

  /** What `main` shows as the top production companies: the records in the
      order `processCompanyInfo` built them, since the sorted vector
      `mergeSortCompanies` returns is dropped. */
  method CompaniesAsDisplayed(movies: seq<Movie>) returns (shown: seq<CompanyInfo>)
    ensures shown == Process(movies)
  {
    shown := ProcessCompanyInfo(movies);
    var sorted := MergeSortCompanies(shown);
  }

  /** Two movies, the second one earning more: the list shown starts with
      the company that earned less. */
  lemma {:induction false} DisplayedUnsorted()
    ensures var a := Movie("A", "2001", 1, 0, 90, "en", [], ["a"], []);
      var b := Movie("B", "2002", 2, 0, 90, "en", [], ["b"], []);
      var shown := Process([a, b]);
      |shown| == 2 && shown[0].totalRevenue < shown[1].totalRevenue
  {
    var a := Movie("A", "2001", 1, 0, 90, "en", [], ["a"], []);
    var b := Movie("B", "2002", 2, 0, 90, "en", [], ["b"], []);
    var empty: seq<CompanyInfo> := [];
    assert [a][..0] == [] && ["a"][..0] == [] && ["b"][..0] == [];
    assert Process([a]) == Credit(empty, "a", a);
    var one := [CompanyInfo("a", 1, [])];
    assert Credit(empty, "a", a) == one;
    assert [a, b][..1] == [a];
    assert Process([a, b]) == Credit(one, "b", b);
    assert Ledger(one) == [Entry("a", 1)];
    assert Find(Ledger(one), "b") == 1;
  }

  /** The evidently intended display order: the records sorted by
      `mergeSortCompanies`, by non-increasing total revenue, ties in
      first-listed order, no record lost or added. */
  method TopProductionCompanies(movies: seq<Movie>) returns (ranked: seq<CompanyInfo>)
    ensures ranked == MergeSortCompanies(Process(movies))
    ensures forall i, j :: 0 <= i < j < |ranked| ==> ranked[i].totalRevenue >= ranked[j].totalRevenue
    ensures multiset(ranked) == multiset(Process(movies))
  {
    var companies := ProcessCompanyInfo(movies);
    ranked := MergeSortCompanies(companies);
  }
}
