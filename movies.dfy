/** The records the engine reads and the orders it sorts them by. A movie
    keeps the fields the analyses use; its floating-point fields
    (vote_average, popularity) are not part of this model. */
module Movies {
  import opened Ordering
  import opened Grouping

  datatype Movie = Movie(
    title: string,
    releaseDate: string,
    revenue: int,
    budget: int,
    runtime: int,
    originalLanguage: string,
    genres: seq<string>,
    productionCompanies: seq<string>,
    productionCountries: seq<string>)

  /** A production company: its name, the revenue of its movies, and the
      countries it produced in. */
  datatype CompanyInfo = CompanyInfo(name: string, totalRevenue: int, producedCountries: seq<string>)

  /** `mergeMovie` on the "revenue" column: the left movie goes first when
      its revenue is at least the right one's. */
  predicate ByRevenue(x: Movie, y: Movie) {
    x.revenue >= y.revenue
  }

  /** `mergeCompanies`: descending total revenue. */
  predicate ByTotalRevenue(x: CompanyInfo, y: CompanyInfo) {
    x.totalRevenue >= y.totalRevenue
  }

  /** `mergePairs` (`.second >=`) and `merge` (`frequency >=`): descending
      value. */
  predicate ByValue<K>(x: Entry<K>, y: Entry<K>) {
    x.value >= y.value
  }

  /** `mergeInt` (`.first >=`): descending year. */
  predicate ByYear(x: Group<int>, y: Group<int>) {
    x.key >= y.key
  }

  lemma {:induction false} RevenueOrder()
    ensures TotalPreorder(ByRevenue)
  {
  }

  lemma {:induction false} TotalRevenueOrder()
    ensures TotalPreorder(ByTotalRevenue)
  {
  }

  lemma {:induction false} ValueOrder<K(!new)>()
    ensures TotalPreorder(ByValue<K>)
  {
  }

  lemma {:induction false} YearOrder()
    ensures TotalPreorder(ByYear)
  {
  }

  /** `mergeSortMovie(movies, "revenue")`: a vector of at most one movie
      comes back as it is; otherwise the result holds the same movies by
      non-increasing revenue, movies of equal revenue in their input
      order. */
  function MergeSortMovie(movies: seq<Movie>): (r: seq<Movie>)
    ensures |movies| <= 1 ==> r == movies
    ensures multiset(r) == multiset(movies)
    ensures forall i, j :: 0 <= i < j < |r| ==> r[i].revenue >= r[j].revenue
    ensures Stable(r, movies, ByRevenue)
  {
    RevenueOrder();
    MergeSortSpec(movies, ByRevenue);
    MergeSort(movies, ByRevenue)
  }

  /** `mergeSortCompanies`: the companies by non-increasing total revenue,
      ties in their input order. It returns a new vector; its argument is
      left as it was. */
  function MergeSortCompanies(companies: seq<CompanyInfo>): (r: seq<CompanyInfo>)
    ensures |companies| <= 1 ==> r == companies
    ensures multiset(r) == multiset(companies)
    ensures forall i, j :: 0 <= i < j < |r| ==> r[i].totalRevenue >= r[j].totalRevenue
    ensures Stable(r, companies, ByTotalRevenue)
  {
    TotalRevenueOrder();
    MergeSortSpec(companies, ByTotalRevenue);
    MergeSort(companies, ByTotalRevenue)
  }

  /** `mergeSortString(arr, low, high)`: ascending by std::string order
      within [low, high], nothing else moves. */
  method MergeSortString(a: array<string>, low: int, high: int)
    requires 0 <= low && high < a.Length
    modifies a
    ensures forall i, j :: low <= i < j <= high ==> LexLeq(a[i], a[j])
    ensures multiset(a[..]) == multiset(old(a[..]))
    ensures forall p :: 0 <= p < a.Length && !(low <= p <= high) ==> a[p] == old(a[p])
  {
    LexLeqTotalOrder();
    ghost var before := a[..];
    MergeSortRange(a, low, high, LexLeq);
    if low <= high {
      RangeSortSorts(before, low, high, LexLeq);
      SortsRangeMeans(before, a[..], low, high, LexLeq);
    }
  }

  /** `mergeSortPairs(arr, low, high)` over integer values, and
      `mergeSort(arr, low, high)` over word frequencies: descending by value
      within [low, high], stably, nothing else moves. */
  method MergeSortByValue<K(!new)>(a: array<Entry<K>>, low: int, high: int)
    requires 0 <= low && high < a.Length
    modifies a
    ensures forall i, j :: low <= i < j <= high ==> a[i].value >= a[j].value
    ensures multiset(a[..]) == multiset(old(a[..]))
    ensures forall p :: 0 <= p < a.Length && !(low <= p <= high) ==> a[p] == old(a[p])
    ensures low <= high ==> a[low..high + 1] == MergeSort(old(a[low..high + 1]), ByValue<K>)
  {
    ValueOrder<K>();
    ghost var before := a[..];
    MergeSortRange(a, low, high, ByValue<K>);
    if low <= high {
      RangeSortSorts(before, low, high, ByValue<K>);
      SortsRangeMeans(before, a[..], low, high, ByValue<K>);
    }
  }

  /** `mergeSortInt(arr, low, high)`: the year groups by descending year
      within [low, high], nothing else moves. */
  method MergeSortInt(a: array<Group<int>>, low: int, high: int)
    requires 0 <= low && high < a.Length
    modifies a
    ensures forall i, j :: low <= i < j <= high ==> a[i].key >= a[j].key
    ensures multiset(a[..]) == multiset(old(a[..]))
    ensures forall p :: 0 <= p < a.Length && !(low <= p <= high) ==> a[p] == old(a[p])
    ensures low <= high ==> a[low..high + 1] == MergeSort(old(a[low..high + 1]), ByYear)
  {
    YearOrder();
    ghost var before := a[..];
    MergeSortRange(a, low, high, ByYear);
    if low <= high {
      RangeSortSorts(before, low, high, ByYear);
      SortsRangeMeans(before, a[..], low, high, ByYear);
    }
  }
}
