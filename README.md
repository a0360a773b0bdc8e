# Animated-movie analytics engine: a verified model of its core

The engine reads a table of animated movies. Each movie has a title, a
release date, revenue, budget, runtime, an original language, genres,
production companies and production countries. From them it computes a
series of reports:

- the production companies ranked by total revenue;
- the country with the highest revenue, and the country that produced
  the most movies;
- the distribution of original languages;
- the genre frequencies and the release-year frequencies;
- the most common title words, overall, per original language and per
  release year;
- the movies ranked by revenue.

All of these come from `DSA/finalcode.cpp`. They are built from a few
hand-written algorithms:

- merge sorts, both on vectors and on index ranges of arrays;
- a binary search, an insertion into a sorted vector and a bucket sort;
- "find-or-create" tables, where a linear scan for a key either bumps
  the entry it finds or appends a new one;
- string helpers: `trim`, `removeQuotes`, `split`, a word normaliser and
  the year reader (the text after the last `/`, read by `stoi`).

The model has one module per part of the engine:

| module | what it holds |
|---|---|
| `Text` | string helpers |
| `Ordering` | the generic merge, merge sort and in-place range merge sort, with stability |
| `Movies` | the records and each concrete sort of the engine |
| `Membership` | binary search, insertion and bucket sort |
| `Grouping` | find-or-create tables and grouped tables, as values |
| `Counters` | company, country, language and word counts |
| `Companies` | company records |
| `Frequencies` | genre and release-year reports |
| `Titles` | the word loop shared by the nested tables |
| `Languages` | the per-language table |
| `Years` | the per-year table |

The engine writes the word normaliser out three times, at
`DSA/finalcode.cpp` lines 1005-1016, 1120-1131 and 1165-1176. The model
has it once, as `Text.NormaliseWord`, and both nested tables use it.
The engine also reads a year in two ways. The release-year report takes
the last four characters of the date (line 879). The per-year word table
takes the text after the last `/` (lines 1083-1095).

Most loops of the engine are Dafny methods with loop invariants, each
proved equal to a recursive specification function; lemmas state what
that function means: the counts, which keys appear, the order, and the
permutation. Two kinds of code are modelled differently:

- the merges `mergeMovie` and `mergeCompanies` build and return a new
  vector, so they are the recursive function `Ordering.Merge`, with
  `Movies.MergeSortMovie` and `Movies.MergeSortCompanies` over it;
- `binarySearch`, `mergeSortString`, `bucketSort` and the exchange sort
  of the release-year report are methods proved against the properties
  the engine relies on (membership, order, permutation, frame), not
  against an equal function.

The ignore lists the engine hard-codes in `main` are parameters of the
model. The movie sort is modelled for the revenue column only; the
popularity column is floating point (see below).

## Model

| member | source | states |
|---|---|---|
| Text.Trim | DSA/finalcode.cpp:79-88 | the result is empty exactly when the input is all blanks; otherwise its ends are not blanks |
| Text.TrimOf | DSA/finalcode.cpp:79-88 | blanks, then a piece that is empty or starts and ends with a non-blank, then blanks, trims to exactly that piece |
| Text.TrimIdempotent | DSA/finalcode.cpp:79-88 | trimming twice is trimming once |
| Text.RemoveQuotes | DSA/finalcode.cpp:62-76 | a lone `"` gives the empty string; a quoted field loses exactly its two quotes, anything else is kept |
| Text.RemoveQuotesOfQuoted | DSA/finalcode.cpp:62-76 | removing quotes from `"` + s + `"` gives back s |
| Text.JoinSegments | DSA/finalcode.cpp:149-162 | joining the pieces cut at every delimiter gives back the line |
| Text.SegmentsJoin | DSA/finalcode.cpp:149-162 | cutting a join of delimiter-free pieces gives back the pieces |
| Text.Split | DSA/finalcode.cpp:149-162 | the tokens are the getline pieces of the line with the empty ones dropped |
| Text.SplitJoin | DSA/finalcode.cpp:149-162 | splitting a join of non-empty delimiter-free tokens gives back the tokens |
| Text.WordsAreWords | DSA/finalcode.cpp:939-943 | every word `>>` reads is non-empty and holds no blank |
| Text.WordsJoin | DSA/finalcode.cpp:939-943 | reading words from non-empty blank-free words joined by one space gives them back |
| Text.LowerWord | DSA/finalcode.cpp:946-950 | the loop yields the word with every character through C-locale `tolower` |
| Text.LowerAllIdempotent | DSA/finalcode.cpp:946-950 | lowering leaves no upper-case letter, and lowering again changes nothing |
| Text.NormaliseWord | DSA/finalcode.cpp:1005-1016 | the word becomes its first run of letters and digits (leading other characters skipped, stopping at the next one), lowered |
| Text.FirstRunOf | DSA/finalcode.cpp:1005-1016 | the first run of a word made of non-alphanumerics, then a run, then an optional non-alphanumeric-led rest, is that run |
| Text.NormaliseIdempotent | DSA/finalcode.cpp:1005-1016 | normalising a normalised word changes nothing |
| Text.YearString | DSA/finalcode.cpp:1083-1092 | the result is the text after the last `/`, or the whole date when there is none |
| Text.AfterLastSlashOf | DSA/finalcode.cpp:1083-1092 | for a prefix ending in `/` followed by slash-free text, the result is that text |
| Text.AfterLastSlashNone | DSA/finalcode.cpp:1083-1092 | a date without `/` is returned whole |
| Text.Stoi | DSA/finalcode.cpp:1095 | a value is read only when digits follow the leading blanks and optional sign, and it lies in the 32-bit range; otherwise None, the exception |
| Text.StoiDigits | DSA/finalcode.cpp:1095 | a string of digits only whose value fits reads as its decimal value |
| Text.StoiDecimal | DSA/finalcode.cpp:1095 | every non-negative 32-bit value reads back from its decimal rendering |
| Text.StoiSigned | DSA/finalcode.cpp:1095 | leading blanks, an optional sign, the decimal rendering of a 32-bit value and any text not starting with a digit read back as that value with its sign |
| Ordering.MergeSorted | DSA/finalcode.cpp:361-391 | merging two sorted sequences gives a sorted sequence |
| Ordering.MergePermutes | DSA/finalcode.cpp:361-391 | the merge holds exactly the elements of both inputs |
| Ordering.MergeTies | DSA/finalcode.cpp:366-378 | among equal keys, the merge keeps the left input's elements before the right's, each in its order |
| Ordering.MergeSortSpec | DSA/finalcode.cpp:394-406 | the merge sort is a permutation of its input, sorted, and stable |
| Ordering.StableSortUnique | DSA/finalcode.cpp:277-288 | two sorted sequences holding, for every tie class, the same elements in the same order are equal, so every stable sort agrees with the merge sort |
| Ordering.MergeSortSplit | DSA/finalcode.cpp:284-287 | merging the sorts of any two halves gives the merge sort, wherever the split falls |
| Ordering.StableSortHead | DSA/finalcode.cpp:677-680 | the first element of the stable sort may precede every element, and no earlier element may |
| Ordering.LexLeqTotalOrder | DSA/finalcode.cpp:234-275 | std::string comparison is a total preorder whose ties are equal strings |
| Ordering.MergeRange | DSA/finalcode.cpp:234-275 | arr[low..high] becomes the merge of its runs arr[low..mid] and arr[mid+1..high], the left run winning ties; nothing else changes |
| Ordering.MergeSortRange | DSA/finalcode.cpp:277-288 | the array afterwards is the split-at-the-middle range sort of the array before |
| Ordering.RangeSortSorts | DSA/finalcode.cpp:277-288 | the range sort leaves [low, high] equal to the stable merge sort of that range and everything else unchanged |
| Ordering.SortsRangeMeans | DSA/finalcode.cpp:277-288 | such a range is sorted, stable and a permutation of what was there, the whole array is a permutation, and nothing outside moves |
| Movies.MergeSortMovie | DSA/finalcode.cpp:361-406 | at most one movie comes back as it is; otherwise the same movies by non-increasing revenue, ties in input order |
| Movies.MergeSortCompanies | DSA/finalcode.cpp:469-512 | the same records by non-increasing total revenue, ties in input order |
| Movies.MergeSortString | DSA/finalcode.cpp:234-288 | [low, high] in ascending string order, a permutation, nothing outside moves |
| Movies.MergeSortByValue | DSA/finalcode.cpp:410-466 | [low, high] by non-increasing value, a permutation, nothing outside moves, equal to the stable merge sort |
| Movies.MergeSortInt | DSA/finalcode.cpp:291-358 | [low, high] by non-increasing year, a permutation, nothing outside moves, equal to the stable merge sort |
| Membership.BinarySearch | DSA/finalcode.cpp:585-612 | a hit means the target is present; on a sorted vector a present target is always found |
| Membership.InsertSort | DSA/finalcode.cpp:615-623 | the word goes in before the first element that is not less than it |
| Membership.InsertAtSorted | DSA/finalcode.cpp:615-623 | inserting into a sorted vector keeps it sorted |
| Membership.InsertAtPermutes | DSA/finalcode.cpp:615-623 | the result holds the old elements plus the word |
| Membership.BucketSort | DSA/finalcode.cpp:626-646 | the words come back in ascending order, as a permutation |
| Membership.FlattenSorted | DSA/finalcode.cpp:638-645 | concatenating sorted buckets of increasing first letter gives a sorted vector |
| Grouping.Accumulate | DSA/finalcode.cpp:660-672 | the scan bumps the first entry with the key or appends (key, v) |
| Grouping.AddSpec | DSA/finalcode.cpp:660-672 | the key is appended only when absent, with value v; its value grows by v; every other entry and value is unchanged |
| Grouping.Contains | DSA/finalcode.cpp:1097-1105 | the scan finds x exactly when x is in the list |
| Grouping.TotalsSpec | DSA/finalcode.cpp:655-674 | a table built by steps has distinct keys in first-seen order, each holding the sum of its values |
| Grouping.CountSpec | DSA/finalcode.cpp:689-708 | counting with steps of 1 gives each key its number of occurrences, and the counts sum to the length |
| Grouping.FoldSum | DSA/finalcode.cpp:655-674 | folding a stream into a table raises the sum of its values by the sum of the stream's amounts |
| Grouping.AbsorbSpec | DSA/finalcode.cpp:731-747 | appending the absent items only extends the list, by items it did not hold, holds exactly the items of both, and keeps a duplicate-free list duplicate-free |
| Grouping.GroupsSpec | DSA/finalcode.cpp:1109-1200 | a grouped table has one group per distinct key in first-seen order, each counting all the words given to that key |
| Grouping.LeaderUnique | DSA/finalcode.cpp:677-680 | an entry of largest value with every earlier entry strictly smaller is the leader |
| Counters.FindMostProducingCountry | DSA/finalcode.cpp:684-715 | the result is the first key after a stable sort of the per-country movie counts, or None for an empty table |
| Counters.MostProducingSpec | DSA/finalcode.cpp:684-715 | None exactly when no country is listed; otherwise a listed country that no country outnumbers, the first listed with its count; the counts sum to the pairs |
| Counters.FindCountryWithHighestRevenue | DSA/finalcode.cpp:650-681 | the result is the first key after a stable sort of the per-country revenue totals, or None for an empty table |
| Counters.HighestRevenueSpec | DSA/finalcode.cpp:650-681 | None exactly when no country is listed; otherwise a listed country whose earned revenue no country beats, and among the countries with that revenue the first one listed |
| Counters.TopSpec | DSA/finalcode.cpp:677-680 | the reported key of a totals table is a key of largest total, the first seen with that total |
| Counters.FirstAfterSort | DSA/finalcode.cpp:677-680 | sorting and taking element 0 gives the leader of the table |
| Counters.LanguageDistribution | DSA/finalcode.cpp:1335-1358 | the parallel vectors are the language table in first-seen order |
| Counters.LanguageDistributionSpec | DSA/finalcode.cpp:1335-1358 | each language is counted once per movie using it, the languages are distinct and the counts sum to the number of movies |
| Counters.Insert | DSA/finalcode.cpp:918-929 | the word's frequency goes up by one, or the word is appended with frequency 1 |
| Counters.CountWords | DSA/finalcode.cpp:932-977 | the table counts the lowered, not-ignored title words in first-seen order |
| Counters.CountWordsSpec | DSA/finalcode.cpp:932-977 | each word's frequency is its number of kept occurrences; words are distinct, lower-case and not ignored |
| Companies.ProcessCompanyInfo | DSA/finalcode.cpp:717-764 | the records are those the movie-by-movie, company-by-company find-or-create builds |
| Companies.CreditCompany | DSA/finalcode.cpp:725-759 | a found company's revenue and countries grow; a new company is appended with the movie's revenue and countries |
| Companies.AbsorbCountries | DSA/finalcode.cpp:731-747 | each country not already listed is appended |
| Companies.ProcessSpec | DSA/finalcode.cpp:717-764 | one record per listed company, no name twice, first-listed order, total revenue equal to what the company earned |
| Companies.ProcessCountries | DSA/finalcode.cpp:717-764 | a company's country list holds exactly the countries of the movies that list it |
| Companies.ProcessAppends | DSA/finalcode.cpp:731-747 | processing another movie only appends to a company's country list, and only countries the list did not hold |
| Companies.ProcessDistinct | DSA/finalcode.cpp:717-764 | when every movie lists each of its countries once, every company's country list is duplicate-free |
| Companies.DuplicateCountries | DSA/finalcode.cpp:753-758 | a new company takes its first movie's countries verbatim, so a movie listing a country twice gives a list with a duplicate |
| Companies.CompaniesAsDisplayed | DSA/finalcode.cpp:1379-1385 | what `main` displays is the records in processing order, unsorted |
| Companies.DisplayedUnsorted | DSA/finalcode.cpp:1379-1385 | with two movies, the second earning more, the displayed list starts with the smaller earner |
| Companies.TopProductionCompanies | DSA/finalcode.cpp:1379-1385 | the records by non-increasing total revenue, ties in first-listed order, as a permutation |
| Frequencies.CountAllGenresFrequency | DSA/finalcode.cpp:827-866 | each genre read occurs once, in strictly ascending order, with its number of occurrences |
| Frequencies.TrimmedPieces | DSA/finalcode.cpp:836-841 | a genre entry becomes its comma-separated pieces, each trimmed |
| Frequencies.CountRuns | DSA/finalcode.cpp:847-865 | the counts are the run lengths of equal neighbours |
| Frequencies.RunLengthsSpec | DSA/finalcode.cpp:847-865 | on a sorted list the runs are the distinct values, strictly ascending, each with its occurrence count |
| Frequencies.CountReleaseYearFrequency | DSA/finalcode.cpp:869-915 | fails exactly when `stoi` fails on a date's last four characters; otherwise the year table ordered by non-increasing count |
| Frequencies.YearFrequencySpec | DSA/finalcode.cpp:872-896 | each entry is a year read with its number of movies; the counts sum to the years read |
| Frequencies.ExchangeSort | DSA/finalcode.cpp:899-908 | the entries end by non-increasing count, as a permutation |
| Titles.CountTokens | DSA/finalcode.cpp:1002-1021 | the normalised, non-empty, not-ignored tokens are counted into the table |
| Titles.CleanWords | DSA/finalcode.cpp:1005-1019 | every counted word is non-empty, lower-case alphanumeric and not ignored |
| Languages.CountTitleWordsByOriginalLanguage | DSA/finalcode.cpp:980-1061 | the ignore list ends sorted and permuted; the table is the grouped table of (language, word) steps, each row headed by {language, 1} |
| Languages.LanguageTableSpec | DSA/finalcode.cpp:980-1061 | no language twice; a language has a row exactly when it is not ignored and one of its title words survives; each row counts exactly those words |
| Languages.LanguageWordsSpec | DSA/finalcode.cpp:1005-1055 | within a row words are distinct, counted as often as they survive, lower-case alphanumeric and not ignored |
| Languages.LanguageStepsSame | DSA/finalcode.cpp:984-990 | sorting the language ignore list changes no step, since only membership matters |
| Languages.SortLanguageTable | DSA/finalcode.cpp:1481-1484 | each row keeps its header and has its words sorted stably by non-increasing frequency |
| Years.CountTitleWordsByYear | DSA/finalcode.cpp:1064-1206 | None exactly when some dated movie's year cannot be read; otherwise the grouped table of (year, words) steps |
| Years.CountYearMovie | DSA/finalcode.cpp:1080-1202 | one movie fails exactly when its year cannot be read; otherwise the table takes its year step |
| Years.YearTableSpec | DSA/finalcode.cpp:1068-1206 | no year twice; a year has an entry exactly when a dated movie reads as that non-excluded year; each entry counts its movies' surviving words |
| Years.YearWordsSpec | DSA/finalcode.cpp:1117-1198 | within a year words are distinct, counted as often as they survive, lower-case alphanumeric and not ignored |
| Years.EmptyYearEntry | DSA/finalcode.cpp:1158-1199 | for any word ignore list, a readable, not-excluded year gets an entry even when none of its title words survives |
| Years.SortWordFrequenciesByYear | DSA/finalcode.cpp:1209-1215 | each year keeps its key and has its words sorted stably by non-increasing frequency |

## Left out

- CSV reading (`parseCSV`, `split_strings`) is not modelled. The movies are given as records, with quotes already removed where the engine removes them.
- Every display and `cout` report is not modelled. The reports return the entries they would print instead, and the top-N cut of the display routines is not modelled.
- The correlation statistics, the `vote_average`/popularity instantiations and `mergeSortMovie` on the popularity column are not modelled. They work on floating-point columns.
- The orchestration in `main` is not modelled. Its hard-coded ignore lists are parameters.
- Text.Lower: only ASCII `tolower` is modelled, without C locales.
- Counters.Earned: revenue is an unbounded integer, so `long long` overflow is not modelled.
- Counters.FindMostProducingCountry: the engine reads element 0 of an empty vector when no movie lists a country, which is undefined behaviour. The model answers None there.
- Counters.FindCountryWithHighestRevenue: the same as above, for an empty revenue table.
- Companies.ProcessDistinct: a company's country list is duplicate-free only when each movie lists a country once. A new company copies its first movie's country list verbatim (line 757), as Companies.DuplicateCountries shows.
- Text.Stoi: a thrown `std::invalid_argument` or `std::out_of_range` becomes None, and the report that called it fails. Exception handling beyond that is not modelled.
- Membership.BucketSort: it requires every word to be non-empty and start with 'a'..'z'. The engine indexes `word[0] - 'a'` unchecked, and any other word is undefined behaviour.
- Counters.CountWords: it requires the ignore list to be sorted, as `binarySearch` assumes. The list `main` passes is sorted.
- Languages.CountTitleWordsByOriginalLanguage: the same sorted-list requirement applies to the word ignore list.
- Years.CountTitleWordsByYear: the same sorted-list requirement applies to the word ignore list.
- Frequencies.CountReleaseYearFrequency: it states the entries are a permutation of the year table by non-increasing count. It does not state which of two equal-count years comes first, because the exchange sort is not stable and that order is an artefact of its swaps.
- Movies.MergeSortString: it states ascending order, the permutation and the frame, but not stability. Equal strings are indistinguishable.
- The language table's row sort and the year sort are modelled on values. Each row or entry is copied into an array, sorted there and stored back. The in-place sort of a vector element inside a vector of vectors is therefore not modelled.

## Findings

| source | as written | input that shows it | evidently intended | confidence | as-written member | corrected member |
|---|---|---|---|---|---|---|
| DSA/finalcode.cpp:1382 | `mergeSortCompanies(companies)` returns a new sorted vector and leaves its argument unchanged. The result is discarded, so the top-companies display shows the records in processing order. | two movies, "A" by company a with revenue 1, then "B" by company b with revenue 2; a is displayed first | `companies = mergeSortCompanies(companies)`, so the companies are displayed by non-increasing total revenue | not executed | Companies.DisplayedUnsorted | Companies.TopProductionCompanies |
