/**
 * The search and filter bar of the tours page (components/TourSearch.js). The localized field
 * lookup `getLocalizedField` comes from a module that is not part of this model, so it is a
 * parameter.
 */
module TourSearch {
  import opened Wrappers
  import opened Strings
  import opened Js

  /** A tour as the filter reads it: `tour.price`, `tour.duration` and the rest of its fields. */
  datatype Tour = Tour(price: int, duration: string, data: Record)

  /** `getLocalizedField(tour, field, lang)` */
  type Localizer = (Tour, string, string) -> string

  // ---------------------------------------------------------------------------
  // the four filters

  /** The search term matches when empty, or as a case-insensitive substring of the title or the location. */
  predicate MatchesSearch(term: string, title: string, location: string)
    ensures Contains(title, term) || Contains(location, term) ==> MatchesSearch(term, title, location)
  {
    ToLowerKeepsContains(title, term);
    ToLowerKeepsContains(location, term);
    term == "" || Contains(ToLower(title), ToLower(term)) || Contains(ToLower(location), ToLower(term))
  }

  /** The price buckets of the price filter. */
  predicate MatchesPrice(range: string, price: int) {
    if range == "under500" then price < 500
    else if range == "500-1000" then 500 <= price < 1000
    else if range == "1000-2000" then 1000 <= price < 2000
    else if range == "2000plus" then price >= 2000
    else true
  }

  const PriceBuckets: seq<string> := ["under500", "500-1000", "1000-2000", "2000plus"]

  /** Every price falls in exactly one bucket, and any other range value accepts every price. */
  lemma PriceBucketsPartition(price: int)
    ensures exists i | 0 <= i < |PriceBuckets| :: MatchesPrice(PriceBuckets[i], price)
    ensures forall i, j | 0 <= i < j < |PriceBuckets| :: !(MatchesPrice(PriceBuckets[i], price) && MatchesPrice(PriceBuckets[j], price))
    ensures forall range | range !in PriceBuckets :: MatchesPrice(range, price)
  {
    if price < 500 {
      assert MatchesPrice(PriceBuckets[0], price);
    } else if price < 1000 {
      assert MatchesPrice(PriceBuckets[1], price);
    } else if price < 2000 {
      assert MatchesPrice(PriceBuckets[2], price);
    } else {
      assert MatchesPrice(PriceBuckets[3], price);
    }
  }

  /** The location filter: "all", or the localized or the English location exactly. */
  predicate MatchesLocation(filter: string, localized: string, english: string) {
    filter == "all" || localized == filter || english == filter
  }

  /** `/x.*y/`: an occurrence of `x` with `y` somewhere after it. */
  predicate Then(s: string, x: string, y: string) {
    exists i | 0 <= i <= |s| - |x| :: StartsWith(s[i..], x) && Contains(s[i + |x|..], y)
  }

  /** `/\d+.*week/` */
  predicate NumberThenWeek(s: string) {
    exists i | 0 <= i < |s| :: IsDigit(s[i]) && Contains(s[i + 1..], "week")
  }

  /** `/1[5-9]|[2-9]\d.*day/` */
  predicate FifteenOrMoreDays(s: string) {
    || (exists i | 0 <= i < |s| - 1 :: s[i] == '1' && '5' <= s[i + 1] <= '9')
    || (exists i | 0 <= i < |s| - 1 :: '2' <= s[i] <= '9' && IsDigit(s[i + 1]) && Contains(s[i + 2..], "day"))
  }

  /** `/1.*week|2.*week/` */
  predicate OneOrTwoWeeks(s: string) {
    Then(s, "1", "week") || Then(s, "2", "week")
  }

  /**
   * The duration filter, with each regular expression read as its alternation of substring
   * tests on the lower-cased duration, as written (the buckets overlap).
   */
  predicate MatchesDuration(filter: string, duration: string) {
    var d := ToLower(duration);
    if filter == "all" then true
    else if filter == "1-3" then
      (Contains(d, "1") || Contains(d, "2") || Then(d, "3", "day")) && !Contains(d, "week")
    else if filter == "4-7" then
      (Contains(d, "4") || Contains(d, "5") || Contains(d, "6") || Then(d, "7", "day")) && !Contains(d, "week")
    else if filter == "1-2weeks" then
      OneOrTwoWeeks(d)
      || Contains(d, "8") || Contains(d, "9") || Contains(d, "10") || Contains(d, "11") || Contains(d, "12")
      || Contains(d, "13") || Then(d, "14", "day")
    else if filter == "2weeksplus" then
      (NumberThenWeek(d) && !OneOrTwoWeeks(d)) || FifteenOrMoreDays(d)
    else true
  }

  /** The filters' values: `searchTerm`, `priceRange`, `locationFilter`, `durationFilter`. */
  datatype Filters = Filters(term: string, price: string, location: string, duration: string)

  /** The predicate `tours.filter` applies. */
  predicate Keep(tour: Tour, f: Filters, lang: string, localized: Localizer) {
    var title := localized(tour, "title", lang);
    var location := localized(tour, "location", lang);
    && MatchesSearch(f.term, title, location)
    && MatchesPrice(f.price, tour.price)
    && MatchesLocation(f.location, location, localized(tour, "location", "en"))
    && MatchesDuration(f.duration, tour.duration)
  }

  /** `a` is `b` with some elements left out, in the same order. */
  predicate Subsequence<T(==)>(a: seq<T>, b: seq<T>)
    decreases |b|
  {
    if a == [] then true
    else if b == [] then false
    else (a[0] == b[0] && Subsequence(a[1..], b[1..])) || Subsequence(a, b[1..])
  }

  /** `filteredTours` */
  function Filtered(tours: seq<Tour>, f: Filters, lang: string, localized: Localizer): (r: seq<Tour>)
    ensures forall t :: t in r <==> t in tours && Keep(t, f, lang, localized)
    ensures Subsequence(r, tours)
  {
    if tours == [] then []
    else
      var rest := Filtered(tours[1..], f, lang, localized);
      if Keep(tours[0], f, lang, localized) then [tours[0]] + rest
      else
        SubsequenceOfTail(rest, tours);
        rest
  }

  lemma {:induction false} SubsequenceOfTail<T>(a: seq<T>, b: seq<T>)
    requires b != [] && Subsequence(a, b[1..])
    ensures Subsequence(a, b)
  {
  }

  /** With every filter neutral, all tours are shown, in order. */
  lemma NeutralFiltersKeepAll(tours: seq<Tour>, lang: string, localized: Localizer)
    ensures Filtered(tours, Neutral(), lang, localized) == tours
  {
    if tours != [] {
      NeutralFiltersKeepAll(tours[1..], lang, localized);
    }
  }

  /** The filters after `handleClearFilters` */
  function Neutral(): Filters {
    Filters("", "all", "all", "all")
  }

  predicate HasActiveFilters(f: Filters) {
    f.term != "" || f.price != "all" || f.location != "all" || f.duration != "all"
  }

  /** The only filter values with nothing active are the neutral ones. */
  lemma ActiveIffNotNeutral(f: Filters)
    ensures !HasActiveFilters(f) <==> f == Neutral()
  {
  }

  // ---------------------------------------------------------------------------
  // the location menu

  function Elements<T>(s: seq<T>): set<T> {
    set x | x in s
  }

  /** `[...new Set(s)]`: the first occurrence of each element, in order. */
  function Dedup<T(==)>(s: seq<T>): (r: seq<T>)
    ensures Elements(r) == Elements(s)
    ensures forall i, j | 0 <= i < j < |r| :: r[i] != r[j]
  {
    if s == [] then []
    else
      var r := Dedup(s[..|s| - 1]);
      assert Elements(s) == Elements(s[..|s| - 1]) + {s[|s| - 1]} by {
        assert s == s[..|s| - 1] + [s[|s| - 1]];
      }
      if s[|s| - 1] in r then r else r + [s[|s| - 1]]
  }

  /** Strictly increasing in `Array.prototype.sort`'s default string order. */
  predicate Sorted(s: seq<string>) {
    forall i, j | 0 <= i < j < |s| :: Less(s[i], s[j])
  }

  /** A strictly sorted list has no duplicates. */
  lemma SortedDistinct(s: seq<string>, i: nat, j: nat)
    requires Sorted(s) && i < j < |s|
    ensures s[i] != s[j]
  {
    LessIrreflexive(s[i]);
  }

  function InsertSorted(x: string, s: seq<string>): seq<string> {
    if s == [] || Less(x, s[0]) then [x] + s else [s[0]] + InsertSorted(x, s[1..])
  }

  lemma {:induction false} InsertSortedSpec(x: string, s: seq<string>)
    requires Sorted(s) && x !in s
    ensures Sorted(InsertSorted(x, s)) && Elements(InsertSorted(x, s)) == Elements(s) + {x}
  {
    if s == [] || Less(x, s[0]) {
      forall j | 0 <= j < |s|
        ensures Less(x, s[j])
      {
        if j > 0 {
          LessTransitive(x, s[0], s[j]);
        }
      }
      assert InsertSorted(x, s) == [x] + s;
    } else {
      LessTotal(x, s[0]);
      InsertSortedSpec(x, s[1..]);
      var r := InsertSorted(x, s[1..]);
      assert s == [s[0]] + s[1..];
      forall k | 0 <= k < |r|
        ensures Less(s[0], r[k])
      {
        assert r[k] in Elements(s[1..]) + {x};
      }
    }
  }

  /** The default `sort()` of distinct strings. */
  function SortStrings(s: seq<string>): (r: seq<string>)
    requires forall i, j | 0 <= i < j < |s| :: s[i] != s[j]
    ensures Sorted(r) && Elements(r) == Elements(s)
  {
    if s == [] then []
    else
      var r := SortStrings(s[1..]);
      assert s == [s[0]] + s[1..];
      assert s[0] !in Elements(r) by {
        assert forall k | 1 <= k < |s| :: s[k] != s[0];
      }
      InsertSortedSpec(s[0], r);
      InsertSorted(s[0], r)
  }

  /** `uniqueLocations`: the tours' localized locations, each once, sorted. */
  function UniqueLocations(tours: seq<Tour>, lang: string, localized: Localizer): (r: seq<string>)
    ensures Sorted(r)
    ensures forall l :: l in r <==> exists t | t in tours :: l == localized(t, "location", lang)
  {
    var locations := seq(|tours|, i requires 0 <= i < |tours| => localized(tours[i], "location", lang));
    var r := SortStrings(Dedup(locations));
    forall l
      ensures l in locations <==> exists t | t in tours :: l == localized(t, "location", lang)
    {
      if l in locations {
        var i :| 0 <= i < |locations| && locations[i] == l;
        assert tours[i] in tours;
      }
      if exists t | t in tours :: l == localized(t, "location", lang) {
        var t :| t in tours && l == localized(t, "location", lang);
        var i :| 0 <= i < |tours| && tours[i] == t;
        assert locations[i] == l;
      }
    }
    assert forall l :: l in r <==> l in Elements(locations);
    r
  }

  // ---------------------------------------------------------------------------
  // the component's state

  class Search {
    var filters: Filters

    constructor ()
      ensures filters == Neutral()
    {
      filters := Neutral();
    }

    /** The effect on the URL: `setLocationFilter(locationParam || 'all')` */
    method SyncLocation(param: Option<string>)
      modifies this
      ensures filters == old(filters).(location := if param.Some? && param.value != "" then param.value else "all")
    {
      var location := if param.Some? && param.value != "" then param.value else "all";
      filters := filters.(location := location);
    }

    method SetSearchTerm(term: string)
      modifies this
      ensures filters == old(filters).(term := term)
    {
      filters := filters.(term := term);
    }

    method SetPriceRange(range: string)
      modifies this
      ensures filters == old(filters).(price := range)
    {
      filters := filters.(price := range);
    }

    method SetDurationFilter(duration: string)
      modifies this
      ensures filters == old(filters).(duration := duration)
    {
      filters := filters.(duration := duration);
    }

    /** `handleClearFilters()` */
    method ClearFilters()
      modifies this
      ensures filters == Neutral() && !HasActiveFilters(filters)
    {
      filters := Filters("", "all", "all", "all");
    }
  }
}
