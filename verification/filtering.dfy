/** The viewer's search and year filter over the scraped publication list, the
    list of years offered in the drop-down, and the year state that choosing an
    option sets. */
module Filtering {
  import opened Js
  import opened Text
  import opened Numbers
  import opened Seqs
  import opened Extraction

  /** `parseInt(result.publicationDate.split("-")[0], 10)`: the year of a record, NaN if it has none. */
  function YearOf(r: ScholarResult): (y: Number)
    ensures y == NaN <==> var u := Unsigned(TrimStart(BeforeFirstDash(r.publicationDate))); u == "" || !IsDigit(u[0])
  {
    ParseInt(BeforeFirstDash(r.publicationDate))
  }

  /** A date written `YYYY` or `YYYY-...` has the year `YYYY`. */
  lemma YearOfDate(r: ScholarResult, year: nat, rest: string)
    requires r.publicationDate == NatToDecimal(year) + rest
    requires rest == "" || rest[0] == '-'
    ensures YearOf(r) == Int(year)
  {
    var d := NatToDecimal(year);
    assert forall i :: 0 <= i < |d| ==> d[i] != '-' by {
      assert forall i :: 0 <= i < |d| ==> IsDigit(d[i]);
    }
    BeforeFirstDashStops(d, rest);
    ParseIntOfDigits(d);
    DecimalRoundTrip(year);
  }

  /** The text test: the lower-cased query occurs in the lower-cased title, in
      the lower-cased authors, or in the publication date as it is. */
  predicate MatchesQuery(r: ScholarResult, searchQuery: string)
    ensures MatchesQuery(r, searchQuery) <==>
      var q := ToLower(searchQuery);
      (exists i :: OccursAt(ToLower(r.title), q, i))
      || (exists i :: OccursAt(ToLower(r.authors), q, i))
      || (exists i :: OccursAt(r.publicationDate, q, i))
  {
    var q := ToLower(searchQuery);
    Includes(ToLower(r.title), q) || Includes(ToLower(r.authors), q) || Includes(r.publicationDate, q)
  }

  /** The year test: `selectedYear ? year === selectedYear : true`. An undefined,
      zero or NaN selection is falsy and lets every record through. */
  predicate MatchesYear(r: ScholarResult, selectedYear: Option<Number>)
    ensures MatchesYear(r, selectedYear)
        <==> selectedYear.None? || selectedYear.value == Int(0) || selectedYear.value == NaN
             || YearOf(r) == selectedYear.value
  {
    match selectedYear
    case None => true
    case Some(y) =>
      StrictEqualsIsEqualityButNaN(YearOf(r), y);
      if Truthy(y) then StrictEquals(YearOf(r), y) else true
  }

  predicate Keep(r: ScholarResult, searchQuery: string, selectedYear: Option<Number>)
  {
    MatchesQuery(r, searchQuery) && MatchesYear(r, selectedYear)
  }

  /** `results.filter(...)`: the records that pass both tests, in their original
      order; each one is kept as often as it occurs, the others not at all. */
  function FilterResults(results: seq<ScholarResult>, searchQuery: string, selectedYear: Option<Number>)
    : (filtered: seq<ScholarResult>)
    ensures IsSubseq(filtered, results)
    ensures forall i :: 0 <= i < |filtered| ==> Keep(filtered[i], searchQuery, selectedYear)
    ensures forall r :: r in filtered <==> r in results && Keep(r, searchQuery, selectedYear)
    ensures forall r :: multiset(filtered)[r] == if Keep(r, searchQuery, selectedYear) then multiset(results)[r] else 0
  {
    if |results| == 0 then []
    else
      var x, tail := results[0], results[1..];
      var rest := FilterResults(tail, searchQuery, selectedYear);
      assert results == [x] + tail;
      assert multiset(results) == multiset{x} + multiset(tail);
      if Keep(x, searchQuery, selectedYear) then
        assert ([x] + rest)[1..] == rest;
        [x] + rest
      else rest
  }

  /** A list whose records all pass comes back unchanged. */
  lemma {:induction false} FilterKeepsAllPassing(results: seq<ScholarResult>, searchQuery: string, selectedYear: Option<Number>)
    requires forall i :: 0 <= i < |results| ==> Keep(results[i], searchQuery, selectedYear)
    ensures FilterResults(results, searchQuery, selectedYear) == results
  {
    if |results| > 0 {
      FilterKeepsAllPassing(results[1..], searchQuery, selectedYear);
    }
  }

  /** Filtering twice with the same query and year is filtering once. */
  lemma FilterIdempotent(results: seq<ScholarResult>, searchQuery: string, selectedYear: Option<Number>)
    ensures var once := FilterResults(results, searchQuery, selectedYear);
            FilterResults(once, searchQuery, selectedYear) == once
  {
    var once := FilterResults(results, searchQuery, selectedYear);
    FilterKeepsAllPassing(once, searchQuery, selectedYear);
  }

  /** With an empty query and no year every record is shown, because every string includes "". */
  lemma EmptyQueryShowsAll(results: seq<ScholarResult>)
    ensures FilterResults(results, "", None) == results
  {
    forall i | 0 <= i < |results|
      ensures Keep(results[i], "", None)
    {
      IncludesEmpty(ToLower(results[i].title));
    }
    FilterKeepsAllPassing(results, "", None);
  }

  /** Two selections that let the same records through give the same list. */
  lemma {:induction false} FilterSameSelection(results: seq<ScholarResult>, searchQuery: string, y1: Option<Number>, y2: Option<Number>)
    requires forall r :: MatchesYear(r, y1) == MatchesYear(r, y2)
    ensures FilterResults(results, searchQuery, y1) == FilterResults(results, searchQuery, y2)
  {
    if |results| > 0 {
      FilterSameSelection(results[1..], searchQuery, y1, y2);
    }
  }

  /** A falsy selection, 0 or NaN, filters exactly like no selection at all. */
  lemma FalsyYearIsNoFilter(results: seq<ScholarResult>, searchQuery: string, y: Number)
    requires !Truthy(y)
    ensures FilterResults(results, searchQuery, Some(y)) == FilterResults(results, searchQuery, None)
  {
    FilterSameSelection(results, searchQuery, Some(y), None);
  }

  /** With a non-zero year selected, a record is shown iff it matches the query
      and the year parsed from its date is that year; a date without a year
      (NaN) is never shown. */
  lemma SelectedYearKeeps(results: seq<ScholarResult>, searchQuery: string, year: int, r: ScholarResult)
    requires year != 0
    ensures r in FilterResults(results, searchQuery, Some(Int(year)))
        <==> r in results && MatchesQuery(r, searchQuery) && YearOf(r) == Int(year)
  {
  }

  /** Dates "2021-05" and "2022-01" with 2021 selected and no search: only the 2021 record is shown. */
  lemma FilterByYearExample(a: ScholarResult, b: ScholarResult)
    requires a.publicationDate == "2021-05"
    requires b.publicationDate == "2022-01"
    ensures FilterResults([a, b], "", Some(Int(2021))) == [a]
  {
    var y := Some(Int(2021));
    DecimalOfYears();
    assert "2021-05" == "2021" + "-05" && "2022-01" == "2022" + "-01";
    YearOfDate(a, 2021, "-05");
    YearOfDate(b, 2022, "-01");
    IncludesEmpty(ToLower(a.title));
    assert Keep(a, "", y);
    assert !Keep(b, "", y);
    FilterCons(b, [], "", y);
    FilterCons(a, [b], "", y);
  }

  /** The decimal renderings of the two example years. */
  lemma DecimalOfYears()
    ensures NatToDecimal(2021) == "2021" && NatToDecimal(2022) == "2022"
  {
  }

  /** Filtering a list is deciding on its first record and filtering the rest. */
  lemma FilterCons(x: ScholarResult, tail: seq<ScholarResult>, searchQuery: string, selectedYear: Option<Number>)
    ensures FilterResults([x] + tail, searchQuery, selectedYear)
         == (if Keep(x, searchQuery, selectedYear) then [x] else []) + FilterResults(tail, searchQuery, selectedYear)
  {
    assert ([x] + tail)[1..] == tail;
  }

  /** The search also looks in the raw date, so a record is found by its year
      even when neither its title nor its authors mention it. */
  lemma SearchMatchesDate(results: seq<ScholarResult>, r: ScholarResult, searchQuery: string)
    requires r in results
    requires Includes(r.publicationDate, ToLower(searchQuery))
    ensures r in FilterResults(results, searchQuery, None)
  {
  }

  /** Selecting a year never shows more than the same query without a year. */
  lemma {:induction false} YearNarrows(results: seq<ScholarResult>, searchQuery: string, y: Number)
    ensures IsSubseq(FilterResults(results, searchQuery, Some(y)), FilterResults(results, searchQuery, None))
    decreases |results|
  {
    var withYear := FilterResults(results, searchQuery, Some(y));
    var without := FilterResults(results, searchQuery, None);
    if |results| > 0 {
      var r := results[0];
      var tail := results[1..];
      YearNarrows(tail, searchQuery, y);
      var a := FilterResults(tail, searchQuery, Some(y));
      var b := FilterResults(tail, searchQuery, None);
      if Keep(r, searchQuery, Some(y)) {
        assert withYear == [r] + a && without == [r] + b;
        assert withYear[1..] == a && without[1..] == b;
      } else if Keep(r, searchQuery, None) {
        assert without == [r] + b && without[1..] == b;
        assert withYear == a;
      }
    }
  }

  /** `results.map(r => parseInt(...))`: the year of every record, in order. */
  function ParsedYears(results: seq<ScholarResult>): (ys: seq<Number>)
    ensures |ys| == |results|
    ensures forall i :: 0 <= i < |results| ==> ys[i] == YearOf(results[i])
  {
    if |results| == 0 then [] else [YearOf(results[0])] + ParsedYears(results[1..])
  }

  /** The years offered in the drop-down: the parsed year of every record, each
      once, in the order of first occurrence. */
  function UniqueYears(results: seq<ScholarResult>): (years: seq<Number>)
    ensures NoDuplicates(years)
    ensures forall i :: 0 <= i < |results| ==> YearOf(results[i]) in years
    ensures forall j :: 0 <= j < |years| ==> years[j] in ParsedYears(results)
    ensures |years| <= |results|
  {
    Distinct(ParsedYears(results))
  }

  /** All records whose date has no year contribute a single NaN option. */
  lemma NaNListedOnce(results: seq<ScholarResult>)
    ensures multiset(UniqueYears(results))[NaN] <= 1
  {
    NoDuplicatesCountsOne(UniqueYears(results), NaN);
  }

  /** The drop-down lists years in the order their first record appears. */
  lemma UniqueYearsFirstOccurrence(results: seq<ScholarResult>)
    ensures InFirstOccurrenceOrder(UniqueYears(results), ParsedYears(results))
  {
    DistinctFirstOccurrenceOrder(ParsedYears(results));
  }

  /** The value of the placeholder option "Filter by Year". */
  const PlaceholderValue: string := ""

  /** The value of the option listed for `year`. */
  function OptionValue(year: Number): string
  {
    NumberToString(year)
  }

  /** `handleFilter(Number(e.target.value))`: the selected year after choosing an option. */
  function HandleFilter(optionValue: string): (selectedYear: Option<Number>)
    ensures selectedYear.Some?
    ensures AllSpace(optionValue) ==> selectedYear == Some(Int(0))
  {
    Some(ToNumber(optionValue))
  }

  /** Choosing a listed year selects exactly that year; choosing the placeholder
      selects 0, which clears the year filter. */
  lemma ChoosingAnOption(results: seq<ScholarResult>, searchQuery: string, year: Number)
    ensures HandleFilter(OptionValue(year)) == Some(year)
    ensures HandleFilter(PlaceholderValue) == Some(Int(0))
    ensures FilterResults(results, searchQuery, HandleFilter(PlaceholderValue))
         == FilterResults(results, searchQuery, None)
  {
    NumberRoundTrip(year);
    FalsyYearIsNoFilter(results, searchQuery, Int(0));
  }

  /** Every listed year, once chosen with an empty search, shows at least one record:
      its own records for a real year, every record for 0 or NaN. */
  lemma ListedYearsAreNeverEmpty(results: seq<ScholarResult>, year: Number)
    requires year in UniqueYears(results)
    ensures FilterResults(results, "", HandleFilter(OptionValue(year))) != []
  {
    NumberRoundTrip(year);
    assert HandleFilter(OptionValue(year)) == Some(year);
    var years := UniqueYears(results);
    var parsed := ParsedYears(results);
    var j :| 0 <= j < |years| && years[j] == year;
    var i :| 0 <= i < |parsed| && parsed[i] == year;
    ListedRecordShown(results, i);
  }

  /** A record is shown when the search is empty and its own year is selected. */
  lemma ListedRecordShown(results: seq<ScholarResult>, i: nat)
    requires i < |results|
    ensures results[i] in FilterResults(results, "", Some(YearOf(results[i])))
  {
    var r := results[i];
    IncludesEmpty(ToLower(r.title));
    assert MatchesQuery(r, "");
    assert MatchesYear(r, Some(YearOf(r)));
  }
}
