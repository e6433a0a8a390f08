# Google Scholar profile scraper and publication viewer, modelled in Dafny

The system scrapes one Google Scholar profile page and shows its publications.
An API route reads three things from the rendered page:

- the first 20 publication rows, each a `ScholarResult` record;
- the six numbers of the statistics block, a `ScholarMetrics` record;
- the citation histogram, a list of `GraphData` points.

A client page filters that list by a search text and by a year. The year is
chosen from a drop-down built from the distinct years of the records.

This project models both pure cores:

- `Extraction` (`extraction.dfy`) treats the rendered page as plain data. A
  `Row` holds the optional title anchor (its text and optional `href`), the
  grey metadata texts, the optional year cell and the optional citation-link
  text. The statistics block is a `seq<string>`. The graph is two
  `seq<string>`: the year labels and the bar values. The three `page.evaluate`
  callbacks become pure functions over this data.
- `Filtering` (`filtering.dfy`) models `filterAndSortResults` as a predicate
  over records plus a filter. It also models the `uniqueYears` list and the
  year state that choosing a drop-down option sets.
- `Js` (`js.dfy`) holds the JavaScript operators the rules depend on:
  - `??` (`Coalesce`) and `||` (`OrElse`) on optional strings;
  - numbers as `Int(i) | NaN`;
  - truthiness, and strict equality `===`.
- `Text` (`text.dfy`) holds ASCII `toLowerCase`, `trim`, `includes`, and
  `split("-")[0]`.
- `Numbers` (`numbers.dfy`) holds `parseInt(s, 10)`, `Number(s)` and
  `String(n)`.
- `Seqs` (`seqs.dfy`) holds subsequences, duplicate-freedom, and the
  insertion order a JavaScript `Set` keeps (`Distinct`).

Behaviour the model keeps exactly as the code has it:

- Title, link, authors, date and journal use `?? ""`. Only an absent node
  gives `""`; an empty text stays empty.
- The citation count uses `|| "0"` after trimming. An absent link and a blank
  text both give `"0"`. A link whose text is `"0"` also gives `"0"`, so `"0"`
  does not by itself mean that the node was missing.
- The authors are the trimmed first grey text. The journal is the grey text at
  index 1, and it is not trimmed.
- Each metric is `stats[k] || "0"`. An empty text becomes `"0"` as well as a
  missing one, and the values are not trimmed.
- The histogram is driven by the year labels. The citations of point `i` are
  `bars[i]` when that bar exists and is non-empty, otherwise `"0"`.
- The year test is `selectedYear ? year === selectedYear : true`, a test of
  truthiness. An undefined selection, 0 and NaN all disable it:
  - the placeholder option has value `""`, and `Number("")` is 0, so it clears
    the filter;
  - a listed year 0 clears the filter too;
  - so does the listed `NaN` option, which is offered when some record's date
    has no year.
- `uniqueYears` is de-duplicated by `Set`, in first-occurrence order, and not
  sorted. NaN is a single value for `Set`, so it is listed at most once.
- The search lower-cases the query, the title and the authors, but not the
  date. The date is searched as it is.

## Model

| member | source | states |
|---|---|---|
| Js.Coalesce | pages/api/scholar.ts:53-59 | `o ?? d` is the present value whenever there is one, otherwise the default; it is "" iff the value is a present "" or is absent with an empty default |
| Js.OrElse | pages/api/scholar.ts:61 | `o || d` is the present value when it is non-empty, otherwise the default; it is "" only when both the value and the default are falsy |
| Js.CoalesceOrElseDiffer | pages/api/scholar.ts:53-61 | `??` and `||` give the same string except on a present empty string, which `??` keeps and `||` replaces with a non-empty default |
| Js.OrElseNeverEmpty | pages/api/scholar.ts:61 | `|| "0"` never yields the empty string, while `?? d` yields "" exactly on a present empty text |
| Js.StrictEqualsIsEqualityButNaN | pages/publication/scholar.tsx:58 | `year === selectedYear` holds iff the two numbers are equal and not NaN, so a NaN year never matches |
| Text.ToLower | pages/publication/scholar.tsx:51-52 | lower-casing keeps the length, leaves no upper-case ASCII letter, changes only upper-case letters and moves each to its lower-case partner |
| Text.ToLowerIdempotent | pages/publication/scholar.tsx:51-52 | lower-casing an already lower-cased text changes nothing, so a lower-case query is searched as typed |
| Text.Includes | pages/publication/scholar.tsx:55-57 | the left-to-right search answers true iff the needle occurs at some offset of the haystack |
| Text.Trim | pages/api/scholar.ts:56 | the trimmed text has no whitespace at either end |
| Text.TrimInfix | pages/api/scholar.ts:56 | the trimmed text is an infix of the input with only whitespace before and after it |
| Text.TrimEmptyIffAllSpace | pages/api/scholar.ts:61 | the trimmed text is empty iff the input is all whitespace, which is exactly when a citation text falls back to "0" |
| Text.TrimIdempotent | pages/api/scholar.ts:61 | trimming leaves an already trimmed text unchanged, so trimming twice is trimming once |
| Text.BeforeFirstDash | pages/publication/scholar.tsx:53 | `split("-")[0]` is the longest prefix without `-`: it is followed by `-` or is the whole text |
| Text.BeforeFirstDashStops | pages/publication/scholar.tsx:53 | a text without `-`, followed by nothing or by a part starting with `-`, is exactly what `split("-")[0]` gives back |
| Numbers.ParseIntDigitPrefix | pages/publication/scholar.tsx:53 | `parseInt` of a run of digits followed by a non-digit is the value of the digits; the rest of the text is ignored |
| Numbers.ParseIntOfDigits | pages/publication/scholar.tsx:53 | `parseInt` of a text made only of digits is the value of those digits |
| Numbers.ParseInt | pages/publication/scholar.tsx:53 | `parseInt(s, 10)` is NaN iff, after leading whitespace and one sign, no digit follows; without a `-` sign the value is never negative |
| Numbers.ParseIntRoundTrip | pages/publication/scholar.tsx:80 | `parseInt(String(n), 10) == n` for every integer `n` |
| Numbers.ToNumber | pages/publication/scholar.tsx:97 | `Number(s)` of an empty or all-whitespace text is 0; without a `-` sign the value is never negative |
| Numbers.ToNumberOfDigits | pages/publication/scholar.tsx:97 | `Number` reads a text made only of digits as their value |
| Numbers.ToNumberOfNegativeDigits | pages/publication/scholar.tsx:97 | `Number` reads `-` and a run of digits as the negated value |
| Numbers.ToNumberOfWord | pages/publication/scholar.tsx:97 | in the model, `Number` reads a trimmed text that starts with neither a digit nor a sign as NaN |
| Numbers.NumberToString | pages/publication/scholar.tsx:102 | `String(x)` is a non-empty text without surrounding whitespace; an integer is rendered as its decimal digits without leading zeros, preceded by `-` exactly when it is negative and by nothing otherwise (no `+`); NaN is rendered as a word that starts with neither a digit nor a sign |
| Numbers.DecimalRoundTrip | pages/publication/scholar.tsx:102 | reading back the decimal digits of a natural number gives the number |
| Numbers.NumberRoundTrip | pages/publication/scholar.tsx:97-102 | `Number(String(x)) == x` for every integer and for NaN, so an option's value converts back to the year it was rendered from |
| Seqs.Distinct | pages/publication/scholar.tsx:77-83 | the `Set` contents have no duplicates, hold exactly the input's values, and are no longer than the input |
| Seqs.DistinctFirstOccurrenceOrder | pages/publication/scholar.tsx:77-83 | the values are listed in the order of their first occurrence in the input |
| Seqs.NoDuplicatesCountsOne | pages/publication/scholar.tsx:78 | in a list without duplicates, each value occurs at most once |
| Extraction.ExtractRow | pages/api/scholar.ts:52-70 | title and link are "" without the anchor; link is "" without `href`; authors are the trimmed first grey text or ""; journal is grey text 1 untrimmed, "" with fewer than two; date is the year text or ""; the citation count is never empty, is trimmed, is "0" when the link is absent or blank, and is the trimmed text otherwise |
| Extraction.ExtractRowFollowsRules | pages/api/scholar.ts:52-61 | each field of the record is what a declarative (node, trim, default) rule table prescribes, with `??` for five fields and `||` for the citation count |
| Extraction.EmptyTextAsymmetry | pages/api/scholar.ts:53-61 | an empty title text stays "", while a blank citation text becomes "0" |
| Extraction.ExtractResults | pages/api/scholar.ts:50-51 | the list has `min(rows, 20)` records and record `i` comes from row `i`, so document order is kept |
| Extraction.ExtractResultsIgnoresTail | pages/api/scholar.ts:51 | rows after the twentieth never change the list |
| Extraction.ExtractMetrics | pages/api/scholar.ts:74-86 | metric `k` is `stats[k]` when that value exists and is non-empty, else "0"; no metric is "" |
| Extraction.EmptyStatsGiveZeros | pages/api/scholar.ts:78-85 | an empty statistics block gives "0" for all six metrics |
| Extraction.MetricsRoundTrip | pages/api/scholar.ts:78-85 | metrics with no empty field, laid out as a statistics block in field order, read back as themselves |
| Extraction.ExtractGraph | pages/api/scholar.ts:88-96 | the histogram has one point per year label; point `i` has year label `i`, and citations `bars[i]` when that bar exists and is non-empty, else "0" |
| Extraction.GraphProjections | pages/api/scholar.ts:89-95 | the histogram's years are exactly the labels; with a non-empty bar for each year, its citations are exactly those bars and surplus bars are dropped |
| Extraction.GraphPadsMissingBars | pages/api/scholar.ts:95 | years 2020, 2021, 2022 with bars 5, 3 give a third point ("2022", "0") |
| Extraction.Scrape | pages/api/scholar.ts:49-96 | the records are the first 20 rows extracted in order; metric `k` is the `k`-th text of the statistics block when present and non-empty, else "0"; histogram point `i` pairs year label `i` with bar `i` when present and non-empty, else "0" |
| Filtering.YearOf | pages/publication/scholar.tsx:53 | a record has no year (NaN) iff the part of its date before the first `-`, after leading whitespace and one sign, does not start with a digit |
| Filtering.MatchesQuery | pages/publication/scholar.tsx:51-57 | the text test passes iff the lower-cased query occurs at some offset of the lower-cased title, of the lower-cased authors, or of the raw date |
| Filtering.MatchesYear | pages/publication/scholar.tsx:58 | the year test passes iff there is no selection, the selection is 0 or NaN, or the record's parsed year equals the selection |
| Filtering.YearOfDate | pages/publication/scholar.tsx:53 | a date written `YYYY` or `YYYY-...` has the year `YYYY` |
| Filtering.FilterResults | pages/publication/scholar.tsx:49-60 | the filtered list is a subsequence of the records; a record is in it iff it is in the records and passes the text and year tests; each kept record occurs as often as in the input and each other record not at all |
| Filtering.FilterKeepsAllPassing | pages/publication/scholar.tsx:50 | a list whose records all pass comes back unchanged |
| Filtering.FilterIdempotent | pages/publication/scholar.tsx:50-60 | filtering the filtered list with the same query and year returns it unchanged |
| Filtering.EmptyQueryShowsAll | pages/publication/scholar.tsx:55-58 | with an empty query and no year, every record is shown, in order |
| Filtering.FalsyYearIsNoFilter | pages/publication/scholar.tsx:58 | a selection of 0 or NaN gives the same list as no selection |
| Filtering.SelectedYearKeeps | pages/publication/scholar.tsx:51-58 | with a non-zero year selected, a record is shown iff it matches the query and its parsed year is that year |
| Filtering.FilterByYearExample | pages/publication/scholar.tsx:50-60 | dates "2021-05" and "2022-01" with 2021 selected and no search show only the 2021 record |
| Filtering.SearchMatchesDate | pages/publication/scholar.tsx:57 | a query whose lower-cased form occurs in the raw date finds the record, whatever its title and authors |
| Filtering.YearNarrows | pages/publication/scholar.tsx:58 | selecting a year gives a subsequence of the list shown for the same query without a year |
| Filtering.ParsedYears | pages/publication/scholar.tsx:79-81 | one parsed year per record, the year of record `i` at position `i` |
| Filtering.UniqueYears | pages/publication/scholar.tsx:77-83 | the listed years have no duplicates; every record's parsed year is listed and every listed year is some record's; there are at most as many years as records |
| Filtering.UniqueYearsFirstOccurrence | pages/publication/scholar.tsx:77-83 | years are listed in the order of the first record that has them |
| Filtering.NaNListedOnce | pages/publication/scholar.tsx:77-83 | however many records have no year, NaN is listed at most once |
| Filtering.HandleFilter | pages/publication/scholar.tsx:73-100 | choosing an option always sets a selection; an empty or blank option value, such as the placeholder's "", selects 0 |
| Filtering.ChoosingAnOption | pages/publication/scholar.tsx:96-102 | choosing a listed year's option selects exactly that year; the placeholder selects 0, which gives the same list as no selection |
| Filtering.ListedYearsAreNeverEmpty | pages/publication/scholar.tsx:96-104 | choosing any listed year with an empty search shows at least one record |

## Left out

- Launching the headless browser, navigating, waiting for network idle and
  closing the browser are I/O. So is the Next.js handler with its 200 and 500
  responses and its fixed error message. The model starts from an
  already-rendered `Page`.
- CSS selectors and the DOM are not modelled. The selectors are
  `.gsc_a_tr`, `.gsc_a_at`, `.gs_gray`, `.gsc_a_y`, `.gsc_a_c a`,
  `#gsc_rsb_st .gsc_rsb_std`, `.gsc_g_t` and `.gsc_g_a`. Each one is replaced
  by the field of `Row` or `Page` holding the texts it would select, in
  document order.
- React state, the effects that re-run the filter, the axios fetch with its
  error handling, and the JSX rendering are not modelled. The filter and the
  year list are modelled as pure functions of their inputs.
- Text.ToLower: only ASCII letters are lower-cased. JavaScript's
  `toLowerCase` also maps other Unicode letters.
- Text.Trim: only ASCII whitespace is removed. JavaScript's `trim` also
  removes other Unicode spaces and line terminators. The same ASCII-only
  whitespace applies to the leading-whitespace skip of `Numbers.ParseInt`
  (through `TrimStart`) and to `Numbers.ToNumber` (through `Trim`): a date
  that starts with U+00A0 has a year in the viewer but NaN in the model.
  Scholar dates do not start with such characters.
- Numbers.ToNumber: decimal points, exponents, `0x`/`0o`/`0b` prefixes and
  `Infinity` read as NaN in the model. The option values the viewer renders
  never contain them.
- Numbers.ToNumberOfWord: holds in the model only. In JavaScript,
  `Number("Infinity")` is Infinity and `Number(".5")` is 0.5, for the reason
  given on the `Numbers.ToNumber` line.
- Numbers.ParseInt: the model returns the exact, unbounded value of the digit
  run. JavaScript's `parseInt` returns a double, which rounds above 2^53 and is
  `Infinity` once the digit run passes about 309 digits. Two dates whose years
  differ only above 2^53 would share one `uniqueYears` entry in the viewer but
  not in the model. Years never reach those sizes.
- Numbers.NumberToString: integers are unbounded. Exponent notation (from
  1e21 up) and the rounding of JavaScript doubles above 2^53 are not modelled.
  Years never reach those sizes.
