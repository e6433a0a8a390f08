/** The scraper's extraction rules. The rendered profile page is given as plain
    data, one value per node the scraper reads, and the three `page.evaluate`
    callbacks become pure functions from that data to the response payload:
    the publication list, the metrics and the citation histogram. */
module Extraction {
  import opened Js
  import opened Text

  /** The title anchor of a publication row: its text and its `href`, if it has one. */
  datatype TitleLink = TitleLink(text: string, href: Option<string>)

  /** One publication row of the profile table, reduced to the nodes the scraper reads. */
  datatype Row = Row(
    titleLink: Option<TitleLink>, // the title anchor
    gray: seq<string>,            // the texts of the grey metadata lines, in document order
    year: Option<string>,         // the year cell
    citedBy: Option<string>)      // the text of the link in the citation cell

  /** The rendered page: the publication rows, the values of the statistics
      block, and the year labels and bar values of the citation graph, each in
      document order. */
  datatype Page = Page(rows: seq<Row>, stats: seq<string>, years: seq<string>, bars: seq<string>)

  datatype ScholarResult = ScholarResult(
    title: string,
    link: string,
    authors: string,
    publicationDate: string,
    journal: string,
    citationCount: string)

  datatype ScholarMetrics = ScholarMetrics(
    citationsAll: string,
    citationsSince2019: string,
    hIndexAll: string,
    hIndexSince2019: string,
    i10IndexAll: string,
    i10IndexSince2019: string)

  datatype GraphData = GraphData(year: string, citations: string)

  /** The payload of a successful scrape. */
  datatype ScholarResponse = ScholarResponse(
    results: seq<ScholarResult>,
    metrics: ScholarMetrics,
    graphData: seq<GraphData>)

  /** At most this many publication rows are read. */
  const MaxResults: nat := 20

  function Min(a: nat, b: nat): nat
  {
    if a < b then a else b
  }

  /** The text and the `href` of an optional title anchor. */
  function TitleText(t: Option<TitleLink>): Option<string>
  {
    match t
    case Some(a) => Some(a.text)
    case None => None
  }

  function TitleHref(t: Option<TitleLink>): Option<string>
  {
    match t
    case Some(a) => a.href
    case None => None
  }

  function TrimOpt(o: Option<string>): Option<string>
  {
    match o
    case Some(s) => Some(Trim(s))
    case None => None
  }

  /** The record the scraper builds from one row. Title, link, authors, date and
      journal fall back to "" only when their node is absent (`??`); the citation
      count falls back to "0" also when its trimmed text is empty (`||`). */
  function ExtractRow(row: Row): (r: ScholarResult)
    ensures row.titleLink.None? ==> r.title == "" && r.link == ""
    ensures row.titleLink.Some? ==> r.title == row.titleLink.value.text
    ensures row.titleLink.Some? && row.titleLink.value.href.None? ==> r.link == ""
    ensures row.titleLink.Some? && row.titleLink.value.href.Some? ==> r.link == row.titleLink.value.href.value
    ensures |row.gray| == 0 ==> r.authors == ""
    ensures |row.gray| > 0 ==> r.authors == Trim(row.gray[0])
    ensures IsTrimmed(r.authors)
    ensures row.year.None? ==> r.publicationDate == ""
    ensures row.year.Some? ==> r.publicationDate == row.year.value
    ensures |row.gray| < 2 ==> r.journal == ""
    ensures |row.gray| >= 2 ==> r.journal == row.gray[1]
    ensures r.citationCount != "" && IsTrimmed(r.citationCount)
    ensures row.citedBy.None? || Trim(row.citedBy.value) == "" ==> r.citationCount == "0"
    ensures row.citedBy.Some? && Trim(row.citedBy.value) != "" ==> r.citationCount == Trim(row.citedBy.value)
  {
    ScholarResult(
      title := Coalesce(TitleText(row.titleLink), ""),
      link := Coalesce(TitleHref(row.titleLink), ""),
      authors := Coalesce(TrimOpt(At(row.gray, 0)), ""),
      publicationDate := Coalesce(row.year, ""),
      journal := Coalesce(At(row.gray, 1), ""),
      citationCount := OrElse(TrimOpt(row.citedBy), "0"))
  }

  /** The same per-row rules as a table of (node, trim, default) triples, one per
      field of the record: which node is read, whether its text is trimmed, and
      whether the default replaces only an absent text (`??`) or also an empty
      one (`||`). */
  datatype Node = TitleNode | HrefAttribute | GrayNode(index: nat) | YearNode | CitedByNode
  datatype Fallback = Nullish(value: string) | Falsy(value: string)
  datatype Rule = Rule(node: Node, trim: bool, fallback: Fallback)

  const RowRules: seq<Rule> := [
    Rule(TitleNode, false, Nullish("")),  // title
    Rule(HrefAttribute, false, Nullish("")),  // link
    Rule(GrayNode(0), true, Nullish("")),     // authors
    Rule(YearNode, false, Nullish("")),   // publicationDate
    Rule(GrayNode(1), false, Nullish("")),    // journal
    Rule(CitedByNode, true, Falsy("0"))       // citationCount
  ]

  function Lookup(row: Row, node: Node): Option<string>
  {
    match node
    case TitleNode => if row.titleLink.Some? then Some(row.titleLink.value.text) else None
    case HrefAttribute => if row.titleLink.Some? then row.titleLink.value.href else None
    case GrayNode(k) => if k < |row.gray| then Some(row.gray[k]) else None
    case YearNode => row.year
    case CitedByNode => row.citedBy
  }

  function ApplyRule(rule: Rule, row: Row): string
  {
    var text := if rule.trim then TrimOpt(Lookup(row, rule.node)) else Lookup(row, rule.node);
    match rule.fallback
    case Nullish(d) => if text.Some? then text.value else d
    case Falsy(d) => if text.Some? && text.value != "" then text.value else d
  }

  function RecordFields(r: ScholarResult): seq<string>
  {
    [r.title, r.link, r.authors, r.publicationDate, r.journal, r.citationCount]
  }

  /** The record built from a row is, field by field, what the rule table prescribes. */
  lemma ExtractRowFollowsRules(row: Row)
    ensures |RecordFields(ExtractRow(row))| == |RowRules|
    ensures forall k :: 0 <= k < |RowRules| ==> RecordFields(ExtractRow(row))[k] == ApplyRule(RowRules[k], row)
  {
    forall k | 0 <= k < |RowRules|
      ensures RecordFields(ExtractRow(row))[k] == ApplyRule(RowRules[k], row)
    {
      FieldFollowsRule(row, k);
    }
  }

  lemma FieldFollowsRule(row: Row, k: nat)
    requires k < |RowRules|
    ensures RecordFields(ExtractRow(row))[k] == ApplyRule(RowRules[k], row)
  {
    if k == 0 {
      TitleFollowsRule(row);
    } else if k == 1 {
      LinkFollowsRule(row);
    } else if k == 2 {
      AuthorsFollowRule(row);
    } else if k == 3 {
      DateFollowsRule(row);
    } else if k == 4 {
      JournalFollowsRule(row);
    } else {
      CitationCountFollowsRule(row);
    }
  }

  lemma TitleFollowsRule(row: Row)
    ensures RecordFields(ExtractRow(row))[0] == ApplyRule(RowRules[0], row)
  {
  }

  lemma LinkFollowsRule(row: Row)
    ensures RecordFields(ExtractRow(row))[1] == ApplyRule(RowRules[1], row)
  {
  }

  lemma DateFollowsRule(row: Row)
    ensures RecordFields(ExtractRow(row))[3] == ApplyRule(RowRules[3], row)
  {
  }

  lemma JournalFollowsRule(row: Row)
    ensures RecordFields(ExtractRow(row))[4] == ApplyRule(RowRules[4], row)
  {
  }

  lemma AuthorsFollowRule(row: Row)
    ensures RecordFields(ExtractRow(row))[2] == ApplyRule(RowRules[2], row)
  {
    AuthorsByCoalesce(row);
    AuthorsRuleByCoalesce(row);
  }

  lemma AuthorsByCoalesce(row: Row)
    ensures ExtractRow(row).authors == Coalesce(TrimOpt(At(row.gray, 0)), "")
  {
  }

  lemma AuthorsRuleByCoalesce(row: Row)
    ensures ApplyRule(Rule(GrayNode(0), true, Nullish("")), row) == Coalesce(TrimOpt(At(row.gray, 0)), "")
  {
  }

  lemma CitationCountFollowsRule(row: Row)
    ensures RecordFields(ExtractRow(row))[5] == ApplyRule(RowRules[5], row)
  {
    CitationCountByOrElse(row);
    CitationRuleByOrElse(row);
  }

  lemma CitationCountByOrElse(row: Row)
    ensures ExtractRow(row).citationCount == OrElse(TrimOpt(row.citedBy), "0")
  {
  }

  lemma CitationRuleByOrElse(row: Row)
    ensures ApplyRule(Rule(CitedByNode, true, Falsy("0")), row) == OrElse(TrimOpt(row.citedBy), "0")
  {
  }

  /** The two policies side by side: an empty title stays empty while a blank
      citation text becomes "0". */
  lemma EmptyTextAsymmetry(row: Row)
    requires row.titleLink == Some(TitleLink("", None))
    requires row.citedBy == Some(" ")
    ensures ExtractRow(row).title == "" && ExtractRow(row).link == ""
    ensures ExtractRow(row).citationCount == "0"
  {
    assert IsSpace(" "[0]);
  }

  /** `rows.map(ExtractRow)`. */
  function MapRows(rows: seq<Row>): (rs: seq<ScholarResult>)
    ensures |rs| == |rows|
    ensures forall i :: 0 <= i < |rows| ==> rs[i] == ExtractRow(rows[i])
  {
    if |rows| == 0 then [] else [ExtractRow(rows[0])] + MapRows(rows[1..])
  }

  /** The publication list: the first 20 rows, each turned into a record, in document order. */
  function ExtractResults(rows: seq<Row>): (rs: seq<ScholarResult>)
    ensures |rs| == Min(|rows|, MaxResults)
    ensures forall i :: 0 <= i < |rs| ==> rs[i] == ExtractRow(rows[i])
  {
    MapRows(rows[..Min(|rows|, MaxResults)])
  }

  /** Rows after the twentieth never influence the result. */
  lemma ExtractResultsIgnoresTail(rows: seq<Row>, more: seq<Row>)
    requires |rows| >= MaxResults
    ensures ExtractResults(rows + more) == ExtractResults(rows)
  {
  }

  /** The six metrics in the order of the statistics block. */
  function MetricsFields(m: ScholarMetrics): (fs: seq<string>)
    ensures |fs| == 6
  {
    [m.citationsAll, m.citationsSince2019, m.hIndexAll, m.hIndexSince2019, m.i10IndexAll, m.i10IndexSince2019]
  }

  /** The metrics: the k-th value of the statistics block for the k-th field,
      "0" where that value is missing or empty. The values are not trimmed. */
  function ExtractMetrics(stats: seq<string>): (m: ScholarMetrics)
    ensures forall k :: 0 <= k < 6 ==> MetricsFields(m)[k] != ""
    ensures forall k :: 0 <= k < 6 && k < |stats| && stats[k] != "" ==> MetricsFields(m)[k] == stats[k]
    ensures forall k :: 0 <= k < 6 && (k >= |stats| || stats[k] == "") ==> MetricsFields(m)[k] == "0"
  {
    var m := ScholarMetrics(
      citationsAll := StatOrZero(stats, 0),
      citationsSince2019 := StatOrZero(stats, 1),
      hIndexAll := StatOrZero(stats, 2),
      hIndexSince2019 := StatOrZero(stats, 3),
      i10IndexAll := StatOrZero(stats, 4),
      i10IndexSince2019 := StatOrZero(stats, 5));
    assert forall k :: 0 <= k < 6 ==> MetricsFields(m)[k] == StatOrZero(stats, k);
    m
  }

  /** `stats[k] || "0"`. */
  function StatOrZero(stats: seq<string>, k: nat): (v: string)
    ensures v != ""
    ensures k < |stats| && stats[k] != "" ==> v == stats[k]
    ensures k >= |stats| || stats[k] == "" ==> v == "0"
  {
    OrElse(At(stats, k), "0")
  }

  /** An empty statistics block gives "0" for every metric. */
  lemma EmptyStatsGiveZeros()
    ensures ExtractMetrics([]) == ScholarMetrics("0", "0", "0", "0", "0", "0")
  {
  }

  /** Metrics with no empty field survive being rendered as a statistics block
      and read back; so reading is idempotent on its own output. */
  lemma MetricsRoundTrip(m: ScholarMetrics)
    requires forall k :: 0 <= k < 6 ==> MetricsFields(m)[k] != ""
    ensures ExtractMetrics(MetricsFields(m)) == m
  {
    var fs := MetricsFields(m);
    assert fs[0] != "" && fs[1] != "" && fs[2] != "" && fs[3] != "" && fs[4] != "" && fs[5] != "";
  }

  /** The texts of a node list as read with `textContent || d`: the year labels
      with `d = ""`, the bar values with `d = "0"`. */
  function TextContents(texts: seq<string>, d: string): (vs: seq<string>)
    ensures |vs| == |texts|
  {
    seq(|texts|, i requires 0 <= i < |texts| => OrElse(Some(texts[i]), d))
  }

  /** `years.map((year, i) => ({ year, citations: citations[i] || "0" }))`. */
  function ZipByYears(labels: seq<string>, values: seq<string>): (g: seq<GraphData>)
    ensures |g| == |labels|
  {
    seq(|labels|, i requires 0 <= i < |labels| => GraphData(labels[i], OrElse(At(values, i), "0")))
  }

  /** The histogram: one point per year label, paired by position with the bar
      value of the same index, "0" where that value is missing or empty. */
  function ExtractGraph(years: seq<string>, bars: seq<string>): (g: seq<GraphData>)
    ensures |g| == |years|
    ensures forall i :: 0 <= i < |g| ==> g[i].year == years[i] && g[i].citations != ""
    ensures forall i :: 0 <= i < |g| && i < |bars| && bars[i] != "" ==> g[i].citations == bars[i]
    ensures forall i :: 0 <= i < |g| && (i >= |bars| || bars[i] == "") ==> g[i].citations == "0"
  {
    ZipByYears(TextContents(years, ""), TextContents(bars, "0"))
  }

  function GraphYears(g: seq<GraphData>): (ys: seq<string>)
    ensures |ys| == |g|
  {
    seq(|g|, i requires 0 <= i < |g| => g[i].year)
  }

  function GraphCitations(g: seq<GraphData>): (cs: seq<string>)
    ensures |cs| == |g|
  {
    seq(|g|, i requires 0 <= i < |g| => g[i].citations)
  }

  /** The histogram's years are exactly the year labels; when the graph has a
      non-empty bar for each year its citations are exactly those bars, and
      surplus bars are dropped. */
  lemma GraphProjections(years: seq<string>, bars: seq<string>)
    ensures GraphYears(ExtractGraph(years, bars)) == years
    ensures |bars| >= |years| && (forall i :: 0 <= i < |bars| ==> bars[i] != "")
            ==> GraphCitations(ExtractGraph(years, bars)) == bars[..|years|]
  {
  }

  /** Three labels and two bars: the third year gets "0". */
  lemma GraphPadsMissingBars()
    ensures ExtractGraph(["2020", "2021", "2022"], ["5", "3"])
         == [GraphData("2020", "5"), GraphData("2021", "3"), GraphData("2022", "0")]
  {
  }

  /** The three `page.evaluate` callbacks, over one snapshot of the page. */
  function Scrape(page: Page): (resp: ScholarResponse)
    ensures |resp.results| == Min(|page.rows|, MaxResults)
    ensures forall i :: 0 <= i < |resp.results| ==> resp.results[i] == ExtractRow(page.rows[i])
    ensures forall k :: 0 <= k < 6 ==> MetricsFields(resp.metrics)[k] != ""
    ensures forall k :: 0 <= k < 6 ==>
              MetricsFields(resp.metrics)[k] == if k < |page.stats| && page.stats[k] != "" then page.stats[k] else "0"
    ensures |resp.graphData| == |page.years|
    ensures forall i :: 0 <= i < |resp.graphData| ==>
              resp.graphData[i] == GraphData(page.years[i], if i < |page.bars| && page.bars[i] != "" then page.bars[i] else "0")
  {
    ScholarResponse(ExtractResults(page.rows), ExtractMetrics(page.stats), ExtractGraph(page.years, page.bars))
  }
}
