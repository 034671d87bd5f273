/**
 `main` without its command line, file output and plotting: normalise the input rows, resolve
 the distinct codes to pathway edges, describe the distinct pathways, label the edges with
 their descriptions and summarise them.
 */
module Pipeline {
  import opened Wrappers
  import opened Text
  import opened Responses
  import Seqs
  import opened Normalize
  import opened Resolve
  import opened Describe
  import opened Summary

  /** Why a run stops before writing its summary: a live lookup that found no edge leaves the
      table without a `pathway_id` column (KeyError), or a description body without a tab
      (IndexError). */
  datatype PipelineError = EmptyMapping | DescriptionFailed(cause: DescribeError)

  /** The saved summary table and, when plotting is asked for, the rows of the chart. */
  datatype Outcome = Outcome(summary: seq<Row>, chart: Option<seq<Row>>)

  /** The number of rows the chart shows. */
  const ChartSize: nat := 20

  /** The `pathway_id` column of the mapping table. */
  function PathwayColumn(edges: seq<Edge>): seq<string>
  {
    if edges == [] then [] else PathwayColumn(edges[..|edges| - 1]) + [edges[|edges| - 1].pathwayId]
  }

  /** `pathway_df["pathway_id"].unique()`. */
  function PathwayIds(edges: seq<Edge>): seq<string>
  {
    Seqs.Unique(PathwayColumn(edges))
  }

  /** The mapping table with its description column, reduced to the two grouping columns. */
  function Labelled(edges: seq<Edge>, descMap: map<string, string>): seq<Label>
    requires forall pw :: pw in PathwayColumn(edges) ==> pw in descMap
  {
    if edges == [] then []
    else
      var e := edges[|edges| - 1];
      Labelled(edges[..|edges| - 1], descMap) + [Label(e.pathwayId, descMap[e.pathwayId])]
  }

  /** The mapping table the run works on: the cached one, or the live edges of the distinct
      codes of the normalised input. */
  function Mapping(rows: seq<RawRow>, cache: Option<seq<Edge>>, linkLookup: string -> Response): seq<Edge>
  {
    if cache.Some? then cache.value else LiveEdges(UniqueCodes(Preprocess(rows)), linkLookup)
  }

  /** A run of the pipeline. `linkLookup` and `listLookup` stand for the service's answers to
      `link/pathway` and `list` requests; `excludeLines` for the lines of the exclusion file,
      if one is given; `plot` for the plotting switch. */
  function Pipeline(rows: seq<RawRow>, cache: Option<seq<Edge>>, linkLookup: string -> Response,
                    listLookup: string -> Response, excludeLines: Option<seq<string>>, plot: bool)
    : Result<Outcome, PipelineError>
    requires LiteralTerms(excludeLines)
  {
    var edges := Mapping(rows, cache, linkLookup);
    if cache.None? && edges == [] then Err(EmptyMapping)
    else DescribeAndSummarise(edges, listLookup, excludeLines, plot)
  }

  /** Steps 3 to 7 of `main` on a mapping table: describe its pathways, label its edges,
      summarise them and take the chart rows. */
  function DescribeAndSummarise(edges: seq<Edge>, listLookup: string -> Response,
                                excludeLines: Option<seq<string>>, plot: bool): (res: Result<Outcome, PipelineError>)
    requires LiteralTerms(excludeLines)
    ensures res.Err? ==> res.error.DescriptionFailed?
  {
    match DescriptionMap(PathwayIds(edges), listLookup)
    case Err(e) => Err(DescriptionFailed(e))
    case Ok(descMap) =>
      DescriptionsCover(edges, listLookup);
      Ok(Report(Summarise(Labelled(edges, descMap), excludeLines), plot))
  }

  /** The saved table, and its first rows when plotting is on. */
  function Report(summary: seq<Row>, plot: bool): Outcome
  {
    Outcome(summary, if plot then Some(Head(summary, ChartSize)) else None)
  }

  /** A successful description map has an entry for every pathway of the table, and it is
      that pathway's description. */
  lemma DescriptionsCover(edges: seq<Edge>, listLookup: string -> Response)
    requires DescriptionMap(PathwayIds(edges), listLookup).Ok?
    ensures forall pw :: pw in PathwayColumn(edges) ==>
      pw in DescriptionMap(PathwayIds(edges), listLookup).value &&
      Describe.Describe(pw, listLookup(pw)) == Ok(DescriptionMap(PathwayIds(edges), listLookup).value[pw])
  {
    var ids := PathwayIds(edges);
    Seqs.UniqueSpec(PathwayColumn(edges));
    DescriptionMapOk(ids, listLookup);
    forall pw | pw in PathwayColumn(edges)
      ensures Describe.Describe(pw, listLookup(pw)) == Ok(DescriptionMap(ids, listLookup).value[pw])
    {
      var i :| 0 <= i < |ids| && ids[i] == pw;
    }
  }

  /** A label names a pathway of the table together with that pathway's description. */
  lemma {:induction false} LabelledMember(edges: seq<Edge>, descMap: map<string, string>, x: Label)
    requires forall pw :: pw in PathwayColumn(edges) ==> pw in descMap
    requires x in Labelled(edges, descMap)
    ensures x.pathwayId in PathwayColumn(edges) && x.description == descMap[x.pathwayId]
  {
    var p := edges[..|edges| - 1];
    var e := edges[|edges| - 1];
    assert forall pw :: pw in PathwayColumn(p) ==> pw in PathwayColumn(edges);
    if x in Labelled(p, descMap) {
      LabelledMember(p, descMap, x);
    } else {
      assert x == Label(e.pathwayId, descMap[e.pathwayId]);
    }
  }

  /** Labelling with a map keyed by pathway merges nothing: the edges with a pathway's label
      are exactly the edges to that pathway. */
  lemma {:induction false} LabelledCount(edges: seq<Edge>, descMap: map<string, string>, pw: string)
    requires forall p :: p in PathwayColumn(edges) ==> p in descMap
    requires pw in descMap
    ensures Seqs.Count(Labelled(edges, descMap), Label(pw, descMap[pw])) == Seqs.Count(PathwayColumn(edges), pw)
  {
    if edges != [] {
      var p := edges[..|edges| - 1];
      assert forall q :: q in PathwayColumn(p) ==> q in PathwayColumn(edges);
      LabelledCount(p, descMap, pw);
      var labels := Labelled(edges, descMap);
      var column := PathwayColumn(edges);
      assert labels[..|labels| - 1] == Labelled(p, descMap);
      assert column[..|column| - 1] == PathwayColumn(p);
    }
  }

  /** Each row of the summary of a described table names a pathway of the table with that
      pathway's description, and counts the edges to it, at least one. */
  lemma DescribedSummary(edges: seq<Edge>, descMap: map<string, string>, listLookup: string -> Response,
                         excludeLines: Option<seq<string>>, r: Row)
    requires LiteralTerms(excludeLines)
    requires forall pw :: pw in PathwayColumn(edges) ==>
      pw in descMap && Describe.Describe(pw, listLookup(pw)) == Ok(descMap[pw])
    requires r in Summarise(Labelled(edges, descMap), excludeLines)
    ensures r.pathwayId in PathwayColumn(edges)
    ensures Describe.Describe(r.pathwayId, listLookup(r.pathwayId)) == Ok(r.description)
    ensures r.koCount == Seqs.Count(PathwayColumn(edges), r.pathwayId) >= 1
  {
    var labels := Labelled(edges, descMap);
    SummaryRowsFiltered(labels, excludeLines, r);
    FilteredRow(labels, excludeLines, r);
    assert KeyOf(r) in labels;
    LabelledMember(edges, descMap, KeyOf(r));
    LabelledCount(edges, descMap, r.pathwayId);
  }

  /** Every pathway of the table whose description the filter lets through has that
      description in the summary. */
  lemma DescribedComplete(edges: seq<Edge>, descMap: map<string, string>,
                          excludeLines: Option<seq<string>>, pw: string)
    requires LiteralTerms(excludeLines)
    requires forall p :: p in PathwayColumn(edges) ==> p in descMap
    requires pw in PathwayColumn(edges) && Passes(descMap[pw], excludeLines)
    ensures Seqs.HasKey(Summarise(Labelled(edges, descMap), excludeLines), DescriptionOf, descMap[pw])
  {
    LabelledCount(edges, descMap, pw);
    SummaryCoversLabel(Labelled(edges, descMap), excludeLines, Label(pw, descMap[pw]));
  }

  /** The row kept for a description names the smallest pathway of the table that has
      that description. */
  lemma DescribedFirstKey(edges: seq<Edge>, descMap: map<string, string>, listLookup: string -> Response,
                          excludeLines: Option<seq<string>>, r: Row, pw: string)
    requires LiteralTerms(excludeLines)
    requires forall p :: p in PathwayColumn(edges) ==>
      p in descMap && Describe.Describe(p, listLookup(p)) == Ok(descMap[p])
    requires r in Summarise(Labelled(edges, descMap), excludeLines)
    requires pw in PathwayColumn(edges) && Describe.Describe(pw, listLookup(pw)) == Ok(r.description)
    ensures !StrLess(pw, r.pathwayId)
  {
    LabelledCount(edges, descMap, pw);
    SummaryFirstKey(Labelled(edges, descMap), excludeLines, r, Label(pw, descMap[pw]));
  }

  /** What a successful description and summary of a mapping table promises: each summary
      row names a pathway of the table with that pathway's description and counts the edges
      to it (at least one); a description shared by several pathways is reported under the
      smallest of them; descriptions are distinct and counts non-increasing; a description
      is in the summary exactly when the exclusion filter lets it through (so an exclusion
      file without terms leaves the summary empty), and then no exclusion term occurs in
      its lowercased form; with plotting on, the chart is the first min(20, n) rows. */
  predicate ReportPromises(edges: seq<Edge>, listLookup: string -> Response,
                           excludeLines: Option<seq<string>>, plot: bool, out: Outcome)
    requires LiteralTerms(excludeLines)
  {
    (forall r :: r in out.summary ==>
      r.pathwayId in PathwayColumn(edges) &&
      Describe.Describe(r.pathwayId, listLookup(r.pathwayId)) == Ok(r.description) &&
      r.koCount == Seqs.Count(PathwayColumn(edges), r.pathwayId) >= 1) &&
    (forall r, pw :: (r in out.summary && pw in PathwayColumn(edges) &&
      Describe.Describe(pw, listLookup(pw)) == Ok(r.description)) ==> !StrLess(pw, r.pathwayId)) &&
    DistinctDescriptions(out.summary) && NonIncreasing(out.summary) &&
    (forall r :: r in out.summary ==> Passes(r.description, excludeLines)) &&
    (excludeLines.Some? ==> forall r, t :: r in out.summary && t in ExclusionTerms(excludeLines.value) ==>
      !Contains(Lower(r.description), t)) &&
    (forall pw :: (pw in PathwayColumn(edges) && Describe.Describe(pw, listLookup(pw)).Ok? &&
      Passes(Describe.Describe(pw, listLookup(pw)).value, excludeLines)) ==>
        Seqs.HasKey(out.summary, DescriptionOf, Describe.Describe(pw, listLookup(pw)).value)) &&
    (plot <==> out.chart.Some?) &&
    (plot ==> out.chart.value == out.summary[..if |out.summary| <= ChartSize then |out.summary| else ChartSize])
  }

  /** What describing and summarising a mapping table promises. It fails exactly when some
      pathway of the table has a usable description body without a tab; otherwise its
      outcome keeps every promise of ReportPromises. */
  lemma DescribeAndSummariseSpec(edges: seq<Edge>, listLookup: string -> Response,
                                 excludeLines: Option<seq<string>>, plot: bool)
    requires LiteralTerms(excludeLines)
    ensures DescribeAndSummarise(edges, listLookup, excludeLines, plot).Err? <==>
      exists pw :: pw in PathwayColumn(edges) && Describe.Describe(pw, listLookup(pw)).Err?
    ensures DescribeAndSummarise(edges, listLookup, excludeLines, plot).Ok? ==>
      ReportPromises(edges, listLookup, excludeLines, plot,
                     DescribeAndSummarise(edges, listLookup, excludeLines, plot).value)
  {
    var ids := PathwayIds(edges);
    DescribeFailures(edges, listLookup);
    if DescriptionMap(ids, listLookup).Ok? {
      var descMap := DescriptionMap(ids, listLookup).value;
      DescriptionsCover(edges, listLookup);
      assert DescribeAndSummarise(edges, listLookup, excludeLines, plot) ==
        Ok(Report(Summarise(Labelled(edges, descMap), excludeLines), plot));
      DescribedReport(edges, descMap, listLookup, excludeLines, plot);
    }
  }

  /** DescribeAndSummariseSpec's promises for a successful description map. */
  lemma DescribedReport(edges: seq<Edge>, descMap: map<string, string>, listLookup: string -> Response,
                        excludeLines: Option<seq<string>>, plot: bool)
    requires LiteralTerms(excludeLines)
    requires forall p :: p in PathwayColumn(edges) ==>
      p in descMap && Describe.Describe(p, listLookup(p)) == Ok(descMap[p])
    ensures ReportPromises(edges, listLookup, excludeLines, plot,
                           Report(Summarise(Labelled(edges, descMap), excludeLines), plot))
  {
    var summary := Summarise(Labelled(edges, descMap), excludeLines);
    SummariseSpec(Labelled(edges, descMap), excludeLines);
    forall r | r in summary
      ensures r.pathwayId in PathwayColumn(edges)
      ensures Describe.Describe(r.pathwayId, listLookup(r.pathwayId)) == Ok(r.description)
      ensures r.koCount == Seqs.Count(PathwayColumn(edges), r.pathwayId) >= 1
      ensures Passes(r.description, excludeLines)
    {
      DescribedSummary(edges, descMap, listLookup, excludeLines, r);
      SummaryRowsFiltered(Labelled(edges, descMap), excludeLines, r);
      if excludeLines.Some? {
        ExcludeSpec(Aggregate(Labelled(edges, descMap)), ExclusionTerms(excludeLines.value));
      }
    }
    forall r, pw | r in summary && pw in PathwayColumn(edges) &&
      Describe.Describe(pw, listLookup(pw)) == Ok(r.description)
      ensures !StrLess(pw, r.pathwayId)
    {
      DescribedFirstKey(edges, descMap, listLookup, excludeLines, r, pw);
    }
    forall pw | pw in PathwayColumn(edges) && Passes(descMap[pw], excludeLines)
      ensures Seqs.HasKey(summary, DescriptionOf, descMap[pw])
    {
      DescribedComplete(edges, descMap, excludeLines, pw);
    }
  }

  /** The description map of a table's pathways fails exactly when one of them fails. */
  lemma DescribeFailures(edges: seq<Edge>, listLookup: string -> Response)
    ensures DescriptionMap(PathwayIds(edges), listLookup).Err? <==>
      exists pw :: pw in PathwayColumn(edges) && Describe.Describe(pw, listLookup(pw)).Err?
  {
    if DescriptionMap(PathwayIds(edges), listLookup).Err? {
      var pw := FailingPathway(edges, listLookup);
    }
    if exists pw :: pw in PathwayColumn(edges) && Describe.Describe(pw, listLookup(pw)).Err? {
      var pw :| pw in PathwayColumn(edges) && Describe.Describe(pw, listLookup(pw)).Err?;
      FailureStopsMap(edges, listLookup, pw);
    }
  }

  lemma FailingPathway(edges: seq<Edge>, listLookup: string -> Response) returns (pw: string)
    requires DescriptionMap(PathwayIds(edges), listLookup).Err?
    ensures pw in PathwayColumn(edges) && Describe.Describe(pw, listLookup(pw)).Err?
  {
    var ids := PathwayIds(edges);
    DescriptionMapErr(ids, listLookup);
    var k :| 0 <= k < |ids| && Describe.Describe(ids[k], listLookup(ids[k])).Err?;
    pw := ids[k];
    Seqs.UniqueSpec(PathwayColumn(edges));
    assert pw in ids;
  }

  lemma FailureStopsMap(edges: seq<Edge>, listLookup: string -> Response, pw: string)
    requires pw in PathwayColumn(edges) && Describe.Describe(pw, listLookup(pw)).Err?
    ensures DescriptionMap(PathwayIds(edges), listLookup).Err?
  {
    var ids := PathwayIds(edges);
    Seqs.UniqueSpec(PathwayColumn(edges));
    var i :| 0 <= i < |ids| && ids[i] == pw;
    DescriptionMapOk(ids, listLookup);
  }

  /** With a cache the run does not depend on the input rows or on the `link/pathway`
      service, and it never stops for an empty mapping. */
  lemma CachedRunIgnoresInput(rows1: seq<RawRow>, rows2: seq<RawRow>, cached: seq<Edge>,
                              link1: string -> Response, link2: string -> Response,
                              listLookup: string -> Response, excludeLines: Option<seq<string>>, plot: bool)
    requires LiteralTerms(excludeLines)
    ensures Pipeline(rows1, Some(cached), link1, listLookup, excludeLines, plot) ==
      Pipeline(rows2, Some(cached), link2, listLookup, excludeLines, plot)
    ensures Pipeline(rows1, Some(cached), link1, listLookup, excludeLines, plot) != Err(EmptyMapping)
  {
    var res := DescribeAndSummarise(cached, listLookup, excludeLines, plot);
    assert res.Err? ==> res.error.DescriptionFailed?;
  }

  /** Without a cache, every row of a successful run's summary goes back to the input: its
      pathway is linked, by a usable response, to a code that some kept input row holds, and
      its count is the number of live edges to that pathway. */
  lemma LiveRunRow(rows: seq<RawRow>, linkLookup: string -> Response, listLookup: string -> Response,
                   excludeLines: Option<seq<string>>, plot: bool, r: Row) returns (code: string, i: nat)
    requires LiteralTerms(excludeLines)
    requires Pipeline(rows, None, linkLookup, listLookup, excludeLines, plot).Ok?
    requires r in Pipeline(rows, None, linkLookup, listLookup, excludeLines, plot).value.summary
    ensures code in UniqueCodes(Preprocess(rows)) && IsKoCode(code)
    ensures Usable(linkLookup(code)) && Edge(code, r.pathwayId) in ResponseEdges(code, linkLookup(code))
    ensures i < |rows| && !Dropped(rows[i]) && KoRecord(rows[i].gene, code) in RowRecords(rows[i])
    ensures r.koCount == Seqs.Count(PathwayColumn(LiveEdges(UniqueCodes(Preprocess(rows)), linkLookup)), r.pathwayId) >= 1
    ensures Describe.Describe(r.pathwayId, listLookup(r.pathwayId)) == Ok(r.description)
  {
    var kos := UniqueCodes(Preprocess(rows));
    var edges := LiveEdges(kos, linkLookup);
    assert Pipeline(rows, None, linkLookup, listLookup, excludeLines, plot) ==
      DescribeAndSummarise(edges, listLookup, excludeLines, plot);
    DescribeAndSummariseSpec(edges, listLookup, excludeLines, plot);
    var e := PathwayEdge(edges, r.pathwayId);
    LiveEdgesMember(kos, linkLookup, e);
    code := e.ko;
    ResponseEdgesSpec(code, linkLookup(code));
    UniqueCodesValid(rows);
    i := CodeSource(rows, code);
  }

  /** A pathway of the table comes from one of its edges. */
  lemma {:induction false} PathwayEdge(edges: seq<Edge>, pw: string) returns (e: Edge)
    requires pw in PathwayColumn(edges)
    ensures e in edges && e.pathwayId == pw
  {
    var p := edges[..|edges| - 1];
    if pw in PathwayColumn(p) {
      e := PathwayEdge(p, pw);
      assert e in p;
    } else {
      e := edges[|edges| - 1];
    }
  }

  /** A code to resolve was found in a kept input row. */
  lemma CodeSource(rows: seq<RawRow>, code: string) returns (i: nat)
    requires code in UniqueCodes(Preprocess(rows))
    ensures i < |rows| && !Dropped(rows[i]) && KoRecord(rows[i].gene, code) in RowRecords(rows[i])
  {
    UniqueCodesSpec(Preprocess(rows));
    var rec :| rec in Preprocess(rows) && rec.ko == code;
    Seqs.FlatMapMember(rows, RowRecords, rec);
    var k :| 0 <= k < |rows| && rec in RowRecords(rows[k]);
    RowRecordsSpec(rows[k]);
    i := k;
  }

  /** `main`: the same steps in the script's order, with the fetching steps run as loops.
      It gives exactly the run Pipeline describes. */
  method Run(rows: seq<RawRow>, cache: Option<seq<Edge>>, linkLookup: string -> Response,
             listLookup: string -> Response, excludeLines: Option<seq<string>>, plot: bool)
    returns (res: Result<Outcome, PipelineError>)
    requires LiteralTerms(excludeLines)
    ensures res == Pipeline(rows, cache, linkLookup, listLookup, excludeLines, plot)
  {
    var kos := UniqueCodes(Preprocess(rows));
    var edges, _ := FetchKoPathwayMapping(kos, cache, linkLookup);
    if cache.None? && edges == [] {
      return Err(EmptyMapping);
    }
    var ids := PathwayIds(edges);
    var descriptions, _ := FetchPathwayDescriptions(ids, listLookup);
    if descriptions.Err? {
      return Err(DescriptionFailed(descriptions.error));
    }
    DescriptionsCover(edges, listLookup);
    var summary := Summarise(Labelled(edges, descriptions.value), excludeLines);
    var chart := if plot then Some(Head(summary, ChartSize)) else None;
    return Ok(Outcome(summary, chart));
  }
}
