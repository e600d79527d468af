/**
 * Search over the guide sections (`search_in_guide_content`): every record
 * whose guide section is present, non-empty and contains the query under
 * case folding is kept, in the order of the archive, together with its
 * theme label, guide text and highlighted guide text.
 *
 * `SearchInGuideContent` returns early on the empty query and otherwise runs
 * the scan loop (`Selection.Collect`) with `Found` as the per-record step;
 * `SearchSpec` is the list it builds, written as a function so that lemmas
 * can speak about it.
 */
module Search {
  import opened Options
  import opened Selection
  import opened Text
  import opened GuideExtractor
  import opened Highlighter
  import opened Newsletter

  /** One row of the result table: the record's own columns plus
      `テーマ情報`, `学校案内内容` and `ハイライト内容`. */
  datatype SearchResult = SearchResult(record: Record, themeInfo: string, guideContent: string, highlighted: string)

  /** The result row a single record contributes, if any. */
  function Found(rec: Record, query: string): Option<SearchResult> {
    match ExtractSchoolGuide(rec.body)
    case None => None
    case Some(g) =>
      if g.content != [] && FoldContains(g.content, query) then
        Some(SearchResult(rec, g.themeInfo, g.content, HighlightKeywords(g.content, query)))
      else None
  }

  /** The source's test for keeping a record: its guide section is present
      and non-empty and holds the query under case folding. */
  predicate Keeps(rec: Record, query: string) {
    var g := ExtractSchoolGuide(rec.body);
    g.Some? && g.value.content != [] && FoldContains(g.value.content, query)
  }

  /** A record yields a row exactly when it is kept, and the row carries
      the record, its guide's label and content, and the highlighted content. */
  lemma FoundKeeps(rec: Record, query: string)
    ensures Found(rec, query).Some? <==> Keeps(rec, query)
    ensures Found(rec, query).Some? ==>
              var x := Found(rec, query).value;
              x.record == rec
              && ExtractSchoolGuide(rec.body) == Some(Guide(x.themeInfo, x.guideContent))
              && x.highlighted == HighlightKeywords(x.guideContent, query)
  {
  }

  /** The step the scan applies to each record for `query`. */
  function Finder(query: string): Record -> Option<SearchResult> {
    rec => Found(rec, query)
  }

  /** The rows the scan collects for `query`. */
  function Scan(records: seq<Record>, query: string): seq<SearchResult> {
    Select(records, Finder(query))
  }

  /** What `search_in_guide_content(df, query)` returns: nothing for the
      empty query, otherwise the rows of the scan. */
  function SearchSpec(records: seq<Record>, query: string): seq<SearchResult> {
    if query == [] then [] else Scan(records, query)
  }

  /** The archive positions of the records `SearchSpec` keeps. */
  function SearchPositions(records: seq<Record>, query: string): seq<nat> {
    if query == [] then [] else Positions(records, Finder(query))
  }

  /** `search_in_guide_content(df, search_query)`. */
  method SearchInGuideContent(records: seq<Record>, query: string) returns (results: seq<SearchResult>)
    ensures results == SearchSpec(records, query)
    ensures query == [] ==> results == []
    ensures |results| <= |records|
  {
    if query == [] {
      return [];
    }
    results := Collect(records, Finder(query));
    SelectPositions(records, Finder(query));
  }

  /** Search results form an order-preserving selection of the archive:
      row `k` comes from record `SearchPositions[k]`, positions strictly increase, and a
      record is selected exactly when the query is not the empty string, the
      record's guide section is present and non-empty and contains the query
      under case folding. Its highlighted text is the guide text with the
      query highlighted. A whitespace-only query is searched like any other. */
  lemma SearchSelects(records: seq<Record>, query: string)
    ensures var rs, idx := SearchSpec(records, query), SearchPositions(records, query);
            && |idx| == |rs|
            && (forall k, l :: 0 <= k < l < |idx| ==> idx[k] < idx[l])
            && (forall k :: 0 <= k < |idx| ==>
                  idx[k] < |records| && rs[k].record == records[idx[k]]
                  && ExtractSchoolGuide(records[idx[k]].body) == Some(Guide(rs[k].themeInfo, rs[k].guideContent))
                  && rs[k].guideContent != []
                  && FoldContains(rs[k].guideContent, query)
                  && rs[k].highlighted == HighlightKeywords(rs[k].guideContent, query))
            && (forall i :: 0 <= i < |records| ==> (i in idx <==> query != [] && Keeps(records[i], query)))
  {
    var rs, idx := SearchSpec(records, query), SearchPositions(records, query);
    if query != [] {
      SelectPositions(records, Finder(query));
      forall k | 0 <= k < |idx|
        ensures idx[k] < |records| && rs[k].record == records[idx[k]]
        ensures ExtractSchoolGuide(records[idx[k]].body) == Some(Guide(rs[k].themeInfo, rs[k].guideContent))
        ensures rs[k].guideContent != [] && FoldContains(rs[k].guideContent, query)
        ensures rs[k].highlighted == HighlightKeywords(rs[k].guideContent, query)
      {
        FoundKeeps(records[idx[k]], query);
      }
      forall i | 0 <= i < |records|
        ensures i in idx <==> Keeps(records[i], query)
      {
        FoundKeeps(records[i], query);
      }
    }
  }

  /** Every result row comes from a record whose body has a guide section,
      and carries that section's label and content. */
  lemma ResultsHaveGuides(records: seq<Record>, query: string)
    ensures forall k :: 0 <= k < |SearchSpec(records, query)| ==>
              var x := SearchSpec(records, query)[k];
              ExtractSchoolGuide(x.record.body) == Some(Guide(x.themeInfo, x.guideContent))
  {
    if query != [] {
      SelectPositions(records, Finder(query));
    }
  }

  /** Rendering with at least one hit writes a highlight span. */
  lemma {:induction false} RenderHasSpan(ps: seq<Piece>)
    requires HitCount(ps) > 0
    ensures Contains(Render(ps), SpanOpen)
  {
    match ps[0]
    case Hit(t) =>
      var r := Render(ps);
      assert r == SpanOpen + (t + SpanClose + Render(ps[1..]));
      assert r[..|SpanOpen|] == SpanOpen;
      assert OccursAt(r, SpanOpen, 0);
    case Plain(c) =>
      RenderHasSpan(ps[1..]);
      var i: nat :| i <= |Render(ps[1..])| && OccursAt(Render(ps[1..]), SpanOpen, i);
      OccursAfterPrefix([c], Render(ps[1..]), SpanOpen, i);
  }

  /** Every result row's highlighted text holds at least one highlight span,
      and erasing the markup gives back its guide text when that holds no `<`. */
  lemma ResultHighlighted(records: seq<Record>, query: string, k: nat)
    requires k < |SearchSpec(records, query)|
    ensures var x := SearchSpec(records, query)[k];
            Contains(x.highlighted, SpanOpen)
            && ('<' !in x.guideContent ==> Erase(x.highlighted) == x.guideContent)
  {
    SelectPositions(records, Finder(query));
    var x := SearchSpec(records, query)[k];
    HitsIffContained(x.guideContent, query);
    RenderHasSpan(Pieces(x.guideContent, query));
    if '<' !in x.guideContent {
      HighlightErase(x.guideContent, query);
    }
  }
}
