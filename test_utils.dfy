/** The query filter of the test driver: which query ids a run asks about. */
module TestUtils {
  import opened Common

  /** Python's s[a:b] for 0 <= a <= b: both ends clamped to the length, never an error. */
  function Slice(s: string, a: nat, b: nat): (r: string)
    requires a <= b
    ensures |r| <= b - a
    ensures |s| >= b ==> r == s[a..b]
    ensures |s| <= a ==> r == ""
  {
    var hi := if b <= |s| then b else |s|;
    var lo := if a <= hi then a else hi;
    s[lo..hi]
  }

  /** The graph-shape, graph-pattern and graph-index parts of a query id, and its graph id. */
  function ShapeOf(qid: string): string { Slice(qid, 0, 2) }
  function PatternOf(qid: string): string { Slice(qid, 2, 4) }
  function IndexPart(qid: string): string { Slice(qid, 4, 6) }
  function GraphId(qid: string): string { Slice(qid, 0, 8) }

  /** An absent filter admits everything; a present one admits its members. */
  predicate Admits(filter: Option<seq<string>>, part: string) {
    filter.None? || part in filter.value
  }

  /** query_filter: the chain of early returns. A filter is a list of two-character codes and
      the history a list of graph ids. */
  function QueryFilter(qid: string, gs: Option<seq<string>>, gp: Option<seq<string>>, gi: Option<seq<string>>,
                       history: seq<string>): (keep: bool)
    ensures keep <==> Admits(gs, ShapeOf(qid)) && Admits(gp, PatternOf(qid)) && Admits(gi, IndexPart(qid)) &&
                      GraphId(qid) !in history
  {
    if gs.Some? && ShapeOf(qid) !in gs.value then false
    else if gp.Some? && PatternOf(qid) !in gp.value then false
    else if gi.Some? && IndexPart(qid) !in gi.value then false
    else if |history| > 0 && GraphId(qid) in history then false
    else true
  }

  /** With no filter and no history every query is kept. */
  lemma NoFiltersKeepAll(qid: string)
    ensures QueryFilter(qid, None, None, None, [])
  {
  }

  /** Recording a graph id in the history rejects every query of that graph and leaves the
      verdict on every other query as it was. */
  lemma HistoryRejectsGraph(qid: string, gs: Option<seq<string>>, gp: Option<seq<string>>, gi: Option<seq<string>>,
                            history: seq<string>, gid: string)
    ensures GraphId(qid) == gid ==> !QueryFilter(qid, gs, gp, gi, history + [gid])
    ensures GraphId(qid) != gid ==> QueryFilter(qid, gs, gp, gi, history + [gid]) == QueryFilter(qid, gs, gp, gi, history)
  {
    assert gid in history + [gid];
    assert forall x :: x in history + [gid] <==> x in history || x == gid;
  }

  /** The filters narrow: adding codes to a filter can only admit more queries. */
  lemma WiderFilterKeepsMore(qid: string, gs: seq<string>, gs': seq<string>, gp: Option<seq<string>>,
                             gi: Option<seq<string>>, history: seq<string>)
    requires forall x :: x in gs ==> x in gs'
    ensures QueryFilter(qid, Some(gs), gp, gi, history) ==> QueryFilter(qid, Some(gs'), gp, gi, history)
    ensures QueryFilter(qid, Some(gs), gp, gi, history) ==> QueryFilter(qid, None, gp, gi, history)
  {
  }
}
