/**
  Two runs of the collection loop on small oracles, showing behaviour of
  the loop as written: a query that follows a removed one is not asked in
  that sweep, and duplicates within one page are all kept.
 */
module SearchExamples {
  import opened Strings
  import opened Seqs
  import opened DataModels
  import opened Search

  /** A relevance judge that accepts every paper. */
  predicate AcceptAll(p: Paper) {
    true
  }

  /** A search where the offset is unavailable for "a" and every other
      query gets an empty page. */
  function OnlyAUnavailable(q: string, offset: int): Option<seq<Paper>> {
    if q == "a" then None else Some([])
  }

  lemma RemoveA()
    ensures RemoveFirst(["a", "b", "c"], "a") == ["b", "c"]
  {
    assert ["a", "b", "c"][1..] == ["b", "c"];
  }

  /** Removing "a" moves "b" into its place, and the iterator goes on with
      "c": "b" is never asked at this offset, though it stays in the list. */
  lemma QueryAfterRemovalSkipped()
    ensures var r := Sweep(["a", "b", "c"], 0, [], 0, 1, OnlyAUnavailable, AcceptAll);
            && r.calls == [("a", 0), ("c", 0)]
            && r.queries == ["b", "c"]
            && (forall c :: c in r.calls ==> c.0 != "b")
  {
    SweepWithRemoval(["a", "b", "c"], ["b", "c"], [("a", 0), ("c", 0)]);
  }

  /** The whole pass over the three queries. */
  lemma SweepWithRemoval(qs: seq<string>, left: seq<string>, calls: seq<(string, int)>)
    requires qs == ["a", "b", "c"] && left == ["b", "c"] && calls == [("a", 0), ("c", 0)]
    ensures Sweep(qs, 0, [], 0, 1, OnlyAUnavailable, AcceptAll) == SweepResult(left, [], calls)
  {
    RemoveA();
    SweepUnfoldUnavailable(qs, 0, [], 0, 1, OnlyAUnavailable, AcceptAll, 1, left);
    SweepAfterRemoval(left);
    assert [("a", 0)] + [("c", 0)] == calls;
  }

  /** After the removal the iterator's index is 1, which is "c". */
  lemma SweepAfterRemoval(left: seq<string>)
    requires left == ["b", "c"]
    ensures Sweep(left, 1, [], 0, 1, OnlyAUnavailable, AcceptAll) == SweepResult(left, [], [("c", 0)])
  {
    assert left[1] == "c";
    var now: seq<Paper> := [] + NewRelevant([], [], AcceptAll);
    assert now == [];
    SweepUnfoldPage(left, 1, [], 0, 1, OnlyAUnavailable, AcceptAll, 2, now);
  }

  const Twice := Paper("T", [], 2020, "", "", "")

  /** A search whose every page holds the same paper twice. */
  function DoublePage(q: string, offset: int): Option<seq<Paper>> {
    Some([Twice, Twice])
  }

  /** Only papers found in earlier pages are filtered out, so a paper
      listed twice on one page is collected twice. */
  lemma DuplicateWithinPageKept()
    ensures GetAllPapers(["q"], 2, 10, DoublePage, AcceptAll, 1).found == [Twice, Twice]
  {
    var page := [Twice, Twice];
    assert NewRelevant(page, [], AcceptAll) == page;
    var now := [] + page;
    SweepUnfoldPage(["q"], 0, [], 0, 2, DoublePage, AcceptAll, 1, now);
    var s := Sweep(["q"], 0, [], 0, 2, DoublePage, AcceptAll);
    assert s.found == page;
    var rest := Collect(s.queries, s.found, 10, 2, 10, DoublePage, AcceptAll, 0);
    CollectStep(["q"], [], 0, 2, 10, DoublePage, AcceptAll, 1, s, 10, 0, rest);
  }
}
