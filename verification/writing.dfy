/**
  The reference reconciler of the survey writer: it decides which papers a
  drafted survey cites, cuts the draft at its first "## References" heading,
  and rebuilds that section from the canonical entries of the cited papers,
  sorted by the first author's surname and de-duplicated.

  The two citation helpers are a parameter (`CitationStyle`), so every law
  here holds for any citation format; `Apa` is the one the program uses.
 */
module Writing {
  import opened Strings
  import opened Seqs
  import opened DataModels

  /** The three `Paper` methods the reconciler calls. */
  datatype CitationStyle = CitationStyle(
    narrative: Paper -> string,      // get_citation(in_parens=False)
    parenthetical: Paper -> string,  // get_citation(in_parens=True)
    entry: Paper -> string)          // references_entry()

  const Apa := CitationStyle(NarrativeCitation, ParentheticalCitation, ReferencesEntry)

  const ReferencesHeading := "## References"

  /** Python's `s[1:-1]`. */
  function DropEnds(s: string): (r: string)
    ensures |s| >= 2 ==> r == s[1..|s| - 1]
    ensures |s| < 2 ==> r == []
  {
    if |s| < 2 then [] else s[1..|s| - 1]
  }

  /** A paper counts as cited when its parenthetical citation without the
      outer characters, or its narrative citation, occurs anywhere in the
      text. */
  predicate IsCited(p: Paper, text: string, style: CitationStyle) {
    Contains(text, DropEnds(style.parenthetical(p))) || Contains(text, style.narrative(p))
  }

  /** The cited papers, in input order. */
  function CitedPapers(text: string, papers: seq<Paper>, style: CitationStyle): (r: seq<Paper>)
    ensures forall p :: p in r <==> p in papers && IsCited(p, text, style)
    ensures IsSubseq(r, papers)
  {
    FilterIsSubseq(papers, p => IsCited(p, text, style));
    Filter(papers, p => IsCited(p, text, style))
  }

  /** `text.rsplit("## References")[0].strip()`: the stripped text before the
      first heading, or the whole stripped text when there is none. */
  function BodyOf(text: string): (r: string)
    ensures !Contains(r, ReferencesHeading)
    ensures r == [] || (!IsSpace(r[0]) && !IsSpace(r[|r| - 1]))
    ensures !Contains(text, ReferencesHeading) ==> r == Strip(text)
  {
    var f := Find(text, ReferencesHeading);
    if f.None? then
      StripKeepsAbsence(text, ReferencesHeading);
      Strip(text)
    else
      var before := text[..f.value];
      BeforeFirstHasNone(text, ReferencesHeading, f.value);
      StripKeepsAbsence(before, ReferencesHeading);
      Strip(before)
  }

  /** The sort key: the first author's surname, or "" without authors. */
  function FirstSurname(p: Paper): string {
    if p.authors == [] then "" else p.authors[0].lastName
  }

  /** The reference entries of the cited papers, built as the program does:
      (paper, entry) pairs sorted by surname, put through a dict keyed by the
      paper, and its values taken. */
  function ReferenceEntries(cited: seq<Paper>, style: CitationStyle): (r: seq<string>)
    ensures |r| <= |cited|
    ensures r == [] <==> cited == []
  {
    var pairs := Map(cited, (p: Paper) => (p, style.entry(p)));
    var sorted := SortBy(pairs, (pe: (Paper, string)) => FirstSurname(pe.0));
    Values(DictOf(sorted))
  }

  /** The papers the rebuilt section lists, in order. */
  function ReferencePapers(cited: seq<Paper>): seq<Paper> {
    Dedup(SortBy(cited, FirstSurname))
  }

  /** `correct_references`. */
  function CorrectReferences(text: string, papers: seq<Paper>, style: CitationStyle): (r: string)
    ensures r == BodyOf(text) + "\n\n" + ReferencesHeading + "\n\n"
                 + Join(Map(ReferencePapers(CitedPapers(text, papers, style)), style.entry), "\n\n")
    ensures |BodyOf(text)| <= |r| && r[..|BodyOf(text)|] == BodyOf(text)
  {
    var cited := CitedPapers(text, papers, style);
    var body := BodyOf(text);
    EntriesFollowReferencePapers(cited, style);
    var entries := Join(ReferenceEntries(cited, style), "\n\n");
    PrefixOfAppended(body, "\n\n", ReferencesHeading, "\n\n", entries);
    body + "\n\n" + ReferencesHeading + "\n\n" + entries
  }

  lemma PrefixOfAppended(a: string, b: string, c: string, d: string, e: string)
    ensures |a| <= |a + b + c + d + e| && (a + b + c + d + e)[..|a|] == a
  {
  }

  // ---------------------------------------------------------------------------
  // Laws of the rebuilt section

  /** The dict of (paper, entry) pairs yields one entry per distinct paper of
      the sorted list. */
  lemma EntriesFollowReferencePapers(cited: seq<Paper>, style: CitationStyle)
    ensures ReferenceEntries(cited, style) == Map(ReferencePapers(cited), style.entry)
  {
    var pairOf := (p: Paper) => (p, style.entry(p));
    var keyPair := (pe: (Paper, string)) => FirstSurname(pe.0);
    var sortedPapers := SortBy(cited, FirstSurname);
    SortByMap(cited, pairOf, FirstSurname, keyPair);
    var sorted := Map(sortedPapers, pairOf);
    assert SortBy(Map(cited, pairOf), keyPair) == sorted;
    assert Keys(sorted) == sortedPapers;
    DictOfFunctionalValues(sorted, style.entry);
  }

  /** Entries exist for exactly the cited papers. */
  lemma ReferencesExactlyCited(text: string, papers: seq<Paper>, style: CitationStyle)
    ensures forall p :: p in ReferencePapers(CitedPapers(text, papers, style))
                        <==> p in papers && IsCited(p, text, style)
  {
    var cited := CitedPapers(text, papers, style);
    var sorted := SortBy(cited, FirstSurname);
    forall p
      ensures p in sorted <==> p in cited
    {
      assert p in sorted <==> p in multiset(sorted);
      assert p in cited <==> p in multiset(cited);
    }
  }

  /** Structurally equal cited papers yield a single entry. */
  lemma ReferencesDistinct(cited: seq<Paper>)
    ensures NoDups(ReferencePapers(cited))
  {
    DedupNoDups(SortBy(cited, FirstSurname));
  }

  /** Entries are ordered by the first author's surname. */
  lemma ReferencesSorted(cited: seq<Paper>)
    ensures SortedBy(ReferencePapers(cited), FirstSurname)
  {
    SortBySorted(cited, FirstSurname);
    DedupSorted(SortBy(cited, FirstSurname), FirstSurname);
  }

  /** Papers sharing a first surname keep the order in which they were
      cited, each listed once. */
  lemma ReferencesStable(cited: seq<Paper>, k: string)
    ensures Filter(ReferencePapers(cited), p => FirstSurname(p) == k)
         == Dedup(Filter(cited, p => FirstSurname(p) == k))
  {
    var same := (p: Paper) => FirstSurname(p) == k;
    var sorted := SortBy(cited, FirstSurname);
    FilterDedup(sorted, same);
    SortByStableFor(cited, FirstSurname, k, same);
  }

  // ---------------------------------------------------------------------------
  // Running the reconciler on its own output

  /** In a body, a blank line and the heading, the first heading is the one
      after the body. */
  lemma FindHeadingAfterBody(body: string, rest: string)
    requires !Contains(body, ReferencesHeading)
    ensures Find(body + "\n\n" + ReferencesHeading + rest, ReferencesHeading)
            == Some(|body| + 2)
  {
    var h := ReferencesHeading;
    var s := body + "\n\n" + h + rest;
    assert OccursAt(s, |body| + 2, h) by {
      assert s[|body| + 2..|body| + 2 + |h|] == h;
    }
    forall j | 0 <= j < |body| + 2
      ensures !OccursAt(s, j, h)
    {
      if j + |h| <= |body| {
        assert s[j..j + |h|] == body[j..j + |h|];
        assert !OccursAt(body, j, h);
      } else if j + |h| <= |s| {
        var m := if j < |body| then |body| else j;
        assert s[m] == '\n';
        assert s[j..j + |h|][m - j] == '\n';
        assert s[j..j + |h|] != h;
      }
    }
    var f := Find(s, h);
    assert f.Some?;
  }

  /** A stripped body free of the heading, followed by a blank line and the
      heading, is what the reconciler keeps. */
  lemma BodyBeforeHeading(body: string, rest: string)
    requires !Contains(body, ReferencesHeading)
    requires body == [] || (!IsSpace(body[0]) && !IsSpace(body[|body| - 1]))
    ensures BodyOf(body + "\n\n" + ReferencesHeading + rest) == body
  {
    var s := body + "\n\n" + ReferencesHeading + rest;
    FindHeadingAfterBody(body, rest);
    assert s[..|body| + 2] == body + "\n\n";
    StripAppendSpace(body, "\n\n");
  }

  /** Whatever follows it, the first heading cuts the text: the body is the
      stripped text before it. */
  lemma BodyAtFirstHeading(a: string, b: string)
    requires forall j :: 0 <= j < |a| ==> !OccursAt(a + ReferencesHeading + b, j, ReferencesHeading)
    ensures BodyOf(a + ReferencesHeading + b) == Strip(a)
  {
    var s := a + ReferencesHeading + b;
    assert s[|a|..|a| + |ReferencesHeading|] == ReferencesHeading;
    assert OccursAt(s, |a|, ReferencesHeading);
    assert Find(s, ReferencesHeading) == Some(|a|);
    assert s[..|a|] == a;
  }

  /** Applying the reconciler to its own output leaves the body unchanged. */
  lemma BodyIdempotent(text: string, papers: seq<Paper>, style: CitationStyle)
    ensures BodyOf(CorrectReferences(text, papers, style)) == BodyOf(text)
  {
    var body := BodyOf(text);
    var entries := Join(Map(ReferencePapers(CitedPapers(text, papers, style)), style.entry), "\n\n");
    BodyOfOutput(body, entries, CorrectReferences(text, papers, style));
  }

  lemma BodyOfOutput(body: string, entries: string, out: string)
    requires !Contains(body, ReferencesHeading)
    requires body == [] || (!IsSpace(body[0]) && !IsSpace(body[|body| - 1]))
    requires out == body + "\n\n" + ReferencesHeading + "\n\n" + entries
    ensures BodyOf(out) == body
  {
    GroupLast(body + "\n\n" + ReferencesHeading, "\n\n", entries);
    BodyBeforeHeading(body, "\n\n" + entries);
  }

  lemma GroupLast(h: string, a: string, b: string)
    ensures h + a + b == h + (a + b)
  {
  }

  /** The reconciler's output is a fixed point exactly when no paper changes
      its cited status between the draft and the output (the old References
      section is searched too, so this can fail; see `NotIdempotent`). */
  lemma FixpointWhenCitationsAgree(text: string, papers: seq<Paper>, style: CitationStyle)
    requires var out := CorrectReferences(text, papers, style);
             forall p :: p in papers ==> (IsCited(p, text, style) <==> IsCited(p, out, style))
    ensures var out := CorrectReferences(text, papers, style);
            CorrectReferences(out, papers, style) == out
  {
    var out := CorrectReferences(text, papers, style);
    BodyIdempotent(text, papers, style);
    CitedPapersAgree(text, out, papers, style);
  }

  lemma {:induction false} CitedPapersAgree(a: string, b: string, papers: seq<Paper>, style: CitationStyle)
    requires forall p :: p in papers ==> (IsCited(p, a, style) <==> IsCited(p, b, style))
    ensures CitedPapers(a, papers, style) == CitedPapers(b, papers, style)
  {
    if papers != [] {
      CitedPapersAgree(a, b, papers[1..], style);
    }
  }


  // ---------------------------------------------------------------------------
  // `write_literature_survey`

  /** The papers with their URL blanked, as `write_literature_survey` does
      before asking for the draft. */
  function BlankUrls(papers: seq<Paper>): (r: seq<Paper>)
    ensures |r| == |papers|
    ensures forall i :: 0 <= i < |r| ==> r[i].url == ""
    ensures forall i :: 0 <= i < |r| ==> r[i] == papers[i].(url := "")
  {
    Map(papers, (p: Paper) => p.(url := ""))
  }

  /** `write_literature_survey` after the draft has come back: the draft is
      reconciled against the URL-less papers. */
  function WriteLiteratureSurvey(draft: string, papers: seq<Paper>): (r: string)
    ensures |BodyOf(draft)| <= |r| && r[..|BodyOf(draft)|] == BodyOf(draft)
  {
    CorrectReferences(draft, BlankUrls(papers), Apa)
  }

  /** The survey lists exactly the cited papers, all of them without a URL. */
  lemma SurveyListsUrlFreeCited(draft: string, papers: seq<Paper>)
    ensures var listed := ReferencePapers(CitedPapers(draft, BlankUrls(papers), Apa));
            forall p :: p in listed <==> p in BlankUrls(papers) && IsCited(p, draft, Apa)
    ensures forall p :: p in ReferencePapers(CitedPapers(draft, BlankUrls(papers), Apa)) ==> p.url == ""
  {
    ReferencesExactlyCited(draft, BlankUrls(papers), Apa);
  }

  /** Blanking URLs changes neither citation matching nor entries, but two
      papers that differ only in their URL become one. */
  lemma BlankUrlKeepsCitations(p: Paper, q: Paper, text: string)
    ensures IsCited(p.(url := ""), text, Apa) == IsCited(p, text, Apa)
    ensures ReferencesEntry(p.(url := "")) == ReferencesEntry(p)
    ensures p.(url := "") == q.(url := "") <==>
            (p.title, p.authors, p.year, p.venue, p.summary)
            == (q.title, q.authors, q.year, q.venue, q.summary)
  {
  }
}
