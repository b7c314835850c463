/**
  The steps of the command-line entry point that transform data: the
  file name derived from the topic, the two output paths, the summary
  pass over the found papers, and the second relevance pass that keeps the
  papers whose summaries are still relevant.
 */
module Cli {
  import opened Strings
  import opened Seqs
  import opened DataModels

  // ---------------------------------------------------------------------------
  // The topic file name

  /** The characters `[a-z_]` the file name keeps. */
  predicate IsFilenameChar(c: char) {
    IsLower(c) || c == '_'
  }

  /** `re.sub(r"[^a-z_]", "", topic.replace(" ", "_").lower())`. */
  function TopicFilename(topic: string): (r: string)
    ensures |r| <= |topic|
    ensures forall i :: 0 <= i < |r| ==> IsFilenameChar(r[i])
  {
    ReplaceSingleChar(topic, ' ', '_');
    Filter(Lower(Replace(topic, " ", "_")), IsFilenameChar)
  }

  /** What one character of the topic contributes to the file name: a space
      or an underscore gives an underscore, a letter its lower case, and
      anything else nothing. */
  function CharPart(c: char): (r: string)
    ensures |r| <= 1
  {
    if c == ' ' || c == '_' then "_"
    else if IsLetter(c) then [ToLowerChar(c)]
    else ""
  }

  /** The file name assembled character by character. */
  function FilenameByChar(s: string): (r: string)
    ensures |r| <= |s|
  {
    if s == [] then "" else CharPart(s[0]) + FilenameByChar(s[1..])
  }

  /** The file name is the per-character reading of the topic. */
  lemma TopicFilenameByChar(topic: string)
    ensures TopicFilename(topic) == FilenameByChar(topic)
  {
    ReplaceSingleChar(topic, ' ', '_');
    LowerSubstFilter(topic);
  }

  lemma {:induction false} LowerSubstFilter(t: string)
    ensures Filter(Lower(SubstChar(t, ' ', '_')), IsFilenameChar) == FilenameByChar(t)
  {
    if t != [] {
      var sub := SubstChar(t, ' ', '_');
      var low := Lower(sub);
      LowerSubstFilter(t[1..]);
      assert sub == [sub[0]] + SubstChar(t[1..], ' ', '_');
      assert low[1..] == Lower(SubstChar(t[1..], ' ', '_'));
      var y := low[0];
      assert y == ToLowerChar(if t[0] == ' ' then '_' else t[0]);
      assert (if IsFilenameChar(y) then [y] else []) == CharPart(t[0]);
    }
  }

  /** A text made of `[a-z_]` alone reads as itself. */
  lemma {:induction false} FilenameByCharOfClean(s: string)
    requires forall i :: 0 <= i < |s| ==> IsFilenameChar(s[i])
    ensures FilenameByChar(s) == s
  {
    if s != [] {
      FilenameByCharOfClean(s[1..]);
      assert s == [s[0]] + s[1..];
    }
  }

  /** Sanitising a file name again changes nothing. */
  lemma TopicFilenameIdempotent(topic: string)
    ensures TopicFilename(TopicFilename(topic)) == TopicFilename(topic)
  {
    var name := TopicFilename(topic);
    TopicFilenameByChar(name);
    FilenameByCharOfClean(name);
  }

  /** Letters, spaces and underscores survive, so a topic of those alone
      keeps its length. */
  lemma {:induction false} FilenameKeepsWordChars(s: string)
    requires forall i :: 0 <= i < |s| ==> IsLetter(s[i]) || s[i] == ' ' || s[i] == '_'
    ensures |FilenameByChar(s)| == |s|
  {
    if s != [] {
      FilenameKeepsWordChars(s[1..]);
    }
  }

  /** Different topics can share a file name, and then one survey's files
      overwrite the other's; a topic without letters gets the empty name. */
  lemma TopicFilenameCollides()
    ensures TopicFilename("A b") == TopicFilename("a_b") == "a_b"
    ensures TopicFilename("42") == ""
  {
    CapitalisedWithSpace();
    TopicFilenameIs("A b", "a_b");
    FilenameByCharOfClean("a_b");
    TopicFilenameIs("a_b", "a_b");
    DigitsOnly();
    TopicFilenameIs("42", "");
  }

  /** The file name of a topic whose per-character reading is known. */
  lemma TopicFilenameIs(topic: string, name: string)
    requires FilenameByChar(topic) == name
    ensures TopicFilename(topic) == name
  {
    TopicFilenameByChar(topic);
  }

  lemma CapitalisedWithSpace()
    ensures FilenameByChar("A b") == "a_b"
  {
    FilenameByCharCons("A b", 'A', " b");
    FilenameByCharCons(" b", ' ', "b");
    FilenameByCharCons("b", 'b', "");
    assert CharPart('A') == "a" && CharPart(' ') == "_" && CharPart('b') == "b";
  }

  lemma FilenameByCharCons(s: string, c: char, rest: string)
    requires s == [c] + rest
    ensures FilenameByChar(s) == CharPart(c) + FilenameByChar(rest)
  {
    assert s[1..] == rest;
  }

  lemma DigitsOnly()
    ensures FilenameByChar("42") == ""
  {
    FilenameByCharCons("42", '4', "2");
    FilenameByCharCons("2", '2', "");
  }

  // ---------------------------------------------------------------------------
  // Output paths

  const MarkdownSuffix := "_survey.md"
  const PdfSuffix := "_survey.pdf"

  /** The Markdown and PDF paths inside the output directory, a path being
      its sequence of components. */
  datatype OutputPaths = OutputPaths(markdown: seq<string>, pdf: seq<string>)

  function SurveyPaths(outputDir: seq<string>, topic: string): (r: OutputPaths)
    ensures |r.markdown| == |r.pdf| == |outputDir| + 1
    ensures r.markdown[..|outputDir|] == outputDir && r.pdf[..|outputDir|] == outputDir
    ensures var name := TopicFilename(topic);
            && |name| <= |r.markdown[|outputDir|]| && r.markdown[|outputDir|][..|name|] == name
            && |name| <= |r.pdf[|outputDir|]| && r.pdf[|outputDir|][..|name|] == name
    ensures r.markdown != r.pdf
  {
    var name := TopicFilename(topic);
    var md := name + MarkdownSuffix;
    var pdf := name + PdfSuffix;
    assert md[|name| + 8] == 'm' && pdf[|name| + 8] == 'p';
    OutputPaths(outputDir + [md], outputDir + [pdf])
  }

  /** Two topics write to the same files exactly when their file names
      agree. */
  lemma SurveyPathsShared(outputDir: seq<string>, a: string, b: string)
    ensures SurveyPaths(outputDir, a) == SurveyPaths(outputDir, b)
            <==> TopicFilename(a) == TopicFilename(b)
  {
    var na := TopicFilename(a);
    var nb := TopicFilename(b);
    if SurveyPaths(outputDir, a) == SurveyPaths(outputDir, b) {
      var ma := na + MarkdownSuffix;
      var mb := nb + MarkdownSuffix;
      assert ma == SurveyPaths(outputDir, a).markdown[|outputDir|];
      assert ma == mb;
      assert |na| == |nb|;
      assert na == ma[..|na|] == mb[..|nb|] == nb;
    }
  }

  // ---------------------------------------------------------------------------
  // Summaries and the second relevance pass

  /** The summary loop: each paper's summary is replaced by the one written
      from its content, or the loop stops at the first paper whose fetch
      raises. `summaryOf` stands for `summarise_paper` on a paper. */
  function SummariseAll(papers: seq<Paper>, summaryOf: Paper -> Option<string>): (r: Option<seq<Paper>>)
    ensures r.Some? <==> forall i :: 0 <= i < |papers| ==> summaryOf(papers[i]).Some?
    ensures r.Some? ==> |r.value| == |papers|
    ensures r.Some? ==> forall i :: 0 <= i < |papers| ==>
              r.value[i].summary == summaryOf(papers[i]).value
              && r.value[i].(summary := papers[i].summary) == papers[i]
  {
    if papers == [] then Some([])
    else match summaryOf(papers[0])
      case None => None
      case Some(s) =>
        match SummariseAll(papers[1..], summaryOf)
        case None =>
          assert exists i :: 0 <= i < |papers| && summaryOf(papers[i]).None? by {
            var j :| 0 <= j < |papers| - 1 && summaryOf(papers[1..][j]).None?;
            assert papers[1..][j] == papers[j + 1];
          }
          None
        case Some(rest) => Some([papers[0].(summary := s)] + rest)
  }

  /** A paper whose summary cannot be fetched stops the loop. */
  lemma {:induction false} SummaryFailsAt(papers: seq<Paper>, summaryOf: Paper -> Option<string>, k: nat)
    requires k < |papers| && summaryOf(papers[k]).None?
    ensures SummariseAll(papers, summaryOf).None?
  {
    if k > 0 && summaryOf(papers[0]).Some? {
      SummaryFailsAt(papers[1..], summaryOf, k - 1);
    }
  }

  /** The second relevance pass: the papers still relevant, in order. */
  function RefilterPapers(papers: seq<Paper>, relevant: Paper -> bool): (r: seq<Paper>)
    ensures IsSubseq(r, papers)
    ensures forall p :: p in r <==> p in papers && relevant(p)
  {
    FilterIsSubseq(papers, relevant);
    Filter(papers, relevant)
  }

  /** Every still-relevant paper is kept as often as it was found. */
  lemma RefilterKeepsCount(papers: seq<Paper>, relevant: Paper -> bool, p: Paper)
    ensures multiset(RefilterPapers(papers, relevant))[p]
            == if relevant(p) then multiset(papers)[p] else 0
  {
    FilterMultiset(papers, relevant, p);
  }
}
