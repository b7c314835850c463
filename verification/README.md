# auto-survey in Dafny

auto-survey writes a literature survey on a topic. The pipeline runs in five steps:

1. A language model proposes search queries.
2. The Semantic Scholar search API is paged through for papers, and each paper is judged relevant or not.
3. Each relevant paper is summarised from its PDF.
4. The papers are checked for relevance once more.
5. A draft survey is asked for, and its references section is rebuilt from the papers the draft actually cites.

This project models the deterministic core of that pipeline as pure Dafny functions over immutable datatypes, and proves what each step promises.

- `strings.dfy` (`Strings`): the Python string operations the program relies on, each with the laws the proofs need. They are `strip`, `in`, `find`, `split`, `join`, `replace`, ASCII `lower`, `title` and `str(int)`.
- `seqs.dfy` (`Seqs`): list idioms with their laws:
  - comprehension filters and maps;
  - the stable `sorted` with a key;
  - de-duplication;
  - a `dict` built from pairs and its `values()`;
  - `list.remove`.
- `data_models.py` is modelled in two files:
  - `data_models.dfy` (`DataModels`) covers `Paper`, `Author`, their equality and hash string, and `Paper.__str__`. It also has the citation forms and the reference entry that the reconciler uses.
  - `queries.dfy` (`Queries`) covers the query normaliser `Queries.__post_init__`.
- `search.dfy` (`Search`) covers three parts of `search.py`:
  - the record-to-`Paper` mapping of `find_papers`, with its defaults;
  - the classification of the HTTP response;
  - the collection loop of `get_all_papers`, over a page oracle and a relevance oracle.
- `summarisation.dfy` (`Summarisation`) covers the content pipeline of `summarise_paper`. That is the bounded retry loop over abstract fetch outcomes, the middle truncation and the title/abstract fallback.
- `writing.dfy` (`Writing`) covers `correct_references` and the URL blanking of `write_literature_survey`.
- `cli.dfy` (`Cli`) covers:
  - the topic file-name sanitiser and the output paths;
  - the summary pass;
  - the second relevance pass.
- `writing_examples.dfy` and `search_examples.dfy` hold concrete runs:
  - the repository's `correct_references` test case, proved to give exactly the expected text;
  - the behaviours listed under Findings and notes.

Citation forms and entries: `Paper.get_citation` and `Paper.references_entry` are not part of this model's sources.
- `DataModels.GetCitation` and `DataModels.ReferencesEntry` are defined so that the repository's test case holds. The author-count rules follow the survey prompt in `writing.py`:
  - "Name (Year)" and "(Name, Year)";
  - "A and B" for two authors;
  - "A et al." for three or more.
- An unknown year (`-1`) is written "n.d.".
- The reconciler's laws are stated over a `CitationStyle` record holding these functions. Only the example and the URL-blanking lemmas fix the concrete style.

Oracles: every call into a language model, the network, PDF conversion or the file system is a function parameter. These are:
- `find` for the search page;
- `relevant` for the relevance judge;
- `attempt` for the outcome of each PDF fetch;
- `summarise` / `summaryOf` for the summary;
- the draft text for the survey.

## Model

| member | source | states |
|---|---|---|
| DataModels.AuthorEquals | src/auto_survey/data_models.py:116-118 | An `Author` equals a value iff that value is an `Author` with the same first and last name; any other value is unequal. |
| DataModels.AuthorListEquals | src/auto_survey/data_models.py:48 | Author lists compare element by element: equal iff same length and pairwise equal authors. |
| DataModels.PaperEquals | src/auto_survey/data_models.py:44-53 | A `Paper` equals a value iff that value is a `Paper` with all six fields equal (authors element-wise); any other value is unequal. |
| DataModels.EqualPapersHashAlike | src/auto_survey/data_models.py:55-68 | Equal papers give the same hash string (title, ","-joined author names, year, venue, url, summary). |
| DataModels.HashKey | src/auto_survey/data_models.py:61-68 | The hash string starts with the title and ends with the summary, and is at least as long as title, year digits and summary together. |
| DataModels.HashKeyCollides | src/auto_survey/data_models.py:61-68 | Two unequal papers can share the hash string, since fields are run together without separators. |
| DataModels.YearTextUnknownIff | src/auto_survey/data_models.py:79 | The year is shown as "Unknown Year" exactly when it is -1. |
| DataModels.PaperToString | src/auto_survey/data_models.py:76-89 | `__str__` is the display block with the template's leading newline and indentation stripped off and its trailing whitespace removed. |
| DataModels.GetCitation | src/auto_survey/writing.py:52-55 | Both citation forms end with ")" and the parenthetical one starts with "(", so dropping its first and last characters removes exactly the parentheses. |
| DataModels.ReferencesEntry | tests/test_writing.py:50-54 | An entry holds " (Year). " for its year label and ends with "_.", the close of the italic venue. A paper without authors starts with "Unknown Author". |
| DataModels.CitationFormsAgree | tests/test_writing.py:50-54 | The parenthetical form without its parentheses is "Name, Year" and the narrative form is "Name (Year)", for the same name and year label. |
| Queries.StripQueries | src/auto_survey/data_models.py:134 | Never longer than the input. |
| Queries.StripQueriesMembers | src/auto_survey/data_models.py:134 | A query is kept iff it is the stripped form of some input that is not blank. |
| Queries.StripQueriesClean | src/auto_survey/data_models.py:134 | Every kept query is non-empty with no leading or trailing whitespace. |
| Queries.SplitOrQueries | src/auto_survey/data_models.py:140-143 | Popping a query and extending with its pieces never shortens the list, since splitting gives at least one piece. |
| Queries.OrSplitNeverFires | src/auto_survey/data_models.py:137-143 | No index is selected for the OR split, because " OR " is looked for in a lower-cased string; the list passes through unchanged. |
| Queries.ReplaceAnd | src/auto_survey/data_models.py:146 | Replacing " AND " by " " never lengthens a query, and a query without " AND " is unchanged. |
| Queries.ReplaceAndSplits | src/auto_survey/data_models.py:146 | `replace(" AND ", " ")` is splitting at " AND " and joining with " "; a query without " AND " is unchanged. |
| Queries.ReplaceAndKeepsClean | src/auto_survey/data_models.py:146 | A stripped non-empty query stays non-empty with the same first and last character. |
| Queries.AndCanRemain | src/auto_survey/data_models.py:146 | The replacement does not remove every " AND ": "a AND AND b" becomes "a AND b". |
| Queries.NormaliseQueries | src/auto_survey/data_models.py:131-149 | The normalised list has no duplicates. |
| Queries.NormaliseQueriesMembers | src/auto_survey/data_models.py:131-149 | A query is in the result iff it is some non-blank input, stripped, with " AND " replaced. |
| Queries.NormalisedQueriesClean | src/auto_survey/data_models.py:134-149 | Every normalised query is non-empty with no surrounding whitespace. |
| Queries.OrQueryKeptWhole | src/auto_survey/data_models.py:137-143 | As written, "a OR b" normalises to the single query "a OR b". |
| Queries.OrQuerySplitCorrected | src/auto_survey/data_models.py:137-143 | With the OR test made on the query itself, "a OR b" normalises to "a" and "b". |
| Queries.NormaliseQueriesCorrected | src/auto_survey/data_models.py:131-149 | The corrected normaliser's result has no duplicates. |
| Queries.NormaliseCorrectedMembers | src/auto_survey/data_models.py:134-149 | A query is in the corrected result iff it is a stripped " OR " piece of some non-blank input, stripped, with " AND " replaced. Blank pieces are kept, as line 142 keeps them. |
| Queries.NormaliseCorrectedOrFree | src/auto_survey/data_models.py:137-146 | No corrected query holds " OR ". |
| Queries.ReplaceAndKeepsOrFree | src/auto_survey/data_models.py:146 | Replacing " AND " by " " cannot create an " OR ". |
| Queries.CorrectedAgreesWithoutOr | src/auto_survey/data_models.py:137-143 | On inputs holding no " OR ", the corrected normaliser and the one as written agree. |
| Queries.BlankQueryReachesSearch | src/auto_survey/search.py:128 | A blank query is not clean, yet validation passes the list to the search unchanged; the normaliser would give `[]`. |
| Search.OrEmpty | src/auto_survey/search.py:247 | A missing, null or empty string field becomes ""; a non-empty result is the field's own value. |
| Search.YearOf | src/auto_survey/search.py:256 | The year is -1 iff it is missing, null, 0 or -1; otherwise it is the given year. |
| Search.VenueOf | src/auto_survey/search.py:257 | The venue is "" iff the venue object, its name, or the name's text is missing, null or empty. |
| Search.UrlOf | src/auto_survey/search.py:258 | The URL is "" iff the PDF object, its url, or the url's text is missing, null or empty. |
| Search.AuthorFromName | src/auto_survey/search.py:250-251 | First and last name are the first and last space-separated tokens. Neither contains a space, and a name without a space gives both names equal to it. With a space, the name starts with "first " and ends with " last". |
| Search.AuthorsOfDefined | src/auto_survey/search.py:248-255 | The author list maps without error iff every non-null entry has a name. |
| Search.AuthorsOfValues | src/auto_survey/search.py:248-255 | A mapped author list is the non-null entries, in order, each split into an `Author`. |
| Search.PaperOf | src/auto_survey/search.py:245-260 | A record maps to a paper iff its author list is missing/null or maps without error. |
| Search.PaperDefaults | src/auto_survey/search.py:245-260 | The mapped paper's title, year, venue, url and summary follow the defaults above, each as an if-and-only-if. |
| Search.PapersOf | src/auto_survey/search.py:245-263 | The records map iff every non-null one does. |
| Search.PapersOfValues | src/auto_survey/search.py:245-263 | A mapped result has one paper per non-null record, in order, so it is never longer than the input. |
| Search.Outcome | src/auto_survey/search.py:231-263 | A response's outcome, by status: <br>• 400 whose lower-cased text holds "this limit and/or offset is not available": `None`. <br>• Any other 400: `[]`. <br>• Non-2xx: an HTTP error with that status. <br>• 2xx with a null body or data: `[]`. <br>• Otherwise: a missing author name raises, else the mapped papers. |
| Search.FindPapers | src/auto_survey/search.py:205-264 | 429 responses are retried. The result is the outcome of the first response that is not 429; with only 429 responses there is none. |
| Search.NewRelevantKeeps | src/auto_survey/search.py:57-67 | A page paper is kept iff it is not already found and the oracle judges it relevant. A page without duplicates gives none; a page of new relevant papers is kept whole. |
| Search.Sweep | src/auto_survey/search.py:48-78 | One sweep never loses a found paper: the found list only grows. |
| Search.SweepAppends | src/auto_survey/search.py:48-69 | One sweep only appends: the old list is a prefix of the new one, and every appended paper is relevant and was not found before. |
| Search.SweepCallsAtOffset | src/auto_survey/search.py:48-52 | Every search request made during one sweep uses that sweep's offset. |
| Search.Collect | src/auto_survey/search.py:47-80 | A finished run has at least the minimum number of papers or no queries left; a run that is not finished has used all its fuel, and no run makes more sweeps than the fuel. |
| Search.GetAllPapers | src/auto_survey/search.py:42-83 | Every returned paper was judged relevant, and a finished run has at least the minimum or has run out of queries. |
| Search.CollectKeepsRelevant | src/auto_survey/search.py:57-69 | Across sweeps the found list only grows, with relevant papers not already in it. |
| Search.GetAllPapersFromPages | src/auto_survey/search.py:52-69 | Every returned paper came from a page returned for one of the calls made. |
| Search.GetAllPapersOffset | src/auto_survey/search.py:42-80 | The offset starts at 0 and grows by the batch size once per sweep. |
| Search.GetAllPapersRemoves | src/auto_survey/search.py:53-55 | The remaining queries plus those removed after a `None` page are exactly the starting queries, as multisets. |
| Search.GetAllPapersDistinct | src/auto_survey/search.py:58 | When no page repeats a paper, no paper is returned twice. |
| SearchExamples.QueryAfterRemovalSkipped | src/auto_survey/search.py:48-55 | Removing a query during the `for` loop skips the next one. With queries a, b, c and a `None` page for a, the sweep calls a and c but never b. |
| SearchExamples.DuplicateWithinPageKept | src/auto_survey/search.py:58-69 | A paper repeated within one page is kept twice. |
| Summarisation.FetchFrom | src/auto_survey/summarisation.py:40-70 | At most three attempts are made, all but the last retryable. The loop stops early only on a non-retryable outcome. Content is non-empty only if the last attempt fetched it; it raises iff an unexpected error occurred. |
| Summarisation.FetchContent | src/auto_survey/summarisation.py:36-40 | Without a URL no attempt is made and the content is ""; with one, one to three attempts. |
| Summarisation.FetchStopsAtFirstFinal | src/auto_survey/summarisation.py:42-66 | A 403, a conversion error, a fetched result or an unexpected error at attempt k, after only retryable failures, ends the loop after k+1 attempts. |
| Summarisation.FetchRetriesAll | src/auto_survey/summarisation.py:40-70 | Three retryable failures use all three attempts and leave the content empty. |
| Summarisation.Truncate | src/auto_survey/summarisation.py:72-80 | Content up to 150000 characters is unchanged. Longer content becomes its first 75000 characters, the truncation marker and its last 75000 characters. |
| Summarisation.TruncateIdempotent | src/auto_survey/summarisation.py:72-80 | Truncating truncated content changes nothing. |
| Summarisation.TruncateBounded | src/auto_survey/summarisation.py:72-80 | The result is at most 150000 characters plus the marker, and it is empty iff the content was empty. |
| Summarisation.Fallback | src/auto_survey/summarisation.py:86-90 | Non-empty content is kept. Empty content becomes "# " + title, followed by the summary heading and the summary iff the summary is non-empty. The result is never empty. |
| Summarisation.PaperContent | src/auto_survey/summarisation.py:36-90 | The content handed to the model is never empty; there is none iff the fetch raised. |
| Summarisation.FetchedContentKept | src/auto_survey/summarisation.py:72-90 | Fetched content is used (truncated) and never replaced by the fallback; the fallback is used exactly when nothing was fetched. |
| Summarisation.SummarisePaper | src/auto_survey/summarisation.py:18-123 | A summary exists iff the fetch did not raise, and it is the model's summary of the non-empty content for the topic. |
| Writing.CitedPapers | src/auto_survey/writing.py:116-125 | A paper is cited iff it is among the inputs and its narrative citation, or its parenthetical one without the outer characters, occurs anywhere in the text. Cited papers keep input order. |
| Writing.BodyOf | src/auto_survey/writing.py:128 | The body never holds "## References" and has no leading or trailing whitespace. Text without the heading is only stripped. |
| Writing.BodyAtFirstHeading | src/auto_survey/writing.py:128 | The body of a text is everything before its first "## References", stripped. |
| Writing.BodyBeforeHeading | src/auto_survey/writing.py:128 | A body that is already stripped and free of the heading is recovered from itself followed by a blank line, "## References" and anything after. |
| Writing.CorrectReferences | src/auto_survey/writing.py:100-142 | The output is the body, a blank line, "## References", a blank line and the entries of the listed papers joined by blank lines. The listed papers are the cited ones, sorted and de-duplicated. |
| Writing.ReferenceEntries | src/auto_survey/writing.py:131-136 | There are never more entries than cited papers, and there are none iff no paper is cited. |
| Writing.EntriesFollowReferencePapers | src/auto_survey/writing.py:131-136 | Sorting the (paper, entry) pairs and taking the values of their dict gives the entries of the sorted cited papers, each distinct paper once. |
| Writing.ReferencesExactlyCited | src/auto_survey/writing.py:116-136 | A paper gets an entry iff it is an input paper cited by the text. |
| Writing.ReferencesDistinct | src/auto_survey/writing.py:136 | Structurally equal cited papers give one entry. |
| Writing.ReferencesSorted | src/auto_survey/writing.py:131-135 | Entries are ordered by the first author's surname, "" for papers without authors. |
| Writing.ReferencesStable | src/auto_survey/writing.py:131-136 | Papers sharing a first surname keep the order in which they were cited, each once. |
| Writing.BodyIdempotent | src/auto_survey/writing.py:128-140 | Reconciling the output again leaves its body unchanged. |
| Writing.FixpointWhenCitationsAgree | src/auto_survey/writing.py:116-140 | The output is a fixed point when every paper is cited in the output iff it was cited in the input. |
| Writing.BlankUrls | src/auto_survey/writing.py:71-72 | Every paper's URL becomes "", and nothing else changes. |
| Writing.WriteLiteratureSurvey | src/auto_survey/writing.py:94-97 | The survey starts with the draft's body. |
| Writing.SurveyListsUrlFreeCited | src/auto_survey/writing.py:71-96 | The survey lists exactly the URL-less papers its draft cites, none of them with a URL. |
| Writing.BlankUrlKeepsCitations | src/auto_survey/writing.py:71-72 | Blanking a URL changes neither whether a paper is cited nor its entry. Papers that differ only in URL become equal. |
| WritingExamples.CorrectReferencesExample | tests/test_writing.py:9-66 | The repository's test case gives exactly the expected survey: body kept, invented section replaced, two cited papers in surname order, uncited paper left out. |
| WritingExamples.NotIdempotent | src/auto_survey/writing.py:116-128 | Reconciling twice can differ from reconciling once: the entry written for a three-author paper holds neither of its citation forms. |
| Cli.TopicFilename | src/auto_survey/cli.py:111 | The file name holds only 'a'-'z' and '_' and is never longer than the topic. |
| Cli.TopicFilenameByChar | src/auto_survey/cli.py:111 | Character by character: a space or '_' gives '_', an ASCII letter its lower case in order, anything else nothing. |
| Cli.TopicFilenameIdempotent | src/auto_survey/cli.py:111 | Sanitising a file name again changes nothing. |
| Cli.FilenameKeepsWordChars | src/auto_survey/cli.py:111 | A topic of letters, spaces and underscores keeps its length. |
| Cli.TopicFilenameCollides | src/auto_survey/cli.py:111-113 | "A b" and "a_b" share the file name "a_b", and "42" gets the empty name. |
| Cli.SurveyPaths | src/auto_survey/cli.py:112-113 | Both paths are one component below the output directory. Each file name starts with the topic file name, and the two paths differ. |
| Cli.SurveyPathsShared | src/auto_survey/cli.py:111-113 | Two topics write the same files iff their file names are equal. |
| Cli.SummariseAll | src/auto_survey/cli.py:131-137 | All papers get summaries iff no summary step raises. Each paper then gets its new summary with every other field unchanged, in the same order. |
| Cli.SummaryFailsAt | src/auto_survey/cli.py:131-137 | One paper whose summary step raises stops the whole pass. |
| Cli.RefilterPapers | src/auto_survey/cli.py:141-145 | The result is an order-preserving subsequence; a paper is in it iff it was in the input and is still relevant. |
| Cli.RefilterKeepsCount | src/auto_survey/cli.py:141-145 | A still-relevant paper is kept as many times as it occurred; any other paper is dropped entirely. |
| Strings.ReplaceSingleChar | src/auto_survey/cli.py:111 | `replace` with a one-character pattern and replacement substitutes character by character. |
| Seqs.FilterIsSubseq | src/auto_survey/cli.py:141-145 | A comprehension filter yields an order-preserving subsequence. |

## Left out

- **Language-model calls.**
  - The calls themselves are left out: query generation, relevance, summary and survey draft, with their prompts and `Summary` JSON parsing.
  - They are parameters or inputs instead: `find`, `relevant`, `summarise`/`summaryOf`, and the draft.
- **Network I/O and PDF conversion.**
  - Left out: the `httpx` requests, `parse_pdf`, Docling, and every `sleep`.
  - A search response is a `Response` value, and `find_papers`' retries are a sequence of responses.
  - A PDF fetch is a `FetchOutcome` per attempt.
- **File system and external tools.** Left out: `mkdir`, writing the Markdown file, and the Pandoc call. Paths are sequences of components.
- **Logging, warnings and progress bars.** Left out: `logging`, `warnings` and the `tqdm` updates, including the progress arithmetic at search.py:70-73. They do not affect results.
- **The end-to-end `cli.main` wiring.** Its calls do not match the callees' signatures (cli.py:123-129 against search.py:16-21, cli.py:135-137 against summarisation.py:18-20). The steps are modelled separately instead.
- **Strings.TitleCase: ASCII only.** Every non-ASCII character counts as a word break, so "éa" becomes "éA" where Python's `str.title()` gives "Éa". Entries of papers with ASCII titles and venues are unaffected.
- **`.lower()`.** It is ASCII only. Python also lower-cases other letters, and a few of them (the Kelvin sign, dotted capital I) lower-case to an ASCII letter that the file-name filter would keep.
- **Order of the de-duplication.** `list(set(...))` has no specified order; `Queries.NormaliseQueries` keeps first occurrences in input order, so only membership and distinctness are stated.
- **Search.Collect: fuel bound.** It runs at most `fuel` sweeps. The source loop need not terminate (pages that keep coming back empty), and runs beyond the fuel are not modelled; `finished` tells the two apart.
- **Search.GetAllPapers: page oracle.** Its oracle returns a page or `None` only. The errors `find_papers` can raise (an HTTP error status, a missing author name) propagate out of `get_all_papers` in the source and are not modelled there; `Search.Outcome` models them for one response.
- **Search.FindPapers: endless retries.** A search that only ever answers 429 retries forever. The model gives `None` for a finite sequence of 429 responses.
- **JSON bodies.** A response body that is not an object (a list, a number) is not modelled. A body is either null or an object with an optional `data` list.
- **Summarisation.FetchFrom: exceptions.** Any exception other than the four handled kinds is one `OtherFailure` outcome that ends the pipeline (`raised`). Its type and message are not modelled.
- **Summarisation: missing helper.** `summarisation.py:13` imports `no_terminal_output` from `utils.py`, which defines only `no_progress_bars`. As written, `summarisation.py` cannot be imported, and neither can `cli.py`, which imports it at line 18. The `Summarisation` module and `Cli.SummariseAll` model the pipeline as the code evidently intends, with that context manager treated as having no effect on results.
- **Writing.BlankUrls: copies.** `writing.py:71-72` sets `paper.url = ""` on the caller's paper objects. The model returns new papers and leaves the inputs as they were, so the caller's side effect is not modelled.
- **Cli.SummariseAll: copies.** `cli.py:135-137` assigns `paper.summary` on the caller's paper objects. The model returns new papers with the new summaries, so the caller's side effect is not modelled.
- **get_list_of_queries.** The language-model call that produces the queries is not modelled. Validation at search.py:128 passes its list through unchanged (`Queries.BlankQueryReachesSearch`), and `Search.GetAllPapers` takes that raw list as `qs`.

## Findings

| source | as written | input that shows it | evidently intended | confidence | as-written member | corrected member |
|---|---|---|---|---|---|---|
| src/auto_survey/data_models.py:137-143 | The OR test looks for " OR " in `query.lower()`, which has no capital letters, so no query is ever split. | `["a OR b"]` normalises to `["a OR b"]` | Split each query holding " OR " into its stripped pieces, keeping blank pieces as line 142 does; "a OR b" gives "a" and "b", and no result holds " OR ". | high, not executed | Queries.OrQueryKeptWhole | Queries.OrQuerySplitCorrected |
| src/auto_survey/search.py:128 | `Queries` is a pydantic `BaseModel`, which never calls a `__post_init__` method (data_models.py:131), so the validated queries are not normalised. | `["  "]` reaches the search as a blank query | The validated queries are stripped, non-blank and distinct. | high, not executed | Queries.BlankQueryReachesSearch | Queries.NormalisedQueriesClean |

Notes on the two findings:
- **The OR split.** The corrected normaliser `Queries.NormaliseQueriesCorrected` makes the test on the query itself. It splits each query where it stands, because popping by precomputed indices would shift the later ones. It agrees with the code as written on every input without " OR " (`Queries.CorrectedAgreesWithoutOr`). Its members are described in full by `Queries.NormaliseCorrectedMembers`, and none holds " OR " (`Queries.NormaliseCorrectedOrFree`).
- **Validation.** As written, validation passes the model's list through unchanged, so the search receives it as it is (`Queries.BlankQueryReachesSearch`). The normaliser `Queries.NormaliseQueries` is the intended behaviour; its properties are `Queries.NormaliseQueriesMembers` and `Queries.NormalisedQueriesClean`.

Behaviours modelled as written and shown by lemmas. None of them is corrected, since each may be accepted behaviour:
- Removing a query inside the `for` loop skips the next query in that sweep (`SearchExamples.QueryAfterRemovalSkipped`).
- Duplicates within one page are not filtered (`SearchExamples.DuplicateWithinPageKept`).
- `correct_references` is not idempotent (`WritingExamples.NotIdempotent`).
- Distinct topics can share output files (`Cli.TopicFilenameCollides`).
