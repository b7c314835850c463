/**
  The paper search: mapping a search-API record to a `Paper` with its
  defaults, classifying an HTTP response (`find_papers`), and the collection
  loop of `get_all_papers`, which sweeps the queries page by page, keeping
  new papers that a relevance oracle accepts.

  The search endpoint and the relevance judge are parameters: a page oracle
  `find(query, offset)` (`None` when the offset is past the results) and a
  predicate `relevant`.
 */
module Search {
  import opened Strings
  import opened Seqs
  import opened DataModels

  // ---------------------------------------------------------------------------
  // Raw records of the search API

  /** An author entry; `name` is `None` when the key is missing or null. */
  datatype RawAuthor = RawAuthor(name: Option<string>)

  /** The `publicationVenue` object. */
  datatype RawVenue = RawVenue(name: Option<string>)

  /** The `openAccessPdf` object. */
  datatype RawPdf = RawPdf(url: Option<string>)

  /** One search result; every field may be missing or null (`None`), and
      the author list may hold nulls. */
  datatype RawRecord = RawRecord(
    title: Option<string>,
    authors: Option<seq<Option<RawAuthor>>>,
    year: Option<int>,
    publicationVenue: Option<RawVenue>,
    openAccessPdf: Option<RawPdf>,
    abstractText: Option<string>)

  /** `value or ""` for a JSON string that may be missing or null. */
  function OrEmpty(o: Option<string>): (r: string)
    ensures r == "" <==> o.None? || o.value == ""
    ensures r != "" ==> o == Some(r)
  {
    if o.None? then "" else o.value
  }

  /** `result.get("year") or -1`: a missing, null or zero year is unknown. */
  function YearOf(o: Option<int>): (r: int)
    ensures r == -1 <==> o.None? || o.value == 0 || o.value == -1
    ensures r != -1 ==> o == Some(r)
  {
    if o.None? || o.value == 0 then -1 else o.value
  }

  /** `(obj or dict()).get(key) or ""` on the venue object. */
  function VenueOf(o: Option<RawVenue>): (r: string)
    ensures r == "" <==> o.None? || o.value.name.None? || o.value.name.value == ""
  {
    if o.None? then "" else OrEmpty(o.value.name)
  }

  /** `(obj or dict()).get(key) or ""` on the PDF object. */
  function UrlOf(o: Option<RawPdf>): (r: string)
    ensures r == "" <==> o.None? || o.value.url.None? || o.value.url.value == ""
  {
    if o.None? then "" else OrEmpty(o.value.url)
  }

  /** An author from a full name: the first and the last space-separated
      token. */
  function AuthorFromName(name: string): (r: Author)
    ensures !Contains(r.firstName, " ") && !Contains(r.lastName, " ")
    ensures !Contains(name, " ") ==> r.firstName == name && r.lastName == name
    ensures Contains(name, " ") ==>
              && |r.firstName| + 1 + |r.lastName| <= |name|
              && name[..|r.firstName| + 1] == r.firstName + " "
              && name[|name| - |r.lastName| - 1..] == " " + r.lastName
  {
    var pieces := Split(name, " ");
    SplitPiecesFree(name, " ");
    if Contains(name, " ") then
      SplitEnds(name, " ");
      Author(pieces[0], pieces[|pieces| - 1])
    else
      Author(pieces[0], pieces[|pieces| - 1])
  }

  /** When the separator occurs, the first piece and the separator open the
      text, and the separator and the last piece close it. */
  lemma SplitEnds(name: string, sep: string)
    requires sep != [] && Contains(name, sep)
    ensures var pieces := Split(name, sep);
            var last := pieces[|pieces| - 1];
            && |pieces[0]| + |sep| + |last| <= |name|
            && name[..|pieces[0]| + |sep|] == pieces[0] + sep
            && name[|name| - |last| - |sep|..] == sep + last
  {
    var i := Find(name, sep).value;
    var pieces := Split(name, sep);
    SplitFirstPiece(name, sep, i);
    LastPieceShort(name, sep, i, pieces);
    SplitLastSuffix(name, sep, pieces);
  }

  lemma SplitFirstPiece(name: string, sep: string, i: nat)
    requires sep != [] && Find(name, sep) == Some(i)
    ensures |Split(name, sep)| >= 2
    ensures Split(name, sep)[0] == name[..i]
    ensures name[..i + |sep|] == name[..i] + sep
  {
    SplitCons(name, sep, i);
    AroundOccurrence(name, i, sep);
  }

  lemma SplitLastSuffix(name: string, sep: string, pieces: seq<string>)
    requires sep != [] && pieces == Split(name, sep) && |pieces| >= 2
    ensures var last := pieces[|pieces| - 1];
            |last| + |sep| <= |name| && name[|name| - |last| - |sep|..] == sep + last
  {
    SplitJoin(name, sep);
    JoinEndsWithLast(pieces, sep, name);
  }

  lemma LastPieceShort(name: string, sep: string, i: nat, pieces: seq<string>)
    requires sep != [] && Find(name, sep) == Some(i) && pieces == Split(name, sep)
    ensures i + |sep| + |pieces[|pieces| - 1]| <= |name|
  {
    var rest := name[i + |sep|..];
    var tail := Split(rest, sep);
    SplitCons(name, sep, i);
    assert pieces[|pieces| - 1] == tail[|tail| - 1];
    SplitJoin(rest, sep);
    SuffixOfJoin(tail, sep);
  }

  lemma JoinEndsWithLast(pieces: seq<string>, sep: string, name: string)
    requires |pieces| >= 2 && Join(pieces, sep) == name
    ensures var last := pieces[|pieces| - 1];
            |last| + |sep| <= |name| && name[|name| - |last| - |sep|..] == sep + last
  {
    SuffixOfJoin(pieces, sep);
  }

  /** An entry of the author list that is present and named, as an author;
      anything else maps to an empty author. */
  function NamedAuthor(a: Option<RawAuthor>): Author {
    match a
    case Some(RawAuthor(Some(name))) => AuthorFromName(name)
    case _ => Author("", "")
  }

  /** A null entry, or an entry with a name. */
  predicate NullOrNamed(a: Option<RawAuthor>) {
    a.None? || a.value.name.Some?
  }

  /** One present author entry: `author["name"]` raises when the name is
      missing or null. */
  function AuthorOf(a: RawAuthor): Option<Author> {
    if a.name.None? then None else Some(AuthorFromName(a.name.value))
  }

  /** The authors of a record: null entries skipped; an entry without a name
      makes the mapping fail. */
  function AuthorsOf(raw: seq<Option<RawAuthor>>): Option<seq<Author>> {
    MapPresent(raw, AuthorOf)
  }

  /** The author list maps exactly when every non-null entry has a name. */
  lemma AuthorsOfDefined(raw: seq<Option<RawAuthor>>)
    ensures AuthorsOf(raw).Some? <==> forall i :: 0 <= i < |raw| ==> NullOrNamed(raw[i])
  {
    MapPresentDefined(raw, AuthorOf);
  }

  /** A mapped author list is the non-null entries, in order, each split
      into an `Author`. */
  lemma AuthorsOfValues(raw: seq<Option<RawAuthor>>)
    requires AuthorsOf(raw).Some?
    ensures AuthorsOf(raw).value == Map(Filter(raw, IsPresent), NamedAuthor)
  {
    MapPresentValues(raw, AuthorOf);
    var ys := AuthorsOf(raw).value;
    var present := Filter(raw, IsPresent);
    forall k | 0 <= k < |ys|
      ensures ys[k] == NamedAuthor(present[k])
    {
      assert AuthorOf(present[k].value) == Some(ys[k]);
    }
  }

  /** One record as a `Paper`, with the defaults of `find_papers`. */
  function PaperOf(rec: RawRecord): (r: Option<Paper>)
    ensures r.Some? <==> rec.authors.None? || AuthorsOf(rec.authors.value).Some?
  {
    var authors := if rec.authors.None? then Some([]) else AuthorsOf(rec.authors.value);
    if authors.None? then None
    else Some(Paper(
      OrEmpty(rec.title),
      authors.value,
      YearOf(rec.year),
      VenueOf(rec.publicationVenue),
      UrlOf(rec.openAccessPdf),
      OrEmpty(rec.abstractText)))
  }

  /** A mapped record keeps what the record holds and fills in the defaults:
      "" for a missing, null or empty string, -1 for a missing, null or zero
      year, no authors for a missing or null author list. */
  lemma PaperDefaults(rec: RawRecord)
    requires PaperOf(rec).Some?
    ensures var p := PaperOf(rec).value;
            && (p.title == "" <==> rec.title.None? || rec.title.value == "")
            && (p.title != "" ==> rec.title == Some(p.title))
            && (p.year == -1 <==> rec.year.None? || rec.year.value in {0, -1})
            && (p.year != -1 ==> rec.year == Some(p.year))
            && (p.venue == "" <==> rec.publicationVenue.None? || rec.publicationVenue.value.name.None?
                                   || rec.publicationVenue.value.name.value == "")
            && (p.url == "" <==> rec.openAccessPdf.None? || rec.openAccessPdf.value.url.None?
                                 || rec.openAccessPdf.value.url.value == "")
            && (p.summary == "" <==> rec.abstractText.None? || rec.abstractText.value == "")
            && (rec.authors.None? ==> p.authors == [])
            && (rec.authors.Some? ==> |p.authors| <= |rec.authors.value|)
  {
    if rec.authors.Some? {
      AuthorsOfValues(rec.authors.value);
    }
  }

  /** A present record, as a `Paper`. */
  function RecordPaper(o: Option<RawRecord>): Option<Paper> {
    match o
    case Some(rec) => PaperOf(rec)
    case None => None
  }

  /** A null record, or one that maps to a paper. */
  predicate NullOrMapped(o: Option<RawRecord>) {
    o.None? || PaperOf(o.value).Some?
  }

  /** The papers of a result list: null records skipped; the mapping fails
      exactly when some non-null record fails. */
  function PapersOf(records: seq<Option<RawRecord>>): (r: Option<seq<Paper>>)
    ensures r.Some? <==> forall i :: 0 <= i < |records| ==> NullOrMapped(records[i])
  {
    MapPresentDefined(records, PaperOf);
    MapPresent(records, PaperOf)
  }

  /** A mapped result list has one paper per non-null record, in order. */
  lemma PapersOfValues(records: seq<Option<RawRecord>>)
    requires PapersOf(records).Some?
    ensures var ps := PapersOf(records).value;
            var present := Filter(records, IsPresent);
            && |ps| == |present| <= |records|
            && forall k :: 0 <= k < |ps| ==> Some(ps[k]) == RecordPaper(present[k])
  {
    MapPresentValues(records, PaperOf);
  }

  // ---------------------------------------------------------------------------
  // `find_papers`: one request and its response

  const OffsetUnavailableText := "this limit and/or offset is not available"

  /** The parsed JSON body; `data` is `None` when missing or null. */
  datatype RawBody = RawBody(data: Option<seq<Option<RawRecord>>>)

  /** A response: status, text, and the JSON body (`None` for `null`). */
  datatype Response = Response(status: int, text: string, body: Option<RawBody>)

  /** What one call of `find_papers` returns or raises. */
  datatype FindOutcome =
    | Page(papers: seq<Paper>)    // a list of papers
    | OffsetUnavailable           // `None`
    | StatusError(status: int)    // `raise_for_status` raised
    | MissingAuthorName           // an author without a name raised

  predicate IsSuccess(status: int) {
    200 <= status < 300
  }

  /** What `find_papers` makes of a response other than a 429. */
  function Outcome(resp: Response): (r: FindOutcome)
    requires resp.status != 429
    ensures r.OffsetUnavailable? <==>
              resp.status == 400 && Contains(Lower(resp.text), OffsetUnavailableText)
    ensures r.StatusError? <==> resp.status != 400 && !IsSuccess(resp.status)
    ensures r.StatusError? ==> r.status == resp.status
    ensures resp.status == 400 && !Contains(Lower(resp.text), OffsetUnavailableText) ==> r == Page([])
    ensures IsSuccess(resp.status) && (resp.body.None? || resp.body.value.data.None?) ==> r == Page([])
    ensures IsSuccess(resp.status) && resp.body.Some? && resp.body.value.data.Some? ==>
              (r.MissingAuthorName? <==> PapersOf(resp.body.value.data.value).None?)
    ensures IsSuccess(resp.status) && resp.body.Some? && resp.body.value.data.Some? &&
            PapersOf(resp.body.value.data.value).Some? ==>
              r == Page(PapersOf(resp.body.value.data.value).value)
  {
    if resp.status == 400 then
      if Contains(Lower(resp.text), OffsetUnavailableText) then OffsetUnavailable else Page([])
    else if !IsSuccess(resp.status) then StatusError(resp.status)
    else match resp.body
      case None => Page([])
      case Some(body) =>
        match body.data
        case None => Page([])
        case Some(records) =>
          match PapersOf(records)
          case None => MissingAuthorName
          case Some(papers) => Page(papers)
  }

  /** `find_papers` over the responses its successive requests get: a 429
      is waited out and the request repeated; `None` when every response is
      a 429 (the source then retries for ever). */
  function FindPapers(responses: seq<Response>): (r: Option<FindOutcome>)
    ensures r.None? <==> forall i :: 0 <= i < |responses| ==> responses[i].status == 429
    ensures r.Some? ==> exists k ::
              && 0 <= k < |responses|
              && responses[k].status != 429
              && (forall j :: 0 <= j < k ==> responses[j].status == 429)
              && r.value == Outcome(responses[k])
  {
    if responses == [] then None
    else if responses[0].status == 429 then
      var rest := FindPapers(responses[1..]);
      assert forall j :: 1 <= j < |responses| ==> responses[j] == responses[1..][j - 1];
      assert rest.Some? ==> exists k ::
               && 0 <= k < |responses|
               && responses[k].status != 429
               && (forall j :: 0 <= j < k ==> responses[j].status == 429)
               && rest.value == Outcome(responses[k])
      by {
        if rest.Some? {
          var k :| && 0 <= k < |responses[1..]|
                   && responses[1..][k].status != 429
                   && (forall j :: 0 <= j < k ==> responses[1..][j].status == 429)
                   && rest.value == Outcome(responses[1..][k]);
          assert responses[k + 1] == responses[1..][k];
          forall j | 0 <= j < k + 1
            ensures responses[j].status == 429
          {
            if j > 0 { assert responses[j] == responses[1..][j - 1]; }
          }
        }
      }
      rest
    else Some(Outcome(responses[0]))
  }

  // ---------------------------------------------------------------------------
  // `get_all_papers`: the collection loop

  /** The page oracle: the papers `find_papers` returns for a query at an
      offset, or `None` when the offset is not available. */
  type Finder = (string, int) -> Option<seq<Paper>>

  /** The papers of a page that were not found before and are relevant, in
      page order. */
  function NewRelevant(page: seq<Paper>, found: seq<Paper>, relevant: Paper -> bool): (r: seq<Paper>)
    ensures |r| <= |page|
  {
    Filter(Filter(page, (p: Paper) => p !in found), relevant)
  }

  /** A page paper is kept exactly when it is not already found and is
      relevant; a page without duplicates gives none, and a page of new
      relevant papers is kept whole. */
  lemma NewRelevantKeeps(page: seq<Paper>, found: seq<Paper>, relevant: Paper -> bool)
    ensures var r := NewRelevant(page, found, relevant);
            && (forall p :: p in r <==> p in page && p !in found && relevant(p))
            && (NoDups(page) ==> NoDups(r))
            && ((forall p :: p in page ==> p !in found && relevant(p)) ==> r == page)
  {
    var unseen := (p: Paper) => p !in found;
    var unseenPapers := Filter(page, unseen);
    if forall p :: p in page ==> p !in found && relevant(p) {
      FilterAll(page, unseen);
      FilterAll(page, relevant);
    }
    if NoDups(page) {
      FilterNoDups(page, unseen);
      FilterNoDups(unseenPapers, relevant);
    }
  }

  /** The state after one pass of the `for` loop: the query list (with the
      queries removed during the pass), the papers found, and the requests
      made, in order. */
  datatype SweepResult = SweepResult(queries: seq<string>, found: seq<Paper>, calls: seq<(string, int)>)

  /** The queries of the requests that found their offset unavailable, in
      order: the ones the loop removes. */
  function RemovedQueries(calls: seq<(string, int)>, find: Finder): (r: seq<string>)
    ensures |r| <= |calls|
  {
    if calls == [] then []
    else (if find(calls[0].0, calls[0].1).None? then [calls[0].0] else [])
         + RemovedQueries(calls[1..], find)
  }

  lemma {:induction false} RemovedQueriesConcat(a: seq<(string, int)>, b: seq<(string, int)>, find: Finder)
    ensures RemovedQueries(a + b, find) == RemovedQueries(a, find) + RemovedQueries(b, find)
  {
    if a != [] {
      assert (a + b)[1..] == a[1..] + b;
      RemovedQueriesConcat(a[1..], b, find);
    } else {
      assert a + b == b;
    }
  }

  lemma RemovedCons(c: (string, int), calls: seq<(string, int)>, find: Finder)
    ensures RemovedQueries([c] + calls, find)
            == (if find(c.0, c.1).None? then [c.0] else []) + RemovedQueries(calls, find)
  {
    assert ([c] + calls)[1..] == calls;
  }

  /** The `for query in queries` loop from position `i` on. Removing the
      current query shifts the list, and the iterator's next position then
      skips the query that moved into its place. The pass stops as soon as
      enough papers are found. */
  function Sweep(qs: seq<string>, i: nat, found: seq<Paper>, offset: int, minCount: int,
                 find: Finder, relevant: Paper -> bool): (r: SweepResult)
    ensures |found| <= |r.found|
    decreases |qs| - i
  {
    if i >= |qs| then SweepResult(qs, found, [])
    else
      var q := qs[i];
      match find(q, offset)
      case None =>
        var rest := Sweep(RemoveFirst(qs, q), i + 1, found, offset, minCount, find, relevant);
        SweepResult(rest.queries, rest.found, [(q, offset)] + rest.calls)
      case Some(page) =>
        var now := found + NewRelevant(page, found, relevant);
        if |now| >= minCount then SweepResult(qs, now, [(q, offset)])
        else
          var rest := Sweep(qs, i + 1, now, offset, minCount, find, relevant);
          SweepResult(rest.queries, rest.found, [(q, offset)] + rest.calls)
  }

  /** One sweep only appends: the old list is a prefix, and every appended
      paper is relevant and was not found before. */
  lemma {:induction false} SweepAppends(qs: seq<string>, i: nat, found: seq<Paper>, offset: int,
                                        minCount: int, find: Finder, relevant: Paper -> bool)
    ensures var r := Sweep(qs, i, found, offset, minCount, find, relevant);
            && r.found[..|found|] == found
            && forall k :: |found| <= k < |r.found| ==> relevant(r.found[k]) && r.found[k] !in found
    decreases |qs| - i
  {
    if i < |qs| {
      var q := qs[i];
      var j := i + 1;
      if find(q, offset).None? {
        var left := RemoveFirst(qs, q);
        SweepAppends(left, j, found, offset, minCount, find, relevant);
        SweepUnfoldUnavailable(qs, i, found, offset, minCount, find, relevant, j, left);
      } else {
        var added := NewRelevant(find(q, offset).value, found, relevant);
        var now := found + added;
        NewRelevantKeeps(find(q, offset).value, found, relevant);
        SweepUnfoldPage(qs, i, found, offset, minCount, find, relevant, j, now);
        assert now[..|found|] == found;
        if |now| >= minCount {
          assert forall k :: |found| <= k < |now| ==> now[k] == added[k - |found|];
        } else {
          SweepAppends(qs, j, now, offset, minCount, find, relevant);
          var rest := Sweep(qs, j, now, offset, minCount, find, relevant);
          AppendedAfterPage(found, added, now, rest.found, relevant);
        }
      }
    }
  }

  /** Papers appended after a page's new relevant papers, themselves new
      and relevant with respect to the longer list. */
  lemma AppendedAfterPage(found: seq<Paper>, added: seq<Paper>, now: seq<Paper>, after: seq<Paper>,
                          relevant: Paper -> bool)
    requires now == found + added
    requires forall p :: p in added ==> p !in found && relevant(p)
    requires |now| <= |after| && after[..|now|] == now
    requires forall k :: |now| <= k < |after| ==> relevant(after[k]) && after[k] !in now
    ensures after[..|found|] == found
    ensures forall k :: |found| <= k < |after| ==> relevant(after[k]) && after[k] !in found
  {
    assert after[..|found|] == after[..|now|][..|found|];
    forall k | |found| <= k < |after|
      ensures relevant(after[k]) && after[k] !in found
    {
      if k < |now| {
        assert after[k] == after[..|now|][k] == added[k - |found|];
      }
    }
  }

  /** Every request of a sweep asks for the sweep's offset. */
  lemma {:induction false} SweepCallsAtOffset(qs: seq<string>, i: nat, found: seq<Paper>, offset: int,
                                              minCount: int, find: Finder, relevant: Paper -> bool)
    ensures forall c :: c in Sweep(qs, i, found, offset, minCount, find, relevant).calls ==> c.1 == offset
    decreases |qs| - i
  {
    if i < |qs| {
      var q := qs[i];
      var j := i + 1;
      if find(q, offset).None? {
        var left := RemoveFirst(qs, q);
        SweepCallsAtOffset(left, j, found, offset, minCount, find, relevant);
        SweepUnfoldUnavailable(qs, i, found, offset, minCount, find, relevant, j, left);
      } else {
        var now := found + NewRelevant(find(q, offset).value, found, relevant);
        SweepUnfoldPage(qs, i, found, offset, minCount, find, relevant, j, now);
        if |now| < minCount {
          SweepCallsAtOffset(qs, j, now, offset, minCount, find, relevant);
        }
      }
    }
  }

  /** The loop's result: the papers found, the queries left, the offset,
      the number of sweeps made and the requests made; `finished` is false
      when the fuel ran out before the `while` condition turned false. */
  datatype Run = Run(found: seq<Paper>, queries: seq<string>, offset: int, sweeps: nat,
                     calls: seq<(string, int)>, finished: bool)

  /** The `while` loop: sweep, then raise the offset by the batch size,
      until enough papers are found or no query is left. At most `fuel`
      sweeps are made. */
  function Collect(qs: seq<string>, found: seq<Paper>, offset: int, minCount: int, batch: int,
                   find: Finder, relevant: Paper -> bool, fuel: nat): (r: Run)
    ensures r.finished ==> |r.found| >= minCount || r.queries == []
    ensures !r.finished ==> r.sweeps == fuel
    ensures r.sweeps <= fuel
    decreases fuel, 1
  {
    if |found| >= minCount || qs == [] then Run(found, qs, offset, 0, [], true)
    else if fuel == 0 then Run(found, qs, offset, 0, [], false)
    else CollectAfter(Sweep(qs, 0, found, offset, minCount, find, relevant), offset + batch,
                      minCount, batch, find, relevant, fuel - 1)
  }

  /** The rest of the loop after sweep `s`, at offset `next`, counting `s`
      as one more sweep. */
  function CollectAfter(s: SweepResult, next: int, minCount: int, batch: int,
                        find: Finder, relevant: Paper -> bool, more: nat): (r: Run)
    ensures r.finished ==> |r.found| >= minCount || r.queries == []
    ensures !r.finished ==> r.sweeps == more + 1
    ensures 1 <= r.sweeps <= more + 1
    decreases more, 2
  {
    var rest := Collect(s.queries, s.found, next, minCount, batch, find, relevant, more);
    Run(rest.found, rest.queries, rest.offset, rest.sweeps + 1, s.calls + rest.calls, rest.finished)
  }

  /** `get_all_papers` once the queries are generated: the offset starts at
      0 and nothing is found yet. */
  function GetAllPapers(qs: seq<string>, minCount: int, batch: int,
                        find: Finder, relevant: Paper -> bool, fuel: nat): (r: Run)
    ensures forall p :: p in r.found ==> relevant(p)
    ensures r.finished ==> |r.found| >= minCount || r.queries == []
  {
    var r := Collect(qs, [], 0, minCount, batch, find, relevant, fuel);
    CollectKeepsRelevant(qs, [], 0, minCount, batch, find, relevant, fuel);
    assert forall p :: p in r.found ==> exists k :: 0 <= k < |r.found| && r.found[k] == p;
    r
  }

  /** The loop only appends, and what it appends is relevant and new. */
  lemma {:induction false} CollectKeepsRelevant(qs: seq<string>, found: seq<Paper>, offset: int, minCount: int,
                                                batch: int, find: Finder, relevant: Paper -> bool, fuel: nat)
    ensures var r := Collect(qs, found, offset, minCount, batch, find, relevant, fuel);
            && |found| <= |r.found| && r.found[..|found|] == found
            && forall k :: |found| <= k < |r.found| ==> relevant(r.found[k]) && r.found[k] !in found
    decreases fuel
  {
    if |found| < minCount && qs != [] && fuel > 0 {
      var next := offset + batch;
      var more: nat := fuel - 1;
      var s := Sweep(qs, 0, found, offset, minCount, find, relevant);
      var rest := Collect(s.queries, s.found, next, minCount, batch, find, relevant, more);
      SweepAppends(qs, 0, found, offset, minCount, find, relevant);
      CollectKeepsRelevant(s.queries, s.found, next, minCount, batch, find, relevant, more);
      CollectStep(qs, found, offset, minCount, batch, find, relevant, fuel, s, next, more, rest);
      AppendsCompose(found, s.found, rest.found, relevant);
    }
  }

  /** Two rounds of appending new relevant papers are one. */
  lemma AppendsCompose(a: seq<Paper>, b: seq<Paper>, c: seq<Paper>, relevant: Paper -> bool)
    requires |a| <= |b| && b[..|a|] == a
    requires forall k :: |a| <= k < |b| ==> relevant(b[k]) && b[k] !in a
    requires |b| <= |c| && c[..|b|] == b
    requires forall k :: |b| <= k < |c| ==> relevant(c[k]) && c[k] !in b
    ensures |a| <= |c| && c[..|a|] == a
    ensures forall k :: |a| <= k < |c| ==> relevant(c[k]) && c[k] !in a
  {
    assert c[..|a|] == c[..|b|][..|a|];
    forall k | |a| <= k < |c|
      ensures relevant(c[k]) && c[k] !in a
    {
      if k < |b| {
        assert c[k] == c[..|b|][k] == b[k];
      } else {
        assert c[k] !in b;
        assert a == b[..|a|];
      }
    }
  }

  /** A request whose offset is unavailable: the query is removed and the
      pass goes on at the next position. */
  lemma SweepUnfoldUnavailable(qs: seq<string>, i: nat, found: seq<Paper>, offset: int,
                               minCount: int, find: Finder, relevant: Paper -> bool, j: nat, left: seq<string>)
    requires i < |qs| && find(qs[i], offset).None?
    requires j == i + 1 && left == RemoveFirst(qs, qs[i])
    ensures var rest := Sweep(left, j, found, offset, minCount, find, relevant);
            Sweep(qs, i, found, offset, minCount, find, relevant)
            == SweepResult(rest.queries, rest.found, [(qs[i], offset)] + rest.calls)
  {
  }

  /** A request that got a page: its new relevant papers are added, and
      the pass goes on unless enough are found. */
  lemma SweepUnfoldPage(qs: seq<string>, i: nat, found: seq<Paper>, offset: int,
                        minCount: int, find: Finder, relevant: Paper -> bool, j: nat, now: seq<Paper>)
    requires i < |qs| && find(qs[i], offset).Some?
    requires j == i + 1 && now == found + NewRelevant(find(qs[i], offset).value, found, relevant)
    ensures |now| >= minCount ==>
              Sweep(qs, i, found, offset, minCount, find, relevant) == SweepResult(qs, now, [(qs[i], offset)])
    ensures |now| < minCount ==>
              var rest := Sweep(qs, j, now, offset, minCount, find, relevant);
              Sweep(qs, i, found, offset, minCount, find, relevant)
              == SweepResult(rest.queries, rest.found, [(qs[i], offset)] + rest.calls)
  {
  }

  /** A paper is on a page the requests got. */
  predicate OnRequestedPage(p: Paper, calls: seq<(string, int)>, find: Finder) {
    exists c :: c in calls && find(c.0, c.1).Some? && p in find(c.0, c.1).value
  }

  /** Every paper a sweep adds was on the page of one of its requests. */
  lemma {:induction false} SweepFromPages(qs: seq<string>, i: nat, found: seq<Paper>, offset: int,
                                          minCount: int, find: Finder, relevant: Paper -> bool)
    ensures var r := Sweep(qs, i, found, offset, minCount, find, relevant);
            forall k :: |found| <= k < |r.found| ==> OnRequestedPage(r.found[k], r.calls, find)
    decreases |qs| - i
  {
    var r := Sweep(qs, i, found, offset, minCount, find, relevant);
    if i < |qs| {
      var q := qs[i];
      var c := (q, offset);
      var j := i + 1;
      if find(q, offset).None? {
        var left := RemoveFirst(qs, q);
        SweepFromPages(left, j, found, offset, minCount, find, relevant);
        SweepUnfoldUnavailable(qs, i, found, offset, minCount, find, relevant, j, left);
        var rest := Sweep(left, j, found, offset, minCount, find, relevant);
        forall k | |found| <= k < |r.found|
          ensures OnRequestedPage(r.found[k], r.calls, find)
        {
          var d :| d in rest.calls && find(d.0, d.1).Some? && r.found[k] in find(d.0, d.1).value;
          assert d in r.calls;
        }
      } else {
        var added := NewRelevant(find(q, offset).value, found, relevant);
        var now := found + added;
        SweepUnfoldPage(qs, i, found, offset, minCount, find, relevant, j, now);
        if |now| >= minCount {
          forall k | |found| <= k < |r.found|
            ensures OnRequestedPage(r.found[k], r.calls, find)
          {
            assert r.found[k] == added[k - |found|];
            assert c in r.calls;
          }
        } else {
          SweepFromPages(qs, j, now, offset, minCount, find, relevant);
          SweepAppends(qs, j, now, offset, minCount, find, relevant);
          var rest := Sweep(qs, j, now, offset, minCount, find, relevant);
          forall k | |found| <= k < |r.found|
            ensures OnRequestedPage(r.found[k], r.calls, find)
          {
            if k < |now| {
              assert r.found[k] == r.found[..|now|][k] == added[k - |found|];
              assert c in r.calls;
            } else {
              var d :| d in rest.calls && find(d.0, d.1).Some? && r.found[k] in find(d.0, d.1).value;
              assert d in r.calls;
            }
          }
        }
      }
    }
  }

  lemma {:induction false} CollectFromPages(qs: seq<string>, found: seq<Paper>, offset: int, minCount: int,
                                            batch: int, find: Finder, relevant: Paper -> bool, fuel: nat)
    ensures var r := Collect(qs, found, offset, minCount, batch, find, relevant, fuel);
            forall k :: |found| <= k < |r.found| ==> OnRequestedPage(r.found[k], r.calls, find)
    decreases fuel
  {
    if |found| < minCount && qs != [] && fuel > 0 {
      var next := offset + batch;
      var more: nat := fuel - 1;
      var s := Sweep(qs, 0, found, offset, minCount, find, relevant);
      var rest := Collect(s.queries, s.found, next, minCount, batch, find, relevant, more);
      var r := Collect(qs, found, offset, minCount, batch, find, relevant, fuel);
      CollectStep(qs, found, offset, minCount, batch, find, relevant, fuel, s, next, more, rest);
      SweepFromPages(qs, 0, found, offset, minCount, find, relevant);
      CollectFromPages(s.queries, s.found, next, minCount, batch, find, relevant, more);
      CollectKeepsRelevant(s.queries, s.found, next, minCount, batch, find, relevant, more);
      forall k | |found| <= k < |r.found|
        ensures OnRequestedPage(r.found[k], r.calls, find)
      {
        var d;
        if k < |s.found| {
          assert r.found[k] == r.found[..|s.found|][k] == s.found[k];
          d :| d in s.calls && find(d.0, d.1).Some? && s.found[k] in find(d.0, d.1).value;
        } else {
          d :| d in rest.calls && find(d.0, d.1).Some? && r.found[k] in find(d.0, d.1).value;
        }
        assert d in r.calls;
      }
    }
  }

  /** Every paper `get_all_papers` returns was on the page of a request it
      made. */
  lemma GetAllPapersFromPages(qs: seq<string>, minCount: int, batch: int,
                              find: Finder, relevant: Paper -> bool, fuel: nat)
    ensures var r := GetAllPapers(qs, minCount, batch, find, relevant, fuel);
            forall p :: p in r.found ==> OnRequestedPage(p, r.calls, find)
  {
    var c := Collect(qs, [], 0, minCount, batch, find, relevant, fuel);
    assert GetAllPapers(qs, minCount, batch, find, relevant, fuel) == c;
    forall p | p in c.found
      ensures OnRequestedPage(p, c.calls, find)
    {
      var k :| 0 <= k < |c.found| && c.found[k] == p;
      FoundFromPage(qs, [], minCount, batch, find, relevant, fuel, k);
    }
  }

  lemma FoundFromPage(qs: seq<string>, found: seq<Paper>, minCount: int, batch: int,
                      find: Finder, relevant: Paper -> bool, fuel: nat, k: int)
    requires |found| <= k < |Collect(qs, found, 0, minCount, batch, find, relevant, fuel).found|
    ensures var r := Collect(qs, found, 0, minCount, batch, find, relevant, fuel);
            OnRequestedPage(r.found[k], r.calls, find)
  {
    CollectFromPages(qs, found, 0, minCount, batch, find, relevant, fuel);
  }

  // ---------------------------------------------------------------------------
  // Removed queries

  /** A query leaves the list exactly once for each request that found its
      offset unavailable, and no other query leaves. */
  lemma {:induction false} SweepRemoves(qs: seq<string>, i: nat, found: seq<Paper>, offset: int,
                                        minCount: int, find: Finder, relevant: Paper -> bool)
    ensures var r := Sweep(qs, i, found, offset, minCount, find, relevant);
            multiset(r.queries) + multiset(RemovedQueries(r.calls, find)) == multiset(qs)
    decreases |qs| - i
  {
    if i < |qs| {
      var q := qs[i];
      var j := i + 1;
      if find(q, offset).None? {
        var left := RemoveFirst(qs, q);
        SweepRemoves(left, j, found, offset, minCount, find, relevant);
        RemovesAfterUnavailable(qs, i, found, offset, minCount, find, relevant);
      } else {
        var now := found + NewRelevant(find(q, offset).value, found, relevant);
        if |now| < minCount {
          SweepRemoves(qs, j, now, offset, minCount, find, relevant);
        }
        RemovesAfterPage(qs, i, found, offset, minCount, find, relevant);
      }
    }
  }

  /** The step of `SweepRemoves` for a request whose offset is unavailable. */
  lemma RemovesAfterUnavailable(qs: seq<string>, i: nat, found: seq<Paper>, offset: int,
                                minCount: int, find: Finder, relevant: Paper -> bool)
    requires i < |qs| && find(qs[i], offset).None?
    requires var rest := Sweep(RemoveFirst(qs, qs[i]), i + 1, found, offset, minCount, find, relevant);
             multiset(rest.queries) + multiset(RemovedQueries(rest.calls, find)) == multiset(RemoveFirst(qs, qs[i]))
    ensures var r := Sweep(qs, i, found, offset, minCount, find, relevant);
            multiset(r.queries) + multiset(RemovedQueries(r.calls, find)) == multiset(qs)
  {
    var q := qs[i];
    var c := (q, offset);
    var j := i + 1;
    var left := RemoveFirst(qs, q);
    var rest := Sweep(left, j, found, offset, minCount, find, relevant);
    SweepUnfoldUnavailable(qs, i, found, offset, minCount, find, relevant, j, left);
    RemovedCons(c, rest.calls, find);
    assert multiset(RemovedQueries([c] + rest.calls, find))
           == multiset{q} + multiset(RemovedQueries(rest.calls, find));
    PutBack(multiset(rest.queries), multiset(RemovedQueries(rest.calls, find)), multiset(qs), q);
  }

  lemma PutBack<T>(a: multiset<T>, b: multiset<T>, whole: multiset<T>, q: T)
    requires q in whole && a + b == whole - multiset{q}
    ensures a + (multiset{q} + b) == whole
  {
    assert (whole - multiset{q}) + multiset{q} == whole;
    assert a + (multiset{q} + b) == (a + b) + multiset{q};
  }

  /** The step of `SweepRemoves` for a request that got a page. */
  lemma RemovesAfterPage(qs: seq<string>, i: nat, found: seq<Paper>, offset: int,
                         minCount: int, find: Finder, relevant: Paper -> bool)
    requires i < |qs| && find(qs[i], offset).Some?
    requires var now := found + NewRelevant(find(qs[i], offset).value, found, relevant);
             var rest := Sweep(qs, i + 1, now, offset, minCount, find, relevant);
             |now| < minCount ==>
               multiset(rest.queries) + multiset(RemovedQueries(rest.calls, find)) == multiset(qs)
    ensures var r := Sweep(qs, i, found, offset, minCount, find, relevant);
            multiset(r.queries) + multiset(RemovedQueries(r.calls, find)) == multiset(qs)
  {
    var q := qs[i];
    var c := (q, offset);
    var now := found + NewRelevant(find(q, offset).value, found, relevant);
    if |now| >= minCount {
      assert Sweep(qs, i, found, offset, minCount, find, relevant) == SweepResult(qs, now, [c]);
      RemovedCons(c, [], find);
      assert [c] + [] == [c];
    } else {
      var rest := Sweep(qs, i + 1, now, offset, minCount, find, relevant);
      assert Sweep(qs, i, found, offset, minCount, find, relevant)
             == SweepResult(rest.queries, rest.found, [c] + rest.calls);
      RemovedCons(c, rest.calls, find);
    }
  }

  lemma {:induction false} CollectRemoves(qs: seq<string>, found: seq<Paper>, offset: int, minCount: int,
                                          batch: int, find: Finder, relevant: Paper -> bool, fuel: nat)
    ensures var r := Collect(qs, found, offset, minCount, batch, find, relevant, fuel);
            multiset(r.queries) + multiset(RemovedQueries(r.calls, find)) == multiset(qs)
    decreases fuel
  {
    if |found| < minCount && qs != [] && fuel > 0 {
      var next := offset + batch;
      var more: nat := fuel - 1;
      var s := Sweep(qs, 0, found, offset, minCount, find, relevant);
      var rest := Collect(s.queries, s.found, next, minCount, batch, find, relevant, more);
      SweepRemoves(qs, 0, found, offset, minCount, find, relevant);
      CollectRemoves(s.queries, s.found, next, minCount, batch, find, relevant, more);
      CollectStep(qs, found, offset, minCount, batch, find, relevant, fuel, s, next, more, rest);
      RemovedQueriesConcat(s.calls, rest.calls, find);
      var a := multiset(RemovedQueries(s.calls, find));
      var b := multiset(RemovedQueries(rest.calls, find));
      assert multiset(RemovedQueries(s.calls + rest.calls, find)) == a + b;
      assert multiset(rest.queries) + b == multiset(s.queries);
      assert multiset(s.queries) + a == multiset(qs);
      UnionShift(multiset(rest.queries), a, b, multiset(s.queries), multiset(qs));
      var r := Collect(qs, found, offset, minCount, batch, find, relevant, fuel);
      assert r.queries == rest.queries;
      assert r.calls == s.calls + rest.calls;
      assert multiset(RemovedQueries(r.calls, find)) == a + b;
      assert multiset(r.queries) + (a + b) == multiset(qs);
    }
  }

  lemma UnionShift<T>(r: multiset<T>, a: multiset<T>, b: multiset<T>, s: multiset<T>, q: multiset<T>)
    requires r + b == s && s + a == q
    ensures r + (a + b) == q
  {
  }

  /** One turn of the `while` loop: a sweep at the current offset, then the
      rest of the loop at the next offset. */
  lemma CollectStep(qs: seq<string>, found: seq<Paper>, offset: int, minCount: int,
                    batch: int, find: Finder, relevant: Paper -> bool, fuel: nat,
                    s: SweepResult, next: int, more: nat, rest: Run)
    requires |found| < minCount && qs != [] && fuel > 0
    requires s == Sweep(qs, 0, found, offset, minCount, find, relevant)
    requires next == offset + batch && more == fuel - 1
    requires rest == Collect(s.queries, s.found, next, minCount, batch, find, relevant, more)
    ensures Collect(qs, found, offset, minCount, batch, find, relevant, fuel)
            == Run(rest.found, rest.queries, rest.offset, rest.sweeps + 1, s.calls + rest.calls, rest.finished)
  {
    CollectIsAfter(qs, found, offset, minCount, batch, find, relevant, fuel, s, next, more);
  }

  lemma CollectIsAfter(qs: seq<string>, found: seq<Paper>, offset: int, minCount: int,
                       batch: int, find: Finder, relevant: Paper -> bool, fuel: nat,
                       s: SweepResult, next: int, more: nat)
    requires |found| < minCount && qs != [] && fuel > 0
    requires s == Sweep(qs, 0, found, offset, minCount, find, relevant)
    requires next == offset + batch && more == fuel - 1
    ensures Collect(qs, found, offset, minCount, batch, find, relevant, fuel)
            == CollectAfter(s, next, minCount, batch, find, relevant, more)
  {
  }

  /** The offset grows by the batch size once per sweep. */
  lemma {:induction false} CollectOffset(qs: seq<string>, found: seq<Paper>, offset: int, minCount: int,
                                         batch: int, find: Finder, relevant: Paper -> bool, fuel: nat)
    ensures var r := Collect(qs, found, offset, minCount, batch, find, relevant, fuel);
            r.offset == offset + r.sweeps * batch
    decreases fuel
  {
    if |found| < minCount && qs != [] && fuel > 0 {
      var s := Sweep(qs, 0, found, offset, minCount, find, relevant);
      var next := offset + batch;
      var more: nat := fuel - 1;
      CollectOffset(s.queries, s.found, next, minCount, batch, find, relevant, more);
      var rest := Collect(s.queries, s.found, next, minCount, batch, find, relevant, more);
      CollectStep(qs, found, offset, minCount, batch, find, relevant, fuel, s, next, more, rest);
      var r := Collect(qs, found, offset, minCount, batch, find, relevant, fuel);
      OneMoreBatch(offset, batch, rest.sweeps, r.sweeps, rest.offset);
    }
  }

  lemma OneMoreBatch(offset: int, batch: int, n: nat, m: nat, o: int)
    requires m == n + 1 && o == offset + batch + n * batch
    ensures o == offset + m * batch
  {
  }

  /** The offset starts at 0, so it is the batch size times the sweeps. */
  lemma GetAllPapersOffset(qs: seq<string>, minCount: int, batch: int,
                           find: Finder, relevant: Paper -> bool, fuel: nat)
    ensures var r := GetAllPapers(qs, minCount, batch, find, relevant, fuel);
            r.offset == r.sweeps * batch
  {
    CollectOffset(qs, [], 0, minCount, batch, find, relevant, fuel);
  }

  /** The queries left at the end are the generated ones less one copy per
      request that found its offset unavailable. */
  lemma GetAllPapersRemoves(qs: seq<string>, minCount: int, batch: int,
                            find: Finder, relevant: Paper -> bool, fuel: nat)
    ensures var r := GetAllPapers(qs, minCount, batch, find, relevant, fuel);
            multiset(r.queries) + multiset(RemovedQueries(r.calls, find)) == multiset(qs)
  {
    CollectRemoves(qs, [], 0, minCount, batch, find, relevant, fuel);
  }

  // ---------------------------------------------------------------------------
  // Duplicates

  /** When every page is free of duplicates, so is what the loop collects:
      a paper found earlier is never added again. */
  lemma {:induction false} SweepKeepsDistinct(qs: seq<string>, i: nat, found: seq<Paper>, offset: int,
                                              minCount: int, find: Finder, relevant: Paper -> bool)
    requires NoDups(found)
    requires forall q, o :: find(q, o).Some? ==> NoDups(find(q, o).value)
    ensures NoDups(Sweep(qs, i, found, offset, minCount, find, relevant).found)
    decreases |qs| - i
  {
    if i < |qs| {
      var q := qs[i];
      match find(q, offset)
      case None =>
        SweepKeepsDistinct(RemoveFirst(qs, q), i + 1, found, offset, minCount, find, relevant);
      case Some(page) =>
        var added := NewRelevant(page, found, relevant);
        NewRelevantKeeps(page, found, relevant);
        NoDupsConcat(found, added);
        var now := found + added;
        if |now| < minCount {
          SweepKeepsDistinct(qs, i + 1, now, offset, minCount, find, relevant);
        }
    }
  }

  lemma {:induction false} CollectKeepsDistinct(qs: seq<string>, found: seq<Paper>, offset: int, minCount: int,
                                                batch: int, find: Finder, relevant: Paper -> bool, fuel: nat)
    requires NoDups(found)
    requires forall q, o :: find(q, o).Some? ==> NoDups(find(q, o).value)
    ensures NoDups(Collect(qs, found, offset, minCount, batch, find, relevant, fuel).found)
    decreases fuel
  {
    if |found| < minCount && qs != [] && fuel > 0 {
      var next := offset + batch;
      var more: nat := fuel - 1;
      var s := Sweep(qs, 0, found, offset, minCount, find, relevant);
      SweepKeepsDistinct(qs, 0, found, offset, minCount, find, relevant);
      CollectKeepsDistinct(s.queries, s.found, next, minCount, batch, find, relevant, more);
    }
  }

  /** The papers `get_all_papers` returns are distinct whenever every page
      is. */
  lemma GetAllPapersDistinct(qs: seq<string>, minCount: int, batch: int,
                             find: Finder, relevant: Paper -> bool, fuel: nat)
    requires forall q, o :: find(q, o).Some? ==> NoDups(find(q, o).value)
    ensures NoDups(GetAllPapers(qs, minCount, batch, find, relevant, fuel).found)
  {
    CollectKeepsDistinct(qs, [], 0, minCount, batch, find, relevant, fuel);
  }
}
