/**
  The query normaliser of `Queries`: strip and drop blank queries, split
  queries holding an OR operator, replace " AND " by a space, and drop
  duplicates. Written as a pure function from the list the language model
  returned to the list of search queries.
 */
module Queries {
  import opened Strings
  import opened Seqs

  const OrSeparator := " OR "
  const AndSeparator := " AND "

  // ---------------------------------------------------------------------------
  // Step 1: strip, and drop what is blank

  predicate NonBlank(q: string) {
    Strip(q) != []
  }

  /** Non-empty, with no whitespace at either end. */
  predicate IsClean(q: string) {
    q != [] && !IsSpace(q[0]) && !IsSpace(q[|q| - 1])
  }

  /** `[q.strip() for q in qs if q.strip()]`. */
  function StripQueries(qs: seq<string>): (r: seq<string>)
    ensures |r| <= |qs|
  {
    Map(Filter(qs, NonBlank), Strip)
  }

  /** The stripped queries are exactly the non-blank inputs, stripped. */
  lemma StripQueriesMembers(qs: seq<string>, q: string)
    ensures q in StripQueries(qs) <==> exists i :: 0 <= i < |qs| && NonBlank(qs[i]) && q == Strip(qs[i])
  {
    if q in StripQueries(qs) {
      StripQueriesSound(qs, q);
    }
    if exists i :: 0 <= i < |qs| && NonBlank(qs[i]) && q == Strip(qs[i]) {
      var i :| 0 <= i < |qs| && NonBlank(qs[i]) && q == Strip(qs[i]);
      StripQueriesComplete(qs, i);
    }
  }

  lemma StripQueriesSound(qs: seq<string>, q: string)
    requires q in StripQueries(qs)
    ensures exists i :: 0 <= i < |qs| && NonBlank(qs[i]) && q == Strip(qs[i])
  {
    var kept := Filter(qs, NonBlank);
    var r := StripQueries(qs);
    var k :| 0 <= k < |r| && r[k] == q;
    assert r[k] == Strip(kept[k]);
    assert kept[k] in kept;
    var i :| 0 <= i < |qs| && qs[i] == kept[k];
  }

  lemma StripQueriesComplete(qs: seq<string>, i: nat)
    requires i < |qs| && NonBlank(qs[i])
    ensures Strip(qs[i]) in StripQueries(qs)
  {
    var kept := Filter(qs, NonBlank);
    assert qs[i] in qs;
    assert qs[i] in kept;
    var k :| 0 <= k < |kept| && kept[k] == qs[i];
    assert StripQueries(qs)[k] == Strip(qs[i]);
  }

  /** A stripped, non-blank query is non-empty and has no surrounding
      whitespace. */
  lemma StripQueriesClean(qs: seq<string>)
    ensures forall q :: q in StripQueries(qs) ==> IsClean(q)
  {
    forall q | q in StripQueries(qs)
      ensures IsClean(q)
    {
      StripQueriesMembers(qs, q);
    }
  }

  // ---------------------------------------------------------------------------
  // Step 2: split OR queries, as written

  /** The indices of the queries whose lower-cased text holds " OR ", in
      order. */
  function OrIndices(qs: seq<string>): (r: seq<nat>)
    ensures forall k :: 0 <= k < |r| ==> r[k] < |qs|
  {
    if qs == [] then []
    else
      var last := |qs| - 1;
      OrIndices(qs[..last]) + (if Contains(Lower(qs[last]), OrSeparator) then [last] else [])
  }

  /** `or_query = queries.pop(i)` followed by `queries.extend(...)` of its
      stripped " OR " pieces. */
  function PopAndExtend(qs: seq<string>, i: nat): (r: seq<string>)
    requires i < |qs|
    ensures |r| >= |qs|
  {
    qs[..i] + qs[i + 1..] + Map(Split(qs[i], OrSeparator), Strip)
  }

  /** The loop over the indices computed before it: each step pops by an index
      computed for the list as it was before any pop. */
  function SplitOrQueries(qs: seq<string>, idxs: seq<nat>): (r: seq<string>)
    requires forall k :: 0 <= k < |idxs| ==> idxs[k] < |qs|
    ensures |r| >= |qs|
    decreases |idxs|
  {
    if idxs == [] then qs
    else SplitOrQueries(PopAndExtend(qs, idxs[0]), idxs[1..])
  }

  /** Lower-casing leaves no upper-case 'O'. */
  lemma LowerHasNoCapitalO(s: string)
    ensures 'O' !in Lower(s)
  {
    forall i | 0 <= i < |Lower(s)|
      ensures Lower(s)[i] != 'O'
    {
      assert Lower(s)[i] == ToLowerChar(s[i]);
    }
  }

  /** The OR split never fires: " OR " is searched for in the lower-cased
      query, which cannot hold its capital letters. */
  lemma {:induction false} OrSplitNeverFires(qs: seq<string>)
    ensures OrIndices(qs) == []
    ensures SplitOrQueries(qs, OrIndices(qs)) == qs
  {
    if qs != [] {
      var last := |qs| - 1;
      OrSplitNeverFires(qs[..last]);
      LowerHasNoCapitalO(qs[last]);
      NotContainsMissingChar(Lower(qs[last]), OrSeparator, 'O');
    }
  }

  // ---------------------------------------------------------------------------
  // Step 3 and 4: drop " AND ", remove duplicates

  /** `q.replace(" AND ", " ")`. */
  function ReplaceAnd(q: string): (r: string)
    ensures |r| <= |q|
    ensures !Contains(q, AndSeparator) ==> r == q
  {
    ReplaceNoLonger(q, AndSeparator, " ");
    Replace(q, AndSeparator, " ")
  }

  /** Replacement is split-then-join: the pieces between non-overlapping
      " AND " occurrences, found left to right, joined by a space. */
  lemma ReplaceAndSplits(q: string)
    ensures ReplaceAnd(q) == Join(Split(q, AndSeparator), " ")
    ensures |Split(q, AndSeparator)| == 1 ==> ReplaceAnd(q) == q
  {
    ReplaceIsSplitJoin(q, AndSeparator, " ");
  }

  /** An " OR " at `j`, character by character. */
  predicate OrCharsAt(s: string, j: int) {
    0 <= j && j + 4 <= |s| && s[j] == ' ' && s[j + 1] == 'O' && s[j + 2] == 'R' && s[j + 3] == ' '
  }

  lemma OrCharsOfOccurrence(s: string, j: nat)
    requires OccursAt(s, j, OrSeparator)
    ensures OrCharsAt(s, j)
  {
    OccursAtChars(s, j, OrSeparator);
  }

  lemma OrOccurrenceOfChars(s: string, j: nat)
    requires OrCharsAt(s, j)
    ensures Contains(s, OrSeparator)
  {
    CharsOccurAt(s, j, OrSeparator);
    ContainsAt(s, j, OrSeparator);
  }

  /** An " AND " at `i` begins and ends with a space. */
  lemma AndSpaces(s: string, i: nat)
    requires OccursAt(s, i, AndSeparator)
    ensures i + 5 <= |s| && s[i] == ' ' && s[i + 4] == ' '
  {
    OccursAtChars(s, i, AndSeparator);
  }

  /** A text whose replacement starts with "OR " starts with it itself: the
      replacement space would sit at index 0 or 1, or is the first
      character of " AND ", which is a space too. */
  lemma ReplaceAndHead(t: string, r: string)
    requires r == ReplaceAnd(t) && OrCharsAt(" " + r, 0)
    ensures OrCharsAt(" " + t, 0)
  {
    match Find(t, AndSeparator)
    case None =>
    case Some(i) =>
      var rest := t[i + |AndSeparator|..];
      ReplaceAtFirst(t, AndSeparator, " ", i, rest);
      AndSpaces(t, i);
      SpliceHead(t, i, ReplaceAnd(rest), r);
  }

  lemma SpliceHead(t: string, i: nat, tail: string, r: string)
    requires i < |t| && t[i] == ' ' && r == t[..i] + " " + tail && OrCharsAt(" " + r, 0)
    ensures OrCharsAt(" " + t, 0)
  {
    assert r[i] == ' ';
    assert forall k :: 0 <= k < i ==> r[k] == t[k];
  }

  /** Replacing " AND " by a space cannot create an " OR ": a new
      occurrence would need the new space at its start or its end, and the
      replaced " AND " had a space there already. */
  lemma {:induction false} ReplaceAndKeepsOrFree(s: string)
    requires !Contains(s, OrSeparator)
    ensures !Contains(ReplaceAnd(s), OrSeparator)
    decreases |s|
  {
    match Find(s, AndSeparator)
    case None =>
    case Some(i) =>
      var rest := s[i + |AndSeparator|..];
      var tail := ReplaceAnd(rest);
      ReplaceAtFirst(s, AndSeparator, " ", i, rest);
      InfixKeepsAbsence(s, rest, i + |AndSeparator|, OrSeparator);
      ReplaceAndKeepsOrFree(rest);
      AndSpaces(s, i);
      if OrCharsAt(" " + tail, 0) {
        ReplaceAndHead(rest, tail);
      }
      NoOrAroundSpace(s, i, rest, tail, ReplaceAnd(s));
  }

  /** The step of `ReplaceAndKeepsOrFree`: `s[..i] + " " + tail` holds no
      " OR " when `s` has " AND " at `i`, neither `s` nor `tail` holds one,
      and `tail` starts with "OR " only if the rest of `s` does. */
  lemma NoOrAroundSpace(s: string, i: nat, rest: string, tail: string, r: string)
    requires i + 5 <= |s| && s[i] == ' ' && s[i + 4] == ' ' && rest == s[i + 5..]
    requires !Contains(s, OrSeparator) && !Contains(tail, OrSeparator)
    requires OrCharsAt(" " + tail, 0) ==> OrCharsAt(" " + rest, 0)
    requires r == s[..i] + " " + tail
    ensures !Contains(r, OrSeparator)
  {
    if Contains(r, OrSeparator) {
      var j := Find(r, OrSeparator).value;
      OrCharsOfOccurrence(r, j);
      assert r[i] == ' ';
      if j + 4 <= i {
        assert r[j..j + 4] == s[j..j + 4];
        OrOccurrenceOfChars(s, j);
      } else if j > i {
        assert r[i + 1..] == tail;
        OrOccurrenceOfChars(tail, j - i - 1);
      } else if j + 3 == i {
        assert r[j..j + 3] == s[j..j + 3];
        OrOccurrenceOfChars(s, j);
      } else if j == i {
        assert r[i..] == " " + tail;
        assert s[i + 4..] == " " + rest;
        OrOccurrenceOfChars(s, i + 4);
      } else {
        assert false;
      }
    }
  }

  /** Replacing " AND " keeps a clean query clean. */
  lemma ReplaceAndKeepsClean(q: string)
    requires IsClean(q)
    ensures var r := ReplaceAnd(q); r != [] && r[0] == q[0] && r[|r| - 1] == q[|q| - 1]
    ensures IsClean(ReplaceAnd(q))
  {
    ReplaceKeepsEnds(q, AndSeparator, " ");
  }

  /** One pass does not remove every " AND ": in "a AND AND b" the second one
      overlaps the first and survives. */
  lemma AndCanRemain()
    ensures ReplaceAnd("a AND AND b") == "a AND b"
    ensures Contains(ReplaceAnd("a AND AND b"), AndSeparator)
  {
    var s := "a AND AND b";
    FirstAndAtOne(s);
    var rest := s[6..];
    assert rest == "AND b";
    ReplaceAtFirst(s, AndSeparator, " ", 1, rest);
    AndFreeRest(rest);
    assert s[..1] == "a";
    assert "a" + " " + rest == "a AND b";
    assert OccursAt("a AND b", 1, AndSeparator);
    ContainsAt("a AND b", 1, AndSeparator);
  }

  lemma FirstAndAtOne(s: string)
    requires s == "a AND AND b"
    ensures Find(s, AndSeparator) == Some(1)
  {
    assert OccursAt(s, 1, AndSeparator);
    assert !OccursAt(s, 0, AndSeparator) by {
      assert s[0..5][0] == 'a';
    }
  }

  lemma AndFreeRest(rest: string)
    requires rest == "AND b"
    ensures ReplaceAnd(rest) == rest
  {
    forall j
      ensures !OccursAt(rest, j, AndSeparator)
    {
      if 0 <= j && j + 5 <= |rest| {
        assert j == 0;
        assert rest[0] != ' ';
      }
    }
  }

  /** `Queries.__post_init__` as written: strip, split OR queries, replace
      " AND ", de-duplicate. `list(set(...))` has no fixed order; the model
      keeps first occurrences. */
  function NormaliseQueries(qs: seq<string>): (r: seq<string>)
    ensures NoDups(r)
  {
    var stripped := StripQueries(qs);
    var split := SplitOrQueries(stripped, OrIndices(stripped));
    DedupNoDups(Map(split, ReplaceAnd));
    Dedup(Map(split, ReplaceAnd))
  }

  /** The normalised queries are the non-blank inputs, stripped, with " AND "
      replaced: nothing else, and none of them missing. */
  lemma NormaliseQueriesMembers(qs: seq<string>, q: string)
    ensures q in NormaliseQueries(qs) <==>
            exists i :: 0 <= i < |qs| && NonBlank(qs[i]) && q == ReplaceAnd(Strip(qs[i]))
  {
    var stripped := StripQueries(qs);
    OrSplitNeverFires(stripped);
    var mapped := Map(stripped, ReplaceAnd);
    if q in NormaliseQueries(qs) {
      var k :| 0 <= k < |mapped| && mapped[k] == q;
      StripQueriesMembers(qs, stripped[k]);
    }
    if exists i :: 0 <= i < |qs| && NonBlank(qs[i]) && q == ReplaceAnd(Strip(qs[i])) {
      var i :| 0 <= i < |qs| && NonBlank(qs[i]) && q == ReplaceAnd(Strip(qs[i]));
      StripQueriesMembers(qs, Strip(qs[i]));
      var k :| 0 <= k < |stripped| && stripped[k] == Strip(qs[i]);
      assert mapped[k] == q;
    }
  }

  /** Every normalised query is non-empty and has no leading or trailing
      whitespace. */
  lemma NormalisedQueriesClean(qs: seq<string>)
    ensures forall q :: q in NormaliseQueries(qs) ==> IsClean(q)
  {
    var stripped := StripQueries(qs);
    OrSplitNeverFires(stripped);
    var mapped := Map(stripped, ReplaceAnd);
    NormaliseFrom(qs, stripped, stripped, mapped);
    StripQueriesClean(qs);
    forall q | q in NormaliseQueries(qs)
      ensures IsClean(q)
    {
      var k :| 0 <= k < |mapped| && mapped[k] == q;
      assert stripped[k] in stripped;
      ReplaceAndKeepsClean(stripped[k]);
    }
  }

  // ---------------------------------------------------------------------------
  // The OR split as evidently intended

  /** One query split at each " OR ", each piece stripped (a blank piece
      stays, as an empty query); a query without " OR " stays whole. */
  function OrPieces(q: string): (r: seq<string>)
    ensures !Contains(q, OrSeparator) ==> r == [Strip(q)]
  {
    Map(Split(q, OrSeparator), Strip)
  }

  /** `x` is a stripped piece of `q` split at " OR ". */
  ghost predicate IsOrPiece(x: string, q: string) {
    exists p :: p in Split(q, OrSeparator) && x == Strip(p)
  }

  lemma OrPiecesMembers(q: string, x: string)
    ensures x in OrPieces(q) <==> IsOrPiece(x, q)
  {
    if x in OrPieces(q) {
      OrPieceOfMember(q, x);
    }
    if IsOrPiece(x, q) {
      MemberOfOrPiece(q, x);
    }
  }

  lemma OrPieceOfMember(q: string, x: string)
    requires x in OrPieces(q)
    ensures IsOrPiece(x, q)
  {
    var parts := Split(q, OrSeparator);
    var k :| 0 <= k < |parts| && OrPieces(q)[k] == x;
    assert parts[k] in parts;
  }

  lemma MemberOfOrPiece(q: string, x: string)
    requires IsOrPiece(x, q)
    ensures x in OrPieces(q)
  {
    MapHasImage(Split(q, OrSeparator), Strip, x);
  }

  function FlatMapOrPieces(qs: seq<string>): (r: seq<string>) {
    if qs == [] then [] else OrPieces(qs[0]) + FlatMapOrPieces(qs[1..])
  }

  /** The normaliser with the OR test made on the query itself and the split
      done per query (no index shifting). */
  function NormaliseQueriesCorrected(qs: seq<string>): (r: seq<string>)
    ensures NoDups(r)
  {
    var stripped := StripQueries(qs);
    var split := FlatMapOrPieces(stripped);
    DedupNoDups(Map(split, ReplaceAnd));
    Dedup(Map(split, ReplaceAnd))
  }

  /** The pieces of a list of queries, in order. */
  lemma {:induction false} FlatMapOrPiecesMembers(qs: seq<string>, x: string)
    ensures x in FlatMapOrPieces(qs) <==> exists k :: 0 <= k < |qs| && IsOrPiece(x, qs[k])
    decreases |qs|
  {
    if qs != [] {
      var tail := qs[1..];
      FlatMapOrPiecesMembers(tail, x);
      FlatMapCons(qs, qs[0], tail);
      OrPiecesMembers(qs[0], x);
      if exists k :: 0 <= k < |qs| && IsOrPiece(x, qs[k]) {
        var k :| 0 <= k < |qs| && IsOrPiece(x, qs[k]);
        if k > 0 {
          assert tail[k - 1] == qs[k];
        }
      }
      if exists k :: 0 <= k < |tail| && IsOrPiece(x, tail[k]) {
        var k :| 0 <= k < |tail| && IsOrPiece(x, tail[k]);
        assert qs[k + 1] == tail[k];
      }
    }
  }

  /** A corrected query: a stripped " OR " piece of a stripped non-blank
      input, with " AND " replaced. */
  ghost predicate IsCorrectedQuery(qs: seq<string>, q: string) {
    exists i, x :: 0 <= i < |qs| && NonBlank(qs[i]) && IsOrPiece(x, Strip(qs[i])) && q == ReplaceAnd(x)
  }

  /** The corrected normaliser keeps exactly the stripped " OR " pieces of
      the stripped non-blank queries, with " AND " replaced. */
  lemma NormaliseCorrectedMembers(qs: seq<string>, q: string)
    ensures q in NormaliseQueriesCorrected(qs) <==> IsCorrectedQuery(qs, q)
  {
    if q in NormaliseQueriesCorrected(qs) {
      CorrectedSound(qs, q);
    }
    if IsCorrectedQuery(qs, q) {
      CorrectedComplete(qs, q);
    }
  }

  lemma CorrectedSound(qs: seq<string>, q: string)
    requires q in NormaliseQueriesCorrected(qs)
    ensures IsCorrectedQuery(qs, q)
  {
    var stripped := StripQueries(qs);
    var split := FlatMapOrPieces(stripped);
    var mapped := Map(split, ReplaceAnd);
    NormaliseCorrectedFrom(qs, stripped, split, mapped);
    var m :| 0 <= m < |mapped| && mapped[m] == q;
    var x := split[m];
    FlatMapOrPiecesMembers(stripped, x);
    var k :| 0 <= k < |stripped| && IsOrPiece(x, stripped[k]);
    StripQueriesSound(qs, stripped[k]);
    var i :| 0 <= i < |qs| && NonBlank(qs[i]) && stripped[k] == Strip(qs[i]);
    assert IsOrPiece(x, Strip(qs[i]));
  }

  lemma CorrectedComplete(qs: seq<string>, q: string)
    requires IsCorrectedQuery(qs, q)
    ensures q in NormaliseQueriesCorrected(qs)
  {
    var stripped := StripQueries(qs);
    var split := FlatMapOrPieces(stripped);
    var mapped := Map(split, ReplaceAnd);
    NormaliseCorrectedFrom(qs, stripped, split, mapped);
    var i, x :| 0 <= i < |qs| && NonBlank(qs[i]) && IsOrPiece(x, Strip(qs[i])) && q == ReplaceAnd(x);
    StripQueriesComplete(qs, i);
    var k :| 0 <= k < |stripped| && stripped[k] == Strip(qs[i]);
    FlatMapOrPiecesMembers(stripped, x);
    assert x in split;
    MapHasImage(split, ReplaceAnd, q);
  }

  /** No corrected query holds " OR ": each is a piece between two of them,
      stripped, and replacing " AND " cannot create one. */
  lemma NormaliseCorrectedOrFree(qs: seq<string>)
    ensures forall q :: q in NormaliseQueriesCorrected(qs) ==> !Contains(q, OrSeparator)
  {
    forall q | q in NormaliseQueriesCorrected(qs)
      ensures !Contains(q, OrSeparator)
    {
      CorrectedSound(qs, q);
      var i, x :| 0 <= i < |qs| && NonBlank(qs[i]) && IsOrPiece(x, Strip(qs[i])) && q == ReplaceAnd(x);
      PieceOrFree(Strip(qs[i]), x);
      ReplaceAndKeepsOrFree(x);
    }
  }

  /** A stripped piece holds no " OR ". */
  lemma PieceOrFree(s: string, x: string)
    requires IsOrPiece(x, s)
    ensures !Contains(x, OrSeparator)
  {
    var p :| p in Split(s, OrSeparator) && x == Strip(p);
    SplitPieceFree(s, p);
    StripKeepsAbsence(p, OrSeparator);
  }

  lemma SplitPieceFree(s: string, p: string)
    requires p in Split(s, OrSeparator)
    ensures !Contains(p, OrSeparator)
  {
    SplitPiecesFree(s, OrSeparator);
  }

  /** A query already stripped, non-blank and free of " OR ". */
  predicate OrFreeStripped(q: string) {
    !Contains(q, OrSeparator) && NonBlank(q) && Strip(q) == q
  }

  /** Such a query is its own piece list. */
  lemma CleanQueryPieces(q: string)
    requires OrFreeStripped(q)
    ensures OrPieces(q) == [q]
  {
  }

  /** Queries that are their own piece lists pass the split unchanged. */
  lemma {:induction false} FlatMapWithoutOr(qs: seq<string>)
    requires forall q :: q in qs ==> OrFreeStripped(q)
    ensures FlatMapOrPieces(qs) == qs
  {
    if qs != [] {
      var head := qs[0];
      var tail := qs[1..];
      assert qs == [head] + tail;
      FlatMapWithoutOr(tail);
      CleanQueryPieces(head);
      FlatMapCons(qs, head, tail);
    }
  }

  lemma FlatMapCons(qs: seq<string>, head: string, tail: seq<string>)
    requires qs == [head] + tail
    ensures FlatMapOrPieces(qs) == OrPieces(head) + FlatMapOrPieces(tail)
  {
    assert qs[1..] == tail;
  }

  /** Stripping an OR-free, non-blank query leaves it OR-free and
      non-blank, and stripping again changes nothing. */
  lemma StrippedWithoutOr(q: string)
    requires !Contains(q, OrSeparator) && NonBlank(q)
    ensures !Contains(Strip(q), OrSeparator) && NonBlank(Strip(q)) && Strip(Strip(q)) == Strip(q)
  {
    InfixKeepsAbsence(q, Strip(q), StripStart(q), OrSeparator);
    StripOfStripped(Strip(q));
  }

  /** Where no query holds " OR ", the corrected normaliser and the one as
      written agree exactly. */
  lemma CorrectedAgreesWithoutOr(qs: seq<string>)
    requires forall i :: 0 <= i < |qs| ==> !Contains(qs[i], OrSeparator)
    ensures NormaliseQueriesCorrected(qs) == NormaliseQueries(qs)
  {
    var stripped := StripQueries(qs);
    OrSplitNeverFires(stripped);
    forall q | q in stripped
      ensures OrFreeStripped(q)
    {
      StripQueriesSound(qs, q);
      var i :| 0 <= i < |qs| && NonBlank(qs[i]) && q == Strip(qs[i]);
      StrippedWithoutOr(qs[i]);
    }
    FlatMapWithoutOr(stripped);
  }

  // ---------------------------------------------------------------------------
  // The two on one OR query

  /** A single clean query is its own stripped list. */
  lemma StripQueriesOne(q: string)
    requires q != [] && !IsSpace(q[0]) && !IsSpace(q[|q| - 1])
    ensures StripQueries([q]) == [q]
  {
    StripOfStripped(q);
    FilterOne(q, NonBlank);
    MapOne(q, Strip);
  }

  lemma AOrBStrips()
    ensures StripQueries(["a OR b"]) == ["a OR b"]
  {
    StripQueriesOne("a OR b");
  }

  /** The normaliser as written, from its intermediate lists. */
  lemma NormaliseFrom(qs: seq<string>, stripped: seq<string>, split: seq<string>, mapped: seq<string>)
    requires StripQueries(qs) == stripped
    requires SplitOrQueries(stripped, OrIndices(stripped)) == split
    requires Map(split, ReplaceAnd) == mapped
    ensures NormaliseQueries(qs) == Dedup(mapped)
  {
  }

  /** The corrected normaliser, from its intermediate lists. */
  lemma NormaliseCorrectedFrom(qs: seq<string>, stripped: seq<string>, split: seq<string>, mapped: seq<string>)
    requires StripQueries(qs) == stripped
    requires FlatMapOrPieces(stripped) == split
    requires Map(split, ReplaceAnd) == mapped
    ensures NormaliseQueriesCorrected(qs) == Dedup(mapped)
  {
  }

  lemma AOrBNoAnd()
    ensures Map(["a OR b"], ReplaceAnd) == ["a OR b"]
  {
    NotContainsMissingChar("a OR b", AndSeparator, 'D');
    ReplaceWithout("a OR b", AndSeparator, " ");
    MapOne("a OR b", ReplaceAnd);
  }

  /** As written, "a OR b" stays one query. */
  lemma OrQueryKeptWhole()
    ensures NormaliseQueries(["a OR b"]) == ["a OR b"]
  {
    var qs := ["a OR b"];
    AOrBStrips();
    OrSplitNeverFires(qs);
    AOrBNoAnd();
    NormaliseFrom(qs, qs, qs, qs);
    DedupOne("a OR b");
  }

  lemma AOrBSplits()
    ensures Split("a OR b", OrSeparator) == ["a", "b"]
  {
    var s := "a OR b";
    assert OccursAt(s, 1, OrSeparator) by {
      assert s[1..5] == OrSeparator;
    }
    assert !OccursAt(s, 0, OrSeparator) by {
      assert s[0..4][0] == 'a';
    }
    assert Find(s, OrSeparator) == Some(1);
    assert s[..1] == "a";
    assert s[5..] == "b";
    assert Find("b", OrSeparator) == None;
    assert Split("b", OrSeparator) == ["b"];
  }

  lemma AOrBPieces()
    ensures FlatMapOrPieces(["a OR b"]) == ["a", "b"]
  {
    AOrBSplits();
    StripOfStripped("a");
    StripOfStripped("b");
    MapPair("a", "b", Strip);
    assert OrPieces("a OR b") == ["a", "b"];
    assert ["a OR b"][1..] == [];
  }

  lemma ABNoAnd()
    ensures Map(["a", "b"], ReplaceAnd) == ["a", "b"]
  {
    NotContainsMissingChar("a", AndSeparator, 'D');
    NotContainsMissingChar("b", AndSeparator, 'D');
    ReplaceWithout("a", AndSeparator, " ");
    ReplaceWithout("b", AndSeparator, " ");
    MapPair("a", "b", ReplaceAnd);
  }

  /** Corrected, "a OR b" becomes the two queries "a" and "b". */
  lemma OrQuerySplitCorrected()
    ensures NormaliseQueriesCorrected(["a OR b"]) == ["a", "b"]
  {
    var qs := ["a OR b"];
    var ab := ["a", "b"];
    AOrBStrips();
    AOrBPieces();
    ABNoAnd();
    NormaliseCorrectedFrom(qs, qs, ab, ab);
    DedupPair("a", "b");
  }

  // ---------------------------------------------------------------------------
  // How the queries reach the search

  /** `Queries.model_validate_json(...).queries` hands the search the list
      as the language model returned it: pydantic's `BaseModel` never calls
      a `__post_init__` method. A blank query in that list therefore reaches
      the search, though the normaliser would have dropped it and kept
      nothing. */
  lemma BlankQueryReachesSearch()
    ensures !IsClean("  ") && !NonBlank("  ")
    ensures NormaliseQueries(["  "]) == []
  {
    assert !NonBlank("  ") by {
      assert LStrip("  ") == [];
    }
    assert Filter(["  "], NonBlank) == [];
    OrSplitNeverFires([]);
  }
}
