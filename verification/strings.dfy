/**
  Python `str` operations the survey pipeline relies on, over `seq<char>`:
  whitespace stripping, substring search, `split`, `join`, `replace`,
  ASCII case mapping, `title()`, `str(int)` and lexicographic comparison.
 */
module Strings {

  datatype Option<+T> = None | Some(value: T)

  /** Python's `str.isspace()` for a single character. */
  predicate IsSpace(c: char) {
    || ('\t' <= c <= '\r')
    || ('\U{1C}' <= c <= '\U{1F}')
    || c == ' ' || c == '\U{85}' || c == '\U{A0}' || c == '\U{1680}'
    || ('\U{2000}' <= c <= '\U{200A}')
    || c == '\U{2028}' || c == '\U{2029}' || c == '\U{202F}' || c == '\U{205F}'
    || c == '\U{3000}'
  }

  predicate AllSpace(s: string) {
    forall i :: 0 <= i < |s| ==> IsSpace(s[i])
  }

  /** `s.lstrip()`: drops leading whitespace. */
  function LStrip(s: string): (r: string)
    ensures |r| <= |s| && r == s[|s| - |r|..]
    ensures AllSpace(s[..|s| - |r|])
    ensures r == [] || !IsSpace(r[0])
  {
    if s != [] && IsSpace(s[0]) then
      DropFirstSlices(s, |LStrip(s[1..])|);
      LStrip(s[1..])
    else s
  }

  /** `s.rstrip()`: drops trailing whitespace. */
  function RStrip(s: string): (r: string)
    ensures |r| <= |s| && r == s[..|r|]
    ensures AllSpace(s[|r|..])
    ensures r == [] || !IsSpace(r[|r| - 1])
  {
    if s != [] && IsSpace(s[|s| - 1]) then
      DropLastSlices(s, |RStrip(s[..|s| - 1])|);
      RStrip(s[..|s| - 1])
    else s
  }

  /** How slices of `s` relate to slices of `s` without its first element. */
  lemma DropFirstSlices(s: string, n: nat)
    requires s != [] && n <= |s| - 1
    ensures s[1..][|s| - 1 - n..] == s[|s| - n..]
    ensures s[..|s| - n] == [s[0]] + s[1..][..|s| - 1 - n]
  {
  }

  /** How slices of `s` relate to slices of `s` without its last element. */
  lemma DropLastSlices(s: string, n: nat)
    requires s != [] && n <= |s| - 1
    ensures s[..|s| - 1][..n] == s[..n]
    ensures s[n..] == s[..|s| - 1][n..] + [s[|s| - 1]]
  {
  }

  /** Number of leading whitespace characters `strip()` removes. */
  function StripStart(s: string): (n: nat)
    ensures n <= |s|
  {
    |s| - |LStrip(s)|
  }

  /** `r` is the slice of `s` from `k` on that whitespace alone surrounds,
      and `r` neither starts nor ends with whitespace. */
  predicate StripsTo(s: string, k: nat, r: string) {
    && k + |r| <= |s|
    && r == s[k..k + |r|]
    && AllSpace(s[..k]) && AllSpace(s[k + |r|..])
    && (r == [] || (!IsSpace(r[0]) && !IsSpace(r[|r| - 1])))
  }

  /** `s.strip()`: `s` without its leading and trailing whitespace. */
  function Strip(s: string): (r: string)
    ensures StripsTo(s, StripStart(s), r)
  {
    StripParts(s, StripStart(s), LStrip(s), RStrip(LStrip(s)));
    RStrip(LStrip(s))
  }

  /** Dropping `k` leading spaces and then trailing spaces leaves the slice
      of `s` between them. */
  lemma StripParts(s: string, k: nat, l: string, r: string)
    requires k <= |s| && l == s[k..] && (l == [] || !IsSpace(l[0]))
    requires |r| <= |l| && r == l[..|r|] && AllSpace(l[|r|..]) && (r == [] || !IsSpace(r[|r| - 1]))
    requires AllSpace(s[..k])
    ensures StripsTo(s, k, r)
  {
    SuffixSlices(s, k, |r|);
    if r != [] {
      assert r[0] == l[0];
    }
  }

  /** Slices of a suffix of `s` are slices of `s`. */
  lemma SuffixSlices(s: string, k: nat, n: nat)
    requires k + n <= |s|
    ensures s[k..][..n] == s[k..k + n]
    ensures s[k..][n..] == s[k + n..]
  {
  }

  /** Stripping is stripping the left end, then the right end. */
  lemma StripIsBothEnds(s: string)
    ensures Strip(s) == RStrip(LStrip(s))
  {
  }

  /** A stripped string is its own strip. */
  lemma StripOfStripped(s: string)
    requires s == [] || (!IsSpace(s[0]) && !IsSpace(s[|s| - 1]))
    ensures Strip(s) == s
  {
  }

  /** Appending whitespace to a string does not change its strip. */
  lemma {:induction false} RStripAppendSpace(s: string, w: string)
    requires AllSpace(w)
    ensures RStrip(s + w) == RStrip(s)
    decreases |w|
  {
    if w != [] {
      assert (s + w)[..|s + w| - 1] == s + w[..|w| - 1];
      RStripAppendSpace(s, w[..|w| - 1]);
    } else {
      assert s + w == s;
    }
  }

  lemma StripAppendSpace(s: string, w: string)
    requires AllSpace(w)
    requires s == [] || (!IsSpace(s[0]) && !IsSpace(s[|s| - 1]))
    ensures Strip(s + w) == s
  {
    if s == [] {
      assert s + w == w;
      assert LStrip(w) == [];
    } else {
      assert LStrip(s + w) == s + w;
      RStripAppendSpace(s, w);
    }
  }

  // ---------------------------------------------------------------------------
  // Substring search

  /** `p` occurs in `s` starting at index `i`. */
  predicate OccursAt(s: string, i: int, p: string) {
    0 <= i && i + |p| <= |s| && s[i..i + |p|] == p
  }

  /** `s.find(p, i)`: the first occurrence of `p` at or after `i`. */
  function FindFrom(s: string, p: string, i: nat): (r: Option<nat>)
    ensures r.Some? ==> i <= r.value && OccursAt(s, r.value, p)
    ensures r.Some? ==> forall j :: i <= j < r.value ==> !OccursAt(s, j, p)
    ensures r.None? ==> forall j :: i <= j ==> !OccursAt(s, j, p)
    decreases |s| - i
  {
    if i + |p| > |s| then None
    else if s[i..i + |p|] == p then Some(i)
    else FindFrom(s, p, i + 1)
  }

  /** `s.find(p)` as an option. */
  function Find(s: string, p: string): (r: Option<nat>)
    ensures r.Some? ==> OccursAt(s, r.value, p)
                        && forall j :: 0 <= j < r.value ==> !OccursAt(s, j, p)
    ensures r.None? ==> forall j :: !OccursAt(s, j, p)
  {
    FindFrom(s, p, 0)
  }

  /** Python's `p in s`. */
  predicate Contains(s: string, p: string) {
    Find(s, p).Some?
  }

  lemma ContainsIff(s: string, p: string)
    ensures Contains(s, p) <==> exists i :: OccursAt(s, i, p)
  {
  }

  /** A pattern found in a part is found in any text around that part. */
  lemma ContainsWithin(x: string, a: string, y: string, p: string)
    requires Contains(a, p)
    ensures Contains(x + a + y, p)
  {
    var i := Find(a, p).value;
    var s := x + a + y;
    assert s[|x| + i..|x| + i + |p|] == a[i..i + |p|];
    assert OccursAt(s, |x| + i, p);
  }

  /** A pattern found in a text is found in that text extended on the right. */
  lemma ContainsLeft(a: string, b: string, p: string)
    requires Contains(a, p)
    ensures Contains(a + b, p)
  {
    var i := Find(a, p).value;
    assert (a + b)[i..i + |p|] == a[i..i + |p|];
    assert OccursAt(a + b, i, p);
  }

  /** A pattern found in a text is found in that text extended on the left. */
  lemma ContainsRight(a: string, b: string, p: string)
    requires Contains(b, p)
    ensures Contains(a + b, p)
  {
    var i := Find(b, p).value;
    assert (a + b)[|a| + i..|a| + i + |p|] == b[i..i + |p|];
    assert OccursAt(a + b, |a| + i, p);
  }

  /** A substring of a text free of a pattern is free of it too. */
  lemma InfixKeepsAbsence(s: string, t: string, k: nat, p: string)
    requires k + |t| <= |s| && t == s[k..k + |t|]
    requires !Contains(s, p)
    ensures !Contains(t, p)
  {
    if Contains(t, p) {
      var j := Find(t, p).value;
      assert OccursAt(t, j, p);
      forall i | 0 <= i < |p|
        ensures s[k + j + i] == p[i]
      {
        assert t[j..j + |p|][i] == t[j + i] == s[k + j + i];
      }
      assert s[k + j..k + j + |p|] == p;
      ContainsAt(s, k + j, p);
    }
  }

  /** The empty string is a substring of every string. */
  lemma ContainsEmpty(s: string)
    ensures Contains(s, "")
  {
    assert OccursAt(s, 0, "");
  }

  /** A witness index establishes containment. */
  lemma ContainsAt(s: string, i: nat, p: string)
    requires OccursAt(s, i, p)
    ensures Contains(s, p)
  {
  }

  /** An occurrence, character by character. */
  lemma OccursAtChars(s: string, i: nat, p: string)
    requires OccursAt(s, i, p)
    ensures forall k :: 0 <= k < |p| ==> s[i + k] == p[k]
  {
    forall k | 0 <= k < |p|
      ensures s[i + k] == p[k]
    {
      assert s[i..i + |p|][k] == s[i + k];
    }
  }

  /** Matching characters make an occurrence. */
  lemma CharsOccurAt(s: string, i: nat, p: string)
    requires i + |p| <= |s|
    requires forall k :: 0 <= k < |p| ==> s[i + k] == p[k]
    ensures OccursAt(s, i, p)
  {
    assert s[i..i + |p|] == p;
  }

  /** Every character of an occurring pattern is a character of the text. */
  lemma OccurrenceChars(s: string, p: string, c: char)
    requires c in p
    ensures forall i :: OccursAt(s, i, p) ==> c in s
  {
    forall i | OccursAt(s, i, p)
      ensures c in s
    {
      var k :| 0 <= k < |p| && p[k] == c;
      assert s[i..i + |p|][k] == s[i + k];
    }
  }

  /** A pattern holding a character the text lacks does not occur in it. */
  lemma NotContainsMissingChar(s: string, p: string, c: char)
    requires c in p && c !in s
    ensures !Contains(s, p)
  {
    OccurrenceChars(s, p, c);
  }

  // ---------------------------------------------------------------------------
  // join / split / replace

  /** `sep.join(parts)`. */
  function Join(parts: seq<string>, sep: string): (r: string)
    ensures parts == [] ==> r == []
    ensures |parts| == 1 ==> r == parts[0]
  {
    if parts == [] then []
    else if |parts| == 1 then parts[0]
    else parts[0] + sep + Join(parts[1..], sep)
  }

  /** A character missing from the separator and from every part is missing
      from the joined text. */
  lemma {:induction false} JoinAvoids(parts: seq<string>, sep: string, c: char)
    requires c !in sep
    requires forall i :: 0 <= i < |parts| ==> c !in parts[i]
    ensures c !in Join(parts, sep)
  {
    if |parts| > 1 {
      JoinAvoids(parts[1..], sep, c);
    }
  }

  /** `s.split(sep)` for a non-empty separator (Python raises on an empty one). */
  function Split(s: string, sep: string): (r: seq<string>)
    requires sep != []
    ensures |r| >= 1
    decreases |s|
  {
    match Find(s, sep)
    case None => [s]
    case Some(i) => [s[..i]] + Split(s[i + |sep|..], sep)
  }

  lemma JoinCons(a: string, t: seq<string>, sep: string)
    requires t != []
    ensures Join([a] + t, sep) == a + sep + Join(t, sep)
  {
    assert ([a] + t)[1..] == t;
  }

  /** Peeling the last part off a join. */
  lemma {:induction false} JoinLast(parts: seq<string>, sep: string)
    requires |parts| >= 2
    ensures Join(parts, sep) == Join(parts[..|parts| - 1], sep) + sep + parts[|parts| - 1]
    decreases |parts|
  {
    if |parts| == 2 {
      assert parts[..1] == [parts[0]];
    } else {
      JoinLast(parts[1..], sep);
      assert parts[1..][..|parts| - 2] == parts[..|parts| - 1][1..];
    }
  }

  /** A join ends with its last part, preceded by the separator when there
      is more than one part. */
  lemma SuffixOfJoin(parts: seq<string>, sep: string)
    requires parts != []
    ensures var j := Join(parts, sep);
            var last := parts[|parts| - 1];
            && |last| <= |j| && j[|j| - |last|..] == last
            && (|parts| >= 2 ==> |last| + |sep| <= |j| && j[|j| - |last| - |sep|..] == sep + last)
            && (|parts| == 1 ==> j == last)
  {
    if |parts| >= 2 {
      JoinLast(parts, sep);
    }
  }

  /** A text around an occurrence of a pattern. */
  lemma AroundOccurrence(s: string, i: nat, p: string)
    requires OccursAt(s, i, p)
    ensures s == s[..i] + p + s[i + |p|..]
  {
  }

  lemma SplitCons(s: string, sep: string, i: nat)
    requires sep != [] && Find(s, sep) == Some(i)
    ensures Split(s, sep) == [s[..i]] + Split(s[i + |sep|..], sep)
  {
  }

  /** `split` and `join` are inverse. */
  lemma {:induction false} SplitJoin(s: string, sep: string)
    requires sep != []
    ensures Join(Split(s, sep), sep) == s
    decreases |s|
  {
    match Find(s, sep)
    case None =>
    case Some(i) =>
      var rest := s[i + |sep|..];
      SplitJoin(rest, sep);
      SplitCons(s, sep, i);
      JoinCons(s[..i], Split(rest, sep), sep);
      assert s == s[..i] + sep + rest;
  }

  /** Stripping a text cannot create an occurrence. */
  lemma StripKeepsAbsence(s: string, p: string)
    requires !Contains(s, p)
    ensures !Contains(Strip(s), p)
  {
    InfixKeepsAbsence(s, Strip(s), StripStart(s), p);
  }

  /** Text before the first occurrence of a pattern does not contain it. */
  lemma BeforeFirstHasNone(s: string, p: string, i: nat)
    requires p != [] && Find(s, p) == Some(i)
    ensures !Contains(s[..i], p)
  {
    if Contains(s[..i], p) {
      var j := Find(s[..i], p).value;
      assert s[..i][j..j + |p|] == s[j..j + |p|];
      assert OccursAt(s, j, p);
    }
  }

  /** No piece of a split holds the separator. */
  lemma {:induction false} SplitPiecesFree(s: string, sep: string)
    requires sep != []
    ensures forall k :: 0 <= k < |Split(s, sep)| ==> !Contains(Split(s, sep)[k], sep)
    decreases |s|
  {
    match Find(s, sep)
    case None =>
    case Some(i) =>
      var rest := s[i + |sep|..];
      SplitPiecesFree(rest, sep);
      BeforeFirstHasNone(s, sep, i);
      var r := Split(s, sep);
      assert r == [s[..i]] + Split(rest, sep);
      forall k | 0 <= k < |r|
        ensures !Contains(r[k], sep)
      {
        if k > 0 { assert r[k] == Split(rest, sep)[k - 1]; }
      }
  }

  /** `s.replace(pat, rep)`: every non-overlapping occurrence, left to right. */
  function Replace(s: string, pat: string, rep: string): (r: string)
    requires pat != []
    decreases |s|
  {
    match Find(s, pat)
    case None => s
    case Some(i) => s[..i] + rep + Replace(s[i + |pat|..], pat, rep)
  }

  /** A replacement no longer than the pattern never lengthens the text. */
  lemma {:induction false} ReplaceNoLonger(s: string, pat: string, rep: string)
    requires pat != [] && |rep| <= |pat|
    ensures |Replace(s, pat, rep)| <= |s|
    decreases |s|
  {
    match Find(s, pat)
    case None =>
    case Some(i) =>
      var rest := s[i + |pat|..];
      ReplaceNoLonger(rest, pat, rep);
      ReplaceAtFirst(s, pat, rep, i, rest);
  }

  /** A string without the pattern is left as it is. */
  lemma ReplaceWithout(s: string, pat: string, rep: string)
    requires pat != [] && !Contains(s, pat)
    ensures Replace(s, pat, rep) == s
  {
  }

  /** `replace` is `split` followed by `join` with the replacement. */
  lemma {:induction false} ReplaceIsSplitJoin(s: string, pat: string, rep: string)
    requires pat != []
    ensures Replace(s, pat, rep) == Join(Split(s, pat), rep)
    decreases |s|
  {
    match Find(s, pat)
    case None =>
    case Some(i) =>
      ReplaceIsSplitJoin(s[i + |pat|..], pat, rep);
  }

  /** Replacement keeps the first character of a string that does not start
      with the pattern's first character. */
  lemma ReplaceKeepsFirst(s: string, pat: string, rep: string)
    requires pat != [] && s != [] && s[0] != pat[0]
    ensures var r := Replace(s, pat, rep); r != [] && r[0] == s[0]
  {
    match Find(s, pat)
    case None =>
    case Some(i) =>
      assert s[i..i + |pat|][0] == s[i];
      assert i > 0;
  }

  /** Replacing " AND "-like patterns (which start and end with the same
      character as the replacement) keeps both ends of a string that starts
      and ends with a different character. */
  lemma ReplaceKeepsEnds(s: string, pat: string, rep: string)
    requires pat != [] && rep != [] && s != []
    requires pat[|pat| - 1] == rep[|rep| - 1]
    requires s[0] != pat[0] && s[|s| - 1] != pat[|pat| - 1]
    ensures var r := Replace(s, pat, rep);
            r != [] && r[0] == s[0] && r[|r| - 1] == s[|s| - 1]
  {
    ReplaceKeepsFirst(s, pat, rep);
    ReplaceTailEnd(s, pat, rep);
  }

  /** Replacement inside a non-empty string whose last character is not the
      pattern's edge character keeps that last character. */
  lemma {:induction false} ReplaceTailEnd(s: string, pat: string, rep: string)
    requires pat != [] && rep != [] && s != []
    requires pat[|pat| - 1] == rep[|rep| - 1]
    requires s[|s| - 1] != pat[|pat| - 1]
    ensures var r := Replace(s, pat, rep);
            r != [] && r[|r| - 1] == s[|s| - 1]
    decreases |s|
  {
    match Find(s, pat)
    case None =>
    case Some(i) =>
      var rest := s[i + |pat|..];
      OccurrenceBeforeEnd(s, pat, i);
      ReplaceAtFirst(s, pat, rep, i, rest);
      assert rest[|rest| - 1] == s[|s| - 1];
      ReplaceTailEnd(rest, pat, rep);
      LastOfAppend(s[..i] + rep, Replace(rest, pat, rep));
  }

  /** An occurrence of `p` ends before the end of `s` when the last
      characters of the two differ. */
  lemma OccurrenceBeforeEnd(s: string, p: string, i: nat)
    requires p != [] && OccursAt(s, i, p) && s[|s| - 1] != p[|p| - 1]
    ensures i + |p| < |s|
  {
    assert s[i..i + |p|][|p| - 1] == s[i + |p| - 1];
  }

  lemma LastOfAppend<T>(a: seq<T>, b: seq<T>)
    requires b != []
    ensures a + b != [] && (a + b)[|a + b| - 1] == b[|b| - 1]
  {
  }

  /** Every `a` of `s` becomes `b`; every other character stays. */
  function SubstChar(s: string, a: char, b: char): (r: string)
    ensures |r| == |s|
    ensures a !in s ==> r == s
    ensures forall c :: c in r ==> c == b || (c != a && c in s)
  {
    if s == [] then []
    else [if s[0] == a then b else s[0]] + SubstChar(s[1..], a, b)
  }

  lemma {:induction false} SubstCharAt(s: string, a: char, b: char, k: nat)
    requires k < |s|
    ensures SubstChar(s, a, b)[k] == if s[k] == a then b else s[k]
  {
    if k > 0 {
      SubstCharAt(s[1..], a, b, k - 1);
    }
  }

  lemma CharOccursAt(s: string, k: nat, a: char)
    requires k < |s|
    ensures OccursAt(s, k, [a]) <==> s[k] == a
  {
    assert s[k..k + 1] == [s[k]];
  }

  lemma {:induction false} SubstCharConcat(x: string, y: string, a: char, b: char)
    ensures SubstChar(x + y, a, b) == SubstChar(x, a, b) + SubstChar(y, a, b)
  {
    if x == [] {
      assert x + y == y;
    } else {
      assert (x + y)[1..] == x[1..] + y;
      SubstCharConcat(x[1..], y, a, b);
    }
  }

  /** Replacing a one-character pattern by one character is a substitution
      character by character. */
  lemma {:induction false} ReplaceSingleChar(s: string, a: char, b: char)
    ensures Replace(s, [a], [b]) == SubstChar(s, a, b)
    decreases |s|
  {
    match Find(s, [a])
    case None =>
      forall k | 0 <= k < |s|
        ensures s[k] != a
      {
        CharOccursAt(s, k, a);
      }
    case Some(i) =>
      var rest := s[i + 1..];
      ReplaceSingleChar(rest, a, b);
      ReplaceAtFirst(s, [a], [b], i, rest);
      HeadFree(s, a, b, i);
      CharOccursAt(s, i, a);
      SubstAtFirst(s, a, b, i, rest, Replace(s, [a], [b]));
  }

  /** The step of `ReplaceSingleChar` at the first occurrence `i`. */
  lemma SubstAtFirst(s: string, a: char, b: char, i: nat, rest: string, r: string)
    requires i < |s| && s[i] == a && rest == s[i + 1..]
    requires SubstChar(s[..i], a, b) == s[..i]
    requires r == s[..i] + [b] + SubstChar(rest, a, b)
    ensures r == SubstChar(s, a, b)
  {
    var head := s[..i];
    SplitAtIndex(s, i);
    SubstCharConcat(head + [a], rest, a, b);
    SubstCharConcat(head, [a], a, b);
    assert SubstChar([a], a, b) == [b];
  }

  /** A sequence is its part before `i`, its element at `i`, and the rest. */
  lemma SplitAtIndex<T>(s: seq<T>, i: nat)
    requires i < |s|
    ensures s == s[..i] + [s[i]] + s[i + 1..]
  {
  }

  lemma ReplaceAtFirst(s: string, pat: string, rep: string, i: nat, rest: string)
    requires pat != [] && Find(s, pat) == Some(i) && rest == s[i + |pat|..]
    ensures Replace(s, pat, rep) == s[..i] + rep + Replace(rest, pat, rep)
  {
    match Find(s, pat)
    case Some(j) =>
      assert j == i;
  }

  /** Before the first occurrence of a character the substitution changes
      nothing. */
  lemma HeadFree(s: string, a: char, b: char, i: nat)
    requires Find(s, [a]) == Some(i)
    ensures SubstChar(s[..i], a, b) == s[..i]
  {
    forall k | 0 <= k < i
      ensures s[k] != a
    {
      CharOccursAt(s, k, a);
    }
    assert a !in s[..i];
  }

  // ---------------------------------------------------------------------------
  // ASCII case mapping and `title()`

  predicate IsUpper(c: char) { 'A' <= c <= 'Z' }
  predicate IsLower(c: char) { 'a' <= c <= 'z' }
  predicate IsLetter(c: char) { IsUpper(c) || IsLower(c) }

  function ToLowerChar(c: char): (r: char)
    ensures IsLetter(c) <==> IsLower(r)
    ensures !IsLetter(c) ==> r == c
  {
    if IsUpper(c) then (c as int + 32) as char else c
  }

  function ToUpperChar(c: char): (r: char)
    ensures IsLetter(c) <==> IsUpper(r)
    ensures !IsLetter(c) ==> r == c
  {
    if IsLower(c) then (c as int - 32) as char else c
  }

  /** `s.lower()` restricted to ASCII letters. */
  function Lower(s: string): (r: string)
    ensures |r| == |s|
    ensures forall i :: 0 <= i < |s| ==> r[i] == ToLowerChar(s[i])
  {
    seq(|s|, i requires 0 <= i < |s| => ToLowerChar(s[i]))
  }

  /** The character `title()` puts at index `i` of `s`. */
  function TitleChar(s: string, i: nat): (c: char)
    requires i < |s|
    ensures !IsLetter(s[i]) ==> c == s[i]
    ensures IsLetter(s[i]) ==> (IsUpper(c) <==> (i == 0 || !IsLetter(s[i - 1])))
    ensures ToLowerChar(c) == ToLowerChar(s[i])
  {
    if i == 0 || !IsLetter(s[i - 1]) then ToUpperChar(s[i]) else ToLowerChar(s[i])
  }

  /** `s.title()` restricted to ASCII letters: a letter is upper-cased when the
      character before it is not a letter, and lower-cased otherwise. */
  function TitleCase(s: string): (r: string)
    ensures |r| == |s|
    ensures forall i :: 0 <= i < |s| ==> r[i] == TitleChar(s, i)
  {
    seq(|s|, i requires 0 <= i < |s| => TitleChar(s, i))
  }

  // ---------------------------------------------------------------------------
  // `str(int)` and its inverse

  predicate IsDigit(c: char) { '0' <= c <= '9' }

  function DigitChar(d: nat): (c: char)
    requires d < 10
    ensures IsDigit(c)
  {
    ('0' as int + d) as char
  }

  /** Decimal digits of `n`, with no leading zero. */
  function NatToString(n: nat): (r: string)
    ensures r != []
    ensures forall i :: 0 <= i < |r| ==> IsDigit(r[i])
    ensures r[0] == '0' ==> n == 0
  {
    if n < 10 then [DigitChar(n)] else NatToString(n / 10) + [DigitChar(n % 10)]
  }

  /** `str(i)` for a Python integer. */
  function IntToString(i: int): (r: string)
    ensures r != []
    ensures i < 0 <==> r[0] == '-'
  {
    if i < 0 then "-" + NatToString(-i) else NatToString(i)
  }

  /** The value of a string of decimal digits. */
  function DigitsValue(s: string): nat
    requires forall i :: 0 <= i < |s| ==> IsDigit(s[i])
  {
    if s == [] then 0
    else
      var last := s[|s| - 1];
      assert IsDigit(last);
      10 * DigitsValue(s[..|s| - 1]) + (last as int - '0' as int)
  }

  lemma {:induction false} NatToStringRoundTrip(n: nat)
    ensures DigitsValue(NatToString(n)) == n
  {
    if n >= 10 {
      var s := NatToString(n);
      assert s[..|s| - 1] == NatToString(n / 10);
      NatToStringRoundTrip(n / 10);
    }
  }

  /** `str` is injective on integers. */
  lemma IntToStringInjective(a: int, b: int)
    requires IntToString(a) == IntToString(b)
    ensures a == b
  {
    if a < 0 {
      assert NatToString(-a) == IntToString(a)[1..];
      NatToStringRoundTrip(-a);
      NatToStringRoundTrip(-b);
    } else {
      NatToStringRoundTrip(a);
      NatToStringRoundTrip(b);
    }
  }

  // ---------------------------------------------------------------------------
  // Python string ordering (code point by code point)

  /** `a <= b` on Python strings. */
  predicate LexLe(a: string, b: string) {
    a == [] || (b != [] && (a[0] < b[0] || (a[0] == b[0] && LexLe(a[1..], b[1..]))))
  }

  lemma {:induction false} LexLeReflexive(a: string)
    ensures LexLe(a, a)
  {
    if a != [] { LexLeReflexive(a[1..]); }
  }

  lemma {:induction false} LexLeTotal(a: string, b: string)
    ensures LexLe(a, b) || LexLe(b, a)
  {
    if a != [] && b != [] && a[0] == b[0] { LexLeTotal(a[1..], b[1..]); }
  }

  lemma {:induction false} LexLeTransitive(a: string, b: string, c: string)
    requires LexLe(a, b) && LexLe(b, c)
    ensures LexLe(a, c)
  {
    if a != [] && a[0] == b[0] && b[0] == c[0] {
      LexLeTransitive(a[1..], b[1..], c[1..]);
    }
  }

  lemma {:induction false} LexLeAntisymmetric(a: string, b: string)
    requires LexLe(a, b) && LexLe(b, a)
    ensures a == b
  {
    if a != [] {
      LexLeAntisymmetric(a[1..], b[1..]);
      assert a == [a[0]] + a[1..];
      assert b == [b[0]] + b[1..];
    }
  }
}
