/**
  The value types of the survey pipeline: authors and papers, their
  structural equality, the string their hash is taken of, their display
  form, and the two citation helpers the reference reconciler calls
  (`get_citation` and `references_entry`).
 */
module DataModels {
  import opened Strings
  import opened Seqs

  /** An author; either name may be empty when unknown. */
  datatype Author = Author(firstName: string, lastName: string)

  /** A research paper. `year` is -1 when unknown; `venue`, `url` and
      `summary` are empty when unknown. */
  datatype Paper = Paper(
    title: string,
    authors: seq<Author>,
    year: int,
    venue: string,
    url: string,
    summary: string)

  /** The right-hand operand of a Python `==`: an author, a paper, or any other
      object. */
  datatype Value = AuthorValue(author: Author) | PaperValue(paper: Paper) | OtherValue

  // ---------------------------------------------------------------------------
  // Equality and hashing

  /** `Author.__eq__`: both names match; no other kind of object is equal. */
  function AuthorEquals(self: Author, other: Value): (r: bool)
    ensures r <==> other == AuthorValue(self)
  {
    match other
    case AuthorValue(a) => self.firstName == a.firstName && self.lastName == a.lastName
    case _ => false
  }

  /** `a == b` on two lists of authors: same length and `Author.__eq__`
      element by element. */
  function AuthorListEquals(a: seq<Author>, b: seq<Author>): (r: bool)
    ensures r <==> a == b
  {
    if |a| != |b| then false
    else if a == [] then true
    else
      assert a == [a[0]] + a[1..] && b == [b[0]] + b[1..];
      AuthorEquals(a[0], AuthorValue(b[0])) && AuthorListEquals(a[1..], b[1..])
  }

  /** `Paper.__eq__`: all six fields match, authors element by element; no
      other kind of object is equal. */
  function PaperEquals(self: Paper, other: Value): (r: bool)
    ensures r <==> other == PaperValue(self)
  {
    match other
    case PaperValue(p) =>
      && self.title == p.title
      && AuthorListEquals(self.authors, p.authors)
      && self.year == p.year
      && self.venue == p.venue
      && self.url == p.url
      && self.summary == p.summary
    case _ => false
  }

  /** The string `Paper.__hash__` hashes: title, the authors' concatenated
      names joined by ",", the year, venue, url and summary, run together. */
  function HashKey(p: Paper): (r: string)
    ensures |p.title| + |IntToString(p.year)| + |p.summary| <= |r|
    ensures r[..|p.title|] == p.title && r[|r| - |p.summary|..] == p.summary
  {
    var names := Join(Map(p.authors, (a: Author) => a.firstName + a.lastName), ",");
    var middle := names + IntToString(p.year) + p.venue + p.url;
    EndsOfThree(p.title, middle, p.summary);
    p.title + middle + p.summary
  }

  lemma EndsOfThree(a: string, b: string, c: string)
    ensures var s := a + b + c; |s| == |a| + |b| + |c| && s[..|a|] == a && s[|s| - |c|..] == c
  {
  }

  /** Equal papers hash alike, as Python requires of `__eq__` and `__hash__`. */
  lemma EqualPapersHashAlike(a: Paper, b: Paper)
    requires PaperEquals(a, PaperValue(b))
    ensures HashKey(a) == HashKey(b)
  {
  }

  /** The hash string does not identify a paper: two different papers can
      share it, so de-duplication through a dict rests on `__eq__`. */
  lemma HashKeyCollides()
    ensures var a := Paper("x", [], 1, "y", "", "");
            var b := Paper("x", [], 1, "", "y", "");
            HashKey(a) == HashKey(b) && !PaperEquals(a, PaperValue(b))
  {
    var a := Paper("x", [], 1, "y", "", "");
    var b := Paper("x", [], 1, "", "y", "");
    assert IntToString(1) == "1";
    assert HashKey(a) == "x" + "" + "1" + "y" + "" + "";
    assert HashKey(b) == "x" + "" + "1" + "" + "y" + "";
  }

  // ---------------------------------------------------------------------------
  // `Paper.__str__`

  /** The year shown by `__str__`. */
  function YearText(year: int): string {
    if year != -1 then IntToString(year) else "Unknown Year"
  }

  function VenueText(venue: string): string {
    if venue != "" then venue else "Unknown Venue"
  }

  function UrlText(url: string): string {
    if url != "" then url else "Unknown URL"
  }

  function SummaryText(summary: string): string {
    if summary != "" then summary else "No summary available."
  }

  /** "Unknown Year" is shown exactly for the unknown-year sentinel. */
  lemma YearTextUnknownIff(year: int)
    ensures YearText(year) == "Unknown Year" <==> year == -1
  {
    if year != -1 {
      var s := IntToString(year);
      if year >= 0 {
        assert IsDigit(NatToString(year)[0]);
      }
      assert s[0] != 'U';
    }
  }

  /** An author as `__str__` lists them: "first last", stripped. */
  function AuthorDisplay(a: Author): string {
    Strip(a.firstName + " " + a.lastName)
  }

  const Indent := "            "

  /** The text of `__str__` after its leading whitespace: every field line
      up to and including the "**Summary:** " label and value. */
  function DisplayLines(p: Paper): string {
    "##\U{A0}" + DisplayFields(p)
  }

  /** The title line, a blank line and the indented field lines. */
  function DisplayFields(p: Paper): string {
    p.title + "\n"
    + "\n"
    + Indent + "**Authors:** " + Join(Map(p.authors, AuthorDisplay), ", ") + "\n"
    + Indent + "**Year:** " + YearText(p.year) + "\n"
    + Indent + "**Venue:** " + VenueText(p.venue) + "\n"
    + Indent + "**URL:** " + UrlText(p.url) + "\n"
    + Indent + "**Summary:** " + SummaryText(p.summary)
  }

  /** `Paper.__str__`: the indented template, stripped. That removes only
      the template's own indentation at the front; at the back it also eats
      any trailing whitespace of the summary. */
  function PaperToString(p: Paper): (r: string)
    ensures r == RStrip(DisplayLines(p))
  {
    StripTemplate(p);
    Strip("\n" + Indent + DisplayLines(p) + "\n        ")
  }

  lemma {:induction false} LStripSpacePrefix(w: string, s: string)
    requires AllSpace(w)
    ensures LStrip(w + s) == LStrip(s)
    decreases |w|
  {
    if w != [] {
      assert (w + s)[1..] == w[1..] + s;
      LStripSpacePrefix(w[1..], s);
    } else {
      assert w + s == s;
    }
  }

  /** Stripping text wrapped in whitespace, which itself starts with a
      non-space, only strips its end. */
  lemma StripWrapped(w: string, d: string, t: string)
    requires AllSpace(w) && AllSpace(t)
    requires d != [] && !IsSpace(d[0])
    ensures Strip(w + d + t) == RStrip(d)
  {
    var dt := d + t;
    assert w + d + t == w + dt;
    LStripSpacePrefix(w, dt);
    assert dt[0] == d[0];
    assert LStrip(dt) == dt;
    RStripAppendSpace(d, t);
    StripIsBothEnds(w + dt);
  }

  /** The template around the display lines strips to those lines without
      their trailing whitespace. */
  lemma StripTemplate(p: Paper)
    ensures Strip("\n" + Indent + DisplayLines(p) + "\n        ") == RStrip(DisplayLines(p))
  {
    var d := DisplayLines(p);
    assert d[0] == '#' by {
      assert d == "##\U{A0}" + DisplayFields(p);
    }
    TemplateSpaces();
    StripWrapped("\n" + Indent, d, "\n        ");
  }

  /** The whitespace the template puts around the display lines. */
  lemma TemplateSpaces()
    ensures AllSpace("\n" + Indent) && AllSpace("\n        ")
  {
  }

  // ---------------------------------------------------------------------------
  // Citations and reference entries

  /** The year inside a citation: the number, or "n.d." when unknown. */
  function YearLabel(year: int): (r: string)
    ensures r == "n.d." <==> year == -1
  {
    if year == -1 then "n.d." else
      var s := IntToString(year);
      assert s[0] == '-' || IsDigit(s[0]) by {
        if year >= 0 { assert IsDigit(NatToString(year)[0]); }
      }
      s
  }

  /** Who a citation names: "Unknown Author", the one surname, "A and B", or
      "A et al." for three or more authors. */
  function CitationName(p: Paper): string {
    if |p.authors| == 0 then "Unknown Author"
    else if |p.authors| == 1 then p.authors[0].lastName
    else if |p.authors| == 2 then p.authors[0].lastName + " and " + p.authors[1].lastName
    else p.authors[0].lastName + " et al."
  }

  /** `get_citation(in_parens=False)`: "Name (Year)". */
  function NarrativeCitation(p: Paper): string {
    CitationName(p) + " (" + YearLabel(p.year) + ")"
  }

  /** `get_citation(in_parens=True)`: "(Name, Year)". */
  function ParentheticalCitation(p: Paper): string {
    "(" + CitationName(p) + ", " + YearLabel(p.year) + ")"
  }

  /** `get_citation(in_parens=...)`. */
  function GetCitation(p: Paper, inParens: bool): (r: string)
    ensures |r| >= 3 && r[|r| - 1] == ')'
    ensures inParens ==> r[0] == '('
  {
    if inParens then ParentheticalCitation(p) else NarrativeCitation(p)
  }

  /** The two forms name the same authors and year: the parenthetical one,
      without its parentheses, is the narrative one with ", " in place of
      " (" and the closing parenthesis dropped. */
  lemma CitationFormsAgree(p: Paper)
    ensures var par := GetCitation(p, true);
            var nar := GetCitation(p, false);
            var name := CitationName(p);
            && par[1..|par| - 1] == name + ", " + YearLabel(p.year)
            && nar == name + " (" + YearLabel(p.year) + ")"
  {
    var par := GetCitation(p, true);
    assert par == "(" + (CitationName(p) + ", " + YearLabel(p.year)) + ")";
  }

  /** An author in a reference entry: "last, first". */
  function AuthorReference(a: Author): string {
    if a.firstName == "" && a.lastName == "" then "Unknown Author"
    else a.lastName + ", " + a.firstName
  }

  /** `references_entry()`: "Authors (Year). Title. _Venue_." with title and
      venue title-cased and the authors joined by " and ". */
  function ReferencesEntry(p: Paper): (r: string)
    ensures Contains(r, " (" + YearLabel(p.year) + "). ")
    ensures |r| >= 2 && r[|r| - 2..] == "_."
    ensures p.authors == [] ==> |r| >= 14 && r[..14] == "Unknown Author"
  {
    var authors :=
      if p.authors == [] then "Unknown Author"
      else Join(Map(p.authors, AuthorReference), " and ");
    var year := " (" + YearLabel(p.year) + "). ";
    var rest := TitleCase(p.title) + ". _" + TitleCase(p.venue) + "_.";
    ContainsSelf(year);
    ContainsWithin(authors, year, rest, year);
    EndsOfThree(authors, year, rest);
    authors + year + rest
  }

  lemma ContainsSelf(s: string)
    ensures Contains(s, s)
  {
    assert OccursAt(s, 0, s);
  }
}
