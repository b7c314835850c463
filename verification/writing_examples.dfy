/**
  Two worked inputs of the reference reconciler: a draft on which a second
  run changes the output, and the example shipped with the repository's
  tests, whose exact output is derived here.
 */
module WritingExamples {
  import opened Strings
  import opened Seqs
  import opened DataModels
  import opened Writing

  // Texts that a proof below takes apart are written as the concatenation
  // of the pieces it reasons about (the parts a formatter emits, or short
  // runs whose characters are checked one piece at a time).
  const EtAlName := "Smith et al."
  const EtAlNarrative := EtAlName + " (" + "2020" + ")"
  const EtAlHead := "Body." + "\n\n" + ReferencesHeading + "\n\n"
  const EtAlDraft := EtAlHead + EtAlNarrative
  const EtAlPaper := Paper("T", [Author("J", "Smith"), Author("K", "Doe"), Author("M", "Roe")],
                           2020, "V", "", "")
  const EtAlEntry := "Smith, J" + " and " + "Doe, K" + " and " + "Roe, M" + " (" + "2020" + "). "
                     + "T" + ". _" + "V" + "_."

  /** Both citation forms of a paper from its citation name and year label. */
  lemma CitationForms(p: Paper, name: string, year: string)
    requires CitationName(p) == name && YearLabel(p.year) == year
    ensures NarrativeCitation(p) == name + " (" + year + ")"
    ensures DropEnds(ParentheticalCitation(p)) == name + ", " + year
  {
    DropEndsOfWrapped(name + ", " + year, ParentheticalCitation(p));
  }

  lemma EtAlCitations()
    ensures NarrativeCitation(EtAlPaper) == EtAlNarrative
    ensures DropEnds(ParentheticalCitation(EtAlPaper)) == EtAlName + ", " + "2020"
  {
    TestYearLabels();
    assert CitationName(EtAlPaper) == EtAlName;
    CitationForms(EtAlPaper, EtAlName, "2020");
  }



  lemma EtAlDraftCites()
    ensures CitedPapers(EtAlDraft, [EtAlPaper], Apa) == [EtAlPaper]
  {
    EtAlCitations();
    CitedBy(EtAlPaper, EtAlNarrative, Apa);
    CitedRight(EtAlPaper, EtAlHead, EtAlNarrative, Apa);
    FilterOne(EtAlPaper, p => IsCited(p, EtAlDraft, Apa));
  }

  lemma EtAlDraftBody()
    ensures BodyOf(EtAlDraft) == "Body."
  {
    GroupLast("Body." + "\n\n" + ReferencesHeading, "\n\n", EtAlNarrative);
    PlainBodyKept("\n\n" + EtAlNarrative);
  }

  lemma PlainBodyKept(tail: string)
    ensures BodyOf("Body." + "\n\n" + ReferencesHeading + tail) == "Body."
  {
    NotContainsMissingChar("Body.", ReferencesHeading, 'R');
    BodyBeforeHeading("Body.", tail);
  }

  lemma OnePaperReferences<T>(p: Paper, f: Paper -> T)
    ensures ReferencePapers([p]) == [p]
    ensures Map([p], f) == [f(p)]
  {
    assert SortBy([p], FirstSurname) == [p] by {
      assert [p][1..] == [];
    }
    assert Dedup([p]) == [p] by {
      assert [p][..0] == [];
    }
  }

  /** The first run keeps the body and lists the paper. */
  lemma EtAlFirstRun()
    ensures CorrectReferences(EtAlDraft, [EtAlPaper], Apa) == EtAlHead + ReferencesEntry(EtAlPaper)
  {
    var p := EtAlPaper;
    EtAlDraftCites();
    EtAlDraftBody();
    OnePaperReferences(p, Apa.entry);
    assert Join([ReferencesEntry(p)], "\n\n") == ReferencesEntry(p);
  }

  /** The entry spells the surnames out and has no "et al.". */
  lemma EtAlEntryShape()
    ensures ReferencesEntry(EtAlPaper) == EtAlEntry
  {
    TestYearLabels();
    EtAlAuthors();
    EtAlTitles();
    EntryFromParts(EtAlPaper, "Smith, J" + " and " + "Doe, K" + " and " + "Roe, M", "2020", "T", "V");
  }

  lemma EtAlTitles()
    ensures TitleCase("T") == "T" && TitleCase("V") == "V"
  {
    assert TitleChar("T", 0) == 'T' && TitleChar("V", 0) == 'V';
  }

  lemma EtAlAuthors()
    ensures Join(Map(EtAlPaper.authors, AuthorReference), " and ")
            == "Smith, J" + " and " + "Doe, K" + " and " + "Roe, M"
  {
    var names := Map(EtAlPaper.authors, AuthorReference);
    assert names[0] == AuthorReference(Author("J", "Smith")) == "Smith, J";
    assert names[1] == AuthorReference(Author("K", "Doe")) == "Doe, K";
    assert names[2] == AuthorReference(Author("M", "Roe")) == "Roe, M";
    assert names == ["Smith, J", "Doe, K", "Roe, M"];
    JoinThree("Smith, J", "Doe, K", "Roe, M", " and ");
  }

  lemma EtAlEntryHasNoL()
    ensures 'l' !in ReferencesEntry(EtAlPaper)
  {
    EtAlEntryShape();
    FourAvoid('l', "Smith, J" + " and ", "Doe, K" + " and ", "Roe, M", " (" + "2020" + "). ");
    FourAvoid('l', "Smith, J" + " and " + "Doe, K" + " and " + "Roe, M" + " (" + "2020" + "). ",
              "T", ". _" + "V", "_.");
  }

  /** The reconciler is not idempotent: a draft citing a three-author paper as
      "Smith et al. (2020)" gets the entry "Smith, J and Doe, K and Roe, M
      (2020). T. _V_.", in which neither citation form of the paper occurs, so
      a second run drops the entry it has just written. */
  lemma NotIdempotent()
    ensures var out := CorrectReferences(EtAlDraft, [EtAlPaper], Apa);
            CorrectReferences(out, [EtAlPaper], Apa) != out
  {
    var out := CorrectReferences(EtAlDraft, [EtAlPaper], Apa);
    EtAlOutputHasNoL();
    EtAlOutputUncited(out);
    EtAlFirstRun();
    BodyIdempotent(EtAlDraft, [EtAlPaper], Apa);
    EtAlDraftBody();
    LongerThanHead(EtAlHead, ReferencesEntry(EtAlPaper));
  }

  lemma LongerThanHead(head: string, entry: string)
    requires entry != []
    ensures head + entry != head
  {
    assert |head + entry| > |head|;
  }

  lemma EtAlOutputHasNoL()
    ensures 'l' !in CorrectReferences(EtAlDraft, [EtAlPaper], Apa)
  {
    EtAlFirstRun();
    EtAlEntryHasNoL();
    HeadHasNoL();
    ConcatAvoids(EtAlHead, ReferencesEntry(EtAlPaper), 'l');
  }

  lemma HeadHasNoL()
    ensures 'l' !in EtAlHead
  {
  }

  lemma ConcatAvoids(a: string, b: string, c: char)
    requires c !in a && c !in b
    ensures c !in a + b
  {
  }

  /** A text without an 'l' cites the paper in neither form. */
  lemma EtAlOutputUncited(out: string)
    requires 'l' !in out
    ensures CorrectReferences(out, [EtAlPaper], Apa) == BodyOf(out) + "\n\n" + ReferencesHeading + "\n\n"
  {
    EtAlCitations();
    UncitedWithout(EtAlPaper, out, 'l', Apa);
    assert CitedPapers(out, [EtAlPaper], Apa) == [];
  }

  // ---------------------------------------------------------------------------
  // The repository's own example of `correct_references`

  const TestTitleLine := "# Literature " + "Survey on Test-" + "Driven Development"
  const TestIntro := "This is a dummy literature survey that cites some papers."
  const TestCite1 := "Author1 (2020)"
  const TestName2 := "Author2 et al."
  const TestCite2 := TestName2 + ", " + "2021"
  const TestCites := "There is " + TestCite1 + " and also " + "the other one " + "(" + TestCite2 + ")."
  const TestHead := TestTitleLine + "\n\n" + TestIntro + "\n\n"
  const TestBody := TestHead + TestCites
  const TestTail := "\n\nJust a silly " + "reference section " + "with nothing in it."
  const TestDraft := TestBody + "\n\n" + ReferencesHeading + TestTail

  const TestPaper1 := Paper("Test-Driven Development", [Author("First", "Author1")], 2020,
                            "Journal of Testing", "http://example.com/tdd", "A paper about TDD.")
  const TestPaper2 := Paper("Another Paper",
                            [Author("Second", "Author2"), Author("Third", "Author3"),
                             Author("Fourth", "Author4")],
                            2021, "Conference on Testing", "http://example.com/another",
                            "Another relevant paper.")
  const TestPaper3 := Paper("Unused Paper", [Author("Fifth", "Author5")], 2019, "Old Journal",
                            "http://example.com/unused", "An unused paper.")
  const TestPapers := [TestPaper1, TestPaper2, TestPaper3]

  const TestAuthors2Text := "Author2, Second" + " and " + "Author3, Third" + " and " + "Author4, Fourth"
  const TestEntry1 := "Author1, First" + " (" + "2020" + "). " + "Test-Driven Development" + ". _"
                      + "Journal Of Testing" + "_."
  const TestEntry2 := TestAuthors2Text + " (" + "2021" + "). " + "Another Paper" + ". _"
                      + "Conference On Testing" + "_."
  const TestExpected := TestBody + "\n\n" + ReferencesHeading + "\n\n"
                        + TestEntry1 + "\n\n" + TestEntry2

  /** The example's expected output: the body is kept, the invented section
      is replaced, the two cited papers are listed in surname order, and the
      uncited third paper is left out. */
  lemma CorrectReferencesExample()
    ensures CorrectReferences(TestDraft, TestPapers, Apa) == TestExpected
  {
    TestOutputParts();
    JoinTwo(TestEntry1, TestEntry2, "\n\n");
    AppendThree(TestBody + "\n\n" + ReferencesHeading + "\n\n", TestEntry1, "\n\n", TestEntry2);
  }

  lemma JoinTwo(a: string, b: string, sep: string)
    ensures Join([a, b], sep) == a + sep + b
  {
    assert [a, b][1..] == [b];
  }

  lemma AppendThree(h: string, a: string, b: string, c: string)
    ensures h + (a + b + c) == h + a + b + c
  {
  }

  lemma TestOutputParts()
    ensures CorrectReferences(TestDraft, TestPapers, Apa)
            == TestBody + "\n\n" + ReferencesHeading + "\n\n" + Join([TestEntry1, TestEntry2], "\n\n")
  {
    var cited := [TestPaper1, TestPaper2];
    TestDraftBody();
    TestDraftCites();
    TestReferencePapers();
    TestEntries();
    MapPair(TestPaper1, TestPaper2, Apa.entry);
    AssembleOutput(TestDraft, TestPapers, Apa, TestBody, cited, [TestEntry1, TestEntry2]);
  }



  /** The reconciler's output from its already computed parts. */
  lemma AssembleOutput(text: string, papers: seq<Paper>, style: CitationStyle,
                       body: string, cited: seq<Paper>, entries: seq<string>)
    requires BodyOf(text) == body
    requires CitedPapers(text, papers, style) == cited
    requires ReferencePapers(cited) == cited && Map(cited, style.entry) == entries
    ensures CorrectReferences(text, papers, style)
            == body + "\n\n" + ReferencesHeading + "\n\n" + Join(entries, "\n\n")
  {
  }

  // The characters of the draft, piece by piece.

  lemma TitleLineChars()
    ensures 'R' !in TestTitleLine && '5' !in TestTitleLine && TestTitleLine[0] == '#'
  {
    TitleLineAvoids('R');
    TitleLineAvoids('5');
    assert TestTitleLine[0] == '#' by {
      assert TestTitleLine == "# Literature " + ("Survey on Test-" + "Driven Development");
    }
  }

  lemma TitleLineAvoids(c: char)
    requires c !in "# Literature " && c !in "Survey on Test-" && c !in "Driven Development"
    ensures c !in TestTitleLine
  {
    FourAvoid(c, "# Literature ", "Survey on Test-", "Driven Development", "");
    assert TestTitleLine == TestTitleLine + "";
  }

  lemma IntroChars()
    ensures 'R' !in TestIntro && '5' !in TestIntro
  {
    IntroHasNoR();
    IntroHasNo5();
  }

  lemma IntroHasNoR()
    ensures 'R' !in TestIntro
  {
    FourAvoid('R', "This is a dummy ", "literature survey ", "that cites some ", "papers.");
  }

  lemma IntroHasNo5()
    ensures '5' !in TestIntro
  {
    FourAvoid('5', "This is a dummy ", "literature survey ", "that cites some ", "papers.");
  }

  lemma FourAvoid(c: char, a: string, b: string, d: string, e: string)
    requires c !in a && c !in b && c !in d && c !in e
    ensures c !in a + b + d + e
  {
  }

  lemma CitesChars()
    ensures 'R' !in TestCites && '5' !in TestCites && TestCites[|TestCites| - 1] == '.'
  {
    CitesHasNoR();
    CitesHasNo5();
    EndsOfConcat("There is " + TestCite1 + " and also " + "the other one " + "(" + TestCite2, ").");
  }

  lemma CitesHasNoR()
    ensures 'R' !in TestCites
  {
    CitesAvoid('R');
  }

  lemma CitesHasNo5()
    ensures '5' !in TestCites
  {
    CitesAvoid('5');
  }

  lemma CitesAvoid(c: char)
    requires c !in "There is " && c !in TestCite1 && c !in " and also " && c !in "the other one "
    requires c != '(' && c !in TestCite2 && c !in ")."
    ensures c !in TestCites
  {
  }

  lemma TailChars()
    ensures '5' !in TestTail && '5' !in ReferencesHeading
  {
  }

  lemma TestBodyAvoids(c: char)
    requires c !in TestTitleLine && c !in TestIntro && c !in TestCites && c != '\n'
    ensures c !in TestBody
  {
  }

  lemma TestDraftBody()
    ensures BodyOf(TestDraft) == TestBody
  {
    TitleLineChars();
    IntroChars();
    CitesChars();
    TestBodyAvoids('R');
    NotContainsMissingChar(TestBody, ReferencesHeading, 'R');
    EndsOfConcat(TestHead, TestCites);
    BodyBeforeHeading(TestBody, TestTail);
  }

  lemma EndsOfConcat(a: string, b: string)
    requires a != [] && b != []
    ensures (a + b)[0] == a[0] && (a + b)[|a + b| - 1] == b[|b| - 1]
  {
  }

  lemma TestYearLabels()
    ensures YearLabel(2019) == "2019" && YearLabel(2020) == "2020" && YearLabel(2021) == "2021"
  {
    assert IntToString(2019) == "2019";
    assert IntToString(2020) == "2020";
    assert IntToString(2021) == "2021";
  }

  lemma TestNarrative1()
    ensures NarrativeCitation(TestPaper1) == TestCite1
  {
    TestYearLabels();
    assert CitationName(TestPaper1) == "Author1";
  }

  lemma TestParenthetical2()
    ensures DropEnds(ParentheticalCitation(TestPaper2)) == TestCite2
  {
    TestYearLabels();
    assert CitationName(TestPaper2) == TestName2;
    CitationForms(TestPaper2, TestName2, "2021");
  }

  lemma DropEndsOfWrapped(inner: string, s: string)
    requires s == "(" + inner + ")"
    ensures DropEnds(s) == inner
  {
  }

  lemma TestForms3()
    ensures '5' in NarrativeCitation(TestPaper3)
    ensures '5' in DropEnds(ParentheticalCitation(TestPaper3))
  {
    TestYearLabels();
    assert CitationName(TestPaper3) == "Author5";
    CitationForms(TestPaper3, "Author5", "2019");
    LastOfNameIn("Author5", " (", "2019" + ")");
    LastOfNameIn("Author5", ", ", "2019");
  }

  lemma LastOfNameIn(name: string, sep: string, rest: string)
    requires name != []
    ensures name[|name| - 1] in name + sep + rest
  {
    assert (name + sep + rest)[|name| - 1] == name[|name| - 1];
  }

  /** A text holding a citation form of a paper cites it, and so does any
      text around it. */
  lemma CitedBy(p: Paper, form: string, style: CitationStyle)
    requires form == style.narrative(p) || form == DropEnds(style.parenthetical(p))
    ensures IsCited(p, form, style)
  {
    assert OccursAt(form, 0, form);
  }

  lemma CitedLeft(p: Paper, a: string, b: string, style: CitationStyle)
    requires IsCited(p, a, style)
    ensures IsCited(p, a + b, style)
  {
    if Contains(a, style.narrative(p)) {
      ContainsLeft(a, b, style.narrative(p));
    } else {
      ContainsLeft(a, b, DropEnds(style.parenthetical(p)));
    }
  }

  lemma CitedRight(p: Paper, a: string, b: string, style: CitationStyle)
    requires IsCited(p, b, style)
    ensures IsCited(p, a + b, style)
  {
    if Contains(b, style.narrative(p)) {
      ContainsRight(a, b, style.narrative(p));
    } else {
      ContainsRight(a, b, DropEnds(style.parenthetical(p)));
    }
  }

  /** A paper cited in the sentence with the citations is cited in the draft. */
  lemma CitedInDraft(p: Paper)
    requires IsCited(p, TestCites, Apa)
    ensures IsCited(p, TestDraft, Apa)
  {
    CitedRight(p, TestHead, TestCites, Apa);
    CitedLeft(p, TestBody, "\n\n", Apa);
    CitedLeft(p, TestBody + "\n\n", ReferencesHeading, Apa);
    CitedLeft(p, TestBody + "\n\n" + ReferencesHeading, TestTail, Apa);
  }

  lemma TestCited1()
    ensures IsCited(TestPaper1, TestDraft, Apa)
  {
    var p := TestPaper1;
    TestNarrative1();
    CitedBy(p, TestCite1, Apa);
    CitedRight(p, "There is ", TestCite1, Apa);
    var s := "There is " + TestCite1;
    CitedLeft(p, s, " and also ", Apa);
    CitedLeft(p, s + " and also ", "the other one ", Apa);
    CitedLeft(p, s + " and also " + "the other one ", "(", Apa);
    CitedLeft(p, s + " and also " + "the other one " + "(", TestCite2, Apa);
    CitedLeft(p, s + " and also " + "the other one " + "(" + TestCite2, ").", Apa);
    CitedInDraft(p);
  }

  lemma TestCited2()
    ensures IsCited(TestPaper2, TestDraft, Apa)
  {
    var p := TestPaper2;
    TestParenthetical2();
    CitedBy(p, TestCite2, Apa);
    var s := "There is " + TestCite1 + " and also " + "the other one " + "(";
    CitedRight(p, s, TestCite2, Apa);
    CitedLeft(p, s + TestCite2, ").", Apa);
    CitedInDraft(p);
  }

  /** A text lacking a character both citation forms hold does not cite. */
  lemma UncitedWithout(p: Paper, text: string, c: char, style: CitationStyle)
    requires c !in text
    requires c in style.narrative(p) && c in DropEnds(style.parenthetical(p))
    ensures !IsCited(p, text, style)
  {
    NotContainsMissingChar(text, style.narrative(p), c);
    NotContainsMissingChar(text, DropEnds(style.parenthetical(p)), c);
  }

  lemma TestDraftHasNo5()
    ensures '5' !in TestDraft
  {
    TitleLineChars();
    IntroChars();
    CitesChars();
    TailChars();
    TestBodyAvoids('5');
  }

  lemma TestNotCited3()
    ensures !IsCited(TestPaper3, TestDraft, Apa)
  {
    TestDraftHasNo5();
    TestForms3();
    UncitedWithout(TestPaper3, TestDraft, '5', Apa);
  }

  lemma FilterFirstTwo<T(!new)>(a: T, b: T, c: T, keep: T -> bool)
    requires keep(a) && keep(b) && !keep(c)
    ensures Filter([a, b, c], keep) == [a, b]
  {
    assert [c][1..] == [];
    assert Filter([c], keep) == [];
    assert [b, c][1..] == [c];
    assert Filter([b, c], keep) == [b];
    assert [a, b, c][1..] == [b, c];
  }

  lemma TestDraftCites()
    ensures CitedPapers(TestDraft, TestPapers, Apa) == [TestPaper1, TestPaper2]
  {
    TestCited1();
    TestCited2();
    TestNotCited3();
    FilterFirstTwo(TestPaper1, TestPaper2, TestPaper3, p => IsCited(p, TestDraft, Apa));
  }

  lemma SortedPair<T>(a: T, b: T, key: T -> string)
    requires LexLe(key(a), key(b))
    ensures SortBy([a, b], key) == [a, b]
  {
    assert [a, b][1..] == [b];
    assert SortBy([b], key) == [b] by {
      assert [b][1..] == [];
    }
  }



  lemma Author1BeforeAuthor2()
    ensures LexLe("Author1", "Author2")
  {
    assert "Author1"[1..] == "uthor1" && "Author2"[1..] == "uthor2";
  }

  lemma TestReferencePapers()
    ensures ReferencePapers([TestPaper1, TestPaper2]) == [TestPaper1, TestPaper2]
  {
    Author1BeforeAuthor2();
    assert FirstSurname(TestPaper1) == "Author1" && FirstSurname(TestPaper2) == "Author2";
    SortedPair(TestPaper1, TestPaper2, FirstSurname);
    DedupPair(TestPaper1, TestPaper2);
  }

  lemma TestEntries()
    ensures ReferencesEntry(TestPaper1) == TestEntry1
    ensures ReferencesEntry(TestPaper2) == TestEntry2
  {
    TestEntry1Shape();
    TestEntry2Shape();
  }

  /** `references_entry` assembled from its already computed parts. */
  lemma EntryFromParts(p: Paper, authors: string, year: string, title: string, venue: string)
    requires p.authors != [] && Join(Map(p.authors, AuthorReference), " and ") == authors
    requires YearLabel(p.year) == year
    requires TitleCase(p.title) == title && TitleCase(p.venue) == venue
    ensures ReferencesEntry(p) == authors + " (" + year + "). " + title + ". _" + venue + "_."
  {
  }

  lemma TestTitles()
    ensures TitleCase("Test-Driven Development") == "Test-Driven Development"
    ensures TitleCase("Journal of Testing") == "Journal Of Testing"
    ensures TitleCase("Another Paper") == "Another Paper"
    ensures TitleCase("Conference on Testing") == "Conference On Testing"
  {
    TestTitle1();
    TestTitle2();
    TestTitle3();
    TestTitle4();
  }

  lemma TestTitle1() ensures TitleCase("Test-Driven Development") == "Test-Driven Development" {}
  lemma TestTitle2() ensures TitleCase("Journal of Testing") == "Journal Of Testing" {}
  lemma TestTitle3() ensures TitleCase("Another Paper") == "Another Paper" {}
  lemma TestTitle4() ensures TitleCase("Conference on Testing") == "Conference On Testing" {}

  lemma TestAuthors2()
    ensures Join(Map(TestPaper2.authors, AuthorReference), " and ") == TestAuthors2Text
  {
    TestAuthorNames2();
    JoinThree("Author2, Second", "Author3, Third", "Author4, Fourth", " and ");
  }

  lemma TestAuthorNames2()
    ensures Map(TestPaper2.authors, AuthorReference) == ["Author2, Second", "Author3, Third", "Author4, Fourth"]
  {
    var names := Map(TestPaper2.authors, AuthorReference);
    assert names[0] == AuthorReference(Author("Second", "Author2")) == "Author2, Second";
    assert names[1] == AuthorReference(Author("Third", "Author3")) == "Author3, Third";
    assert names[2] == AuthorReference(Author("Fourth", "Author4")) == "Author4, Fourth";
  }

  lemma JoinThree(a: string, b: string, c: string, sep: string)
    ensures Join([a, b, c], sep) == a + sep + b + sep + c
  {
    assert [a, b, c][1..] == [b, c];
    assert [b, c][1..] == [c];
  }

  lemma TestEntry1Shape()
    ensures ReferencesEntry(TestPaper1) == TestEntry1
  {
    TestYearLabels();
    TestTitles();
    TestAuthorNames1();
    EntryFromParts(TestPaper1, "Author1, First", "2020", "Test-Driven Development", "Journal Of Testing");
  }

  lemma TestAuthorNames1()
    ensures Map(TestPaper1.authors, AuthorReference) == ["Author1, First"]
  {
    var names := Map(TestPaper1.authors, AuthorReference);
    assert names[0] == AuthorReference(Author("First", "Author1")) == "Author1, First";
  }

  lemma TestEntry2Shape()
    ensures ReferencesEntry(TestPaper2) == TestEntry2
  {
    TestYearLabels();
    TestTitles();
    TestAuthors2();
    EntryFromParts(TestPaper2, TestAuthors2Text, "2021", "Another Paper", "Conference On Testing");
  }
}
