/** What the graph of `from_dc` says: which triples it holds, in both
    directions, section by section. */
module RDFGraph {
  import opened Optional
  import opened RDFWriter

  // ---- Where a triple can come from ----

  /** An author node's own triples are about the author node, or about one
      of its webpages. */
  lemma AgentShape(a: Author, t: Triple)
    requires t in AgentTriples(a)
    ensures t.s == AgentNode(a) || (t.s.Ref? && t.p == Fixed(DctDescription))
    ensures t.s == AgentNode(a) && t.p == Fixed(PgtBirthdate) ==>
              Truthy(a.birthdate) && t.o == IntLit(a.birthdate.value)
    ensures t.s == AgentNode(a) && t.p == Fixed(PgtDeathdate) ==>
              Truthy(a.deathdate) && t.o == IntLit(a.deathdate.value)
  {
    var agent := AgentNode(a);
    if t in AliasPart(agent, a.aliases, |a.aliases|) {
      var j := UptoPick(|a.aliases|, (j: nat) => if j < |a.aliases| then {Triple(agent, Fixed(PgtAlias), Lit(a.aliases[j]))} else {}, t);
    } else if t in WebpagePart(agent, a.webpages, |a.webpages|) {
      var j := UptoPick(|a.webpages|, (j: nat) => if j < |a.webpages| then WebpageTriples(agent, a.webpages[j]) else {}, t);
    }
  }

  /** A triple of the authors' section: a link from the book, or an author node's own. */
  lemma AuthorsShape(book: Node, authors: seq<Author>, t: Triple) returns (i: nat)
    requires t in AuthorsPart(book, authors, |authors|)
    ensures i < |authors| && (t == AuthorLink(book, authors[i]) || t in AgentTriples(authors[i]))
  {
    i := UptoPick(|authors|, (i: nat) => if i < |authors| then AuthorTriples(book, authors[i]) else {}, t);
  }

  lemma MarcsShape(book: Node, marcs: seq<Marc>, t: Triple) returns (i: nat)
    requires t in MarcPart(book, marcs, |marcs|)
    ensures i < |marcs| && t == MarcTriple(book, marcs[i])
  {
    i := UptoPick(|marcs|, (i: nat) => if i < |marcs| then {MarcTriple(book, marcs[i])} else {}, t);
  }

  /** A row of `vocabulary`: the link from the parent, or a triple of row `t.s.id - first`. */
  lemma VocabShape(parent: Node, rows: seq<string>, term: Node, scheme: Node, first: nat, t: Triple)
    requires !parent.Blank? && t in VocabPart(parent, rows, term, scheme, first, |rows|)
    ensures t.s == parent ==> t.p == term && t.o.Blank?
    ensures t.s != parent ==> t.s.Blank? && first <= t.s.id < first + |rows|
    ensures t.s.Blank? && first <= t.s.id < first + |rows| ==>
              t in VocabRow(parent, term, scheme, t.s.id, rows[t.s.id - first])
  {
    var i := UptoPick(|rows|, (i: nat) => if i < |rows| then VocabRow(parent, term, scheme, first + i, rows[i]) else {}, t);
  }

  lemma DatatypeShape(parent: Node, rows: seq<string>, term: Node, dtype: Term, first: nat, t: Triple)
    requires !parent.Blank? && t in DatatypePart(parent, rows, term, dtype, first, |rows|)
    ensures t.s == parent ==> t.p == term && t.o.Blank?
    ensures t.s != parent ==> t.s.Blank? && first <= t.s.id < first + |rows|
    ensures t.s.Blank? && first <= t.s.id < first + |rows| ==>
              t in DatatypeRow(parent, term, dtype, t.s.id, rows[t.s.id - first])
  {
    var i := UptoPick(|rows|, (i: nat) => if i < |rows| then DatatypeRow(parent, term, dtype, first + i, rows[i]) else {}, t);
  }

  /** The triples of the files' section. */
  lemma {:induction false} FilesShape(id: int, files: seq<File>, first: nat, t: Triple)
    requires t in FilesPart(id, files, first)
    ensures t.s.PgFile? || t.s.Blank? || t.s == BookNode(id)
    ensures t.s == BookNode(id) ==>
              t.p == Fixed(DctHasFormat) && exists j :: 0 <= j < |files| && t.o == PgFile(files[j].url)
  {
    var front := files[..|files| - 1];
    var f := files[|files| - 1];
    if t in FilesPart(id, front, first) {
      FilesShape(id, front, first, t);
      if t.s == BookNode(id) {
        var j :| 0 <= j < |front| && t.o == PgFile(front[j].url);
        assert front[j] == files[j];
      }
    } else {
      var b := first + MediaCount(front);
      if t in VocabPart(PgFile(f.url), f.mediatypes, Fixed(DctFormat), Fixed(DctImt), b, |f.mediatypes|) {
        VocabShape(PgFile(f.url), f.mediatypes, Fixed(DctFormat), Fixed(DctImt), b, t);
      } else if t.s == BookNode(id) {
        assert t.o == PgFile(files[|files| - 1].url);
      }
    }
  }

  /** The links of every file are in the files' section. */
  lemma {:induction false} FilesHas(id: int, files: seq<File>, first: nat, j: nat)
    requires j < |files|
    ensures FileLinks(id, files[j]) <= FilesPart(id, files, first)
  {
    var front := files[..|files| - 1];
    if j < |files| - 1 {
      FilesHas(id, front, first, j);
      assert front[j] == files[j];
    }
  }

  /** The triples of the vocabulary sections. */
  lemma TermsShape(dc: Book, first: nat, t: Triple)
    requires t in TermTriples(dc, first)
    ensures t.s == BookNode(dc.id) || (t.s.Blank? && first <= t.s.id < FilesStart(dc, first))
    ensures t.s == BookNode(dc.id) ==>
              t.p in {Fixed(DctLanguage), Fixed(DctSubject), Fixed(DctType), Fixed(PgtBookshelf)} && t.o.Blank?
    ensures t.s.Blank? && first <= t.s.id < FilesStart(dc, first) ==> t in RowTriples(dc, first, t.s.id)
  {
    var book := BookNode(dc.id);
    if t in DatatypePart(book, dc.languages, Fixed(DctLanguage), DctRfc4646, first, |dc.languages|) {
      DatatypeShape(book, dc.languages, Fixed(DctLanguage), DctRfc4646, first, t);
    } else if t in VocabPart(book, dc.subjects, Fixed(DctSubject), Fixed(DctLcsh), SubjectsStart(dc, first), |dc.subjects|) {
      VocabShape(book, dc.subjects, Fixed(DctSubject), Fixed(DctLcsh), SubjectsStart(dc, first), t);
    } else if t in VocabPart(book, dc.loccs, Fixed(DctSubject), Fixed(DctLcc), LoccsStart(dc, first), |dc.loccs|) {
      VocabShape(book, dc.loccs, Fixed(DctSubject), Fixed(DctLcc), LoccsStart(dc, first), t);
    } else if t in VocabPart(book, dc.categories, Fixed(DctType), Fixed(DctDcmiType), CategoriesStart(dc, first), |dc.categories|) {
      VocabShape(book, dc.categories, Fixed(DctType), Fixed(DctDcmiType), CategoriesStart(dc, first), t);
    } else {
      VocabShape(book, dc.bookshelves, Fixed(PgtBookshelf), Fixed(PgtBookshelfScheme), ShelvesStart(dc, first), t);
    }
  }

  /** The triples of the vocabulary row whose blank node is `b`: a language,
      a subject, a class, a category or a bookshelf, by where `b` falls. */
  function RowTriples(dc: Book, first: nat, b: nat): set<Triple>
    requires first <= b < FilesStart(dc, first)
  {
    var book := BookNode(dc.id);
    if b < SubjectsStart(dc, first) then
      DatatypeRow(book, Fixed(DctLanguage), DctRfc4646, b, dc.languages[b - first])
    else if b < LoccsStart(dc, first) then
      VocabRow(book, Fixed(DctSubject), Fixed(DctLcsh), b, dc.subjects[b - SubjectsStart(dc, first)])
    else if b < CategoriesStart(dc, first) then
      VocabRow(book, Fixed(DctSubject), Fixed(DctLcc), b, dc.loccs[b - LoccsStart(dc, first)])
    else if b < ShelvesStart(dc, first) then
      VocabRow(book, Fixed(DctType), Fixed(DctDcmiType), b, dc.categories[b - CategoriesStart(dc, first)])
    else
      VocabRow(book, Fixed(PgtBookshelf), Fixed(PgtBookshelfScheme), b, dc.bookshelves[b - ShelvesStart(dc, first)])
  }

  // ---- The graph, by subject ----

  /** A triple about the book node comes from one of these places. */
  lemma BookSubject(dc: Book, first: nat, t: Triple)
    requires t in Graph(dc, first) && t.s == BookNode(dc.id)
    ensures || t in BookTriples(dc)
            || (exists i :: 0 <= i < |dc.authors| && t == AuthorLink(BookNode(dc.id), dc.authors[i]))
            || (exists i :: 0 <= i < |dc.marcs| && t == MarcTriple(BookNode(dc.id), dc.marcs[i]))
            || (t.p in {Fixed(DctLanguage), Fixed(DctSubject), Fixed(DctType), Fixed(PgtBookshelf)} && t.o.Blank?)
            || (t.p == Fixed(DctHasFormat) && exists j :: 0 <= j < |AllFiles(dc)| && t.o == PgFile(AllFiles(dc)[j].url))
  {
    var book := BookNode(dc.id);
    GraphSections(dc, first);
    if t in AuthorsPart(book, dc.authors, |dc.authors|) {
      var i := AuthorsShape(book, dc.authors, t);
      if t in AgentTriples(dc.authors[i]) {
        AgentShape(dc.authors[i], t);
      }
    } else if t in MarcPart(book, dc.marcs, |dc.marcs|) {
      var i := MarcsShape(book, dc.marcs, t);
    } else if t in TermTriples(dc, first) {
      TermsShape(dc, first, t);
    } else if t in FilesPart(dc.id, AllFiles(dc), FilesStart(dc, first)) {
      FilesShape(dc.id, AllFiles(dc), FilesStart(dc, first), t);
    }
  }

  /** A triple about an author node is one of that author's own. */
  lemma AgentSubject(dc: Book, first: nat, t: Triple) returns (i: nat)
    requires t in Graph(dc, first) && t.s.Agent?
    ensures i < |dc.authors| && t in AgentTriples(dc.authors[i]) && t.s == AgentNode(dc.authors[i])
  {
    var book := BookNode(dc.id);
    GraphSections(dc, first);
    if t in AuthorsPart(book, dc.authors, |dc.authors|) {
      i := AuthorsShape(book, dc.authors, t);
      if t in AgentTriples(dc.authors[i]) {
        AgentShape(dc.authors[i], t);
      }
    } else if t in MarcPart(book, dc.marcs, |dc.marcs|) {
      var k := MarcsShape(book, dc.marcs, t);
      assert false;
    } else if t in TermTriples(dc, first) {
      TermsShape(dc, first, t);
      assert false;
    } else if t in FilesPart(dc.id, AllFiles(dc), FilesStart(dc, first)) {
      FilesShape(dc.id, AllFiles(dc), FilesStart(dc, first), t);
      assert false;
    } else {
      HeadShape(dc, t);
      assert false;
    }
  }

  /** The head is about the document node and the book node. */
  lemma HeadShape(dc: Book, t: Triple)
    requires t in HeadTriples(dc)
    ensures t.s == Ref("") || t in BookTriples(dc)
    ensures t in BookTriples(dc) ==> t.s == BookNode(dc.id)
  {
  }

  // ---- What the graph says ----

  /** The book is linked to an author by `dcterms:creator` exactly when the
      author's role is `aut` or `cre`. */
  lemma CreatorIff(dc: Book, first: nat, x: Node)
    ensures Triple(BookNode(dc.id), Fixed(DctCreator), x) in Graph(dc, first)
            <==> exists i :: 0 <= i < |dc.authors| && (dc.authors[i].marcrel == "aut" || dc.authors[i].marcrel == "cre")
                             && x == AgentNode(dc.authors[i])
  {
    LinkIff(dc, first, Fixed(DctCreator), x);
  }

  /** Any other role links the book to the author by `marcrel:<role>`. */
  lemma RelatorIff(dc: Book, first: nat, code: string, x: Node)
    ensures Triple(BookNode(dc.id), Relator(code), x) in Graph(dc, first)
            <==> exists i :: 0 <= i < |dc.authors| && dc.authors[i].marcrel == code && code != "aut" && code != "cre"
                             && x == AgentNode(dc.authors[i])
  {
    LinkIff(dc, first, Relator(code), x);
  }

  lemma LinkIff(dc: Book, first: nat, p: Node, x: Node)
    requires p == Fixed(DctCreator) || p.Relator?
    ensures Triple(BookNode(dc.id), p, x) in Graph(dc, first)
            <==> exists i :: 0 <= i < |dc.authors| && LinkPredicate(dc.authors[i].marcrel) == p && x == AgentNode(dc.authors[i])
  {
    if Triple(BookNode(dc.id), p, x) in Graph(dc, first) {
      var i := LinkFound(dc, first, p, x);
    }
    if exists i :: 0 <= i < |dc.authors| && LinkPredicate(dc.authors[i].marcrel) == p && x == AgentNode(dc.authors[i]) {
      var i :| 0 <= i < |dc.authors| && LinkPredicate(dc.authors[i].marcrel) == p && x == AgentNode(dc.authors[i]);
      AuthorInGraph(dc, first, i);
    }
  }

  lemma LinkFound(dc: Book, first: nat, p: Node, x: Node) returns (i: nat)
    requires p == Fixed(DctCreator) || p.Relator?
    requires Triple(BookNode(dc.id), p, x) in Graph(dc, first)
    ensures i < |dc.authors| && LinkPredicate(dc.authors[i].marcrel) == p && x == AgentNode(dc.authors[i])
  {
    var book := BookNode(dc.id);
    var t := Triple(book, p, x);
    BookSubject(dc, first, t);
    i :| 0 <= i < |dc.authors| && t == AuthorLink(book, dc.authors[i]);
  }

  /** Each author's triples are in the graph. */
  lemma AuthorInGraph(dc: Book, first: nat, i: nat)
    requires i < |dc.authors|
    ensures AuthorTriples(BookNode(dc.id), dc.authors[i]) <= Graph(dc, first)
  {
    AuthorsHas(dc, i);
    GraphSections(dc, first);
  }

  /** Each author's triples are in the graph. */
  lemma AuthorsHas(dc: Book, i: nat)
    requires i < |dc.authors|
    ensures AuthorTriples(BookNode(dc.id), dc.authors[i]) <= AuthorsPart(BookNode(dc.id), dc.authors, |dc.authors|)
  {
    var book := BookNode(dc.id);
    UptoHas(|dc.authors|, (i: nat) => if i < |dc.authors| then AuthorTriples(book, dc.authors[i]) else {}, i);
  }

  /** The graph holds a `dcterms:title` for exactly the texts of the 245 fields. */
  lemma TitleIff(dc: Book, first: nat, text: string)
    ensures Triple(BookNode(dc.id), Fixed(DctTitle), Lit(text)) in Graph(dc, first)
            <==> exists i :: 0 <= i < |dc.marcs| && dc.marcs[i].code == "245" && dc.marcs[i].text == text
  {
    var book := BookNode(dc.id);
    var t := Triple(book, Fixed(DctTitle), Lit(text));
    if t in Graph(dc, first) {
      BookSubject(dc, first, t);
    }
    if exists i :: 0 <= i < |dc.marcs| && dc.marcs[i].code == "245" && dc.marcs[i].text == text {
      var i :| 0 <= i < |dc.marcs| && dc.marcs[i].code == "245" && dc.marcs[i].text == text;
      UptoHas(|dc.marcs|, (i: nat) => if i < |dc.marcs| then {MarcTriple(book, dc.marcs[i])} else {}, i);
      GraphSections(dc, first);
    }
  }

  /** A birth or death date is in the graph exactly when an author with that
      id has it and it is truthy (a date of 0 is left out). */
  lemma DatesIff(dc: Book, first: nat, id: int, y: int)
    ensures Triple(Agent(id), Fixed(PgtBirthdate), IntLit(y)) in Graph(dc, first)
            <==> exists i :: 0 <= i < |dc.authors| && dc.authors[i].id == id && Truthy(dc.authors[i].birthdate)
                             && dc.authors[i].birthdate.value == y
    ensures Triple(Agent(id), Fixed(PgtDeathdate), IntLit(y)) in Graph(dc, first)
            <==> exists i :: 0 <= i < |dc.authors| && dc.authors[i].id == id && Truthy(dc.authors[i].deathdate)
                             && dc.authors[i].deathdate.value == y
  {
    var book := BookNode(dc.id);
    var tb := Triple(Agent(id), Fixed(PgtBirthdate), IntLit(y));
    var td := Triple(Agent(id), Fixed(PgtDeathdate), IntLit(y));
    if tb in Graph(dc, first) {
      var i := AgentSubject(dc, first, tb);
      AgentShape(dc.authors[i], tb);
    }
    if td in Graph(dc, first) {
      var i := AgentSubject(dc, first, td);
      AgentShape(dc.authors[i], td);
    }
    if exists i :: 0 <= i < |dc.authors| && dc.authors[i].id == id && Truthy(dc.authors[i].birthdate)
                   && dc.authors[i].birthdate.value == y {
      var i :| 0 <= i < |dc.authors| && dc.authors[i].id == id && Truthy(dc.authors[i].birthdate)
               && dc.authors[i].birthdate.value == y;
      AuthorInGraph(dc, first, i);
      assert tb in DateTriples(dc.authors[i]);
    }
    if exists i :: 0 <= i < |dc.authors| && dc.authors[i].id == id && Truthy(dc.authors[i].deathdate)
                   && dc.authors[i].deathdate.value == y {
      var i :| 0 <= i < |dc.authors| && dc.authors[i].id == id && Truthy(dc.authors[i].deathdate)
               && dc.authors[i].deathdate.value == y;
      AuthorInGraph(dc, first, i);
      assert td in DateTriples(dc.authors[i]);
    }
  }

  /** The book has a format exactly for each file of `files + generated_files`. */
  lemma HasFormatIff(dc: Book, first: nat, x: Node)
    ensures Triple(BookNode(dc.id), Fixed(DctHasFormat), x) in Graph(dc, first)
            <==> exists j :: 0 <= j < |AllFiles(dc)| && x == PgFile(AllFiles(dc)[j].url)
  {
    var t := Triple(BookNode(dc.id), Fixed(DctHasFormat), x);
    if t in Graph(dc, first) {
      BookSubject(dc, first, t);
    }
    if exists j :: 0 <= j < |AllFiles(dc)| && x == PgFile(AllFiles(dc)[j].url) {
      var j :| 0 <= j < |AllFiles(dc)| && x == PgFile(AllFiles(dc)[j].url);
      FileInGraph(dc, first, j);
    }
  }

  /** Every file's type and its two links with the book are in the graph. */
  lemma FileInGraph(dc: Book, first: nat, j: nat)
    requires j < |AllFiles(dc)|
    ensures FileLinks(dc.id, AllFiles(dc)[j]) <= Graph(dc, first)
  {
    FilesHas(dc.id, AllFiles(dc), FilesStart(dc, first), j);
    GraphSections(dc, first);
  }

  /** No triple of the graph is about `URIRef(ebook:<id>)`. */
  lemma NoEbookRefSubject(dc: Book, first: nat, t: Triple)
    requires t in Graph(dc, first)
    ensures !t.s.EbookRef?
  {
    var book := BookNode(dc.id);
    GraphSections(dc, first);
    if t in AuthorsPart(book, dc.authors, |dc.authors|) {
      var i := AuthorsShape(book, dc.authors, t);
      if t in AgentTriples(dc.authors[i]) {
        AgentShape(dc.authors[i], t);
      }
    } else if t in MarcPart(book, dc.marcs, |dc.marcs|) {
      var k := MarcsShape(book, dc.marcs, t);
    } else if t in TermTriples(dc, first) {
      TermsShape(dc, first, t);
    } else if t in FilesPart(dc.id, AllFiles(dc), FilesStart(dc, first)) {
      FilesShape(dc.id, AllFiles(dc), FilesStart(dc, first), t);
    } else {
      HeadShape(dc, t);
    }
  }

  /** The book node is a literal holding the ebook's URI: it is typed
      `pgterms:ebook`, while the files' `dcterms:isFormatOf` links point at
      the URI itself, about which the graph says nothing. */
  lemma BookNodeIsLiteral(dc: Book, first: nat)
    ensures Triple(BookNode(dc.id), Fixed(RdfType), Fixed(PgtEbook)) in Graph(dc, first)
    ensures BookNode(dc.id) != EbookRef(dc.id)
    ensures forall j :: 0 <= j < |AllFiles(dc)| ==>
              Triple(PgFile(AllFiles(dc)[j].url), Fixed(DctIsFormatOf), EbookRef(dc.id)) in Graph(dc, first)
    ensures forall t :: t in Graph(dc, first) ==> t.s != EbookRef(dc.id)
  {
    GraphSections(dc, first);
    assert Triple(BookNode(dc.id), Fixed(RdfType), Fixed(PgtEbook)) in HeadTriples(dc);
    forall j | 0 <= j < |AllFiles(dc)|
      ensures Triple(PgFile(AllFiles(dc)[j].url), Fixed(DctIsFormatOf), EbookRef(dc.id)) in Graph(dc, first)
    {
      FileInGraph(dc, first, j);
    }
    forall t | t in Graph(dc, first) ensures t.s != EbookRef(dc.id) {
      NoEbookRefSubject(dc, first, t);
    }
  }

  /** The triples about the blank node of a vocabulary row are exactly that row's. */
  lemma RowExact(dc: Book, first: nat, t: Triple)
    requires t in Graph(dc, first) && t.s.Blank? && first <= t.s.id < FilesStart(dc, first)
    ensures t in RowTriples(dc, first, t.s.id)
  {
    var book := BookNode(dc.id);
    GraphSections(dc, first);
    if t in AuthorsPart(book, dc.authors, |dc.authors|) {
      AuthorsNoBlank(book, dc.authors, t);
      assert false;
    } else if t in MarcPart(book, dc.marcs, |dc.marcs|) {
      MarcsNoBlank(book, dc.marcs, t);
      assert false;
    } else if t in TermTriples(dc, first) {
      TermsShape(dc, first, t);
    } else if t in FilesPart(dc.id, AllFiles(dc), FilesStart(dc, first)) {
      FilesBlanks(dc.id, AllFiles(dc), FilesStart(dc, first), t);
      assert false;
    } else {
      HeadShape(dc, t);
      assert false;
    }
  }

  /** Every vocabulary row is in the graph. */
  lemma RowPresent(dc: Book, first: nat, b: nat)
    requires first <= b < FilesStart(dc, first)
    ensures RowTriples(dc, first, b) <= Graph(dc, first)
  {
    RowInTerms(dc, first, b);
    GraphSections(dc, first);
  }

  lemma RowInTerms(dc: Book, first: nat, b: nat)
    requires first <= b < FilesStart(dc, first)
    ensures RowTriples(dc, first, b) <= TermTriples(dc, first)
  {
    var book := BookNode(dc.id);
    if b < SubjectsStart(dc, first) {
      DatatypeHas(book, dc.languages, Fixed(DctLanguage), DctRfc4646, first, b - first);
    } else if b < LoccsStart(dc, first) {
      VocabHas(book, dc.subjects, Fixed(DctSubject), Fixed(DctLcsh), SubjectsStart(dc, first), b - SubjectsStart(dc, first));
    } else if b < CategoriesStart(dc, first) {
      VocabHas(book, dc.loccs, Fixed(DctSubject), Fixed(DctLcc), LoccsStart(dc, first), b - LoccsStart(dc, first));
    } else if b < ShelvesStart(dc, first) {
      VocabHas(book, dc.categories, Fixed(DctType), Fixed(DctDcmiType), CategoriesStart(dc, first), b - CategoriesStart(dc, first));
    } else {
      VocabHas(book, dc.bookshelves, Fixed(PgtBookshelf), Fixed(PgtBookshelfScheme), ShelvesStart(dc, first), b - ShelvesStart(dc, first));
    }
  }

  lemma VocabHas(parent: Node, rows: seq<string>, term: Node, scheme: Node, first: nat, i: nat)
    requires i < |rows|
    ensures VocabRow(parent, term, scheme, first + i, rows[i]) <= VocabPart(parent, rows, term, scheme, first, |rows|)
  {
    UptoHas(|rows|, (i: nat) => if i < |rows| then VocabRow(parent, term, scheme, first + i, rows[i]) else {}, i);
  }

  lemma DatatypeHas(parent: Node, rows: seq<string>, term: Node, dtype: Term, first: nat, i: nat)
    requires i < |rows|
    ensures DatatypeRow(parent, term, dtype, first + i, rows[i]) <= DatatypePart(parent, rows, term, dtype, first, |rows|)
  {
    UptoHas(|rows|, (i: nat) => if i < |rows| then DatatypeRow(parent, term, dtype, first + i, rows[i]) else {}, i);
  }

  // ---- The title `from_dc` leaves in the record ----

  /** Without a 245 field the title is unchanged. */
  lemma {:induction false} TitleKeptWithout245(title: string, marcs: seq<Marc>)
    requires forall i :: 0 <= i < |marcs| ==> marcs[i].code != "245"
    ensures NewTitle(title, marcs) == title
  {
    if marcs != [] {
      var front := marcs[..|marcs| - 1];
      assert forall i :: 0 <= i < |front| ==> front[i] == marcs[i];
      TitleKeptWithout245(title, front);
    }
  }

  /** With 245 fields the title is the text of the last one. */
  lemma {:induction false} TitleIsLast245(title: string, marcs: seq<Marc>, i: nat)
    requires i < |marcs| && marcs[i].code == "245"
    requires forall j :: i < j < |marcs| ==> marcs[j].code != "245"
    ensures NewTitle(title, marcs) == marcs[i].text
  {
    if i < |marcs| - 1 {
      var front := marcs[..|marcs| - 1];
      assert forall j :: 0 <= j < |front| ==> front[j] == marcs[j];
      TitleIsLast245(title, front, i);
    }
  }

  /** The title left in the record is the text of one of the graph's
      `dcterms:title` triples whenever there is a 245 field. */
  lemma {:induction false} TitleIn245(title: string, marcs: seq<Marc>) returns (i: nat)
    requires exists k :: 0 <= k < |marcs| && marcs[k].code == "245"
    ensures i < |marcs| && marcs[i].code == "245" && NewTitle(title, marcs) == marcs[i].text
  {
    var front := marcs[..|marcs| - 1];
    if marcs[|marcs| - 1].code == "245" {
      i := |marcs| - 1;
    } else {
      var k :| 0 <= k < |marcs| && marcs[k].code == "245";
      assert front[k] == marcs[k];
      i := TitleIn245(title, front);
      assert front[i] == marcs[i];
    }
  }

  lemma TitleInGraph(dc: Book, first: nat)
    requires exists k :: 0 <= k < |dc.marcs| && dc.marcs[k].code == "245"
    ensures Triple(BookNode(dc.id), Fixed(DctTitle), Lit(NewTitle(dc.title, dc.marcs))) in Graph(dc, first)
  {
    var i := TitleIn245(dc.title, dc.marcs);
    TitleIff(dc, first, NewTitle(dc.title, dc.marcs));
  }
}
