/** RDFWriter: the RDF bibliographic record of an ebook, built as a set of
    triples (an rdflib graph is a set). */
module RDFWriter {
  import opened Strings
  import opened Optional
  import opened Numerals

  /** The fixed terms of the namespaces the record uses, named after their
      prefix (`cc`, `rdf`, `rdfs`, `dcam`, `dcterms`, `pg`, `pgterms`). */
  datatype Term =
    | CcLicense | CcWork | RdfType | RdfValue | RdfsComment | DcamMemberOf
    | DctAlternative | DctCreator | DctDescription | DctExtent | DctFormat
    | DctHasFormat | DctIsFormatOf | DctIssued | DctLanguage | DctLicense
    | DctModified | DctPublisher | DctRights | DctSubject | DctTableOfContents
    | DctTitle | DctType | DctDcmiType | DctImt | DctLcc | DctLcsh | DctRfc4646
    | PgLicense | PgtAgent | PgtAlias | PgtBirthdate | PgtBookshelf
    | PgtBookshelfScheme | PgtDeathdate | PgtDownloads | PgtEbook | PgtFile
    | PgtName | PgtWebpage

  datatype Node =
    | Fixed(term: Term)          // a fixed term
    | Relator(code: string)      // `marcrel:<code>`
    | MarcTerm(code: string)     // `pgterms:marc<code>`
    | PgFile(url: string)        // `pg:<url>`, a file
    | Agent(agentId: int)        // `pgagents:<id>`
    | EbookRef(ebookId: int)     // `URIRef(ebook:<id>)`
    | EbookLit(litId: int)       // `Literal(ebook:<id>)`: a literal holding the URI
    | Ref(uri: string)           // `URIRef(uri)`
    | Lit(text: string)          // `Literal(text)`
    | IntLit(n: int)             // `Literal(n)` of an integer
    | TypedLit(value: string, dtype: Term) // `Literal(value, datatype=dtype)`
    | Blank(id: nat)             // `BNode()`
    | ConstRef(c: Constant)      // `URIRef(ConstantText(c))`
    | ConstLit(c: Constant)      // `Literal(ConstantText(c))`

  datatype Triple = Triple(s: Node, p: Node, o: Node)

  /** The three fixed values `from_dc` writes: the license URI of the
      document, its comment, and the publisher's name. */
  datatype Constant = LicenseUri | CatalogComment | PublisherName

  /** The text of each fixed value. */
  function ConstantText(c: Constant): string {
    match c
    case LicenseUri => "https://creativecommons.org/publicdomain/zero/1.0/"
    case CatalogComment =>
      "Archives containing the RDF files for *all* our books can be downloaded at\n"
      + "            https://www.gutenberg.org/wiki/Gutenberg:Feeds#The_Complete_Project_Gutenberg_Catalog"
    case PublisherName => "Project Gutenberg"
  }

  datatype Webpage = Webpage(url: string, description: string)

  /** An author of the book; `marcrel` is the relator code. */
  datatype Author = Author(
    id: int, name: string, birthdate: Option<int>, deathdate: Option<int>,
    aliases: seq<string>, webpages: seq<Webpage>, marcrel: string)

  datatype Marc = Marc(code: string, text: string)

  datatype File = File(url: string, extent: int, modified: string, mediatypes: seq<string>)

  /** The parts of the Dublin Core record `from_dc` reads. */
  datatype Book = Book(
    id: int, title: string, releaseDate: string, rights: string, downloads: int,
    authors: seq<Author>, marcs: seq<Marc>,
    languages: seq<string>, subjects: seq<string>, loccs: seq<string>,
    categories: seq<string>, bookshelves: seq<string>,
    files: seq<File>, generatedFiles: seq<File>)

  /** An integer that is there and not zero. */
  predicate Truthy(d: Option<int>) {
    d.Some? && d.value != 0
  }

  /** The union of `f(i)` for `i < n`: what a loop adds in `n` passes. */
  function Upto(n: nat, f: nat -> set<Triple>): set<Triple> {
    if n == 0 then {} else Upto(n - 1, f) + f(n - 1)
  }

  lemma {:induction false} UptoMembers(n: nat, f: nat -> set<Triple>, t: Triple)
    ensures t in Upto(n, f) <==> exists i :: 0 <= i < n && t in f(i)
  {
    if n > 0 {
      UptoMembers(n - 1, f, t);
    }
  }

  /** Every pass's triples are in the union. */
  lemma {:induction false} UptoHas(n: nat, f: nat -> set<Triple>, i: nat)
    requires i < n
    ensures f(i) <= Upto(n, f)
  {
    if i < n - 1 {
      UptoHas(n - 1, f, i);
    }
  }

  /** The pass of the loop that added `t`. */
  lemma {:induction false} UptoPick(n: nat, f: nat -> set<Triple>, t: Triple) returns (i: nat)
    requires t in Upto(n, f)
    ensures i < n && t in f(i)
  {
    if t in f(n - 1) {
      i := n - 1;
    } else {
      i := UptoPick(n - 1, f, t);
    }
  }

  /** The book's subject node: a literal holding the ebook's URI. */
  function BookNode(id: int): Node {
    EbookLit(id)
  }

  function AgentNode(a: Author): Node {
    Agent(a.id)
  }

  /** The link from the book to an author: `dcterms:creator` for an author or
      creator, `marcrel:<code>` for any other role. */
  function LinkPredicate(marcrel: string): (p: Node)
    ensures p == Fixed(DctCreator) <==> marcrel == "aut" || marcrel == "cre"
  {
    if marcrel == "aut" || marcrel == "cre" then Fixed(DctCreator) else Relator(marcrel)
  }

  /** `marc2dc[code]`, and `pgterms:marc<code>` for codes it lacks. */
  function MarcPredicate(code: string): (p: Node)
    ensures p == Fixed(DctTitle) <==> code == "245"
    ensures p.Fixed? ==> p.term in {DctAlternative, DctTitle, DctDescription, DctTableOfContents}
    ensures !p.Fixed? ==> p == MarcTerm(code)
  {
    if code == "240" || code == "246" then Fixed(DctAlternative)
    else if code == "245" then Fixed(DctTitle)
    else if code == "500" then Fixed(DctDescription)
    else if code == "505" then Fixed(DctTableOfContents)
    else MarcTerm(code)
  }

  /** The three triples on the document node. */
  function DocTriples(): set<Triple> {
    {Triple(Ref(""), Fixed(CcLicense), ConstRef(LicenseUri)),
     Triple(Ref(""), Fixed(RdfType), Fixed(CcWork)),
     Triple(Ref(""), Fixed(RdfsComment), ConstLit(CatalogComment))}
  }

  /** Type, publisher, license, release date, rights and downloads. */
  function BookTriples(dc: Book): set<Triple> {
    var book := BookNode(dc.id);
    {Triple(book, Fixed(RdfType), Fixed(PgtEbook)),
     Triple(book, Fixed(DctPublisher), ConstLit(PublisherName)),
     Triple(book, Fixed(DctLicense), Fixed(PgLicense)),
     Triple(book, Fixed(DctIssued), Lit(dc.releaseDate)),
     Triple(book, Fixed(DctRights), Lit(dc.rights)),
     Triple(book, Fixed(PgtDownloads), IntLit(dc.downloads))}
  }

  function AliasPart(agent: Node, aliases: seq<string>, n: nat): set<Triple> {
    Upto(n, (i: nat) => if i < |aliases| then {Triple(agent, Fixed(PgtAlias), Lit(aliases[i]))} else {})
  }

  function WebpageTriples(agent: Node, w: Webpage): set<Triple> {
    {Triple(Ref(w.url), Fixed(DctDescription), Lit(w.description)),
     Triple(agent, Fixed(PgtWebpage), Ref(w.url))}
  }

  function WebpagePart(agent: Node, pages: seq<Webpage>, n: nat): set<Triple> {
    Upto(n, (i: nat) => if i < |pages| then WebpageTriples(agent, pages[i]) else {})
  }

  /** The dates of an author, each only when truthy. */
  function DateTriples(a: Author): set<Triple> {
    (if Truthy(a.birthdate) then {Triple(AgentNode(a), Fixed(PgtBirthdate), IntLit(a.birthdate.value))} else {})
    + (if Truthy(a.deathdate) then {Triple(AgentNode(a), Fixed(PgtDeathdate), IntLit(a.deathdate.value))} else {})
  }

  /** The triples of one author, and the link from the book to it. */
  function AuthorTriples(book: Node, a: Author): set<Triple> {
    AgentTriples(a) + {AuthorLink(book, a)}
  }

  /** The triples of the author node itself. */
  function AgentTriples(a: Author): set<Triple> {
    var agent := AgentNode(a);
    {Triple(agent, Fixed(RdfType), Fixed(PgtAgent)), Triple(agent, Fixed(PgtName), Lit(a.name))}
    + DateTriples(a)
    + AliasPart(agent, a.aliases, |a.aliases|) + WebpagePart(agent, a.webpages, |a.webpages|)
  }

  /** The link from the book to the author. */
  function AuthorLink(book: Node, a: Author): Triple {
    Triple(book, LinkPredicate(a.marcrel), AgentNode(a))
  }

  function AuthorsPart(book: Node, authors: seq<Author>, n: nat): set<Triple> {
    Upto(n, (i: nat) => if i < |authors| then AuthorTriples(book, authors[i]) else {})
  }

  function MarcTriple(book: Node, m: Marc): Triple {
    Triple(book, MarcPredicate(m.code), Lit(m.text))
  }

  function MarcPart(book: Node, marcs: seq<Marc>, n: nat): set<Triple> {
    Upto(n, (i: nat) => if i < |marcs| then {MarcTriple(book, marcs[i])} else {})
  }

  /** `dc.title` after the loop over the MARC fields. */
  function NewTitle(title: string, marcs: seq<Marc>): string {
    if marcs == [] then title
    else if marcs[|marcs| - 1].code == "245" then marcs[|marcs| - 1].text
    else NewTitle(title, marcs[..|marcs| - 1])
  }

  /** One row of `vocabulary`: a blank node in the scheme holding the row. */
  function VocabRow(parent: Node, term: Node, scheme: Node, b: nat, row: string): set<Triple> {
    {Triple(Blank(b), Fixed(DcamMemberOf), scheme), Triple(Blank(b), Fixed(RdfValue), Lit(row)),
     Triple(parent, term, Blank(b))}
  }

  /** The first `n` rows of `vocabulary(parent, rows, term, scheme)`, blank
      nodes numbered from `first`. */
  function VocabPart(parent: Node, rows: seq<string>, term: Node, scheme: Node, first: nat, n: nat): set<Triple> {
    Upto(n, (i: nat) => if i < |rows| then VocabRow(parent, term, scheme, first + i, rows[i]) else {})
  }

  /** One row of `datatype`: a blank node holding the typed row. */
  function DatatypeRow(parent: Node, term: Node, dtype: Term, b: nat, row: string): set<Triple> {
    {Triple(Blank(b), Fixed(RdfValue), TypedLit(row, dtype)), Triple(parent, term, Blank(b))}
  }

  function DatatypePart(parent: Node, rows: seq<string>, term: Node, dtype: Term, first: nat, n: nat): set<Triple> {
    Upto(n, (i: nat) => if i < |rows| then DatatypeRow(parent, term, dtype, first + i, rows[i]) else {})
  }

  /** The blank nodes the media types of `files` use. */
  function MediaCount(files: seq<File>): nat {
    if files == [] then 0 else MediaCount(files[..|files| - 1]) + |files[|files| - 1].mediatypes|
  }

  /** The links of one file: its type and the two links with the ebook. */
  function FileLinks(id: int, f: File): set<Triple> {
    {Triple(PgFile(f.url), Fixed(RdfType), Fixed(PgtFile)),
     Triple(BookNode(id), Fixed(DctHasFormat), PgFile(f.url)),
     Triple(PgFile(f.url), Fixed(DctIsFormatOf), EbookRef(id))}
  }

  /** The triples of one file: links, extent and date, and media types. */
  function FileTriples(id: int, f: File, first: nat): set<Triple> {
    FileLinks(id, f)
    + {Triple(PgFile(f.url), Fixed(DctExtent), IntLit(f.extent)),
       Triple(PgFile(f.url), Fixed(DctModified), Lit(f.modified))}
    + VocabPart(PgFile(f.url), f.mediatypes, Fixed(DctFormat), Fixed(DctImt), first, |f.mediatypes|)
  }

  /** What the loop over `files` adds, blank nodes numbered from `first`. */
  function FilesPart(id: int, files: seq<File>, first: nat): set<Triple> {
    if files == [] then {}
    else
      var front := files[..|files| - 1];
      FilesPart(id, front, first) + FileTriples(id, files[|files| - 1], first + MediaCount(front))
  }

  /** Five sections added one after another add their union. */
  lemma UnionChain(g0: set<Triple>, g1: set<Triple>, g2: set<Triple>, g3: set<Triple>, g4: set<Triple>, g5: set<Triple>,
                   a: set<Triple>, b: set<Triple>, c: set<Triple>, d: set<Triple>, e: set<Triple>, whole: set<Triple>)
    requires g1 == g0 + a && g2 == g1 + b && g3 == g2 + c && g4 == g3 + d && g5 == g4 + e
    requires whole == a + b + c + d + e
    ensures g5 == g0 + whole
  {
  }

  /** One more pass of the loop over the files. */
  lemma FilesStep(id: int, files: seq<File>, first: nat, i: nat, b: nat)
    requires i < |files| && b == first + MediaCount(files[..i])
    ensures FilesPart(id, files[..i + 1], first) == FilesPart(id, files[..i], first) + FileTriples(id, files[i], b)
    ensures MediaCount(files[..i + 1]) == MediaCount(files[..i]) + |files[i].mediatypes|
  {
    assert files[..i + 1][..i] == files[..i];
  }

  /** Adding the parts of a section one after another adds the section. */
  lemma UnionStep(g0: set<Triple>, g1: set<Triple>, g2: set<Triple>, part: set<Triple>, next: set<Triple>, whole: set<Triple>)
    requires g1 == g0 + part && g2 == g1 + next && whole == part + next
    ensures g2 == g0 + whole
  {
  }

  /** The first blank node of each vocabulary section of `from_dc`. */
  function SubjectsStart(dc: Book, first: nat): nat { first + |dc.languages| }
  function LoccsStart(dc: Book, first: nat): nat { SubjectsStart(dc, first) + |dc.subjects| }
  function CategoriesStart(dc: Book, first: nat): nat { LoccsStart(dc, first) + |dc.loccs| }
  function ShelvesStart(dc: Book, first: nat): nat { CategoriesStart(dc, first) + |dc.categories| }
  function FilesStart(dc: Book, first: nat): nat { ShelvesStart(dc, first) + |dc.bookshelves| }

  function AllFiles(dc: Book): seq<File> {
    dc.files + dc.generatedFiles
  }

  /** The number of blank nodes `from_dc` creates. */
  function BlankCount(dc: Book): nat {
    FilesStart(dc, 0) + MediaCount(AllFiles(dc))
  }

  /** The languages, subjects, classes, categories and bookshelves. */
  function TermTriples(dc: Book, first: nat): set<Triple> {
    var book := BookNode(dc.id);
    DatatypePart(book, dc.languages, Fixed(DctLanguage), DctRfc4646, first, |dc.languages|)
    + VocabPart(book, dc.subjects, Fixed(DctSubject), Fixed(DctLcsh), SubjectsStart(dc, first), |dc.subjects|)
    + VocabPart(book, dc.loccs, Fixed(DctSubject), Fixed(DctLcc), LoccsStart(dc, first), |dc.loccs|)
    + VocabPart(book, dc.categories, Fixed(DctType), Fixed(DctDcmiType), CategoriesStart(dc, first), |dc.categories|)
    + VocabPart(book, dc.bookshelves, Fixed(PgtBookshelf), Fixed(PgtBookshelfScheme), ShelvesStart(dc, first), |dc.bookshelves|)
  }

  /** Section `k` of `from_dc`: the head, the authors, the MARC fields, the
      vocabularies and the files, in the order the method adds them. */
  function Section(dc: Book, first: nat, k: nat): set<Triple> {
    if k == 0 then HeadTriples(dc)
    else if k == 1 then AuthorsPart(BookNode(dc.id), dc.authors, |dc.authors|)
    else if k == 2 then MarcPart(BookNode(dc.id), dc.marcs, |dc.marcs|)
    else if k == 3 then TermTriples(dc, first)
    else if k == 4 then FilesPart(dc.id, AllFiles(dc), FilesStart(dc, first))
    else {}
  }

  /** The first `n` sections. */
  function Sections(dc: Book, first: nat, n: nat): set<Triple> {
    if n == 0 then {} else Sections(dc, first, n - 1) + Section(dc, first, n - 1)
  }

  /** Everything `from_dc(dc)` adds, blank nodes numbered from `first`. */
  function Graph(dc: Book, first: nat): set<Triple> {
    Sections(dc, first, 5)
  }

  /** The graph is the union of the five sections. */
  lemma GraphSections(dc: Book, first: nat)
    ensures Graph(dc, first)
            == HeadTriples(dc) + AuthorsPart(BookNode(dc.id), dc.authors, |dc.authors|)
               + MarcPart(BookNode(dc.id), dc.marcs, |dc.marcs|) + TermTriples(dc, first)
               + FilesPart(dc.id, AllFiles(dc), FilesStart(dc, first))
  {
    var s1 := HeadTriples(dc);
    var s2 := s1 + AuthorsPart(BookNode(dc.id), dc.authors, |dc.authors|);
    var s3 := s2 + MarcPart(BookNode(dc.id), dc.marcs, |dc.marcs|);
    var s4 := s3 + TermTriples(dc, first);
    assert Sections(dc, first, 1) == s1;
    assert Sections(dc, first, 2) == s2;
    assert Sections(dc, first, 3) == s3;
    assert Sections(dc, first, 4) == s4;
  }

  /** The document node's and the book node's own triples. */
  function HeadTriples(dc: Book): set<Triple> {
    DocTriples() + BookTriples(dc)
  }

  /** Every blank node of `t` is numbered in `[lo, hi)`. */
  predicate BlanksIn(t: Triple, lo: nat, hi: nat) {
    (t.s.Blank? ==> lo <= t.s.id < hi) && (t.p.Blank? ==> lo <= t.p.id < hi) && (t.o.Blank? ==> lo <= t.o.id < hi)
  }

  /** Every triple of `g` has its blank nodes in `[lo, hi)`. */
  predicate AllBlanksIn(g: set<Triple>, lo: nat, hi: nat) {
    forall t :: t in g ==> BlanksIn(t, lo, hi)
  }

  /** The RDF writer: the graph it builds, and the number of blank nodes
      made so far (each `BNode()` is a new node). */
  class Writer {
    var graph: set<Triple>
    var blanks: nat

    /** Every blank node in the graph was made before. */
    predicate Valid()
      reads this
    {
      AllBlanksIn(graph, 0, blanks)
    }

    constructor ()
      ensures Valid() && graph == {} && blanks == 0
    {
      graph := {};
      blanks := 0;
    }

    /** `append(s, p, o)` */
    method Append(s: Node, p: Node, o: Node)
      modifies this
      ensures graph == old(graph) + {Triple(s, p, o)} && blanks == old(blanks)
    {
      graph := graph + {Triple(s, p, o)};
    }

    /** `BNode()` */
    method NewBlank() returns (b: Node)
      modifies this
      ensures b == Blank(old(blanks)) && blanks == old(blanks) + 1 && graph == old(graph)
    {
      b := Blank(blanks);
      blanks := blanks + 1;
    }

    /** `vocabulary(parent, rows, term, scheme)` */
    method Vocabulary(parent: Node, rows: seq<string>, term: Node, scheme: Node)
      modifies this
      ensures graph == old(graph) + VocabPart(parent, rows, term, scheme, old(blanks), |rows|)
      ensures blanks == old(blanks) + |rows|
    {
      ghost var first := blanks;
      for i := 0 to |rows|
        invariant graph == old(graph) + VocabPart(parent, rows, term, scheme, first, i)
        invariant blanks == first + i
      {
        ghost var g := graph;
        var resource := NewBlank();
        Append(resource, Fixed(DcamMemberOf), scheme);
        Append(resource, Fixed(RdfValue), Lit(rows[i]));
        Append(parent, term, resource);
        assert graph == g + VocabRow(parent, term, scheme, first + i, rows[i]);
      }
    }

    /** `datatype(parent, rows, term, dtype)` */
    method Datatype(parent: Node, rows: seq<string>, term: Node, dtype: Term)
      modifies this
      ensures graph == old(graph) + DatatypePart(parent, rows, term, dtype, old(blanks), |rows|)
      ensures blanks == old(blanks) + |rows|
    {
      ghost var first := blanks;
      for i := 0 to |rows|
        invariant graph == old(graph) + DatatypePart(parent, rows, term, dtype, first, i)
        invariant blanks == first + i
      {
        ghost var g := graph;
        var resource := NewBlank();
        Append(resource, Fixed(RdfValue), TypedLit(rows[i], dtype));
        Append(parent, term, resource);
        assert graph == g + DatatypeRow(parent, term, dtype, first + i, rows[i]);
      }
    }

    /** The body of the loop over the authors. */
    method AddAuthor(book: Node, author: Author)
      modifies this
      ensures graph == old(graph) + AuthorTriples(book, author) && blanks == old(blanks)
    {
      var a := AgentNode(author);
      Append(a, Fixed(RdfType), Fixed(PgtAgent));
      Append(a, Fixed(PgtName), Lit(author.name));
      AddDates(author);
      AddAliases(a, author.aliases);
      AddWebpages(a, author.webpages);
      Append(book, LinkPredicate(author.marcrel), a);
    }

    /** The birth and death dates of an author, each when it is truthy. */
    method AddDates(author: Author)
      modifies this
      ensures graph == old(graph) + DateTriples(author) && blanks == old(blanks)
    {
      var a := AgentNode(author);
      if Truthy(author.birthdate) {
        Append(a, Fixed(PgtBirthdate), IntLit(author.birthdate.value));
      }
      if Truthy(author.deathdate) {
        Append(a, Fixed(PgtDeathdate), IntLit(author.deathdate.value));
      }
    }

    /** The loop over an author's aliases. */
    method AddAliases(a: Node, aliases: seq<string>)
      modifies this
      ensures graph == old(graph) + AliasPart(a, aliases, |aliases|) && blanks == old(blanks)
    {
      for i := 0 to |aliases|
        invariant graph == old(graph) + AliasPart(a, aliases, i) && blanks == old(blanks)
      {
        Append(a, Fixed(PgtAlias), Lit(aliases[i]));
      }
    }

    /** The loop over an author's webpages. */
    method AddWebpages(a: Node, pages: seq<Webpage>)
      modifies this
      ensures graph == old(graph) + WebpagePart(a, pages, |pages|) && blanks == old(blanks)
    {
      for i := 0 to |pages|
        invariant graph == old(graph) + WebpagePart(a, pages, i) && blanks == old(blanks)
      {
        var p := Ref(pages[i].url);
        ghost var g := graph;
        Append(p, Fixed(DctDescription), Lit(pages[i].description));
        Append(a, Fixed(PgtWebpage), p);
        assert graph == g + WebpageTriples(a, pages[i]);
      }
    }

    /** The loop over the MARC fields; returns `dc.title` as it leaves it. */
    method AddMarcs(book: Node, marcs: seq<Marc>, title0: string) returns (title: string)
      modifies this
      ensures graph == old(graph) + MarcPart(book, marcs, |marcs|) && blanks == old(blanks)
      ensures title == NewTitle(title0, marcs)
    {
      title := title0;
      for i := 0 to |marcs|
        invariant graph == old(graph) + MarcPart(book, marcs, i) && blanks == old(blanks)
        invariant title == NewTitle(title0, marcs[..i])
      {
        assert marcs[..i + 1][..i] == marcs[..i];
        var pred := MarcPredicate(marcs[i].code);
        Append(book, pred, Lit(marcs[i].text));
        if pred == Fixed(DctTitle) {
          title := marcs[i].text;
        }
      }
      assert marcs[..|marcs|] == marcs;
    }

    /** The body of the loop over the files. */
    method AddFile(id: int, file: File, ghost b: nat)
      requires blanks == b
      modifies this
      ensures graph == old(graph) + FileTriples(id, file, b)
      ensures blanks == old(blanks) + |file.mediatypes|
    {
      var f := PgFile(file.url);
      Append(f, Fixed(RdfType), Fixed(PgtFile));
      Append(BookNode(id), Fixed(DctHasFormat), f);
      Append(f, Fixed(DctIsFormatOf), EbookRef(id));
      Append(f, Fixed(DctExtent), IntLit(file.extent));
      Append(f, Fixed(DctModified), Lit(file.modified));
      Vocabulary(f, file.mediatypes, Fixed(DctFormat), Fixed(DctImt));
    }

    /** The loop over `files + generated_files`. */
    method AddFiles(id: int, files: seq<File>, ghost first: nat)
      requires blanks == first
      modifies this
      ensures graph == old(graph) + FilesPart(id, files, first)
      ensures blanks == first + MediaCount(files)
    {
      for i := 0 to |files|
        invariant graph == old(graph) + FilesPart(id, files[..i], first)
        invariant blanks == first + MediaCount(files[..i])
      {
        ghost var g := graph;
        ghost var b := first + MediaCount(files[..i]);
        AddFile(id, files[i], b);
        FilesStep(id, files, first, i, b);
        UnionStep(old(graph), g, graph, FilesPart(id, files[..i], first),
          FileTriples(id, files[i], b), FilesPart(id, files[..i + 1], first));
      }
      assert files[..|files|] == files;
    }

    /** The document node and the book node's own triples. */
    method AddHeader(dc: Book)
      modifies this
      ensures graph == old(graph) + HeadTriples(dc) && blanks == old(blanks)
    {
      Append(Ref(""), Fixed(CcLicense), ConstRef(LicenseUri));
      Append(Ref(""), Fixed(RdfType), Fixed(CcWork));
      Append(Ref(""), Fixed(RdfsComment), ConstLit(CatalogComment));
      var book := BookNode(dc.id);
      Append(book, Fixed(RdfType), Fixed(PgtEbook));
      Append(book, Fixed(DctPublisher), ConstLit(PublisherName));
      Append(book, Fixed(DctLicense), Fixed(PgLicense));
      Append(book, Fixed(DctIssued), Lit(dc.releaseDate));
      Append(book, Fixed(DctRights), Lit(dc.rights));
      Append(book, Fixed(PgtDownloads), IntLit(dc.downloads));
    }

    /** The loop over the authors. */
    method AddAuthors(book: Node, authors: seq<Author>)
      modifies this
      ensures graph == old(graph) + AuthorsPart(book, authors, |authors|) && blanks == old(blanks)
    {
      for i := 0 to |authors|
        invariant graph == old(graph) + AuthorsPart(book, authors, i) && blanks == old(blanks)
      {
        AddAuthor(book, authors[i]);
      }
    }

    /** Languages, subjects, classes, categories and bookshelves. */
    method AddTerms(dc: Book, ghost first: nat)
      requires blanks == first
      modifies this
      ensures graph == old(graph) + TermTriples(dc, first)
      ensures blanks == FilesStart(dc, first)
    {
      var book := BookNode(dc.id);
      Datatype(book, dc.languages, Fixed(DctLanguage), DctRfc4646);
      Vocabulary(book, dc.subjects, Fixed(DctSubject), Fixed(DctLcsh));
      Vocabulary(book, dc.loccs, Fixed(DctSubject), Fixed(DctLcc));
      Vocabulary(book, dc.categories, Fixed(DctType), Fixed(DctDcmiType));
      Vocabulary(book, dc.bookshelves, Fixed(PgtBookshelf), Fixed(PgtBookshelfScheme));
    }

    /** `from_dc(dc)`: adds the record's triples, numbering its blank nodes
        after those already made; returns the title it leaves in `dc`. */
    method FromDc(dc: Book) returns (title: string)
      requires Valid()
      modifies this
      ensures graph == old(graph) + Graph(dc, old(blanks))
      ensures blanks == old(blanks) + BlankCount(dc)
      ensures title == NewTitle(dc.title, dc.marcs)
      ensures Valid()
    {
      ghost var first := blanks;
      var book := BookNode(dc.id);
      ghost var g0 := graph;
      AddHeader(dc);
      ghost var g1 := graph;
      AddAuthors(book, dc.authors);
      ghost var g2 := graph;
      title := AddMarcs(book, dc.marcs, dc.title);
      ghost var g3 := graph;
      AddTerms(dc, first);
      ghost var g4 := graph;
      AddFiles(dc.id, AllFiles(dc), FilesStart(dc, first));
      GraphSections(dc, first);
      UnionChain(g0, g1, g2, g3, g4, graph, HeadTriples(dc), AuthorsPart(book, dc.authors, |dc.authors|),
        MarcPart(book, dc.marcs, |dc.marcs|), TermTriples(dc, first),
        FilesPart(dc.id, AllFiles(dc), FilesStart(dc, first)), Graph(dc, first));
      GraphBlanksFresh(dc, first);
      WidenBlanks(Graph(dc, first), first, blanks, 0, blanks);
      WidenBlanks(g0, 0, first, 0, blanks);
      UnionBlanks(g0, Graph(dc, first), 0, blanks);
    }
  }

  /** A triple with no blank node. */
  predicate NoBlank(t: Triple) {
    !t.s.Blank? && !t.p.Blank? && !t.o.Blank?
  }

  /** An author's triples hold no blank node. */
  lemma {:induction false} AuthorsNoBlank(book: Node, authors: seq<Author>, t: Triple)
    requires !book.Blank? && t in AuthorsPart(book, authors, |authors|)
    ensures NoBlank(t)
  {
    var i := UptoPick(|authors|, (i: nat) => if i < |authors| then AuthorTriples(book, authors[i]) else {}, t);
    AuthorNoBlank(book, authors[i], t);
  }

  lemma AuthorNoBlank(book: Node, a: Author, t: Triple)
    requires !book.Blank? && t in AuthorTriples(book, a)
    ensures NoBlank(t)
  {
    assert t in AgentTriples(a) || t == AuthorLink(book, a);
    var agent := AgentNode(a);
    if t in AliasPart(agent, a.aliases, |a.aliases|) {
      var j := UptoPick(|a.aliases|, (j: nat) => if j < |a.aliases| then {Triple(agent, Fixed(PgtAlias), Lit(a.aliases[j]))} else {}, t);
    } else if t in WebpagePart(agent, a.webpages, |a.webpages|) {
      var j := UptoPick(|a.webpages|, (j: nat) => if j < |a.webpages| then WebpageTriples(agent, a.webpages[j]) else {}, t);
    }
  }

  /** The MARC triples hold no blank node. */
  lemma {:induction false} MarcsNoBlank(book: Node, marcs: seq<Marc>, t: Triple)
    requires !book.Blank? && t in MarcPart(book, marcs, |marcs|)
    ensures NoBlank(t)
  {
    var i := UptoPick(|marcs|, (i: nat) => if i < |marcs| then {MarcTriple(book, marcs[i])} else {}, t);
  }

  /** `vocabulary` numbers its blank nodes from `first`, one per row. */
  lemma {:induction false} VocabBlanks(parent: Node, rows: seq<string>, term: Node, scheme: Node, first: nat, t: Triple)
    requires !parent.Blank? && !term.Blank? && !scheme.Blank?
    requires t in VocabPart(parent, rows, term, scheme, first, |rows|)
    ensures BlanksIn(t, first, first + |rows|)
  {
    var i := UptoPick(|rows|, (i: nat) => if i < |rows| then VocabRow(parent, term, scheme, first + i, rows[i]) else {}, t);
  }

  /** `datatype` numbers its blank nodes from `first`, one per row. */
  lemma {:induction false} DatatypeBlanks(parent: Node, rows: seq<string>, term: Node, dtype: Term, first: nat, t: Triple)
    requires !parent.Blank? && !term.Blank?
    requires t in DatatypePart(parent, rows, term, dtype, first, |rows|)
    ensures BlanksIn(t, first, first + |rows|)
  {
    var i := UptoPick(|rows|, (i: nat) => if i < |rows| then DatatypeRow(parent, term, dtype, first + i, rows[i]) else {}, t);
  }

  /** The files' blank nodes come after `first`, as many as their media types. */
  lemma {:induction false} FilesBlanks(id: int, files: seq<File>, first: nat, t: Triple)
    requires t in FilesPart(id, files, first)
    ensures BlanksIn(t, first, first + MediaCount(files))
  {
    var front := files[..|files| - 1];
    var f := files[|files| - 1];
    if t in FilesPart(id, front, first) {
      FilesBlanks(id, front, first, t);
    } else {
      var b := first + MediaCount(front);
      if t in VocabPart(PgFile(f.url), f.mediatypes, Fixed(DctFormat), Fixed(DctImt), b, |f.mediatypes|) {
        VocabBlanks(PgFile(f.url), f.mediatypes, Fixed(DctFormat), Fixed(DctImt), b, t);
      }
    }
  }

  /** The five vocabulary sections use consecutive blank nodes from `first`. */
  lemma TermBlanks(dc: Book, first: nat, t: Triple)
    requires t in TermTriples(dc, first)
    ensures BlanksIn(t, first, FilesStart(dc, first))
  {
    var book := BookNode(dc.id);
    if t in DatatypePart(book, dc.languages, Fixed(DctLanguage), DctRfc4646, first, |dc.languages|) {
      DatatypeBlanks(book, dc.languages, Fixed(DctLanguage), DctRfc4646, first, t);
    } else if t in VocabPart(book, dc.subjects, Fixed(DctSubject), Fixed(DctLcsh), SubjectsStart(dc, first), |dc.subjects|) {
      VocabBlanks(book, dc.subjects, Fixed(DctSubject), Fixed(DctLcsh), SubjectsStart(dc, first), t);
    } else if t in VocabPart(book, dc.loccs, Fixed(DctSubject), Fixed(DctLcc), LoccsStart(dc, first), |dc.loccs|) {
      VocabBlanks(book, dc.loccs, Fixed(DctSubject), Fixed(DctLcc), LoccsStart(dc, first), t);
    } else if t in VocabPart(book, dc.categories, Fixed(DctType), Fixed(DctDcmiType), CategoriesStart(dc, first), |dc.categories|) {
      VocabBlanks(book, dc.categories, Fixed(DctType), Fixed(DctDcmiType), CategoriesStart(dc, first), t);
    } else {
      VocabBlanks(book, dc.bookshelves, Fixed(PgtBookshelf), Fixed(PgtBookshelfScheme), ShelvesStart(dc, first), t);
    }
  }

  /** The triples before the vocabulary sections hold no blank node. */
  lemma HeadNoBlank(dc: Book, lo: nat, hi: nat)
    ensures AllBlanksIn(HeadTriples(dc), lo, hi)
  {
  }

  lemma AuthorsBlanks(dc: Book, lo: nat, hi: nat)
    ensures AllBlanksIn(AuthorsPart(BookNode(dc.id), dc.authors, |dc.authors|), lo, hi)
  {
    forall t | t in AuthorsPart(BookNode(dc.id), dc.authors, |dc.authors|) ensures BlanksIn(t, lo, hi) {
      AuthorsNoBlank(BookNode(dc.id), dc.authors, t);
    }
  }

  lemma MarcsBlanks(dc: Book, lo: nat, hi: nat)
    ensures AllBlanksIn(MarcPart(BookNode(dc.id), dc.marcs, |dc.marcs|), lo, hi)
  {
    forall t | t in MarcPart(BookNode(dc.id), dc.marcs, |dc.marcs|) ensures BlanksIn(t, lo, hi) {
      MarcsNoBlank(BookNode(dc.id), dc.marcs, t);
    }
  }

  /** The vocabulary sections use blank nodes `[first, FilesStart(dc, first))`. */
  lemma TermsBlanks(dc: Book, first: nat, hi: nat)
    requires FilesStart(dc, first) <= hi
    ensures AllBlanksIn(TermTriples(dc, first), first, hi)
  {
    forall t | t in TermTriples(dc, first) ensures BlanksIn(t, first, hi) {
      TermBlanks(dc, first, t);
    }
  }

  /** The files use blank nodes `[fs, fs + MediaCount(files))`. */
  lemma AllFilesBlanks(id: int, files: seq<File>, fs: nat, lo: nat, hi: nat)
    requires lo <= fs && fs + MediaCount(files) <= hi
    ensures AllBlanksIn(FilesPart(id, files, fs), lo, hi)
  {
    forall t | t in FilesPart(id, files, fs) ensures BlanksIn(t, lo, hi) {
      FilesBlanks(id, files, fs, t);
    }
  }

  lemma UnionBlanks(a: set<Triple>, b: set<Triple>, lo: nat, hi: nat)
    requires AllBlanksIn(a, lo, hi) && AllBlanksIn(b, lo, hi)
    ensures AllBlanksIn(a + b, lo, hi)
  {
  }

  /** A wider range holds the same blank nodes. */
  lemma WidenBlanks(g: set<Triple>, lo: nat, hi: nat, lo2: nat, hi2: nat)
    requires AllBlanksIn(g, lo, hi) && lo2 <= lo && hi <= hi2
    ensures AllBlanksIn(g, lo2, hi2)
  {
  }

  lemma UnionBlanks5(a: set<Triple>, b: set<Triple>, c: set<Triple>, d: set<Triple>, e: set<Triple>, whole: set<Triple>, lo: nat, hi: nat)
    requires AllBlanksIn(a, lo, hi) && AllBlanksIn(b, lo, hi) && AllBlanksIn(c, lo, hi)
    requires AllBlanksIn(d, lo, hi) && AllBlanksIn(e, lo, hi)
    requires whole == a + b + c + d + e
    ensures AllBlanksIn(whole, lo, hi)
  {
    UnionBlanks(a, b, lo, hi);
    UnionBlanks(a + b, c, lo, hi);
    UnionBlanks(a + b + c, d, lo, hi);
    UnionBlanks(a + b + c + d, e, lo, hi);
  }

  /** Every blank node `from_dc` puts in the graph is one of those it made:
      numbered from `first`, fewer than `BlankCount(dc)` of them. */
  lemma GraphBlanksFresh(dc: Book, first: nat)
    ensures AllBlanksIn(Graph(dc, first), first, first + BlankCount(dc))
  {
    var book := BookNode(dc.id);
    var hi := first + BlankCount(dc);
    HeadNoBlank(dc, first, hi);
    AuthorsBlanks(dc, first, hi);
    MarcsBlanks(dc, first, hi);
    TermsBlanks(dc, first, hi);
    AllFilesBlanks(dc.id, AllFiles(dc), FilesStart(dc, first), first, hi);
    GraphSections(dc, first);
    UnionBlanks5(HeadTriples(dc), AuthorsPart(book, dc.authors, |dc.authors|), MarcPart(book, dc.marcs, |dc.marcs|),
      TermTriples(dc, first), FilesPart(dc.id, AllFiles(dc), FilesStart(dc, first)), Graph(dc, first), first, hi);
  }
}
