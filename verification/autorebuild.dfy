/** AutoRebuild: which changelog statements name an ebook whose metadata
    changed, and the `--range` list handed to a rebuild. */
module AutoRebuild {
  import opened Strings
  import opened Optional
  import opened Numerals

  // The statement prefixes the changelog is matched against, as written
  // (the title update has two spaces after `set`).
  const AuthorUpdate := "update mn_books_authors "
  const AuthorDelete := "delete from mn_books_authors "
  const AuthorInsert := "insert into mn_books_authors (fk_books,"
  const TitleUpdate := "update attributes set  \"fk_attriblist\" = 245"

  // The literal text in front of the digit group of each regular expression.
  const AuthorBookText := "fk_books = "
  const AddAuthorText := "values ("
  const TitleAttribText := "where pk = "

  /** The length of the run of ASCII digits at the start of `s`. */
  function DigitRun(s: string): (k: nat)
    ensures k <= |s| && AllDigits(s[..k])
    ensures k < |s| ==> !IsDigit(s[k])
  {
    if s != [] && IsDigit(s[0]) then
      var k := 1 + DigitRun(s[1..]);
      assert s[..k] == [s[0]] + s[1..][..k - 1];
      k
    else 0
  }

  /** A match of `lit(\d\d+)` (followed by `,` when `comma`) starts at `i`:
      the literal is there and at least two digits follow it. With `comma`
      the whole digit run must be followed by `,`: a shorter run is
      followed by a digit, so backtracking finds nothing else. */
  predicate MatchAt(s: string, lit: string, comma: bool, i: int) {
    OccursAt(s, lit, i)
    && var k := DigitRun(s[i + |lit|..]);
       k >= 2 && (comma ==> i + |lit| + k < |s| && s[i + |lit| + k] == ',')
  }

  /** Group 1 of the match at `i`: the greedy `\d\d+` takes the whole run. */
  function Group(s: string, lit: string, i: int): (g: string)
    requires OccursAt(s, lit, i)
    ensures AllDigits(g)
  {
    s[i + |lit|..][..DigitRun(s[i + |lit|..])]
  }

  /** `re.search` from index `i` on. */
  function SearchFrom(s: string, lit: string, comma: bool, i: nat): (r: Option<string>)
    ensures r.Some? ==> |r.value| >= 2 && AllDigits(r.value)
    decreases |s| - i
  {
    if i + |lit| > |s| then None
    else if MatchAt(s, lit, comma, i) then Some(Group(s, lit, i))
    else SearchFrom(s, lit, comma, i + 1)
  }

  function Search(s: string, lit: string, comma: bool): (r: Option<string>)
    ensures r.Some? ==> |r.value| >= 2 && AllDigits(r.value)
  {
    SearchFrom(s, lit, comma, 0)
  }

  lemma {:induction false} SearchFromLeftmost(s: string, lit: string, comma: bool, i: nat)
    ensures SearchFrom(s, lit, comma, i).None? <==> forall j :: i <= j ==> !MatchAt(s, lit, comma, j)
    ensures SearchFrom(s, lit, comma, i).Some? ==>
              exists j :: i <= j && MatchAt(s, lit, comma, j)
                && SearchFrom(s, lit, comma, i) == Some(Group(s, lit, j))
                && forall m :: i <= m < j ==> !MatchAt(s, lit, comma, m)
    decreases |s| - i
  {
    if i + |lit| > |s| {
      forall j | i <= j ensures !MatchAt(s, lit, comma, j) {
        assert !OccursAt(s, lit, j);
      }
    } else if MatchAt(s, lit, comma, i) {
    } else {
      SearchFromLeftmost(s, lit, comma, i + 1);
      if SearchFrom(s, lit, comma, i + 1).Some? {
        var j :| i + 1 <= j && MatchAt(s, lit, comma, j)
                 && SearchFrom(s, lit, comma, i + 1) == Some(Group(s, lit, j))
                 && forall m :: i + 1 <= m < j ==> !MatchAt(s, lit, comma, m);
        assert forall m :: i <= m < j ==> !MatchAt(s, lit, comma, m);
      }
    }
  }

  /** `re.search` finds the leftmost match, and nothing only when there is none. */
  lemma SearchLeftmost(s: string, lit: string, comma: bool)
    ensures Search(s, lit, comma).None? <==> forall j :: 0 <= j ==> !MatchAt(s, lit, comma, j)
    ensures Search(s, lit, comma).Some? ==>
              exists j :: 0 <= j && MatchAt(s, lit, comma, j)
                && Search(s, lit, comma) == Some(Group(s, lit, j))
                && forall m :: 0 <= m < j ==> !MatchAt(s, lit, comma, m)
  {
    SearchFromLeftmost(s, lit, comma, 0);
  }

  /** With a trailing `,` the digit run is the only length the pattern can take. */
  lemma CommaGroupUnique(s: string, lit: string, i: int, k: nat)
    requires OccursAt(s, lit, i)
    requires i + |lit| + k < |s| && k >= 2
    requires AllDigits(s[i + |lit|..i + |lit| + k]) && s[i + |lit| + k] == ','
    ensures MatchAt(s, lit, true, i) && Group(s, lit, i) == s[i + |lit|..i + |lit| + k]
  {
    var t := s[i + |lit|..];
    assert forall m :: 0 <= m < k ==> t[m] == s[i + |lit|..i + |lit| + k][m];
  }

  /** An ebook needing a rebuild: the digits of a statement, or the
      `fk_books` of an attribute read from the database. */
  datatype Ebook = Digits(s: string) | Book(n: int)

  /** What `check_sql` gives: an ebook or `None`, or the AttributeError of a
      title update whose `where pk = ` has no match (`match` is `None`). */
  datatype Checked = Rebuild(ebook: Option<Ebook>) | TitleMissing

  function AsDigits(g: Option<string>): Option<Ebook> {
    if g.Some? then Some(Digits(g.value)) else None
  }

  /** `get_book_for_attrib`: the book of the attribute row, if there is one.
      The database compares `pk` with the digits as a number. */
  function BookForAttrib(attribBooks: map<nat, int>, attrib: string): Option<Ebook>
    requires AllDigits(attrib)
  {
    var pk := DigitsToNat(attrib);
    if pk in attribBooks then Some(Book(attribBooks[pk])) else None
  }

  /** `check_sql(sql)` */
  function CheckSql(sql: string, attribBooks: map<nat, int>): (r: Checked)
    ensures r.Rebuild? && r.ebook.Some? && r.ebook.value.Digits? ==>
              |r.ebook.value.s| >= 2 && AllDigits(r.ebook.value.s)
  {
    if StartsWith(sql, AuthorUpdate) || StartsWith(sql, AuthorDelete) then
      Rebuild(AsDigits(Search(sql, AuthorBookText, false)))
    else if StartsWith(sql, AuthorInsert) then
      Rebuild(AsDigits(Search(sql, AddAuthorText, true)))
    else if StartsWith(sql, TitleUpdate) then
      var m := Search(sql, TitleAttribText, false);
      if m.None? then TitleMissing else Rebuild(BookForAttrib(attribBooks, m.value))
    else Rebuild(None)
  }

  /** Prefixes that differ at some index cannot both start a statement. */
  lemma PrefixesExclude(sql: string, p: string, q: string, k: nat)
    requires StartsWith(sql, p) && k < |p| && k < |q| && p[k] != q[k]
    ensures !StartsWith(sql, q)
  {
    assert sql[k] == sql[..|p|][k];
  }

  predicate KnownStatement(sql: string) {
    StartsWith(sql, AuthorUpdate) || StartsWith(sql, AuthorDelete)
    || StartsWith(sql, AuthorInsert) || StartsWith(sql, TitleUpdate)
  }

  /** Statements of any other kind never name an ebook. */
  lemma OtherStatementsIgnored(sql: string, attribBooks: map<nat, int>)
    requires !KnownStatement(sql)
    ensures CheckSql(sql, attribBooks) == Rebuild(None)
  {
  }

  /** An author change names the leftmost `fk_books = NN…` book, if any. */
  lemma AuthorChangeFindsBook(sql: string, attribBooks: map<nat, int>)
    requires StartsWith(sql, AuthorUpdate) || StartsWith(sql, AuthorDelete)
    ensures CheckSql(sql, attribBooks).Rebuild?
    ensures CheckSql(sql, attribBooks).ebook.Some? <==>
              exists j :: 0 <= j && MatchAt(sql, AuthorBookText, false, j)
    ensures CheckSql(sql, attribBooks).ebook.Some? ==>
              exists j :: 0 <= j && MatchAt(sql, AuthorBookText, false, j)
                && CheckSql(sql, attribBooks).ebook == Some(Digits(Group(sql, AuthorBookText, j)))
                && forall m :: 0 <= m < j ==> !MatchAt(sql, AuthorBookText, false, m)
  {
    SearchLeftmost(sql, AuthorBookText, false);
  }

  /** An added author names the book of the leftmost `values (NN…,`. */
  lemma AuthorInsertFindsBook(sql: string, attribBooks: map<nat, int>)
    requires StartsWith(sql, AuthorInsert)
    ensures CheckSql(sql, attribBooks).Rebuild?
    ensures CheckSql(sql, attribBooks).ebook.Some? <==>
              exists j :: 0 <= j && MatchAt(sql, AddAuthorText, true, j)
    ensures CheckSql(sql, attribBooks).ebook.Some? ==>
              exists j :: 0 <= j && MatchAt(sql, AddAuthorText, true, j)
                && CheckSql(sql, attribBooks).ebook == Some(Digits(Group(sql, AddAuthorText, j)))
                && forall m :: 0 <= m < j ==> !MatchAt(sql, AddAuthorText, true, m)
  {
    PrefixesExclude(sql, AuthorInsert, AuthorUpdate, 0);
    PrefixesExclude(sql, AuthorInsert, AuthorDelete, 0);
    SearchLeftmost(sql, AddAuthorText, true);
  }

  /** A title update fails exactly when it names no attribute of two or
      more digits, and otherwise names the book that attribute belongs to. */
  lemma TitleUpdateLooksUp(sql: string, attribBooks: map<nat, int>)
    requires StartsWith(sql, TitleUpdate)
    ensures CheckSql(sql, attribBooks).TitleMissing? <==>
              forall j :: 0 <= j ==> !MatchAt(sql, TitleAttribText, false, j)
    ensures CheckSql(sql, attribBooks).Rebuild? ==>
              exists j :: 0 <= j && MatchAt(sql, TitleAttribText, false, j)
                && CheckSql(sql, attribBooks).ebook
                   == BookForAttrib(attribBooks, Group(sql, TitleAttribText, j))
  {
    PrefixesExclude(sql, TitleUpdate, AuthorUpdate, 7);
    PrefixesExclude(sql, TitleUpdate, AuthorDelete, 0);
    PrefixesExclude(sql, TitleUpdate, AuthorInsert, 0);
    SearchLeftmost(sql, TitleAttribText, false);
  }

  /** A title change whose statement names no attribute is the only error. */
  lemma OnlyTitleUpdatesFail(sql: string, attribBooks: map<nat, int>)
    requires CheckSql(sql, attribBooks).TitleMissing?
    ensures StartsWith(sql, TitleUpdate)
  {
  }

  /** The ebooks the first `n` statements name. */
  function Named(sqls: seq<string>, attribBooks: map<nat, int>, n: nat): set<Option<Ebook>>
    requires n <= |sqls|
    requires forall j :: 0 <= j < n ==> CheckSql(sqls[j], attribBooks).Rebuild?
  {
    set j | 0 <= j < n :: CheckSql(sqls[j], attribBooks).ebook
  }

  lemma NamedStep(sqls: seq<string>, attribBooks: map<nat, int>, i: nat)
    requires i < |sqls| && forall j :: 0 <= j <= i ==> CheckSql(sqls[j], attribBooks).Rebuild?
    ensures Named(sqls, attribBooks, i + 1) == Named(sqls, attribBooks, i) + {CheckSql(sqls[i], attribBooks).ebook}
  {
  }

  /** The changelog statements of the last hour gathered into `to_rebuild`;
      `None` when a title update aborts the run. */
  method CollectRebuilds(sqls: seq<string>, attribBooks: map<nat, int>)
    returns (toRebuild: Option<set<Option<Ebook>>>)
    ensures toRebuild.None? <==> exists i :: 0 <= i < |sqls| && CheckSql(sqls[i], attribBooks).TitleMissing?
    ensures toRebuild.Some? ==>
              toRebuild.value == set i | 0 <= i < |sqls| :: CheckSql(sqls[i], attribBooks).ebook
  {
    var found: set<Option<Ebook>> := {};
    for i := 0 to |sqls|
      invariant forall j :: 0 <= j < i ==> CheckSql(sqls[j], attribBooks).Rebuild?
      invariant found == Named(sqls, attribBooks, i)
    {
      var checked := CheckSql(sqls[i], attribBooks);
      if checked.TitleMissing? {
        return None;
      }
      NamedStep(sqls, attribBooks, i);
      found := found + {checked.ebook};
    }
    return Some(found);
  }

  /** `if ebook`: `None`, an empty text and the book `0` are skipped. */
  predicate Truthy(e: Option<Ebook>) {
    match e
    case None => false
    case Some(Digits(s)) => s != []
    case Some(Book(n)) => n != 0
  }

  /** The ebook as it is formatted into the list. */
  function Text(e: Ebook): string {
    match e
    case Digits(s) => s
    case Book(n) => IntToString(n)
  }

  /** The list before `strip(',')`: each truthy ebook followed by a comma, in
      the order the set is iterated. */
  function Listed(order: seq<Option<Ebook>>): string {
    if order == [] then []
    else
      var last := order[|order| - 1];
      Listed(order[..|order| - 1]) + (if Truthy(last) then Text(last.value) + "," else [])
  }

  /** The texts of the truthy ebooks, in order. */
  function Texts(order: seq<Option<Ebook>>): (ts: seq<string>)
    ensures ts == [] <==> forall i :: 0 <= i < |order| ==> !Truthy(order[i])
  {
    if order == [] then []
    else
      var last := order[|order| - 1];
      Texts(order[..|order| - 1]) + (if Truthy(last) then [Text(last.value)] else [])
  }

  /** `buildlist` as the loop of `main` builds it. */
  method BuildList(order: seq<Option<Ebook>>) returns (buildlist: string)
    ensures buildlist == StripChar(Listed(order), ',')
  {
    buildlist := "";
    for i := 0 to |order|
      invariant buildlist == Listed(order[..i])
    {
      assert order[..i + 1][..i] == order[..i];
      buildlist := if Truthy(order[i]) then buildlist + Text(order[i].value) + "," else buildlist;
    }
    assert order[..|order|] == order;
    buildlist := StripChar(buildlist, ',');
  }

  /** The command run for a non-empty list, and nothing for an empty one. */
  function Command(buildlist: string): Option<seq<string>> {
    if buildlist != [] then Some(["ebookconverter", "-v", "--build=all", "--range=" + buildlist])
    else None
  }

  /** A text that can stand between commas. */
  predicate CommaFree(t: string) {
    t != [] && forall i :: 0 <= i < |t| ==> t[i] != ','
  }

  lemma JoinSnoc(ts: seq<string>, t: string)
    requires ts != []
    ensures Join(",", ts + [t]) == Join(",", ts) + "," + t
    decreases |ts|
  {
    if |ts| > 1 {
      assert (ts + [t])[1..] == ts[1..] + [t];
      JoinSnoc(ts[1..], t);
    }
  }

  lemma {:induction false} JoinEnds(ts: seq<string>)
    requires ts != [] && forall i :: 0 <= i < |ts| ==> CommaFree(ts[i])
    ensures var j := Join(",", ts); j != [] && j[0] != ',' && j[|j| - 1] != ','
  {
    if |ts| > 1 {
      JoinEnds(ts[1..]);
    }
  }

  lemma {:induction false} ListedJoin(order: seq<Option<Ebook>>)
    requires forall i :: 0 <= i < |order| && Truthy(order[i]) ==> CommaFree(Text(order[i].value))
    ensures Texts(order) == [] ==> Listed(order) == []
    ensures Texts(order) != [] ==> Listed(order) == Join(",", Texts(order)) + ","
    ensures forall i :: 0 <= i < |Texts(order)| ==> CommaFree(Texts(order)[i])
  {
    if order != [] {
      var front := order[..|order| - 1];
      var last := order[|order| - 1];
      ListedJoin(front);
      if !Truthy(last) {
        assert Texts(order) == Texts(front) + [] == Texts(front);
        assert Listed(order) == Listed(front) + [] == Listed(front);
      } else if Texts(front) != [] {
        JoinSnoc(Texts(front), Text(last.value));
      } else {
        assert Texts(order) == [Text(last.value)];
      }
    }
  }

  /** When the ebooks' texts are comma-free, `strip(',')` leaves them joined
      by single commas. */
  lemma BuildListJoins(order: seq<Option<Ebook>>)
    requires forall i :: 0 <= i < |order| && Truthy(order[i]) ==> CommaFree(Text(order[i].value))
    ensures StripChar(Listed(order), ',') == Join(",", Texts(order))
  {
    ListedJoin(order);
    if Texts(order) != [] {
      JoinedStrip(Texts(order));
    }
  }

  /** Comma-free texts joined, with the trailing comma stripped again. */
  lemma JoinedStrip(ts: seq<string>)
    requires ts != [] && forall i :: 0 <= i < |ts| ==> CommaFree(ts[i])
    ensures StripChar(Join(",", ts) + ",", ',') == Join(",", ts)
  {
    JoinEnds(ts);
    StripTrailingComma(Join(",", ts));
  }

  lemma StripTrailingComma(j: string)
    requires j != [] && j[0] != ',' && j[|j| - 1] != ','
    ensures StripChar(j + ",", ',') == j
  {
    var s := j + ",";
    assert s[0] != ',' && s[|s| - 1] == ',';
    assert s[..|s| - 1] == j;
  }

  /** Every ebook `check_sql` names has a comma-free text. */
  lemma CheckedTextCommaFree(sql: string, attribBooks: map<nat, int>)
    requires CheckSql(sql, attribBooks).Rebuild?
    requires Truthy(CheckSql(sql, attribBooks).ebook)
    ensures CommaFree(Text(CheckSql(sql, attribBooks).ebook.value))
  {
    var e := CheckSql(sql, attribBooks).ebook.value;
    if e.Book? {
      var t := IntToString(e.n);
      if e.n >= 0 {
        assert AllDigits(t);
      } else {
        assert AllDigits(t[1..]);
        assert forall i :: 1 <= i < |t| ==> t[i] == t[1..][i - 1];
      }
    }
  }

  /** Whatever order the set is iterated in, a rebuild is started exactly
      when some statement named a truthy ebook, and its range lists each of
      those ebooks between single commas. */
  lemma RebuildStartedIffSomeBook(sqls: seq<string>, attribBooks: map<nat, int>, order: seq<Option<Ebook>>)
    requires forall i :: 0 <= i < |sqls| ==> CheckSql(sqls[i], attribBooks).Rebuild?
    requires forall e :: e in order <==> exists i :: 0 <= i < |sqls| && CheckSql(sqls[i], attribBooks).ebook == e
    ensures Command(StripChar(Listed(order), ',')).Some? <==>
              exists i :: 0 <= i < |sqls| && Truthy(CheckSql(sqls[i], attribBooks).ebook)
    ensures StripChar(Listed(order), ',') == Join(",", Texts(order))
  {
    forall i | 0 <= i < |order| && Truthy(order[i]) ensures CommaFree(Text(order[i].value)) {
      assert order[i] in order;
      var k :| 0 <= k < |sqls| && CheckSql(sqls[k], attribBooks).ebook == order[i];
      CheckedTextCommaFree(sqls[k], attribBooks);
    }
    BuildListJoins(order);
    ListedJoin(order);
    var ts := Texts(order);
    if ts != [] {
      JoinEnds(ts);
      var i :| 0 <= i < |order| && Truthy(order[i]);
      assert order[i] in order;
    } else {
      forall k | 0 <= k < |sqls| ensures !Truthy(CheckSql(sqls[k], attribBooks).ebook) {
        var e := CheckSql(sqls[k], attribBooks).ebook;
        assert e in order;
      }
    }
  }

  /*** the title branch as evidently intended ***/

  /** `check_sql` with the title branch guarded by `if match:`, as both
      author branches are: a title update that names no attribute of two
      or more digits names no ebook instead of raising. */
  function CheckSqlGuarded(sql: string, attribBooks: map<nat, int>): (r: Option<Ebook>)
    ensures CheckSql(sql, attribBooks).Rebuild? ==> r == CheckSql(sql, attribBooks).ebook
  {
    if StartsWith(sql, AuthorUpdate) || StartsWith(sql, AuthorDelete) then
      AsDigits(Search(sql, AuthorBookText, false))
    else if StartsWith(sql, AuthorInsert) then
      AsDigits(Search(sql, AddAuthorText, true))
    else if StartsWith(sql, TitleUpdate) then
      var m := Search(sql, TitleAttribText, false);
      if m.None? then None else BookForAttrib(attribBooks, m.value)
    else None
  }

  /** Where `check_sql` raises, which is exactly at a title update naming
      no attribute, the guarded check names nothing. */
  lemma GuardedMatchesCheckSql(sql: string, attribBooks: map<nat, int>)
    ensures CheckSql(sql, attribBooks).TitleMissing? ==> CheckSqlGuarded(sql, attribBooks).None?
    ensures CheckSql(sql, attribBooks).TitleMissing? <==>
              StartsWith(sql, TitleUpdate) && forall j :: 0 <= j ==> !MatchAt(sql, TitleAttribText, false, j)
  {
    if StartsWith(sql, TitleUpdate) {
      TitleUpdateLooksUp(sql, attribBooks);
    }
  }

  /** The changelog loop over the guarded check: it never aborts. */
  method CollectRebuildsGuarded(sqls: seq<string>, attribBooks: map<nat, int>)
    returns (toRebuild: set<Option<Ebook>>)
    ensures toRebuild == set i | 0 <= i < |sqls| :: CheckSqlGuarded(sqls[i], attribBooks)
  {
    toRebuild := {};
    for i := 0 to |sqls|
      invariant toRebuild == set j | 0 <= j < i :: CheckSqlGuarded(sqls[j], attribBooks)
    {
      toRebuild := toRebuild + {CheckSqlGuarded(sqls[i], attribBooks)};
    }
  }

  /** On a changelog without the failing title update, the guarded pass
      collects what `main` collects; with one, it still collects every
      ebook the other statements name. */
  lemma GuardedCollectsNamed(sqls: seq<string>, attribBooks: map<nat, int>)
    ensures (forall i :: 0 <= i < |sqls| ==> CheckSql(sqls[i], attribBooks).Rebuild?) ==>
              (set i | 0 <= i < |sqls| :: CheckSqlGuarded(sqls[i], attribBooks))
              == (set i | 0 <= i < |sqls| :: CheckSql(sqls[i], attribBooks).ebook)
    ensures forall i :: 0 <= i < |sqls| && CheckSql(sqls[i], attribBooks).Rebuild? ==>
              CheckSql(sqls[i], attribBooks).ebook in (set j | 0 <= j < |sqls| :: CheckSqlGuarded(sqls[j], attribBooks))
  {
  }
}
