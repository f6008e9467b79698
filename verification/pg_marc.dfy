/** MARC records for the catalogue: the author name and date formatting
    (`auth_paren`, `auth_dates` with `format_dates`) and the fields
    `book_record` puts into a record, in the order it adds them. A record is
    modelled as its leader codes and its list of fields; pymarc itself is
    not part of this model. */
module PGMarc {
  import opened Strings
  import opened Numerals
  import opened Optional

  /*** author dates ***/

  /** Python truthiness of a date that may be missing: None and 0 are false. */
  predicate Truthy(d: Option<int>) {
    d.Some? && d.value != 0
  }

  function Max(a: int, b: int): int {
    if a >= b then a else b
  }

  /** `format_dates(d1, d2)`: a year, `?` when it is uncertain, and `BCE`
      for years before 1 (year 0 is 1 BCE). */
  function FormatDates(d1: Option<int>, d2: Option<int>): string {
    if Truthy(d2) && !Truthy(d1) then
      (if d2.value < 0 then IntToString(1 - d2.value) + "? BCE" else IntToString(d2.value) + "?")
    else if !Truthy(d1) then ""
    else if Truthy(d2) && d1.value != d2.value then
      var d3 := Max(d1.value, d2.value);
      if d3 < 0 then IntToString(1 - d3) + "? BCE" else IntToString(d3) + "?"
    else if d1.value < 0 then IntToString(1 - d1.value) + " BCE"
    else IntToString(d1.value)
  }

  /** The year a pair of dates stands for: the second alone, the later of
      two different ones, or the first. */
  function KnownYear(d1: Option<int>, d2: Option<int>): int
    requires Truthy(d1) || Truthy(d2)
  {
    if !Truthy(d1) then d2.value
    else if Truthy(d2) && d1.value != d2.value then Max(d1.value, d2.value)
    else d1.value
  }

  /** The year is uncertain when only the second date is known or the two disagree. */
  predicate Uncertain(d1: Option<int>, d2: Option<int>) {
    !Truthy(d1) || (Truthy(d2) && d1.value != d2.value)
  }

  /** Reading a year label back: `N BCE` is year `1 - N`, a trailing `?`
      marks it uncertain. */
  function ReadLabel(lbl: string): Option<(int, bool)> {
    if EndsWith(lbl, " BCE") then
      match ReadMarked(lbl[..|lbl| - 4])
      case None => None
      case Some((n, uncertain)) => Some((1 - n, uncertain))
    else ReadMarked(lbl)
  }

  /** A number, and whether a `?` follows it. */
  function ReadMarked(body: string): Option<(int, bool)> {
    var uncertain := EndsWith(body, "?");
    var digits := if uncertain then body[..|body| - 1] else body;
    if digits != [] && AllDigits(digits) then Some((DigitsToNat(digits), uncertain)) else None
  }

  function Mark(uncertain: bool): string {
    if uncertain then "?" else ""
  }

  lemma ReadMarkedOf(n: nat, uncertain: bool)
    ensures ReadMarked(NatToString(n) + Mark(uncertain)) == Some((n, uncertain))
  {
    var s := NatToString(n);
    var body := s + Mark(uncertain);
    DigitsOfNat(n);
    if !uncertain {
      assert body == s;
      assert s[|s| - 1..] != "?" by {
        assert IsDigit(s[|s| - 1]);
      }
      assert ReadMarked(s) == Some((DigitsToNat(s), false));
    } else {
      assert body[|body| - 1..] == "?";
      assert body[..|body| - 1] == s;
      assert ReadMarked(body) == Some((DigitsToNat(s), true));
    }
  }

  lemma ReadPlain(n: int, uncertain: bool)
    requires n >= 0
    ensures ReadLabel(IntToString(n) + Mark(uncertain)) == Some((n, uncertain))
  {
    var mark := Mark(uncertain);
    var s := NatToString(n);
    var lbl := s + mark;
    assert !EndsWith(lbl, " BCE") by {
      if |lbl| >= 4 {
        if mark == "" {
          assert lbl[|lbl| - 1] == s[|s| - 1];
          assert IsDigit(s[|s| - 1]);
        } else {
          assert lbl[|lbl| - 1] == '?';
        }
        assert lbl[|lbl| - 4..][3] == lbl[|lbl| - 1];
      }
    }
    ReadMarkedOf(n, uncertain);
  }

  lemma ReadBce(y: int, uncertain: bool)
    requires y < 0
    ensures ReadLabel(IntToString(1 - y) + Mark(uncertain) + " BCE") == Some((y, uncertain))
  {
    var n := 1 - y;
    var mark := Mark(uncertain);
    var s := NatToString(n);
    var lbl := s + mark + " BCE";
    assert EndsWith(lbl, " BCE");
    assert lbl[..|lbl| - 4] == s + mark;
    ReadMarkedOf(n, uncertain);
    assert ReadLabel(lbl) == Some((1 - n, uncertain));
    assert IntToString(n) == s;
    assert IntToString(1 - y) + Mark(uncertain) + " BCE" == lbl;
  }

  /** The label of a known year. */
  function YearLabel(y: int, uncertain: bool): string {
    if y < 0 then IntToString(1 - y) + Mark(uncertain) + " BCE" else IntToString(y) + Mark(uncertain)
  }

  lemma FormatDatesLabel(d1: Option<int>, d2: Option<int>)
    requires Truthy(d1) || Truthy(d2)
    ensures FormatDates(d1, d2) == YearLabel(KnownYear(d1, d2), Uncertain(d1, d2))
  {
  }

  lemma ReadYearLabel(y: int, uncertain: bool)
    requires y != 0
    ensures ReadLabel(YearLabel(y, uncertain)) == Some((y, uncertain))
  {
    if y < 0 {
      ReadBce(y, uncertain);
    } else {
      ReadPlain(y, uncertain);
    }
  }

  /** A pair of dates prints as nothing exactly when neither is known, and
      otherwise as a label that reads back as the year it stands for and
      whether that year is uncertain. */
  lemma FormatDatesReadsBack(d1: Option<int>, d2: Option<int>)
    ensures FormatDates(d1, d2) == "" <==> !Truthy(d1) && !Truthy(d2)
    ensures Truthy(d1) || Truthy(d2) ==>
      ReadLabel(FormatDates(d1, d2)) == Some((KnownYear(d1, d2), Uncertain(d1, d2)))
  {
    if Truthy(d1) || Truthy(d2) {
      FormatDatesLabel(d1, d2);
      ReadYearLabel(KnownYear(d1, d2), Uncertain(d1, d2));
    }
  }

  /** `auth_dates(author)` */
  function AuthDates(a: Author): string {
    FormatDates(a.birthdate, a.birthdate2) + "-" + FormatDates(a.deathdate, a.deathdate2)
  }

  lemma NoDashInLabel(d1: Option<int>, d2: Option<int>)
    ensures !HasChar(FormatDates(d1, d2), '-')
  {
    if Truthy(d1) || Truthy(d2) {
      FormatDatesLabel(d1, d2);
      YearLabelNoDash(KnownYear(d1, d2), Uncertain(d1, d2));
    }
  }

  /** A year label is digits, then `?` and ` BCE` when they apply. */
  lemma YearLabelNoDash(y: int, uncertain: bool)
    ensures !HasChar(YearLabel(y, uncertain), '-')
  {
    var n: nat := if y < 0 then 1 - y else y;
    var s := NatToString(n);
    var tail := Mark(uncertain) + (if y < 0 then " BCE" else "");
    assert IntToString(n) == s;
    assert YearLabel(y, uncertain) == s + tail;
    DigitsOfNat(n);
    assert !HasChar(tail, '-');
    NoDashJoined(s, tail);
  }

  lemma NoDashJoined(s: string, tail: string)
    requires AllDigits(s) && !HasChar(tail, '-')
    ensures !HasChar(s + tail, '-')
  {
    forall i | 0 <= i < |s + tail| ensures (s + tail)[i] != '-' {
      if i < |s| {
        assert (s + tail)[i] == s[i];
      } else {
        assert (s + tail)[i] == tail[i - |s|];
      }
    }
  }

  /** The dates field reads as born and died on the two sides of its one dash. */
  lemma AuthDatesParts(a: Author)
    ensures Split(AuthDates(a), '-')
      == [FormatDates(a.birthdate, a.birthdate2), FormatDates(a.deathdate, a.deathdate2)]
  {
    var born, died := FormatDates(a.birthdate, a.birthdate2), FormatDates(a.deathdate, a.deathdate2);
    NoDashInLabel(a.birthdate, a.birthdate2);
    NoDashInLabel(a.deathdate, a.deathdate2);
    assert AuthDates(a) == born + ['-'] + died;
    SplitAppend(born, died, '-');
    SplitNoSep(died, '-');
  }

  /*** author names ***/

  datatype Author = Author(
    name: string,
    birthdate: Option<int>, birthdate2: Option<int>,
    deathdate: Option<int>, deathdate2: Option<int>)

  /** The first index at or after `from` holding `c`, or `|s|`. */
  function FirstIndex(s: string, c: char, from: nat): (k: nat)
    requires from <= |s|
    ensures from <= k <= |s|
    decreases |s| - from
  {
    if from == |s| then |s| else if s[from] == c then from else FirstIndex(s, c, from + 1)
  }

  lemma {:induction false} FirstIndexFacts(s: string, c: char, from: nat)
    requires from <= |s|
    ensures var k := FirstIndex(s, c, from);
      (k < |s| ==> s[k] == c) && forall t :: from <= t < k ==> s[t] != c
    decreases |s| - from
  {
    if from < |s| && s[from] != c {
      FirstIndexFacts(s, c, from + 1);
    }
  }

  /** Where the run of whitespace that ends at `j` begins. */
  function SpaceRunStart(s: string, j: nat): (i: nat)
    requires j <= |s|
    ensures i <= j
  {
    if j == 0 || !IsSpace(s[j - 1]) then j else SpaceRunStart(s, j - 1)
  }

  lemma {:induction false} SpaceRunStartFacts(s: string, j: nat)
    requires j <= |s|
    ensures var i := SpaceRunStart(s, j);
      (forall t :: i <= t < j ==> IsSpace(s[t])) && (i == 0 || !IsSpace(s[i - 1]))
  {
    if j > 0 && IsSpace(s[j - 1]) {
      SpaceRunStartFacts(s, j - 1);
    }
  }

  lemma {:induction false} SpaceRunStartLeast(s: string, j: nat, i: nat)
    requires i <= j <= |s|
    requires forall t :: i <= t < j ==> IsSpace(s[t])
    ensures SpaceRunStart(s, j) <= i
  {
    if j > i {
      SpaceRunStartLeast(s, j - 1, i);
    }
  }

  /** `\s*\([^)]*\)` matches `s[i..e]`. */
  predicate ParenAt(s: string, i: int, e: int) {
    0 <= i < e <= |s| && s[e - 1] == ')'
    && exists j :: (i <= j < e - 1 && s[j] == '('
      && (forall t :: i <= t < j ==> IsSpace(s[t]))
      && (forall t :: j < t < e - 1 ==> s[t] != ')'))
  }

  /** `RE_NAME_PAREN.search(s)`: the span of the leftmost match. */
  function FindParen(s: string): Option<(nat, nat)> {
    var j := FirstIndex(s, '(', 0);
    if j == |s| then None
    else
      var k := FirstIndex(s, ')', j + 1);
      if k == |s| then None else Some((SpaceRunStart(s, j), k + 1))
  }

  /** The search finds a match exactly when there is one, and then the
      leftmost. */
  lemma FindParenIsLeftmost(s: string)
    ensures FindParen(s).None? ==> forall i, e :: !ParenAt(s, i, e)
    ensures FindParen(s).Some? ==>
      var (i, e) := FindParen(s).value;
      ParenAt(s, i, e) && forall i', e' :: 0 <= i' < i ==> !ParenAt(s, i', e')
  {
    var j := FirstIndex(s, '(', 0);
    FirstIndexFacts(s, '(', 0);
    if j < |s| {
      FirstIndexFacts(s, ')', j + 1);
      SpaceRunStartFacts(s, j);
    }
    assert !IsSpace('(');
    forall i', e' | ParenAt(s, i', e')
      ensures j < |s| && FirstIndex(s, ')', j + 1) < |s| && SpaceRunStart(s, j) <= i'
    {
      var j' :| i' <= j' < e' - 1 && s[j'] == '(' && (forall t :: i' <= t < j' ==> IsSpace(s[t]))
        && (forall t :: j' < t < e' - 1 ==> s[t] != ')');
      assert j <= j';
      assert forall t :: i' <= t < j' ==> s[t] != '(';
      assert j' == j || j < i';
      if j' == j {
        assert FirstIndex(s, ')', j + 1) <= e' - 1;
        var i := SpaceRunStart(s, j);
        SpaceRunStartLeast(s, j, i');
      } else {
        assert FirstIndex(s, ')', j + 1) <= e' - 1;
      }
    }
    if j < |s| {
      var k := FirstIndex(s, ')', j + 1);
      if k < |s| {
        assert ParenAt(s, SpaceRunStart(s, j), k + 1);
      }
    }
  }

  /** The text `RE_NAME_PAREN` matches in `name`, if it matches. */
  function ParenSpan(name: string): Option<string> {
    match FindParen(name)
    case None => None
    case Some((i, e)) => Some(name[i..e])
  }

  /** The comma that separates a following dates subfield. */
  function Comma(a: Author): string {
    if Truthy(a.birthdate) || Truthy(a.deathdate) then "," else ""
  }

  /** `auth_paren(auth)`: the name without its parenthetical, and the
      parenthetical, stripped; the comma for a following dates subfield goes
      on the parenthetical when there is one, else on the name. */
  function AuthParen(a: Author): (string, Option<string>) {
    (BareName(a), ParenText(a))
  }

  function BareName(a: Author): string {
    match ParenSpan(a.name)
    case None => a.name + Comma(a)
    case Some(group) => Replace(a.name, group, "")
  }

  function ParenText(a: Author): Option<string> {
    match ParenSpan(a.name)
    case None => None
    case Some(group) => Some(Strip(group) + Comma(a))
  }

  /** No match is found only when there is none. */
  lemma ParenSpanNone(name: string)
    ensures ParenSpan(name).None? ==> forall i, e :: !ParenAt(name, i, e)
  {
    FindParenIsLeftmost(name);
  }

  /** The matched text is spaces, the first `(` of the name, anything but
      `)`, and `)`. */
  lemma ParenSpanSome(name: string)
    requires ParenSpan(name).Some?
    ensures var g, j := ParenSpan(name).value, FirstIndex(name, '(', 0) - FindParen(name).value.0;
      0 <= j < |g| - 1 && g[j] == '(' && g[|g| - 1] == ')' && forall t :: 0 <= t < j ==> IsSpace(g[t])
  {
    var k := FirstIndex(name, '(', 0);
    FirstIndexFacts(name, '(', 0);
    FirstIndexFacts(name, ')', k + 1);
    SpaceRunStartFacts(name, k);
    var (i, e) := FindParen(name).value;
    var g := name[i..e];
    assert g[k - i] == name[k] && g[|g| - 1] == name[e - 1];
    forall t | 0 <= t < k - i ensures IsSpace(g[t]) {
      assert g[t] == name[i + t];
    }
  }

  /** Without a parenthetical the name carries the comma; with one, the
      parenthetical comes back from `(` to `)` and carries the comma exactly
      when a date is known. */
  lemma AuthParenComma(a: Author)
    ensures ParenText(a).None? ==>
      BareName(a) == a.name + Comma(a) && forall i, e :: !ParenAt(a.name, i, e)
    ensures ParenText(a).Some? ==>
      var p := ParenText(a).value;
      var n := |p| - |Comma(a)|;
      2 <= n <= |p| && p[0] == '(' && p[n - 1] == ')' && p[n..] == Comma(a)
  {
    if ParenSpan(a.name).None? {
      ParenSpanNone(a.name);
    } else {
      StrippedParen(a.name);
      var core := Strip(ParenSpan(a.name).value);
      assert ParenText(a) == Some(core + Comma(a));
      CommaAfterParen(core, Comma(a));
    }
  }

  lemma CommaAfterParen(core: string, comma: string)
    requires |core| >= 2 && core[0] == '(' && core[|core| - 1] == ')'
    ensures var p := core + comma; var n := |p| - |comma|;
      2 <= n <= |p| && p[0] == '(' && p[n - 1] == ')' && p[n..] == comma
  {
    var p := core + comma;
    assert p[0] == core[0] && p[|core| - 1] == core[|core| - 1] && p[|core|..] == comma;
  }

  /** The matched parenthetical, stripped, runs from `(` to `)`. */
  lemma StrippedParen(name: string)
    requires ParenSpan(name).Some?
    ensures var core := Strip(ParenSpan(name).value);
      |core| >= 2 && core[0] == '(' && core[|core| - 1] == ')'
  {
    ParenSpanSome(name);
    var g := ParenSpan(name).value;
    var j := FirstIndex(name, '(', 0) - FindParen(name).value.0;
    StrippedCore(g, j);
  }

  lemma StrippedCore(g: string, j: nat)
    requires j < |g| && g[j] == '(' && g[|g| - 1] == ')'
    requires forall t :: 0 <= t < j ==> IsSpace(g[t])
    ensures var core := Strip(g); |core| >= 2 && core[0] == '(' && core[|core| - 1] == ')'
  {
    StripParen(g, j);
    ParenFromOpening(g, j);
  }

  lemma ParenFromOpening(g: string, j: nat)
    requires j < |g| && g[j] == '(' && g[|g| - 1] == ')'
    ensures var c := g[j..]; |c| >= 2 && c[0] == '(' && c[|c| - 1] == ')'
  {
    assert g[j..][|g| - j - 1] == g[|g| - 1];
  }

  /** Stripping whitespace-then-parenthetical leaves it from the `(` on. */
  lemma StripParen(g: string, j: nat)
    requires j < |g| && g[j] == '(' && g[|g| - 1] == ')'
    requires forall t :: 0 <= t < j ==> IsSpace(g[t])
    ensures Strip(g) == g[j..]
  {
    var l := g[j..];
    assert l[|l| - 1] == g[|g| - 1];
    LStripSpaces(g, j);
    RStripUnspaced(l);
  }

  lemma {:induction false} LStripSpaces(g: string, j: nat)
    requires j < |g| && !IsSpace(g[j])
    requires forall t :: 0 <= t < j ==> IsSpace(g[t])
    ensures LStrip(g) == g[j..]
  {
    if j > 0 {
      assert g[1..][j - 1] == g[j];
      LStripSpaces(g[1..], j - 1);
      assert g[1..][j - 1..] == g[j..];
    }
  }

  /*** the record ***/

  datatype Subfield = Subfield(code: char, value: string)

  datatype Field =
    | Control(tag: string, data: string)
    | Data(tag: string, indicators: seq<string>, subfields: seq<Subfield>)

  datatype Attribute = Attribute(fk: int, text: string, nonfiling: int)

  /** What `book_record` reads from the DublinCore object; `titleNoSubtitle`
      comes from libgutenberg and is an input here. */
  datatype Dc = Dc(
    hasBook: bool,
    pgId: int,
    attributes: seq<Attribute>,
    title: string,
    titleNoSubtitle: string,
    releaseDate: string,
    languages: seq<string>,
    loccs: seq<string>,
    subjects: seq<string>,
    authors: seq<Author>,
    pubinfo: string)

  /** `book_record` gives None without a book, raises NameError at the
      `field521` line, or returns the record. */
  datatype MarcResult = NoBook | NameError | Built(leader: seq<(nat, char)>, fields: seq<Field>)

  const LeaderCodes: seq<(nat, char)> := [(5, 'c'), (6, 'a'), (7, 'm'), (17, '3'), (18, 'u')]

  function Take(s: string, n: nat): string {
    if |s| <= n then s else s[..n]
  }

  function TextField(tag: string, ind1: string, ind2: string, text: string): Field {
    Data(tag, [ind1, ind2], [Subfield('a', text)])
  }

  /** `re.sub(r'^[^\n]*\n', '', s)`: the first line and its newline removed. */
  function AfterFirstLine(s: string): string {
    var k := FirstIndex(s, '\n', 0);
    if k == |s| then s else s[k + 1..]
  }

  function TitleSubfields(title: string, titleNoSubtitle: string): seq<Subfield> {
    if HasChar(title, '\n') then
      [Subfield('a', titleNoSubtitle + " :"), Subfield('b', ReplaceChar(AfterFirstLine(title), '\n', ' '))]
    else [Subfield('a', titleNoSubtitle)]
  }

  /** The fields one attribute adds (attribute 521 raises instead). */
  function AttributeFields(att: Attribute, dc: Dc): seq<Field> {
    var a := att.text;
    if att.fk == 10 then [TextField("010", " ", " ", a)]
    else if att.fk == 20 then [TextField("020", " ", " ", a)]
    else if att.fk == 240 then [TextField("240", "1", IntToString(att.nonfiling), a)]
    else if att.fk == 246 then [TextField("246", "1", " ", a)]
    else if att.fk == 250 then [TextField("250", " ", " ", a)]
    else if att.fk == 300 then [TextField("300", " ", " ", a)]
    else if att.fk == 440 then [TextField("490", "1", " ", a), TextField("830", " ", "0", a)]
    else if att.fk == 500 then [TextField("500", " ", " ", ReplaceChar(a, '\n', ' '))]
    else if att.fk == 505 then [TextField("505", "0", " ", a)]
    else if att.fk == 508 then [TextField("508", " ", " ", a)]
    else if att.fk == 520 then [TextField("520", " ", " ", a)]
    else if att.fk == 546 then [TextField("546", " ", " ", a)]
    else if att.fk == 904 then [TextField("856", "4", " ", a)]
    else if att.fk == 245 then [Data("245", ["1", IntToString(att.nonfiling)], TitleSubfields(dc.title, dc.titleNoSubtitle))]
    else []
  }

  /** The fields the first `k` attributes add. */
  function AttributeFieldsUpTo(dc: Dc, k: nat): seq<Field>
    requires k <= |dc.attributes|
  {
    if k == 0 then [] else AttributeFieldsUpTo(dc, k - 1) + AttributeFields(dc.attributes[k - 1], dc)
  }

  /** `re.search(r'\b\d{4}\b', s)` for ASCII text. */
  predicate HasYearWord(s: string) {
    YearWordFrom(s, 0)
  }

  /** The search from position `i` on, trying each position in turn. */
  predicate YearWordFrom(s: string, i: nat)
    decreases |s| - i
  {
    i + 4 <= |s| && (YearWordAt(s, i) || YearWordFrom(s, i + 1))
  }

  /** The search finds a year word exactly when one starts at `i` or later. */
  lemma {:induction false} YearWordFromIff(s: string, i: nat)
    ensures YearWordFrom(s, i) <==> exists j :: i <= j && YearWordAt(s, j)
    decreases |s| - i
  {
    if i + 4 <= |s| {
      YearWordFromIff(s, i + 1);
      assert (exists j :: i <= j && YearWordAt(s, j))
        <==> YearWordAt(s, i) || exists j :: i + 1 <= j && YearWordAt(s, j);
    }
  }

  /** Four digits at `i`, with no word character on either side. */
  predicate YearWordAt(s: string, i: int) {
    0 <= i && i + 4 <= |s| && AllDigits(s[i..i + 4])
    && (i == 0 || !IsWordChar(s[i - 1])) && (i + 4 == |s| || !IsWordChar(s[i + 4]))
  }

  predicate IsWordChar(c: char) {
    IsDigit(c) || ('a' <= c <= 'z') || ('A' <= c <= 'Z') || c == '_'
  }

  /** The test that picks the attribute for the 008 date. */
  predicate DatesFrom(att: Attribute) {
    att.fk == 906 || (att.fk == 260 && HasYearWord(IntToString(att.fk)))
  }

  /** The text of the first of the first `k` attributes that the test picks. */
  function PickedDate(atts: seq<Attribute>, k: nat): Option<string>
    requires k <= |atts|
  {
    if k == 0 then None
    else if PickedDate(atts, k - 1).Some? then PickedDate(atts, k - 1)
    else if DatesFrom(atts[k - 1]) then Some(atts[k - 1].text)
    else None
  }

  /** The fixed tail of the 008 data: place, illustrations, form and the
      other coded positions, all left unspecified except `o` (online). */
  const Tail008: string := "utu|||||o|||||||||||||| d"

  function Value008(stamp: string, releaseDate: string, date: Option<string>): string {
    stamp + "r" + Take(releaseDate, 4)
    + (if date.Some? then date.value else "||||") + Tail008
  }

  function Field534(dc: Dc): Field {
    if exists i :: 0 <= i < |dc.attributes| && dc.attributes[i].fk == 260 then
      Data("534", [" ", " "], [Subfield('p', "Originally published:"), Subfield('c', dc.pubinfo)])
    else Data("534", [" ", " "], [Subfield('n', "Original publication data not identified")])
  }

  /** The subfields of an author entry: the name, the parenthetical if it
      is not empty, and the dates if there are any. */
  function AuthorSubfields(name: string, paren: Option<string>, dates: Option<string>): seq<Subfield> {
    [Subfield('a', name)]
    + (if paren.Some? && paren.value != "" then [Subfield('q', paren.value)] else [])
    + (if dates.Some? then [Subfield('d', dates.value)] else [])
  }

  /** The dates subfield is written when a birth or death date is known. */
  function DatesOf(a: Author): Option<string> {
    if Truthy(a.birthdate) || Truthy(a.deathdate) then Some(AuthDates(a)) else None
  }

  function AuthorField(a: Author, first: bool): Field {
    Data(if first then "100" else "700", ["1", " "], AuthorSubfields(BareName(a), ParenText(a), DatesOf(a)))
  }

  /** `f` applied to the first `k` elements of `xs`, told which one is first. */
  function MapFirst<T, U>(f: (T, bool) -> U, xs: seq<T>, k: nat): (r: seq<U>)
    requires k <= |xs|
    ensures |r| == k
  {
    if k == 0 then [] else MapFirst(f, xs, k - 1) + [f(xs[k - 1], k == 1)]
  }

  lemma {:induction false} MapFirstAt<T, U>(f: (T, bool) -> U, xs: seq<T>, k: nat, i: nat)
    requires i < k <= |xs|
    ensures MapFirst(f, xs, k)[i] == f(xs[i], i == 0)
  {
    if i < k - 1 {
      MapFirstAt(f, xs, k - 1, i);
    }
  }

  /** The fields of the first `k` authors, the first one a 100 and the rest 700. */
  function AuthorFields(authors: seq<Author>, k: nat): (r: seq<Field>)
    requires k <= |authors|
    ensures |r| == k
  {
    MapFirst(AuthorField, authors, k)
  }

  function HeadFields(dc: Dc): seq<Field> {
    [Control("001", IntToString(dc.pgId)), Control("003", "UtSlPG"), Control("006", "m"), Control("007", "cr n")]
  }

  function LanguageFields(dc: Dc): seq<Field> {
    if |dc.languages| > 0 then
      [Data("041", [" ", "7"],
        seq(|dc.languages|, i requires 0 <= i < |dc.languages| => Subfield('a', dc.languages[i]))
        + [Subfield('2', "iso639-1")])]
    else []
  }

  /** The fixed fields from 040 to the release-date note. */
  function MiddleFields(dc: Dc): seq<Field> {
    [TextField("040", " ", " ", "UtSlPG")]
    + LanguageFields(dc)
    + [Data("50", [" ", "4"], seq(|dc.loccs|, i requires 0 <= i < |dc.loccs| => Subfield('a', dc.loccs[i]))),
       Data("300", [" ", " "], [Subfield('a', "1 online resource :"), Subfield('b', "multiple file formats")]),
       Data("336", [" ", " "], [Subfield('a', "text"), Subfield('b', "txt"), Subfield('2', "rdacontent")]),
       Data("337", [" ", " "], [Subfield('a', "computer"), Subfield('b', "c"), Subfield('2', "rdamedia")]),
       Data("338", [" ", " "], [Subfield('a', "online resource"), Subfield('b', "cr"), Subfield('2', "rdacarrier")]),
       TextField("500", " ", " ", "Release date is " + dc.releaseDate)]
  }

  function SubjectFields(subjects: seq<string>, k: nat): seq<Field>
    requires k <= |subjects|
  {
    if k == 0 then [] else SubjectFields(subjects, k - 1) + [TextField("653", " ", " ", subjects[k - 1])]
  }

  function LinkFields(dc: Dc): seq<Field> {
    [Data("856", ["4", "0"], [Subfield('a', "https://www.gutenberg.org/ebooks/" + IntToString(dc.pgId))]),
     Data("264", [" ", "1"], [Subfield('a', "Salt Lake City, UT :"), Subfield('b', "Project Gutenberg,"),
                              Subfield('c', Take(dc.releaseDate, 4))])]
  }

  predicate Has521(dc: Dc) {
    exists i :: 0 <= i < |dc.attributes| && dc.attributes[i].fk == 521
  }

  /** The record's fields in the order `book_record` adds them. */
  function Assemble(head: seq<Field>, attrs: seq<Field>, f008: Field, middle: seq<Field>,
                    subjects: seq<Field>, links: seq<Field>, authors: seq<Field>, last: Field): seq<Field>
  {
    head + attrs + [f008] + middle + subjects + links + authors + [last]
  }

  function RecordFields(dc: Dc, stamp: string): seq<Field> {
    Assemble(HeadFields(dc), AttributeFieldsUpTo(dc, |dc.attributes|),
             Control("008", Value008(stamp, dc.releaseDate, PickedDate(dc.attributes, |dc.attributes|))),
             MiddleFields(dc), SubjectFields(dc.subjects, |dc.subjects|), LinkFields(dc),
             AuthorFields(dc.authors, |dc.authors|), Field534(dc))
  }

  /** What `book_record(dc)` gives, `stamp` being `now.strftime('%y%m%d')`. */
  function BookRecordSpec(dc: Dc, stamp: string): MarcResult {
    if !dc.hasBook then NoBook
    else if Has521(dc) then NameError
    else Built(LeaderCodes, RecordFields(dc, stamp))
  }

  /** The 008 value the first `i` attributes choose, if any. */
  function DateValue(stamp: string, dc: Dc, i: nat): Option<string>
    requires i <= |dc.attributes|
  {
    match PickedDate(dc.attributes, i)
    case None => None
    case Some(_) => Some(Value008(stamp, dc.releaseDate, PickedDate(dc.attributes, i)))
  }

  /** The 008 value after one more attribute: the one chosen before, else
      the one this attribute's dates give. */
  lemma DateValueStep(stamp: string, dc: Dc, i: nat)
    requires i < |dc.attributes|
    ensures DateValue(stamp, dc, i + 1)
      == if DateValue(stamp, dc, i).Some? then DateValue(stamp, dc, i)
         else if DatesFrom(dc.attributes[i])
         then Some(stamp + "r" + Take(dc.releaseDate, 4) + dc.attributes[i].text + Tail008)
         else None
  {
  }

  /** What the attribute loop leaves: nothing when an attribute 521 stops
      it, else the fields it added and the 008 value it chose, if any. */
  function PassResult(dc: Dc, stamp: string): Option<(seq<Field>, Option<string>)> {
    if Has521(dc) then None
    else Some((AttributeFieldsUpTo(dc, |dc.attributes|), DateValue(stamp, dc, |dc.attributes|)))
  }

  /** The attribute loop of `book_record`. */
  method AttributePass(dc: Dc, stamp: string) returns (r: Option<(seq<Field>, Option<string>)>)
    ensures r == PassResult(dc, stamp)
  {
    var fields: seq<Field> := [];
    var matchFound := false;
    var newFieldValue := "";
    for i := 0 to |dc.attributes|
      invariant (fields, if matchFound then Some(newFieldValue) else None)
        == (AttributeFieldsUpTo(dc, i), DateValue(stamp, dc, i))
      invariant forall j :: 0 <= j < i ==> dc.attributes[j].fk != 521
    {
      var att := dc.attributes[i];
      if att.fk == 521 {
        return None;
      }
      DateValueStep(stamp, dc, i);
      fields := fields + AttributeFields(att, dc);
      if !matchFound {
        if DatesFrom(att) {
          newFieldValue := stamp + "r" + Take(dc.releaseDate, 4) + att.text + Tail008;
          matchFound := true;
        }
      }
    }
    r := Some((fields, if matchFound then Some(newFieldValue) else None));
  }

  /** One author's entry, from what `auth_paren` and `auth_dates` gave,
      its subfields appended as the loop body does. */
  method AuthorEntry(authname: string, paren: Option<string>, dates: Option<string>, firstAuth: bool)
    returns (field: Field)
    ensures field == Data(if firstAuth then "100" else "700", ["1", " "], AuthorSubfields(authname, paren, dates))
  {
    var subfields := [Subfield('a', authname)];
    if paren.Some? && paren.value != "" {
      subfields := subfields + [Subfield('q', paren.value)];
    }
    if dates.Some? {
      subfields := subfields + [Subfield('d', dates.value)];
    }
    field := Data(if firstAuth then "100" else "700", ["1", " "], subfields);
  }

  /** The author loop, `first_auth` choosing 100 for the first author. */
  method AuthorPass(authors: seq<Author>) returns (fields: seq<Field>)
    ensures fields == AuthorFields(authors, |authors|)
  {
    fields := [];
    var firstAuth := true;
    for i := 0 to |authors|
      invariant fields == AuthorFields(authors, i)
      invariant firstAuth <==> i == 0
    {
      var auth := authors[i];
      var dates := if Truthy(auth.birthdate) || Truthy(auth.deathdate) then Some(AuthDates(auth)) else None;
      var field := AuthorEntry(BareName(auth), ParenText(auth), dates, firstAuth);
      firstAuth := false;
      fields := fields + [field];
    }
  }

  /** The publisher loop: the first attribute 260 gives the "originally
      published" note, and the loop's `else` the "not identified" one. */
  method PublicationPass(dc: Dc) returns (field: Field)
    ensures field == Field534(dc)
  {
    var found := false;
    for i := 0 to |dc.attributes|
      invariant !found
      invariant forall j :: 0 <= j < i ==> dc.attributes[j].fk != 260
    {
      if dc.attributes[i].fk == 260 {
        found := true;
        break;
      }
    }
    if found {
      field := Data("534", [" ", " "], [Subfield('p', "Originally published:"), Subfield('c', dc.pubinfo)]);
    } else {
      field := Data("534", [" ", " "], [Subfield('n', "Original publication data not identified")]);
    }
  }

  /** `book_record(dc)` */
  method BookRecord(dc: Dc, stamp: string) returns (r: MarcResult)
    ensures r == BookRecordSpec(dc, stamp)
  {
    if !dc.hasBook {
      return NoBook;
    }
    var fields := HeadFields(dc);
    var pass := AttributePass(dc, stamp);
    if pass.None? {
      return NameError;
    }
    fields := fields + pass.value.0;
    var newFieldValue := if pass.value.1.Some? then pass.value.1.value
      else stamp + "r" + Take(dc.releaseDate, 4) + "||||" + Tail008;
    fields := fields + [Control("008", newFieldValue)];
    fields := fields + MiddleFields(dc);
    var beforeSubjects := fields;
    for i := 0 to |dc.subjects|
      invariant fields == beforeSubjects + SubjectFields(dc.subjects, i)
    {
      fields := fields + [TextField("653", " ", " ", dc.subjects[i])];
    }
    fields := fields + LinkFields(dc);
    var authorFields := AuthorPass(dc.authors);
    fields := fields + authorFields;
    var field534 := PublicationPass(dc);
    fields := fields + [field534];
    r := Built(LeaderCodes, fields);
  }

  /*** what the record holds ***/

  function TagCount(fields: seq<Field>, tag: string): nat {
    if fields == [] then 0 else (if fields[0].tag == tag then 1 else 0) + TagCount(fields[1..], tag)
  }

  lemma {:induction false} TagCountAppend(a: seq<Field>, b: seq<Field>, tag: string)
    ensures TagCount(a + b, tag) == TagCount(a, tag) + TagCount(b, tag)
  {
    if a == [] {
      assert a + b == b;
    } else {
      assert (a + b)[0] == a[0] && (a + b)[1..] == a[1..] + b;
      TagCountAppend(a[1..], b, tag);
    }
  }

  /** A tag other than the two that a record carries exactly once. */
  predicate OtherTag(tag: string) {
    tag != "008" && tag != "534"
  }

  /** No field of `fields` carries the 008 or the 534 tag. */
  predicate OtherTagged(fields: seq<Field>) {
    forall i :: 0 <= i < |fields| ==> OtherTag(fields[i].tag)
  }

  lemma {:induction false} AttributeFieldTags(dc: Dc, k: nat)
    requires k <= |dc.attributes|
    ensures OtherTagged(AttributeFieldsUpTo(dc, k))
  {
    if k > 0 {
      AttributeFieldTags(dc, k - 1);
      AttributeTagged(dc.attributes[k - 1], dc);
      TaggedAppend(AttributeFieldsUpTo(dc, k - 1), AttributeFields(dc.attributes[k - 1], dc));
    }
  }

  /** An attribute adds neither an 008 nor a 534. */
  lemma AttributeTagged(att: Attribute, dc: Dc)
    ensures OtherTagged(AttributeFields(att, dc))
  {
  }

  lemma TaggedAppend(a: seq<Field>, b: seq<Field>)
    requires OtherTagged(a) && OtherTagged(b)
    ensures OtherTagged(a + b)
  {
    assert forall i :: |a| <= i < |a + b| ==> (a + b)[i] == b[i - |a|];
  }

  lemma {:induction false} NoTag(fields: seq<Field>, tag: string)
    requires OtherTagged(fields) && (tag == "008" || tag == "534")
    ensures TagCount(fields, tag) == 0
  {
    if fields != [] {
      assert OtherTag(fields[0].tag);
      assert OtherTagged(fields[1..]) by {
        forall i | 0 <= i < |fields[1..]| ensures OtherTag(fields[1..][i].tag) {
          assert fields[1..][i] == fields[i + 1];
        }
      }
      NoTag(fields[1..], tag);
    }
  }

  lemma {:induction false} SubjectFieldTags(subjects: seq<string>, k: nat)
    requires k <= |subjects|
    ensures OtherTagged(SubjectFields(subjects, k))
  {
    if k > 0 {
      SubjectFieldTags(subjects, k - 1);
    }
  }

  lemma FixedPartTags(dc: Dc)
    ensures OtherTagged(HeadFields(dc)) && OtherTagged(MiddleFields(dc)) && OtherTagged(LinkFields(dc))
  {
  }

  /** The subfields of an entry start with the name and hold a dates
      subfield exactly when there are dates. */
  lemma AuthorSubfieldsFacts(name: string, paren: Option<string>, dates: Option<string>)
    ensures var r := AuthorSubfields(name, paren, dates);
      |r| >= 1 && r[0] == Subfield('a', name)
      && (dates.Some? ==> r[|r| - 1] == Subfield('d', dates.value))
      && (dates.None? ==> forall i :: 0 <= i < |r| ==> r[i].code != 'd')
  {
  }

  /** What an author entry holds: tag 100 for the first author and 700
      for the others, the name as `auth_paren` leaves it first, and the
      dates subfield exactly when a birth or death date is known. */
  predicate EntryOk(f: Field, a: Author, first: bool) {
    f.Data? && f.tag == (if first then "100" else "700") && f.indicators == ["1", " "]
    && |f.subfields| >= 1 && f.subfields[0] == Subfield('a', BareName(a))
    && (Truthy(a.birthdate) || Truthy(a.deathdate) <==> Subfield('d', AuthDates(a)) in f.subfields)
  }

  lemma AuthorFieldFacts(a: Author, first: bool)
    ensures EntryOk(AuthorField(a, first), a, first)
  {
    AuthorSubfieldsFacts(BareName(a), ParenText(a), DatesOf(a));
    var r := AuthorSubfields(BareName(a), ParenText(a), DatesOf(a));
    if Truthy(a.birthdate) || Truthy(a.deathdate) {
      assert r[|r| - 1] == Subfield('d', AuthDates(a));
    } else {
      assert forall s :: s in r ==> s.code != 'd';
    }
  }

  /** The author fields hold one entry per author, in order. */
  lemma AuthorEntries(authors: seq<Author>, k: nat)
    requires k <= |authors|
    ensures |AuthorFields(authors, k)| == k
    ensures forall i :: 0 <= i < k ==> EntryOk(AuthorFields(authors, k)[i], authors[i], i == 0)
  {
    forall i | 0 <= i < k ensures EntryOk(AuthorFields(authors, k)[i], authors[i], i == 0) {
      MapFirstAt(AuthorField, authors, k, i);
      AuthorFieldFacts(authors[i], i == 0);
    }
  }

  /** Attribute 440 becomes both a 490 series statement and an 830 added entry. */
  lemma Series440(att: Attribute, dc: Dc)
    requires att.fk == 440
    ensures AttributeFields(att, dc) == [Data("490", ["1", " "], [Subfield('a', att.text)]),
                                         Data("830", [" ", "0"], [Subfield('a', att.text)])]
  {
  }

  /** Attribute 500 becomes one note field with its newlines turned into spaces. */
  lemma Note500(att: Attribute, dc: Dc)
    requires att.fk == 500
    ensures var fs := AttributeFields(att, dc);
      |fs| == 1 && fs[0].Data? && fs[0].tag == "500"
      && |fs[0].subfields| == 1 && |fs[0].subfields[0].value| == |att.text|
      && !HasChar(fs[0].subfields[0].value, '\n')
  {
  }

  function First906(atts: seq<Attribute>, k: nat): Option<string>
    requires k <= |atts|
  {
    if k == 0 then None
    else if First906(atts, k - 1).Some? then First906(atts, k - 1)
    else if atts[k - 1].fk == 906 then Some(atts[k - 1].text)
    else None
  }

  /** The 260 branch of the 008 test looks at the number 260 itself, which
      has no four-digit word, so only attribute 906 ever supplies the date. */
  lemma {:induction false} PickedDateIs906(atts: seq<Attribute>, k: nat)
    requires k <= |atts|
    ensures PickedDate(atts, k) == First906(atts, k)
  {
    if k > 0 {
      PickedDateIs906(atts, k - 1);
      assert !HasYearWord("260");
      assert IntToString(260) == "260" by {
        assert NatToString(260) == NatToString(26) + [DigitChar(0)];
        assert NatToString(26) == NatToString(2) + [DigitChar(6)];
      }
    }
  }

  /** None of the fields outside the 008 and the 534 carries either tag. */
  lemma OtherPartsLack(dc: Dc, tag: string)
    requires tag == "008" || tag == "534"
    ensures TagCount(HeadFields(dc), tag) == 0 && TagCount(AttributeFieldsUpTo(dc, |dc.attributes|), tag) == 0
    ensures TagCount(MiddleFields(dc), tag) == 0 && TagCount(SubjectFields(dc.subjects, |dc.subjects|), tag) == 0
    ensures TagCount(LinkFields(dc), tag) == 0 && TagCount(AuthorFields(dc.authors, |dc.authors|), tag) == 0
  {
    AttributeFieldTags(dc, |dc.attributes|);
    SubjectFieldTags(dc.subjects, |dc.subjects|);
    FixedPartTags(dc);
    AuthorTags(dc.authors);
    NoTag(HeadFields(dc), tag);
    NoTag(AttributeFieldsUpTo(dc, |dc.attributes|), tag);
    NoTag(MiddleFields(dc), tag);
    NoTag(SubjectFields(dc.subjects, |dc.subjects|), tag);
    NoTag(LinkFields(dc), tag);
    NoTag(AuthorFields(dc.authors, |dc.authors|), tag);
  }

  lemma AuthorTags(authors: seq<Author>)
    ensures OtherTagged(AuthorFields(authors, |authors|))
  {
    AuthorEntries(authors, |authors|);
  }

  /** A tag's count in an assembled record is the sum of its counts in the parts. */
  lemma AssembleTagCount(head: seq<Field>, attrs: seq<Field>, f008: Field, middle: seq<Field>,
                         subjects: seq<Field>, links: seq<Field>, authors: seq<Field>, last: Field, tag: string)
    ensures TagCount(Assemble(head, attrs, f008, middle, subjects, links, authors, last), tag)
      == TagCount(head, tag) + TagCount(attrs, tag) + TagCount([f008], tag) + TagCount(middle, tag)
         + TagCount(subjects, tag) + TagCount(links, tag) + TagCount(authors, tag) + TagCount([last], tag)
  {
    TagCountAppend(head, attrs, tag);
    TagCountAppend(head + attrs, [f008], tag);
    TagCountAppend(head + attrs + [f008], middle, tag);
    TagCountAppend(head + attrs + [f008] + middle, subjects, tag);
    TagCountAppend(head + attrs + [f008] + middle + subjects, links, tag);
    TagCountAppend(head + attrs + [f008] + middle + subjects + links, authors, tag);
    TagCountAppend(head + attrs + [f008] + middle + subjects + links + authors, [last], tag);
  }

  /** Where the 008 and the 534 sit in an assembled record. */
  lemma AssemblePositions(head: seq<Field>, attrs: seq<Field>, f008: Field, middle: seq<Field>,
                          subjects: seq<Field>, links: seq<Field>, authors: seq<Field>, last: Field)
    ensures var r := Assemble(head, attrs, f008, middle, subjects, links, authors, last);
      |r| == |head| + |attrs| + |middle| + |subjects| + |links| + |authors| + 2
      && r[|head| + |attrs|] == f008 && r[|r| - 1] == last
  {
    var r := Assemble(head, attrs, f008, middle, subjects, links, authors, last);
    assert r == (head + attrs) + [f008] + (middle + subjects + links + authors) + [last];
  }

  /** A built record has exactly one 008 field, and exactly one 534 field. */
  lemma BuiltRecordCounts(dc: Dc, stamp: string)
    ensures TagCount(RecordFields(dc, stamp), "008") == 1
    ensures TagCount(RecordFields(dc, stamp), "534") == 1
  {
    RecordTagOnce(dc, stamp, "008");
    RecordTagOnce(dc, stamp, "534");
  }

  lemma RecordTagOnce(dc: Dc, stamp: string, tag: string)
    requires tag == "008" || tag == "534"
    ensures TagCount(RecordFields(dc, stamp), tag) == 1
  {
    var f008 := Control("008", Value008(stamp, dc.releaseDate, PickedDate(dc.attributes, |dc.attributes|)));
    OtherPartsLack(dc, tag);
    Field534Facts(dc);
    AssembleOnce(HeadFields(dc), AttributeFieldsUpTo(dc, |dc.attributes|), f008, MiddleFields(dc),
                 SubjectFields(dc.subjects, |dc.subjects|), LinkFields(dc), AuthorFields(dc.authors, |dc.authors|),
                 Field534(dc), tag);
  }

  /** With the tag absent from every part, an assembled record holds it
      once when exactly one of the 008 and the last field carries it. */
  lemma AssembleOnce(head: seq<Field>, attrs: seq<Field>, f008: Field, middle: seq<Field>,
                     subjects: seq<Field>, links: seq<Field>, authors: seq<Field>, last: Field, tag: string)
    requires TagCount(head, tag) == 0 && TagCount(attrs, tag) == 0 && TagCount(middle, tag) == 0
    requires TagCount(subjects, tag) == 0 && TagCount(links, tag) == 0 && TagCount(authors, tag) == 0
    requires f008.tag == "008" && last.tag == "534" && (tag == "008" || tag == "534")
    ensures TagCount(Assemble(head, attrs, f008, middle, subjects, links, authors, last), tag) == 1
  {
    AssembleTagCount(head, attrs, f008, middle, subjects, links, authors, last, tag);
    assert TagCount([f008], tag) + TagCount([last], tag) == 1;
  }

  /** The 534 is the "originally published" note exactly when some attribute is 260. */
  lemma Field534Facts(dc: Dc)
    ensures Field534(dc).Data? && Field534(dc).tag == "534" && |Field534(dc).subfields| >= 1
    ensures Field534(dc).subfields[0].code == 'p'
            <==> exists i :: 0 <= i < |dc.attributes| && dc.attributes[i].fk == 260
  {
  }

  /** The 008 is dated from the first attribute 906, or left `||||`; the
      last field added is the 534, the "originally published" note exactly
      when some attribute is 260 (where pymarc's ordered insertion puts it
      among the record's fields is not modelled). */
  lemma BuiltRecordFixedFields(dc: Dc, stamp: string)
    ensures Control("008", Value008(stamp, dc.releaseDate, First906(dc.attributes, |dc.attributes|)))
            in RecordFields(dc, stamp)
    ensures var fields := RecordFields(dc, stamp);
      fields[|fields| - 1].tag == "534"
      && (fields[|fields| - 1].subfields[0].code == 'p'
          <==> exists i :: 0 <= i < |dc.attributes| && dc.attributes[i].fk == 260)
  {
    PickedDateIs906(dc.attributes, |dc.attributes|);
    var f008 := Control("008", Value008(stamp, dc.releaseDate, PickedDate(dc.attributes, |dc.attributes|)));
    AssemblePositions(HeadFields(dc), AttributeFieldsUpTo(dc, |dc.attributes|), f008, MiddleFields(dc),
                      SubjectFields(dc.subjects, |dc.subjects|), LinkFields(dc), AuthorFields(dc.authors, |dc.authors|),
                      Field534(dc));
    Field534Facts(dc);
  }

  /** Without a book there is no record; an attribute 521 always ends in
      the NameError at the undefined `field521`. */
  lemma BookRecordOutcomes(dc: Dc, stamp: string)
    ensures BookRecordSpec(dc, stamp) == NoBook <==> !dc.hasBook
    ensures BookRecordSpec(dc, stamp) == NameError <==> dc.hasBook && Has521(dc)
  {
  }

  /** A book with an attribute 521 never gets a record. */
  lemma Audience521Raises(dc: Dc, stamp: string, i: nat)
    requires dc.hasBook && i < |dc.attributes| && dc.attributes[i].fk == 521
    ensures BookRecordSpec(dc, stamp) == NameError
  {
  }

  /*** the 521 field as evidently intended ***/

  /** The fields one attribute adds once the 521 branch adds the field it
      builds (the source builds it under the name `field520`). */
  function IntendedAttributeFields(att: Attribute, dc: Dc): (fs: seq<Field>)
    ensures att.fk == 521 ==> fs == [Data("521", ["8", " "], [Subfield('a', att.text)])]
    ensures att.fk != 521 ==> fs == AttributeFields(att, dc)
  {
    if att.fk == 521 then [TextField("521", "8", " ", att.text)] else AttributeFields(att, dc)
  }

  function IntendedAttributeFieldsUpTo(dc: Dc, k: nat): seq<Field>
    requires k <= |dc.attributes|
  {
    if k == 0 then [] else IntendedAttributeFieldsUpTo(dc, k - 1) + IntendedAttributeFields(dc.attributes[k - 1], dc)
  }

  /** `book_record(dc)` with the 521 field added: a book always gets a record. */
  function IntendedBookRecord(dc: Dc, stamp: string): (r: MarcResult)
    ensures r.NoBook? <==> !dc.hasBook
    ensures r != NameError
  {
    if !dc.hasBook then NoBook
    else
      Built(LeaderCodes,
        Assemble(HeadFields(dc), IntendedAttributeFieldsUpTo(dc, |dc.attributes|),
                 Control("008", Value008(stamp, dc.releaseDate, PickedDate(dc.attributes, |dc.attributes|))),
                 MiddleFields(dc), SubjectFields(dc.subjects, |dc.subjects|), LinkFields(dc),
                 AuthorFields(dc.authors, |dc.authors|), Field534(dc)))
  }

  /** The number of attributes 521 among the first `k`. */
  function Count521(atts: seq<Attribute>, k: nat): nat
    requires k <= |atts|
  {
    if k == 0 then 0 else Count521(atts, k - 1) + (if atts[k - 1].fk == 521 then 1 else 0)
  }

  /** No attribute other than 521 adds a 521 field. */
  lemma OtherAttributesLack521(att: Attribute, dc: Dc)
    requires att.fk != 521
    ensures TagCount(AttributeFields(att, dc), "521") == 0
  {
    var fs := AttributeFields(att, dc);
    assert forall i :: 0 <= i < |fs| ==> fs[i].tag != "521";
    TagAbsent(fs, "521");
  }

  /** The attributes add one 521 field per attribute 521. */
  lemma {:induction false} IntendedAttributeNotes(dc: Dc, k: nat)
    requires k <= |dc.attributes|
    ensures TagCount(IntendedAttributeFieldsUpTo(dc, k), "521") == Count521(dc.attributes, k)
  {
    if k > 0 {
      var att := dc.attributes[k - 1];
      IntendedAttributeNotes(dc, k - 1);
      TagCountAppend(IntendedAttributeFieldsUpTo(dc, k - 1), IntendedAttributeFields(att, dc), "521");
      if att.fk != 521 {
        OtherAttributesLack521(att, dc);
      }
    }
  }

  /** Without an attribute 521 the two attribute loops add the same fields. */
  lemma {:induction false} IntendedAttributesAgree(dc: Dc, k: nat)
    requires k <= |dc.attributes| && forall i :: 0 <= i < k ==> dc.attributes[i].fk != 521
    ensures IntendedAttributeFieldsUpTo(dc, k) == AttributeFieldsUpTo(dc, k)
  {
    if k > 0 {
      IntendedAttributesAgree(dc, k - 1);
    }
  }

  /** The corrected record is the record as written wherever that one does
      not raise. */
  lemma IntendedAgreesWithout521(dc: Dc, stamp: string)
    requires !Has521(dc)
    ensures IntendedBookRecord(dc, stamp) == BookRecordSpec(dc, stamp)
  {
    IntendedAttributesAgree(dc, |dc.attributes|);
  }

  /** A field list none of whose fields carries `tag` counts none of it. */
  lemma {:induction false} TagAbsent(fields: seq<Field>, tag: string)
    requires forall i :: 0 <= i < |fields| ==> fields[i].tag != tag
    ensures TagCount(fields, tag) == 0
  {
    if fields != [] {
      assert forall i :: 0 <= i < |fields[1..]| ==> fields[1..][i] == fields[i + 1];
      TagAbsent(fields[1..], tag);
    }
  }

  lemma {:induction false} SubjectsAre653(subjects: seq<string>, k: nat)
    requires k <= |subjects|
    ensures forall i :: 0 <= i < |SubjectFields(subjects, k)| ==> SubjectFields(subjects, k)[i].tag == "653"
  {
    if k > 0 {
      SubjectsAre653(subjects, k - 1);
    }
  }

  /** Outside the attributes no part of a record carries a 521 field. */
  lemma PartsLack521(dc: Dc)
    ensures TagCount(HeadFields(dc), "521") == 0 && TagCount(MiddleFields(dc), "521") == 0
    ensures TagCount(LinkFields(dc), "521") == 0
    ensures TagCount(SubjectFields(dc.subjects, |dc.subjects|), "521") == 0
    ensures TagCount(AuthorFields(dc.authors, |dc.authors|), "521") == 0
  {
    TagAbsent(HeadFields(dc), "521");
    TagAbsent(MiddleFields(dc), "521");
    TagAbsent(LinkFields(dc), "521");
    SubjectsAre653(dc.subjects, |dc.subjects|);
    TagAbsent(SubjectFields(dc.subjects, |dc.subjects|), "521");
    AuthorEntries(dc.authors, |dc.authors|);
    TagAbsent(AuthorFields(dc.authors, |dc.authors|), "521");
  }

  /** The corrected record holds exactly one 521 field per attribute 521. */
  lemma IntendedNoteCount(dc: Dc, stamp: string)
    requires dc.hasBook
    ensures TagCount(IntendedBookRecord(dc, stamp).fields, "521") == Count521(dc.attributes, |dc.attributes|)
  {
    var f008 := Control("008", Value008(stamp, dc.releaseDate, PickedDate(dc.attributes, |dc.attributes|)));
    IntendedAttributeNotes(dc, |dc.attributes|);
    PartsLack521(dc);
    AssembleTagCount(HeadFields(dc), IntendedAttributeFieldsUpTo(dc, |dc.attributes|), f008, MiddleFields(dc),
                     SubjectFields(dc.subjects, |dc.subjects|), LinkFields(dc), AuthorFields(dc.authors, |dc.authors|),
                     Field534(dc), "521");
    assert TagCount([f008], "521") == 0 && TagCount([Field534(dc)], "521") == 0;
  }
}
