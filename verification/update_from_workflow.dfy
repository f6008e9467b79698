/** UpdateFromWorkflow: fills metadata a book's record lacks from the data
    the workflow saved for it, and saves the book when anything was set. */
module UpdateFromWorkflow {
  import opened Strings
  import opened Optional

  /** A JSON value of the workflow record: missing or `null`, a string, a
      list of strings, or any other value (only its truthiness is read). */
  datatype Json = Absent | JStr(s: string) | JList(items: seq<string>) | JOther(truthy: bool)

  /** The keys of the workflow record `update_from_workflow` reads. */
  datatype WorkflowRecord = WorkflowRecord(
    language: Option<string>,
    publisher: Option<string>,
    country: Option<string>,
    years: Json,
    scans: Json,
    requestKey: Option<string>,
    credit: Option<string>)

  /** The fields of the Dublin Core object the merge reads and writes;
      `languages` holds the ids of the book's languages, in order. */
  datatype Meta = Meta(
    languages: seq<string>,
    publisher: Option<string>,
    country: Option<string>,
    years: seq<(string, string)>,
    scanUrls: set<string>,
    requestKey: Option<string>,
    credit: Option<string>)

  /** Python's truth value of a string that may be `None`. */
  predicate Truthy(o: Option<string>) {
    o.Some? && o.value != []
  }

  /** Publisher, country or years already recorded: the publication
      information is then left alone. */
  predicate HasPubinfo(m: Meta) {
    Truthy(m.publisher) || Truthy(m.country) || m.years != []
  }

  /** A truthy value read as a list: a string is a one-element list; a
      falsy value or one that is neither gives `None`. */
  function AsList(v: Json): (r: Option<seq<string>>)
    ensures r.Some? ==> r.value != []
  {
    match v
    case JStr(s) => if s != [] then Some([s]) else None
    case JList(items) => if items != [] then Some(items) else None
    case _ => None
  }

  /** The two exceptions the years loop can raise: an entry with more than
      one `:` cannot be unpacked into `event, year`, and an entry without
      `:` before any entry with one reads `year` before it is bound. */
  datatype MergeError = TooManyColons(entry: string) | YearUnbound(entry: string)

  datatype Years = Appended(pairs: seq<(string, string)>) | YearsRaised(err: MergeError)

  function Prepend(acc: seq<(string, string)>, r: Years): Years {
    match r
    case Appended(p) => Appended(acc + p)
    case YearsRaised(e) => r
  }

  /** The pairs the years loop appends for `entries`, when the last `year`
      bound so far is `year`. An entry without `:` reuses that year. */
  function YearsFrom(entries: seq<string>, year: Option<string>): Years
    decreases |entries|
  {
    if entries == [] then Appended([])
    else
      var e := entries[0];
      if HasChar(e, ':') then
        var parts := Split(e, ':');
        if |parts| != 2 then YearsRaised(TooManyColons(e))
        else Prepend([(parts[0], parts[1])], YearsFrom(entries[1..], Some(parts[1])))
      else if e != [] then
        if year.None? then YearsRaised(YearUnbound(e))
        else Prepend([("copyright", year.value)], YearsFrom(entries[1..], year))
      else YearsFrom(entries[1..], year)
  }

  /** The result of the merge: the new fields and `changed`, or the
      exception that ends it. */
  datatype Merge = Merged(meta: Meta, changed: bool) | Failed(err: MergeError)

  /** The language step: only without publication information, and only
      when the book has no language or English first. `handled` is what
      `handle_dc_languages` makes of the record's value. */
  function LanguageStep(m: Meta, rec: WorkflowRecord, handled: seq<string>): Merge {
    if !HasPubinfo(m) && (m.languages == [] || m.languages[0] == "en") && Truthy(rec.language) then
      Merged(m.(languages := handled), true)
    else Merged(m, false)
  }

  /** Publisher, country and years, only without publication information. */
  function PubinfoStep(m: Meta, rec: WorkflowRecord, changed: bool): Merge {
    if HasPubinfo(m) then Merged(m, changed)
    else
      var m1 := m.(publisher := rec.publisher, country := rec.country);
      var c1 := changed || Truthy(rec.publisher) || Truthy(rec.country);
      match AsList(rec.years)
      case None => Merged(m1, c1)
      case Some(entries) =>
        match YearsFrom(entries, None)
        case YearsRaised(e) => Failed(e)
        case Appended(p) => Merged(m1.(years := m.years + p), true)
  }

  /** The strings of a list, as a set. */
  function Elements(s: seq<string>): set<string> {
    set u | u in s
  }

  /** Scan URLs, only when the book has none. */
  function ScanStep(m: Meta, rec: WorkflowRecord, changed: bool): Merge {
    if m.scanUrls != {} then Merged(m, changed)
    else
      match AsList(rec.scans)
      case None => Merged(m, changed)
      case Some(urls) => Merged(m.(scanUrls := m.scanUrls + Elements(urls)), true)
  }

  /** Request key and credit, each only when empty. */
  function KeyStep(m: Meta, rec: WorkflowRecord, changed: bool): Merge {
    var m1 := if Truthy(m.requestKey) then m else m.(requestKey := rec.requestKey);
    var c1 := changed || (!Truthy(m.requestKey) && Truthy(rec.requestKey));
    var m2 := if Truthy(m1.credit) then m1 else m1.(credit := rec.credit);
    Merged(m2, c1 || (!Truthy(m1.credit) && Truthy(rec.credit)))
  }

  function Then(r: Merge, rec: WorkflowRecord, step: nat): Merge
    requires 1 <= step <= 3
  {
    match r
    case Failed(e) => r
    case Merged(m, c) =>
      if step == 1 then PubinfoStep(m, rec, c)
      else if step == 2 then ScanStep(m, rec, c)
      else KeyStep(m, rec, c)
  }

  /** `update_from_workflow(dc, record)`, apart from the save. */
  function MergeRecord(m: Meta, rec: WorkflowRecord, handled: seq<string>): Merge {
    Then(Then(Then(LanguageStep(m, rec, handled), rec, 1), rec, 2), rec, 3)
  }

  /** The Dublin Core object as `update_from_workflow` changes it in place;
      `saves` counts the calls of `save`. */
  class DublinCore {
    var languages: seq<string>
    var publisher: Option<string>
    var country: Option<string>
    var years: seq<(string, string)>
    var scanUrls: set<string>
    var requestKey: Option<string>
    var credit: Option<string>
    var saves: nat

    constructor (m: Meta)
      ensures State() == m && saves == 0
    {
      languages, publisher, country, years := m.languages, m.publisher, m.country, m.years;
      scanUrls, requestKey, credit := m.scanUrls, m.requestKey, m.credit;
      saves := 0;
    }

    function State(): Meta
      reads this
    {
      Meta(languages, publisher, country, years, scanUrls, requestKey, credit)
    }

    /** The `for event_year in value` loop, appending to the years. */
    method AppendYears(entries: seq<string>) returns (err: Option<MergeError>)
      modifies this
      ensures var r := YearsFrom(entries, None);
              (r.YearsRaised? <==> err.Some?)
              && (r.YearsRaised? ==> err.value == r.err)
              && (r.Appended? ==> State() == old(State()).(years := old(years) + r.pairs))
      ensures saves == old(saves)
    {
      var year: Option<string> := None;
      ghost var added: seq<(string, string)> := [];
      for i := 0 to |entries|
        invariant years == old(years) + added
        invariant YearsFrom(entries, None) == Prepend(added, YearsFrom(entries[i..], year))
        invariant State() == old(State()).(years := years) && saves == old(saves)
      {
        var e := entries[i];
        if HasChar(e, ':') {
          var parts := Split(e, ':');
          if |parts| != 2 {
            YearsRaise(entries, i, year, added);
            return Some(TooManyColons(e));
          }
          YearsAdvance(entries, i, year, added);
          years := years + [(parts[0], parts[1])];
          added := added + [(parts[0], parts[1])];
          year := Some(parts[1]);
        } else if e != [] {
          if year.None? {
            YearsRaise(entries, i, year, added);
            return Some(YearUnbound(e));
          }
          YearsAdvance(entries, i, year, added);
          years := years + [("copyright", year.value)];
          added := added + [("copyright", year.value)];
        } else {
          YearsAdvance(entries, i, year, added);
        }
      }
      assert entries[|entries|..] == [];
      return None;
    }

    /** The `for scan_url in value` loop. */
    method AddScanUrls(urls: seq<string>)
      modifies this
      ensures State() == old(State()).(scanUrls := old(scanUrls) + Elements(urls))
      ensures saves == old(saves)
    {
      for i := 0 to |urls|
        invariant State() == old(State()).(scanUrls := old(scanUrls) + Elements(urls[..i]))
        invariant saves == old(saves)
      {
        assert urls[..i + 1] == urls[..i] + [urls[i]];
        scanUrls := scanUrls + {urls[i]};
      }
      assert urls[..|urls|] == urls;
    }

    /** The language and publication-information part of the merge. */
    method TakePubinfo(rec: WorkflowRecord, handled: seq<string>) returns (r: Merge)
      modifies this
      ensures r == Then(LanguageStep(old(State()), rec, handled), rec, 1)
      ensures r.Merged? ==> State() == r.meta
      ensures saves == old(saves)
    {
      ghost var m0 := State();
      var hasPubinfo := HasPubinfo(State());
      var changed := false;
      if !hasPubinfo && (languages == [] || languages[0] == "en") {
        if Truthy(rec.language) {
          languages := handled;
          changed := true;
        }
      }
      assert LanguageStep(m0, rec, handled) == Merged(State(), changed);
      ghost var m1 := State();
      if !hasPubinfo {
        publisher := rec.publisher;
        changed := changed || Truthy(publisher);
        country := rec.country;
        changed := changed || Truthy(country);
        var value := AsList(rec.years);
        if value.Some? {
          var err := AppendYears(value.value);
          if err.Some? {
            return Failed(err.value);
          }
          changed := true;
        }
      }
      return Merged(State(), changed);
    }

    /** The scan URLs, request key and credit part of the merge. */
    method TakeRest(rec: WorkflowRecord, changed0: bool) returns (changed: bool)
      modifies this
      ensures Then(Then(Merged(old(State()), changed0), rec, 2), rec, 3) == Merged(State(), changed)
      ensures saves == old(saves)
    {
      ghost var m2 := State();
      changed := changed0;
      if scanUrls == {} {
        var value := AsList(rec.scans);
        if value.Some? {
          AddScanUrls(value.value);
          changed := true;
        }
      }
      assert ScanStep(m2, rec, changed0) == Merged(State(), changed);
      ghost var m3 := State();
      ghost var c3 := changed;
      if !Truthy(requestKey) {
        requestKey := rec.requestKey;
        changed := changed || Truthy(requestKey);
      }
      if !Truthy(credit) {
        credit := rec.credit;
        changed := changed || Truthy(credit);
      }
      assert KeyStep(m3, rec, c3) == Merged(State(), changed);
    }

    /** `update_from_workflow(dc, record)`: `handled` is the language list
        `handle_dc_languages` makes of the record's language. The object is
        saved once exactly when something changed; an exception saves nothing. */
    method Update(rec: WorkflowRecord, handled: seq<string>) returns (err: Option<MergeError>)
      modifies this
      ensures var r := MergeRecord(old(State()), rec, handled);
              (r.Failed? <==> err.Some?)
              && (r.Failed? ==> err.value == r.err && saves == old(saves))
              && (r.Merged? ==> State() == r.meta && saves == old(saves) + (if r.changed then 1 else 0))
    {
      var r := TakePubinfo(rec, handled);
      if r.Failed? {
        return Some(r.err);
      }
      var changed := TakeRest(rec, r.changed);
      if changed {
        saves := saves + 1;
      }
      return None;
    }
  }

  /** One pass of the years loop: the pairs entry `i` appends, if any,
      and the year bound after it. */
  function EntryPairs(e: string, year: Option<string>): seq<(string, string)> {
    if HasChar(e, ':') && |Split(e, ':')| == 2 then [(Split(e, ':')[0], Split(e, ':')[1])]
    else if !HasChar(e, ':') && e != [] && year.Some? then [("copyright", year.value)]
    else []
  }

  function YearAfter(e: string, year: Option<string>): Option<string> {
    if HasChar(e, ':') && |Split(e, ':')| == 2 then Some(Split(e, ':')[1]) else year
  }

  predicate EntryRaises(e: string, year: Option<string>) {
    if HasChar(e, ':') then |Split(e, ':')| != 2 else e != [] && year.None?
  }

  lemma YearsAdvance(entries: seq<string>, i: nat, year: Option<string>, added: seq<(string, string)>)
    requires i < |entries| && !EntryRaises(entries[i], year)
    requires YearsFrom(entries, None) == Prepend(added, YearsFrom(entries[i..], year))
    ensures YearsFrom(entries, None)
            == Prepend(added + EntryPairs(entries[i], year), YearsFrom(entries[i + 1..], YearAfter(entries[i], year)))
  {
    var rest := entries[i..];
    assert rest[0] == entries[i] && rest[1..] == entries[i + 1..];
    YearsStep(rest, year);
    PrependTwice(added, YearsFrom(entries[i + 1..], YearAfter(entries[i], year)));
  }

  /** One entry that does not raise adds its pairs and moves the year on. */
  lemma YearsStep(rest: seq<string>, year: Option<string>)
    requires rest != [] && !EntryRaises(rest[0], year)
    ensures YearsFrom(rest, year)
            == Prepend(EntryPairs(rest[0], year), YearsFrom(rest[1..], YearAfter(rest[0], year)))
  {
    var r := YearsFrom(rest[1..], year);
    if !HasChar(rest[0], ':') && rest[0] == [] && r.Appended? {
      assert [] + r.pairs == r.pairs;
    }
  }

  lemma YearsRaise(entries: seq<string>, i: nat, year: Option<string>, added: seq<(string, string)>)
    requires i < |entries| && EntryRaises(entries[i], year)
    requires YearsFrom(entries, None) == Prepend(added, YearsFrom(entries[i..], year))
    ensures YearsFrom(entries, None)
            == YearsRaised(if HasChar(entries[i], ':') then TooManyColons(entries[i]) else YearUnbound(entries[i]))
  {
  }

  lemma PrependTwice(a: seq<(string, string)>, r: Years)
    ensures forall b :: Prepend(a, Prepend(b, r)) == Prepend(a + b, r)
  {
    forall b ensures Prepend(a, Prepend(b, r)) == Prepend(a + b, r) {
      if r.Appended? {
        assert a + (b + r.pairs) == (a + b) + r.pairs;
      }
    }
  }

  /** Recorded publication information keeps publisher, country, years and
      languages as they were, and the merge cannot fail. */
  lemma PubinfoKept(m: Meta, rec: WorkflowRecord, handled: seq<string>)
    requires HasPubinfo(m)
    ensures MergeRecord(m, rec, handled).Merged?
    ensures var r := MergeRecord(m, rec, handled).meta;
            r.languages == m.languages && r.publisher == m.publisher
            && r.country == m.country && r.years == m.years
  {
  }

  /** A request key already present is kept; an empty one takes the record's. */
  lemma RequestKeyFilledOnlyWhenEmpty(m: Meta, rec: WorkflowRecord, handled: seq<string>)
    requires MergeRecord(m, rec, handled).Merged?
    ensures MergeRecord(m, rec, handled).meta.requestKey
            == (if Truthy(m.requestKey) then m.requestKey else rec.requestKey)
  {
  }

  /** A credit already present is kept; an empty one takes the record's. */
  lemma CreditFilledOnlyWhenEmpty(m: Meta, rec: WorkflowRecord, handled: seq<string>)
    requires MergeRecord(m, rec, handled).Merged?
    ensures MergeRecord(m, rec, handled).meta.credit
            == (if Truthy(m.credit) then m.credit else rec.credit)
  {
  }

  /** Scan URLs already present are kept; an empty set takes the record's
      URLs, a single string standing for a one-element list. */
  lemma ScanUrlsFilledOnlyWhenEmpty(m: Meta, rec: WorkflowRecord, handled: seq<string>)
    requires MergeRecord(m, rec, handled).Merged?
    ensures MergeRecord(m, rec, handled).meta.scanUrls
            == (if m.scanUrls != {} || AsList(rec.scans).None? then m.scanUrls
                else Elements(AsList(rec.scans).value))
  {
  }

  /** Without publication information the record's publisher and country
      replace the book's, and the years loop appends to its years. */
  lemma PubinfoTaken(m: Meta, rec: WorkflowRecord, handled: seq<string>)
    requires !HasPubinfo(m) && MergeRecord(m, rec, handled).Merged?
    ensures var r := MergeRecord(m, rec, handled).meta;
            r.publisher == rec.publisher && r.country == rec.country
            && r.years == (if AsList(rec.years).None? then m.years
                           else m.years + YearsFrom(AsList(rec.years).value, None).pairs)
  {
  }

  /** Only the years loop raises. */
  lemma OnlyYearsFail(m: Meta, rec: WorkflowRecord, handled: seq<string>)
    requires MergeRecord(m, rec, handled).Failed?
    ensures !HasPubinfo(m) && AsList(rec.years).Some?
    ensures YearsFrom(AsList(rec.years).value, None) == YearsRaised(MergeRecord(m, rec, handled).err)
  {
  }

  /** The book is saved exactly when the record set a language, a truthy
      publisher, country, request key or credit, or supplied years or scan
      URLs that were taken. */
  lemma ChangedIff(m: Meta, rec: WorkflowRecord, handled: seq<string>)
    requires MergeRecord(m, rec, handled).Merged?
    ensures MergeRecord(m, rec, handled).changed <==>
              (!HasPubinfo(m) && (m.languages == [] || m.languages[0] == "en") && Truthy(rec.language))
              || (!HasPubinfo(m) && (Truthy(rec.publisher) || Truthy(rec.country) || AsList(rec.years).Some?))
              || (m.scanUrls == {} && AsList(rec.scans).Some?)
              || (!Truthy(m.requestKey) && Truthy(rec.requestKey))
              || (!Truthy(m.credit) && Truthy(rec.credit))
  {
  }

  /** Entries of the form `event:year` append their pairs in input order. */
  lemma {:induction false} EventYearsInOrder(entries: seq<string>, year: Option<string>)
    requires forall i :: 0 <= i < |entries| ==> |Split(entries[i], ':')| == 2
    ensures YearsFrom(entries, year).Appended?
    ensures var p := YearsFrom(entries, year).pairs;
            |p| == |entries|
            && forall i :: 0 <= i < |entries| ==>
                 p[i] == (Split(entries[i], ':')[0], Split(entries[i], ':')[1])
  {
    if entries != [] {
      var e := entries[0];
      var parts := Split(e, ':');
      assert HasChar(e, ':') by {
        if !HasChar(e, ':') {
          SplitNoSep(e, ':');
        }
      }
      EventYearsInOrder(entries[1..], Some(parts[1]));
      var p := YearsFrom(entries, year).pairs;
      forall i | 0 < i < |entries|
        ensures p[i] == (Split(entries[i], ':')[0], Split(entries[i], ':')[1])
      {
        assert entries[1..][i - 1] == entries[i];
      }
    }
  }

  /** Entry `i` raises when it reaches the loop: too many colons, or no
      colon and no year bound before it. */
  predicate Raises(entries: seq<string>, year: Option<string>, i: int)
    requires 0 <= i < |entries|
  {
    var e := entries[i];
    if HasChar(e, ':') then |Split(e, ':')| != 2
    else e != [] && year.None? && forall j :: 0 <= j < i ==> !HasChar(entries[j], ':')
  }

  /** The years loop fails exactly when some entry raises. */
  lemma {:induction false} YearsFailIff(entries: seq<string>, year: Option<string>)
    ensures YearsFrom(entries, year).YearsRaised? <==> exists i :: 0 <= i < |entries| && Raises(entries, year, i)
  {
    if entries != [] {
      var e := entries[0];
      var rest := entries[1..];
      if HasChar(e, ':') {
        var parts := Split(e, ':');
        if |parts| == 2 {
          YearsFailIff(rest, Some(parts[1]));
          forall i | 1 <= i < |entries| ensures Raises(entries, year, i) <==> Raises(rest, Some(parts[1]), i - 1) {
            assert rest[i - 1] == entries[i];
          }
          if YearsFrom(rest, Some(parts[1])).YearsRaised? {
            var k :| 0 <= k < |rest| && Raises(rest, Some(parts[1]), k);
            assert Raises(entries, year, k + 1);
          }
        } else {
          assert Raises(entries, year, 0);
        }
      } else if e != [] && year.None? {
        assert Raises(entries, year, 0);
      } else {
        YearsFailIff(rest, year);
        forall i | 1 <= i < |entries| ensures Raises(entries, year, i) <==> Raises(rest, year, i - 1) {
          assert rest[i - 1] == entries[i];
          if !HasChar(entries[i], ':') && year.None? {
            assert (forall j :: 0 <= j < i ==> !HasChar(entries[j], ':'))
                   <==> (forall j :: 0 <= j < i - 1 ==> !HasChar(rest[j], ':'));
          }
        }
        if YearsFrom(rest, year).YearsRaised? {
          var k :| 0 <= k < |rest| && Raises(rest, year, k);
          assert Raises(entries, year, k + 1);
        }
      }
    }
  }

  /** A bare entry after `event:year` is recorded as a copyright in that
      year; its own text is not used. */
  lemma BareEntryReusesYear(event: string, year: string, bare: string)
    requires !HasChar(event, ':') && !HasChar(year, ':') && !HasChar(bare, ':') && bare != []
    ensures YearsFrom([event + ":" + year, bare], None)
            == Appended([(event, year), ("copyright", year)])
  {
    var e := event + ":" + year;
    SplitJoin([event, year], ':');
    assert Join([':'], [event, year]) == e;
    assert HasChar(e, ':') by { assert e[|event|] == ':'; }
    assert [e, bare][1..] == [bare];
    assert [bare][1..] == [];
    assert Split(e, ':') == [event, year];
    assert YearsFrom([bare], Some(year)) == Appended([("copyright", year)] + []);
  }

  /** A first entry without `:` reads `year` before anything binds it. */
  lemma BareFirstEntryRaises(bare: string, rest: seq<string>)
    requires !HasChar(bare, ':') && bare != []
    ensures YearsFrom([bare] + rest, None) == YearsRaised(YearUnbound(bare))
  {
    assert ([bare] + rest)[0] == bare;
  }

  /*** the bare entry as evidently intended ***/

  /** The years loop with a bare entry recorded as a copyright in the year
      it names, `('copyright', event_year)`. */
  function YearsFromIntended(entries: seq<string>): (r: Years)
    ensures r.YearsRaised? ==> r.err.TooManyColons?
    decreases |entries|
  {
    if entries == [] then Appended([])
    else
      var e := entries[0];
      if HasChar(e, ':') then
        var parts := Split(e, ':');
        if |parts| != 2 then YearsRaised(TooManyColons(e))
        else Prepend([(parts[0], parts[1])], YearsFromIntended(entries[1..]))
      else if e != [] then Prepend([("copyright", e)], YearsFromIntended(entries[1..]))
      else YearsFromIntended(entries[1..])
  }

  /** Every non-empty bare entry becomes a copyright in its own year, in
      input order. */
  lemma {:induction false} BareEntriesKeepOwnYear(entries: seq<string>)
    requires forall i :: 0 <= i < |entries| ==> !HasChar(entries[i], ':') && entries[i] != []
    ensures YearsFromIntended(entries)
            == Appended(seq(|entries|, i requires 0 <= i < |entries| => ("copyright", entries[i])))
  {
    if entries != [] {
      BareEntriesKeepOwnYear(entries[1..]);
      var tail := seq(|entries| - 1, i requires 0 <= i < |entries| - 1 => ("copyright", entries[1..][i]));
      assert [("copyright", entries[0])] + tail
             == seq(|entries|, i requires 0 <= i < |entries| => ("copyright", entries[i]));
    }
  }

  /** The corrected loop fails only on an entry with two or more colons. */
  lemma {:induction false} IntendedFailsIff(entries: seq<string>)
    ensures YearsFromIntended(entries).YearsRaised? <==>
              exists i :: 0 <= i < |entries| && HasChar(entries[i], ':') && |Split(entries[i], ':')| != 2
  {
    if entries != [] {
      var rest := entries[1..];
      IntendedFailsIff(rest);
      forall i | 1 <= i < |entries| ensures entries[i] == rest[i - 1] {}
      if YearsFromIntended(rest).YearsRaised? {
        var k :| 0 <= k < |rest| && HasChar(rest[k], ':') && |Split(rest[k], ':')| != 2;
        assert entries[k + 1] == rest[k];
      }
    }
  }

  /** On entries that all read `event:year`, the corrected loop appends
      what the loop as written appends. */
  lemma {:induction false} IntendedAgreesOnEvents(entries: seq<string>, year: Option<string>)
    requires forall i :: 0 <= i < |entries| ==> HasChar(entries[i], ':')
    ensures YearsFromIntended(entries) == YearsFrom(entries, year)
  {
    if entries != [] {
      var parts := Split(entries[0], ':');
      forall i | 0 <= i < |entries[1..]| ensures HasChar(entries[1..][i], ':') {
        assert entries[1..][i] == entries[i + 1];
      }
      IntendedAgreesOnEvents(entries[1..], if |parts| == 2 then Some(parts[1]) else year);
    }
  }
}
