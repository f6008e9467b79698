/** The clean-up of a book's credit lines (MARC 508 attributes): "Updated:"
    notes are dropped, and when several credits remain only the longest
    ones are kept. */
module RemoveExtraCredits {
  import opened Strings
  import opened Optional

  /** A row of the attributes table: key, MARC code, text. */
  datatype Attribute = Attribute(pk: int, marc: int, text: string)

  const CreditMarc: int := 508

  /** A 508 attribute that records an update rather than a credit. */
  predicate IsUpdateNote(a: Attribute) {
    a.marc == CreditMarc && StartsWith(a.text, "Updated:")
  }

  /** A 508 attribute that is a real credit. */
  predicate IsCredit(a: Attribute) {
    a.marc == CreditMarc && !StartsWith(a.text, "Updated:")
  }

  /** The update notes among `attrs`, in order. */
  function UpdateNotes(attrs: seq<Attribute>): (r: seq<Attribute>)
    ensures forall k :: 0 <= k < |r| ==> IsUpdateNote(r[k])
  {
    if attrs == [] then []
    else
      var front := UpdateNotes(attrs[..|attrs| - 1]);
      var a := attrs[|attrs| - 1];
      if IsUpdateNote(a) then front + [a] else front
  }

  /** The credits among `attrs`, in order (the `credits` list). */
  function Credits(attrs: seq<Attribute>): (r: seq<Attribute>)
    ensures forall k :: 0 <= k < |r| ==> IsCredit(r[k])
  {
    if attrs == [] then []
    else
      var front := Credits(attrs[..|attrs| - 1]);
      var a := attrs[|attrs| - 1];
      if IsCredit(a) then front + [a] else front
  }

  /** `longest`: the greatest text length, 0 for no credit. */
  function Longest(credits: seq<Attribute>): (m: nat)
    ensures forall k :: 0 <= k < |credits| ==> |credits[k].text| <= m
    ensures credits == [] ==> m == 0
    ensures credits != [] ==> exists k :: 0 <= k < |credits| && |credits[k].text| == m
  {
    if credits == [] then 0
    else
      var front := Longest(credits[..|credits| - 1]);
      var n := |credits[|credits| - 1].text|;
      assert forall k :: 0 <= k < |credits| - 1 ==> credits[..|credits| - 1][k] == credits[k];
      if front < n then n else front
  }

  /** The credits shorter than `longest`, in order. */
  function Shorter(credits: seq<Attribute>, longest: nat): (r: seq<Attribute>)
    ensures forall k :: 0 <= k < |r| ==> |r[k].text| < longest && r[k] in credits
  {
    if credits == [] then []
    else
      var front := Shorter(credits[..|credits| - 1], longest);
      var a := credits[|credits| - 1];
      if |a.text| < longest then front + [a] else front
  }

  /** The text of the last credit at least `longest` long (what the report
      line prints). */
  function LastLongest(credits: seq<Attribute>, longest: nat): (r: Option<string>)
    ensures r.Some? ==> exists k :: 0 <= k < |credits| && credits[k].text == r.value && |r.value| >= longest
  {
    if credits == [] then None
    else
      var a := credits[|credits| - 1];
      if |a.text| < longest then LastLongest(credits[..|credits| - 1], longest)
      else Some(a.text)
  }

  /** The attributes deleted for a book, in the order they are deleted. */
  function Deleted(attrs: seq<Attribute>): seq<Attribute> {
    var credits := Credits(attrs);
    UpdateNotes(attrs) + (if |credits| > 1 then Shorter(credits, Longest(credits)) else [])
  }

  /** What the report line prints for a book, if it prints one. */
  function Reported(attrs: seq<Attribute>): Option<string> {
    var credits := Credits(attrs);
    if |credits| > 1 then LastLongest(credits, Longest(credits)) else None
  }

  /** The loop body for one book. */
  method PruneBook(attributes: seq<Attribute>) returns (deleted: seq<Attribute>, reported: Option<string>)
    ensures deleted == Deleted(attributes)
    ensures reported == Reported(attributes)
  {
    var credits, longest;
    deleted, credits, longest := CollectCredits(attributes);
    reported := None;
    if |credits| > 1 {
      var shorter;
      shorter, reported := DropShorter(credits, longest);
      deleted := deleted + shorter;
    }
  }

  /** The first pass: update notes are deleted, the other credits collected
      with the greatest length among them. */
  method CollectCredits(attributes: seq<Attribute>) returns (deleted: seq<Attribute>, credits: seq<Attribute>, longest: nat)
    ensures deleted == UpdateNotes(attributes)
    ensures credits == Credits(attributes)
    ensures longest == Longest(credits)
  {
    credits, longest, deleted := [], 0, [];
    var i := 0;
    while i < |attributes|
      invariant 0 <= i <= |attributes|
      invariant deleted == UpdateNotes(attributes[..i])
      invariant credits == Credits(attributes[..i])
      invariant longest == Longest(credits)
    {
      var att := attributes[i];
      PrefixStep(attributes, i);
      if att.marc == CreditMarc {
        if StartsWith(att.text, "Updated:") {
          deleted := deleted + [att];
        } else {
          assert (credits + [att])[..|credits|] == credits;
          credits := credits + [att];
          longest := if longest < |att.text| then |att.text| else longest;
        }
      }
      i := i + 1;
    }
    assert attributes[..|attributes|] == attributes;
  }

  /** One more attribute adds itself to the notes or to the credits. */
  lemma PrefixStep(attributes: seq<Attribute>, i: nat)
    requires i < |attributes|
    ensures var a := attributes[i];
      UpdateNotes(attributes[..i + 1]) == UpdateNotes(attributes[..i]) + (if IsUpdateNote(a) then [a] else [])
    ensures var a := attributes[i];
      Credits(attributes[..i + 1]) == Credits(attributes[..i]) + (if IsCredit(a) then [a] else [])
  {
    var p := attributes[..i + 1];
    assert p[..i] == attributes[..i] && p[i] == attributes[i];
  }

  /** The second pass: credits shorter than `longest` are deleted; the text
      of the last one kept is reported. */
  method DropShorter(credits: seq<Attribute>, longest: nat) returns (deleted: seq<Attribute>, text: Option<string>)
    ensures deleted == Shorter(credits, longest)
    ensures text == LastLongest(credits, longest)
  {
    deleted, text := [], None;
    var j := 0;
    while j < |credits|
      invariant 0 <= j <= |credits|
      invariant deleted == Shorter(credits[..j], longest)
      invariant text == LastLongest(credits[..j], longest)
    {
      var att := credits[j];
      assert credits[..j + 1][..j] == credits[..j];
      if |att.text| < longest {
        deleted := deleted + [att];
      } else {
        text := Some(att.text);
      }
      j := j + 1;
    }
    assert credits[..|credits|] == credits;
  }

  /** Whether an attribute of a book with attributes `attrs` is deleted. */
  predicate WillDelete(attrs: seq<Attribute>, a: Attribute) {
    var credits := Credits(attrs);
    IsUpdateNote(a) || (IsCredit(a) && |credits| > 1 && |a.text| < Longest(credits))
  }

  lemma {:induction false} UpdateNotesIff(attrs: seq<Attribute>, a: Attribute)
    ensures a in UpdateNotes(attrs) <==> a in attrs && IsUpdateNote(a)
  {
    if attrs != [] {
      var front := attrs[..|attrs| - 1];
      UpdateNotesIff(front, a);
      assert attrs == front + [attrs[|attrs| - 1]];
    }
  }

  lemma {:induction false} CreditsIff(attrs: seq<Attribute>, a: Attribute)
    ensures a in Credits(attrs) <==> a in attrs && IsCredit(a)
  {
    if attrs != [] {
      var front := attrs[..|attrs| - 1];
      CreditsIff(front, a);
      assert attrs == front + [attrs[|attrs| - 1]];
    }
  }

  lemma {:induction false} ShorterIff(credits: seq<Attribute>, longest: nat, a: Attribute)
    ensures a in Shorter(credits, longest) <==> a in credits && |a.text| < longest
  {
    if credits != [] {
      var front := credits[..|credits| - 1];
      ShorterIff(front, longest, a);
      assert credits == front + [credits[|credits| - 1]];
    }
  }

  /** An attribute is deleted exactly when it is an update note, or a credit
      shorter than the longest one while more than one credit remains; so
      attributes other than 508 are never deleted. */
  lemma DeletedIff(attrs: seq<Attribute>, a: Attribute)
    ensures a in Deleted(attrs) <==> a in attrs && WillDelete(attrs, a)
    ensures a.marc != CreditMarc ==> a !in Deleted(attrs)
  {
    UpdateNotesIff(attrs, a);
    CreditsIff(attrs, a);
    var credits := Credits(attrs);
    ShorterIff(credits, Longest(credits), a);
  }

  /** With at most one credit, only the update notes go. */
  lemma SingleCreditKept(attrs: seq<Attribute>)
    requires |Credits(attrs)| <= 1
    ensures Deleted(attrs) == UpdateNotes(attrs)
    ensures Reported(attrs) == None
  {
  }

  /** With several credits, a line is always reported, and it is the text of
      one of the longest credits. */
  lemma ReportedIsLongest(attrs: seq<Attribute>)
    requires |Credits(attrs)| > 1
    ensures Reported(attrs).Some?
    ensures exists k :: 0 <= k < |Credits(attrs)| && Credits(attrs)[k].text == Reported(attrs).value
    ensures |Reported(attrs).value| == Longest(Credits(attrs))
  {
    var credits := Credits(attrs);
    var k :| 0 <= k < |credits| && |credits[k].text| == Longest(credits);
    LastLongestFound(credits, Longest(credits), k);
  }

  lemma {:induction false} LastLongestFound(credits: seq<Attribute>, longest: nat, k: nat)
    requires k < |credits| && |credits[k].text| >= longest
    ensures LastLongest(credits, longest).Some?
  {
    var last := |credits| - 1;
    if k < last && |credits[last].text| < longest {
      assert credits[..last][k] == credits[k];
      LastLongestFound(credits[..last], longest, k);
    }
  }

  /** What a book keeps after the pruning. */
  function Remaining(attrs: seq<Attribute>): seq<Attribute> {
    Keep(attrs, attrs)
  }

  /** The attributes of `part` that the pruning of `whole` keeps. */
  function Keep(whole: seq<Attribute>, part: seq<Attribute>): (r: seq<Attribute>)
    ensures forall k :: 0 <= k < |r| ==> r[k] in part && !WillDelete(whole, r[k])
  {
    if part == [] then []
    else
      var front := Keep(whole, part[..|part| - 1]);
      var a := part[|part| - 1];
      if WillDelete(whole, a) then front else front + [a]
  }

  /** After the pruning, a book with several credits keeps only credits of
      the longest length, and at least one of them. */
  lemma SurvivorsAreLongest(attrs: seq<Attribute>)
    requires |Credits(attrs)| > 1
    ensures forall a :: a in Credits(Remaining(attrs)) ==> |a.text| == Longest(Credits(attrs))
    ensures Credits(Remaining(attrs)) != []
  {
    var credits := Credits(attrs);
    forall a | a in Credits(Remaining(attrs))
      ensures |a.text| == Longest(credits)
    {
      CreditsIff(Remaining(attrs), a);
      CreditsIff(attrs, a);
      var k :| 0 <= k < |credits| && credits[k] == a;
    }
    var k :| 0 <= k < |credits| && |credits[k].text| == Longest(credits);
    var a := credits[k];
    CreditsIff(attrs, a);
    KeepHas(attrs, attrs, a);
    CreditsIff(Remaining(attrs), a);
  }

  lemma {:induction false} KeepHas(whole: seq<Attribute>, part: seq<Attribute>, a: Attribute)
    requires a in part && !WillDelete(whole, a)
    ensures a in Keep(whole, part)
  {
    var last := part[|part| - 1];
    if a != last {
      var front := part[..|part| - 1];
      assert part == front + [last];
      KeepHas(whole, front, a);
    }
  }

  /** Credits that all have one length are not shortened further. */
  lemma {:induction false} EqualLengthsNotShorter(credits: seq<Attribute>, m: nat)
    requires credits != []
    requires forall k :: 0 <= k < |credits| ==> |credits[k].text| == m
    ensures Longest(credits) == m
    ensures Shorter(credits, m) == []
  {
    var front := credits[..|credits| - 1];
    if front != [] {
      EqualLengthsNotShorter(front, m);
    }
  }

  /** The pruning is idempotent: a second run deletes nothing. */
  lemma PruneIdempotent(attrs: seq<Attribute>)
    ensures Deleted(Remaining(attrs)) == []
  {
    var rest := Remaining(attrs);
    var notes := UpdateNotes(rest);
    if notes != [] {
      var a := notes[0];
      UpdateNotesIff(rest, a);
    }
    var credits := Credits(rest);
    if |credits| > 1 {
      var whole := Credits(attrs);
      if |whole| <= 1 {
        CreditsOfKeep(attrs, attrs);
      }
      SurvivorsAreLongest(attrs);
      EqualLengthsNotShorter(credits, Longest(whole));
    }
  }

  /** With at most one credit in the book, no credit is dropped. */
  lemma {:induction false} CreditsOfKeep(whole: seq<Attribute>, part: seq<Attribute>)
    requires |Credits(whole)| <= 1
    ensures Credits(Keep(whole, part)) == Credits(part)
  {
    if part != [] {
      var front := part[..|part| - 1];
      var a := part[|part| - 1];
      CreditsOfKeep(whole, front);
      var kept := Keep(whole, front);
      if !WillDelete(whole, a) {
        assert (kept + [a])[..|kept|] == kept;
      }
    }
  }
}
