/** The address book of Notifier: notification addresses kept per ebook,
    under the key `str(int(ebook))`. */
module Notifier {
  import opened Strings
  import opened Optional
  import opened Numerals

  /** What callers pass as the ebook: a number or its text. */
  datatype EbookArg = Number(n: int) | Text(s: string)

  /** `str(int(ebook))`; `None` is the ValueError of an ebook that is not an integer. */
  function BookKey(ebook: EbookArg): (k: Option<string>)
    ensures ebook.Number? ==> k == Some(IntToString(ebook.n))
    ensures ebook.Text? ==> (k.Some? <==> ParseInt(ebook.s).Some?)
  {
    match ebook
    case Number(n) => Some(IntToString(n))
    case Text(s) =>
      match ParseInt(s)
      case None => None
      case Some(n) => Some(IntToString(n))
  }

  /** `addresses.append(email)` unless it is already listed. */
  function WithAddress(addresses: seq<string>, email: string): seq<string> {
    if email in addresses then addresses else addresses + [email]
  }

  /** The book after `add_email` with the normalised key. */
  function AddToKey(book: map<string, seq<string>>, key: Option<string>, email: string): map<string, seq<string>> {
    match key
    case None => book
    case Some(k) => book[k := WithAddress(if k in book then book[k] else [], email)]
  }

  /** The book after `add_email(ebook, email)`. */
  function AddToBook(book: map<string, seq<string>>, ebook: EbookArg, email: string): map<string, seq<string>> {
    AddToKey(book, BookKey(ebook), email)
  }

  /** `get(ebook)` on a book. */
  function Lookup(book: map<string, seq<string>>, ebook: EbookArg): seq<string> {
    match BookKey(ebook)
    case None => []
    case Some(k) => if k in book then book[k] else []
  }

  class AddressBook {
    var addressBook: map<string, seq<string>>

    /** The book read from the notify file, or an empty one when the file is missing. */
    constructor (loaded: Option<map<string, seq<string>>>)
      ensures addressBook == (if loaded.Some? then loaded.value else map[])
    {
      addressBook := if loaded.Some? then loaded.value else map[];
    }

    /** `add_email(ebook, email)` */
    method AddEmail(ebook: EbookArg, email: string) returns (added: bool)
      modifies this
      ensures added <==> BookKey(ebook).Some?
      ensures addressBook == AddToKey(old(addressBook), BookKey(ebook), email)
    {
      var key := BookKey(ebook);
      added := key.Some?;
      if added {
        AddUnderKey(key.value, email);
      }
    }

    /** The body of `add_email` once the key is known: the list under the
        key is created when missing, and the address appended unless it is
        already there. */
    method AddUnderKey(k: string, email: string)
      modifies this
      ensures addressBook == AddToKey(old(addressBook), Some(k), email)
    {
      ghost var book0 := addressBook;
      var addresses: seq<string>;
      if k in addressBook {
        addresses := addressBook[k];
      } else {
        addresses := [];
        addressBook := addressBook[k := addresses];
      }
      if email !in addresses {
        addresses := addresses + [email];
      }
      assert addresses == WithAddress(if k in book0 then book0[k] else [], email);
      addressBook := addressBook[k := addresses];
      assert addressBook == book0[k := addresses];
    }

    /** `get(ebook)` */
    method Get(ebook: EbookArg) returns (addresses: seq<string>)
      ensures addresses == Lookup(addressBook, ebook)
      ensures BookKey(ebook).None? ==> addresses == []
    {
      var key := BookKey(ebook);
      if key.None? {
        return [];
      }
      addresses := if key.value in addressBook then addressBook[key.value] else [];
    }
  }

  /** A rejected ebook leaves the book as it was. */
  lemma RejectedEbookUnchanged(book: map<string, seq<string>>, ebook: EbookArg, email: string)
    requires BookKey(ebook).None?
    ensures AddToBook(book, ebook, email) == book
    ensures Lookup(book, ebook) == []
  {
  }

  /** After a successful `add_email`, `get` lists the address, after the
      ones already there, and only once if it was already listed. */
  lemma AddThenGet(book: map<string, seq<string>>, ebook: EbookArg, email: string)
    requires BookKey(ebook).Some?
    ensures email in Lookup(AddToBook(book, ebook, email), ebook)
    ensures Lookup(AddToBook(book, ebook, email), ebook)
            == Lookup(book, ebook) + (if email in Lookup(book, ebook) then [] else [email])
  {
  }

  /** Adding an address already listed changes nothing that `get` can see. */
  lemma AddListedIsNoop(book: map<string, seq<string>>, ebook: EbookArg, email: string)
    requires email in Lookup(book, ebook)
    ensures AddToBook(book, ebook, email) == book
  {
  }

  /** Other ebooks keep their entries. */
  lemma AddLeavesOthers(book: map<string, seq<string>>, ebook: EbookArg, other: EbookArg, email: string)
    requires BookKey(other) != BookKey(ebook)
    ensures Lookup(AddToBook(book, ebook, email), other) == Lookup(book, other)
  {
  }

  predicate NoRepeats(s: seq<string>) {
    forall i, j :: 0 <= i < j < |s| ==> s[i] != s[j]
  }

  /** A book whose lists have no repeated address keeps that property. */
  lemma AddKeepsNoRepeats(book: map<string, seq<string>>, ebook: EbookArg, email: string)
    requires forall k :: k in book ==> NoRepeats(book[k])
    ensures var b := AddToBook(book, ebook, email); forall k :: k in b ==> NoRepeats(b[k])
  {
    var b := AddToBook(book, ebook, email);
    if BookKey(ebook).Some? {
      var key := BookKey(ebook).value;
      var before := if key in book then book[key] else [];
      var after := WithAddress(before, email);
      assert NoRepeats(before);
      if email !in before {
        forall i, j | 0 <= i < j < |after| ensures after[i] != after[j] {
          if j == |before| {
            assert after[i] == before[i];
          }
        }
      }
    }
  }

  /** The number and its text address the same entry: `42`, `"42"` and `"0042"`. */
  lemma KeysNormalised(n: nat, zeros: nat)
    ensures BookKey(Text(IntToString(n))) == BookKey(Number(n))
    ensures BookKey(Text(Zeros(zeros) + NatToString(n))) == BookKey(Number(n))
  {
    ParseIntOfString(n);
    LeadingZerosParse(zeros, n);
  }

  /** `get` of an ebook the book does not know is empty. */
  lemma UnknownEbookEmpty(book: map<string, seq<string>>, ebook: EbookArg)
    requires BookKey(ebook).None? || BookKey(ebook).value !in book
    ensures Lookup(book, ebook) == []
  {
  }
}
