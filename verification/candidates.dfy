/** Build candidates: the files registered for an ebook, as read from the
    database and rewritten to archive-relative paths, and the ranking
    `filter_sort` applies to them for one list of preferred format globs. */
module Candidates {
  import opened Strings
  import opened Numerals
  import opened Paths
  import opened Globs
  import opened Optional

  /** A source or generated file. `id` stands for object identity: the
      database key of a registered file, or a negative number for a
      candidate made up during the current pass. */
  datatype Candidate = Candidate(
    id: int,
    archivePath: string,
    format: string,
    modified: int,
    extent: int,
    generated: bool)

  /*** filter_sort ***/

  /** Index of the first glob that `fmt` matches, or `|globs|` if none does. */
  function FirstMatch(globs: seq<string>, fmt: string): (k: nat)
    ensures k <= |globs|
    ensures k < |globs| ==> Match(fmt, globs[k])
    ensures forall i :: 0 <= i < k ==> !Match(fmt, globs[i])
  {
    if globs == [] then 0
    else if Match(fmt, globs[0]) then 0
    else 1 + FirstMatch(globs[1..], fmt)
  }

  /** Index of the first occurrence of `c` in `cands`. */
  function Pos(cands: seq<Candidate>, c: Candidate): (p: nat)
    requires c in cands
    ensures p < |cands| && cands[p] == c
    ensures forall q :: 0 <= q < p ==> cands[q] != c
  {
    if cands[0] == c then 0 else 1 + Pos(cands[1..], c)
  }

  /** One pass of the inner loop over the first `j` candidates for glob `g`:
      a matching candidate not yet collected is appended. */
  function AddUpTo(g: string, cands: seq<Candidate>, j: nat, acc: seq<Candidate>): seq<Candidate>
    requires j <= |cands|
  {
    if j == 0 then acc
    else
      var r := AddUpTo(g, cands, j - 1, acc);
      var c := cands[j - 1];
      if Match(c.format, g) && c !in r then r + [c] else r
  }

  /** What the outer loop has collected after the first `k` globs. */
  function Collected(globs: seq<string>, cands: seq<Candidate>, k: nat): seq<Candidate>
    requires k <= |globs|
  {
    if k == 0 then [] else AddUpTo(globs[k - 1], cands, |cands|, Collected(globs, cands, k - 1))
  }

  /** `filter_sort(globs, cands, lambda x: x.format)` */
  function FilterSortSpec(globs: seq<string>, cands: seq<Candidate>): seq<Candidate> {
    Collected(globs, cands, |globs|)
  }

  /** The ranking order: first by the first glob matched, then by position
      in the input. */
  predicate KeyLess(globs: seq<string>, cands: seq<Candidate>, a: Candidate, b: Candidate) {
    a in cands && b in cands
    && (FirstMatch(globs, a.format) < FirstMatch(globs, b.format)
        || (FirstMatch(globs, a.format) == FirstMatch(globs, b.format) && Pos(cands, a) < Pos(cands, b)))
  }

  /** `r` holds exactly the candidates whose first matching glob is below `k`,
      in ranking order. */
  ghost predicate RankedPrefix(globs: seq<string>, cands: seq<Candidate>, k: nat, r: seq<Candidate>) {
    (forall c :: c in r <==> c in cands && FirstMatch(globs, c.format) < k)
    && (forall i, j :: 0 <= i < j < |r| ==> KeyLess(globs, cands, r[i], r[j]))
  }

  lemma {:induction false} AddUpToInvariant(globs: seq<string>, cands: seq<Candidate>, k: nat, j: nat, acc: seq<Candidate>)
    requires k < |globs| && j <= |cands|
    requires RankedPrefix(globs, cands, k, acc)
    ensures var r := AddUpTo(globs[k], cands, j, acc);
      (forall c :: c in r <==> c in acc || (c in cands[..j] && Match(c.format, globs[k])))
      && (forall c :: c in r && c !in acc ==> FirstMatch(globs, c.format) == k && Pos(cands, c) < j)
      && (forall a, b :: 0 <= a < b < |r| ==> KeyLess(globs, cands, r[a], r[b]))
  {
    if j > 0 {
      AddUpToInvariant(globs, cands, k, j - 1, acc);
      var prev := AddUpTo(globs[k], cands, j - 1, acc);
      var c := cands[j - 1];
      assert cands[..j] == cands[..j - 1] + [c];
      if Match(c.format, globs[k]) && c !in prev {
        var r := prev + [c];
        assert c !in acc;
        assert FirstMatch(globs, c.format) == k;
        assert Pos(cands, c) == j - 1 by {
          forall q | 0 <= q < j - 1 ensures cands[q] != c {
            assert cands[q] in cands[..j - 1];
          }
        }
        forall a, b | 0 <= a < b < |r| ensures KeyLess(globs, cands, r[a], r[b]) {
          if b == |r| - 1 {
            assert r[a] in prev;
          }
        }
      }
    }
  }

  lemma {:induction false} CollectedRanked(globs: seq<string>, cands: seq<Candidate>, k: nat)
    requires k <= |globs|
    ensures RankedPrefix(globs, cands, k, Collected(globs, cands, k))
  {
    if k > 0 {
      CollectedRanked(globs, cands, k - 1);
      AddUpToInvariant(globs, cands, k - 1, |cands|, Collected(globs, cands, k - 1));
      assert cands[..|cands|] == cands;
    }
  }

  /** The result holds exactly the candidates whose format matches one of the
      globs, and never the same candidate twice. */
  lemma FilterSortMembers(globs: seq<string>, cands: seq<Candidate>)
    ensures forall c :: c in FilterSortSpec(globs, cands) <==>
      c in cands && exists i :: 0 <= i < |globs| && Match(c.format, globs[i])
    ensures forall i, j :: 0 <= i < j < |FilterSortSpec(globs, cands)| ==>
      FilterSortSpec(globs, cands)[i] != FilterSortSpec(globs, cands)[j]
  {
    var r := FilterSortSpec(globs, cands);
    CollectedRanked(globs, cands, |globs|);
    forall c ensures c in r <==> c in cands && exists i :: 0 <= i < |globs| && Match(c.format, globs[i]) {
      if c in cands && exists i :: 0 <= i < |globs| && Match(c.format, globs[i]) {
        var i :| 0 <= i < |globs| && Match(c.format, globs[i]);
        assert FirstMatch(globs, c.format) <= i;
      }
    }
    forall i, j | 0 <= i < j < |r| ensures r[i] != r[j] {
      assert KeyLess(globs, cands, r[i], r[j]);
    }
  }

  /** Results come in ranking order: by first matching glob, then by input position. */
  lemma FilterSortOrdered(globs: seq<string>, cands: seq<Candidate>)
    ensures forall i, j :: 0 <= i < j < |FilterSortSpec(globs, cands)| ==>
      KeyLess(globs, cands, FilterSortSpec(globs, cands)[i], FilterSortSpec(globs, cands)[j])
  {
    CollectedRanked(globs, cands, |globs|);
  }

  /** The first result is the best-ranked matching candidate. */
  lemma {:induction false} FilterSortHead(globs: seq<string>, cands: seq<Candidate>, c: Candidate)
    requires c in cands && FirstMatch(globs, c.format) < |globs|
    ensures FilterSortSpec(globs, cands) != []
    ensures var h := FilterSortSpec(globs, cands)[0];
      h == c || KeyLess(globs, cands, h, c)
  {
    var r := FilterSortSpec(globs, cands);
    CollectedRanked(globs, cands, |globs|);
    assert c in r;
    var i :| 0 <= i < |r| && r[i] == c;
    if i > 0 {
      assert KeyLess(globs, cands, r[0], r[i]);
    }
  }

  /** A candidate at the front of the pool that matches the most preferred
      glob is the one chosen, which is how a freshly generated candidate
      feeds the next type of the same pass. */
  lemma FilterSortPicksFront(globs: seq<string>, cands: seq<Candidate>)
    requires globs != [] && cands != [] && Match(cands[0].format, globs[0])
    ensures FilterSortSpec(globs, cands) != [] && FilterSortSpec(globs, cands)[0] == cands[0]
  {
    FilterSortHead(globs, cands, cands[0]);
  }

  /** An empty glob list selects nothing. */
  lemma FilterSortNoGlobs(cands: seq<Candidate>)
    ensures FilterSortSpec([], cands) == []
  {
  }

  /** A sequence without repeated elements has as many elements as its set. */
  lemma {:induction false} DistinctCard<T>(s: seq<T>)
    requires forall i, j :: 0 <= i < j < |s| ==> s[i] != s[j]
    ensures |set x | x in s| == |s|
  {
    if s != [] {
      DistinctCard(s[1..]);
      assert s[0] !in s[1..] by {
        forall k | 0 <= k < |s[1..]| ensures s[1..][k] != s[0] {
          assert s[1..][k] == s[k + 1];
        }
      }
      assert (set x | x in s) == {s[0]} + (set x | x in s[1..]);
    }
  }

  /** Two sequences with the same elements, both strictly ordered by the same
      asymmetric relation, are equal. */
  lemma {:induction false} StrictlySortedUnique<T>(a: seq<T>, b: seq<T>, lt: (T, T) -> bool)
    requires forall x, y :: lt(x, y) ==> !lt(y, x)
    requires forall i, j :: 0 <= i < j < |a| ==> lt(a[i], a[j])
    requires forall i, j :: 0 <= i < j < |b| ==> lt(b[i], b[j])
    requires forall x :: x in a <==> x in b
    ensures a == b
    decreases |a|
  {
    DistinctCard(a);
    DistinctCard(b);
    assert (set x | x in a) == (set x | x in b);
    assert |a| == |b|;
    if a != [] {
      assert a[0] in b;
      var m :| 0 <= m < |b| && b[m] == a[0];
      assert b[0] in a;
      var n :| 0 <= n < |a| && a[n] == b[0];
      assert forall i :: 0 < i < |b| ==> lt(b[0], b[i]);
      assert forall i :: 0 < i < |a| ==> lt(a[0], a[i]);
      assert a[0] == b[0];
      forall x ensures x in a[1..] <==> x in b[1..] {
        if x in a[1..] {
          var i :| 1 <= i < |a| && a[i] == x;
          assert lt(a[0], a[i]);
          assert x in b;
          var k :| 0 <= k < |b| && b[k] == x;
          assert k != 0;
          assert x == b[1..][k - 1];
        }
        if x in b[1..] {
          var i :| 1 <= i < |b| && b[i] == x;
          assert lt(b[0], b[i]);
          assert x in a;
          var k :| 0 <= k < |a| && a[k] == x;
          assert k != 0;
          assert x == a[1..][k - 1];
        }
      }
      StrictlySortedUnique(a[1..], b[1..], lt);
      assert a == [a[0]] + a[1..] && b == [b[0]] + b[1..];
    }
  }

  /** In a ranked list every candidate sits at its first occurrence. */
  lemma RankedPositions(globs: seq<string>, cands: seq<Candidate>)
    ensures var r := FilterSortSpec(globs, cands);
      forall i :: 0 <= i < |r| ==> Pos(r, r[i]) == i
  {
    CollectedRanked(globs, cands, |globs|);
  }

  /** A ranked list is also in ranking order relative to itself. */
  lemma RankedSelfOrdered(globs: seq<string>, cands: seq<Candidate>)
    ensures var r := FilterSortSpec(globs, cands);
      forall i, j :: 0 <= i < j < |r| ==> KeyLess(globs, r, r[i], r[j])
  {
    var r := FilterSortSpec(globs, cands);
    CollectedRanked(globs, cands, |globs|);
    RankedPositions(globs, cands);
    forall i, j | 0 <= i < j < |r| ensures KeyLess(globs, r, r[i], r[j]) {
      assert KeyLess(globs, cands, r[i], r[j]);
      assert Pos(r, r[i]) == i && Pos(r, r[j]) == j;
    }
  }

  /** Filtering a ranked list again with the same globs changes nothing. */
  lemma FilterSortIdempotent(globs: seq<string>, cands: seq<Candidate>)
    ensures FilterSortSpec(globs, FilterSortSpec(globs, cands)) == FilterSortSpec(globs, cands)
  {
    var r := FilterSortSpec(globs, cands);
    var r2 := FilterSortSpec(globs, r);
    CollectedRanked(globs, cands, |globs|);
    CollectedRanked(globs, r, |globs|);
    RankedSelfOrdered(globs, cands);
    var lt := (x: Candidate, y: Candidate) => KeyLess(globs, r, x, y);
    assert forall i, j :: 0 <= i < j < |r| ==> lt(r[i], r[j]);
    assert forall i, j :: 0 <= i < j < |r2| ==> lt(r2[i], r2[j]);
    assert forall x :: x in r2 <==> x in r;
    StrictlySortedUnique(r2, r, lt);
  }

  /** `Candidates.filter_sort`: for each glob in turn, append every candidate
      whose format matches it and that is not yet in the result. */
  method FilterSort(globs: seq<string>, cands: seq<Candidate>) returns (result: seq<Candidate>)
    ensures result == FilterSortSpec(globs, cands)
  {
    result := [];
    for i := 0 to |globs|
      invariant result == Collected(globs, cands, i)
    {
      for j := 0 to |cands|
        invariant result == AddUpTo(globs[i], cands, j, Collected(globs, cands, i))
      {
        var c := cands[j];
        if Match(c.format, globs[i]) && c !in result {
          result := result + [c];
        }
      }
    }
  }

  /*** read_from_database ***/

  /** A row of the files query: already restricted to the ebook, to
      uncompressed, present, non-obsolete files, and in query order. */
  datatype FileRow = FileRow(
    id: nat,
    archivePath: string,
    fileType: Option<string>,
    fkFiletypes: string,
    encoding: Option<string>,
    modified: int,
    extent: int)

  /** Whether a row survives the loop's two `continue`s. */
  predicate KeepRow(ebook: int, row: FileRow) {
    !(ebook > 10000 && row.fileType == Some("html")
      && !StartsWith(Basename(row.archivePath), IntToString(ebook)))
    && row.fileType.Some?
  }

  /** The archive path rewrite; `adir` is `archive_dir(ebook)`. */
  function RewritePath(ebook: int, adir: string, path: string): string {
    if StartsWith(path, adir) then Replace(path, adir, "files/" + IntToString(ebook))
    else if StartsWith(path, "etext") then "dirs/" + path
    else path
  }

  /** `"%s/%s" % (fk_filetypes, encoding or 'unknown')` */
  function FormatTag(fkFiletypes: string, encoding: Option<string>): string {
    fkFiletypes + "/" + (if encoding.None? || encoding.value == "" then "unknown" else encoding.value)
  }

  function RowCandidate(ebook: int, adir: string, row: FileRow): Candidate {
    Candidate(row.id, RewritePath(ebook, adir, row.archivePath),
      FormatTag(row.fkFiletypes, row.encoding), row.modified, row.extent, false)
  }

  /** The candidates made from the first `n` rows. */
  function ReadRows(ebook: int, adir: string, rows: seq<FileRow>, n: nat): seq<Candidate>
    requires n <= |rows|
  {
    if n == 0 then []
    else if KeepRow(ebook, rows[n - 1]) then ReadRows(ebook, adir, rows, n - 1) + [RowCandidate(ebook, adir, rows[n - 1])]
    else ReadRows(ebook, adir, rows, n - 1)
  }

  function ReadSpec(ebook: int, adir: string, rows: seq<FileRow>): seq<Candidate> {
    ReadRows(ebook, adir, rows, |rows|)
  }

  /** `Candidates.read_from_database`, over the rows the query returned. */
  method ReadFromDatabase(ebook: int, adir: string, rows: seq<FileRow>) returns (candidates: seq<Candidate>)
    ensures candidates == ReadSpec(ebook, adir, rows)
  {
    candidates := [];
    for n := 0 to |rows|
      invariant candidates == ReadRows(ebook, adir, rows, n)
    {
      var row := rows[n];
      if ebook > 10000 && row.fileType == Some("html")
        && !StartsWith(Basename(row.archivePath), IntToString(ebook)) {
        continue;
      }
      if row.fileType.None? {
        continue;
      }
      var path := row.archivePath;
      if StartsWith(path, adir) {
        path := Replace(path, adir, "files/" + IntToString(ebook));
      } else if StartsWith(path, "etext") {
        path := "dirs/" + path;
      }
      candidates := candidates + [Candidate(row.id, path, FormatTag(row.fkFiletypes, row.encoding), row.modified, row.extent, false)];
    }
  }

  /** The positions of the kept rows among the first `n`, in query order. */
  function KeptIndices(ebook: int, rows: seq<FileRow>, n: nat): (idx: seq<nat>)
    requires n <= |rows|
    ensures forall j :: 0 <= j < |idx| ==> idx[j] < n
  {
    if n == 0 then []
    else if KeepRow(ebook, rows[n - 1]) then KeptIndices(ebook, rows, n - 1) + [n - 1]
    else KeptIndices(ebook, rows, n - 1)
  }

  /** The kept positions are exactly the rows below `n` that are kept, and
      they increase strictly. */
  lemma {:induction false} KeptIndicesExact(ebook: int, rows: seq<FileRow>, n: nat)
    requires n <= |rows|
    ensures var idx := KeptIndices(ebook, rows, n);
      (forall j :: 0 <= j < |idx| ==> KeepRow(ebook, rows[idx[j]]))
      && (forall j, j' :: 0 <= j < j' < |idx| ==> idx[j] < idx[j'])
      && (forall i :: 0 <= i < n && KeepRow(ebook, rows[i]) ==> i in idx)
  {
    if n > 0 {
      KeptIndicesExact(ebook, rows, n - 1);
    }
  }

  /** The candidates are the conversions of the kept rows, one for one and
      in query order. */
  lemma {:induction false} ReadRowsOrder(ebook: int, adir: string, rows: seq<FileRow>, n: nat)
    requires n <= |rows|
    ensures var out, idx := ReadRows(ebook, adir, rows, n), KeptIndices(ebook, rows, n);
      |out| == |idx| && forall j :: 0 <= j < |out| ==> out[j] == RowCandidate(ebook, adir, rows[idx[j]])
  {
    if n > 0 {
      ReadRowsOrder(ebook, adir, rows, n - 1);
    }
  }

  /** Each kept row is converted, each candidate is the conversion of a kept
      row, and every candidate is a database file with a slashed format. */
  lemma ReadRowsMembers(ebook: int, adir: string, rows: seq<FileRow>, n: nat)
    requires n <= |rows|
    ensures var out := ReadRows(ebook, adir, rows, n);
      |out| <= n
      && (forall i :: 0 <= i < n && KeepRow(ebook, rows[i]) ==> RowCandidate(ebook, adir, rows[i]) in out)
      && (forall c :: c in out ==> exists i :: 0 <= i < n && KeepRow(ebook, rows[i]) && c == RowCandidate(ebook, adir, rows[i]))
      && (forall c :: c in out ==> !c.generated && HasChar(c.format, '/'))
  {
    var out, idx := ReadRows(ebook, adir, rows, n), KeptIndices(ebook, rows, n);
    ReadRowsOrder(ebook, adir, rows, n);
    KeptIndicesExact(ebook, rows, n);
    IncreasingBelow(idx, n);
    forall i | 0 <= i < n && KeepRow(ebook, rows[i]) ensures RowCandidate(ebook, adir, rows[i]) in out {
      var j :| 0 <= j < |idx| && idx[j] == i;
      assert out[j] == RowCandidate(ebook, adir, rows[i]);
    }
    forall c | c in out
      ensures exists i :: 0 <= i < n && KeepRow(ebook, rows[i]) && c == RowCandidate(ebook, adir, rows[i])
      ensures !c.generated && HasChar(c.format, '/')
    {
      var j :| 0 <= j < |out| && out[j] == c;
      var row := rows[idx[j]];
      assert c == RowCandidate(ebook, adir, row);
      FormatTagRules(row.fkFiletypes, row.encoding);
    }
  }

  /** A strictly increasing sequence of positions below `n` is no longer than `n`. */
  lemma {:induction false} IncreasingBelow(idx: seq<nat>, n: nat)
    requires forall j :: 0 <= j < |idx| ==> idx[j] < n
    requires forall j, j' :: 0 <= j < j' < |idx| ==> idx[j] < idx[j']
    ensures |idx| <= n
  {
    if idx != [] {
      var last := idx[|idx| - 1];
      IncreasingBelow(idx[..|idx| - 1], last);
    }
  }

  /** Rows with distinct keys give candidates with distinct identities. */
  lemma ReadRowsDistinct(ebook: int, adir: string, rows: seq<FileRow>, n: nat)
    requires n <= |rows|
    requires forall i, j :: 0 <= i < j < |rows| ==> rows[i].id != rows[j].id
    ensures forall i, j :: 0 <= i < j < |ReadRows(ebook, adir, rows, n)| ==>
      ReadRows(ebook, adir, rows, n)[i].id != ReadRows(ebook, adir, rows, n)[j].id
  {
    ReadRowsOrder(ebook, adir, rows, n);
    KeptIndicesExact(ebook, rows, n);
  }

  /** For a book above 10000 an `html` row is kept iff its file name starts
      with the book number; a row without a file type is never kept. */
  lemma KeepRowRules(ebook: int, row: FileRow)
    ensures row.fileType.None? ==> !KeepRow(ebook, row)
    ensures ebook > 10000 && row.fileType == Some("html") ==>
      (KeepRow(ebook, row) <==> StartsWith(Basename(row.archivePath), IntToString(ebook)))
    ensures ebook <= 10000 ==> (KeepRow(ebook, row) <==> row.fileType.Some?)
  {
  }

  /** A non-empty archive-directory prefix becomes `files/<ebook>`, and so
      does every later occurrence of it (`str.replace` replaces them all); a
      path under `etext` moves under `dirs/`; any other path is kept. */
  lemma {:induction false} RewritePathRules(ebook: int, adir: string, path: string)
    ensures adir != [] && StartsWith(path, adir) ==>
      RewritePath(ebook, adir, path)
      == "files/" + IntToString(ebook) + Replace(path[|adir|..], adir, "files/" + IntToString(ebook))
    ensures adir != [] && StartsWith(path, adir) ==>
      StartsWith(RewritePath(ebook, adir, path), "files/" + IntToString(ebook))
    ensures !StartsWith(path, adir) && StartsWith(path, "etext") ==>
      RewritePath(ebook, adir, path) == "dirs/" + path
    ensures !StartsWith(path, adir) && !StartsWith(path, "etext") ==> RewritePath(ebook, adir, path) == path
  {
    if adir != [] && StartsWith(path, adir) {
      var x := "files/" + IntToString(ebook);
      ReplaceHit(path, adir, x);
    }
  }

  /** The format is the file type and the encoding around a slash, the
      encoding defaulting to `unknown`. */
  lemma FormatTagRules(fkFiletypes: string, encoding: Option<string>)
    ensures StartsWith(FormatTag(fkFiletypes, encoding), fkFiletypes + "/")
    ensures HasChar(FormatTag(fkFiletypes, encoding), '/')
    ensures (encoding.None? || encoding == Some("")) ==> FormatTag(fkFiletypes, encoding) == fkFiletypes + "/unknown"
    ensures (encoding.Some? && encoding.value != "") ==> FormatTag(fkFiletypes, encoding) == fkFiletypes + "/" + encoding.value
  {
    assert FormatTag(fkFiletypes, encoding)[|fkFiletypes|] == '/';
  }
}
