/** The metadata helpers of FileInfo: which posted files are parsed for a
    header and in what order, the clean-up `save_metadata` applies, the
    workflow file a book uses, and the files `scan_directory` collects. */
module FileInfo {
  import opened Strings
  import opened Optional
  import opened Numerals
  import Paths

  /*** parseable files and their order ***/

  const ParseableFiles: seq<string> := [".rst", ".html", ".htm", ".tex", ".txt"]

  /** `parseable_file`: judged by the `splitext` extension alone. */
  predicate ParseableFile(filename: string) {
    Paths.Ext(filename) in ParseableFiles
  }

  /** `PARSEABLE_FILES.index(ext)` */
  function ExtRank(ext: string): (i: nat)
    requires ext in ParseableFiles
    ensures i < |ParseableFiles| && ParseableFiles[i] == ext
    ensures forall j :: 0 <= j < i ==> ParseableFiles[j] != ext
  {
    if ext == ".rst" then 0 else if ext == ".html" then 1 else if ext == ".htm" then 2
    else if ext == ".tex" then 3 else 4
  }

  /** The key of a file split into `name` and `ext`: `"%02d %s-z" % (index, name)`
      for a parseable extension, `'99' + name + '-z'` for any other. */
  function KeyOf(name: string, ext: string): string {
    if ext in ParseableFiles then ['0', DigitChar(ExtRank(ext))] + " " + name + "-z"
    else "99" + name + "-z"
  }

  /** `file_sort_key` */
  function FileSortKey(filename: string): string {
    var (name, ext) := Paths.SplitExt(filename);
    KeyOf(name, ext)
  }

  /** A file `stem.ext` with a parseable extension is parseable, and its key
      is the two-digit rank of the extension, a space, the path without the
      extension and `-z`. */
  lemma ParseableStem(dir: string, stem: string, ext: string)
    requires stem != [] && !HasChar(stem, '/') && !HasChar(stem, '.')
    requires ext in ParseableFiles
    ensures ParseableFile(dir + "/" + stem + ext)
    ensures FileSortKey(dir + "/" + stem + ext) == ['0', DigitChar(ExtRank(ext))] + " " + dir + "/" + stem + "-z"
  {
    assert !HasChar(ext, '/') && !HasChar(ext[1..], '.');
    Paths.SplitExtOfStem(dir, stem, ext);
    assert FileSortKey(dir + "/" + stem + ext) == KeyOf(dir + "/" + stem, ext);
  }

  /** A dot file such as `.txt` has no extension, so it is not parseable and
      sorts with the others under `99`. */
  lemma DotFileNotParseable(dir: string, ext: string)
    requires ext in ParseableFiles
    ensures !ParseableFile(dir + "/" + ext)
    ensures FileSortKey(dir + "/" + ext) == "99" + dir + "/" + ext + "-z"
  {
    assert !HasChar(ext, '/') && !HasChar(ext[1..], '.');
    Paths.SplitExtOfDotFile(dir, ext);
    assert FileSortKey(dir + "/" + ext) == KeyOf(dir + "/" + ext, "");
  }

  /** The key of a parseable file starts with `0` and its rank digit; every
      other key starts with `9`. */
  lemma KeyHead(filename: string)
    ensures var key := FileSortKey(filename);
      |key| >= 2
      && (ParseableFile(filename) ==> key[0] == '0' && key[1] == DigitChar(ExtRank(Paths.Ext(filename))))
      && (!ParseableFile(filename) ==> key[0] == '9')
  {
  }

  /** Every parseable file sorts before every other file. */
  lemma ParseableSortsFirst(a: string, b: string)
    requires ParseableFile(a) && !ParseableFile(b)
    ensures LexLess(FileSortKey(a), FileSortKey(b))
  {
    KeyHead(a);
    KeyHead(b);
  }

  /** Parseable files sort by the rank of their extension:
      .rst, .html, .htm, .tex, .txt. */
  lemma ExtensionsSortInListOrder(a: string, b: string)
    requires ParseableFile(a) && ParseableFile(b)
    requires ExtRank(Paths.Ext(a)) < ExtRank(Paths.Ext(b))
    ensures LexLess(FileSortKey(a), FileSortKey(b))
  {
    KeyHead(a);
    KeyHead(b);
    var ka, kb := FileSortKey(a), FileSortKey(b);
    assert ka[1..][0] != kb[1..][0];
  }

  /** A common prefix does not change the order. */
  lemma {:induction false} LexLessCommonPrefix(p: string, x: string, y: string)
    ensures LexLess(p + x, p + y) <==> LexLess(x, y)
  {
    if p != [] {
      assert (p + x)[0] == (p + y)[0];
      assert (p + x)[1..] == p[1..] + x && (p + y)[1..] == p[1..] + y;
      LexLessCommonPrefix(p[1..], x, y);
    } else {
      assert p + x == x && p + y == y;
    }
  }

  /** Files with the same extension sort by their paths without it, each
      followed by `-z`. */
  lemma SameExtensionSortsByStem(name1: string, name2: string, ext: string)
    ensures LexLess(KeyOf(name1, ext), KeyOf(name2, ext)) <==> LexLess(name1 + "-z", name2 + "-z")
  {
    var p := if ext in ParseableFiles then ['0', DigitChar(ExtRank(ext))] + " " else "99";
    assert KeyOf(name1, ext) == p + (name1 + "-z");
    assert KeyOf(name2, ext) == p + (name2 + "-z");
    LexLessCommonPrefix(p, name1 + "-z", name2 + "-z");
  }

  /** `sorted(found_files, key=file_sort_key)` gives an order in which no
      later key is smaller than an earlier one. */
  predicate SortedByKey(files: seq<string>) {
    forall i, j :: 0 <= i < j < |files| ==> !LexLess(FileSortKey(files[j]), FileSortKey(files[i]))
  }

  /** In that order no other file comes before a parseable one, so the
      header is looked for in the parseable files first. */
  lemma SortedParseableFirst(files: seq<string>, i: nat, j: nat)
    requires SortedByKey(files) && i < j < |files|
    requires ParseableFile(files[j])
    ensures ParseableFile(files[i])
  {
    if !ParseableFile(files[i]) {
      ParseableSortsFirst(files[j], files[i]);
    }
  }

  /*** save_metadata ***/

  /** The length of the whitespace run `s` starts with. */
  function SpaceRun(s: string): (k: nat)
    ensures k <= |s|
    ensures forall i :: 0 <= i < k ==> IsSpace(s[i])
    ensures k == |s| || !IsSpace(s[k])
  {
    if s != [] && IsSpace(s[0]) then 1 + SpaceRun(s[1..]) else 0
  }

  /** `re.sub(r'\s*\n\s*', ' _ ', s)`: the leftmost match starts where a
      whitespace run starts and, the stars being greedy, takes the whole
      run; so each maximal whitespace run holding a newline becomes ` _ `
      and every other run stays. */
  function SubNewlineRuns(s: string): (r: string)
    ensures s != [] ==> r != []
    decreases |s|
  {
    if s == [] then []
    else if IsSpace(s[0]) then
      var k := SpaceRun(s);
      (if HasChar(s[..k], '\n') then " _ " else s[..k]) + SubNewlineRuns(s[k..])
    else [s[0]] + SubNewlineRuns(s[1..])
  }

  /** No newline is left. */
  lemma {:induction false} NoNewlineLeft(s: string)
    ensures !HasChar(SubNewlineRuns(s), '\n')
    decreases |s|
  {
    if s != [] {
      if IsSpace(s[0]) {
        var k := SpaceRun(s);
        NoNewlineLeft(s[k..]);
        var head := if HasChar(s[..k], '\n') then " _ " else s[..k];
        assert !HasChar(head, '\n');
        var r := head + SubNewlineRuns(s[k..]);
        forall i | 0 <= i < |r| ensures r[i] != '\n' {
          if i >= |head| { assert r[i] == SubNewlineRuns(s[k..])[i - |head|]; }
        }
      } else {
        NoNewlineLeft(s[1..]);
        var r := [s[0]] + SubNewlineRuns(s[1..]);
        forall i | 0 <= i < |r| ensures r[i] != '\n' {
          if i >= 1 { assert r[i] == SubNewlineRuns(s[1..])[i - 1]; }
        }
      }
    }
  }

  /** Text without a newline comes back unchanged, its whitespace runs included. */
  lemma {:induction false} NewlineFreeUnchanged(s: string)
    requires !HasChar(s, '\n')
    ensures SubNewlineRuns(s) == s
    decreases |s|
  {
    if s != [] {
      var k := Chunk(s);
      NewlineFreeStep(s);
      NewlineFreeUnchanged(s[k..]);
      Regroup(s, k, SubNewlineRuns(s), SubNewlineRuns(s[k..]), []);
      assert s + [] == s;
    }
  }

  /** The first piece of newline-free text is kept as it is. */
  lemma NewlineFreeStep(s: string)
    requires s != [] && !HasChar(s, '\n')
    ensures var k := Chunk(s);
      SubNewlineRuns(s) == s[..k] + SubNewlineRuns(s[k..]) && !HasChar(s[k..], '\n')
  {
    var k := Chunk(s);
    Unfold(s);
    NoNewlineTake(s, k);
    NoNewlineDrop(s, k);
  }

  /** A prefix of newline-free text is newline-free. */
  lemma NoNewlineTake(s: string, k: nat)
    requires k <= |s| && !HasChar(s, '\n')
    ensures !HasChar(s[..k], '\n')
  {
    forall t | 0 <= t < k ensures s[..k][t] != '\n' { assert s[..k][t] == s[t]; }
  }

  /** A suffix of newline-free text is newline-free. */
  lemma NoNewlineDrop(s: string, k: nat)
    requires k <= |s| && !HasChar(s, '\n')
    ensures !HasChar(s[k..], '\n')
  {
    forall t | 0 <= t < |s| - k ensures s[k..][t] != '\n' { assert s[k..][t] == s[k + t]; }
  }

  /** The whitespace run at the front of `s` is `k` long when `k` spaces are
      followed by a non-space or by the end. */
  lemma {:induction false} SpaceRunIs(s: string, k: nat)
    requires k <= |s| && (forall i :: 0 <= i < k ==> IsSpace(s[i])) && (k == |s| || !IsSpace(s[k]))
    ensures SpaceRun(s) == k
  {
    if k > 0 {
      assert forall i :: 0 <= i < k - 1 ==> s[1..][i] == s[i + 1];
      SpaceRunIs(s[1..], k - 1);
    }
  }

  /** A maximal whitespace run is replaced whole: by ` _ ` when it holds a
      newline, by itself otherwise. */
  lemma RunReplaced(w: string, b: string)
    requires w != [] && forall i :: 0 <= i < |w| ==> IsSpace(w[i])
    requires b == [] || !IsSpace(b[0])
    ensures SubNewlineRuns(w + b) == (if HasChar(w, '\n') then " _ " else w) + SubNewlineRuns(b)
  {
    var s := w + b;
    SpaceRunIs(s, |w|);
    assert s[..|w|] == w && s[|w|..] == b;
  }

  /** The length of the piece `SubNewlineRuns` handles first: the whole
      whitespace run at the front, or one other character. */
  function Chunk(s: string): (k: nat)
    requires s != []
    ensures 1 <= k <= |s|
  {
    if IsSpace(s[0]) then SpaceRun(s) else 1
  }

  /** One step of `SubNewlineRuns`, with both branches written as one. */
  lemma Unfold(s: string)
    requires s != []
    ensures var k := Chunk(s);
      SubNewlineRuns(s)
      == (if IsSpace(s[0]) && HasChar(s[..k], '\n') then " _ " else s[..k]) + SubNewlineRuns(s[k..])
  {
    assert [s[0]] == s[..1];
  }

  /** Newline-free text ending in a non-space passes through unchanged,
      whatever follows it. */
  lemma {:induction false} NewlineFreePrefix(a: string, rest: string)
    requires !HasChar(a, '\n') && (a == [] || !IsSpace(a[|a| - 1]))
    ensures SubNewlineRuns(a + rest) == a + SubNewlineRuns(rest)
    decreases |a|
  {
    if a != [] {
      var k := Chunk(a);
      FirstChunkKept(a, rest);
      var tail := a[k..];
      NewlineFreePrefix(tail, rest);
      Regroup(a, k, SubNewlineRuns(a + rest), SubNewlineRuns(tail + rest), SubNewlineRuns(rest));
    } else {
      assert a + rest == rest;
    }
  }

  /** The first piece of newline-free text ending in a non-space is kept as
      it is, and what remains is again such text. */
  lemma FirstChunkKept(a: string, rest: string)
    requires a != [] && !HasChar(a, '\n') && !IsSpace(a[|a| - 1])
    ensures var k, tail := Chunk(a), a[Chunk(a)..];
      SubNewlineRuns(a + rest) == a[..k] + SubNewlineRuns(tail + rest)
      && !HasChar(tail, '\n') && (tail == [] || !IsSpace(tail[|tail| - 1]))
  {
    var s := a + rest;
    var k := Chunk(a);
    ChunkOfPrefix(a, rest);
    Unfold(s);
    NoNewlineTake(a, k);
    NoNewlineDrop(a, k);
    assert s[..k] == a[..k] && s[k..] == a[k..] + rest;
  }

  /** Text ending in a non-space has the same first piece whatever follows. */
  lemma ChunkOfPrefix(a: string, rest: string)
    requires a != [] && !IsSpace(a[|a| - 1])
    ensures Chunk(a + rest) == Chunk(a) && (a + rest)[0] == a[0]
  {
    var s := a + rest;
    var k := Chunk(a);
    if IsSpace(a[0]) {
      assert k < |a|;
      assert s[k] == a[k];
      SpaceRunIs(s, k);
    }
  }

  /** Putting a split sequence back together. */
  lemma Regroup(a: string, k: nat, u: string, v: string, w: string)
    requires k <= |a| && u == a[..k] + v && v == a[k..] + w
    ensures u == a + w
  {
    assert a[..k] + a[k..] == a;
  }

  /** A last character that is not whitespace stays last. */
  lemma {:induction false} SubKeepsLast(s: string)
    requires s != [] && !IsSpace(s[|s| - 1])
    ensures var r := SubNewlineRuns(s); r != [] && r[|r| - 1] == s[|s| - 1]
    decreases |s|
  {
    if IsSpace(s[0]) {
      var k := SpaceRun(s);
      assert k < |s|;
      assert s[k..][|s[k..]| - 1] == s[|s| - 1];
      SubKeepsLast(s[k..]);
    } else if |s| > 1 {
      assert s[1..][|s[1..]| - 1] == s[|s| - 1];
      SubKeepsLast(s[1..]);
    }
  }

  /** `save_metadata`'s title: stripped, and each whitespace run holding a
      newline replaced by ` _ `; an empty title is left alone. */
  function NormaliseTitle(title: string): string {
    if title != [] then SubNewlineRuns(Strip(title)) else title
  }

  /** The normalised title is one line, without leading or trailing
      whitespace, and a one-line title is only stripped. */
  lemma NormaliseTitleShape(title: string)
    ensures var r := NormaliseTitle(title);
      !HasChar(r, '\n')
      && (r != [] ==> !IsSpace(r[0]) && !IsSpace(r[|r| - 1]))
      && (title != [] && !HasChar(title, '\n') ==> r == Strip(title))
  {
    if title != [] {
      var s := Strip(title);
      assert NormaliseTitle(title) == SubNewlineRuns(s);
      NoNewlineLeft(s);
      if s != [] {
        SubKeepsEnds(s);
      }
      if !HasChar(title, '\n') {
        StripNoNewline(title);
        NewlineFreeUnchanged(s);
      }
    }
  }

  /** Each maximal whitespace run of the stripped title, taken left to right,
      becomes ` _ ` when it holds a newline and stays as it is otherwise:
      with `a` the newline-free text before the run and `b` what follows it,
      the result is `a`, the run's replacement, and `b` treated alike. */
  lemma WhitespaceRunReplaced(title: string, a: string, w: string, b: string)
    requires title != [] && Strip(title) == a + w + b
    requires !HasChar(a, '\n') && (a == [] || !IsSpace(a[|a| - 1]))
    requires w != [] && forall i :: 0 <= i < |w| ==> IsSpace(w[i])
    requires b == [] || !IsSpace(b[0])
    ensures NormaliseTitle(title)
      == a + (if HasChar(w, '\n') then " _ " else w) + SubNewlineRuns(b)
  {
    Assoc(a, w, b);
    RunAfterPlain(a, w, b);
    Assoc(a, if HasChar(w, '\n') then " _ " else w, SubNewlineRuns(b));
  }

  /** Concatenation regroups; proved apart from any other facts, where it is cheap. */
  lemma Assoc(a: string, w: string, b: string)
    ensures a + w + b == a + (w + b)
  {
  }

  /** `WhitespaceRunReplaced` on the stripped text itself. */
  lemma RunAfterPlain(a: string, w: string, b: string)
    requires !HasChar(a, '\n') && (a == [] || !IsSpace(a[|a| - 1]))
    requires w != [] && forall i :: 0 <= i < |w| ==> IsSpace(w[i])
    requires b == [] || !IsSpace(b[0])
    ensures SubNewlineRuns(a + (w + b))
      == a + ((if HasChar(w, '\n') then " _ " else w) + SubNewlineRuns(b))
  {
    NewlineFreePrefix(a, w + b);
    RunReplaced(w, b);
  }

  /** A text that starts and ends with non-whitespace keeps both ends. */
  lemma SubKeepsEnds(s: string)
    requires s != [] && !IsSpace(s[0]) && !IsSpace(s[|s| - 1])
    ensures var r := SubNewlineRuns(s);
      r != [] && r[0] == s[0] && r[|r| - 1] == s[|s| - 1]
  {
    SubKeepsLast(s);
    assert SubNewlineRuns(s) == [s[0]] + SubNewlineRuns(s[1..]);
  }

  /** Stripping adds no character. */
  lemma StripNoNewline(t: string)
    requires !HasChar(t, '\n')
    ensures !HasChar(Strip(t), '\n')
  {
    var l := LStrip(t);
    assert !HasChar(l, '\n') by {
      forall i | 0 <= i < |l| ensures l[i] != '\n' { assert l[i] == t[|t| - |l| + i]; }
    }
    var r := RStrip(l);
    assert !HasChar(r, '\n') by {
      forall i | 0 <= i < |r| ensures r[i] != '\n' { assert r[i] == l[i]; }
    }
  }

  /** `dc.rights` is text until `save_metadata` replaces it by the number 1. */
  datatype Rights = RightsText(text: string) | RightsCode(code: int)

  /** `save_metadata`'s rights: any text holding "copyright" in any case becomes 1. */
  function NormaliseRights(text: string): (r: Rights)
    ensures r == RightsCode(1) <==> Contains(LowerAscii(text), "copyright")
    ensures r != RightsCode(1) ==> r == RightsText(text)
  {
    if Contains(LowerAscii(text), "copyright") then RightsCode(1) else RightsText(text)
  }

  /** The nine characters at `i` spell `copyright` in some casing. */
  predicate CopyrightAt(text: string, i: int) {
    0 <= i <= |text| - 9 && LowerAscii(text[i..i + 9]) == "copyright"
  }

  /** The rights become 1 exactly when some nine characters of the text
      spell `copyright` in any casing (`Copyright`, `COPYRIGHTED`, `Public
      domain, not copyrighted`); otherwise the text is kept. */
  lemma AnyCaseCopyright(text: string)
    ensures NormaliseRights(text) == RightsCode(1) <==> exists i :: CopyrightAt(text, i)
    ensures NormaliseRights(text) != RightsCode(1) ==> NormaliseRights(text) == RightsText(text)
  {
    var l := LowerAscii(text);
    if NormaliseRights(text) == RightsCode(1) {
      var i :| 0 <= i <= |l| - 9 && OccursAt(l, "copyright", i);
      LowerAsciiSlice(text, i, i + 9);
      assert CopyrightAt(text, i);
    }
    if exists i :: CopyrightAt(text, i) {
      var i :| CopyrightAt(text, i);
      LowerAsciiSlice(text, i, i + 9);
      assert OccursAt(l, "copyright", i);
    }
  }

  /** Lower-casing works character by character, so it commutes with
      taking a prefix ... */
  lemma {:induction false} LowerAsciiTake(s: string, j: nat)
    requires j <= |s|
    ensures LowerAscii(s[..j]) == LowerAscii(s)[..j]
  {
    if j > 0 {
      assert s[..j][1..] == s[1..][..j - 1];
      LowerAsciiTake(s[1..], j - 1);
    }
  }

  /** ... and with slicing. */
  lemma {:induction false} LowerAsciiSlice(s: string, i: nat, j: nat)
    requires i <= j <= |s|
    ensures LowerAscii(s[i..j]) == LowerAscii(s)[i..j]
  {
    if i == 0 {
      assert s[i..j] == s[..j];
      LowerAsciiTake(s, j);
    } else {
      assert s[i..j] == s[1..][i - 1..j - 1];
      LowerAsciiSlice(s[1..], i - 1, j - 1);
      var head := LowerAscii(s)[..1];
      var tail := LowerAscii(s[1..]);
      assert LowerAscii(s) == head + tail;
      assert (head + tail)[i..j] == tail[i - 1..j - 1];
    }
  }

  lemma {:induction false} LowerAsciiIdempotent(s: string)
    ensures LowerAscii(LowerAscii(s)) == LowerAscii(s)
  {
    var l := LowerAscii(s);
    var ll := LowerAscii(l);
    forall i | 0 <= i < |s| ensures ll[i] == l[i] {
      assert !('A' <= l[i] <= 'Z');
    }
  }

  /** The test ignores case: text and its lower-cased form are treated alike. */
  lemma RightsIgnoreCase(text: string)
    ensures NormaliseRights(text).RightsCode? <==> NormaliseRights(LowerAscii(text)).RightsCode?
  {
    LowerAsciiIdempotent(text);
  }

  /** The DublinCore fields `save_metadata` rewrites before saving. */
  class BookMetadata {
    var title: string
    var rights: Rights
    /** How many times the record was saved. */
    var saves: nat

    constructor (title: string, rights: string)
      ensures this.title == title && this.rights == RightsText(rights) && saves == 0
    {
      this.title := title;
      this.rights := RightsText(rights);
      saves := 0;
    }

    /** `save_metadata(dc)`. The title is rewritten first; rights that are
        already the number 1 then raise the AttributeError of `1.lower()`,
        and nothing is saved. */
    method SaveMetadata() returns (raised: bool)
      modifies this
      ensures raised <==> old(rights).RightsCode?
      ensures title == NormaliseTitle(old(title))
      ensures rights == if raised then old(rights) else NormaliseRights(old(rights).text)
      ensures saves == if raised then old(saves) else old(saves) + 1
    {
      if title != [] {
        title := SubNewlineRuns(Strip(title));
      }
      if rights.RightsCode? {
        return true;
      }
      if Contains(LowerAscii(rights.text), "copyright") {
        rights := RightsCode(1);
      }
      saves := saves + 1;
      return false;
    }
  }

  /*** get_workflow_file ***/

  /** `WORKFLOW_LOG_DIR`, under the `PRIVATE` directory. */
  function WorkflowLogDir(private: string): string {
    Paths.Join(Paths.Join(private, "logs"), "json")
  }

  /** `<ebook><ext>` in the workflow log directory. */
  function WorkflowFile(private: string, ebook: int, ext: string): string {
    Paths.Join(WorkflowLogDir(private), IntToString(ebook) + ext)
  }

  /** `get_workflow_file(ebook)`, `present` being the files that exist. */
  function GetWorkflowFile(private: string, ebook: int, present: set<string>): Option<string> {
    if ebook == 0 then None
    else
      var wfFile := WorkflowFile(private, ebook, ".json");
      var nonWfFile := WorkflowFile(private, ebook, ".txt");
      if wfFile in present then Some(wfFile)
      else if nonWfFile in present then Some(nonWfFile)
      else None
  }

  lemma NoSlashInNumber(n: int)
    ensures !HasChar(IntToString(n), '/')
  {
    var s := IntToString(n);
    if n < 0 {
      assert s == "-" + NatToString(-n);
      assert forall i :: 1 <= i < |s| ==> s[i] == NatToString(-n)[i - 1];
    }
  }

  /** A falsy ebook has no workflow file; otherwise `<ebook>.json` is taken
      when it exists, then `<ebook>.txt`, and nothing when neither does. */
  lemma WorkflowFileChoice(private: string, ebook: int, present: set<string>)
    ensures var r := GetWorkflowFile(private, ebook, present);
      var json := WorkflowFile(private, ebook, ".json");
      var txt := WorkflowFile(private, ebook, ".txt");
      (r.None? <==> ebook == 0 || (json !in present && txt !in present))
      && (r.Some? ==> r.value in present && (r.value == json || r.value == txt))
      && (ebook != 0 && json in present ==> r == Some(json))
  {
  }

  /** The two candidates are `<ebook>.json` and `<ebook>.txt` in the workflow
      log directory, and they are different files. */
  lemma WorkflowFileNames(private: string, ebook: int)
    ensures Paths.Basename(WorkflowFile(private, ebook, ".json")) == IntToString(ebook) + ".json"
    ensures Paths.Basename(WorkflowFile(private, ebook, ".txt")) == IntToString(ebook) + ".txt"
    ensures WorkflowFile(private, ebook, ".json") != WorkflowFile(private, ebook, ".txt")
  {
    var dir := WorkflowLogDir(private);
    var n := IntToString(ebook);
    NoSlashInNumber(ebook);
    NameWithoutSlash(n, ".json");
    NameWithoutSlash(n, ".txt");
    JoinedBasename(dir, n + ".json");
    JoinedBasename(dir, n + ".txt");
    var json := WorkflowFile(private, ebook, ".json");
    var txt := WorkflowFile(private, ebook, ".txt");
    assert json[|json| - 1] == 'n' && txt[|txt| - 1] == 't';
  }

  lemma NameWithoutSlash(n: string, ext: string)
    requires n != [] && !HasChar(n, '/') && (ext == ".json" || ext == ".txt")
    ensures n + ext != [] && !HasChar(n + ext, '/') && !StartsWith(n + ext, "/")
  {
    var s := n + ext;
    assert forall i :: 0 <= i < |ext| ==> ext[i] != '/';
    forall i | 0 <= i < |s| ensures s[i] != '/' {
      if i < |n| { assert s[i] == n[i]; } else { assert s[i] == ext[i - |n|]; }
    }
    assert s[0] == n[0];
  }

  /** Joining a name without a slash to a directory keeps that name as the basename. */
  lemma JoinedBasename(dir: string, name: string)
    requires name != [] && !HasChar(name, '/') && !StartsWith(name, "/")
    ensures Paths.Basename(Paths.Join(dir, name)) == name
  {
    if dir == [] || EndsWith(dir, "/") {
      assert Paths.Join(dir, name) == dir + name;
      BasenameAfterSlash(dir, name);
    } else {
      assert Paths.Join(dir, name) == (dir + "/") + name;
      BasenameAfterSlash(dir + "/", name);
    }
  }

  /** What follows a prefix ending in a slash, when it has no slash, is the
      basename. */
  lemma BasenameAfterSlash(prefix: string, name: string)
    requires prefix == [] || prefix[|prefix| - 1] == '/'
    requires !HasChar(name, '/')
    ensures Paths.Basename(prefix + name) == name
  {
    var p := prefix + name;
    var k := |prefix|;
    forall j | k <= j < |p| ensures p[j] != '/' {
      assert p[j] == name[j - k];
    }
    if k > 0 {
      assert p[k - 1] == '/';
    }
    Paths.RFindIs(p, '/', k - 1);
    assert p[k..] == name;
  }

  /*** scan_directory ***/

  /** One step of `os.walk`: a directory and the names of its files. */
  datatype WalkEntry = WalkEntry(root: string, files: seq<string>)

  /** `name.startswith('.')` */
  predicate DotName(name: string) {
    name != [] && name[0] == '.'
  }

  /** Directories whose path holds `/.` or starts with `.` are not catalogued. */
  predicate CataloguedRoot(root: string) {
    !Contains(root, "/.") && !DotName(root)
  }

  /** `f` of each of the first `m` elements of `xs` that `keep` accepts, in order. */
  function FilterMap<T, U>(f: T -> U, keep: T -> bool, xs: seq<T>, m: nat): seq<U>
    requires m <= |xs|
  {
    if m == 0 then [] else FilterMap(f, keep, xs, m - 1) + (if keep(xs[m - 1]) then [f(xs[m - 1])] else [])
  }

  /** The results of the first `n` elements of `xs` under `g`, one after the other. */
  function FlatMap<T, U>(g: T -> seq<U>, xs: seq<T>, n: nat): seq<U>
    requires n <= |xs|
  {
    if n == 0 then [] else FlatMap(g, xs, n - 1) + g(xs[n - 1])
  }

  lemma {:induction false} FilterMapMembers<T, U>(f: T -> U, keep: T -> bool, xs: seq<T>, m: nat, x: U)
    requires m <= |xs|
    ensures x in FilterMap(f, keep, xs, m) <==> exists j :: 0 <= j < m && keep(xs[j]) && x == f(xs[j])
  {
    if m > 0 {
      FilterMapMembers(f, keep, xs, m - 1, x);
    }
  }

  lemma {:induction false} FlatMapMembers<T, U>(g: T -> seq<U>, xs: seq<T>, n: nat, x: U)
    requires n <= |xs|
    ensures x in FlatMap(g, xs, n) <==> exists i :: 0 <= i < n && x in g(xs[i])
  {
    if n > 0 {
      FlatMapMembers(g, xs, n - 1, x);
    }
  }

  /** The paths kept from the first `m` names of a catalogued directory. */
  function KeptFiles(root: string, files: seq<string>, m: nat): seq<string>
    requires m <= |files|
  {
    FilterMap((name: string) => Paths.Join(root, name), (name: string) => !DotName(name), files, m)
  }

  function EntryFiles(e: WalkEntry): seq<string> {
    if CataloguedRoot(e.root) then KeptFiles(e.root, e.files, |e.files|) else []
  }

  /** What the walk loop of `scan_directory` collects from the first `n` steps. */
  function FoundFiles(walk: seq<WalkEntry>, n: nat): seq<string>
    requires n <= |walk|
  {
    FlatMap(EntryFiles, walk, n)
  }

  /** The walk loop of `scan_directory`, dot files and dot directories skipped. */
  method CollectFiles(walk: seq<WalkEntry>) returns (foundFiles: seq<string>)
    ensures foundFiles == FoundFiles(walk, |walk|)
  {
    foundFiles := [];
    for n := 0 to |walk|
      invariant foundFiles == FoundFiles(walk, n)
    {
      var root := walk[n].root;
      if Contains(root, "/.") || DotName(root) {
        assert FoundFiles(walk, n + 1) == FoundFiles(walk, n) + [];
        continue;
      }
      var kept := CollectKept(root, walk[n].files);
      foundFiles := foundFiles + kept;
    }
  }

  /** The inner loop of the walk: the files of one directory, dot files skipped. */
  method CollectKept(root: string, files: seq<string>) returns (kept: seq<string>)
    ensures kept == KeptFiles(root, files, |files|)
  {
    kept := [];
    for m := 0 to |files|
      invariant kept == KeptFiles(root, files, m)
    {
      KeptFilesStep(root, files, m);
      if DotName(files[m]) {
        continue;
      }
      kept := kept + [Paths.Join(root, files[m])];
    }
  }

  lemma KeptFilesStep(root: string, files: seq<string>, m: nat)
    requires m < |files|
    ensures KeptFiles(root, files, m + 1)
            == KeptFiles(root, files, m) + (if DotName(files[m]) then [] else [Paths.Join(root, files[m])])
  {
  }

  /** `scan_directory` collects exactly the files that do not start with a
      dot, under directories that are catalogued. */
  lemma FoundFilesMembers(walk: seq<WalkEntry>, x: string)
    ensures x in FoundFiles(walk, |walk|)
            <==> exists i, j :: 0 <= i < |walk| && 0 <= j < |walk[i].files| && CataloguedRoot(walk[i].root)
                   && !DotName(walk[i].files[j]) && x == Paths.Join(walk[i].root, walk[i].files[j])
  {
    FlatMapMembers(EntryFiles, walk, |walk|, x);
    forall i | 0 <= i < |walk|
      ensures x in EntryFiles(walk[i])
              <==> CataloguedRoot(walk[i].root)
                   && exists j :: 0 <= j < |walk[i].files| && !DotName(walk[i].files[j]) && x == Paths.Join(walk[i].root, walk[i].files[j])
    {
      var e := walk[i];
      FilterMapMembers((name: string) => Paths.Join(e.root, name), (name: string) => !DotName(name), e.files, |e.files|, x);
    }
  }
}
