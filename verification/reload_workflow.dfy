/** ReloadWorkflow: find the newest workflow file of a book (the current
    one, else the highest numbered backup, else the plain backup) and load
    it into the book's metadata record. */
module ReloadWorkflow {
  import opened Strings
  import opened Optional
  import opened Numerals
  import Paths
  import FileInfo

  /** Backup revisions are numbered 0 to 9. */
  const Revisions: nat := 10

  /** `WORKFLOW_LOG_DIR/backup/<ebook>.json` and, with a revision,
      `WORKFLOW_LOG_DIR/backup/<ebook>.json.<rev>`. */
  function BackupFile(private: string, ebook: int, rev: Option<nat>): string {
    Paths.Join(Paths.Join(FileInfo.WorkflowLogDir(private), "backup"), BackupName(ebook, rev))
  }

  function BackupName(ebook: int, rev: Option<nat>): string {
    IntToString(ebook) + ".json" + (if rev.Some? then "." + NatToString(rev.value) else "")
  }

  /** The revisions, 0 to 9, whose backup exists. */
  function ExistingRevisions(private: string, ebook: int, present: set<string>): (revs: set<nat>)
    ensures forall k: nat :: k in revs <==> k < Revisions && BackupFile(private, ebook, Some(k)) in present
  {
    set k: nat | k < Revisions && BackupFile(private, ebook, Some(k)) in present
  }

  /** A backup name starts with the book number, never with a slash. */
  lemma BackupNameRelative(ebook: int, rev: Option<nat>)
    ensures !StartsWith(BackupName(ebook, rev), "/")
  {
    var e := IntToString(ebook);
    if ebook >= 0 {
      assert e == NatToString(ebook);
      assert IsDigit(e[0]);
    }
    assert BackupName(ebook, rev)[0] == e[0];
  }

  /** Distinct revisions have distinct backup names. */
  lemma BackupNameInjective(ebook: int, j: nat, k: nat)
    requires BackupName(ebook, Some(j)) == BackupName(ebook, Some(k))
    ensures j == k
  {
    var p := IntToString(ebook) + ".json.";
    assert BackupName(ebook, Some(j)) == p + NatToString(j);
    assert BackupName(ebook, Some(k)) == p + NatToString(k);
    assert (p + NatToString(j))[|p|..] == NatToString(j);
    assert (p + NatToString(k))[|p|..] == NatToString(k);
    NatToStringInjective(j, k);
  }

  /** Distinct revisions have distinct backup files. */
  lemma BackupFileInjective(private: string, ebook: int, j: nat, k: nat)
    requires BackupFile(private, ebook, Some(j)) == BackupFile(private, ebook, Some(k))
    ensures j == k
  {
    BackupNameRelative(ebook, Some(j));
    BackupNameRelative(ebook, Some(k));
    Paths.JoinCancel(Paths.Join(FileInfo.WorkflowLogDir(private), "backup"), BackupName(ebook, Some(j)), BackupName(ebook, Some(k)));
    BackupNameInjective(ebook, j, k);
  }

  /** Each backup file that appears adds exactly its own revision to the
      ones found, and nothing else. */
  lemma BackupAddsOneRevision(private: string, ebook: int, present: set<string>, k: nat)
    requires k < Revisions
    ensures ExistingRevisions(private, ebook, present + {BackupFile(private, ebook, Some(k))})
            == ExistingRevisions(private, ebook, present) + {k}
  {
    var f := BackupFile(private, ebook, Some(k));
    forall j: nat | j in ExistingRevisions(private, ebook, present + {f})
      ensures j in ExistingRevisions(private, ebook, present) + {k}
    {
      if BackupFile(private, ebook, Some(j)) == f {
        BackupFileInjective(private, ebook, j, k);
      }
    }
  }

  /** The first revision of `revs` met when trying `n - 1` down to 0. */
  function NewestRevision(revs: set<nat>, n: nat): (r: Option<nat>)
    ensures r.Some? ==> r.value < n && r.value in revs
    ensures r.Some? ==> forall k: nat :: r.value < k < n ==> k !in revs
    ensures r.None? ==> forall k: nat :: k < n ==> k !in revs
  {
    if n == 0 then None
    else if n - 1 in revs then Some(n - 1)
    else NewestRevision(revs, n - 1)
  }

  /** `get_newest_workflow_file(ebook)`; `present` is the set of files that
      exist. */
  function GetNewestWorkflowFile(private: string, ebook: int, present: set<string>): (r: Option<string>)
    ensures r.Some? ==> r.value in present
  {
    var current := FileInfo.GetWorkflowFile(private, ebook, present);
    FileInfo.WorkflowFileChoice(private, ebook, present);
    if current.Some? then current
    else
      match NewestRevision(ExistingRevisions(private, ebook, present), Revisions)
      case Some(rev) => Some(BackupFile(private, ebook, Some(rev)))
      case None =>
        var plain := BackupFile(private, ebook, None);
        if plain in present then Some(plain) else None
  }

  /** The current workflow file wins over every backup. */
  lemma CurrentPreferred(private: string, ebook: int, present: set<string>)
    requires FileInfo.GetWorkflowFile(private, ebook, present).Some?
    ensures GetNewestWorkflowFile(private, ebook, present) == FileInfo.GetWorkflowFile(private, ebook, present)
  {
  }

  /** Without a current file, the backup with the highest existing revision
      is chosen. */
  lemma HighestRevisionChosen(private: string, ebook: int, present: set<string>, rev: nat)
    requires FileInfo.GetWorkflowFile(private, ebook, present).None?
    requires rev < Revisions && BackupFile(private, ebook, Some(rev)) in present
    requires forall k: nat :: rev < k < Revisions ==> BackupFile(private, ebook, Some(k)) !in present
    ensures GetNewestWorkflowFile(private, ebook, present) == Some(BackupFile(private, ebook, Some(rev)))
  {
    var revs := ExistingRevisions(private, ebook, present);
    NewestRevisionIs(revs, Revisions, rev);
  }

  /** Trying from `n - 1` down stops at the highest revision that exists. */
  lemma {:induction false} NewestRevisionIs(revs: set<nat>, n: nat, rev: nat)
    requires rev < n && rev in revs
    requires forall k: nat :: rev < k < n ==> k !in revs
    ensures NewestRevision(revs, n) == Some(rev)
  {
    if rev < n - 1 {
      assert n - 1 !in revs;
      NewestRevisionIs(revs, n - 1, rev);
    }
  }

  /** Without a current file and without any numbered backup, the plain
      backup is chosen when it exists, and otherwise there is no file. */
  lemma PlainBackupLast(private: string, ebook: int, present: set<string>)
    requires FileInfo.GetWorkflowFile(private, ebook, present).None?
    requires forall k: nat :: k < Revisions ==> BackupFile(private, ebook, Some(k)) !in present
    ensures var plain := BackupFile(private, ebook, None);
      GetNewestWorkflowFile(private, ebook, present) == if plain in present then Some(plain) else None
  {
  }

  /** No file at all is found exactly when none of the twelve candidates
      (the current `.json` and `.txt` of a non-zero ebook, ten numbered
      backups, the plain backup) exists. */
  lemma NoneIff(private: string, ebook: int, present: set<string>)
    ensures GetNewestWorkflowFile(private, ebook, present).None?
        <==> FileInfo.GetWorkflowFile(private, ebook, present).None?
             && (forall k: nat :: k < Revisions ==> BackupFile(private, ebook, Some(k)) !in present)
             && BackupFile(private, ebook, None) !in present
  {
    var r := NewestRevision(ExistingRevisions(private, ebook, present), Revisions);
    if r.Some? {
      assert BackupFile(private, ebook, Some(r.value)) in present;
    }
  }

  /*** reload_workflow_file ***/

  /** What reading a found file gives: `open` raises an OSError for the
      `unopenable` files, `fp.read()` raises a UnicodeDecodeError (a
      ValueError) for the `undecodable` ones, and `load_from_pgheader`
      accepts the contents of the files in `parses`. */
  datatype Contents = Contents(unopenable: set<string>, undecodable: set<string>, parses: set<string>)

  datatype Reload =
    | NoWorkflowFile
    | InvalidWorkflowFile(file: string)
    | Saved(file: string)
    | OpenFailed(file: string)
    | DecodeFailed(file: string)

  /** The two outcomes in which `reload_workflow_file` raises: the open and
      the read sit outside its `try`. */
  predicate Raises(r: Reload) {
    r.OpenFailed? || r.DecodeFailed?
  }

  /** `reload_workflow_file(ebook)`: the newest file is opened and read,
      then handed to `load_from_pgheader`; the record is saved (with
      `updatemode=1`) only after a successful load. */
  function ReloadWorkflowFile(private: string, ebook: int, present: set<string>, contents: Contents): (r: Reload)
    ensures r.Saved? ==> r.file in present && r.file !in contents.unopenable
                         && r.file !in contents.undecodable && r.file in contents.parses
    ensures r.InvalidWorkflowFile? ==> r.file in present && r.file !in contents.unopenable
                                       && r.file !in contents.undecodable && r.file !in contents.parses
    ensures r.OpenFailed? ==> r.file in present && r.file in contents.unopenable
    ensures r.DecodeFailed? ==> r.file in present && r.file !in contents.unopenable && r.file in contents.undecodable
  {
    match GetNewestWorkflowFile(private, ebook, present)
    case None => NoWorkflowFile
    case Some(f) =>
      if f in contents.unopenable then OpenFailed(f)
      else if f in contents.undecodable then DecodeFailed(f)
      else if f in contents.parses then Saved(f)
      else InvalidWorkflowFile(f)
  }

  /** The record is saved exactly when a file is found that opens, decodes
      and parses, and then it is the newest file that is loaded; the call
      raises exactly when the newest file does not open or does not decode. */
  lemma SavedIff(private: string, ebook: int, present: set<string>, contents: Contents)
    ensures var f := GetNewestWorkflowFile(private, ebook, present);
      ReloadWorkflowFile(private, ebook, present, contents).Saved?
      <==> f.Some? && f.value !in contents.unopenable && f.value !in contents.undecodable
           && f.value in contents.parses
    ensures var f := GetNewestWorkflowFile(private, ebook, present);
      ReloadWorkflowFile(private, ebook, present, contents).Saved? ==>
      ReloadWorkflowFile(private, ebook, present, contents).file == f.value
    ensures ReloadWorkflowFile(private, ebook, present, contents) == NoWorkflowFile
        <==> GetNewestWorkflowFile(private, ebook, present).None?
    ensures var f := GetNewestWorkflowFile(private, ebook, present);
      Raises(ReloadWorkflowFile(private, ebook, present, contents))
      <==> f.Some? && (f.value in contents.unopenable || f.value in contents.undecodable)
  {
  }

  /*** main ***/

  /** What one argument of `main` comes to:
      - `NeedBookNumber`: `int(arg)` failed and the message was printed;
      - `Reloaded`: the reload ran to its end with the given result;
      - `CaughtValueError`: the read of `file` raised a ValueError, which
        `main`'s handler catches, printing the need-a-book-number message;
      - `Aborted`: opening `file` raised an OSError, which nothing catches,
        so the run stops there. */
  datatype ArgOutcome =
    | NeedBookNumber
    | Reloaded(ebook: int, result: Reload)
    | CaughtValueError(ebook: int, file: string)
    | Aborted(ebook: int, file: string)

  /** The outcomes that print "need a book number to load". */
  predicate SaysNeedBookNumber(o: ArgOutcome) {
    o.NeedBookNumber? || o.CaughtValueError?
  }

  /** No argument of `out` stopped the run. */
  predicate Completes(out: seq<ArgOutcome>) {
    forall i :: 0 <= i < |out| ==> !out[i].Aborted?
  }

  /** The outcome of a reload that was entered for ebook `n`. */
  function Reported(n: int, r: Reload): ArgOutcome {
    match r
    case OpenFailed(f) => Aborted(n, f)
    case DecodeFailed(f) => CaughtValueError(n, f)
    case _ => Reloaded(n, r)
  }

  /** What `main` does with one argument. */
  function ReloadArgument(private: string, arg: string, present: set<string>, contents: Contents): ArgOutcome {
    match ParseInt(arg)
    case None => NeedBookNumber
    case Some(n) => Reported(n, ReloadWorkflowFile(private, n, present, contents))
  }

  /** An argument prints the need-a-book-number message exactly when it is
      not a number or its newest workflow file opens but does not decode;
      it stops the run exactly when it is a number whose newest file does
      not open. */
  lemma ArgumentMessageIff(private: string, arg: string, present: set<string>, contents: Contents)
    ensures var o := ReloadArgument(private, arg, present, contents);
      SaysNeedBookNumber(o) <==>
        ParseInt(arg).None? ||
        ReloadWorkflowFile(private, ParseInt(arg).value, present, contents).DecodeFailed?
    ensures var o := ReloadArgument(private, arg, present, contents);
      o.Aborted? <==>
        ParseInt(arg).Some? &&
        ReloadWorkflowFile(private, ParseInt(arg).value, present, contents).OpenFailed?
    ensures var o := ReloadArgument(private, arg, present, contents);
      o.Reloaded? ==> !Raises(o.result) && o.result == ReloadWorkflowFile(private, o.ebook, present, contents)
  {
  }

  /** `ReloadArgument` as a value, for handling a list. */
  function Handler(private: string, present: set<string>, contents: Contents): string -> ArgOutcome {
    arg => ReloadArgument(private, arg, present, contents)
  }

  /** The outcome every argument would have on its own. */
  function EachArgument(f: string -> ArgOutcome, args: seq<string>): (out: seq<ArgOutcome>)
    ensures |out| == |args|
    ensures forall i :: 0 <= i < |args| ==> out[i] == f(args[i])
  {
    seq(|args|, i requires 0 <= i < |args| => f(args[i]))
  }

  /** Each argument's outcome depends on that argument alone. */
  lemma EachArgumentSplits(f: string -> ArgOutcome, a: seq<string>, b: seq<string>)
    ensures EachArgument(f, a + b) == EachArgument(f, a) + EachArgument(f, b)
  {
    var whole := EachArgument(f, a + b);
    var parts := EachArgument(f, a) + EachArgument(f, b);
    forall i | 0 <= i < |a + b|
      ensures whole[i] == parts[i]
    {
      if i >= |a| {
        assert (a + b)[i] == b[i - |a|];
      }
    }
  }

  /** The outcomes up to and including the first abort: what is left of a
      run once an uncaught exception ends it. */
  function UpToAbort(outs: seq<ArgOutcome>): (r: seq<ArgOutcome>)
    ensures |r| <= |outs| && r == outs[..|r|]
    ensures forall i :: 0 <= i < |r| - 1 ==> !r[i].Aborted?
    ensures |r| < |outs| ==> r != [] && r[|r| - 1].Aborted?
    decreases |outs|
  {
    if outs == [] then []
    else if outs[0].Aborted? then [outs[0]]
    else [outs[0]] + UpToAbort(outs[1..])
  }

  /** A run that goes on past its first outcome completes when the rest does. */
  lemma CompletesCons(o: ArgOutcome, rest: seq<ArgOutcome>)
    requires !o.Aborted?
    ensures Completes([o] + rest) <==> Completes(rest)
  {
    if Completes([o] + rest) {
      forall i | 0 <= i < |rest|
        ensures !rest[i].Aborted?
      {
        assert ([o] + rest)[i + 1] == rest[i];
      }
    }
  }

  /** Outcomes taken one by one: the part of a list that runs is the part of
      its first half that runs, followed by the part of the second half when
      nothing in the first stopped the run. */
  lemma {:induction false} UpToAbortSplits(x: seq<ArgOutcome>, y: seq<ArgOutcome>)
    ensures UpToAbort(x + y) == UpToAbort(x) + (if Completes(UpToAbort(x)) then UpToAbort(y) else [])
  {
    if x == [] {
      assert x + y == y;
    } else {
      assert (x + y)[0] == x[0];
      if !x[0].Aborted? {
        assert (x + y)[1..] == x[1..] + y;
        UpToAbortSplits(x[1..], y);
        CompletesCons(x[0], UpToAbort(x[1..]));
      }
    }
  }

  /** One outcome in the middle of a run: it is reached when nothing before
      it stopped the run, and the run goes on after it unless it aborts. */
  lemma UpToAbortMiddle(x: seq<ArgOutcome>, o: ArgOutcome, y: seq<ArgOutcome>)
    ensures UpToAbort(x + [o] + y)
            == UpToAbort(x) + (if Completes(UpToAbort(x)) then (if o.Aborted? then [o] else [o] + UpToAbort(y)) else [])
  {
    assert x + [o] + y == x + ([o] + y);
    UpToAbortSplits(x, [o] + y);
    assert ([o] + y)[0] == o && ([o] + y)[1..] == y;
  }

  /** The arguments in order, stopping after the first one that aborts. */
  function ReloadEach(private: string, args: seq<string>, present: set<string>, contents: Contents): seq<ArgOutcome> {
    UpToAbort(EachArgument(Handler(private, present, contents), args))
  }

  /** The run handles the arguments in order, each as it would be on its
      own. */
  lemma ReloadEachOutcomes(private: string, args: seq<string>, present: set<string>, contents: Contents)
    ensures |ReloadEach(private, args, present, contents)| <= |args|
    ensures forall i :: 0 <= i < |ReloadEach(private, args, present, contents)| ==>
      ReloadEach(private, args, present, contents)[i] == ReloadArgument(private, args[i], present, contents)
  {
    var f := Handler(private, present, contents);
    assert forall arg :: f(arg) == ReloadArgument(private, arg, present, contents);
    RunOfEach(f, args);
  }

  /** The run stops right after the first argument that aborts, and only
      there. */
  lemma ReloadEachStops(private: string, args: seq<string>, present: set<string>, contents: Contents)
    ensures forall i :: 0 <= i < |ReloadEach(private, args, present, contents)| - 1 ==>
      !ReloadEach(private, args, present, contents)[i].Aborted?
    ensures var out := ReloadEach(private, args, present, contents);
      |out| < |args| ==> out != [] && out[|out| - 1].Aborted?
  {
  }

  /** Whatever the handler, the run's outcomes are the handler's outcomes of
      the first arguments. */
  lemma RunOfEach(f: string -> ArgOutcome, args: seq<string>)
    ensures |UpToAbort(EachArgument(f, args))| <= |args|
    ensures forall i :: 0 <= i < |UpToAbort(EachArgument(f, args))| ==> UpToAbort(EachArgument(f, args))[i] == f(args[i])
  {
    var all := EachArgument(f, args);
    var out := UpToAbort(all);
    forall i | 0 <= i < |out|
      ensures out[i] == f(args[i])
    {
      assert out[i] == all[..|out|][i] == all[i];
    }
  }

  /** What `main` does with the arguments: with none, the message alone;
      otherwise the outcome of each argument in turn, up to and including
      the first one whose file does not open. */
  function MainOutcomes(private: string, args: seq<string>, present: set<string>, contents: Contents): (out: seq<ArgOutcome>)
    ensures args == [] ==> out == [NeedBookNumber]
    ensures args != [] ==> 1 <= |out| <= |args|
    ensures args != [] && (forall i :: 0 <= i < |args| ==> !ReloadArgument(private, args[i], present, contents).Aborted?)
            ==> |out| == |args|
  {
    if args == [] then [NeedBookNumber]
    else
      RunsToEnd(private, args, present, contents);
      ReloadEach(private, args, present, contents)
  }

  /** The run goes through every argument exactly when none of them aborts,
      and never stops before its first argument. */
  lemma RunsToEnd(private: string, args: seq<string>, present: set<string>, contents: Contents)
    ensures Completes(ReloadEach(private, args, present, contents))
        <==> forall i :: 0 <= i < |args| ==> !ReloadArgument(private, args[i], present, contents).Aborted?
    ensures Completes(ReloadEach(private, args, present, contents))
        ==> |ReloadEach(private, args, present, contents)| == |args|
    ensures args != [] ==> ReloadEach(private, args, present, contents) != []
  {
    ReloadEachOutcomes(private, args, present, contents);
    ReloadEachStops(private, args, present, contents);
    var out := ReloadEach(private, args, present, contents);
    if |out| < |args| {
      assert out[|out| - 1] == ReloadArgument(private, args[|out| - 1], present, contents);
    }
  }

  /** The arguments are handled one by one: the outcome of a list is the
      outcomes of its first part, followed by those of the rest unless an
      argument of the first part stopped the run. */
  lemma ReloadEachSplits(private: string, a: seq<string>, b: seq<string>, present: set<string>, contents: Contents)
    ensures ReloadEach(private, a + b, present, contents)
            == ReloadEach(private, a, present, contents)
               + (if Completes(ReloadEach(private, a, present, contents)) then ReloadEach(private, b, present, contents) else [])
  {
    var f := Handler(private, present, contents);
    EachArgumentSplits(f, a, b);
    UpToAbortSplits(EachArgument(f, a), EachArgument(f, b));
  }

  /** What is left of `a + [arg] + b` once the run is cut at the first abort. */
  lemma ReloadEachMiddle(private: string, a: seq<string>, arg: string, b: seq<string>, present: set<string>, contents: Contents)
    ensures var before := ReloadEach(private, a, present, contents);
      var o := ReloadArgument(private, arg, present, contents);
      ReloadEach(private, a + [arg] + b, present, contents)
      == before + (if Completes(before) then (if o.Aborted? then [o] else [o] + ReloadEach(private, b, present, contents)) else [])
  {
    var f := Handler(private, present, contents);
    EachArgumentSplits(f, a + [arg], b);
    EachArgumentSplits(f, a, [arg]);
    assert EachArgument(f, [arg]) == [f(arg)];
    UpToAbortMiddle(EachArgument(f, a), f(arg), EachArgument(f, b));
  }

  /** An argument that is not a number gives the message in its place, and
      the arguments after it are still handled, unless an earlier one
      stopped the run. */
  lemma BadArgumentMessage(private: string, a: seq<string>, arg: string, b: seq<string>, present: set<string>, contents: Contents)
    requires ParseInt(arg).None?
    ensures var before := ReloadEach(private, a, present, contents);
      ReloadEach(private, a + [arg] + b, present, contents)
      == before + (if Completes(before) then [NeedBookNumber] + ReloadEach(private, b, present, contents) else [])
  {
    ReloadEachMiddle(private, a, arg, b, present, contents);
  }

  /** A number argument reports what its reload raised. */
  lemma ReadFailureOutcome(private: string, arg: string, present: set<string>, contents: Contents)
    requires ParseInt(arg).Some?
    ensures var r := ReloadWorkflowFile(private, ParseInt(arg).value, present, contents);
      (r.DecodeFailed? ==> ReloadArgument(private, arg, present, contents) == CaughtValueError(ParseInt(arg).value, r.file))
      && (r.OpenFailed? ==> ReloadArgument(private, arg, present, contents) == Aborted(ParseInt(arg).value, r.file))
  {
  }

  /** A newest file that opens but does not decode gives the same message,
      and the run goes on with the next argument. */
  lemma DecodeFailureInRun(private: string, a: seq<string>, arg: string, b: seq<string>, present: set<string>, contents: Contents)
    requires ParseInt(arg).Some?
    ensures var before := ReloadEach(private, a, present, contents);
      var r := ReloadWorkflowFile(private, ParseInt(arg).value, present, contents);
      r.DecodeFailed? ==>
        ReloadEach(private, a + [arg] + b, present, contents)
        == before + (if Completes(before) then [CaughtValueError(ParseInt(arg).value, r.file)] + ReloadEach(private, b, present, contents) else [])
  {
    ReadFailureOutcome(private, arg, present, contents);
    ReloadEachMiddle(private, a, arg, b, present, contents);
  }

  /** A newest file that does not open ends the run with that argument. */
  lemma OpenFailureEndsRun(private: string, a: seq<string>, arg: string, b: seq<string>, present: set<string>, contents: Contents)
    requires ParseInt(arg).Some?
    ensures var before := ReloadEach(private, a, present, contents);
      var r := ReloadWorkflowFile(private, ParseInt(arg).value, present, contents);
      r.OpenFailed? ==>
        ReloadEach(private, a + [arg] + b, present, contents)
        == before + (if Completes(before) then [Aborted(ParseInt(arg).value, r.file)] else [])
  {
    ReadFailureOutcome(private, arg, present, contents);
    ReloadEachMiddle(private, a, arg, b, present, contents);
  }

  /** An argument that is a number, with or without leading zeros, reloads
      that book. */
  lemma NumberArgumentReloads(private: string, n: nat, zeros: nat, present: set<string>, contents: Contents)
    ensures MainOutcomes(private, [Zeros(zeros) + NatToString(n)], present, contents)
            == [Reported(n, ReloadWorkflowFile(private, n, present, contents))]
  {
    LeadingZerosParse(zeros, n);
    var f := Handler(private, present, contents);
    assert EachArgument(f, [Zeros(zeros) + NatToString(n)]) == [f(Zeros(zeros) + NatToString(n))];
  }
}
