/** `Maker.should_do_job` and `Maker.mk_job_queue`: for each requested type,
    in order, decide whether to queue a conversion job, which candidate feeds
    it, and which leftover outputs to remove; every queued job adds a
    generated candidate to the front of the pool so that later types of the
    same pass can be made from it. */
module JobQueue {
  import Strings
  import opened Numerals
  import opened Paths
  import opened Globs
  import opened Optional
  import opened ConverterTables
  import opened Candidates

  /** `urllib.parse.urljoin(base, ref)`, kept symbolic. */
  datatype UrlRef = UrlJoin(base: string, ref: string)

  /** The fields of a conversion job that `mk_job_queue` sets. `None` and
      `[]` stand for whatever the job class starts with. */
  datatype Job = Job(
    jobType: string,
    ebook: int,
    outputdir: string,
    outputfile: string,
    logfile: string,
    url: Option<string>,
    includes: seq<string>,
    maxDepth: Option<int>,
    source: Option<UrlRef>,
    opfIdentifier: Option<UrlRef>)

  /** What the pass reads from its surroundings: the format tables, the
      configured directories and URLs, the option sets, `is_not_text(ebook)`,
      the clock, the file system and the job class's main type of each type.
      The tables are a parameter so that the pass is stated for any tables;
      `Shipped` picks the converter's own. */
  datatype Config = Config(
    formats: map<string, seq<string>>,
    exclusions: map<string, seq<string>>,
    ebook: int,
    filesdir: string,
    cachedir: string,
    pgurl: string,
    bibrec: string,
    make: seq<string>,
    build: set<string>,
    dryRun: bool,
    notText: bool,
    now: int,
    files: map<string, int>,
    present: set<string>,
    maintypeOf: string -> string)

  /** The tables are `PREFERRED_INPUT_FORMATS` and `EXCLUSIONS`. */
  predicate Shipped(cfg: Config) {
    cfg.formats == PreferredInputFormats && cfg.exclusions == Exclusions
  }

  /** `get_cache_dir()` */
  function CacheDir(cfg: Config): string {
    Join(cfg.cachedir, IntToString(cfg.ebook))
  }

  /** Python's `s[n:]`: clamps instead of failing. */
  function Drop(s: string, n: nat): (r: string)
    ensures |s| <= n ==> r == []
    ensures |s| > n ==> |r| == |s| - n && r == s[n..]
  {
    if |s| <= n then [] else s[n..]
  }

  /** Dropping n characters removes exactly an n-character prefix, so the
      `file://` in front of a `FILESDIR` path goes and the local path is
      left; whatever is left is a suffix of the original. */
  lemma DropStripsPrefix(prefix: string, rest: string, s: string, n: nat)
    ensures Drop(prefix + rest, |prefix|) == rest
    ensures Drop("file://" + rest, 7) == rest
    ensures Strings.EndsWith(s, Drop(s, n))
  {
    assert (prefix + rest)[|prefix|..] == rest;
    assert ("file://" + rest)[7..] == rest;
    if |s| > n {
      assert s[|s| - |Drop(s, n)|..] == s[n..];
    }
  }

  /** `Maker.should_do_job(job, candidate)` */
  function ShouldDoJob(cfg: Config, job: Job, cand: Option<Candidate>): bool
    requires job.jobType in cfg.formats
  {
    if |cfg.formats[job.jobType]| == 0 then true
    else if cand.None? then true
    else
      var c := cand.value;
      if !c.generated && Drop(Join(cfg.filesdir, c.archivePath), 7) !in cfg.present then false
      else
        var path := Join(job.outputdir, job.outputfile);
        if path in cfg.files then
          (if c.modified < cfg.files[path] then job.jobType in cfg.build else true)
        else true
  }

  /** The job skeleton made for every type. */
  function BaseJob(cfg: Config, t: string): (job: Job)
    ensures job.jobType == t && job.ebook == cfg.ebook
    ensures job.outputdir == CacheDir(cfg) && job.outputfile == MakeOutputFilename(t, cfg.ebook)
    ensures job.logfile == MakeOutputFilename("logfile", cfg.ebook)
    ensures job.url.None? && job.includes == [] && job.maxDepth.None?
  {
    Job(t, cfg.ebook, CacheDir(cfg), MakeOutputFilename(t, cfg.ebook),
      MakeOutputFilename("logfile", cfg.ebook), None, [], None, None, None)
  }

  /** Only the `logfile` entry of FILENAMES carries the log's suffix. */
  lemma OnlyLogHasLogSuffix(t: string)
    requires t != "logfile"
    ensures FilenameSuffix(t) != ".converter.log"
  {
  }

  /** A job of any type but `logfile` writes a file named after the ebook
      that is never its own log file. */
  lemma BaseJobOwnFiles(cfg: Config, t: string)
    requires t != "logfile"
    ensures Strings.StartsWith(BaseJob(cfg, t).outputfile, "pg" + IntToString(cfg.ebook))
    ensures BaseJob(cfg, t).outputfile != BaseJob(cfg, t).logfile
  {
    var p := "pg" + IntToString(cfg.ebook);
    OutputFilenameShape(t, cfg.ebook);
    OutputFilenameShape("logfile", cfg.ebook);
    OnlyLogHasLogSuffix(t);
    assert (p + FilenameSuffix(t))[..|p|] == p;
    assert (p + FilenameSuffix(t))[|p|..] == FilenameSuffix(t);
    assert (p + ".converter.log")[|p|..] == ".converter.log";
  }

  /** The job once its input candidate is known. */
  function SourcedJob(cfg: Config, t: string, c: Candidate): (job: Job)
    ensures job.jobType == t && job.outputfile == MakeOutputFilename(t, cfg.ebook)
    ensures job.url == Some(Join(cfg.filesdir, c.archivePath))
    ensures job.maxDepth == Some(3)
  {
    BaseJob(cfg, t).(
      url := Some(Join(cfg.filesdir, c.archivePath)),
      includes := [Join(cfg.filesdir, Dirname(c.archivePath) + "/*")],
      maxDepth := Some(3),
      source := Some(UrlJoin(cfg.pgurl, c.archivePath)),
      opfIdentifier := Some(UrlJoin(cfg.bibrec + "/", IntToString(cfg.ebook))))
  }

  /** `[c for c in candidates if not c.generated]` */
  function NonGenerated(pool: seq<Candidate>): (r: seq<Candidate>)
    ensures forall c :: c in r <==> c in pool && !c.generated
  {
    if pool == [] then []
    else (if pool[0].generated then [] else [pool[0]]) + NonGenerated(pool[1..])
  }

  /** The exclusion test: a non-generated file of an excluding format exists. */
  predicate AlreadyPosted(cfg: Config, pool: seq<Candidate>, t: string) {
    t in cfg.exclusions && FilterSortSpec(cfg.exclusions[t], NonGenerated(pool)) != []
  }

  /** The candidates ranked for a type. */
  function Ranked(cfg: Config, pool: seq<Candidate>, t: string): seq<Candidate>
    requires t in cfg.formats
  {
    FilterSortSpec(cfg.formats[t], pool)
  }

  /** How a type fares in the pass. */
  datatype Verdict = Posted | NotText | NoSource | TooBig | UpToDate | Queued

  /** The candidate a job for `t` would be made from. */
  function Chosen(cfg: Config, pool: seq<Candidate>, t: string): Option<Candidate>
    requires t in cfg.formats
  {
    if |cfg.formats[t]| > 0 && Ranked(cfg, pool, t) != [] then Some(Ranked(cfg, pool, t)[0]) else None
  }

  /** The job as it stands when `should_do_job` is asked about it. */
  function PreparedJob(cfg: Config, pool: seq<Candidate>, t: string): Job
    requires t in cfg.formats
  {
    if Chosen(cfg, pool, t).Some? then SourcedJob(cfg, t, Chosen(cfg, pool, t).value) else BaseJob(cfg, t)
  }

  function Decide(cfg: Config, pool: seq<Candidate>, t: string): Verdict
    requires t in cfg.formats
  {
    var formats := cfg.formats[t];
    if AlreadyPosted(cfg, pool, t) then Posted
    else if |formats| > 0 && cfg.notText then NotText
    else if |formats| > 0 && Ranked(cfg, pool, t) == [] then NoSource
    else if |formats| > 0 && Ranked(cfg, pool, t)[0].extent > SizeLimit(cfg.maintypeOf(t)) then TooBig
    else if ShouldDoJob(cfg, PreparedJob(cfg, pool, t), Chosen(cfg, pool, t)) then Queued
    else UpToDate
  }

  /** The candidate pool, the job queue and the types whose leftovers
      `remove_type` was asked to remove, in call order. */
  datatype PassState = PassState(pool: seq<Candidate>, queue: seq<Job>, removed: seq<string>)

  /** `remove_type(t)` runs unless this is a dry run. */
  function Removal(cfg: Config, t: string): seq<string> {
    if cfg.dryRun then [] else [t]
  }

  /** The generated candidate a queued job leaves behind. Its identity is
      below every identity already in the pool. */
  function NewCandidate(cfg: Config, st: PassState, job: Job): Candidate {
    Candidate(-1 - |st.queue|, Join(job.outputdir, job.outputfile), job.jobType + "/unknown", cfg.now, 0, true)
  }

  /** One iteration of the loop over `options.make`. */
  function Step(cfg: Config, st: PassState, t: string): PassState
    requires t in cfg.formats
  {
    match Decide(cfg, st.pool, t)
    case Posted => st.(removed := st.removed + Removal(cfg, t))
    case NoSource => st.(removed := st.removed + Removal(cfg, t))
    case Queued =>
      var job := PreparedJob(cfg, st.pool, t);
      PassState([NewCandidate(cfg, st, job)] + st.pool, st.queue + [job], st.removed)
    case _ => st
  }

  /** The pass over a list of types; an unknown type raises KeyError from the
      lookup in the formats table, after what came before it. */
  datatype RunResult = Completed(st: PassState) | UnknownType(badType: string, st: PassState)

  function Run(cfg: Config, st: PassState, types: seq<string>): RunResult {
    if types == [] then Completed(st)
    else
      match Run(cfg, st, types[..|types| - 1])
      case UnknownType(u, s) => UnknownType(u, s)
      case Completed(s) =>
        var t := types[|types| - 1];
        if t in cfg.formats then Completed(Step(cfg, s, t)) else UnknownType(t, s)
  }

  /** The state the pass starts from. */
  function Initial(cfg: Config, adir: string, rows: seq<FileRow>): PassState {
    PassState(ReadSpec(cfg.ebook, adir, rows), [], [])
  }

  /*** should_do_job ***/

  /** A type that needs no input, or a job without a candidate, is always done. */
  lemma ShouldDoJobWithoutInput(cfg: Config, job: Job, cand: Option<Candidate>)
    requires job.jobType in cfg.formats
    requires |cfg.formats[job.jobType]| == 0 || cand.None?
    ensures ShouldDoJob(cfg, job, cand)
  {
  }

  /** A registered source file that is missing on disk skips the job. */
  lemma ShouldDoJobMissingSource(cfg: Config, job: Job, c: Candidate)
    requires job.jobType in cfg.formats && |cfg.formats[job.jobType]| > 0
    requires !c.generated && Drop(Join(cfg.filesdir, c.archivePath), 7) !in cfg.present
    ensures !ShouldDoJob(cfg, job, Some(c))
  {
  }

  /** Once the input is there: a missing target is made; a target newer than
      the candidate is remade only on request; an older or equally old target
      is remade. */
  lemma ShouldDoJobTimestamps(cfg: Config, job: Job, c: Candidate)
    requires job.jobType in cfg.formats && |cfg.formats[job.jobType]| > 0
    requires c.generated || Drop(Join(cfg.filesdir, c.archivePath), 7) in cfg.present
    ensures var path := Join(job.outputdir, job.outputfile);
      (path !in cfg.files ==> ShouldDoJob(cfg, job, Some(c)))
      && (path in cfg.files && c.modified < cfg.files[path] ==>
            (ShouldDoJob(cfg, job, Some(c)) <==> job.jobType in cfg.build))
      && (path in cfg.files && c.modified >= cfg.files[path] ==> ShouldDoJob(cfg, job, Some(c)))
  {
  }

  /** A generated candidate is never looked for on disk. */
  lemma ShouldDoJobGeneratedIgnoresSources(cfg: Config, job: Job, c: Candidate, present: set<string>)
    requires job.jobType in cfg.formats && c.generated
    ensures ShouldDoJob(cfg, job, Some(c)) == ShouldDoJob(cfg.(present := present), job, Some(c))
  {
  }

  /*** one type ***/

  /** The exclusion test fires exactly when some registered, non-generated
      candidate has a format matching one of the type's exclusion globs. */
  lemma PostedIff(cfg: Config, pool: seq<Candidate>, t: string)
    ensures AlreadyPosted(cfg, pool, t) <==>
      t in cfg.exclusions && exists c :: (c in pool && !c.generated
        && exists i :: 0 <= i < |cfg.exclusions[t]| && Match(c.format, cfg.exclusions[t][i]))
  {
    if t in cfg.exclusions {
      FilterSortMembers(cfg.exclusions[t], NonGenerated(pool));
      var r := FilterSortSpec(cfg.exclusions[t], NonGenerated(pool));
      if r != [] {
        assert r[0] in r;
      }
    }
  }

  /** The epub exclusion `epub.dp` can never fire: it has no slash, and every
      candidate format has one. */
  lemma EpubNeverPosted(cfg: Config, pool: seq<Candidate>, t: string)
    requires Shipped(cfg) && (t == "epub.images" || t == "epub.noimages")
    requires forall c :: c in pool ==> Strings.HasChar(c.format, '/')
    ensures !AlreadyPosted(cfg, pool, t)
  {
    assert cfg.exclusions[t] == ["epub.dp"];
    forall c | c in pool && !c.generated
      ensures !Match(c.format, "epub.dp")
    {
      assert !Strings.HasChar("epub.dp", '/');
      LiteralMatch(c.format, "epub.dp");
    }
    PostedIff(cfg, pool, t);
  }

  /** An unposted source-needing type of a book that is not text is skipped
      without removing anything. */
  lemma NotTextSkips(cfg: Config, st: PassState, t: string)
    requires t in cfg.formats && |cfg.formats[t]| > 0
    requires !AlreadyPosted(cfg, st.pool, t) && cfg.notText
    ensures Decide(cfg, st.pool, t) == NotText && Step(cfg, st, t) == st
  {
  }

  /** An unposted source-needing type with no matching candidate queues
      nothing and removes the type's leftovers unless this is a dry run. */
  lemma NoSourceRemoves(cfg: Config, st: PassState, t: string)
    requires t in cfg.formats && |cfg.formats[t]| > 0
    requires !AlreadyPosted(cfg, st.pool, t) && !cfg.notText
    requires forall c, i :: c in st.pool && 0 <= i < |cfg.formats[t]| ==> !Match(c.format, cfg.formats[t][i])
    ensures Decide(cfg, st.pool, t) == NoSource
    ensures Step(cfg, st, t) == st.(removed := st.removed + (if cfg.dryRun then [] else [t]))
  {
    FilterSortMembers(cfg.formats[t], st.pool);
    assert forall c :: c !in Ranked(cfg, st.pool, t);
  }

  /** A best-ranked candidate above the main type's size cap skips the type. */
  lemma OversizeSkips(cfg: Config, st: PassState, t: string)
    requires t in cfg.formats && |cfg.formats[t]| > 0
    requires !AlreadyPosted(cfg, st.pool, t) && !cfg.notText
    requires Ranked(cfg, st.pool, t) != [] && Ranked(cfg, st.pool, t)[0].extent > SizeLimit(cfg.maintypeOf(t))
    ensures Decide(cfg, st.pool, t) == TooBig && Step(cfg, st, t) == st
  {
  }

  /** A queued type appends its job and puts exactly one generated candidate
      at the front of the pool; any other outcome leaves pool and queue alone,
      and only a posted or sourceless type records a removal. */
  lemma StepEffect(cfg: Config, st: PassState, t: string)
    requires t in cfg.formats
    ensures var next := Step(cfg, st, t);
      var v := Decide(cfg, st.pool, t);
      (v == Queued ==>
        |next.pool| == |st.pool| + 1 && next.pool[1..] == st.pool
        && next.pool[0].generated && next.pool[0].extent == 0 && next.pool[0].modified == cfg.now
        && next.pool[0].format == t + "/unknown"
        && next.pool[0].archivePath == Join(CacheDir(cfg), MakeOutputFilename(t, cfg.ebook))
        && |next.queue| == |st.queue| + 1 && next.queue[..|st.queue|] == st.queue
        && next.queue[|st.queue|].jobType == t
        && next.queue[|st.queue|].outputfile == MakeOutputFilename(t, cfg.ebook)
        && next.removed == st.removed)
      && (v != Queued ==> next.pool == st.pool && next.queue == st.queue)
      && ((v == Posted || v == NoSource) ==> next.removed == st.removed + Removal(cfg, t))
      && (v != Posted && v != NoSource ==> next.removed == st.removed)
  {
    if Decide(cfg, st.pool, t) == Queued {
      StepQueued(cfg, st, t);
    }
  }

  lemma StepQueued(cfg: Config, st: PassState, t: string)
    requires t in cfg.formats && Decide(cfg, st.pool, t) == Queued
    ensures var next := Step(cfg, st, t);
        |next.pool| == |st.pool| + 1 && next.pool[1..] == st.pool
        && next.pool[0].generated && next.pool[0].extent == 0 && next.pool[0].modified == cfg.now
        && next.pool[0].format == t + "/unknown"
        && next.pool[0].archivePath == Join(CacheDir(cfg), MakeOutputFilename(t, cfg.ebook))
        && |next.queue| == |st.queue| + 1 && next.queue[..|st.queue|] == st.queue
        && next.queue[|st.queue|].jobType == t
        && next.queue[|st.queue|].outputfile == MakeOutputFilename(t, cfg.ebook)
        && next.removed == st.removed
  {
    var job := PreparedJob(cfg, st.pool, t);
    assert job.jobType == t && job.outputdir == CacheDir(cfg) && job.outputfile == MakeOutputFilename(t, cfg.ebook);
    StepWhenQueued(cfg, st, t);
    var next := Step(cfg, st, t);
    assert next.pool[1..] == st.pool;
    assert next.queue[..|st.queue|] == st.queue;
  }

  /** The state after a queued type. */
  lemma StepWhenQueued(cfg: Config, st: PassState, t: string)
    requires t in cfg.formats && Decide(cfg, st.pool, t) == Queued
    ensures var job := PreparedJob(cfg, st.pool, t);
      Step(cfg, st, t) == PassState([NewCandidate(cfg, st, job)] + st.pool, st.queue + [job], st.removed)
  {
  }

  /** A queued source-needing job is made from the best-ranked candidate,
      which is within the size cap, and points at it. */
  lemma QueuedFromBest(cfg: Config, st: PassState, t: string)
    requires t in cfg.formats && |cfg.formats[t]| > 0
    requires Decide(cfg, st.pool, t) == Queued
    ensures var c := Ranked(cfg, st.pool, t)[0];
      var job := Step(cfg, st, t).queue[|st.queue|];
      c in st.pool && c.extent <= SizeLimit(cfg.maintypeOf(t))
      && (exists i :: 0 <= i < |cfg.formats[t]| && Match(c.format, cfg.formats[t][i]))
      && (forall d :: d in st.pool && FirstMatch(cfg.formats[t], d.format) < |cfg.formats[t]| ==>
            d == c || KeyLess(cfg.formats[t], st.pool, c, d))
      && job.url == Some(Join(cfg.filesdir, c.archivePath))
      && job.includes == [Join(cfg.filesdir, Dirname(c.archivePath) + "/*")]
      && job.maxDepth == Some(3)
      && job.source == Some(UrlJoin(cfg.pgurl, c.archivePath))
      && job.opfIdentifier == Some(UrlJoin(cfg.bibrec + "/", IntToString(cfg.ebook)))
  {
    var r := Ranked(cfg, st.pool, t);
    FilterSortMembers(cfg.formats[t], st.pool);
    assert r[0] in r;
    forall d | d in st.pool && FirstMatch(cfg.formats[t], d.format) < |cfg.formats[t]|
      ensures d == r[0] || KeyLess(cfg.formats[t], st.pool, r[0], d)
    {
      FilterSortHead(cfg.formats[t], st.pool, d);
    }
  }

  /** A candidate whose format extends `prefix`, at the front of the pool,
      heads the ranking for globs led by `prefix` and a star. */
  lemma FrontExtendsPrefix(globs: seq<string>, pool: seq<Candidate>, prefix: string)
    requires pool != [] && |globs| > 0 && !Strings.HasChar(prefix, '*')
    requires globs[0] == prefix + "*" && Strings.StartsWith(pool[0].format, prefix)
    ensures FilterSortSpec(globs, pool) != [] && FilterSortSpec(globs, pool)[0] == pool[0]
  {
    PrefixStarMatch(pool[0].format, prefix);
    FilterSortPicksFront(globs, pool);
  }

  /** Chaining: after a type `t` is queued, a later type whose most preferred
      glob is `t` followed by a slash and a star is made from the candidate
      `t` just generated. */
  lemma ChainsOffGenerated(cfg: Config, st: PassState, t: string, u: string)
    requires t in cfg.formats && u in cfg.formats
    requires !Strings.HasChar(t, '*') && |cfg.formats[u]| > 0 && cfg.formats[u][0] == t + "/*"
    requires Decide(cfg, st.pool, t) == Queued
    ensures var next := Step(cfg, st, t);
      Ranked(cfg, next.pool, u) != [] && Ranked(cfg, next.pool, u)[0] == next.pool[0]
      && next.pool[0].generated
  {
    StepQueued(cfg, st, t);
    var next := Step(cfg, st, t);
    SlashPrefix(t);
    FrontExtendsPrefix(cfg.formats[u], next.pool, t + "/");
  }

  lemma SlashPrefix(t: string)
    requires !Strings.HasChar(t, '*')
    ensures !Strings.HasChar(t + "/", '*')
    ensures Strings.StartsWith(t + "/unknown", t + "/") && (t + "/") + "*" == t + "/*"
  {
    var prefix := t + "/";
    forall i | 0 <= i < |prefix| ensures prefix[i] != '*' {
      if i < |t| {
        assert prefix[i] == t[i];
      }
    }
    assert (t + "/unknown")[..|prefix|] == prefix;
  }

  /** The shipped formats table meets the conditions of `ChainsOffGenerated`
      for kindle.images after epub.images and kf8.images after epub3.images. */
  lemma ShippedChainEntries(cfg: Config)
    requires Shipped(cfg)
    ensures "epub.images" in cfg.formats && "kindle.images" in cfg.formats
    ensures "epub3.images" in cfg.formats && "kf8.images" in cfg.formats
    ensures cfg.formats["kindle.images"] == ["epub.images/*"]
    ensures cfg.formats["kf8.images"] == ["epub3.images/*"]
    ensures !Strings.HasChar("epub.images", '*') && "epub.images/*" == "epub.images" + "/*"
    ensures !Strings.HasChar("epub3.images", '*') && "epub3.images/*" == "epub3.images" + "/*"
  {
    KindleFormatsFromEpub();
  }

  /*** the whole pass ***/

  /** `a` is a subsequence of `b`. */
  predicate IsSubseq(a: seq<string>, b: seq<string>)
    decreases |b|
  {
    if a == [] then true
    else if b == [] then false
    else if a[0] == b[0] then IsSubseq(a[1..], b[1..])
    else IsSubseq(a, b[1..])
  }

  lemma {:induction false} SubseqSkip(a: seq<string>, b: seq<string>, x: string)
    requires IsSubseq(a, b)
    ensures IsSubseq(a, b + [x])
    decreases |b|
  {
    if a != [] && b != [] {
      assert (b + [x])[1..] == b[1..] + [x];
      if a[0] == b[0] {
        SubseqSkip(a[1..], b[1..], x);
      } else {
        SubseqSkip(a, b[1..], x);
      }
    }
  }

  lemma {:induction false} SubseqBoth(a: seq<string>, b: seq<string>, x: string)
    requires IsSubseq(a, b)
    ensures IsSubseq(a + [x], b + [x])
    decreases |b|
  {
    if b == [] {
      assert a == [];
      assert [x][1..] == [];
    } else if a == [] {
      if b[0] != x {
        SubseqBoth(a, b[1..], x);
        assert (b + [x])[1..] == b[1..] + [x];
      } else {
        assert ([x])[1..] == [];
      }
    } else {
      assert (b + [x])[1..] == b[1..] + [x];
      assert (a + [x])[0] == a[0];
      if a[0] == b[0] {
        SubseqBoth(a[1..], b[1..], x);
        assert (a + [x])[1..] == a[1..] + [x];
      } else {
        SubseqBoth(a, b[1..], x);
      }
    }
  }

  function JobTypes(q: seq<Job>): (r: seq<string>)
    ensures |r| == |q| && forall i :: 0 <= i < |q| ==> r[i] == q[i].jobType
  {
    if q == [] then [] else JobTypes(q[..|q| - 1]) + [q[|q| - 1].jobType]
  }

  /** The pass fails exactly when some requested type has no formats entry. */
  lemma {:induction false} RunCompletesIff(cfg: Config, st: PassState, types: seq<string>)
    ensures Run(cfg, st, types).Completed? <==> forall i :: 0 <= i < |types| ==> types[i] in cfg.formats
  {
    if types != [] {
      var init := types[..|types| - 1];
      RunCompletesIff(cfg, st, init);
      assert forall i :: 0 <= i < |init| ==> init[i] == types[i];
    }
  }

  /** With the shipped tables, a pass over types of the build order cannot fail. */
  lemma ShippedBuildOrderCompletes(cfg: Config, st: PassState, types: seq<string>)
    requires Shipped(cfg)
    requires forall i :: 0 <= i < |types| ==> types[i] in BuildOrder
    ensures Run(cfg, st, types).Completed?
  {
    BuildOrderHasFormats();
    RunCompletesIff(cfg, st, types);
  }

  /** What one step can do to the pool, the queue and the removals. */
  lemma StepGrowth(cfg: Config, st: PassState, t: string)
    requires t in cfg.formats
    ensures var next := Step(cfg, st, t);
      ((|next.pool| == |st.pool| + 1 && next.pool[1..] == st.pool && next.pool[0].generated
        && next.queue == st.queue + [next.queue[|st.queue|]] && next.queue[|st.queue|].jobType == t)
       || (next.pool == st.pool && next.queue == st.queue))
      && (next.removed == st.removed || next.removed == st.removed + [t])
  {
    StepEffect(cfg, st, t);
    if Decide(cfg, st.pool, t) == Queued {
      var next := Step(cfg, st, t);
      assert next.queue == next.queue[..|st.queue|] + [next.queue[|st.queue|]];
    }
  }

  /** Over a whole pass the queue only grows, in the order of the requested
      types, and the pool grows by one generated candidate per queued job,
      in front of the pool the pass started with. */
  lemma RunShape(cfg: Config, st: PassState, types: seq<string>)
    requires Run(cfg, st, types).Completed?
    ensures var s := Run(cfg, st, types).st;
      |s.queue| >= |st.queue| && s.queue[..|st.queue|] == st.queue
      && IsSubseq(JobTypes(s.queue[|st.queue|..]), types)
      && |s.pool| == |st.pool| + (|s.queue| - |st.queue|)
      && s.pool[|s.pool| - |st.pool|..] == st.pool
      && (forall i :: 0 <= i < |s.pool| - |st.pool| ==> s.pool[i].generated)
  {
    RunQueue(cfg, st, types);
    RunPool(cfg, st, types);
    var s := Run(cfg, st, types).st;
    assert PoolGrown(st, s);
    assert GeneratedFront(s.pool, |s.pool| - |st.pool|);
  }

  lemma {:induction false} RunQueue(cfg: Config, st: PassState, types: seq<string>)
    requires Run(cfg, st, types).Completed?
    ensures var s := Run(cfg, st, types).st;
      |s.queue| >= |st.queue| && s.queue[..|st.queue|] == st.queue
      && IsSubseq(JobTypes(s.queue[|st.queue|..]), types)
  {
    if types == [] {
      assert st.queue[|st.queue|..] == [];
    } else {
      var init := types[..|types| - 1];
      var t := types[|types| - 1];
      assert types == init + [t];
      RunQueue(cfg, st, init);
      var s := Run(cfg, st, init).st;
      var next := Step(cfg, s, t);
      assert Run(cfg, st, types).st == next;
      StepGrowth(cfg, s, t);
      QueueExtended(st.queue, s.queue, next.queue, init, t);
    }
  }

  /** The queue after one more requested type `t`: unchanged, or one job of
      type `t` longer, so its new part is still a subsequence of the types. */
  lemma QueueExtended(q0: seq<Job>, q: seq<Job>, q1: seq<Job>, init: seq<string>, t: string)
    requires |q| >= |q0| && q[..|q0|] == q0 && IsSubseq(JobTypes(q[|q0|..]), init)
    requires q1 == q || (|q1| == |q| + 1 && q1 == q + [q1[|q|]] && q1[|q|].jobType == t)
    ensures |q1| >= |q0| && q1[..|q0|] == q0 && IsSubseq(JobTypes(q1[|q0|..]), init + [t])
  {
    var added := q[|q0|..];
    if q1 == q {
      SubseqSkip(JobTypes(added), init, t);
    } else {
      var job := q1[|q|];
      assert q1[..|q0|] == q0;
      assert q1[|q0|..] == added + [job];
      assert JobTypes(added + [job]) == JobTypes(added) + [t];
      SubseqBoth(JobTypes(added), init, t);
    }
  }

  lemma {:induction false} RunPool(cfg: Config, st: PassState, types: seq<string>)
    requires Run(cfg, st, types).Completed?
    ensures PoolGrown(st, Run(cfg, st, types).st)
  {
    if types != [] {
      var init := types[..|types| - 1];
      var t := types[|types| - 1];
      RunPool(cfg, st, init);
      var s := Run(cfg, st, init).st;
      StepPoolGrowth(cfg, s, t);
      PoolGrownStep(st, s, Step(cfg, s, t));
    }
  }

  /** The first `n` candidates of the pool are generated ones. */
  predicate GeneratedFront(pool: seq<Candidate>, n: int) {
    forall i :: 0 <= i < n && i < |pool| ==> pool[i].generated
  }

  /** From `st0` to `s` the pool grew in front by one generated candidate
      per job added to the queue. */
  predicate PoolGrown(st0: PassState, s: PassState) {
    |s.pool| - |st0.pool| == |s.queue| - |st0.queue| >= 0
    && s.pool[|s.pool| - |st0.pool|..] == st0.pool
    && GeneratedFront(s.pool, |s.pool| - |st0.pool|)
  }

  /** From `s` to `next` one generated candidate and one job were added, or
      neither. */
  predicate StepGrown(s: PassState, next: PassState) {
    (|next.pool| == |s.pool| + 1 && next.pool == [next.pool[0]] + s.pool && next.pool[0].generated
     && |next.queue| == |s.queue| + 1)
    || (next.pool == s.pool && |next.queue| == |s.queue|)
  }

  lemma PoolGrownStep(st0: PassState, s: PassState, next: PassState)
    requires PoolGrown(st0, s) && StepGrown(s, next)
    ensures PoolGrown(st0, next)
  {
    if next.pool != s.pool {
      ConsFront(next.pool[0], s.pool, |st0.pool|);
    }
  }

  lemma ConsFront(c: Candidate, pool: seq<Candidate>, m: nat)
    requires m <= |pool| && c.generated && GeneratedFront(pool, |pool| - m)
    ensures ([c] + pool)[|pool| + 1 - m..] == pool[|pool| - m..]
    ensures GeneratedFront([c] + pool, |pool| + 1 - m)
  {
    var p := [c] + pool;
    assert forall i :: 1 <= i < |p| ==> p[i] == pool[i - 1];
  }

  /** A step adds one generated candidate and one job, or neither. */
  lemma StepPoolGrowth(cfg: Config, st: PassState, t: string)
    requires t in cfg.formats
    ensures StepGrown(st, Step(cfg, st, t))
  {
    if Decide(cfg, st.pool, t) == Queued {
      StepQueued(cfg, st, t);
      var next := Step(cfg, st, t);
      assert next.pool == [next.pool[0]] + next.pool[1..];
    }
  }

  /** `remove_type` is asked about types in the order they were requested,
      each at most once per request. */
  lemma {:induction false} RunRemovals(cfg: Config, st: PassState, types: seq<string>)
    requires Run(cfg, st, types).Completed?
    ensures var s := Run(cfg, st, types).st;
      |s.removed| >= |st.removed| && s.removed[..|st.removed|] == st.removed
      && IsSubseq(s.removed[|st.removed|..], types)
  {
    if types == [] {
      assert st.removed[|st.removed|..] == [];
    } else {
      var init := types[..|types| - 1];
      var t := types[|types| - 1];
      assert types == init + [t];
      RunRemovals(cfg, st, init);
      var s := Run(cfg, st, init).st;
      var next := Step(cfg, s, t);
      StepGrowth(cfg, s, t);
      var gone := s.removed[|st.removed|..];
      if next.removed == s.removed {
        SubseqSkip(gone, init, t);
      } else {
        assert next.removed[|st.removed|..] == gone + [t];
        SubseqBoth(gone, init, t);
      }
    }
  }

  /** Identities stay distinct: generated candidates get identities below
      every identity already present. */
  ghost predicate DistinctIdentities(st: PassState) {
    IdentitiesFrom(st.pool, |st.queue|)
  }

  /** The identities are distinct and none is below `-q`. */
  ghost predicate IdentitiesFrom(pool: seq<Candidate>, q: nat) {
    (forall i, j :: 0 <= i < j < |pool| ==> pool[i].id != pool[j].id)
    && (forall i :: 0 <= i < |pool| ==> pool[i].id + q >= 0)
  }

  lemma {:induction false} RunKeepsIdentitiesDistinct(cfg: Config, st: PassState, types: seq<string>)
    requires DistinctIdentities(st)
    ensures DistinctIdentities(Run(cfg, st, types).st)
  {
    if types != [] {
      var init := types[..|types| - 1];
      var t := types[|types| - 1];
      RunKeepsIdentitiesDistinct(cfg, st, init);
      var r := Run(cfg, st, init);
      if r.Completed? && t in cfg.formats {
        StepKeepsIdentitiesDistinct(cfg, r.st, t);
      }
    }
  }

  lemma StepKeepsIdentitiesDistinct(cfg: Config, st: PassState, t: string)
    requires t in cfg.formats && DistinctIdentities(st)
    ensures DistinctIdentities(Step(cfg, st, t))
  {
    if Decide(cfg, st.pool, t) == Queued {
      StepWhenQueued(cfg, st, t);
      var c := NewCandidate(cfg, st, PreparedJob(cfg, st.pool, t));
      IdentityBelowAll(c, st.pool, |st.queue|);
    } else {
      StepPoolGrowth(cfg, st, t);
    }
  }

  /** A candidate numbered `-1 - q` in front of a pool numbered from `-q`
      keeps the identities distinct. */
  lemma IdentityBelowAll(c: Candidate, pool: seq<Candidate>, q: nat)
    requires IdentitiesFrom(pool, q) && c.id == -1 - q
    ensures IdentitiesFrom([c] + pool, q + 1)
  {
    var p := [c] + pool;
    assert forall i :: 1 <= i < |p| ==> p[i] == pool[i - 1];
  }

  /** Every candidate of the pass has a slash in its format. */
  lemma {:induction false} RunKeepsSlashedFormats(cfg: Config, st: PassState, types: seq<string>)
    requires forall c :: c in st.pool ==> Strings.HasChar(c.format, '/')
    ensures forall c :: c in Run(cfg, st, types).st.pool ==> Strings.HasChar(c.format, '/')
  {
    if types != [] {
      var init := types[..|types| - 1];
      var t := types[|types| - 1];
      RunKeepsSlashedFormats(cfg, st, init);
      var r := Run(cfg, st, init);
      if r.Completed? && t in cfg.formats {
        StepKeepsSlashedFormats(cfg, r.st, t);
      }
    }
  }

  lemma StepKeepsSlashedFormats(cfg: Config, st: PassState, t: string)
    requires t in cfg.formats
    requires forall c :: c in st.pool ==> Strings.HasChar(c.format, '/')
    ensures forall c :: c in Step(cfg, st, t).pool ==> Strings.HasChar(c.format, '/')
  {
    StepEffect(cfg, st, t);
    var next := Step(cfg, st, t);
    if Decide(cfg, st.pool, t) == Queued {
      assert next.pool[0].format[|t|] == '/';
      assert forall c :: c in next.pool ==> c == next.pool[0] || c in st.pool;
    }
  }

  /** The pool read from the database starts with both invariants. */
  lemma InitialInvariants(cfg: Config, adir: string, rows: seq<FileRow>)
    requires forall i, j :: 0 <= i < j < |rows| ==> rows[i].id != rows[j].id
    ensures DistinctIdentities(Initial(cfg, adir, rows))
    ensures forall c :: c in Initial(cfg, adir, rows).pool ==> Strings.HasChar(c.format, '/')
  {
    ReadRowsDistinct(cfg.ebook, adir, rows, |rows|);
    ReadRowsMembers(cfg.ebook, adir, rows, |rows|);
    var pool := Initial(cfg, adir, rows).pool;
    forall i | 0 <= i < |pool| ensures pool[i].id >= 0 {
      assert pool[i] in pool;
    }
  }

  /** With the shipped tables the epub types are never skipped as already
      posted during a pass that starts from the database rows. */
  lemma ShippedEpubNeverPostedInPass(cfg: Config, adir: string, rows: seq<FileRow>, types: seq<string>, t: string)
    requires Shipped(cfg) && (t == "epub.images" || t == "epub.noimages")
    ensures !AlreadyPosted(cfg, Run(cfg, Initial(cfg, adir, rows), types).st.pool, t)
  {
    ReadRowsMembers(cfg.ebook, adir, rows, |rows|);
    RunKeepsSlashedFormats(cfg, Initial(cfg, adir, rows), types);
    EpubNeverPosted(cfg, Run(cfg, Initial(cfg, adir, rows), types).st.pool, t);
  }

  lemma {:induction false} RunFailureSticks(cfg: Config, st: PassState, types: seq<string>, n: nat)
    requires n <= |types| && Run(cfg, st, types[..n]).UnknownType?
    ensures Run(cfg, st, types) == Run(cfg, st, types[..n])
    decreases |types| - n
  {
    if n < |types| {
      assert types[..n + 1][..n] == types[..n];
      RunFailureSticks(cfg, st, types, n + 1);
    } else {
      assert types[..n] == types;
    }
  }

  /** The pass over one more type. */
  lemma RunExtend(cfg: Config, st: PassState, types: seq<string>, i: nat)
    requires i < |types| && Run(cfg, st, types[..i]).Completed?
    ensures var s, t := Run(cfg, st, types[..i]).st, types[i];
      Run(cfg, st, types[..i + 1]) == if t in cfg.formats then Completed(Step(cfg, s, t)) else UnknownType(t, s)
  {
    assert types[..i + 1][..i] == types[..i];
  }

  /** The body of the loop in `Maker.mk_job_queue()` for one type: the
      `continue`s become early returns. */
  method MakeStep(cfg: Config, allCandidates: seq<Candidate>, jobQueue: seq<Job>, removed: seq<string>, t: string)
    returns (pool: seq<Candidate>, queue: seq<Job>, removals: seq<string>)
    requires t in cfg.formats
    ensures PassState(pool, queue, removals) == Step(cfg, PassState(allCandidates, jobQueue, removed), t)
  {
    pool, queue, removals := allCandidates, jobQueue, removed;
    var st := PassState(allCandidates, jobQueue, removed);
    var candidateTypes := cfg.formats[t];
    var job := BaseJob(cfg, t);
    var candidates := allCandidates;

    if t in cfg.exclusions {
      var posted := FilterSort(cfg.exclusions[t], NonGenerated(candidates));
      if posted != [] {
        assert Decide(cfg, allCandidates, t) == Posted;
        if !cfg.dryRun {
          removals := removals + [t];
        }
        return;
      }
    }
    assert !AlreadyPosted(cfg, allCandidates, t);

    var candidate: Option<Candidate> := None;
    if |candidateTypes| > 0 {
      if cfg.notText {
        assert Decide(cfg, allCandidates, t) == NotText;
        return;
      }
      candidates := FilterSort(candidateTypes, candidates);
      if candidates == [] {
        assert Decide(cfg, allCandidates, t) == NoSource;
        if !cfg.dryRun {
          removals := removals + [t];
        }
        return;
      }
      candidate := Some(candidates[0]);
      if candidates[0].extent > SizeLimit(cfg.maintypeOf(t)) {
        assert Decide(cfg, allCandidates, t) == TooBig;
        return;
      }
      job := PointAtSource(cfg, job, candidates[0]);
    }
    assert job == PreparedJob(cfg, allCandidates, t) && candidate == Chosen(cfg, allCandidates, t);
    pool, queue := QueueIfNeeded(cfg, st, job, candidate);
    StepAfterChecks(cfg, st, t);
  }

  /** The job's input: the chosen file, the files beside it, and where the
      book's page and its catalogue entry are. */
  method PointAtSource(cfg: Config, base: Job, c: Candidate) returns (job: Job)
    requires base == BaseJob(cfg, base.jobType)
    ensures job == SourcedJob(cfg, base.jobType, c)
  {
    job := base;
    job := job.(url := Some(Join(cfg.filesdir, c.archivePath)));
    job := job.(includes := [Join(cfg.filesdir, Dirname(c.archivePath) + "/*")]);
    job := job.(maxDepth := Some(3));
    job := job.(source := Some(UrlJoin(cfg.pgurl, c.archivePath)));
    job := job.(opfIdentifier := Some(UrlJoin(cfg.bibrec + "/", IntToString(cfg.ebook))));
  }

  /** The end of the loop body: `should_do_job` decides whether the job is
      queued and its output joins the candidates. */
  method QueueIfNeeded(cfg: Config, st: PassState, job: Job, candidate: Option<Candidate>)
    returns (pool: seq<Candidate>, queue: seq<Job>)
    requires job.jobType in cfg.formats
    ensures (pool, queue)
      == if ShouldDoJob(cfg, job, candidate) then ([NewCandidate(cfg, st, job)] + st.pool, st.queue + [job])
         else (st.pool, st.queue)
  {
    pool, queue := st.pool, st.queue;
    if ShouldDoJob(cfg, job, candidate) {
      var newCandidate := Candidate(-1 - |queue|, Join(job.outputdir, job.outputfile),
        job.jobType + "/unknown", cfg.now, 0, true);
      queue := queue + [job];
      pool := [newCandidate] + pool;
    }
  }

  /** Past the checks before it, `should_do_job` alone decides the step. */
  lemma StepAfterChecks(cfg: Config, st: PassState, t: string)
    requires t in cfg.formats
    requires Decide(cfg, st.pool, t) == Queued || Decide(cfg, st.pool, t) == UpToDate
    ensures var job := PreparedJob(cfg, st.pool, t);
      Step(cfg, st, t)
      == if ShouldDoJob(cfg, job, Chosen(cfg, st.pool, t))
         then PassState([NewCandidate(cfg, st, job)] + st.pool, st.queue + [job], st.removed)
         else st
  {
  }

  /** `Maker.mk_job_queue()`. */
  method MkJobQueue(cfg: Config, adir: string, rows: seq<FileRow>) returns (res: RunResult)
    ensures res == Run(cfg, Initial(cfg, adir, rows), cfg.make)
  {
    var allCandidates := ReadFromDatabase(cfg.ebook, adir, rows);
    var jobQueue: seq<Job> := [];
    var removed: seq<string> := [];
    ghost var init := PassState(allCandidates, [], []);
    assert cfg.make[..0] == [];
    for i := 0 to |cfg.make|
      invariant Run(cfg, init, cfg.make[..i]) == Completed(PassState(allCandidates, jobQueue, removed))
    {
      var t := cfg.make[i];
      RunExtend(cfg, init, cfg.make, i);
      if t !in cfg.formats {
        res := UnknownType(t, PassState(allCandidates, jobQueue, removed));
        RunFailureSticks(cfg, init, cfg.make, i + 1);
        return;
      }
      allCandidates, jobQueue, removed := MakeStep(cfg, allCandidates, jobQueue, removed, t);
    }
    assert cfg.make[..|cfg.make|] == cfg.make;
    res := Completed(PassState(allCandidates, jobQueue, removed));
  }
}
