# ebookconverter, modelled in Dafny

A model of the core of Project Gutenberg's `ebookconverter`, the backend
that decides which output formats to build for an ebook and from which
source file. The model also covers the catalogue tools around that core.

What is modelled:

- **Job queue** (`EbookConverter.py`): the converter reads a book's candidate
  files from the database, ranks them by the preferred-input globs of each
  output type and skips types already posted. It then queues a job when the
  target is missing or out of date, and feeds each freshly generated output
  to the later types of the same pass.
- **Other parts of `EbookConverter.py`**: `fix_option_range`,
  `pretty_print_list`, `grouper` and the format tables.
- **Candidates** (`Candidates.py`): how candidates are read and how they are
  filtered and sorted.
- **FileInfo** (`FileInfo.py`): the sort key for files scanned for a header,
  the title and rights clean-up before a save, the choice of workflow file,
  and the directory walk.
- **MARC records** (`PGMarc.py`): the MARC record built for a book.
- **RDF** (`writers/RDFWriter.py`): the RDF graph written for a book.
- **HTML zip** (`writers/HTMLWriter.py`): the zip bundle and its credit
  write-back.
- **Workflow metadata**: the merge of workflow metadata into a record
  (`UpdateFromWorkflow.py`), and reloading a record from the newest workflow
  file (`ReloadWorkflow.py`).
- **AutoRebuild** (`AutoRebuild.py`): which changelog statements trigger a
  rebuild.
- **Notifier** (`Notifier.py`): the notification address book.
- **Credit pruning** (`utils/remove_extra_credits.py`).

Modules follow the source files. `JobQueue` and `ConverterTables`
together model `EbookConverter.py`'s maker and tables; `RangeOptions` models
its option helpers. `RDFWriter` holds the writer class and `RDFGraph` the
facts about the graph it builds.

Python built-ins the code relies on get their own small modules:
- `Strings` (`strip`, `replace`, `split`, `lower`);
- `Numerals` (`int()` and `str()` on integers);
- `Paths` (`os.path`);
- `Globs` (`fnmatch`);
- `Optional` (an option type).

Code that updates objects in place is modelled as classes whose methods are
proved against specification functions:
- `Notifier.AddressBook`;
- `FileInfo.BookMetadata`;
- `UpdateFromWorkflow.DublinCore`;
- `RDFWriter.Writer`;
- `RangeOptions.Options`.

Loops become methods with loop invariants. Database rows, the file system,
the clock and the network become parameters.

Where the code and its own docstrings disagree, the model follows the code:
- `should_do_job` remakes a target whose modification time equals the
  candidate's. It skips a newer target only when the type was not requested
  with `--build`.
- `book_record`'s 008 test on attribute 260 looks at the number 260 itself,
  not at the attribute's text (see `PGMarc.PickedDateIs906`).

## Model

| member | source | states |
|---|---|---|
| Numerals.IntToString | ebookconverter/Notifier.py:36 | `str(n)` is never empty and starts with `-` exactly for a negative number |
| Numerals.NatToStringInjective | ebookconverter/Notifier.py:36 | two non-negative numbers with the same text are equal |
| Paths.RFind | ebookconverter/Candidates.py:45 | the last position of a character, as `os.path.basename` looks for the last slash, or -1 when it does not occur |
| Paths.Basename | ebookconverter/Candidates.py:45 | `os.path.basename` is a slash-free suffix of the path |
| Paths.Dirname | ebookconverter/EbookConverter.py:305 | `os.path.dirname` is a prefix of the path |
| Paths.SplitExt | ebookconverter/FileInfo.py:263 | `os.path.splitext`: the two parts rejoin to the path, and the extension is empty or a dot followed by neither slash nor dot |
| Strings.Strip | ebookconverter/FileInfo.py:70 | `strip()` leaves no whitespace at either end |
| FileInfo.LowerAsciiIdempotent | ebookconverter/FileInfo.py:72 | lower-casing twice is lower-casing once |
| FileInfo.BookMetadata.constructor | ebookconverter/FileInfo.py:66-68 | the record holds the given title and rights text and has not been saved |
| UpdateFromWorkflow.DublinCore.constructor | ebookconverter/UpdateFromWorkflow.py:27 | the record holds the given fields and has not been saved |
| RangeOptions.Options.constructor | ebookconverter/EbookConverter.py:481 | the options hold the given range |
| Globs.StarMatchesAll | ebookconverter/Candidates.py:81 | `*` matches every format |
| AutoRebuild.Search | ebookconverter/AutoRebuild.py:53 | a found group is two or more ASCII digits |
| PGMarc.FormatDatesLabel | ebookconverter/PGMarc.py:57-74 | with a known date the text is the label of the known year and its uncertainty |
| PGMarc.RecordTagOnce | ebookconverter/PGMarc.py:338-505 | the assembled fields hold one 008 and one 534 |
| JobQueue.RunQueue | ebookconverter/EbookConverter.py:311-320 | a pass only appends to the queue, and the types of the new jobs form a subsequence of the requested types |
| JobQueue.RunPool | ebookconverter/EbookConverter.py:314-320 | a pass only adds generated candidates in front of the pool |
| JobQueue.DropStripsPrefix | ebookconverter/EbookConverter.py:202 | `[7:]` removes exactly a 7-character prefix: the `file://` in front of a `FILESDIR` path goes and the local path is left, and what is left is always a suffix of the original |
| JobQueue.BaseJobOwnFiles | ebookconverter/EbookConverter.py:266-270 | for every type but `logfile` the output file is named `pg<ebook>…` and is never the job's own log file |
| JobQueue.SourcedJob | ebookconverter/EbookConverter.py:301-309 | a job with a source keeps its type and output file name, fetches the candidate's file under the files directory, and follows links to depth 3 |
| JobQueue.NonGenerated | ebookconverter/EbookConverter.py:275 | holds exactly the candidates of the pool that are not generated |
| JobQueue.ShouldDoJobWithoutInput | ebookconverter/EbookConverter.py:189-195 | a type without preferred inputs, or a job without a candidate, is always done |
| JobQueue.ShouldDoJobMissingSource | ebookconverter/EbookConverter.py:197-204 | a registered candidate whose file (path minus its first 7 characters) is missing skips the job |
| JobQueue.ShouldDoJobTimestamps | ebookconverter/EbookConverter.py:206-226 | a missing target is made; a target newer than the candidate is remade only when the type is in `--build`; an older or equally old target is remade |
| JobQueue.ShouldDoJobGeneratedIgnoresSources | ebookconverter/EbookConverter.py:197-204 | a generated candidate is never looked up on disk |
| JobQueue.PostedIff | ebookconverter/EbookConverter.py:274-279 | a type counts as already posted exactly when a non-generated candidate's format matches one of its exclusion globs |
| JobQueue.EpubNeverPosted | ebookconverter/EbookConverter.py:95-97 | the `epub.dp` exclusion never fires, since every candidate format holds a slash |
| JobQueue.NotTextSkips | ebookconverter/EbookConverter.py:282-285 | a source-needing type of a non-text book is skipped and nothing is removed |
| JobQueue.NoSourceRemoves | ebookconverter/EbookConverter.py:287-293 | with no matching candidate nothing is queued and leftovers are removed unless this is a dry run |
| JobQueue.OversizeSkips | ebookconverter/EbookConverter.py:295-299 | a best candidate above `MAX_CANDIDATE_SIZE` MiB (default 32) skips the type |
| JobQueue.StepEffect | ebookconverter/EbookConverter.py:262-320 | a queued type appends its job and puts one generated candidate at the front of the pool; other outcomes leave both alone; only posted or sourceless types record a removal |
| JobQueue.QueuedFromBest | ebookconverter/EbookConverter.py:295-312 | a queued source-needing job is built from the best-ranked candidate, which is within the size cap |
| JobQueue.FrontExtendsPrefix | ebookconverter/EbookConverter.py:320 | a candidate at the front of the pool whose format extends the first glob's prefix heads the ranking |
| JobQueue.ChainsOffGenerated | ebookconverter/EbookConverter.py:314-320 | after type `t` is queued, a later type whose first glob is `t/*` is made from the candidate `t` generated |
| JobQueue.ShippedChainEntries | ebookconverter/EbookConverter.py:59-61 | the shipped tables chain kindle.images off epub.images and kf8.images off epub3.images |
| JobQueue.RunCompletesIff | ebookconverter/EbookConverter.py:262-265 | a pass fails exactly when a requested type has no `PREFERRED_INPUT_FORMATS` entry |
| JobQueue.ShippedBuildOrderCompletes | ebookconverter/EbookConverter.py:146-159 | a pass over build-order types never fails |
| JobQueue.StepGrowth | ebookconverter/EbookConverter.py:311-320 | one step grows the queue by at most its own job and the pool by at most one generated candidate |
| JobQueue.RunShape | ebookconverter/EbookConverter.py:253-322 | over a pass the queue only grows, in the order of the requested types, and each queued job puts one generated candidate in front of the initial pool |
| JobQueue.QueueExtended | ebookconverter/EbookConverter.py:311-312 | after one more type the queue is unchanged or one job of that type longer |
| JobQueue.StepPoolGrowth | ebookconverter/EbookConverter.py:311-320 | a step adds one generated candidate and one job, or neither |
| JobQueue.RunRemovals | ebookconverter/EbookConverter.py:274-293 | `remove_type` is called for requested types in request order, at most once per request |
| JobQueue.RunKeepsIdentitiesDistinct | ebookconverter/EbookConverter.py:314-320 | every candidate in the pool stays a distinct object through the pass |
| JobQueue.RunKeepsSlashedFormats | ebookconverter/EbookConverter.py:316 | every candidate of a pass has a slash in its format |
| JobQueue.InitialInvariants | ebookconverter/EbookConverter.py:256-257 | the pool read from the database starts with both invariants |
| JobQueue.ShippedEpubNeverPostedInPass | ebookconverter/EbookConverter.py:95-101 | with the shipped tables the epub types are never skipped as posted during a pass |
| JobQueue.RunFailureSticks | ebookconverter/EbookConverter.py:265 | once a pass has failed it stays failed |
| JobQueue.MakeStep | ebookconverter/EbookConverter.py:262-320 | the loop body for one type leaves exactly the state `Step` specifies |
| JobQueue.PointAtSource | ebookconverter/EbookConverter.py:301-309 | the job after the assignments is the sourced job for the chosen candidate |
| JobQueue.QueueIfNeeded | ebookconverter/EbookConverter.py:311-320 | the job is queued and its output put at the front of the pool exactly when `should_do_job` holds |
| JobQueue.StepAfterChecks | ebookconverter/EbookConverter.py:311-320 | past the earlier checks, `should_do_job` alone decides the step |
| JobQueue.MkJobQueue | ebookconverter/EbookConverter.py:253-322 | the loop over `options.make` computes `Run` from the candidates read from the database |
| ConverterTables.SizeLimitValues | ebookconverter/EbookConverter.py:161 | the size cap is 8 MiB for txt, 16 MiB for epub and epub3, and 32 MiB for any other main type |
| ConverterTables.SuffixesHaveNoBrace | ebookconverter/EbookConverter.py:103-122 | what follows `pg{id}` in each file-name template holds no brace, so `{id}` is the one field |
| ConverterTables.FormatTemplate | ebookconverter/EbookConverter.py:166 | formatting `pg{id}<rest>` gives `pg<id><rest>` |
| ConverterTables.OutputFilenameShape | ebookconverter/EbookConverter.py:163-166 | `make_output_filename` gives `pg<id>` followed by the type's suffix, or `.generic` |
| ConverterTables.BuildOrderHasFormats | ebookconverter/EbookConverter.py:49-92 | every build-order type has a preferred-input entry |
| ConverterTables.KindleFormatsFromEpub | ebookconverter/EbookConverter.py:59-61 | the kindle types are made from the epub output of the same pass |
| ConverterTables.DependenciesBuiltFirst | ebookconverter/EbookConverter.py:124-159 | whenever a concrete type depends on another, the dependency comes first in `BUILD_ORDER` |
| RangeOptions.IntervalMembers | ebookconverter/EbookConverter.py:503 | `range(a, b + 1)` holds x exactly when a <= x <= b, is strictly increasing, and starts at a and ends at b |
| RangeOptions.ParseItem | ebookconverter/EbookConverter.py:490-510 | one comma item gives ebooks only when it has at most one dash; otherwise it is the logged error |
| RangeOptions.Options.FixOptionRange | ebookconverter/EbookConverter.py:481-515 | an empty range stays as it is; otherwise it becomes the concatenated expansion of its items |
| RangeOptions.ClosedItem | ebookconverter/EbookConverter.py:493-503 | `a-b` expands to a..b, and gives no ebooks when a > b |
| RangeOptions.OpenStartItem | ebookconverter/EbookConverter.py:494 | `-b` starts at ebook 1 |
| RangeOptions.OpenEndItem | ebookconverter/EbookConverter.py:495-496 | `a-` ends at the last ebook |
| RangeOptions.SingleItem | ebookconverter/EbookConverter.py:504-505 | a plain number is that ebook; a negative one reads as 1 up to its magnitude |
| RangeOptions.TwoDashesDropped | ebookconverter/EbookConverter.py:506-510 | an item with two or more dashes is dropped |
| RangeOptions.RangeSpecInOrder | ebookconverter/EbookConverter.py:490-503 | items expand independently and their numbers keep item order |
| RangeOptions.Runs | ebookconverter/EbookConverter.py:522-523 | `groupby` on index minus value cuts the list into runs counting up by one |
| RangeOptions.RunsAreMaximalRuns | ebookconverter/EbookConverter.py:522-523 | the groups flatten back to the list, each is consecutive, and adjacent groups do not continue each other |
| RangeOptions.DecimalsReadBack | ebookconverter/EbookConverter.py:524 | each printed number `str(g[1])` parses back as the number it came from |
| RangeOptions.PrettyPrintList | ebookconverter/EbookConverter.py:518-529 | the loop builds the pieces joined by spaces |
| RangeOptions.RunsPieces | ebookconverter/EbookConverter.py:522-528 | the loop over the runs gives each run's pieces in order |
| RangeOptions.RunItems | ebookconverter/EbookConverter.py:525-528 | a run of at most two gives its numbers, a longer run `first-last` |
| RangeOptions.RunPiecesExpand | ebookconverter/EbookConverter.py:524-528 | reading a run's printed pieces back as range items gives the run |
| RangeOptions.RunPiecesPlain | ebookconverter/EbookConverter.py:524-528 | printed pieces hold only digits and one dash at most |
| RangeOptions.PrettyPrintRoundTrip | ebookconverter/EbookConverter.py:518-529 | for any non-empty list of non-negative numbers, the printed text splits back at spaces into its pieces, and reading those pieces as a `fix_option_range` comma list gives the list back |
| RangeOptions.FillOnly | ebookconverter/EbookConverter.py:557 | the padding holds the fill value and nothing else, and padding by k then m is padding by k + m |
| RangeOptions.GrouperChunks | ebookconverter/EbookConverter.py:553-557 | each chunk has n items; together they are the input followed by fewer than n fill values |
| RangeOptions.GrouperCount | ebookconverter/EbookConverter.py:553-557 | there are ceil(\|s\| / n) chunks |
| RangeOptions.GrouperZero | ebookconverter/EbookConverter.py:556-557 | with n = 0 there are no chunks |
| Candidates.FirstMatch | ebookconverter/Candidates.py:79-81 | the index of the first glob a format matches, or the number of globs |
| Candidates.FilterSort | ebookconverter/Candidates.py:63-86 | the nested loop computes the specified ranking |
| Candidates.FilterSortMembers | ebookconverter/Candidates.py:77-86 | the result holds exactly the candidates matching some glob, none twice |
| Candidates.FilterSortOrdered | ebookconverter/Candidates.py:79-83 | results are ordered by first matching glob, then by input position |
| Candidates.FilterSortHead | ebookconverter/Candidates.py:79-86 | the first result is the best-ranked matching candidate |
| Candidates.FilterSortPicksFront | ebookconverter/Candidates.py:79-86 | a front candidate matching the first glob is chosen |
| Candidates.FilterSortNoGlobs | ebookconverter/Candidates.py:79 | no globs select nothing |
| Candidates.FilterSortIdempotent | ebookconverter/Candidates.py:64-86 | filtering a ranked list again with the same globs changes nothing |
| Candidates.StrictlySortedUnique | ebookconverter/Candidates.py:79-83 | two duplicate-free lists with the same elements, both sorted by the ranking, are equal |
| Candidates.ReadFromDatabase | ebookconverter/Candidates.py:31-60 | the loop over the query rows computes the specified candidates |
| Candidates.KeptIndices | ebookconverter/Candidates.py:43-49 | the positions of the rows the filters keep, all below the rows read so far |
| Candidates.KeptIndicesExact | ebookconverter/Candidates.py:43-49 | the kept positions are exactly the kept rows, strictly increasing |
| Candidates.ReadRowsOrder | ebookconverter/Candidates.py:43-58 | the candidates are the conversions of the kept rows, one for one and in query order |
| Candidates.ReadRowsMembers | ebookconverter/Candidates.py:43-58 | each kept row is converted, each candidate comes from a kept row, and every candidate is an ungenerated file with a slashed format |
| Candidates.ReadRowsDistinct | ebookconverter/Candidates.py:43-58 | rows with distinct keys give distinct candidates |
| Candidates.KeepRowRules | ebookconverter/Candidates.py:44-49 | above ebook 10000 an html row is kept iff its basename starts with the number; a row without file type is dropped |
| Candidates.RewritePathRules | ebookconverter/Candidates.py:51-55 | a path under the archive dir becomes `files/<ebook>` plus the rest with every later occurrence replaced too; `etext` paths move under `dirs/`; other paths are kept |
| Candidates.FormatTagRules | ebookconverter/Candidates.py:57 | the format is file type `/` encoding, the encoding defaulting to `unknown` |
| FileInfo.ExtRank | ebookconverter/FileInfo.py:268 | `PARSEABLE_FILES.index(ext)`: the rank of a parseable extension |
| FileInfo.ParseableStem | ebookconverter/FileInfo.py:258-268 | `stem.ext` with a parseable extension is parseable and keyed by its two-digit rank, a space, the stem and `-z` |
| FileInfo.DotFileNotParseable | ebookconverter/FileInfo.py:60-63 | a dot file like `.txt` has no extension and is not parseable |
| FileInfo.KeyHead | ebookconverter/FileInfo.py:263-269 | a parseable file's key starts with `0` and its rank digit, any other with `9` |
| FileInfo.ParseableSortsFirst | ebookconverter/FileInfo.py:265-269 | every parseable file sorts before every other file |
| FileInfo.ExtensionsSortInListOrder | ebookconverter/FileInfo.py:266-268 | parseable files sort by extension rank: .rst, .html, .htm, .tex, .txt |
| FileInfo.SameExtensionSortsByStem | ebookconverter/FileInfo.py:268 | with the same extension, files sort by stem followed by `-z` |
| FileInfo.SortedParseableFirst | ebookconverter/FileInfo.py:299 | in the sorted list no other file precedes a parseable one |
| FileInfo.SubNewlineRuns | ebookconverter/FileInfo.py:70 | the `re.sub` keeps non-empty text non-empty |
| FileInfo.NewlineFreeUnchanged | ebookconverter/FileInfo.py:70 | text without a newline comes back unchanged |
| FileInfo.RunReplaced | ebookconverter/FileInfo.py:70 | a maximal whitespace run becomes ` _ ` when it holds a newline and stays otherwise, the rest handled after it |
| FileInfo.NewlineFreePrefix | ebookconverter/FileInfo.py:70 | newline-free text ending in a non-space passes through unchanged, whatever follows |
| FileInfo.NormaliseTitleShape | ebookconverter/FileInfo.py:69-70 | the title is one line without surrounding whitespace, and a one-line title is only stripped |
| FileInfo.WhitespaceRunReplaced | ebookconverter/FileInfo.py:69-70 | for stripped title `a + w + b` with `w` the first maximal whitespace run after newline-free `a`, the result is `a`, then ` _ ` or `w`, then the rest normalised |
| FileInfo.SubKeepsEnds | ebookconverter/FileInfo.py:70 | text that starts and ends with non-whitespace keeps both ends |
| FileInfo.AnyCaseCopyright | ebookconverter/FileInfo.py:72-73 | the rights become 1 exactly when some nine characters of the text spell `copyright` in any casing (`Copyright`, `COPYRIGHTED`); otherwise the text is kept as it is |
| FileInfo.RightsIgnoreCase | ebookconverter/FileInfo.py:72 | text and its lower-cased form get the same answer |
| FileInfo.BookMetadata.SaveMetadata | ebookconverter/FileInfo.py:66-75 | the title is normalised; rights already 1 raise the AttributeError and nothing is saved; otherwise rights are normalised and the record saved once |
| FileInfo.WorkflowFileChoice | ebookconverter/FileInfo.py:77-88 | ebook 0 has no workflow file; else `<n>.json` if it exists, then `<n>.txt`, else none |
| FileInfo.WorkflowFileNames | ebookconverter/FileInfo.py:81-82 | the two candidates are `<n>.json` and `<n>.txt` in the log directory, and they differ |
| FileInfo.JoinedBasename | ebookconverter/FileInfo.py:81-82 | joining a slash-free name to a directory keeps it as the basename |
| FileInfo.CollectFiles | ebookconverter/FileInfo.py:288-296 | the walk loop collects `FoundFiles`, skipping dot roots and dot files |
| FileInfo.CollectKept | ebookconverter/FileInfo.py:293-296 | one directory's files, dot files skipped, joined to the root |
| FileInfo.FoundFilesMembers | ebookconverter/FileInfo.py:288-296 | exactly the non-dot files under roots that are catalogued are found |
| Notifier.BookKey | ebookconverter/Notifier.py:36-38 | a number is keyed by its decimal text; a string is keyed only when `int()` accepts it |
| Notifier.AddressBook.constructor | ebookconverter/Notifier.py:26-32 | the book read from the notify file, or empty when it is missing |
| Notifier.AddressBook.AddEmail | ebookconverter/Notifier.py:34-46 | succeeds exactly when the ebook parses; the new book adds the address under the key unless it is already there |
| Notifier.AddressBook.AddUnderKey | ebookconverter/Notifier.py:39-46 | the list under the key is created when missing and the address appended once |
| Notifier.AddressBook.Get | ebookconverter/Notifier.py:48-53 | the addresses under the ebook's key; none for an unparsable ebook |
| Notifier.RejectedEbookUnchanged | ebookconverter/Notifier.py:35-38 | a rejected ebook leaves the book as it was |
| Notifier.AddThenGet | ebookconverter/Notifier.py:34-53 | after `add_email`, `get` lists the address after the old ones, once |
| Notifier.AddListedIsNoop | ebookconverter/Notifier.py:44-45 | adding an address already listed changes nothing `get` sees |
| Notifier.AddLeavesOthers | ebookconverter/Notifier.py:39-46 | other ebooks keep their entries |
| Notifier.AddKeepsNoRepeats | ebookconverter/Notifier.py:44-45 | a book without repeated addresses keeps that property |
| Notifier.KeysNormalised | ebookconverter/Notifier.py:36 | `42`, `"42"` and `"0042"` address the same entry |
| Notifier.UnknownEbookEmpty | ebookconverter/Notifier.py:53 | an unknown ebook gets no addresses |
| Numerals.NatToString | ebookconverter/Notifier.py:36 | `str(n)`: digits, no leading zero |
| Numerals.IntToStringInjective | ebookconverter/Notifier.py:36 | distinct numbers print differently |
| Numerals.ParseInt | ebookconverter/Notifier.py:36 | `int(s)` succeeds only on text that is not blank |
| Numerals.ParseIntOfString | ebookconverter/Notifier.py:36 | `int(str(n)) == n` |
| Numerals.LeadingZerosParse | ebookconverter/Notifier.py:36 | `int()` ignores leading zeros |
| Numerals.ParseMinusDigits | ebookconverter/EbookConverter.py:505 | a minus sign and digits read as the negated digits |
| Strings.LStrip | ebookconverter/FileInfo.py:70 | `lstrip` removes exactly the leading whitespace |
| Strings.RStrip | ebookconverter/FileInfo.py:70 | `rstrip` removes exactly the trailing whitespace |
| Strings.StripChar | ebookconverter/AutoRebuild.py:100 | `strip(',')` leaves no comma at either end |
| Strings.ReplaceAbsent | ebookconverter/Candidates.py:53 | `replace` leaves text without the pattern unchanged |
| Strings.ReplaceSingleChar | ebookconverter/PGMarc.py:227 | one-character `replace` is the character map |
| Strings.ReplaceChar | ebookconverter/PGMarc.py:305 | each occurrence of one character becomes the other, the length kept |
| Strings.Split | ebookconverter/UpdateFromWorkflow.py:48 | `split` gives at least one piece, none holding the separator |
| Strings.SplitJoin | ebookconverter/UpdateFromWorkflow.py:48 | splitting a joined list of separator-free parts gives the parts |
| Strings.LowerAscii | ebookconverter/FileInfo.py:72 | `lower()` on A-Z, other characters kept |
| Paths.JoinShape | ebookconverter/EbookConverter.py:206 | `os.path.join` ends with the second part and starts with the first unless the second is absolute |
| Paths.SplitExtOfStem | ebookconverter/FileInfo.py:263 | `splitext` splits `stem.ext` at its dot |
| Paths.SplitExtOfDotFile | ebookconverter/FileInfo.py:63 | a dot file has no extension |
| Globs.LiteralMatch | ebookconverter/Candidates.py:81 | a pattern without `*` matches only itself |
| Globs.PrefixStarMatch | ebookconverter/Candidates.py:81 | `prefix*` matches exactly the strings starting with the prefix |
| PGMarc.FormatDatesReadsBack | ebookconverter/PGMarc.py:57-74 | a date pair prints empty exactly when neither date is known, else as a label reading back as the year and its uncertainty, BCE years shifted by one |
| PGMarc.YearLabelNoDash | ebookconverter/PGMarc.py:59-74 | a year label holds no dash |
| PGMarc.AuthDatesParts | ebookconverter/PGMarc.py:76-78 | the dates field splits at its one dash into born and died |
| PGMarc.FindParenIsLeftmost | ebookconverter/PGMarc.py:41-48 | the search finds a match exactly when there is one, and the leftmost |
| PGMarc.ParenSpanSome | ebookconverter/PGMarc.py:41 | a match is spaces, the first `(`, no `)`, then `)` |
| PGMarc.AuthParenComma | ebookconverter/PGMarc.py:43-52 | without a parenthetical the name carries the comma; with one, the stripped parenthetical carries it exactly when a date is known |
| PGMarc.StrippedParen | ebookconverter/PGMarc.py:51 | the stripped match runs from `(` to `)` |
| PGMarc.YearWordFromIff | ebookconverter/PGMarc.py:330 | `\b\d{4}\b` is found exactly when a four-digit word occurs |
| PGMarc.AuthorFields | ebookconverter/PGMarc.py:465-479 | one field per author |
| PGMarc.DateValueStep | ebookconverter/PGMarc.py:328-333 | the 008 value keeps the first choice, else takes this attribute's |
| PGMarc.AttributePass | ebookconverter/PGMarc.py:126-333 | the attribute loop gives the fields and 008 value of `PassResult`, or stops at an attribute 521 |
| PGMarc.AuthorEntry | ebookconverter/PGMarc.py:467-479 | one author's field, tag 100 or 700, with its subfields |
| PGMarc.AuthorPass | ebookconverter/PGMarc.py:465-479 | the author loop gives `AuthorFields`, 100 first |
| PGMarc.PublicationPass | ebookconverter/PGMarc.py:483-505 | the publisher loop gives the 534 of the first attribute 260, or the loop's `else` note |
| PGMarc.BookRecord | ebookconverter/PGMarc.py:82-507 | the built record is `BookRecordSpec` |
| PGMarc.AttributeTagged | ebookconverter/PGMarc.py:126-317 | no attribute adds an 008 or 534 |
| PGMarc.AuthorSubfieldsFacts | ebookconverter/PGMarc.py:468-472 | an entry starts with the name and holds a dates subfield exactly when dates exist |
| PGMarc.AuthorEntries | ebookconverter/PGMarc.py:465-479 | the author fields are one entry per author in order, tag 100 for the first |
| PGMarc.Series440 | ebookconverter/PGMarc.py:197-217 | attribute 440 becomes a 490 and an 830 |
| PGMarc.Note500 | ebookconverter/PGMarc.py:221-230 | attribute 500 becomes one 500 note as long as the text, with no newline left |
| PGMarc.PickedDateIs906 | ebookconverter/PGMarc.py:328-333 | only attribute 906 ever dates the 008 |
| PGMarc.OtherPartsLack | ebookconverter/PGMarc.py:101-479 | no part outside the 008 and the 534 carries either tag |
| PGMarc.BuiltRecordCounts | ebookconverter/PGMarc.py:338-505 | a built record has exactly one 008 and one 534 |
| PGMarc.Field534Facts | ebookconverter/PGMarc.py:483-505 | the 534 is the originally-published note exactly when some attribute is 260 |
| PGMarc.BuiltRecordFixedFields | ebookconverter/PGMarc.py:328-505 | the 008 uses the first 906 or `\|\|\|\|`; the last field added is the 534, an "originally published" note exactly when some attribute is 260 |
| PGMarc.BookRecordOutcomes | ebookconverter/PGMarc.py:82-275 | no book gives None; an attribute 521 always raises the NameError |
| PGMarc.Audience521Raises | ebookconverter/PGMarc.py:266-275 | any book with an attribute 521 gets no record |
| PGMarc.IntendedAttributeFields | ebookconverter/PGMarc.py:266-275 | an attribute 521 adds the 521 note it builds; any other adds what it adds as written |
| PGMarc.IntendedBookRecord | ebookconverter/PGMarc.py:82-507 | the corrected record: built exactly when there is a book, never a NameError |
| PGMarc.IntendedAttributeNotes | ebookconverter/PGMarc.py:266-275 | the attributes add one 521 field per attribute 521 |
| PGMarc.IntendedAgreesWithout521 | ebookconverter/PGMarc.py:126-317 | without an attribute 521 the corrected record equals the record as written |
| PGMarc.IntendedNoteCount | ebookconverter/PGMarc.py:266-275 | the corrected record holds exactly one 521 field per attribute 521 |
| AutoRebuild.DigitRun | ebookconverter/AutoRebuild.py:34-36 | the length of the leading ASCII digit run |
| AutoRebuild.SearchLeftmost | ebookconverter/AutoRebuild.py:53 | `re.search` finds the leftmost match, and nothing only when there is none |
| AutoRebuild.CommaGroupUnique | ebookconverter/AutoRebuild.py:35 | with a trailing `,` the whole digit run is the group |
| AutoRebuild.CheckSql | ebookconverter/AutoRebuild.py:48-68 | a named ebook is always two or more digits |
| AutoRebuild.OtherStatementsIgnored | ebookconverter/AutoRebuild.py:68 | other statements name nothing |
| AutoRebuild.AuthorChangeFindsBook | ebookconverter/AutoRebuild.py:50-55 | an author update or delete names the leftmost `fk_books = NN` book |
| AutoRebuild.AuthorInsertFindsBook | ebookconverter/AutoRebuild.py:57-61 | an author insert names the leftmost `values (NN,` book |
| AutoRebuild.TitleUpdateLooksUp | ebookconverter/AutoRebuild.py:63-67 | a title update raises exactly when no `where pk = NN` matches; else it names that attribute's book |
| AutoRebuild.OnlyTitleUpdatesFail | ebookconverter/AutoRebuild.py:63-67 | only a title update can raise |
| AutoRebuild.CollectRebuilds | ebookconverter/AutoRebuild.py:93-96 | the run aborts exactly when some statement raises, else collects the set of named ebooks |
| AutoRebuild.Texts | ebookconverter/AutoRebuild.py:98-99 | the texts of the truthy ebooks; empty exactly when none is truthy |
| AutoRebuild.BuildList | ebookconverter/AutoRebuild.py:97-100 | the loop and `strip(',')` give the stripped comma list |
| AutoRebuild.BuildListJoins | ebookconverter/AutoRebuild.py:97-100 | comma-free texts come out joined by single commas |
| AutoRebuild.CheckedTextCommaFree | ebookconverter/AutoRebuild.py:48-68 | every named ebook's text is comma-free |
| AutoRebuild.RebuildStartedIffSomeBook | ebookconverter/AutoRebuild.py:97-103 | in any set order, a rebuild starts exactly when a truthy ebook was named, and its range joins them with commas |
| AutoRebuild.CheckSqlGuarded | ebookconverter/AutoRebuild.py:48-68 | the corrected check agrees with `check_sql` wherever that does not raise |
| AutoRebuild.GuardedMatchesCheckSql | ebookconverter/AutoRebuild.py:63-67 | where `check_sql` raises, the corrected check names nothing |
| AutoRebuild.CollectRebuildsGuarded | ebookconverter/AutoRebuild.py:93-96 | the corrected changelog loop never aborts and collects the corrected checks |
| AutoRebuild.GuardedCollectsNamed | ebookconverter/AutoRebuild.py:93-96 | the corrected pass collects what `main` collects when nothing raises, and every ebook a non-raising statement names |
| UpdateFromWorkflow.AsList | ebookconverter/UpdateFromWorkflow.py:43-45 | a value taken is a non-empty list |
| UpdateFromWorkflow.DublinCore.AppendYears | ebookconverter/UpdateFromWorkflow.py:46-51 | the years loop appends `YearsFrom`'s pairs or stops at its exception |
| UpdateFromWorkflow.DublinCore.AddScanUrls | ebookconverter/UpdateFromWorkflow.py:59-60 | each URL is added to the set |
| UpdateFromWorkflow.DublinCore.TakePubinfo | ebookconverter/UpdateFromWorkflow.py:28-52 | the language and publication part of the merge |
| UpdateFromWorkflow.DublinCore.TakeRest | ebookconverter/UpdateFromWorkflow.py:53-67 | the scan URL, request key and credit part |
| UpdateFromWorkflow.DublinCore.Update | ebookconverter/UpdateFromWorkflow.py:27-70 | the fields become `MergeRecord`'s; saved once exactly when changed; an exception saves nothing |
| UpdateFromWorkflow.PubinfoKept | ebookconverter/UpdateFromWorkflow.py:28-52 | existing publication info keeps publisher, country, years and languages, and the merge cannot fail |
| UpdateFromWorkflow.RequestKeyFilledOnlyWhenEmpty | ebookconverter/UpdateFromWorkflow.py:62-64 | a request key present is kept; an empty one takes the record's |
| UpdateFromWorkflow.CreditFilledOnlyWhenEmpty | ebookconverter/UpdateFromWorkflow.py:65-67 | a credit present is kept; an empty one takes the record's |
| UpdateFromWorkflow.ScanUrlsFilledOnlyWhenEmpty | ebookconverter/UpdateFromWorkflow.py:53-61 | present scan URLs are kept; an empty set takes the record's |
| UpdateFromWorkflow.PubinfoTaken | ebookconverter/UpdateFromWorkflow.py:37-52 | without publication info, publisher and country are replaced and years appended |
| UpdateFromWorkflow.OnlyYearsFail | ebookconverter/UpdateFromWorkflow.py:46-51 | only the years loop raises |
| UpdateFromWorkflow.ChangedIff | ebookconverter/UpdateFromWorkflow.py:31-69 | the book is saved exactly when one of the listed fields was set |
| UpdateFromWorkflow.EventYearsInOrder | ebookconverter/UpdateFromWorkflow.py:46-49 | `event:year` entries append their pairs in input order |
| UpdateFromWorkflow.YearsFailIff | ebookconverter/UpdateFromWorkflow.py:46-51 | the loop raises exactly when some entry has two or more colons, or is bare before any colon entry |
| UpdateFromWorkflow.BareEntryReusesYear | ebookconverter/UpdateFromWorkflow.py:50-51 | a bare entry after `event:year` is recorded with that earlier year |
| UpdateFromWorkflow.BareFirstEntryRaises | ebookconverter/UpdateFromWorkflow.py:50-51 | a bare first entry raises the unbound `year` |
| UpdateFromWorkflow.YearsFromIntended | ebookconverter/UpdateFromWorkflow.py:46-51 | the corrected loop raises only on too many colons |
| UpdateFromWorkflow.BareEntriesKeepOwnYear | ebookconverter/UpdateFromWorkflow.py:50-51 | in the corrected loop each bare entry is a copyright in its own year, in order |
| UpdateFromWorkflow.IntendedFailsIff | ebookconverter/UpdateFromWorkflow.py:47-48 | the corrected loop fails exactly on an entry with two or more colons |
| UpdateFromWorkflow.IntendedAgreesOnEvents | ebookconverter/UpdateFromWorkflow.py:46-49 | on `event:year` entries the corrected loop appends what the loop as written appends |
| RDFWriter.LinkPredicate | ebookconverter/writers/RDFWriter.py:152-155 | `dcterms:creator` for `aut` and `cre`, else `marcrel:<role>` |
| RDFWriter.MarcPredicate | ebookconverter/writers/RDFWriter.py:160-178 | `marc2dc[code]`, or `pgterms:marc<code>` for other codes |
| RDFWriter.Writer.constructor | ebookconverter/writers/RDFWriter.py:39-41 | an empty graph, and no blank node made yet |
| RDFWriter.Writer.Append | ebookconverter/writers/RDFWriter.py:71-74 | the triple is added to the graph |
| RDFWriter.Writer.NewBlank | ebookconverter/writers/RDFWriter.py:81 | a fresh blank node, the next number |
| RDFWriter.Writer.Vocabulary | ebookconverter/writers/RDFWriter.py:77-84 | adds `VocabPart`: per row a fresh node with scheme, value and the parent's link |
| RDFWriter.Writer.Datatype | ebookconverter/writers/RDFWriter.py:87-93 | adds `DatatypePart`: per row a fresh node with the typed value and the link |
| RDFWriter.Writer.AddAuthor | ebookconverter/writers/RDFWriter.py:131-155 | adds one author's triples and its link from the book |
| RDFWriter.Writer.AddDates | ebookconverter/writers/RDFWriter.py:136-139 | adds the birth and death dates that are truthy |
| RDFWriter.Writer.AddAliases | ebookconverter/writers/RDFWriter.py:142-143 | adds one alias triple per alias |
| RDFWriter.Writer.AddWebpages | ebookconverter/writers/RDFWriter.py:146-149 | adds each webpage's description and link |
| RDFWriter.Writer.AddMarcs | ebookconverter/writers/RDFWriter.py:168-178 | adds the MARC triples and returns the title left in `dc` |
| RDFWriter.Writer.AddFile | ebookconverter/writers/RDFWriter.py:208-224 | adds one file's triples and media types |
| RDFWriter.Writer.AddFiles | ebookconverter/writers/RDFWriter.py:208-224 | the loop over `files + generated_files` |
| RDFWriter.Writer.AddHeader | ebookconverter/writers/RDFWriter.py:101-124 | adds the document and book triples |
| RDFWriter.Writer.AddAuthors | ebookconverter/writers/RDFWriter.py:131-155 | the loop over the authors |
| RDFWriter.Writer.AddTerms | ebookconverter/writers/RDFWriter.py:181-204 | the languages, subjects, classes, categories and bookshelves |
| RDFWriter.Writer.FromDc | ebookconverter/writers/RDFWriter.py:96-224 | the graph grows by `Graph(dc)`, blank nodes numbered after those made before, and the title left is the last 245's |
| RDFWriter.GraphSections | ebookconverter/writers/RDFWriter.py:96-224 | the graph is the union of its five sections |
| RDFWriter.GraphBlanksFresh | ebookconverter/writers/RDFWriter.py:77-93 | every blank node in the graph is one `from_dc` made |
| RDFWriter.VocabBlanks | ebookconverter/writers/RDFWriter.py:80-84 | `vocabulary` numbers its blank nodes from `first`, one per row |
| RDFWriter.DatatypeBlanks | ebookconverter/writers/RDFWriter.py:90-93 | `datatype` numbers its blank nodes from `first`, one per row |
| RDFWriter.AuthorsNoBlank | ebookconverter/writers/RDFWriter.py:131-155 | author triples hold no blank node |
| RDFWriter.MarcsNoBlank | ebookconverter/writers/RDFWriter.py:168-178 | MARC triples hold no blank node |
| RDFGraph.AgentShape | ebookconverter/writers/RDFWriter.py:131-149 | an author's triples are about the author node or its webpages |
| RDFGraph.FilesShape | ebookconverter/writers/RDFWriter.py:208-224 | the shape of the files' triples |
| RDFGraph.TermsShape | ebookconverter/writers/RDFWriter.py:181-204 | the shape of the vocabulary sections |
| RDFGraph.BookSubject | ebookconverter/writers/RDFWriter.py:112-224 | a triple about the book node comes from the listed places |
| RDFGraph.AgentSubject | ebookconverter/writers/RDFWriter.py:131-149 | a triple about an author node is one of that author's own |
| RDFGraph.HeadShape | ebookconverter/writers/RDFWriter.py:101-124 | the head is about the document and book nodes |
| RDFGraph.CreatorIff | ebookconverter/writers/RDFWriter.py:152-153 | the book links to an author by `dcterms:creator` exactly when the role is `aut` or `cre` |
| RDFGraph.RelatorIff | ebookconverter/writers/RDFWriter.py:154-155 | any other role links by `marcrel:<role>` |
| RDFGraph.AuthorsHas | ebookconverter/writers/RDFWriter.py:131-155 | each author's triples are in the graph |
| RDFGraph.TitleIff | ebookconverter/writers/RDFWriter.py:160-174 | the graph holds a `dcterms:title` for exactly the 245 texts |
| RDFGraph.DatesIff | ebookconverter/writers/RDFWriter.py:136-139 | a date is in the graph exactly when an author has it and it is truthy |
| RDFGraph.HasFormatIff | ebookconverter/writers/RDFWriter.py:208-214 | the book has a format exactly for each file |
| RDFGraph.FileInGraph | ebookconverter/writers/RDFWriter.py:208-216 | every file's type and both links are in the graph |
| RDFGraph.NoEbookRefSubject | ebookconverter/writers/RDFWriter.py:114-216 | no triple is about the URIRef `ebook:<id>` |
| RDFGraph.BookNodeIsLiteral | ebookconverter/writers/RDFWriter.py:114-216 | the book node is a Literal, while `isFormatOf` points at the URIRef |
| RDFGraph.RowExact | ebookconverter/writers/RDFWriter.py:77-84 | the triples about a row's blank node are exactly that row's |
| RDFGraph.RowPresent | ebookconverter/writers/RDFWriter.py:77-84 | every vocabulary row is in the graph |
| RDFGraph.TitleKeptWithout245 | ebookconverter/writers/RDFWriter.py:168-174 | without a 245 the title is unchanged |
| RDFGraph.TitleIsLast245 | ebookconverter/writers/RDFWriter.py:168-174 | with 245 fields the title is the last one's text |
| RDFGraph.TitleIn245 | ebookconverter/writers/RDFWriter.py:168-174 | whenever there is a 245, the title left is the text of one of them |
| HTMLWriter.ArcUrl | ebookconverter/writers/HTMLWriter.py:24-29 | a file under the output dir is stored without the dir and one more character; any other keeps its path |
| HTMLWriter.ArcUrlUnderDir | ebookconverter/writers/HTMLWriter.py:25-26 | `outputdir/rest` is stored as `rest` |
| HTMLWriter.ArcUrlRoundTrip | ebookconverter/writers/HTMLWriter.py:24-29 | putting the dir and separator back gives the file |
| HTMLWriter.ArcUrlDropsAnyChar | ebookconverter/writers/HTMLWriter.py:25-26 | whatever character follows the dir name is dropped |
| HTMLWriter.ArcUrlSiblingDir | ebookconverter/writers/HTMLWriter.py:25-26 | `/out/12` and `/out/123/x` give `/x` |
| HTMLWriter.ArcUrlOfDir | ebookconverter/writers/HTMLWriter.py:26 | the output dir itself is stored under the empty name |
| HTMLWriter.CompressionByExtension | ebookconverter/writers/HTMLWriter.py:52-56 | stored exactly for .zip, .png, .jpeg, .jpg, else deflated |
| HTMLWriter.UpperCaseDeflated | ebookconverter/writers/HTMLWriter.py:55 | `cover.PNG` is deflated |
| HTMLWriter.DotFileDeflated | ebookconverter/writers/HTMLWriter.py:52-56 | `dir/.png` is deflated |
| HTMLWriter.EntryPath | ebookconverter/writers/HTMLWriter.py:45-48 | a url ending in `/` names the main file joined with the output file |
| HTMLWriter.MainFileEntry | ebookconverter/writers/HTMLWriter.py:46-54 | the main file is stored as the output file name |
| HTMLWriter.ZipIsGeneric | ebookconverter/writers/HTMLWriter.py:42 | the bundle is `pg<ebook>.generic` in the output dir |
| HTMLWriter.EntryForFile | ebookconverter/writers/HTMLWriter.py:52-56 | a file `outputdir/stem.ext` is archived as `stem.ext`, which unpacked under `outputdir` is the file again, and is stored exactly when `.ext` is `.zip`, `.png`, `.jpeg` or `.jpg` |
| HTMLWriter.ZipEntries | ebookconverter/writers/HTMLWriter.py:44-56 | at most one entry per parser; each entry is a present file with its archive name and compression |
| HTMLWriter.MissingFiles | ebookconverter/writers/HTMLWriter.py:57-58 | the files `os.stat` does not find |
| HTMLWriter.EntriesAndMissing | ebookconverter/writers/HTMLWriter.py:44-58 | each file is written or reported missing, never both |
| HTMLWriter.EntryIff | ebookconverter/writers/HTMLWriter.py:44-58 | a file is in the zip exactly when some parser names it and it exists |
| HTMLWriter.WriteEntries | ebookconverter/writers/HTMLWriter.py:44-58 | the loop writes `ZipEntries` and logs `MissingFiles` |
| HTMLWriter.WriteStep | ebookconverter/writers/HTMLWriter.py:44-58 | one parser extends the entries or the missing files |
| HTMLWriter.StoredCreditCurrent | ebookconverter/writers/HTMLWriter.py:67-69 | after the write-back the newest credit on record is the build's credit whenever that is non-empty, and the old one otherwise |
| HTMLWriter.CreditWrittenOnce | ebookconverter/writers/HTMLWriter.py:37-69 | an unchanged or empty credit is not written; a second build from it writes nothing |
| ReloadWorkflow.BackupAddsOneRevision | ebookconverter/ReloadWorkflow.py:28-31 | a backup file `<ebook>.json.<k>` that appears adds revision k to the revisions found, and no other |
| ReloadWorkflow.NewestRevision | ebookconverter/ReloadWorkflow.py:28-31 | the first existing revision trying from n-1 down |
| ReloadWorkflow.GetNewestWorkflowFile | ebookconverter/ReloadWorkflow.py:24-34 | the file chosen exists |
| ReloadWorkflow.CurrentPreferred | ebookconverter/ReloadWorkflow.py:25-27 | the current file wins over every backup |
| ReloadWorkflow.HighestRevisionChosen | ebookconverter/ReloadWorkflow.py:28-31 | without a current file the highest existing revision is chosen |
| ReloadWorkflow.NewestRevisionIs | ebookconverter/ReloadWorkflow.py:28-31 | the downward search stops at the highest existing revision |
| ReloadWorkflow.PlainBackupLast | ebookconverter/ReloadWorkflow.py:32-34 | the plain backup only without current file and numbered backups |
| ReloadWorkflow.NoneIff | ebookconverter/ReloadWorkflow.py:24-34 | no file is found exactly when none of the twelve candidates exists |
| ReloadWorkflow.ReloadWorkflowFile | ebookconverter/ReloadWorkflow.py:36-51 | a saved file exists, opens, decodes and parses; an invalid one opens and decodes but does not parse; an open failure or a decode failure, the two raises outside the `try`, names the newest file |
| ReloadWorkflow.SavedIff | ebookconverter/ReloadWorkflow.py:36-51 | saved exactly when the newest file opens, decodes and parses, and then it is that file that is loaded; the call raises exactly when the newest file does not open or does not decode |
| ReloadWorkflow.MainOutcomes | ebookconverter/ReloadWorkflow.py:54-68 | without arguments the usage message alone; otherwise between one outcome and one per argument, and one per argument when no argument's file fails to open |
| ReloadWorkflow.ArgumentMessageIff | ebookconverter/ReloadWorkflow.py:43-65 | an argument prints "need a book number to load" exactly when `int(arg)` fails or its newest file opens but does not decode (the ValueError reaches `main`'s handler); it stops the run exactly when its newest file does not open |
| ReloadWorkflow.ReloadEachOutcomes | ebookconverter/ReloadWorkflow.py:59-65 | the run handles the arguments in order, each as it would be on its own |
| ReloadWorkflow.RunsToEnd | ebookconverter/ReloadWorkflow.py:59-65 | the run reaches every argument exactly when no argument's file fails to open, and always handles the first argument |
| ReloadWorkflow.ReloadEachSplits | ebookconverter/ReloadWorkflow.py:59-65 | the arguments are handled one by one: the outcomes of a + b are those of a, followed by those of b unless an argument of a stopped the run |
| ReloadWorkflow.BadArgumentMessage | ebookconverter/ReloadWorkflow.py:59-65 | an argument that is not a number gives the message in its place and the arguments after it are still handled |
| ReloadWorkflow.DecodeFailureInRun | ebookconverter/ReloadWorkflow.py:43-65 | a number whose newest file does not decode gives the same message in its place, and the run goes on |
| ReloadWorkflow.OpenFailureEndsRun | ebookconverter/ReloadWorkflow.py:43-65 | a number whose newest file does not open ends the run: nothing after it is handled |
| ReloadWorkflow.NumberArgumentReloads | ebookconverter/ReloadWorkflow.py:59-63 | a number, with or without leading zeros, reloads that book and reports what the reload came to |
| RemoveExtraCredits.UpdateNotes | ebookconverter/utils/remove_extra_credits.py:10-14 | only 508 attributes starting `Updated:` |
| RemoveExtraCredits.Credits | ebookconverter/utils/remove_extra_credits.py:10-16 | only the other 508 attributes |
| RemoveExtraCredits.Longest | ebookconverter/utils/remove_extra_credits.py:8-17 | the greatest credit length, 0 without credits |
| RemoveExtraCredits.Shorter | ebookconverter/utils/remove_extra_credits.py:19-21 | only credits shorter than the longest |
| RemoveExtraCredits.LastLongest | ebookconverter/utils/remove_extra_credits.py:19-25 | a reported text is that of a credit at least as long as the longest |
| RemoveExtraCredits.PruneBook | ebookconverter/utils/remove_extra_credits.py:7-25 | deletes `Deleted` and reports `Reported` |
| RemoveExtraCredits.CollectCredits | ebookconverter/utils/remove_extra_credits.py:9-17 | the first loop deletes the notes and collects the credits and their longest length |
| RemoveExtraCredits.DropShorter | ebookconverter/utils/remove_extra_credits.py:18-25 | the second loop deletes the shorter credits and reports the last kept |
| RemoveExtraCredits.UpdateNotesIff | ebookconverter/utils/remove_extra_credits.py:10-11 | an attribute is an update note exactly when it is a 508 starting `Updated:` |
| RemoveExtraCredits.CreditsIff | ebookconverter/utils/remove_extra_credits.py:10-16 | an attribute is a credit exactly when it is another 508 |
| RemoveExtraCredits.ShorterIff | ebookconverter/utils/remove_extra_credits.py:19-20 | a credit is shorter exactly when its length is below the longest |
| RemoveExtraCredits.DeletedIff | ebookconverter/utils/remove_extra_credits.py:9-22 | deleted exactly when an update note, or a shorter credit among several |
| RemoveExtraCredits.SingleCreditKept | ebookconverter/utils/remove_extra_credits.py:18 | with at most one credit only update notes go |
| RemoveExtraCredits.ReportedIsLongest | ebookconverter/utils/remove_extra_credits.py:18-25 | with several credits a longest one's text is reported |
| RemoveExtraCredits.SurvivorsAreLongest | ebookconverter/utils/remove_extra_credits.py:18-22 | after pruning, several credits leave only the longest, at least one |
| RemoveExtraCredits.EqualLengthsNotShorter | ebookconverter/utils/remove_extra_credits.py:18-22 | credits of one length are not shortened |
| RemoveExtraCredits.PruneIdempotent | ebookconverter/utils/remove_extra_credits.py:6-22 | a second run deletes nothing |
| RemoveExtraCredits.CreditsOfKeep | ebookconverter/utils/remove_extra_credits.py:18-22 | with at most one credit no credit is dropped |

## Left out

- PGMarc.BookRecord: fields are kept in the order they are added. pymarc's `add_ordered_field` inserts each one by tag; that ordering is not modelled.
- JobQueue.Run: one `now` serves the whole pass. The source calls `datetime.now()` for each generated candidate. Timestamps are integers, not `datetime` or `fromtimestamp` values.
- JobQueue.MkJobQueue: the same single `now` and integer timestamps.
- JobQueue.MkJobQueue: the candidates come in as the rows of the database query, a parameter. `DBUtils.is_not_text` and `job.maintype` are parameters, and `remove_type` is recorded rather than performed.
- JobQueue.SourcedJob: `urllib.parse.urljoin` is kept symbolic, as a constructor holding its two arguments.
- Globs.Match: only `*` is special. fnmatch's `?` and `[...]` are treated as literals, which the shipped tables never use.
- Numerals.ParseInt: `int()` accepts ASCII digits only, not other Unicode digits.
- Notifier.BookKey: the ebook is an integer or a string. A float (`int(3.7)` is 3) is not modelled, and neither is `None` (`int(None)` raises a TypeError that Notifier.py:36-38 does not catch).
- AutoRebuild.DigitRun: `\d` matches ASCII digits only, not other Unicode digits.
- AutoRebuild.CollectRebuilds: the changelog query and `get_book_for_attrib`'s query are inputs. The rebuild subprocess is only described by its `--range` argument.
- FileInfo.CollectFiles: `os.walk`'s output is an input. The rest of `scan_directory` (reading headers, storing files) and `scan_header`/`scan_file`/`scan_zip` are not part of this model.
- FileInfo.BookMetadata.SaveMetadata: `dc.save()` is counted, not performed.
- UpdateFromWorkflow.DublinCore.Update: `handle_dc_languages` is a parameter (`handled`). JSON values are limited to strings, lists of strings and other values read only for truthiness. The pubinfo object is flattened into the book's fields.
- RDFWriter.Writer.FromDc: RDF terms are a datatype whose kinds (URI, Literal, blank node) are disjoint; rdflib's term equality and serialisation are not modelled.
- HTMLWriter.WriteEntries: the zip's error path (the `except Exception` that removes the file and re-raises) and the HTML build itself are not modelled. `os.stat` is the set of present files.
- Candidates.ReadFromDatabase: ORM rows are values. The source rewrites `file_.archive_path` and sets `file_.format` on the row objects in place.
- ReloadWorkflow.ReloadWorkflowFile: which files exist, which ones `open` refuses, which ones do not decode and which ones `load_from_pgheader` accepts are inputs. Other exceptions are not modelled. These include a database error in `load_book` or `save`, and an error other than a ValueError from `load_from_pgheader`. Printing and logging are not modelled, including the "loading metadata for" line printed before each reload.
- Logging, printing, the `Notifier.notify` mail, configuration parsing, `run_job_queue` and the `main` functions of EbookConverter.py, PGMarc.py, FileInfo.py and UpdateFromWorkflow.py are I/O drivers and are not modelled.

## Findings

| source | as written | input that shows it | evidently intended | confidence | as-written member | corrected member |
|---|---|---|---|---|---|---|
| ebookconverter/PGMarc.py:266-275 | the 521 branch builds its field as `field520` and then adds the undefined `field521`, a NameError | a book with an attribute whose `fk_attriblist` is 521 | add the 521 note built in that branch | high, not executed | PGMarc.Audience521Raises | PGMarc.IntendedNoteCount |
| ebookconverter/AutoRebuild.py:63-67 | the title branch calls `match.group(1)` without checking the match, an AttributeError that aborts the whole run | `update attributes set  "fk_attriblist" = 245 ... where pk = 7` (one digit, so `\d\d+` fails) | skip the statement when nothing matches, as both author branches do | high, not executed | AutoRebuild.TitleUpdateLooksUp | AutoRebuild.CollectRebuildsGuarded |
| ebookconverter/UpdateFromWorkflow.py:50-51 | a bare entry appends `('copyright', year)`, reusing the last `event:year` year, or raising UnboundLocalError when none came before | `SOURCE_PUBLICATION_YEARS = "1923"`, or `["first:1850", "1923"]` | `('copyright', event_year)`: the bare entry is the copyright year | medium, not executed | UpdateFromWorkflow.BareEntryReusesYear | UpdateFromWorkflow.BareEntriesKeepOwnYear |

The operation models use the code as written: `BookRecord`, `CollectRebuilds`
and `Update`. The corrected definitions stand beside them:
- `IntendedBookRecord`;
- `CheckSqlGuarded` with `CollectRebuildsGuarded`;
- `YearsFromIntended`.

Lemmas prove that each corrected definition agrees with the code as written
wherever the defect does not show (`IntendedAgreesWithout521`,
`GuardedCollectsNamed`, `IntendedAgreesOnEvents`).
