/** The zip bundle the HTML writer builds after the base writer has run: the
    name of each file inside the archive, the compression each one gets, the
    handling of the main file, the name of the zip itself, and when the
    credit found during the build is written back to the database. */
module HTMLWriter {
  import opened Strings
  import opened Optional
  import opened Numerals
  import Paths
  import ConverterTables

  /*** arcurl ***/

  /** `arcurl(job, outfile)`: a file under the output directory is stored
      under its path with `outputdir` and one more character dropped (a plain
      prefix test; Python's slice gives "" when nothing follows); any other
      file is stored under its full path. */
  function ArcUrl(outputdir: string, outfile: string): (r: string)
    ensures EndsWith(outfile, r)
    ensures StartsWith(outfile, outputdir) && |outfile| > |outputdir| ==> |r| == |outfile| - |outputdir| - 1
    ensures StartsWith(outfile, outputdir) && |outfile| == |outputdir| ==> r == ""
    ensures !StartsWith(outfile, outputdir) ==> r == outfile
  {
    if StartsWith(outfile, outputdir) then
      outfile[if |outputdir| + 1 <= |outfile| then |outputdir| + 1 else |outfile|..]
    else
      outfile
  }

  /** A file `outputdir/rest` is stored as `rest`. */
  lemma ArcUrlUnderDir(outputdir: string, rest: string)
    ensures ArcUrl(outputdir, outputdir + "/" + rest) == rest
  {
    var f := outputdir + "/" + rest;
    assert f[..|outputdir|] == outputdir;
    assert f[|outputdir| + 1..] == rest;
  }

  /** Putting the directory and the separator back in front of the stored
      name gives the file again. */
  lemma ArcUrlRoundTrip(outputdir: string, outfile: string)
    requires StartsWith(outfile, outputdir + "/")
    ensures outputdir + "/" + ArcUrl(outputdir, outfile) == outfile
  {
    var d := outputdir + "/";
    assert outfile[..|outputdir|] == d[..|outputdir|] == outputdir;
    assert outfile == d + outfile[|d|..];
  }

  /** The prefix test has no separator check: whatever character follows the
      directory name is dropped, so a sibling directory whose name extends
      `outputdir` loses its own tail. */
  lemma ArcUrlDropsAnyChar(outputdir: string, c: char, rest: string)
    ensures ArcUrl(outputdir, outputdir + [c] + rest) == rest
  {
    var f := outputdir + [c] + rest;
    assert f[..|outputdir|] == outputdir;
    assert f[|outputdir| + 1..] == rest;
  }

  /** `/out/12` versus `/out/123/x`: the entry is named `/x`. */
  lemma ArcUrlSiblingDir()
    ensures ArcUrl("/out/12", "/out/123/x") == "/x"
  {
    ArcUrlDropsAnyChar("/out/12", '3', "/x");
    assert "/out/12" + ['3'] + "/x" == "/out/123/x";
  }

  /** The output directory itself is stored under the empty name. */
  lemma ArcUrlOfDir(outputdir: string)
    ensures ArcUrl(outputdir, outputdir) == ""
  {
  }

  /*** compression ***/

  datatype Compression = Stored | Deflated

  /** The extensions whose files are already compressed. */
  const StoredExtensions: seq<string> := [".zip", ".png", ".jpeg", ".jpg"]

  /** The compression `build` passes to `write`: chosen by the extension
      `os.path.splitext` gives, compared case-sensitively. */
  function CompressionOf(outfile: string): Compression {
    if Paths.Ext(outfile) in StoredExtensions then Stored else Deflated
  }

  /** A file `dir/stem.ext` is stored exactly when `.ext` is one of the four
      extensions, and deflated otherwise. */
  lemma CompressionByExtension(dir: string, stem: string, ext: string)
    requires stem != [] && !HasChar(stem, '/') && !HasChar(stem, '.')
    requires |ext| >= 1 && ext[0] == '.' && !HasChar(ext, '/') && !HasChar(ext[1..], '.')
    ensures CompressionOf(dir + "/" + stem + ext) == Stored <==> ext in StoredExtensions
    ensures CompressionOf(dir + "/" + stem + ext) == Deflated <==> ext !in StoredExtensions
  {
    Paths.SplitExtOfStem(dir, stem, ext);
  }

  /** The comparison is case-sensitive: `cover.PNG` is deflated. */
  lemma UpperCaseDeflated(dir: string)
    ensures CompressionOf(dir + "/cover.PNG") == Deflated
  {
    var ext := ".PNG";
    assert !HasChar(ext, '/') && !HasChar(ext[1..], '.');
    assert !HasChar("cover", '/') && !HasChar("cover", '.');
    assert dir + "/" + "cover" + ext == dir + "/cover.PNG" by {
      assert "/" + "cover" + ext == "/cover.PNG";
    }
    CompressionByExtension(dir, "cover", ext);
    assert ext !in StoredExtensions;
  }

  /** A dot file such as `dir/.png` has no extension and is deflated. */
  lemma DotFileDeflated(dir: string)
    ensures CompressionOf(dir + "/.png") == Deflated
  {
    var ext := ".png";
    assert !HasChar(ext, '/') && !HasChar(ext[1..], '.');
    Paths.SplitExtOfDotFile(dir, ext);
    assert dir + "/" + ext == dir + "/.png";
    assert Paths.Ext(dir + "/.png") == "";
  }

  /*** the main file and the zip's name ***/

  /** The file a parser's (normalised) output url names: a url ending in `/`
      is the main file, joined with the job's output file name. */
  function EntryPath(outfile: string, outputfile: string): (p: string)
    ensures !EndsWith(outfile, "/") ==> p == outfile
    ensures EndsWith(outfile, "/") ==> EndsWith(p, outputfile)
  {
    if EndsWith(outfile, "/") then Paths.Join(outfile, outputfile) else outfile
  }

  /** The main file of `outputdir/` is `outputdir/<outputfile>`, and it is
      stored in the zip as `<outputfile>`. */
  lemma MainFileEntry(outputdir: string, outputfile: string)
    requires outputfile != [] && !StartsWith(outputfile, "/")
    ensures EntryPath(outputdir + "/", outputfile) == outputdir + "/" + outputfile
    ensures ArcUrl(outputdir, EntryPath(outputdir + "/", outputfile)) == outputfile
  {
    var d := outputdir + "/";
    assert EndsWith(d, "/") by { assert d[|d| - 1..] == "/"; }
    ArcUrlUnderDir(outputdir, outputfile);
  }

  /** `os.path.join(outputdir, make_output_filename('zip', ebook))` */
  function ZipFilename(outputdir: string, ebook: int): string {
    Paths.Join(outputdir, ConverterTables.MakeOutputFilename("zip", ebook))
  }

  /** `zip` has no entry in the file name table, so the bundle is
      `pg<ebook>.generic` inside the output directory. */
  lemma ZipIsGeneric(outputdir: string, ebook: int)
    ensures ZipFilename(outputdir, ebook) == Paths.Join(outputdir, "pg" + IntToString(ebook) + ".generic")
  {
    assert "zip" !in ConverterTables.FilenameSuffixes;
    ConverterTables.OutputFilenameShape("zip", ebook);
  }

  /*** the zip entries ***/

  datatype ZipEntry = ZipEntry(path: string, arcname: string, compression: Compression)

  /** The entry a present file gets. */
  function EntryFor(outputdir: string, path: string): (e: ZipEntry)
    ensures e.path == path
  {
    ZipEntry(path, ArcUrl(outputdir, path), CompressionOf(path))
  }

  /** A present file `outputdir/stem.ext` goes into the zip under the name
      `stem.ext`, which unpacked under `outputdir` is the file again; it is
      stored when `.ext` is one of the already-compressed extensions and
      deflated otherwise. */
  lemma EntryForFile(outputdir: string, stem: string, ext: string)
    requires stem != [] && !HasChar(stem, '/') && !HasChar(stem, '.')
    requires |ext| >= 1 && ext[0] == '.' && !HasChar(ext, '/') && !HasChar(ext[1..], '.')
    ensures EntryFor(outputdir, outputdir + "/" + stem + ext).arcname == stem + ext
    ensures outputdir + "/" + EntryFor(outputdir, outputdir + "/" + stem + ext).arcname == outputdir + "/" + stem + ext
    ensures EntryFor(outputdir, outputdir + "/" + stem + ext).compression == Stored <==> ext in StoredExtensions
  {
    assert outputdir + "/" + stem + ext == outputdir + "/" + (stem + ext);
    ArcUrlUnderDir(outputdir, stem + ext);
    CompressionByExtension(outputdir, stem, ext);
  }

  /** The entries written for the parsers' output urls `outfiles`, in order;
      `present` is the set of files `os.stat` finds. */
  function ZipEntries(outputdir: string, outputfile: string, outfiles: seq<string>, present: set<string>): (es: seq<ZipEntry>)
    ensures |es| <= |outfiles|
    ensures forall k :: 0 <= k < |es| ==> es[k].path in present && es[k] == EntryFor(outputdir, es[k].path)
  {
    if outfiles == [] then []
    else
      var front := ZipEntries(outputdir, outputfile, outfiles[..|outfiles| - 1], present);
      var p := EntryPath(outfiles[|outfiles| - 1], outputfile);
      if p in present then front + [EntryFor(outputdir, p)] else front
  }

  /** The files that are missing and only logged. */
  function MissingFiles(outputfile: string, outfiles: seq<string>, present: set<string>): (ms: seq<string>)
    ensures forall k :: 0 <= k < |ms| ==> ms[k] !in present
  {
    if outfiles == [] then []
    else
      var front := MissingFiles(outputfile, outfiles[..|outfiles| - 1], present);
      var p := EntryPath(outfiles[|outfiles| - 1], outputfile);
      if p in present then front else front + [p]
  }

  /** Every parser's file is either written or reported missing, never both. */
  lemma {:induction false} EntriesAndMissing(outputdir: string, outputfile: string, outfiles: seq<string>, present: set<string>)
    ensures |ZipEntries(outputdir, outputfile, outfiles, present)| + |MissingFiles(outputfile, outfiles, present)| == |outfiles|
  {
    if outfiles != [] {
      EntriesAndMissing(outputdir, outputfile, outfiles[..|outfiles| - 1], present);
    }
  }

  /** Some entry of `es` is the file `p`. */
  predicate InZip(es: seq<ZipEntry>, p: string) {
    exists k :: 0 <= k < |es| && es[k].path == p
  }

  /** Some parser's url names the file `p`. */
  predicate Named(outputfile: string, outfiles: seq<string>, p: string) {
    exists i :: 0 <= i < |outfiles| && EntryPath(outfiles[i], outputfile) == p
  }

  /** A file is in the zip exactly when some parser names it and it exists. */
  lemma {:induction false} EntryIff(outputdir: string, outputfile: string, outfiles: seq<string>, present: set<string>, p: string)
    ensures InZip(ZipEntries(outputdir, outputfile, outfiles, present), p)
        <==> p in present && Named(outputfile, outfiles, p)
  {
    if outfiles != [] {
      EntryIff(outputdir, outputfile, outfiles[..|outfiles| - 1], present, p);
      InZipStep(outputdir, outputfile, outfiles, present, p);
      NamedStep(outputfile, outfiles, p);
    }
  }

  /** The zip of all urls holds what the zip of the front ones holds, and the
      last url's file when it exists. */
  lemma InZipStep(outputdir: string, outputfile: string, outfiles: seq<string>, present: set<string>, p: string)
    requires outfiles != []
    ensures var last := EntryPath(outfiles[|outfiles| - 1], outputfile);
      InZip(ZipEntries(outputdir, outputfile, outfiles, present), p)
      <==> InZip(ZipEntries(outputdir, outputfile, outfiles[..|outfiles| - 1], present), p) || (last in present && last == p)
  {
    var last := EntryPath(outfiles[|outfiles| - 1], outputfile);
    var fes := ZipEntries(outputdir, outputfile, outfiles[..|outfiles| - 1], present);
    if last in present {
      InZipAppend(fes, EntryFor(outputdir, last), p);
    }
  }

  lemma InZipAppend(es: seq<ZipEntry>, e: ZipEntry, p: string)
    ensures InZip(es + [e], p) <==> InZip(es, p) || e.path == p
  {
    if InZip(es + [e], p) {
      var k :| 0 <= k < |es + [e]| && (es + [e])[k].path == p;
      if k < |es| {
        assert (es + [e])[k] == es[k];
      }
    }
    if InZip(es, p) {
      var k :| 0 <= k < |es| && es[k].path == p;
      assert (es + [e])[k] == es[k];
    }
    if e.path == p {
      assert (es + [e])[|es|] == e;
    }
  }

  /** Naming by all urls is naming by the front ones or by the last. */
  lemma NamedStep(outputfile: string, outfiles: seq<string>, p: string)
    requires outfiles != []
    ensures Named(outputfile, outfiles, p)
        <==> Named(outputfile, outfiles[..|outfiles| - 1], p) || EntryPath(outfiles[|outfiles| - 1], outputfile) == p
  {
    var front := outfiles[..|outfiles| - 1];
    if Named(outputfile, outfiles, p) {
      var i :| 0 <= i < |outfiles| && EntryPath(outfiles[i], outputfile) == p;
      if i < |front| {
        assert front[i] == outfiles[i];
      }
    }
    if Named(outputfile, front, p) {
      var i :| 0 <= i < |front| && EntryPath(front[i], outputfile) == p;
      assert outfiles[i] == front[i];
    }
  }

  /** The loop over `job.spider.parsers` that fills the zip. */
  method WriteEntries(outputdir: string, outputfile: string, outfiles: seq<string>, present: set<string>)
    returns (entries: seq<ZipEntry>, missing: seq<string>)
    ensures entries == ZipEntries(outputdir, outputfile, outfiles, present)
    ensures missing == MissingFiles(outputfile, outfiles, present)
  {
    entries, missing := [], [];
    var i := 0;
    while i < |outfiles|
      invariant 0 <= i <= |outfiles|
      invariant entries == ZipEntries(outputdir, outputfile, outfiles[..i], present)
      invariant missing == MissingFiles(outputfile, outfiles[..i], present)
    {
      var outfile := outfiles[i];
      if EndsWith(outfile, "/") {
        outfile := Paths.Join(outfile, outputfile);
      }
      WriteStep(outputdir, outputfile, outfiles, present, i);
      if outfile in present {
        entries := entries + [ZipEntry(outfile, ArcUrl(outputdir, outfile), CompressionOf(outfile))];
      } else {
        missing := missing + [outfile];
      }
      i := i + 1;
    }
    assert outfiles[..|outfiles|] == outfiles;
  }

  /** One more parser's file extends the entries or the missing files. */
  lemma WriteStep(outputdir: string, outputfile: string, outfiles: seq<string>, present: set<string>, i: nat)
    requires i < |outfiles|
    ensures var p := EntryPath(outfiles[i], outputfile);
      ZipEntries(outputdir, outputfile, outfiles[..i + 1], present)
        == ZipEntries(outputdir, outputfile, outfiles[..i], present)
           + (if p in present then [ZipEntry(p, ArcUrl(outputdir, p), CompressionOf(p))] else [])
      && MissingFiles(outputfile, outfiles[..i + 1], present)
        == MissingFiles(outputfile, outfiles[..i], present) + (if p in present then [] else [p])
  {
    assert outfiles[..i + 1][..i] == outfiles[..i];
  }

  /*** the credit write-back ***/

  /** Python truthiness of the credit: `None` and `""` are false. */
  predicate Truthy(credit: Option<string>) {
    credit.Some? && credit.value != ""
  }

  /** The 508 attribute `build` adds after the zip is made, if any. */
  function CreditWriteBack(oldCredit: Option<string>, credit: Option<string>): (added: Option<string>)
    ensures added.Some? <==> Truthy(credit) && credit != oldCredit
    ensures added.Some? ==> added == credit
  {
    if Truthy(credit) && credit != oldCredit then credit else None
  }

  /** After the write-back the newest credit on record is the build's credit
      whenever that is non-empty, and stays the old one otherwise. */
  lemma StoredCreditCurrent(oldCredit: Option<string>, credit: Option<string>)
    ensures var added := CreditWriteBack(oldCredit, credit);
            Truthy(credit) ==> (if added.Some? then added else oldCredit) == credit
    ensures var added := CreditWriteBack(oldCredit, credit);
            !Truthy(credit) ==> (if added.Some? then added else oldCredit) == oldCredit
  {
  }

  /** A credit the build did not change is not written again, an empty one
      is never written, and a credit written once is not written by a second
      build that starts from it. */
  lemma CreditWrittenOnce(oldCredit: Option<string>, credit: Option<string>)
    ensures CreditWriteBack(credit, credit) == None
    ensures !Truthy(credit) ==> CreditWriteBack(oldCredit, credit) == None
    ensures var added := CreditWriteBack(oldCredit, credit);
            added.Some? ==> CreditWriteBack(added, credit) == None
  {
  }
}
