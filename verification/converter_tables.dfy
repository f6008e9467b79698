/** The static configuration of the converter: which input formats each
    output type accepts, in order of preference; which already-posted
    formats make a type unnecessary; the output file names; the dependency
    graph between type groups; the fixed build order; and the size caps. */
module ConverterTables {
  import opened Strings
  import opened Numerals
  import opened Globs

  const NonUtfTxts: seq<string> := ["txt/windows-125*", "txt/iso-8859-*", "txt/big5", "txt/ibm*", "txt/*"]
  const AllTxts: seq<string> := ["txt/utf-8"] + NonUtfTxts
  const AllHtm: seq<string> := ["html/utf-8", "html/windows-125*", "html/iso-8859-*", "html/*"]
  const AllSrcs: seq<string> := ["rst/*"] + AllHtm + AllTxts
  const AnySource: seq<string> := ["rst/*", "html/*", "txt/*", "tex/*"]

  /** PREFERRED_INPUT_FORMATS, with the six aliases added after the literal. */
  const PreferredInputFormats: map<string, seq<string>> := map[
    "rst.gen" := ["rst/*"],
    "epub.images" := AllSrcs,
    "epub3.images" := AllSrcs,
    "kindle.images" := ["epub.images/*"],
    "kindle.noimages" := ["epub.noimages/*"],
    "kf8.images" := ["epub3.images/*"],
    "html.images" := AllHtm + ["rst/*"] + AllTxts,
    "txt.utf-8" := ["rst/*"] + NonUtfTxts,
    "pdf.images" := ["rst/*"],
    "picsdir.images" := ["rst/*"],
    "cover.medium" := AnySource,
    "rdf" := AnySource,
    "qrcode" := AnySource,
    "facebook" := AnySource,
    "twitter" := AnySource,
    "mastodon" := AnySource,
    "update" := AnySource,
    "html.noimages" := AllHtm + ["rst/*"] + AllTxts,
    "epub.noimages" := AllSrcs,
    "pdf.noimages" := ["rst/*"],
    "picsdir.noimages" := ["rst/*"],
    "cover.small" := AnySource,
    "null" := AllSrcs
  ]

  /** EXCLUSIONS: a type is not built when a non-generated file of one of
      these formats is already registered. */
  const Exclusions: map<string, seq<string>> := map[
    "epub.images" := ["epub.dp"],
    "epub.noimages" := ["epub.dp"],
    "html.noimages" := ["html/*"],
    "txt.utf-8" := ["txt/utf-8"]
  ]

  /** FILENAMES: every template is `pg{id}` followed by the suffix kept here. */
  const FilenameSuffixes: map<string, string> := map[
    "html.noimages" := ".html.utf8",
    "html.images" := "-images.html.utf8",
    "epub.noimages" := ".epub",
    "epub.images" := "-images.epub",
    "epub3.images" := "-images-3.epub",
    "kindle.noimages" := ".mobi",
    "kindle.images" := "-images.mobi",
    "kf8.images" := "-images-kf8.mobi",
    "pdf.noimages" := ".pdf",
    "pdf.images" := "-images.pdf",
    "txt.utf-8" := ".txt.utf8",
    "rdf" := ".rdf",
    "rst.gen" := ".rst.utf8",
    "cover.small" := ".cover.small.jpg",
    "cover.medium" := ".cover.medium.jpg",
    "qrcode" := ".qrcode.png",
    "logfile" := ".converter.log"
  ]

  const GenericSuffix: string := ".generic"

  /** DEPENDENCIES, an ordered mapping from a group or type to what it needs. */
  const Dependencies: seq<(string, seq<string>)> := [
    ("everything", ["all", "kindle.noimages", "facebook", "twitter", "mastodon", "update"]),
    ("all", ["html", "epub", "kindle", "epub3", "kf8", "pdf", "txt", "rst", "cover", "qrcode", "rdf"]),
    ("html", ["html.images", "html.noimages"]),
    ("epub", ["epub.images", "epub.noimages"]),
    ("epub3", ["epub3.images"]),
    ("kindle", ["kindle.images"]),
    ("kf8", ["kf8.images"]),
    ("pdf", ["pdf.images", "pdf.noimages"]),
    ("txt", ["txt.utf-8", "txt.iso-8859-1", "txt.us-ascii"]),
    ("rst", ["rst.gen"]),
    ("kindle.noimages", ["epub.noimages"]),
    ("kindle.images", ["epub.images"]),
    ("html.noimages", ["picsdir.noimages"]),
    ("html.images", ["picsdir.images"]),
    ("pdf.noimages", ["picsdir.noimages"]),
    ("pdf.images", ["picsdir.images"]),
    ("rst.gen", ["picsdir.images"]),
    ("cover", ["cover.medium", "cover.small"])
  ]

  const BuildOrder: seq<string> := [
    "picsdir.images", "picsdir.noimages",
    "rst.gen",
    "txt.utf-8",
    "html.images", "html.noimages",
    "epub.noimages", "kindle.noimages", "pdf.noimages",
    "cover.small", "cover.medium",
    "epub.images", "kindle.images", "pdf.images",
    "epub3.images", "kf8.images",
    "qrcode", "rdf",
    "facebook", "twitter", "mastodon",
    "update",
    "null"
  ]

  /** MAX_CANDIDATE_SIZE, in MiB, keyed by the job's main type. */
  const MaxCandidateSize: map<string, int> := map["txt" := 8, "epub" := 16, "epub3" := 16]

  /** `MAX_CANDIDATE_SIZE.get(maintype, 32) * 1024 * 1024` */
  function SizeLimit(maintype: string): int {
    (if maintype in MaxCandidateSize then MaxCandidateSize[maintype] else 32) * 1024 * 1024
  }

  /** The cap is 8 MiB for text, 16 MiB for either epub and 32 MiB for every
      other main type. */
  lemma SizeLimitValues(maintype: string)
    ensures maintype == "txt" ==> SizeLimit(maintype) == 8 * 1024 * 1024
    ensures maintype == "epub" || maintype == "epub3" ==> SizeLimit(maintype) == 16 * 1024 * 1024
    ensures maintype !in {"txt", "epub", "epub3"} ==> SizeLimit(maintype) == 32 * 1024 * 1024
  {
  }

  function FilenameSuffix(t: string): string {
    if t in FilenameSuffixes then FilenameSuffixes[t] else GenericSuffix
  }

  /** The template `make_output_filename` formats for a type. */
  function Template(t: string): string {
    "pg{id}" + FilenameSuffix(t)
  }

  /** `make_output_filename(type_, ebook)`: `{id}` in the template becomes the ebook number. */
  function MakeOutputFilename(t: string, ebook: int): string {
    Replace(Template(t), "{id}", IntToString(ebook))
  }

  /** No suffix holds a brace, so `{id}` occurs once in each template. */
  lemma SuffixesHaveNoBrace(t: string)
    ensures !HasChar(FilenameSuffix(t), '{')
  {
    if t in FilenameSuffixes {
      if t in {"html.noimages", "html.images", "epub.noimages", "epub.images", "epub3.images", "kindle.noimages", "kindle.images", "kf8.images"} {
        ImageSuffixesNoBrace(t);
      } else {
        OtherSuffixesNoBrace(t);
      }
    }
  }

  lemma ImageSuffixesNoBrace(t: string)
    requires t in {"html.noimages", "html.images", "epub.noimages", "epub.images", "epub3.images", "kindle.noimages", "kindle.images", "kf8.images"}
    ensures !HasChar(FilenameSuffixes[t], '{')
  {
  }

  lemma OtherSuffixesNoBrace(t: string)
    requires t in FilenameSuffixes
    requires t !in {"html.noimages", "html.images", "epub.noimages", "epub.images", "epub3.images", "kindle.noimages", "kindle.images", "kf8.images"}
    ensures !HasChar(FilenameSuffixes[t], '{')
  {
  }

  /** Formatting `pg{id}<rest>` where `rest` has no brace. */
  lemma FormatTemplate(rest: string, id: string)
    requires !HasChar(rest, '{')
    ensures Replace("pg{id}" + rest, "{id}", id) == "pg" + id + rest
  {
    var tpl := "pg{id}" + rest;
    NoBraceNoField(rest);
    ReplaceAbsent(rest, "{id}", id);
    var t1, t2 := tpl[1..], tpl[2..];
    assert tpl[..4][0] == 'p' && t1[..4][0] == 'g' && t1[1..] == t2;
    assert t2[..4] == "{id}" && t2[4..] == rest;
    ReplaceSkip(tpl, "{id}", id);
    ReplaceSkip(t1, "{id}", id);
    ReplaceHit(t2, "{id}", id);
  }

  /** A string without `{` does not contain the `{id}` field. */
  lemma NoBraceNoField(rest: string)
    requires !HasChar(rest, '{')
    ensures !Contains(rest, "{id}")
  {
    forall i | 0 <= i <= |rest| - 4
      ensures !OccursAt(rest, "{id}", i)
    {
      assert rest[i..i + 4][0] == rest[i] != '{';
    }
  }

  /** `make_output_filename` gives `pg<id>` followed by the template's suffix;
      a type without a template gives `pg<id>.generic`. */
  lemma OutputFilenameShape(t: string, ebook: int)
    ensures MakeOutputFilename(t, ebook) == "pg" + IntToString(ebook) + FilenameSuffix(t)
    ensures t !in FilenameSuffixes ==> MakeOutputFilename(t, ebook) == "pg" + IntToString(ebook) + ".generic"
  {
    SuffixesHaveNoBrace(t);
    FormatTemplate(FilenameSuffix(t), IntToString(ebook));
  }

  /** Every type of the build order has an entry in PREFERRED_INPUT_FORMATS,
      so the lookup the job-queue builder makes for it cannot fail. */
  lemma BuildOrderHasFormats()
    ensures forall t :: t in BuildOrder ==> t in PreferredInputFormats
  {
  }

  /** The kindle types are made from epub output of the same pass. */
  lemma KindleFormatsFromEpub()
    ensures "epub.images" in PreferredInputFormats && "kindle.images" in PreferredInputFormats
    ensures "epub3.images" in PreferredInputFormats && "kf8.images" in PreferredInputFormats
    ensures PreferredInputFormats["kindle.images"] == ["epub.images/*"]
    ensures PreferredInputFormats["kf8.images"] == ["epub3.images/*"]
  {
  }

  /** Whenever a concrete type depends on another concrete type (kindle.images
      on epub.images, html.images on picsdir.images, ...), the dependency comes
      first in the build order, so its generated output can feed the dependent
      type in the same pass. */
  lemma DependenciesBuiltFirst()
    ensures forall k, i, j ::
      (0 <= k < |Dependencies| && 0 <= i < |BuildOrder| && 0 <= j < |BuildOrder|
       && Dependencies[k].0 == BuildOrder[j] && BuildOrder[i] in Dependencies[k].1)
      ==> i < j
  {
  }
}
