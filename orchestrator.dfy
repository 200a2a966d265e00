/** The parts of `main` (deconstruct.py) that decide what is produced: the
    document's name, which extracted media files count as images and in what
    order, how they are cut into parts of fifty for the visual-reference PDFs,
    and what is written to `skeleton.md`. The file system and the zip archive
    come in as values: whether the input exists, the listing of `word/media`
    (absent when the directory does not exist), and the document's contents. */
module Orchestrator {
  import opened Text
  import opened Seqs
  import opened NaturalSort
  import opened VisualReference
  import opened Skeleton

  datatype Option<T> = None | Some(value: T)

  // `os.path.splitext` and the document name.

  /** `s.rfind(c)`: the last index of `c` in `s`, or -1. */
  function RFind(s: string, c: char): (i: int)
    ensures -1 <= i < |s|
    ensures i >= 0 ==> s[i] == c
    ensures forall k | i < k < |s| :: s[k] != c
  {
    if s == [] then -1
    else if s[|s| - 1] == c then |s| - 1
    else RFind(s[..|s| - 1], c)
  }

  /** The extension starts at `dot`: the last dot lies after the last `/`, and
      the part of the final component before it is not made of dots only. */
  predicate ExtensionAt(p: string, dot: int) {
    var sep := RFind(p, '/');
    && dot == RFind(p, '.')
    && dot > sep
    && exists k | sep + 1 <= k < dot :: p[k] != '.'
  }

  /** `os.path.splitext` (POSIX): `(root, ext)` with `root + ext == p`; `ext`
      is empty or a dot followed by neither a dot nor a `/`. */
  function SplitExt(p: string): (r: (string, string))
    ensures r.0 + r.1 == p
    ensures r.1 == [] || (r.1[0] == '.' && forall k | 1 <= k < |r.1| :: r.1[k] != '.' && r.1[k] != '/')
    ensures r.1 != [] <==> ExtensionAt(p, |r.0|)
    ensures r.1 == [] <==> forall dot | 0 <= dot < |p| :: !ExtensionAt(p, dot)
  {
    var dot := RFind(p, '.');
    if ExtensionAt(p, dot) then
      assert forall k | 1 <= k < |p[dot..]| :: p[dot..][k] == p[dot + k];
      (p[..dot], p[dot..])
    else (p, [])
  }

  /** `RFind` locates the last occurrence. */
  lemma {:induction false} RFindAt(s: string, c: char, i: int)
    requires -1 <= i < |s|
    requires i >= 0 ==> s[i] == c
    requires forall k | i < k < |s| :: s[k] != c
    ensures RFind(s, c) == i
  {
    if s != [] && s[|s| - 1] != c {
      RFindAt(s[..|s| - 1], c, i);
    }
  }

  lemma SplitExtExamples()
    ensures SplitExt("image12.PNG") == ("image12", ".PNG")
    ensures SplitExt(".png") == (".png", "")
    ensures SplitExt("photo") == ("photo", "")
    ensures SplitExt("scan.tiff.bak").1 == ".bak"
  {
    var a := "image12.PNG";
    RFindAt(a, '/', -1);
    RFindAt(a, '.', 7);
    assert ExtensionAt(a, 7) by {
      assert a[0] != '.';
    }
    assert a[..7] == "image12" && a[7..] == ".PNG";
    var b := ".png";
    RFindAt(b, '/', -1);
    RFindAt(b, '.', 0);
    assert !ExtensionAt(b, 0);
    var c := "photo";
    RFindAt(c, '.', -1);
    var e := "scan.tiff.bak";
    RFindAt(e, '/', -1);
    RFindAt(e, '.', 9);
    assert ExtensionAt(e, 9) by {
      assert e[0] != '.';
    }
    assert e[9..] == ".bak";
  }

  /** Line 148: the input's file name without its extension. */
  function DocName(inputPath: string): (name: string)
    ensures '/' !in name
    ensures name == SplitExt(Basename(inputPath)).0
  {
    var b := Basename(inputPath);
    assert SplitExt(b).0 <= b;
    SplitExt(b).0
  }

  // The image filter and the natural order, lines 172-174.

  const ValidExts: set<string> := {".png", ".jpg", ".jpeg", ".gif", ".bmp", ".tiff"}

  /** `os.path.splitext(f)[1].lower() in valid_exts`. */
  predicate IsImageFile(f: string) {
    Lower(SplitExt(f).1) in ValidExts
  }

  /** The extension test on named examples: the case of the extension does
      not matter, a leading dot starts no extension, and only the last
      extension counts. */
  lemma IsImageFileExamples()
    ensures IsImageFile("image12.PNG")
    ensures !IsImageFile("photo") && !IsImageFile(".png") && !IsImageFile("scan.tiff.bak")
  {
    SplitExtExamples();
    UpperExtension();
    OtherExtension();
    assert Lower("") == "";
  }

  lemma UpperExtension()
    ensures Lower(".PNG") == ".png"
  {
  }

  lemma OtherExtension()
    ensures Lower(".bak") !in ValidExts
  {
    assert Lower(".bak") == ".bak";
  }

  /** `[f for f in files if ...]`: the image files, in listing order. */
  function FilterImages(files: seq<string>): (r: seq<string>)
    ensures forall f | f in r :: IsImageFile(f)
  {
    Filter(files, IsImageFile)
  }

  /** Lines 168-180: the listing of `word/media` when it exists, else nothing. */
  function ImageFiles(listing: Option<seq<string>>): (r: seq<string>)
    ensures listing.None? ==> r == []
    ensures SortedByKey(r)
    ensures forall f | f in r :: IsImageFile(f)
  {
    if listing.None? then []
    else
      var images := FilterImages(listing.value);
      var sorted := SortNatural(images);
      assert forall f | f in sorted :: f in multiset(images);
      sorted
  }

  /** The image files are exactly the listed image files, each as often as it
      is listed. */
  lemma ImageFilesArePermutation(names: seq<string>, f: string)
    ensures multiset(ImageFiles(Some(names)))[f] == if IsImageFile(f) then multiset(names)[f] else 0
  {
    FilterCount(names, IsImageFile, f);
  }

  // Parts of fifty, lines 186-191.

  const ChunkSize: nat := 50

  /** `ceil(len(image_files) / CHUNK_SIZE)`. */
  function TotalChunks(n: nat): (t: nat)
    ensures t * ChunkSize >= n
    ensures t > 0 ==> (t - 1) * ChunkSize < n
    ensures t == 0 <==> n == 0
  {
    (n + ChunkSize - 1) / ChunkSize
  }

  function Min(a: int, b: int): int {
    if a <= b then a else b
  }

  /** `image_files[i*CHUNK_SIZE : (i+1)*CHUNK_SIZE]`, with Python's clamping of
      slice bounds to the length. */
  function Chunk(files: seq<string>, i: nat): (c: seq<string>)
    ensures |c| <= ChunkSize
    ensures i * ChunkSize >= |files| ==> c == []
    ensures i * ChunkSize < |files| ==> i * ChunkSize + |c| == Min((i + 1) * ChunkSize, |files|)
    ensures forall k | 0 <= k < |c| :: i * ChunkSize + k < |files| && c[k] == files[i * ChunkSize + k]
  {
    files[Min(i * ChunkSize, |files|)..Min((i + 1) * ChunkSize, |files|)]
  }

  /** Every part the loop makes, in order. */
  function Chunks(files: seq<string>): (cs: seq<seq<string>>)
    ensures |cs| == TotalChunks(|files|)
  {
    seq(TotalChunks(|files|), i requires 0 <= i => Chunk(files, i))
  }

  function Flatten(cs: seq<seq<string>>): seq<string> {
    if cs == [] then [] else Flatten(cs[..|cs| - 1]) + cs[|cs| - 1]
  }

  /** Every part has between one and fifty files, and all but the last have
      exactly fifty. */
  lemma ChunkSizes(files: seq<string>, i: nat)
    requires i < TotalChunks(|files|)
    ensures 1 <= |Chunks(files)[i]| <= ChunkSize
    ensures i + 1 < TotalChunks(|files|) ==> |Chunks(files)[i]| == ChunkSize
  {
  }

  /** The first `k` parts, put back together, are the first `k * 50` files. */
  lemma {:induction false} FlattenPrefix(files: seq<string>, k: nat)
    requires k <= TotalChunks(|files|)
    ensures Flatten(Chunks(files)[..k]) == files[..Min(k * ChunkSize, |files|)]
  {
    if k > 0 {
      var cs := Chunks(files)[..k];
      assert cs[..k - 1] == Chunks(files)[..k - 1];
      FlattenPrefix(files, k - 1);
      var lo, hi := (k - 1) * ChunkSize, Min(k * ChunkSize, |files|);
      assert cs[k - 1] == files[lo..hi];
      assert files[..lo] + files[lo..hi] == files[..hi];
    }
  }

  /** The parts, put back together, are the image files: none is lost,
      repeated or moved. */
  lemma ChunksFlatten(files: seq<string>)
    ensures Flatten(Chunks(files)) == files
  {
    var t := TotalChunks(|files|);
    FlattenPrefix(files, t);
    assert Chunks(files)[..t] == Chunks(files);
  }

  // Part names.

  function DigitChar(d: nat): (c: char)
    requires d < 10
    ensures IsDigit(c) && c as int - '0' as int == d
  {
    ('0' as int + d) as char
  }

  /** `str(n)` for a natural number. */
  function NatToString(n: nat): (s: string)
    ensures s != [] && AllDigits(s)
    ensures s[0] != '0' || n == 0
  {
    if n < 10 then [DigitChar(n)] else NatToString(n / 10) + [DigitChar(n % 10)]
  }

  /** `int(str(n)) == n`. */
  lemma {:induction false} NatToStringValue(n: nat)
    ensures DigitsValue(NatToString(n)) == n
  {
    var s := NatToString(n);
    if n < 10 {
      assert s[..0] == [];
    } else {
      NatToStringValue(n / 10);
      assert s[..|s| - 1] == NatToString(n / 10);
    }
  }

  lemma NatToStringInjective(a: nat, b: nat)
    ensures NatToString(a) == NatToString(b) <==> a == b
  {
    NatToStringValue(a);
    NatToStringValue(b);
  }

  /** `f"{doc_name}_VisualRef_Part{part}.pdf"`: a plain file name when the
      document's name is one. */
  function PdfName(docName: string, part: nat): (name: string)
    ensures name != []
    ensures '/' !in docName ==> '/' !in name
  {
    var digits := NatToString(part);
    assert '/' !in digits by {
      forall k | 0 <= k < |digits| ensures digits[k] != '/' {
        assert IsDigit(digits[k]);
      }
    }
    docName + "_VisualRef_Part" + digits + ".pdf"
  }

  /** Different parts get different files, so no part overwrites another. */
  lemma PdfNamesDistinct(docName: string, a: nat, b: nat)
    ensures PdfName(docName, a) == PdfName(docName, b) <==> a == b
  {
    var pre := docName + "_VisualRef_Part";
    var sa, sb := NatToString(a), NatToString(b);
    NatToStringInjective(a, b);
    if PdfName(docName, a) == PdfName(docName, b) {
      assert |sa| == |sb|;
      forall k | 0 <= k < |sa| ensures sa[k] == sb[k] {
        assert PdfName(docName, a)[|pre| + k] == sa[k];
        assert PdfName(docName, b)[|pre| + k] == sb[k];
      }
    }
  }

  /** `os.path.join(a, b)` (POSIX) for two components: an absolute `b`
      replaces `a`; otherwise `a` stays the leading part. */
  function PathJoin(a: string, b: string): (r: string)
    ensures StartsWith(b, "/") ==> r == b
    ensures !StartsWith(b, "/") ==> |a| <= |r| && r[..|a|] == a
  {
    if StartsWith(b, "/") then b
    else if a == [] || a[|a| - 1] == '/' then a + b
    else a + "/" + b
  }

  /** Joining a plain file name to a directory names that file. */
  lemma PathJoinBasename(a: string, b: string)
    requires b != [] && '/' !in b
    ensures Basename(PathJoin(a, b)) == b
  {
    assert b[0] in b;
    if a == [] || a[|a| - 1] == '/' {
      BasenameAfterSlash(a, b);
    } else {
      assert a + "/" + b == (a + "/") + b;
      BasenameAfterSlash(a + "/", b);
    }
  }

  /** What one iteration of the part loop produces: the PDF's path, its pages,
      and whether it is saved. */
  datatype PartReport = PartReport(path: string, pages: seq<Page>, saved: bool)

  /** What part `k` (counted from 0) must report. */
  ghost predicate ReportOf(r: PartReport, visualRefDir: string, docName: string,
                           files: seq<string>, probe: string -> Probe, k: nat)
    requires k < TotalChunks(|files|)
  {
    && r.path == PathJoin(visualRefDir, PdfName(docName, k + 1))
    && r.pages == PagesFor(Chunks(files)[k], probe)
    && (r.saved <==> r.pages != [])
  }

  /** `reports` are the reports of the first `|reports|` parts, in order. */
  ghost predicate ReportsPrefix(reports: seq<PartReport>, visualRefDir: string, docName: string,
                                files: seq<string>, probe: string -> Probe)
  {
    && |reports| <= TotalChunks(|files|)
    && forall k | 0 <= k < |reports| :: ReportOf(reports[k], visualRefDir, docName, files, probe, k)
  }

  /** The reference description of the part loop's result, part by part. */
  ghost predicate ReportsFor(reports: seq<PartReport>, visualRefDir: string, docName: string,
                             files: seq<string>, probe: string -> Probe)
  {
    && |reports| == TotalChunks(|files|)
    && ReportsPrefix(reports, visualRefDir, docName, files, probe)
  }

  lemma ReportsPrefixSnoc(reports: seq<PartReport>, report: PartReport, visualRefDir: string,
                          docName: string, files: seq<string>, probe: string -> Probe)
    requires ReportsPrefix(reports, visualRefDir, docName, files, probe)
    requires |reports| < TotalChunks(|files|)
    requires ReportOf(report, visualRefDir, docName, files, probe, |reports|)
    ensures ReportsPrefix(reports + [report], visualRefDir, docName, files, probe)
  {
    var r := reports + [report];
    forall k | 0 <= k < |r| ensures ReportOf(r[k], visualRefDir, docName, files, probe, k) {
      if k < |reports| {
        assert r[k] == reports[k];
      }
    }
  }

  /** Lines 184-191: one visual-reference PDF per part of fifty, numbered from 1. */
  method GenerateVisualRefs(visualRefDir: string, docName: string, imageFiles: seq<string>,
                            probe: string -> Probe)
    returns (reports: seq<PartReport>)
    ensures ReportsFor(reports, visualRefDir, docName, imageFiles, probe)
  {
    reports := [];
    if imageFiles != [] {
      var totalChunks := TotalChunks(|imageFiles|);
      for i := 0 to totalChunks
        invariant |reports| == i
        invariant ReportsPrefix(reports, visualRefDir, docName, imageFiles, probe)
      {
        var report := VisualRefPart(visualRefDir, docName, imageFiles, probe, i);
        ReportsPrefixSnoc(reports, report, visualRefDir, docName, imageFiles, probe);
        reports := reports + [report];
      }
    }
  }

  /** The body of the loop of lines 189-191 for part `i` (counted from 0). */
  method VisualRefPart(visualRefDir: string, docName: string, imageFiles: seq<string>,
                       probe: string -> Probe, i: nat)
    returns (report: PartReport)
    requires i < TotalChunks(|imageFiles|)
    ensures ReportOf(report, visualRefDir, docName, imageFiles, probe, i)
  {
    var chunk := Chunk(imageFiles, i);
    assert chunk == Chunks(imageFiles)[i];
    var pdfPath := PathJoin(visualRefDir, PdfName(docName, i + 1));
    var pages, saved := CreateVisualReferencePdf(chunk, probe);
    report := PartReport(pdfPath, pages, saved);
  }

  /** A part's PDF is saved exactly when one of its files normalises. */
  lemma PartSavedIff(reports: seq<PartReport>, visualRefDir: string, docName: string,
                     files: seq<string>, probe: string -> Probe, i: int)
    requires ReportsFor(reports, visualRefDir, docName, files, probe)
    requires 0 <= i < |reports|
    ensures reports[i].saved <==> exists f | f in Chunks(files)[i] :: Normalizes(probe(f))
  {
    NoPagesIffAllFail(Chunks(files)[i], probe);
  }

  /** Part `k` is written under the part directory as
      `<doc_name>_VisualRef_Part<k + 1>.pdf`. */
  lemma PartPath(reports: seq<PartReport>, visualRefDir: string, docName: string,
                 files: seq<string>, probe: string -> Probe, k: int)
    requires ReportsFor(reports, visualRefDir, docName, files, probe)
    requires 0 <= k < |reports| && '/' !in docName
    ensures Basename(reports[k].path) == PdfName(docName, k + 1)
    ensures StartsWith(reports[k].path, visualRefDir)
  {
    var name := PdfName(docName, k + 1);
    assert !StartsWith(name, "/") by {
      assert name[0] != '/';
    }
    PathJoinBasename(visualRefDir, name);
  }

  /** Number of PDFs written. */
  function SavedCount(reports: seq<PartReport>): (n: nat)
    ensures n <= |reports|
  {
    if reports == [] then 0
    else SavedCount(reports[..|reports| - 1]) + (if reports[|reports| - 1].saved then 1 else 0)
  }

  /** A part in which no image normalises. */
  predicate AllFail(chunk: seq<string>, probe: string -> Probe) {
    forall f | f in chunk :: !Normalizes(probe(f))
  }

  /** Number of parts in which no image normalises. */
  function FailedCount(chunks: seq<seq<string>>, probe: string -> Probe): (n: nat)
    ensures n <= |chunks|
  {
    if chunks == [] then 0
    else FailedCount(chunks[..|chunks| - 1], probe) + (if AllFail(chunks[|chunks| - 1], probe) then 1 else 0)
  }

  /** One PDF is written per part, except for the parts in which every image
      fails: ceil(N / 50) minus the number of those. */
  lemma PdfCount(reports: seq<PartReport>, visualRefDir: string, docName: string,
                 files: seq<string>, probe: string -> Probe)
    requires ReportsFor(reports, visualRefDir, docName, files, probe)
    ensures SavedCount(reports) == TotalChunks(|files|) - FailedCount(Chunks(files), probe)
  {
    PdfCountPrefix(reports, visualRefDir, docName, files, probe, |reports|);
    assert reports[..|reports|] == reports;
    assert Chunks(files)[..|reports|] == Chunks(files);
  }

  lemma {:induction false} PdfCountPrefix(reports: seq<PartReport>, visualRefDir: string, docName: string,
                                         files: seq<string>, probe: string -> Probe, k: nat)
    requires ReportsFor(reports, visualRefDir, docName, files, probe)
    requires k <= |reports|
    ensures SavedCount(reports[..k]) + FailedCount(Chunks(files)[..k], probe) == k
  {
    if k > 0 {
      PdfCountPrefix(reports, visualRefDir, docName, files, probe, k - 1);
      assert reports[..k][..k - 1] == reports[..k - 1];
      assert Chunks(files)[..k][..k - 1] == Chunks(files)[..k - 1];
      PartSavedIff(reports, visualRefDir, docName, files, probe, k - 1);
    }
  }

  // `skeleton.md`, lines 195-202.

  function SkeletonHeader(docName: string): string {
    "# 文档骨架: " + docName + "\n\n" + "> 此文档由 AI 自动拆解。<<IMG_...>> 为图片占位符。\n\n"
  }

  /** The file is the header naming the document followed by the skeleton text. */
  function SkeletonFile(docName: string, md: string): (content: string)
    ensures |content| == |SkeletonHeader(docName)| + |md|
    ensures content[..|SkeletonHeader(docName)|] == SkeletonHeader(docName)
    ensures content[|SkeletonHeader(docName)|..] == md
  {
    SkeletonHeader(docName) + md
  }

  /** What one run produces. */
  datatype Output = Output(
    docName: string, imageFiles: seq<string>, reports: seq<PartReport>, skeleton: string)

  /** `main(input_docx, output_folder)`: nothing when the input is missing;
      otherwise the sorted image files, the part reports and `skeleton.md`. */
  method Deconstruct(
    inputExists: bool, inputPath: string, outputFolder: string,
    mediaListing: Option<seq<string>>, probe: string -> Probe,
    paragraphs: seq<Paragraph>, rels: seq<Relationship>)
    returns (out: Option<Output>)
    requires DistinctRIds(rels)
    ensures out.None? <==> !inputExists
    ensures out.Some? ==>
              var o := out.value;
              && o.docName == DocName(inputPath)
              && o.imageFiles == ImageFiles(mediaListing)
              && ReportsFor(o.reports, PathJoin(PathJoin(outputFolder, o.docName), "visual_refs"),
                            o.docName, o.imageFiles, probe)
              && o.skeleton == SkeletonFile(o.docName, Markdown(paragraphs, ImageEntries(rels)))
  {
    if !inputExists {
      return None;
    }
    var docName := DocName(inputPath);
    var baseOutputDir := PathJoin(outputFolder, docName);
    var visualRefDir := PathJoin(baseOutputDir, "visual_refs");
    var imageFiles := ImageFiles(mediaListing);
    var reports := GenerateVisualRefs(visualRefDir, docName, imageFiles, probe);
    var extractor := new SkeletonExtractor(paragraphs, rels);
    var md := extractor.ExtractToMarkdown();
    out := Some(Output(docName, imageFiles, reports, SkeletonFile(docName, md)));
  }
}
