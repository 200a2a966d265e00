/** `create_visual_reference_pdf` (deconstruct.py): one labelled A4 page per
    image that normalises, laid out with integer arithmetic on fixed constants,
    and a document saved only when at least one page was made. What the imaging
    library measures (caption size, thumbnail size, whether the file opens and
    its pixels load, its mode) comes in through a `Probe` per file name. */
module VisualReference {
  import opened ImageNormalizer

  const PageWidth: int := 595
  const PageHeight: int := 842
  const Margin: int := 50
  /** Space between the caption and the image. */
  const Gap: int := 20

  /** What the imaging library reports about one file: whether opening it
      and loading its pixels succeed, its mode and `transparency` entry, the caption's bounding box and the image's
      size after `thumbnail`. */
  datatype Probe = Probe(
    decodes: bool, mode: string, hasTransparency: bool,
    textW: int, textH: int, thumbW: int, thumbH: int)

  /** Positions on one page: the caption's top-left corner, the box passed to
      `thumbnail`, and the image's top-left corner. */
  datatype Layout = Layout(labelX: real, labelY: int, maxW: int, maxH: int, imgX: int, imgY: int)

  datatype Page = Page(caption: string, layout: Layout)

  /** `int(n / 2)`: true division followed by truncation toward zero. */
  function TruncHalf(n: int): (r: int)
    ensures n >= 0 ==> 0 <= n - 2 * r <= 1
    ensures n < 0 ==> -1 <= n - 2 * r <= 0
  {
    if n >= 0 then n / 2 else -((-n) / 2)
  }

  /** The layout arithmetic of lines 63-76 for a caption of `textW` by `textH`
      and an image `w` wide after thumbnailing. */
  function PlaceImage(textW: int, textH: int, w: int): (l: Layout)
    ensures l.maxW == 495 && l.maxH == 692 - textH
    ensures l.labelY == Margin && l.imgY == 70 + textH
  {
    Layout(
      labelX := (PageWidth - textW) as real / 2.0,
      labelY := Margin,
      maxW := PageWidth - 2 * Margin,
      maxH := PageHeight - 3 * Margin - textH,
      imgX := TruncHalf(PageWidth - w),
      imgY := Margin + textH + Gap)
  }

  /** The image is centred: the space left of it and the space right of it
      differ by at most one unit (the truncated half). */
  lemma PlacementCentred(textW: int, textH: int, w: int)
    requires 0 <= w <= PageWidth
    ensures var l := PlaceImage(textW, textH, w);
            0 <= (PageWidth - (l.imgX + w)) - l.imgX <= 1
  {
  }

  /** An image that `thumbnail` fitted into the box lies inside the margins,
      starts a gap below the caption, and ends above the bottom margin. */
  lemma PlacementFits(textW: int, textH: int, w: int, h: int)
    requires 0 <= textH
    requires 0 <= w <= PlaceImage(textW, textH, w).maxW
    requires 0 <= h <= PlaceImage(textW, textH, w).maxH
    ensures var l := PlaceImage(textW, textH, w);
            && Margin <= l.imgX && l.imgX + w <= PageWidth - Margin
            && l.imgY == l.labelY + textH + Gap
            && l.imgY + h <= PageHeight - Margin
  {
  }

  /** The page for one file: caption `ID: <name>` and the layout. */
  function PageFor(filename: string, p: Probe): (page: Page)
    ensures page.caption == "ID: " + filename
  {
    Page("ID: " + filename, PlaceImage(p.textW, p.textH, p.thumbW))
  }

  /** `process_image_for_ai` did not return `None` for this file. */
  predicate Normalizes(p: Probe) {
    Usable(ProcessImage(p.decodes, p.mode, p.hasTransparency))
  }

  /** The page list after the loop has seen `files`, built the way the loop
      builds it: one page appended per file that normalises, so at most one
      per file. */
  function PagesFor(files: seq<string>, probe: string -> Probe): (pages: seq<Page>)
    ensures |pages| <= |files|
  {
    if files == [] then []
    else
      var last := files[|files| - 1];
      PagesFor(files[..|files| - 1], probe)
      + (if Normalizes(probe(last)) then [PageFor(last, probe(last))] else [])
  }

  /** Reference description: the files that normalise, in input order. */
  function Survivors(files: seq<string>, probe: string -> Probe): seq<string> {
    if files == [] then []
    else (if Normalizes(probe(files[0])) then [files[0]] else []) + Survivors(files[1..], probe)
  }

  lemma {:induction false} SurvivorsSnoc(files: seq<string>, x: string, probe: string -> Probe)
    ensures Survivors(files + [x], probe)
            == Survivors(files, probe) + (if Normalizes(probe(x)) then [x] else [])
  {
    if files != [] {
      assert (files + [x])[1..] == files[1..] + [x];
      SurvivorsSnoc(files[1..], x, probe);
    }
  }

  /** A file is kept exactly when it is in the input and normalises. */
  lemma {:induction false} SurvivorsMembers(files: seq<string>, probe: string -> Probe, f: string)
    ensures f in Survivors(files, probe) <==> f in files && Normalizes(probe(f))
  {
    if files != [] {
      SurvivorsMembers(files[1..], probe, f);
      assert files == [files[0]] + files[1..];
    }
  }

  /** The pages are, in order, the pages of exactly the files that normalise. */
  lemma {:induction false} PagesAreSurvivorPages(files: seq<string>, probe: string -> Probe)
    ensures |PagesFor(files, probe)| == |Survivors(files, probe)|
    ensures forall k | 0 <= k < |PagesFor(files, probe)| ::
              PagesFor(files, probe)[k]
              == PageFor(Survivors(files, probe)[k], probe(Survivors(files, probe)[k]))
  {
    if files != [] {
      var init, last := files[..|files| - 1], files[|files| - 1];
      PagesAreSurvivorPages(init, probe);
      assert files == init + [last];
      SurvivorsSnoc(init, last, probe);
    }
  }

  /** No page is made, and so nothing is saved, exactly when every file fails. */
  lemma NoPagesIffAllFail(files: seq<string>, probe: string -> Probe)
    ensures PagesFor(files, probe) == [] <==> forall f | f in files :: !Normalizes(probe(f))
  {
    PagesAreSurvivorPages(files, probe);
    if Survivors(files, probe) != [] {
      SurvivorsMembers(files, probe, Survivors(files, probe)[0]);
    } else {
      forall f | f in files ensures !Normalizes(probe(f)) {
        SurvivorsMembers(files, probe, f);
      }
    }
  }

  /** The loop of lines 51-79 and the save guard of line 81: `pages` is the page
      list and `saved` whether the PDF is written. */
  method CreateVisualReferencePdf(imageFiles: seq<string>, probe: string -> Probe)
    returns (pages: seq<Page>, saved: bool)
    ensures pages == PagesFor(imageFiles, probe)
    ensures saved <==> pages != []
  {
    pages := [];
    var i := 0;
    while i < |imageFiles|
      invariant 0 <= i <= |imageFiles|
      invariant pages == PagesFor(imageFiles[..i], probe)
    {
      var filename := imageFiles[i];
      assert imageFiles[..i + 1][..i] == imageFiles[..i];
      var p := probe(filename);
      var outcome := ProcessImage(p.decodes, p.mode, p.hasTransparency);
      i := i + 1;
      if outcome == Failed {
        continue;
      }
      var page := PageFor(filename, p);
      pages := pages + [page];
    }
    assert imageFiles[..i] == imageFiles;
    saved := pages != [];
  }
}
