# deconstruct.py: a Dafny model

A model of the structural decomposition engine in `deconstruct.py`. The
program takes a `.docx` document apart into three artifacts:

- the embedded raster images;
- `skeleton.md`, the paragraph text with heading and list markers and an anchor
  line wherever a paragraph embeds an image;
- paginated "visual reference" PDFs, with one labelled page per image and at
  most fifty images per PDF.

The model keeps the program's decisions and turns the library calls into plain
inputs:

- a document is a sequence of paragraphs `(text, style name, raw xml)` plus a
  relationship table of `(rId, target_ref)` pairs;
- the media folder listing is an optional sequence of file names;
- what the imaging library would report about a file is a `Probe` given per
  name: whether opening it and loading its pixels succeed, its mode, its
  `transparency` entry, the caption's size and the size after `thumbnail`.

Modules, in dependency order:

- `Text` (text.dfy): the Python string operations the program relies on, over
  ASCII. These are `isdigit`, `lower`, `in`, `startswith`, `os.path.basename`,
  `strip` and `str.join`.
- `Seqs` (seqs.dfy): list comprehensions with a filter, and with a filter and
  a mapping.
- `NaturalSort` (natural_sort.dfy): `natural_sort_key`, the order Python's list
  comparison gives its keys, and the stable sort of line 174.
- `ImageNormalizer` (image_normalizer.dfy): the mode branch of
  `process_image_for_ai`.
- `VisualReference` (visual_reference.dfy): the page loop and the layout
  arithmetic of `create_visual_reference_pdf`.
- `Skeleton` (skeleton.dfy): the class `SkeletonExtractor`, with the resolver
  `_map_rels` that fills the `rId_to_filename` field and the paragraph walk
  `extract_to_markdown`.
- `Orchestrator` (orchestrator.dfy): `main`. This covers the document name,
  the extension filter and sort, the cut into parts of fifty, the part loop
  with its PDF names, and the content of `skeleton.md`.

The loops of the source are loops here, each proved against a function that
describes its result:

- `_map_rels` and `extract_to_markdown` are methods of the class
  `SkeletonExtractor`, which owns the `rIdToFilename` field;
- the page loop is `CreateVisualReferencePdf`;
- the part loop is `GenerateVisualRefs`.

Facts about those functions are lemmas: the resolver's contents, the anchors'
order and exactness, the chunking round trip, the count of saved PDFs, and the
key order.

Three behaviours of the code that are easy to misread:

- An `LA` image takes the compositing branch. Line 33 then asks for band 3,
  which a two-band image lacks, so the `except` of lines 37-39 returns `None`.
  The model gives `Failed`, not a composite.
- The anchor line is `"\n> **[插入图片]** ID: <<" + filename + ">>\n"` as on
  line 132. It has the Chinese label and a newline on each side.
- The heading tests are `startswith`, so `Heading 10` gets `"# "`.

## Model

| member | source | states |
|---|---|---|
| Text.Lower | deconstruct.py:16 | lower-casing maps each character, position by position, to its lower-case form; the result has no upper-case letter and keeps every digit a digit and every non-digit a non-digit |
| Text.ContainsIff | deconstruct.py:130 | the `in` test on strings holds exactly when the needle occurs at some position of the haystack |
| Text.Basename | deconstruct.py:105 | the base name is a suffix of the path, holds no `/`, and is either the whole path or preceded by a `/` |
| Text.BasenameAfterSlash | deconstruct.py:105 | the base name of a plain name (no `/`, not empty) appended to an empty path or to one ending in `/` is that name |
| Text.TrimStart | deconstruct.py:115 | drops exactly a whitespace prefix and leaves a result that is empty or starts with a non-space |
| Text.TrimEnd | deconstruct.py:115 | drops exactly a whitespace suffix and leaves a result that is empty or ends with a non-space |
| Text.StripSpec | deconstruct.py:115 | `strip()` is a contiguous window of the text with only whitespace outside it and a non-space at both ends; it is empty exactly when the text is all whitespace |
| Text.JoinAppend | deconstruct.py:137 | joining two non-empty line lists is joining each and putting one separator between them |
| Seqs.FilterCount | deconstruct.py:173 | a filtering comprehension keeps every passing element as often as it occurs and drops every failing one |
| Seqs.FilterMapMembers | deconstruct.py:102-106 | a value is in a filtered, mapped list exactly when it is the image of some passing element |
| NaturalSort.SplitRunsConcat | deconstruct.py:17 | the runs `SplitRuns(s)` gives, as `re.split(r'(\d+)', s)` does, concatenate back to `s` |
| NaturalSort.SplitRunsShape | deconstruct.py:17 | the runs of `SplitRuns(s)` alternate: an odd number of them, digit-free runs at even positions, non-empty digit runs at odd positions, and only the first and last run may be empty; a name starting with a non-digit has a non-empty first run |
| NaturalSort.SplitConcatInverse | deconstruct.py:17 | splitting a concatenation of alternating runs gives back those runs |
| NaturalSort.SplitRunsLast | deconstruct.py:17 | a name ending in a non-digit has a non-empty last run in `SplitRuns` |
| NaturalSort.SplitAround | deconstruct.py:17 | when a digit run has a non-digit or nothing on each side, `SplitRuns` of the whole name is the runs of the part before, that digit run, and the runs of the part after |
| NaturalSort.KeyOfRuns | deconstruct.py:16 | one token per run; on runs shaped as a split, text tokens stand exactly at the even positions and integer tokens at the odd ones |
| NaturalSort.KeyShape | deconstruct.py:14-17 | `NaturalKey(s)`, the key `natural_sort_key` returns, has odd length; even positions are lower-case digit-free strings and odd positions are integers parsed from digit runs |
| NaturalSort.KeysComparable | deconstruct.py:14-17 | two keys hold the same kind of token at every common position, so comparing them never compares a string with an integer |
| NaturalSort.KeyLessAfterPrefix | deconstruct.py:174 | `KeyLess`, Python's comparison of key lists: after a common prefix the first differing token decides, whatever follows |
| NaturalSort.KeyLessIrreflexive | deconstruct.py:174 | no key sorts before itself |
| NaturalSort.KeyLessTransitive | deconstruct.py:174 | the key order is transitive |
| NaturalSort.KeyLessTotal | deconstruct.py:174 | of two different keys one sorts before the other |
| NaturalSort.KeyLessAsymmetric | deconstruct.py:174 | of two keys at most one sorts before the other |
| NaturalSort.KeyLeTotal | deconstruct.py:174 | any two names are ordered one way or the other by their keys |
| NaturalSort.KeyLeTransitive | deconstruct.py:174 | the order on names by key is transitive |
| NaturalSort.NumberDecides | deconstruct.py:14-17 | two names that differ only in one maximal digit run, whatever text and numbers surround it, sort by that run's integer value |
| NaturalSort.Image2BeforeImage10 | deconstruct.py:15 | `image2.png` sorts strictly before `image10.png` and not the other way round |
| NaturalSort.ChapterFigures | deconstruct.py:14-17 | `ch1_fig2.png` sorts before `ch1_fig10.png`: a later number decides once the earlier ones agree |
| NaturalSort.PlainOrderInverts | deconstruct.py:15 | plain string order puts `image10.png` first |
| NaturalSort.Insert | deconstruct.py:174 | insertion adds exactly one copy of the element |
| NaturalSort.InsertSorted | deconstruct.py:174 | inserting into a key-sorted list keeps it key-sorted |
| NaturalSort.SortNatural | deconstruct.py:174 | `sort(key=natural_sort_key)` returns a permutation of the list that is sorted by the key |
| ImageNormalizer.BandCount | deconstruct.py:33 | four-band modes (`RGBA`, `CMYK`) have a band 3 and two-band modes (`LA`, `PA`) do not |
| ImageNormalizer.ProcessImage | deconstruct.py:25-39 | composited exactly when the image opens and loads and is `RGBA` or a palette with `transparency`; converted exactly when it opens and loads and takes the other branch; `None` exactly when opening or loading fails or it is `LA` |
| VisualReference.TruncHalf | deconstruct.py:75 | `int(n / 2)` truncates toward zero: the remainder is 0 or 1 for non-negative `n` and 0 or -1 for negative `n` |
| VisualReference.PlaceImage | deconstruct.py:63-76 | the thumbnail box is 495 by `692 - text_h`, the caption is at `y = 50` and the image at `y = 70 + text_h` |
| VisualReference.PlacementCentred | deconstruct.py:75 | an image no wider than the page has left and right margins differing by at most one |
| VisualReference.PlacementFits | deconstruct.py:70-77 | an image that fits the thumbnail box lies inside the 50-unit margins, one gap below the caption |
| VisualReference.PageFor | deconstruct.py:63 | each page's caption is `ID: ` followed by the file name |
| VisualReference.PagesFor | deconstruct.py:51-79 | the page list has at most one page per file |
| VisualReference.SurvivorsMembers | deconstruct.py:51-56 | a file is kept exactly when it is in the input and its normalisation does not return `None` |
| VisualReference.PagesAreSurvivorPages | deconstruct.py:51-79 | the page list `PagesFor` is, in input order, the pages of exactly the files that normalise |
| VisualReference.NoPagesIffAllFail | deconstruct.py:79-82 | the page list is empty exactly when every file fails to normalise |
| VisualReference.CreateVisualReferencePdf | deconstruct.py:43-82 | the loop's page list is the reference page list and the PDF is saved exactly when that list is not empty |
| Skeleton.KeyIndex | deconstruct.py:106 | finds the position of a key in the dictionary, or reports that no entry has that key |
| Skeleton.Put | deconstruct.py:106 | `d[k] = v` overwrites an existing key in place and leaves every other entry; a new key is appended |
| Skeleton.MapRelsFromEmpty | deconstruct.py:102-106 | with distinct rIds, `MapRelsFrom([], rels)`, the dictionary the resolver loop builds, is exactly the list of image relationships' entries, in table order |
| Skeleton.ImageEntriesMembers | deconstruct.py:102-106 | an entry is listed exactly when an image relationship has that rId and that base name |
| Skeleton.ImageEntriesDistinctPositions | deconstruct.py:102-106 | two positions of the entry list have different rIds |
| Skeleton.ResolverContents | deconstruct.py:102-106 | the resolver's dictionary `MapRelsFrom([], rels)` holds `(k, v)` exactly when some relationship with rId `k` has "image" in its target and `v` is the target's base name; its keys are distinct |
| Skeleton.StylePrefix | deconstruct.py:119-123 | each marker is chosen exactly when its test is the first to match: `startswith` Heading 1, 2, 3, then `List` anywhere; otherwise no marker |
| Skeleton.StylePrefixExamples | deconstruct.py:119-123 | `Heading 10` gets `# `, `Heading 2` `## `, `List Paragraph` `- ` and `Normal` nothing |
| Skeleton.EmbedTokenExact | deconstruct.py:130 | for quote-free ids, `r:embed="a"` occurs in `r:embed="b"` exactly when `a` is `b` |
| Skeleton.Rid10IsNotRid1 | deconstruct.py:130 | the token of `rId1` does not occur in the token of `rId10` |
| Skeleton.AnchorsForMembers | deconstruct.py:128-132 | `AnchorsFor` holds an anchor for a file exactly when some dictionary entry maps to it and that entry's exact embed token occurs in the xml |
| Skeleton.AnchorsAreEntries | deconstruct.py:128-132 | every anchor in `AnchorsFor` is the anchor of an entry whose token occurs in the xml |
| Skeleton.AnchorsFor | deconstruct.py:128-132 | a paragraph gets at most one anchor per dictionary entry |
| Skeleton.AnchorsForCount | deconstruct.py:128-132 | `AnchorsFor` has exactly one anchor per dictionary entry whose token occurs in the xml |
| Skeleton.AnchorsInOrder | deconstruct.py:128-132 | of two anchors in `AnchorsFor`, the earlier comes from an earlier dictionary entry, and both entries' tokens occur in the xml |
| Skeleton.AnchorInjective | deconstruct.py:132 | two anchors are equal exactly when their file names are |
| Skeleton.ParagraphSilent | deconstruct.py:114-135 | a paragraph adds no line exactly when its stripped text is empty and it has no graphic or no matching embed token |
| Skeleton.ParagraphTextLast | deconstruct.py:127-135 | a paragraph's text line comes after all its anchors; without text it adds only its anchors |
| Skeleton.BlankParagraphIsSilent | deconstruct.py:115-135 | a whitespace-only paragraph without a graphic adds nothing |
| Skeleton.SkeletonLinesAppend | deconstruct.py:114-135 | the lines of two consecutive runs of paragraphs are the lines of the first followed by those of the second |
| Skeleton.MarkdownAppend | deconstruct.py:114-137 | `Markdown`, the joined text, of two consecutive runs of paragraphs that both add lines is the text of the first, one blank line, and the text of the second; a run that adds no line adds no text |
| Skeleton.SingleImageRoundTrip | deconstruct.py:108-137 | one paragraph that embeds one mapped image gives that image's anchor, one blank line, then the prefixed text |
| Skeleton.EmitAnchors | deconstruct.py:127-132 | appends that paragraph's anchors, in dictionary order, to the lines so far |
| Skeleton.EmitTextLine | deconstruct.py:115-135 | appends the prefixed stripped text when it is not empty |
| Skeleton.EmitParagraph | deconstruct.py:114-135 | appends the paragraph's anchors and then its text line |
| Skeleton.SkeletonExtractor.constructor | deconstruct.py:90-95 | keeps the document's paragraphs and relationships, and leaves in `rIdToFilename` exactly the entries of the image relationships |
| Skeleton.SkeletonExtractor.MapRels | deconstruct.py:97-106 | the dictionary becomes the old one updated with every image relationship, in table order |
| Skeleton.SkeletonExtractor.ExtractToMarkdown | deconstruct.py:108-137 | the result is every paragraph's lines, in document order, joined with a blank line |
| Orchestrator.RFind | deconstruct.py:173 | the last position of a character, or -1 when it is absent |
| Orchestrator.SplitExt | deconstruct.py:173 | `splitext` splits the name into root and extension with nothing lost; the extension is empty exactly when no dot qualifies, and otherwise starts at the last dot that is after the last `/` and has a non-dot before it |
| Orchestrator.SplitExtExamples | deconstruct.py:173 | `image12.PNG` has extension `.PNG`, `.png` and `photo` have none, and `scan.tiff.bak` has `.bak` |
| Orchestrator.DocName | deconstruct.py:148 | the document name is the base name without its extension and holds no `/` |
| Orchestrator.FilterImages | deconstruct.py:172-173 | only names whose lower-cased extension is one of the six kept |
| Orchestrator.IsImageFileExamples | deconstruct.py:172-173 | `image12.PNG` passes the extension test; `photo`, `.png` and `scan.tiff.bak` do not |
| Orchestrator.ImageFiles | deconstruct.py:168-181 | no media folder gives no images; otherwise a list of image files sorted by the natural key |
| Orchestrator.ImageFilesArePermutation | deconstruct.py:172-174 | the kept list holds each image file exactly as often as the listing does, and nothing else |
| Orchestrator.TotalChunks | deconstruct.py:187 | `ceil(N / 50)`: the fewest parts of fifty that cover `N`, and zero exactly when `N` is zero |
| Orchestrator.Chunk | deconstruct.py:189 | slice `i` holds at most fifty names; it is empty when `50i` is past the end, and otherwise holds the names from position `50i` up to `50(i+1)` or the end, in order |
| Orchestrator.Chunks | deconstruct.py:186-189 | there are `ceil(N / 50)` slices |
| Orchestrator.ChunkSizes | deconstruct.py:186-189 | every slice is non-empty with at most fifty names, and all but the last have exactly fifty |
| Orchestrator.FlattenPrefix | deconstruct.py:188-189 | the first `k` slices concatenate to the first `min(50k, N)` names |
| Orchestrator.ChunksFlatten | deconstruct.py:188-189 | the slices concatenate back to the image list |
| Orchestrator.NatToString | deconstruct.py:190 | `str(n)` is a non-empty string of digits, with no leading zero unless `n` is zero |
| Orchestrator.NatToStringValue | deconstruct.py:190 | the digits of `str(n)` read back as `n` |
| Orchestrator.NatToStringInjective | deconstruct.py:190 | different part numbers have different decimal strings |
| Orchestrator.PdfName | deconstruct.py:190 | the PDF name is not empty and, for a document name without `/`, is a plain file name |
| Orchestrator.PdfNamesDistinct | deconstruct.py:190 | two parts' PDF names are equal exactly when their part numbers are |
| Orchestrator.PathJoin | deconstruct.py:149-151 | joining with an absolute second part gives that part; otherwise the first part stays the leading part of the result |
| Orchestrator.PathJoinBasename | deconstruct.py:190 | joining a plain, non-empty file name to a folder gives a path whose base name is that file name |
| Orchestrator.VisualRefPart | deconstruct.py:189-191 | part `i` takes slice `i`, writes to `<doc>_VisualRef_Part<i+1>.pdf` in the reference folder, and has the page list and save decision of its slice |
| Orchestrator.GenerateVisualRefs | deconstruct.py:184-191 | one report per part, in order, each as the part's expected report |
| Orchestrator.PartSavedIff | deconstruct.py:81-82 | a part's PDF is saved exactly when some file of its slice normalises |
| Orchestrator.PartPath | deconstruct.py:190 | part `k` is written inside the `visual_refs` folder, under the base name `<doc>_VisualRef_Part<k+1>.pdf` |
| Orchestrator.PdfCount | deconstruct.py:184-191 | the number of PDFs written is `ceil(N / 50)` less the number of slices whose every file fails |
| Orchestrator.SkeletonFile | deconstruct.py:200-202 | `skeleton.md` starts with the two-line header naming the document, and after it comes the skeleton text unchanged |
| Orchestrator.Deconstruct | deconstruct.py:143-202 | nothing happens exactly when the input is missing; otherwise the results are the document name, the sorted image files, one report per part in the `visual_refs` folder, and `skeleton.md` holding the extractor's Markdown |

## Left out

- Filesystem and archive work (`os.path.exists`, `rmtree`, `makedirs`, `zipfile` extraction, `listdir`, `move`, the file write of `skeleton.md`) is not modelled. The existence tests are inputs: `inputExists`, and `mediaListing`, which is `None` when the media folder is absent. The listing's own order is whatever the operating system returns, so it is an input.
- `python-docx` parsing (`Document`, `para.text`, `para.style.name`, `para._p.xml`, `part.rels`) is replaced by plain records of text, style name and raw xml, and by the relationship table as `(rId, target_ref)` pairs.
- Imaging-library work (`Image.open`, `convert`, `paste`, `split`, `thumbnail` with LANCZOS, font loading with its fallback, `textbbox`, the PDF `save`) is foreign and floating-point. The per-file `Probe` supplies what it would report, and a page is its caption and its coordinates rather than pixels. The caption's x position is kept as a real, `(595 - text_w) / 2`.
- `print` messages are not modelled.
- ImageNormalizer.ProcessImage: a `convert` or `paste` that raises for an exotic mode is not modelled; `decodes` covers a failure to open the file or to load its pixels. `BandCount` covers the common modes only.
- VisualReference.PlacementFits: `thumbnail` itself and its behaviour when `max_img_h <= 0` are not modelled. The thumbnailed size is an input, and the lemma assumes it fits the box.
- Text.Lower and the other character tests (`isdigit`, `lower`, `isspace`) cover ASCII only. Python's Unicode digits, case mapping and whitespace beyond ASCII are not modelled.
- Text.Basename, Orchestrator.DocName, Orchestrator.PathJoin and Orchestrator.SplitExt follow POSIX `/` separators. Windows drive letters and `\` are not modelled.
- Orchestrator.TotalChunks computes `ceil(len / 50)` exactly on integers; the floating-point division of line 187 agrees for any realistic image count.
- Skeleton.SkeletonExtractor.constructor requires distinct rIds, because `part.rels` is a dictionary keyed by rId. `MapRels` itself is stated for any table.
- NaturalSort.SortNatural is an insertion sort. It is proved sorted and a permutation; that it is stable, as Python's `list.sort` is, is not stated.
- Removing and rebuilding the output directory on a second run is not modelled.
