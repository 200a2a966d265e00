/** `SkeletonExtractor` (deconstruct.py): the relationship resolver that maps
    relationship ids to image file names, and the walk over the paragraphs
    that emits image anchors and structural text lines. The document model
    library is replaced by its two read-only views: paragraphs as
    (text, style name, raw xml) records and the relationship table as
    (rId, target_ref) pairs. */
module Skeleton {
  import opened Text
  import opened Seqs

  datatype Relationship = Relationship(rId: string, targetRef: string)

  /** `para.text`, `para.style.name` and `para._p.xml`. */
  datatype Paragraph = Paragraph(text: string, styleName: string, xml: string)

  /** An insertion-ordered dictionary: (key, value) pairs in insertion order. */
  type Dict = seq<(string, string)>

  /** The relationship table is a dictionary keyed by rId. */
  ghost predicate DistinctRIds(rels: seq<Relationship>) {
    forall i, j | 0 <= i < j < |rels| :: rels[i].rId != rels[j].rId
  }

  ghost predicate DistinctKeys(d: Dict) {
    forall i, j | 0 <= i < j < |d| :: d[i].0 != d[j].0
  }

  function KeyIndex(d: Dict, k: string): (r: int)
    ensures -1 <= r < |d|
    ensures r >= 0 ==> d[r].0 == k
    ensures r < 0 ==> forall i | 0 <= i < |d| :: d[i].0 != k
  {
    if d == [] then -1
    else if d[|d| - 1].0 == k then |d| - 1
    else KeyIndex(d[..|d| - 1], k)
  }

  /** `d[k] = v`: an existing key keeps its place and gets the new value; a new
      key goes at the end. */
  function Put(d: Dict, k: string, v: string): (r: Dict)
    ensures KeyIndex(d, k) >= 0 ==> |r| == |d| && r[KeyIndex(d, k)] == (k, v)
                                    && forall i | 0 <= i < |d| && i != KeyIndex(d, k) :: r[i] == d[i]
    ensures KeyIndex(d, k) < 0 ==> r == d + [(k, v)]
  {
    var i := KeyIndex(d, k);
    if i >= 0 then d[i := (k, v)] else d + [(k, v)]
  }

  /** The test on line 103. */
  predicate IsImageRel(rel: Relationship) {
    Contains(rel.targetRef, "image")
  }

  /** The dictionary after the loop of lines 102-106 has seen `rels`, starting
      from `d`. */
  function MapRelsFrom(d: Dict, rels: seq<Relationship>): Dict {
    if rels == [] then d
    else
      var prev := MapRelsFrom(d, rels[..|rels| - 1]);
      var rel := rels[|rels| - 1];
      if IsImageRel(rel) then Put(prev, rel.rId, Basename(rel.targetRef)) else prev
  }

  /** The entry an image relationship contributes: its rId and the text after
      the last `/` of its target. */
  function EntryOf(rel: Relationship): (e: (string, string))
    ensures e.0 == rel.rId
  {
    (rel.rId, Basename(rel.targetRef))
  }

  /** Reference description of the resolver: for each image relationship, in
      table order, its entry. */
  function ImageEntries(rels: seq<Relationship>): Dict {
    FilterMap(rels, IsImageRel, EntryOf)
  }

  lemma ImageEntriesSnoc(rels: seq<Relationship>, rel: Relationship)
    ensures ImageEntries(rels + [rel])
            == ImageEntries(rels) + (if IsImageRel(rel) then [(rel.rId, Basename(rel.targetRef))] else [])
  {
    FilterMapSnoc(rels, rel, IsImageRel, EntryOf);
  }

  /** Each entry comes from an image relationship with that rId and the
      basename of its target, and each image relationship gives an entry. */
  lemma ImageEntriesMembers(rels: seq<Relationship>, k: string, v: string)
    ensures (k, v) in ImageEntries(rels)
            <==> exists j | 0 <= j < |rels| :: rels[j].rId == k && IsImageRel(rels[j])
                                               && v == Basename(rels[j].targetRef)
  {
    FilterMapMembers(rels, IsImageRel, EntryOf, (k, v));
  }

  /** With distinct rIds, the loop only ever appends, so the resolver's
      dictionary is exactly the reference list. */
  lemma {:induction false} MapRelsFromEmpty(rels: seq<Relationship>)
    requires DistinctRIds(rels)
    ensures MapRelsFrom([], rels) == ImageEntries(rels)
  {
    if rels != [] {
      var init, last := rels[..|rels| - 1], rels[|rels| - 1];
      assert DistinctRIds(init);
      MapRelsFromEmpty(init);
      assert rels == init + [last];
      ImageEntriesSnoc(init, last);
      if IsImageRel(last) {
        var d := ImageEntries(init);
        forall i | 0 <= i < |d| ensures d[i].0 != last.rId {
          EntryFromEarlier(rels, d, i);
        }
        PutNewKey(d, last.rId, Basename(last.targetRef));
      }
    }
  }

  /** An entry built from all but the last relationship has another rId than
      the last one. */
  lemma EntryFromEarlier(rels: seq<Relationship>, d: Dict, i: int)
    requires DistinctRIds(rels) && rels != []
    requires d == ImageEntries(rels[..|rels| - 1]) && 0 <= i < |d|
    ensures d[i].0 != rels[|rels| - 1].rId
  {
    var init, last := rels[..|rels| - 1], rels[|rels| - 1];
    var e := d[i];
    assert e in FilterMap(init, IsImageRel, EntryOf);
    FilterMapMembers(init, IsImageRel, EntryOf, e);
    var j :| 0 <= j < |init| && IsImageRel(init[j]) && EntryOf(init[j]) == e;
    assert rels[j] == init[j] && j < |rels| - 1;
    assert rels[j].rId != last.rId;
  }

  /** Storing under a key the dictionary does not hold appends the entry. */
  lemma PutNewKey(d: Dict, k: string, v: string)
    requires forall i | 0 <= i < |d| :: d[i].0 != k
    ensures Put(d, k, v) == d + [(k, v)]
  {
  }

  /** The resolver's dictionary has one entry per image relationship, keyed by
      its rId and holding the text after the last `/` of its target, and no
      other entry; its keys are distinct. */
  lemma ResolverContents(rels: seq<Relationship>, k: string, v: string)
    requires DistinctRIds(rels)
    ensures (k, v) in MapRelsFrom([], rels)
            <==> exists j | 0 <= j < |rels| :: rels[j].rId == k && IsImageRel(rels[j])
                                               && v == Basename(rels[j].targetRef)
    ensures DistinctKeys(MapRelsFrom([], rels))
  {
    MapRelsFromEmpty(rels);
    ImageEntriesMembers(rels, k, v);
    var d := ImageEntries(rels);
    forall i, j | 0 <= i < j < |d| ensures d[i].0 != d[j].0 {
      assert d[i] in d && d[j] in d;
      ImageEntriesMembers(rels, d[i].0, d[i].1);
      ImageEntriesMembers(rels, d[j].0, d[j].1);
      ImageEntriesDistinctPositions(rels, i, j);
    }
  }

  /** Two entries of the reference list come from two different relationships. */
  lemma ImageEntriesDistinctPositions(rels: seq<Relationship>, i: int, j: int)
    requires DistinctRIds(rels)
    requires 0 <= i < j < |ImageEntries(rels)|
    ensures ImageEntries(rels)[i].0 != ImageEntries(rels)[j].0
  {
    FilterMapOrigins(rels, IsImageRel, EntryOf, i, j);
    var a, b :| 0 <= a < b < |rels| && ImageEntries(rels)[i] == EntryOf(rels[a])
                                    && ImageEntries(rels)[j] == EntryOf(rels[b]);
  }

  // Skeleton lines.

  /** The style prefix of lines 119-123: the first test that matches wins. */
  function StylePrefix(style: string): (p: string)
    ensures p == "# " <==> StartsWith(style, "Heading 1")
    ensures p == "## " <==> StartsWith(style, "Heading 2")
    ensures p == "### " <==> StartsWith(style, "Heading 3")
    ensures p == "- " <==> !StartsWith(style, "Heading 1") && !StartsWith(style, "Heading 2")
                           && !StartsWith(style, "Heading 3") && Contains(style, "List")
    ensures p == "" || p == "# " || p == "## " || p == "### " || p == "- "
  {
    if StartsWith(style, "Heading 1") then "# "
    else if StartsWith(style, "Heading 2") then "## "
    else if StartsWith(style, "Heading 3") then "### "
    else if Contains(style, "List") then "- "
    else ""
  }

  /** The anchor line of line 132. */
  function Anchor(filename: string): string {
    "\n> **[插入图片]** ID: <<" + filename + ">>\n"
  }

  /** The literal `r:embed="<rId>"` searched for on line 130. */
  function EmbedToken(rId: string): string {
    "r:embed=\"" + rId + "\""
  }

  /** The test on line 130: the entry's exact quoted embed token occurs in
      the xml. */
  function EmbeddedIn(xml: string): ((string, string)) -> bool {
    (e: (string, string)) => Contains(xml, EmbedToken(e.0))
  }

  function AnchorOf(e: (string, string)): string {
    Anchor(e.1)
  }

  /** The anchors the inner loop of lines 128-132 emits for a paragraph's xml
      over the dictionary entries `d`, in dictionary order: at most one per
      entry. */
  function AnchorsFor(xml: string, d: Dict): (anchors: seq<string>)
    ensures |anchors| <= |d|
  {
    FilterMap(d, EmbeddedIn(xml), AnchorOf)
  }

  /** The paragraph's text line, when its stripped text is not empty. */
  function TextLine(p: Paragraph): seq<string> {
    if Strip(p.text) != [] then [StylePrefix(p.styleName) + Strip(p.text)] else []
  }

  /** The anchors of one paragraph: none unless its xml holds `graphicData`. */
  function Anchors(p: Paragraph, d: Dict): seq<string> {
    if Contains(p.xml, "graphicData") then AnchorsFor(p.xml, d) else []
  }

  /** What one paragraph adds to `md_lines`: its anchors, then its text line. */
  function ParagraphLines(p: Paragraph, d: Dict): seq<string> {
    Anchors(p, d) + TextLine(p)
  }

  /** The lines `f` gives for each element of `xs`, concatenated in order. */
  function ConcatLines<T>(xs: seq<T>, f: T -> seq<string>): seq<string> {
    if xs == [] then [] else ConcatLines(xs[..|xs| - 1], f) + f(xs[|xs| - 1])
  }

  lemma {:induction false} ConcatLinesAppend<T>(a: seq<T>, b: seq<T>, f: T -> seq<string>)
    ensures ConcatLines(a + b, f) == ConcatLines(a, f) + ConcatLines(b, f)
  {
    if b == [] {
      assert a + b == a;
    } else {
      var ab := a + b;
      assert ab[..|ab| - 1] == a + b[..|b| - 1] && ab[|ab| - 1] == b[|b| - 1];
      ConcatLinesAppend(a, b[..|b| - 1], f);
    }
  }

  /** `md_lines` after the outer loop has seen `paras`. */
  function SkeletonLines(paras: seq<Paragraph>, d: Dict): seq<string> {
    ConcatLines(paras, p => ParagraphLines(p, d))
  }

  /** The text `extract_to_markdown` returns. */
  function Markdown(paras: seq<Paragraph>, d: Dict): string {
    Join(SkeletonLines(paras, d), "\n\n")
  }

  /** An anchor names file `f` exactly when some dictionary entry maps to `f`
      and its exact quoted embed token occurs in the xml. */
  lemma AnchorsForMembers(xml: string, d: Dict, f: string)
    ensures Anchor(f) in AnchorsFor(xml, d)
            <==> exists i | 0 <= i < |d| :: d[i].1 == f && Contains(xml, EmbedToken(d[i].0))
  {
    FilterMapMembers(d, EmbeddedIn(xml), AnchorOf, Anchor(f));
    forall i | 0 <= i < |d| ensures AnchorOf(d[i]) == Anchor(f) <==> d[i].1 == f {
      AnchorInjective(d[i].1, f);
    }
  }

  lemma AnchorInjective(f: string, g: string)
    ensures Anchor(f) == Anchor(g) <==> f == g
  {
    var pre := "\n> **[插入图片]** ID: <<";
    if Anchor(f) == Anchor(g) {
      assert Anchor(f) == pre + f + ">>\n" && Anchor(g) == pre + g + ">>\n";
      assert |f| == |g|;
      assert forall i | 0 <= i < |f| :: f[i] == Anchor(f)[|pre| + i] == Anchor(g)[|pre| + i] == g[i];
    }
  }

  /** One anchor per entry whose token occurs in the xml. */
  lemma AnchorsForCount(xml: string, d: Dict)
    ensures |AnchorsFor(xml, d)| == |Filter(d, EmbeddedIn(xml))|
  {
    FilterMapLength(d, EmbeddedIn(xml), AnchorOf);
  }

  /** Anchors keep dictionary order: of two anchors, the earlier comes from an
      earlier entry, and both entries' tokens occur in the xml. */
  lemma AnchorsInOrder(xml: string, d: Dict, i: int, j: int)
    requires 0 <= i < j < |AnchorsFor(xml, d)|
    ensures exists a, b | 0 <= a < b < |d| :: && Contains(xml, EmbedToken(d[a].0))
                                               && AnchorsFor(xml, d)[i] == Anchor(d[a].1)
                                               && Contains(xml, EmbedToken(d[b].0))
                                               && AnchorsFor(xml, d)[j] == Anchor(d[b].1)
  {
    var keep := EmbeddedIn(xml);
    FilterMapOrigins(d, keep, AnchorOf, i, j);
    var a, b :| && 0 <= a < b < |d|
                && keep(d[a]) && AnchorsFor(xml, d)[i] == AnchorOf(d[a])
                && keep(d[b]) && AnchorsFor(xml, d)[j] == AnchorOf(d[b]);
    assert Contains(xml, EmbedToken(d[a].0)) && Contains(xml, EmbedToken(d[b].0));
  }

  /** A paragraph adds nothing exactly when its stripped text is empty and it
      has no graphic with a matching embed token. */
  lemma ParagraphSilent(p: Paragraph, d: Dict)
    ensures ParagraphLines(p, d) == []
            <==> Strip(p.text) == []
                 && (!Contains(p.xml, "graphicData")
                     || forall i | 0 <= i < |d| :: !Contains(p.xml, EmbedToken(d[i].0)))
  {
    if Contains(p.xml, "graphicData") {
      var anchors := AnchorsFor(p.xml, d);
      if anchors == [] {
        forall i | 0 <= i < |d| ensures !Contains(p.xml, EmbedToken(d[i].0)) {
          AnchorsForMembers(p.xml, d, d[i].1);
        }
      } else {
        AnchorsAreEntries(p.xml, d, 0);
      }
    }
  }

  /** The anchors come first and the text line, when there is one, last. */
  lemma ParagraphTextLast(p: Paragraph, d: Dict)
    ensures Strip(p.text) != [] ==>
              ParagraphLines(p, d)[|ParagraphLines(p, d)| - 1] == StylePrefix(p.styleName) + Strip(p.text)
    ensures Strip(p.text) == [] ==> ParagraphLines(p, d) == Anchors(p, d)
  {
  }

  /** Every emitted anchor belongs to an entry whose token occurs in the xml. */
  lemma AnchorsAreEntries(xml: string, d: Dict, k: int)
    requires 0 <= k < |AnchorsFor(xml, d)|
    ensures exists i | 0 <= i < |d| :: AnchorsFor(xml, d)[k] == Anchor(d[i].1)
                                       && Contains(xml, EmbedToken(d[i].0))
  {
    var anchors := AnchorsFor(xml, d);
    assert anchors[k] in anchors;
    FilterMapMembers(d, EmbeddedIn(xml), AnchorOf, anchors[k]);
  }

  /** The skeleton of a document is the skeleton of its first part followed by
      that of the rest: lines keep paragraph order. */
  lemma SkeletonLinesAppend(a: seq<Paragraph>, b: seq<Paragraph>, d: Dict)
    ensures SkeletonLines(a + b, d) == SkeletonLines(a, d) + SkeletonLines(b, d)
  {
    ConcatLinesAppend(a, b, p => ParagraphLines(p, d));
  }

  /** The text of a document is the text of its first part, one blank line,
      and the text of the rest, when both parts add lines; a part that adds no
      line adds no text. */
  lemma MarkdownAppend(a: seq<Paragraph>, b: seq<Paragraph>, d: Dict)
    ensures SkeletonLines(a, d) == [] ==> Markdown(a + b, d) == Markdown(b, d)
    ensures SkeletonLines(b, d) == [] ==> Markdown(a + b, d) == Markdown(a, d)
    ensures SkeletonLines(a, d) != [] && SkeletonLines(b, d) != [] ==>
              Markdown(a + b, d) == Markdown(a, d) + "\n\n" + Markdown(b, d)
  {
    var la, lb := SkeletonLines(a, d), SkeletonLines(b, d);
    SkeletonLinesAppend(a, b, d);
    if la == [] {
      assert la + lb == lb;
    } else if lb == [] {
      assert la + lb == la;
    } else {
      JoinAppend(la, lb, "\n\n");
    }
  }

  /** One more paragraph adds its own lines at the end. */
  lemma SkeletonLinesSnoc(ps: seq<Paragraph>, p: Paragraph, d: Dict)
    ensures SkeletonLines(ps + [p], d) == SkeletonLines(ps, d) + ParagraphLines(p, d)
  {
    var ab := ps + [p];
    assert ab[..|ab| - 1] == ps && ab[|ab| - 1] == p;
  }

  lemma SkeletonLinesStep(ps: seq<Paragraph>, n: int, d: Dict)
    requires 0 <= n < |ps|
    ensures SkeletonLines(ps[..n + 1], d) == SkeletonLines(ps[..n], d) + ParagraphLines(ps[n], d)
  {
    assert ps[..n + 1] == ps[..n] + [ps[n]];
    SkeletonLinesSnoc(ps[..n], ps[n], d);
  }

  /** `r:embed="<a>"` occurs in `r:embed="<b>"` only when `a` is `b`, for ids
      without quotes: the closing quote keeps `rId1` from matching `rId10`. */
  lemma EmbedTokenExact(a: string, b: string)
    requires '"' !in a && '"' !in b
    ensures Contains(EmbedToken(b), EmbedToken(a)) <==> a == b
  {
    var ta, tb := EmbedToken(a), EmbedToken(b);
    ContainsIff(tb, ta);
    if Contains(tb, ta) {
      var i :| OccursAt(tb, ta, i);
      assert ta[8] == '"' && ta[|ta| - 1] == '"';
      assert tb[i + 8] == '"' && tb[i + |ta| - 1] == '"';
      assert forall m | 9 <= m < |tb| - 1 :: tb[m] == b[m - 9];
      assert i + 8 == 8 || i + 8 == |tb| - 1;
      assert i == 0;
      assert i + |ta| - 1 == |tb| - 1;
      assert |a| == |b|;
      assert forall m | 0 <= m < |a| :: a[m] == ta[m + 9] == tb[m + 9] == b[m];
    } else {
      assert OccursAt(tb, tb, 0);
    }
  }

  /** The example of a paragraph holding `rId10`'s image: the token of `rId1`
      does not occur in it. */
  lemma Rid10IsNotRid1()
    ensures !Contains(EmbedToken("rId10"), EmbedToken("rId1"))
  {
    EmbedTokenExact("rId1", "rId10");
  }

  /** A document of one paragraph that embeds one image: the output is the
      anchor, one blank line, and the paragraph's text line. */
  lemma SingleImageRoundTrip(text: string, style: string, xml: string, rId: string, filename: string)
    requires Contains(xml, "graphicData") && Contains(xml, EmbedToken(rId))
    requires Strip(text) != []
    ensures Markdown([Paragraph(text, style, xml)], [(rId, filename)])
            == Anchor(filename) + "\n\n" + StylePrefix(style) + Strip(text)
  {
    var d: Dict := [(rId, filename)];
    var p := Paragraph(text, style, xml);
    var a, t := Anchor(filename), StylePrefix(style) + Strip(text);
    SingleImageLines(p, rId, filename);
    SkeletonOfOne(p, d);
    JoinTwo(a, t, "\n\n");
    assert a + "\n\n" + t == a + "\n\n" + StylePrefix(style) + Strip(text);
  }

  lemma SingleImageLines(p: Paragraph, rId: string, filename: string)
    requires Contains(p.xml, "graphicData") && Contains(p.xml, EmbedToken(rId))
    requires Strip(p.text) != []
    ensures ParagraphLines(p, [(rId, filename)]) == [Anchor(filename), StylePrefix(p.styleName) + Strip(p.text)]
  {
    AnchorsForOne(p.xml, rId, filename);
  }

  lemma AnchorsForOne(xml: string, rId: string, filename: string)
    requires Contains(xml, EmbedToken(rId))
    ensures AnchorsFor(xml, [(rId, filename)]) == [Anchor(filename)]
  {
    var d: Dict := [(rId, filename)];
    assert d[1..] == [];
  }

  lemma SkeletonOfOne(p: Paragraph, d: Dict)
    ensures SkeletonLines([p], d) == ParagraphLines(p, d)
  {
    SkeletonLinesSnoc([], p, d);
    assert [] + [p] == [p];
  }

  /** A plain-styled paragraph with blank text and no graphic adds no line. */
  lemma BlankParagraphIsSilent(text: string, style: string, xml: string, d: Dict)
    requires forall i | 0 <= i < |text| :: IsSpace(text[i])
    requires !Contains(xml, "graphicData")
    ensures ParagraphLines(Paragraph(text, style, xml), d) == []
  {
    StripSpec(text);
  }

  /** A string that lacks the first character of `sub` does not contain it. */
  lemma FirstCharAbsent(s: string, sub: string)
    requires sub != [] && forall i | 0 <= i < |s| :: s[i] != sub[0]
    ensures !Contains(s, sub)
  {
    ContainsIff(s, sub);
    forall i ensures !OccursAt(s, sub, i) {
      if 0 <= i && i + |sub| <= |s| {
        assert s[i..i + |sub|][0] == s[i];
      }
    }
  }

  /** The style table on named examples: `Heading 10` still gets the level-1
      marker, `Heading 2` the level-2 one, and `List Paragraph` the list one. */
  lemma StylePrefixExamples()
    ensures StylePrefix("Heading 10") == "# "
    ensures StylePrefix("Heading 2") == "## "
    ensures StylePrefix("List Paragraph") == "- "
    ensures StylePrefix("Normal") == ""
  {
    assert StartsWith("Heading 10", "Heading 1");
    assert StartsWith("List Paragraph", "List");
    FirstCharAbsent("Normal", "List");
  }

  /** Lines 127-132: when the paragraph's xml holds a graphic, one anchor per
      dictionary entry whose embed token occurs in it, in dictionary order. */
  method EmitAnchors(mdLines: seq<string>, para: Paragraph, d: Dict) returns (out: seq<string>)
    ensures out == mdLines + Anchors(para, d)
  {
    out := mdLines;
    if Contains(para.xml, "graphicData") {
      var j := 0;
      while j < |d|
        invariant 0 <= j <= |d|
        invariant out == mdLines + AnchorsFor(para.xml, d[..j])
      {
        var (rId, filename) := d[j];
        assert d[..j + 1] == d[..j] + [d[j]];
        FilterMapSnoc(d[..j], d[j], EmbeddedIn(para.xml), AnchorOf);
        if Contains(para.xml, EmbedToken(rId)) {
          out := out + [Anchor(filename)];
        }
        j := j + 1;
      }
      assert d[..j] == d;
    }
  }

  /** Lines 115-123 and 134-135: the stripped text, prefixed by the style's
      marker, when it is not empty. */
  method EmitTextLine(mdLines: seq<string>, para: Paragraph) returns (out: seq<string>)
    ensures out == mdLines + TextLine(para)
  {
    out := mdLines;
    var text := Strip(para.text);
    var prefix := StylePrefix(para.styleName);
    if text != [] {
      out := out + [prefix + text];
    }
  }

  /** The body of the outer loop of lines 114-135 for one paragraph: its
      anchors, then its text line. */
  method EmitParagraph(mdLines: seq<string>, para: Paragraph, d: Dict) returns (out: seq<string>)
    ensures out == mdLines + ParagraphLines(para, d)
  {
    out := EmitAnchors(mdLines, para, d);
    out := EmitTextLine(out, para);
  }

  class SkeletonExtractor {
    /** `self.doc.paragraphs` and `self.rels`, read-only after construction. */
    const paragraphs: seq<Paragraph>
    const rels: seq<Relationship>
    /** `self.rId_to_filename`. */
    var rIdToFilename: Dict

    /** `__init__`: keeps the document's two views and runs the resolver. */
    constructor (paragraphs: seq<Paragraph>, rels: seq<Relationship>)
      requires DistinctRIds(rels)
      ensures this.paragraphs == paragraphs && this.rels == rels
      ensures rIdToFilename == ImageEntries(rels)
    {
      this.paragraphs := paragraphs;
      this.rels := rels;
      rIdToFilename := [];
      new;
      MapRels();
      MapRelsFromEmpty(rels);
    }

    /** `_map_rels`: records every image relationship in the dictionary. */
    method MapRels()
      modifies this`rIdToFilename
      ensures rIdToFilename == MapRelsFrom(old(rIdToFilename), rels)
    {
      var i := 0;
      while i < |rels|
        invariant 0 <= i <= |rels|
        invariant rIdToFilename == MapRelsFrom(old(rIdToFilename), rels[..i])
      {
        var rel := rels[i];
        assert rels[..i + 1][..i] == rels[..i];
        if Contains(rel.targetRef, "image") {
          var filename := Basename(rel.targetRef);
          rIdToFilename := Put(rIdToFilename, rel.rId, filename);
        }
        i := i + 1;
      }
      assert rels[..i] == rels;
    }

    /** `extract_to_markdown`: the skeleton text of the whole document. */
    method ExtractToMarkdown() returns (md: string)
      ensures md == Markdown(paragraphs, rIdToFilename)
    {
      var d := rIdToFilename;
      var mdLines: seq<string> := [];
      var n := 0;
      while n < |paragraphs|
        invariant 0 <= n <= |paragraphs|
        invariant mdLines == SkeletonLines(paragraphs[..n], d)
      {
        mdLines := EmitParagraph(mdLines, paragraphs[n], d);
        SkeletonLinesStep(paragraphs, n, d);
        n := n + 1;
      }
      assert paragraphs[..n] == paragraphs;
      md := Join(mdLines, "\n\n");
    }
  }
}
