/**
 * `extract_article_details`: the exploratory extractor of the Sanskriti IAS
 * page that keeps every component of an article container — title and link,
 * the raw metadata table with its Prelims/Mains lines, each `h2` section as
 * typed blocks (paragraphs, lists, `h3` subsections, content tables), every
 * content image with its size and enclosing link, and the FAQ pairs.
 * It reads the same page as `SanskritiSource` but keeps more, and it differs
 * from it in three rules: the Mains line must start with `Mains:`/`Mains,`,
 * a question is told by its `strong` text, and list items count as answer text.
 */
module DetailedExtraction {
  import opened Wrappers
  import opened Text
  import opened Dom
  import opened Documents
  import SanskritiContent
  import SanskritiMetadata
  import SanskritiImages
  import SanskritiFaqs

  // ---------------------------------------------------------------------
  // Title and URL
  // ---------------------------------------------------------------------

  /** `title` and `url`; `url` is `None` when the `h4` has no `a.text-danger`. */
  datatype TitleInfo = TitleInfo(title: string, url: Option<string>)

  /**
   * Nothing when the container has no `h4`; otherwise the title link's
   * stripped text and its `href`, or, without a link, the `h4`'s own
   * stripped text and no URL.
   */
  function TitleOf(nodes: seq<Node>): (r: Option<TitleInfo>)
    ensures r.Some? <==> FindFirst(nodes, IsH4).Some?
    ensures r.Some? ==> IsStripped(r.value.title)
    ensures r.Some? ==> (r.value.url.Some? <==> nodes[FindFirst(nodes, IsH4).value].titleLink.Some?)
    ensures r.Some? && r.value.url.Some? ==>
              var link := nodes[FindFirst(nodes, IsH4).value].titleLink.value;
              r.value == TitleInfo(Strip(link.text), Some(link.href))
    ensures r.Some? && r.value.url.None? ==>
              r.value == TitleInfo(Strip(nodes[FindFirst(nodes, IsH4).value].text), None)
  {
    match FindFirst(nodes, IsH4)
    case None => None
    case Some(i) =>
      match nodes[i].titleLink
      case Some(link) => Some(TitleInfo(Strip(link.text), Some(link.href)))
      case None => Some(TitleInfo(Strip(nodes[i].text), None))
  }

  // ---------------------------------------------------------------------
  // Metadata table
  // ---------------------------------------------------------------------

  /** `metadata`, `prelims_tag` and `mains_tag`. */
  datatype MetadataInfo = MetadataInfo(text: Option<string>, prelims: Option<string>, mains: Option<string>)

  const NoTable := MetadataInfo(None, None, None)

  /** The text fragments of a row of cells, in order. */
  function RowFragments(row: seq<Cell>): seq<string>
    decreases |row|
  {
    if row == [] then [] else RowFragments(row[..|row| - 1]) + row[|row| - 1].fragments
  }

  /** The text fragments of a whole table, row by row. */
  function TableFragments(rows: seq<seq<Cell>>): seq<string>
    decreases |rows|
  {
    if rows == [] then [] else TableFragments(rows[..|rows| - 1]) + RowFragments(rows[|rows| - 1])
  }

  /** `table.get_text(separator=' ', strip=True)`. */
  function TableText(rows: seq<seq<Cell>>): string {
    Join(TableFragments(rows), " ")
  }

  /** The `elif` of this extractor: a line opening with `Mains:` or `Mains,`. */
  predicate IsMainsTagLine(line: string) {
    !SanskritiMetadata.IsPrelimsLine(line) && (StartsWith(line, "Mains:") || StartsWith(line, "Mains,"))
  }

  /** The `prelims` and `mains` variables of the line loop. */
  datatype Tags = Tags(prelims: Option<string>, mains: Option<string>)

  function TagStep(t: Tags, line: string): Tags {
    if SanskritiMetadata.IsPrelimsLine(line) then t.(prelims := Some(SanskritiMetadata.PrelimsValue(line)))
    else if IsMainsTagLine(line) then t.(mains := Some(SanskritiMetadata.MainsValue(line)))
    else t
  }

  function ParseTags(lines: seq<string>): Tags
    decreases |lines|
  {
    if lines == [] then Tags(None, None)
    else TagStep(ParseTags(lines[..|lines| - 1]), lines[|lines| - 1])
  }

  /** The metadata fields: all `None` without a `table.table-bordered`; the tags `None` without a `td`. */
  function MetadataOf(nodes: seq<Node>): (r: MetadataInfo)
    ensures r.text.Some? <==> FindFirst(nodes, IsMetadataTable).Some?
    ensures r.text.None? ==> r == NoTable
  {
    match FindFirst(nodes, IsMetadataTable)
    case None => NoTable
    case Some(i) =>
      var tags :=
        match FirstTd(nodes[i].rows)
        case None => Tags(None, None)
        case Some(td) => ParseTags(CellLines(td));
      MetadataInfo(Some(TableText(nodes[i].rows)), tags.prelims, tags.mains)
  }

  /** Step 2 of `extract_article_details`. */
  method ExtractMetadata(nodes: seq<Node>) returns (m: MetadataInfo)
    ensures m == MetadataOf(nodes)
  {
    var table := FindFirst(nodes, IsMetadataTable);
    if table.None? {
      return NoTable;
    }
    var rows := nodes[table.value].rows;
    var td := FirstTd(rows);
    var tags := Tags(None, None);
    if td.Some? {
      tags := ParseTagLines(CellLines(td.value));
    }
    m := MetadataInfo(Some(TableText(rows)), tags.prelims, tags.mains);
  }

  /** The line loop of step 2. */
  method ParseTagLines(lines: seq<string>) returns (tags: Tags)
    ensures tags == ParseTags(lines)
  {
    var prelims: Option<string> := None;
    var mains: Option<string> := None;
    var k := 0;
    while k < |lines|
      invariant 0 <= k <= |lines|
      invariant Tags(prelims, mains) == ParseTags(lines[..k])
    {
      var line := lines[k];
      assert lines[..k + 1][..k] == lines[..k];
      if StartsWith(line, "Prelims:") {
        prelims := Some(Strip(ReplaceAll(line, "Prelims:", "")));
      } else if StartsWith(line, "Mains:") || StartsWith(line, "Mains,") {
        mains := Some(Strip(ReplaceAll(ReplaceAll(line, "Mains:", ""), "Mains,", "")));
      }
      k := k + 1;
    }
    assert lines[..|lines|] == lines;
    tags := Tags(prelims, mains);
  }

  lemma {:induction false} LastPrelimsTagWins(lines: seq<string>)
    ensures ParseTags(lines).prelims
         == (match SanskritiMetadata.LastWhere(lines, SanskritiMetadata.IsPrelimsLine)
             case Some(k) => Some(SanskritiMetadata.PrelimsValue(lines[k])) case None => None)
    decreases |lines|
  {
    if lines != [] {
      var init := lines[..|lines| - 1];
      assert ParseTags(init).prelims
          == (match SanskritiMetadata.LastWhere(init, SanskritiMetadata.IsPrelimsLine)
              case Some(k) => Some(SanskritiMetadata.PrelimsValue(init[k])) case None => None)
      by {
        LastPrelimsTagWins(init);
      }
      if !SanskritiMetadata.IsPrelimsLine(lines[|lines| - 1]) {
        assert SanskritiMetadata.LastWhere(lines, SanskritiMetadata.IsPrelimsLine)
            == SanskritiMetadata.LastWhere(init, SanskritiMetadata.IsPrelimsLine);
        assert forall k :: 0 <= k < |init| ==> init[k] == lines[k];
      }
    }
  }

  lemma {:induction false} LastMainsTagWins(lines: seq<string>)
    ensures ParseTags(lines).mains
         == (match SanskritiMetadata.LastWhere(lines, IsMainsTagLine)
             case Some(k) => Some(SanskritiMetadata.MainsValue(lines[k])) case None => None)
    decreases |lines|
  {
    if lines != [] {
      var init := lines[..|lines| - 1];
      assert ParseTags(init).mains
          == (match SanskritiMetadata.LastWhere(init, IsMainsTagLine)
              case Some(k) => Some(SanskritiMetadata.MainsValue(init[k])) case None => None)
      by {
        LastMainsTagWins(init);
      }
      if !IsMainsTagLine(lines[|lines| - 1]) {
        assert SanskritiMetadata.LastWhere(lines, IsMainsTagLine) == SanskritiMetadata.LastWhere(init, IsMainsTagLine);
        assert forall k :: 0 <= k < |init| ==> init[k] == lines[k];
      }
    }
  }

  /** The Prelims tag is the value of the last `Prelims:` line, the Mains tag that of the last Mains line. */
  lemma LastTagLinesWin(lines: seq<string>)
    ensures ParseTags(lines).prelims
         == (match SanskritiMetadata.LastWhere(lines, SanskritiMetadata.IsPrelimsLine)
             case Some(k) => Some(SanskritiMetadata.PrelimsValue(lines[k])) case None => None)
    ensures ParseTags(lines).mains
         == (match SanskritiMetadata.LastWhere(lines, IsMainsTagLine)
             case Some(k) => Some(SanskritiMetadata.MainsValue(lines[k])) case None => None)
  {
    LastPrelimsTagWins(lines);
    LastMainsTagWins(lines);
  }

  /** Every Mains line of this extractor is one of the Sanskriti source. */
  lemma MainsTagLineIsMainsLine(line: string)
    requires IsMainsTagLine(line)
    ensures SanskritiMetadata.IsMainsLine(line)
  {
    ContainsAt(line, "Mains", 0);
    if StartsWith(line, "Mains:") {
      assert line[5..6] == ":";
      ContainsAt(line, ":", 5);
    } else {
      assert line[5..6] == ",";
      ContainsAt(line, ",", 5);
    }
  }

  /**
   * The converse fails: a `Mains:` label in mid-line (after a paper name, say)
   * is a Mains line of the Sanskriti source but not of this extractor.
   */
  lemma {:induction false} MidLineMainsDiffers(pre: string)
    requires pre != [] && pre[0] != 'M' && pre[0] != 'P'
    ensures SanskritiMetadata.IsMainsLine(pre + "Mains:")
    ensures !IsMainsTagLine(pre + "Mains:")
  {
    var line := pre + "Mains:";
    assert line[0] == pre[0];
    assert line[|pre|..|pre| + 5] == "Mains";
    ContainsAt(line, "Mains", |pre|);
    assert line[|pre| + 5..|pre| + 6] == ":";
    ContainsAt(line, ":", |pre| + 5);
  }

  // ---------------------------------------------------------------------
  // Sections as typed blocks
  // ---------------------------------------------------------------------

  datatype Block =
    | Paragraph(text: string)
    | ListBlock(listType: ListTag, items: seq<string>)
    | Subsection(title: string)
    | TableBlock(rows: seq<seq<string>>)

  datatype Section = Section(title: string, blocks: seq<Block>)

  /** What every block carries: text, an item, or a non-empty row. */
  predicate WellFormedBlock(b: Block) {
    match b
    case Paragraph(t) => t != []
    case ListBlock(_, items) => items != []
    case Subsection(_) => true
    case TableBlock(rows) => rows != [] && forall k :: 0 <= k < |rows| ==> rows[k] != []
  }

  /** `[td.get_text(strip=True) for td in tr.find_all(['td', 'th'])]`. */
  function RowTexts(row: seq<Cell>): (r: seq<string>)
    ensures |r| == |row|
    decreases |row|
  {
    if row == [] then [] else RowTexts(row[..|row| - 1]) + [CellText(row[|row| - 1])]
  }

  /** Cell `k` of a row gives text `k`, the stripped text of that cell. */
  lemma {:induction false} RowTextsAt(row: seq<Cell>, k: nat)
    requires k < |row|
    ensures RowTexts(row)[k] == CellText(row[k])
    decreases |row|
  {
    if k < |row| - 1 {
      RowTextsAt(row[..|row| - 1], k);
    }
  }

  /** The rows of a content table, rows without cells dropped. */
  function TableRows(rows: seq<seq<Cell>>): (r: seq<seq<string>>)
    ensures |r| <= |rows|
    ensures forall k :: 0 <= k < |r| ==> r[k] != []
    decreases |rows|
  {
    if rows == [] then []
    else
      var cells := RowTexts(rows[|rows| - 1]);
      TableRows(rows[..|rows| - 1]) + (if cells != [] then [cells] else [])
  }

  /** The rows of two runs of `tr`s are those of each, in order. */
  lemma {:induction false} TableRowsConcat(a: seq<seq<Cell>>, b: seq<seq<Cell>>)
    ensures TableRows(a + b) == TableRows(a) + TableRows(b)
    decreases |b|
  {
    if b == [] {
      assert a + b == a;
    } else {
      var init, last := b[..|b| - 1], b[|b| - 1];
      var cells := RowTexts(last);
      var tail := if cells != [] then [cells] else [];
      TableRowsConcat(a, init);
      assert (a + b)[..|a + b| - 1] == a + init;
      assert (a + b)[|a + b| - 1] == last;
      assert TableRows(a + b) == TableRows(a + init) + tail;
      assert TableRows(b) == TableRows(init) + tail;
    }
  }

  /**
   * Row `k` is kept, as the texts of its cells, exactly when it has a cell,
   * between the rows kept before and after it.
   */
  lemma TableRowsAt(rows: seq<seq<Cell>>, k: int)
    requires 0 <= k < |rows|
    ensures TableRows(rows)
            == TableRows(rows[..k])
               + (if rows[k] != [] then [RowTexts(rows[k])] else [])
               + TableRows(rows[k + 1..])
  {
    var before, x, after := rows[..k], rows[k], rows[k + 1..];
    SplitAround(rows, k);
    TableRowsConcat(before + [x], after);
    TableRowsConcat(before, [x]);
    assert [x][..0] == [];
  }

  /** The rows loop of a content table. */
  method ExtractTableRows(rows: seq<seq<Cell>>) returns (r: seq<seq<string>>)
    ensures r == TableRows(rows)
  {
    r := [];
    var k := 0;
    while k < |rows|
      invariant 0 <= k <= |rows|
      invariant r == TableRows(rows[..k])
    {
      assert rows[..k + 1][..k] == rows[..k];
      var cells := RowTexts(rows[k]);
      if cells != [] {
        r := r + [cells];
      }
      k := k + 1;
    }
    assert rows[..|rows|] == rows;
  }

  /** The block one sibling adds to a section: at most one, always well formed. */
  function BlockOf(n: Node): (r: seq<Block>)
    ensures |r| <= 1
    ensures forall k :: 0 <= k < |r| ==> WellFormedBlock(r[k])
    ensures IsMetadataTable(n) ==> r == []
  {
    match n
    case Para(text, _) => if text != [] then [Paragraph(text)] else []
    case ListNode(tag, items) => if items != [] then [ListBlock(tag, items)] else []
    case Heading(level, text, _) => if level == 3 then [Subsection(text)] else []
    case Table(classes, rows) =>
      if "table-bordered" !in classes && TableRows(rows) != [] then [TableBlock(TableRows(rows))] else []
    case _ => []
  }

  /** The blocks of the siblings `nodes[lo..hi]`, in order. */
  function BlocksBetween(nodes: seq<Node>, lo: nat, hi: nat): (r: seq<Block>)
    requires lo <= hi <= |nodes|
    ensures forall k :: 0 <= k < |r| ==> WellFormedBlock(r[k])
    decreases hi - lo
  {
    if hi == lo then [] else BlocksBetween(nodes, lo, hi - 1) + BlockOf(nodes[hi - 1])
  }

  /** The blocks of the section opened by `nodes[i]`: its siblings up to the next `h2`/`h4`. */
  function SectionBlocks(nodes: seq<Node>, i: nat): seq<Block>
    requires i < |nodes|
  {
    BlocksBetween(nodes, i + 1, ScanEnd(nodes, i + 1))
  }

  /** The section `nodes[i]` yields: only a non-FAQ `h2` whose scan found a block. */
  function SectionAt(nodes: seq<Node>, i: nat): seq<Section>
    requires i < |nodes|
  {
    if SanskritiContent.IsSectionHeading(nodes[i]) && SectionBlocks(nodes, i) != []
    then [Section(nodes[i].text, SectionBlocks(nodes, i))]
    else []
  }

  /** The number of non-FAQ `h2` headings among `nodes[..k]`. */
  function CountSectionHeadings(nodes: seq<Node>, k: nat): nat
    requires k <= |nodes|
    decreases k
  {
    if k == 0 then 0
    else CountSectionHeadings(nodes, k - 1) + (if SanskritiContent.IsSectionHeading(nodes[k - 1]) then 1 else 0)
  }

  /** The sections of the headings among `nodes[..k]`: at most one per non-FAQ `h2`, never empty. */
  function SectionsUpTo(nodes: seq<Node>, k: nat): (r: seq<Section>)
    requires k <= |nodes|
    ensures |r| <= CountSectionHeadings(nodes, k)
    ensures forall j :: 0 <= j < |r| ==> r[j].blocks != [] && !SanskritiContent.IsFaqsHeading(r[j].title)
    decreases k
  {
    if k == 0 then [] else SectionsUpTo(nodes, k - 1) + SectionAt(nodes, k - 1)
  }

  lemma SectionsStep(nodes: seq<Node>, h: nat)
    requires h < |nodes|
    ensures SectionsUpTo(nodes, h + 1) == SectionsUpTo(nodes, h) + SectionAt(nodes, h)
  {
  }

  function Sections(nodes: seq<Node>): seq<Section> {
    SectionsUpTo(nodes, |nodes|)
  }

  /** The inner `while` of step 3: the siblings of `nodes[i]` up to the next `h2`/`h4`. */
  method ScanBlocks(nodes: seq<Node>, i: nat) returns (blocks: seq<Block>)
    requires i < |nodes|
    ensures blocks == SectionBlocks(nodes, i)
  {
    ghost var end := ScanEnd(nodes, i + 1);
    blocks := [];
    var current := i + 1;
    while current < |nodes| && !IsBoundary(nodes[current])
      invariant i + 1 <= current <= end
      invariant ScanEnd(nodes, current) == end
      invariant blocks == BlocksBetween(nodes, i + 1, current)
      decreases |nodes| - current
    {
      var n := nodes[current];
      if n.Para? {
        if n.text != [] {
          blocks := blocks + [Paragraph(n.text)];
        }
      } else if n.ListNode? {
        if n.items != [] {
          blocks := blocks + [ListBlock(n.tag, n.items)];
        }
      } else if n.Heading? && n.level == 3 {
        blocks := blocks + [Subsection(n.text)];
      } else if n.Table? && "table-bordered" !in n.classes {
        var rows := ExtractTableRows(n.rows);
        if rows != [] {
          blocks := blocks + [TableBlock(rows)];
        }
      }
      current := current + 1;
    }
  }

  /** Step 3: one pass over the `h2` headings. */
  method ExtractSections(nodes: seq<Node>) returns (sections: seq<Section>)
    ensures sections == Sections(nodes)
  {
    sections := [];
    var h := 0;
    while h < |nodes|
      invariant 0 <= h <= |nodes|
      invariant sections == SectionsUpTo(nodes, h)
    {
      var n := nodes[h];
      SectionsStep(nodes, h);
      if n.Heading? && n.level == 2 && Upper(n.text) != "FAQS" {
        var blocks := ScanBlocks(nodes, h);
        assert SectionAt(nodes, h) == (if blocks != [] then [Section(n.text, blocks)] else []);
        if blocks != [] {
          sections := sections + [Section(n.text, blocks)];
        } else {
          assert sections + [] == sections;
        }
      } else {
        assert SectionAt(nodes, h) == [];
        assert sections + [] == sections;
      }
      h := h + 1;
    }
  }

  /** The number of `Subsection` blocks. */
  function CountSubsections(bs: seq<Block>): nat
    decreases |bs|
  {
    if bs == [] then 0 else CountSubsections(bs[..|bs| - 1]) + (if bs[|bs| - 1].Subsection? then 1 else 0)
  }

  /** The number of `h3` headings among `nodes[lo..hi]`. */
  function CountH3(nodes: seq<Node>, lo: nat, hi: nat): nat
    requires lo <= hi <= |nodes|
    decreases hi - lo
  {
    if hi == lo then 0 else CountH3(nodes, lo, hi - 1) + (if IsHeading(nodes[hi - 1], 3) then 1 else 0)
  }

  lemma {:induction false} CountSubsectionsAppend(bs: seq<Block>, b: seq<Block>)
    requires |b| <= 1
    ensures CountSubsections(bs + b) == CountSubsections(bs) + CountSubsections(b)
  {
    if b == [] {
      assert bs + b == bs;
    } else {
      assert (bs + b)[..|bs + b| - 1] == bs;
      assert b[..|b| - 1] == [];
    }
  }

  /** A sibling adds a `Subsection` exactly when it is an `h3`. */
  lemma BlockOfSubsection(n: Node)
    ensures CountSubsections(BlockOf(n)) == (if IsHeading(n, 3) then 1 else 0)
  {
    var b := BlockOf(n);
    if b != [] {
      assert b[..|b| - 1] == [];
    }
  }

  lemma BlocksStep(nodes: seq<Node>, lo: nat, hi: nat)
    requires lo < hi <= |nodes|
    ensures BlocksBetween(nodes, lo, hi) == BlocksBetween(nodes, lo, hi - 1) + BlockOf(nodes[hi - 1])
  {
  }

  /** Every `h3` in a section's scan becomes exactly one `Subsection`, even an empty one. */
  lemma {:induction false} OneSubsectionPerH3(nodes: seq<Node>, lo: nat, hi: nat)
    requires lo <= hi <= |nodes|
    ensures CountSubsections(BlocksBetween(nodes, lo, hi)) == CountH3(nodes, lo, hi)
    decreases hi - lo
  {
    if hi > lo {
      var f := if IsHeading(nodes[hi - 1], 3) then 1 else 0;
      OneSubsectionPerH3(nodes, lo, hi - 1);
      SubsectionStep(nodes, lo, hi);
      H3Step(nodes, lo, hi);
      AddUp(CountSubsections(BlocksBetween(nodes, lo, hi)), CountSubsections(BlocksBetween(nodes, lo, hi - 1)),
            CountH3(nodes, lo, hi), CountH3(nodes, lo, hi - 1), f);
    } else {
      NoSubsectionsInEmpty(nodes, lo);
    }
  }

  lemma NoSubsectionsInEmpty(nodes: seq<Node>, lo: nat)
    requires lo <= |nodes|
    ensures CountSubsections(BlocksBetween(nodes, lo, lo)) == CountH3(nodes, lo, lo)
  {
    assert BlocksBetween(nodes, lo, lo) == [];
  }

  /** The last sibling of a scan adds one `Subsection` exactly when it is an `h3`. */
  lemma SubsectionStep(nodes: seq<Node>, lo: nat, hi: nat)
    requires lo < hi <= |nodes|
    ensures CountSubsections(BlocksBetween(nodes, lo, hi))
         == CountSubsections(BlocksBetween(nodes, lo, hi - 1)) + (if IsHeading(nodes[hi - 1], 3) then 1 else 0)
  {
    BlocksStep(nodes, lo, hi);
    CountStep(BlocksBetween(nodes, lo, hi), BlocksBetween(nodes, lo, hi - 1), nodes[hi - 1]);
  }

  lemma H3Step(nodes: seq<Node>, lo: nat, hi: nat)
    requires lo < hi <= |nodes|
    ensures CountH3(nodes, lo, hi) == CountH3(nodes, lo, hi - 1) + (if IsHeading(nodes[hi - 1], 3) then 1 else 0)
  {
  }

  /** Two counts that start equal and grow by the same amount stay equal. */
  lemma AddUp(a: int, b: int, c: int, d: int, f: int)
    requires a == b + f && c == d + f && b == d
    ensures a == c
  {
  }

  lemma CountStep(whole: seq<Block>, bs: seq<Block>, n: Node)
    requires whole == bs + BlockOf(n)
    ensures CountSubsections(whole) == CountSubsections(bs) + (if IsHeading(n, 3) then 1 else 0)
  {
    CountSubsectionsAppend(bs, BlockOf(n));
    BlockOfSubsection(n);
  }

  // ---------------------------------------------------------------------
  // Images
  // ---------------------------------------------------------------------

  /** `src`, `alt`, `width`, `height`, and the `href`/`title` of an enclosing link. */
  datatype ImageData = ImageData(src: string, alt: string, width: Option<string>, height: Option<string>, link: Option<Link>)

  function ImageDataOf(n: Node): ImageData
    requires n.Img?
  {
    ImageData(n.src, n.alt, n.width, n.height, n.parentLink)
  }

  /** The content images, filtered exactly as the Sanskriti source filters them. */
  function DetailImages(nodes: seq<Node>): (r: seq<ImageData>)
    ensures forall j :: 0 <= j < |r| ==> Contains(r[j].src, SanskritiImages.UploadsPath)
    decreases |nodes|
  {
    if nodes == [] then []
    else
      var n := nodes[|nodes| - 1];
      DetailImages(nodes[..|nodes| - 1]) + (if SanskritiImages.IsContentImage(n) then [ImageDataOf(n)] else [])
  }

  /** Step 4. */
  method ExtractImages(nodes: seq<Node>) returns (images: seq<ImageData>)
    ensures images == DetailImages(nodes)
  {
    images := [];
    var k := 0;
    while k < |nodes|
      invariant 0 <= k <= |nodes|
      invariant images == DetailImages(nodes[..k])
    {
      var n := nodes[k];
      assert nodes[..k + 1][..k] == nodes[..k];
      if n.Img? && "img-fluid" in n.classes && Contains(n.src, SanskritiImages.UploadsPath) {
        images := images + [ImageData(n.src, n.alt, n.width, n.height, n.parentLink)];
      }
      k := k + 1;
    }
    assert nodes[..|nodes|] == nodes;
  }

  /** The same pictures as the Sanskriti source, in the same order; its caption is the link's title. */
  lemma {:induction false} SameImagesAsSource(nodes: seq<Node>)
    ensures |DetailImages(nodes)| == |SanskritiImages.Images(nodes)|
    ensures forall j :: 0 <= j < |DetailImages(nodes)| ==>
              SanskritiImages.Images(nodes)[j]
              == ImageRef(DetailImages(nodes)[j].src, DetailImages(nodes)[j].alt,
                          SanskritiImages.Caption(DetailImages(nodes)[j].link))
    decreases |nodes|
  {
    if nodes != [] {
      SameImagesAsSource(nodes[..|nodes| - 1]);
    }
  }

  // ---------------------------------------------------------------------
  // FAQs
  // ---------------------------------------------------------------------

  /**
   * A question paragraph: a `strong` whose text has a `Q` among its first
   * three characters, or a paragraph whose text has `Q.` among its first five.
   */
  predicate IsDetailQuestion(n: Node) {
    n.Para? && n.strong.Some? && ('Q' in Take(n.strong.value, 3) || HasQDot(Take(n.text, 5)))
  }

  /** A `Q` directly followed by a `.` somewhere in `t`. */
  predicate HasQDot(t: string) {
    exists k :: 0 <= k < |t| - 1 && t[k] == 'Q' && t[k + 1] == '.'
  }

  /** `HasQDot` is the substring test `'Q.' in t` of the source. */
  lemma {:induction false} QDotTestAsWritten(t: string)
    ensures HasQDot(t) <==> Contains(t, "Q.")
    decreases |t|
  {
    if t != [] {
      var u := t[1..];
      QDotTestAsWritten(u);
      var here := |t| >= 2 && t[0] == 'Q' && t[1] == '.';
      assert StartsWith(t, "Q.") <==> here by {
        if |t| >= 2 {
          assert t[..2] == "Q." <==> t[0] == 'Q' && t[1] == '.' by {
            if t[0] == 'Q' && t[1] == '.' {
              assert t[..2] == [t[0], t[1]];
            }
          }
        }
      }
      if HasQDot(t) {
        var k :| 0 <= k < |t| - 1 && t[k] == 'Q' && t[k + 1] == '.';
        if k > 0 {
          assert u[k - 1] == 'Q' && u[k] == '.';
        }
      }
      if HasQDot(u) {
        var k :| 0 <= k < |u| - 1 && u[k] == 'Q' && u[k + 1] == '.';
        assert t[k + 1] == 'Q' && t[k + 2] == '.';
      }
      if here {
        assert t[0] == 'Q' && t[1] == '.';
      }
    }
  }

  /**
   * Scanner state: finished pairs, `current_question` and `current_answer`.
   * `question` is "" when no question is open: `None` and "" are both falsy.
   */
  datatype QaScan = QaScan(done: seq<Faq>, question: string, answer: seq<string>)

  const QaStart := QaScan([], [], [])

  /** Save the open question, when it has text, with its answer parts joined by spaces. */
  function Flush(s: QaScan): seq<Faq> {
    if s.question != [] then s.done + [Faq(s.question, Join(s.answer, " "))] else s.done
  }

  /** The answer parts one sibling adds: a non-empty non-question paragraph, or all items of a list. */
  function AnswerParts(n: Node): seq<string> {
    if n.Para? && !IsDetailQuestion(n) && n.text != [] then [n.text]
    else if n.ListNode? then n.items
    else []
  }

  function QaStep(s: QaScan, n: Node): QaScan {
    if IsDetailQuestion(n) then QaScan(Flush(s), n.text, [])
    else if n.Para? then (if n.text != [] then s.(answer := s.answer + [n.text]) else s)
    else if n.ListNode? then s.(answer := s.answer + n.items)
    else s
  }

  /** Away from a question, a sibling only adds its answer parts. */
  lemma AnswerStep(s: QaScan, n: Node)
    requires !IsDetailQuestion(n)
    ensures QaStep(s, n) == s.(answer := s.answer + AnswerParts(n))
  {
    if AnswerParts(n) == [] {
      assert s.answer + [] == s.answer;
    }
  }

  /** The pairs the scan yields from state `s` over the siblings `ns[i..]`. */
  function QaRun(s: QaScan, ns: seq<Node>, i: nat): seq<Faq>
    requires i <= |ns|
    decreases |ns| - i
  {
    if i == |ns| then Flush(s) else QaRun(QaStep(s, ns[i]), ns, i + 1)
  }

  /** Step 5: nothing without a `FAQS` heading. */
  function DetailFaqs(nodes: seq<Node>): seq<Faq> {
    match FindFirst(nodes, SanskritiFaqs.IsFaqHeading)
    case None => []
    case Some(i) => QaRun(QaStart, Region(nodes, i), 0)
  }

  /** Step 5: find the `FAQS` heading, then scan its siblings. */
  method ExtractFaqs(nodes: seq<Node>) returns (faqs: seq<Faq>)
    ensures faqs == DetailFaqs(nodes)
  {
    var i := 0;
    while i < |nodes| && !SanskritiFaqs.IsFaqHeading(nodes[i])
      invariant 0 <= i <= |nodes|
      invariant forall k :: 0 <= k < i ==> !SanskritiFaqs.IsFaqHeading(nodes[k])
    {
      i := i + 1;
    }
    if i == |nodes| {
      return [];
    }
    faqs := ScanFaqs(nodes, i);
  }

  /** The FAQ scan over the siblings of the heading `nodes[i]`. */
  method ScanFaqs(nodes: seq<Node>, i: nat) returns (faqs: seq<Faq>)
    requires i < |nodes|
    ensures faqs == QaRun(QaStart, Region(nodes, i), 0)
  {
    ghost var region := Region(nodes, i);
    ghost var end := ScanEnd(nodes, i + 1);
    var current := i + 1;
    var question := "";
    var answer: seq<string> := [];
    faqs := [];
    while current < |nodes| && !IsBoundary(nodes[current])
      invariant i + 1 <= current <= end
      invariant ScanEnd(nodes, current) == end
      invariant QaRun(QaScan(faqs, question, answer), region, current - (i + 1)) == QaRun(QaStart, region, 0)
      decreases |nodes| - current
    {
      var n := nodes[current];
      assert region[current - (i + 1)] == n;
      if IsDetailQuestion(n) {
        if question != [] {
          faqs := faqs + [Faq(question, Join(answer, " "))];
        }
        question := n.text;
        answer := [];
      } else if n.Para? {
        if n.text != [] {
          answer := answer + [n.text];
        }
      } else if n.ListNode? {
        answer := answer + n.items;
      }
      current := current + 1;
    }
    assert current == end;
    if question != [] {
      faqs := faqs + [Faq(question, Join(answer, " "))];
    }
  }

  /** The number of question paragraphs with text among `ns[i..]`. */
  function CountAsked(ns: seq<Node>, i: nat): nat
    requires i <= |ns|
    decreases |ns| - i
  {
    if i == |ns| then 0 else (if IsDetailQuestion(ns[i]) && ns[i].text != [] then 1 else 0) + CountAsked(ns, i + 1)
  }

  /** One pair per question paragraph with text; an empty question paragraph yields none. */
  lemma {:induction false} QaRunCount(s: QaScan, ns: seq<Node>, i: nat)
    requires i <= |ns|
    ensures |QaRun(s, ns, i)| == |Flush(s)| + CountAsked(ns, i)
    decreases |ns| - i
  {
    if i < |ns| {
      QaRunCount(QaStep(s, ns[i]), ns, i + 1);
    }
  }

  /** Every saved question has text. */
  lemma {:induction false} QaRunQuestionsAsked(s: QaScan, ns: seq<Node>, i: nat)
    requires i <= |ns|
    requires forall k :: 0 <= k < |s.done| ==> s.done[k].question != []
    ensures forall k :: 0 <= k < |QaRun(s, ns, i)| ==> QaRun(s, ns, i)[k].question != []
    decreases |ns| - i
  {
    if i < |ns| {
      QaRunQuestionsAsked(QaStep(s, ns[i]), ns, i + 1);
    }
  }

  /** The answer parts of the siblings `ns[i..j]`. */
  function AnswersBetween(ns: seq<Node>, i: nat, j: nat): seq<string>
    requires i <= j <= |ns|
    decreases j - i
  {
    if i == j then [] else AnswerParts(ns[i]) + AnswersBetween(ns, i + 1, j)
  }

  /** After the last question, every later paragraph and every list item joins its answer. */
  lemma {:induction false} LastQuestionTakesTheRest(done: seq<Faq>, q: string, a: seq<string>, ns: seq<Node>, i: nat)
    requires i <= |ns| && q != []
    requires forall k :: i <= k < |ns| ==> !IsDetailQuestion(ns[k])
    ensures QaRun(QaScan(done, q, a), ns, i) == done + [Faq(q, Join(a + AnswersBetween(ns, i, |ns|), " "))]
    decreases |ns| - i
  {
    if i < |ns| {
      var s := QaScan(done, q, a);
      var parts, rest := AnswerParts(ns[i]), AnswersBetween(ns, i + 1, |ns|);
      AnswerStep(s, ns[i]);
      assert QaRun(s, ns, i) == QaRun(QaScan(done, q, a + parts), ns, i + 1);
      LastQuestionTakesTheRest(done, q, a + parts, ns, i + 1);
      assert AnswersBetween(ns, i, |ns|) == parts + rest;
      assert a + parts + rest == a + (parts + rest);
    } else {
      assert a + AnswersBetween(ns, i, |ns|) == a;
    }
  }

  // A reference definition: each question with the answer parts that follow it

  /** The position of the first question paragraph at or after `i`, or `|ns|`. */
  function QuestionAt(ns: seq<Node>, i: nat): (q: nat)
    requires i <= |ns|
    ensures i <= q <= |ns|
    ensures q < |ns| ==> ns[q].Para?
    decreases |ns| - i
  {
    if i == |ns| then i else if IsDetailQuestion(ns[i]) then i else QuestionAt(ns, i + 1)
  }

  /** `QuestionAt` stops at the first question, having passed none. */
  lemma {:induction false} QuestionAtIsFirst(ns: seq<Node>, i: nat)
    requires i <= |ns|
    ensures forall k :: i <= k < QuestionAt(ns, i) ==> !IsDetailQuestion(ns[k])
    ensures QuestionAt(ns, i) < |ns| ==> IsDetailQuestion(ns[QuestionAt(ns, i)])
    decreases |ns| - i
  {
    if i < |ns| && !IsDetailQuestion(ns[i]) {
      QuestionAtIsFirst(ns, i + 1);
    }
  }

  /** The pair a question with text makes with its answer parts; none for a question without text. */
  function PairOf(q: string, answers: seq<string>): seq<Faq> {
    if q != [] then [Faq(q, Join(answers, " "))] else []
  }

  /**
   * The pairs from the question at `q` on (or none when `q` is the end): every
   * question with text is paired with the answer parts, list items included,
   * up to the question after it; a question without text yields no pair and
   * its answer parts are lost.
   */
  function PairsFrom(ns: seq<Node>, q: nat): seq<Faq>
    requires q <= |ns|
    requires q < |ns| ==> ns[q].Para?
    decreases |ns| - q
  {
    if q == |ns| then []
    else
      var e := QuestionAt(ns, q + 1);
      PairOf(ns[q].text, AnswersBetween(ns, q + 1, e)) + PairsFrom(ns, e)
  }

  /** The siblings before the first question are dropped. */
  function QaReference(ns: seq<Node>): seq<Faq> {
    PairsFrom(ns, QuestionAt(ns, 0))
  }

  /** The answer parts still to come join the open question; the rest follows the reference. */
  lemma {:induction false} RunMatchesReference(s: QaScan, ns: seq<Node>, i: nat)
    requires i <= |ns|
    ensures QaRun(s, ns, i)
         == Flush(s.(answer := s.answer + AnswersBetween(ns, i, QuestionAt(ns, i))))
            + PairsFrom(ns, QuestionAt(ns, i))
    decreases |ns| - i, 1
  {
    if i == |ns| {
      assert s.answer + [] == s.answer;
    } else if IsDetailQuestion(ns[i]) {
      QuestionCase(s, ns, i);
    } else {
      AnswerCase(s, ns, i);
    }
  }

  /** After a question opens with no answer yet, the scan follows the reference. */
  lemma {:induction false} OpenQuestionRun(c: seq<Faq>, q: string, ns: seq<Node>, j: nat)
    requires j <= |ns|
    ensures QaRun(QaScan(c, q, []), ns, j)
         == c + PairOf(q, AnswersBetween(ns, j, QuestionAt(ns, j))) + PairsFrom(ns, QuestionAt(ns, j))
    decreases |ns| - j, 2
  {
    var answers := AnswersBetween(ns, j, QuestionAt(ns, j));
    RunMatchesReference(QaScan(c, q, []), ns, j);
    assert [] + answers == answers;
    if q == [] {
      assert c + [] == c;
    }
  }

  lemma QuestionStepRun(s: QaScan, ns: seq<Node>, i: nat)
    requires i < |ns| && IsDetailQuestion(ns[i])
    ensures QaRun(s, ns, i) == QaRun(QaScan(Flush(s), ns[i].text, []), ns, i + 1)
  {
  }

  lemma QuestionAtQuestion(s: QaScan, ns: seq<Node>, i: nat)
    requires i < |ns| && IsDetailQuestion(ns[i])
    ensures QuestionAt(ns, i) == i
    ensures s.(answer := s.answer + AnswersBetween(ns, i, i)) == s
  {
    assert s.answer + [] == s.answer;
  }

  lemma {:induction false} QuestionCase(s: QaScan, ns: seq<Node>, i: nat)
    requires i < |ns| && IsDetailQuestion(ns[i])
    ensures QaRun(s, ns, i)
         == Flush(s.(answer := s.answer + AnswersBetween(ns, i, QuestionAt(ns, i))))
            + PairsFrom(ns, QuestionAt(ns, i))
    decreases |ns| - i, 0
  {
    var e := QuestionAt(ns, i + 1);
    QuestionAtQuestion(s, ns, i);
    PairsAtQuestion(ns, i);
    QuestionStepRun(s, ns, i);
    OpenQuestionRun(Flush(s), ns[i].text, ns, i + 1);
    AppendPairs(Flush(s), PairOf(ns[i].text, AnswersBetween(ns, i + 1, e)), PairsFrom(ns, e));
  }

  lemma PairsAtQuestion(ns: seq<Node>, i: nat)
    requires i < |ns| && ns[i].Para?
    ensures PairsFrom(ns, i)
         == PairOf(ns[i].text, AnswersBetween(ns, i + 1, QuestionAt(ns, i + 1))) + PairsFrom(ns, QuestionAt(ns, i + 1))
  {
  }

  lemma AppendPairs(a: seq<Faq>, b: seq<Faq>, c: seq<Faq>)
    ensures a + b + c == a + (b + c)
  {
  }

  lemma {:induction false} AnswerCase(s: QaScan, ns: seq<Node>, i: nat)
    requires i < |ns| && !IsDetailQuestion(ns[i])
    ensures QaRun(s, ns, i)
         == Flush(s.(answer := s.answer + AnswersBetween(ns, i, QuestionAt(ns, i))))
            + PairsFrom(ns, QuestionAt(ns, i))
    decreases |ns| - i, 0
  {
    var q := QuestionAt(ns, i);
    var t := s.(answer := s.answer + AnswerParts(ns[i]));
    AnswerStepReference(ns, i);
    AnswerStepRun(s, ns, i);
    RunMatchesReference(t, ns, i + 1);
    AppendAnswers(s, AnswerParts(ns[i]), AnswersBetween(ns, i + 1, q));
  }

  lemma AnswerStepReference(ns: seq<Node>, i: nat)
    requires i < |ns| && !IsDetailQuestion(ns[i])
    ensures QuestionAt(ns, i) == QuestionAt(ns, i + 1)
    ensures AnswersBetween(ns, i, QuestionAt(ns, i)) == AnswerParts(ns[i]) + AnswersBetween(ns, i + 1, QuestionAt(ns, i))
  {
  }

  lemma AnswerStepRun(s: QaScan, ns: seq<Node>, i: nat)
    requires i < |ns| && !IsDetailQuestion(ns[i])
    ensures QaRun(s, ns, i) == QaRun(s.(answer := s.answer + AnswerParts(ns[i])), ns, i + 1)
  {
    AnswerStep(s, ns[i]);
  }

  lemma AppendAnswers(s: QaScan, a: seq<string>, b: seq<string>)
    ensures s.(answer := s.answer + a).(answer := s.answer + a + b) == s.(answer := s.answer + (a + b))
  {
    assert s.answer + a + b == s.answer + (a + b);
  }

  /** The scan over a FAQ block yields exactly the reference pairing. */
  lemma QaMatchesReference(region: seq<Node>)
    ensures QaRun(QaStart, region, 0) == QaReference(region)
  {
    var q := QuestionAt(region, 0);
    RunMatchesReference(QaStart, region, 0);
    assert Flush(QaStart.(answer := [] + AnswersBetween(region, 0, q))) == [];
  }

  /** The FAQ count and the non-empty questions, for a whole container. */
  lemma OnePairPerAskedQuestion(nodes: seq<Node>)
    ensures FindFirst(nodes, SanskritiFaqs.IsFaqHeading).None? ==> DetailFaqs(nodes) == []
    ensures FindFirst(nodes, SanskritiFaqs.IsFaqHeading).Some? ==>
              |DetailFaqs(nodes)| == CountAsked(Region(nodes, FindFirst(nodes, SanskritiFaqs.IsFaqHeading).value), 0)
    ensures forall k :: 0 <= k < |DetailFaqs(nodes)| ==> DetailFaqs(nodes)[k].question != []
  {
    if FindFirst(nodes, SanskritiFaqs.IsFaqHeading).Some? {
      var region := Region(nodes, FindFirst(nodes, SanskritiFaqs.IsFaqHeading).value);
      QaRunCount(QaStart, region, 0);
      QaRunQuestionsAsked(QaStart, region, 0);
    }
  }

  // ---------------------------------------------------------------------
  // The whole record
  // ---------------------------------------------------------------------

  /** `article_data` without `raw_text`. */
  datatype Details = Details(
    heading: Option<TitleInfo>,
    metadata: MetadataInfo,
    sections: seq<Section>,
    images: seq<ImageData>,
    faqs: seq<Faq>)

  function DetailsOf(nodes: seq<Node>): Details {
    Details(TitleOf(nodes), MetadataOf(nodes), Sections(nodes), DetailImages(nodes), DetailFaqs(nodes))
  }

  /** `extract_article_details`: the five steps in order. */
  method ExtractArticleDetails(nodes: seq<Node>) returns (d: Details)
    ensures d == DetailsOf(nodes)
  {
    var heading := TitleOf(nodes);
    var metadata := ExtractMetadata(nodes);
    var sections := ExtractSections(nodes);
    var images := ExtractImages(nodes);
    var faqs := ExtractFaqs(nodes);
    d := Details(heading, metadata, sections, images, faqs);
  }
}
