/**
 * `_extract_content`: the one-pass section scanner of the Sanskriti IAS source.
 * Every `h2` except `FAQS` opens a section; the scan runs over the following
 * siblings up to the next `h2`/`h4`. An `h3` closes the running subsection
 * (when it has text) and becomes the subheading of what follows; `p`, `ul`
 * and `ol` add blocks of text; everything else is skipped.
 */
module SanskritiContent {
  import opened Wrappers
  import opened Text
  import opened Dom
  import opened Documents

  /** `heading.upper() == 'FAQS'`. */
  predicate IsFaqsHeading(text: string) {
    Upper(text) == "FAQS"
  }

  /** An `h2` whose body becomes content records. */
  predicate IsSectionHeading(n: Node) {
    IsHeading(n, 2) && !IsFaqsHeading(n.text)
  }

  /** The `• item` lines of a list: one per non-empty item, in order. */
  function Bullets(items: seq<string>): (r: seq<string>)
    ensures |r| <= |items|
    ensures forall k :: 0 <= k < |r| ==> |r[k]| > 2 && r[k][..2] == "\U{2022} "
    decreases |items|
  {
    if items == [] then []
    else
      var last := items[|items| - 1];
      Bullets(items[..|items| - 1]) + (if last != [] then ["\U{2022} " + last] else [])
  }

  /** The block of text a paragraph or a list adds to the running section, if any. */
  function BlockText(n: Node): Option<string> {
    match n
    case Para(t, _) => if t != [] then Some(t) else None
    case ListNode(_, items) =>
      var b := Bullets(items);
      if b != [] then Some(Join(b, "\n")) else None
    case _ => None
  }

  /** A subsection ready to be written out: the subheading in force and its blocks. */
  datatype Chunk = Chunk(subheading: Option<string>, blocks: seq<string>)

  /** Scanner state: finished subsections, `current_subheading`, `section_content`. */
  datatype SectionScan = SectionScan(done: seq<Chunk>, subheading: Option<string>, pending: seq<string>)

  const Start := SectionScan([], None, [])

  /** Close the running subsection; an empty one is dropped. */
  function Flush(s: SectionScan): seq<Chunk> {
    if s.pending != [] then s.done + [Chunk(s.subheading, s.pending)] else s.done
  }

  function SectionStep(s: SectionScan, n: Node): SectionScan {
    if IsHeading(n, 3) then SectionScan(Flush(s), Some(n.text), [])
    else match BlockText(n)
      case Some(b) => s.(pending := s.pending + [b])
      case None => s
  }

  /** The subsections the scan yields from state `s` over the remaining siblings `rest`. */
  function SectionRun(s: SectionScan, rest: seq<Node>): seq<Chunk>
    decreases |rest|
  {
    if rest == [] then Flush(s) else SectionRun(SectionStep(s, rest[0]), rest[1..])
  }

  function SectionChunks(region: seq<Node>): seq<Chunk> {
    SectionRun(Start, region)
  }

  function Render(heading: string, c: Chunk): ContentRecord {
    ContentRecord(heading, c.subheading, Join(c.blocks, "\n\n"))
  }

  function RenderAll(heading: string, cs: seq<Chunk>): (r: seq<ContentRecord>)
    ensures |r| == |cs|
    decreases |cs|
  {
    if cs == [] then [] else RenderAll(heading, cs[..|cs| - 1]) + [Render(heading, cs[|cs| - 1])]
  }

  /** The records the `h2` at index `i` contributes (none for `FAQS` or a non-`h2`). */
  function SectionRecords(nodes: seq<Node>, i: nat): seq<ContentRecord>
    requires i < |nodes|
  {
    if IsSectionHeading(nodes[i]) then RenderAll(nodes[i].text, SectionChunks(Region(nodes, i))) else []
  }

  /** The records of the `h2`s among the first `k` nodes. */
  function ContentUpTo(nodes: seq<Node>, k: nat): seq<ContentRecord>
    requires k <= |nodes|
    decreases k
  {
    if k == 0 then [] else ContentUpTo(nodes, k - 1) + SectionRecords(nodes, k - 1)
  }

  /** What `_extract_content` returns. */
  function Content(nodes: seq<Node>): seq<ContentRecord> {
    ContentUpTo(nodes, |nodes|)
  }

  /** The list-to-bullets loop of `_extract_content`. */
  method BulletLines(items: seq<string>) returns (lines: seq<string>)
    ensures lines == Bullets(items)
  {
    lines := [];
    var k := 0;
    while k < |items|
      invariant 0 <= k <= |items|
      invariant lines == Bullets(items[..k])
    {
      assert items[..k + 1][..k] == items[..k];
      if items[k] != [] {
        lines := lines + ["\U{2022} " + items[k]];
      }
      k := k + 1;
    }
    assert items[..|items|] == items;
  }

  /**
   * The body of `_extract_content`'s loop for one `h2` at index `i`: walk the
   * siblings until the next `h2`/`h4`, returning the records it appends.
   */
  method ScanSection(nodes: seq<Node>, i: nat) returns (records: seq<ContentRecord>)
    requires i < |nodes| && IsSectionHeading(nodes[i])
    ensures records == SectionRecords(nodes, i)
    ensures records == RenderAll(nodes[i].text, SectionReference(Region(nodes, i)))
  {
    SectionMatchesReference(Region(nodes, i));
    var heading := nodes[i].text;
    ghost var end := ScanEnd(nodes, i + 1);
    ghost var done: seq<Chunk> := [];
    records := [];
    var sectionContent: seq<string> := [];
    var currentSubheading: Option<string> := None;
    var current := i + 1;
    while current < |nodes| && !IsBoundary(nodes[current])
      invariant i + 1 <= current <= end
      invariant ScanEnd(nodes, current) == end
      invariant SectionRun(SectionScan(done, currentSubheading, sectionContent), nodes[current..end])
                == SectionChunks(Region(nodes, i))
      invariant records == RenderAll(heading, done)
    {
      var n := nodes[current];
      ghost var before := SectionScan(done, currentSubheading, sectionContent);
      assert SectionRun(before, nodes[current..end])
          == SectionRun(SectionStep(before, n), nodes[current + 1..end]);
      if IsHeading(n, 3) {
        if sectionContent != [] {
          records := records + [ContentRecord(heading, currentSubheading, Join(sectionContent, "\n\n"))];
          done := done + [Chunk(currentSubheading, sectionContent)];
          assert done[..|done| - 1] == before.done;
          sectionContent := [];
        }
        currentSubheading := Some(n.text);
      } else if n.Para? {
        if n.text != [] {
          sectionContent := sectionContent + [n.text];
        }
      } else if n.ListNode? {
        var items := BulletLines(n.items);
        if items != [] {
          sectionContent := sectionContent + [Join(items, "\n")];
        }
      }
      assert SectionScan(done, currentSubheading, sectionContent) == SectionStep(before, n);
      current := current + 1;
    }
    ghost var last := SectionScan(done, currentSubheading, sectionContent);
    assert current == end && nodes[current..end] == [];
    if sectionContent != [] {
      records := records + [ContentRecord(heading, currentSubheading, Join(sectionContent, "\n\n"))];
      done := done + [Chunk(currentSubheading, sectionContent)];
      assert done[..|done| - 1] == last.done;
    }
    assert done == Flush(last);
  }

  /** `_extract_content`: the sibling scan under every non-FAQ `h2`, in document order. */
  method ExtractContent(nodes: seq<Node>) returns (content: seq<ContentRecord>)
    ensures content == Content(nodes)
  {
    content := [];
    var i := 0;
    while i < |nodes|
      invariant 0 <= i <= |nodes|
      invariant content == ContentUpTo(nodes, i)
    {
      if IsSectionHeading(nodes[i]) {
        var records := ScanSection(nodes, i);
        content := content + records;
      }
      i := i + 1;
    }
  }

  // ---------------------------------------------------------------------
  // What the scan guarantees
  // ---------------------------------------------------------------------

  /** The block a sibling adds, as a list of zero or one strings. */
  function BlockOf(n: Node): seq<string> {
    match BlockText(n) case Some(b) => [b] case None => []
  }

  /** The blocks the siblings of a section contribute, in document order. */
  function Blocks(region: seq<Node>): seq<string>
    decreases |region|
  {
    if region == [] then [] else BlockOf(region[0]) + Blocks(region[1..])
  }

  /** The blocks of a run of subsections, one after the other. */
  function AllBlocks(cs: seq<Chunk>): seq<string>
    decreases |cs|
  {
    if cs == [] then [] else AllBlocks(cs[..|cs| - 1]) + cs[|cs| - 1].blocks
  }

  /** A subsection that is written out: at least one block, and no empty block. */
  predicate WellFormed(c: Chunk) {
    c.blocks != [] && forall k :: 0 <= k < |c.blocks| ==> c.blocks[k] != []
  }

  /** Every finished subsection is well formed and every pending block is non-empty. */
  predicate ScanOk(s: SectionScan) {
    (forall k :: 0 <= k < |s.done| ==> WellFormed(s.done[k])) &&
    (forall k :: 0 <= k < |s.pending| ==> s.pending[k] != [])
  }

  /** A paragraph's text is non-empty; a list block is `• item` lines joined by newlines. */
  lemma BlockTextShape(n: Node)
    ensures BlockText(n).Some? ==> BlockText(n).value != []
    ensures n.ListNode? ==> (BlockText(n).None? <==> forall k :: 0 <= k < |n.items| ==> n.items[k] == [])
  {
    if n.ListNode? {
      var b := Bullets(n.items);
      if b != [] {
        JoinNonEmpty(b, "\n");
      }
      NoBulletsIffBlank(n.items);
    }
  }

  lemma {:induction false} NoBulletsIffBlank(items: seq<string>)
    ensures Bullets(items) == [] <==> forall k :: 0 <= k < |items| ==> items[k] == []
    decreases |items|
  {
    if items != [] {
      var init := items[..|items| - 1];
      NoBulletsIffBlank(init);
      if Bullets(items) == [] {
        forall k | 0 <= k < |items| ensures items[k] == [] {
          if k < |items| - 1 { assert items[k] == init[k]; }
        }
      }
      if forall k :: 0 <= k < |items| ==> items[k] == [] {
        assert forall k :: 0 <= k < |init| ==> init[k] == items[k];
      }
    }
  }

  /** The bullets of two runs of items are those of each, in order. */
  lemma {:induction false} BulletsConcat(a: seq<string>, b: seq<string>)
    ensures Bullets(a + b) == Bullets(a) + Bullets(b)
    decreases |b|
  {
    if b == [] {
      assert a + b == a;
    } else {
      var init, last := b[..|b| - 1], b[|b| - 1];
      var tail := if last != [] then ["\U{2022} " + last] else [];
      BulletsConcat(a, init);
      assert (a + b)[..|a + b| - 1] == a + init;
      assert (a + b)[|a + b| - 1] == last;
      assert Bullets(a + b) == Bullets(a + init) + tail;
      assert Bullets(b) == Bullets(init) + tail;
    }
  }

  /**
   * Item `k` becomes the line `• item` exactly when it is non-empty, between
   * the bullets of the items before and after it.
   */
  lemma BulletsAt(items: seq<string>, k: int)
    requires 0 <= k < |items|
    ensures Bullets(items)
            == Bullets(items[..k])
               + (if items[k] != [] then ["\U{2022} " + items[k]] else [])
               + Bullets(items[k + 1..])
  {
    var before, x, after := items[..k], items[k], items[k + 1..];
    SplitAround(items, k);
    BulletsConcat(before + [x], after);
    BulletsConcat(before, [x]);
    BulletOfOne(x);
  }

  /** A single item gives its bullet line, if it is non-empty. */
  lemma BulletOfOne(x: string)
    ensures Bullets([x]) == (if x != [] then ["\U{2022} " + x] else [])
  {
    assert [x][..0] == [];
  }

  lemma FlushKeepsBlocks(s: SectionScan)
    ensures AllBlocks(Flush(s)) == AllBlocks(s.done) + s.pending
  {
    if s.pending != [] {
      var f := Flush(s);
      assert f[..|f| - 1] == s.done;
    }
  }

  lemma StepKeepsBlocks(s: SectionScan, n: Node)
    ensures AllBlocks(SectionStep(s, n).done) + SectionStep(s, n).pending
         == AllBlocks(s.done) + s.pending + BlockOf(n)
  {
    if IsHeading(n, 3) {
      FlushKeepsBlocks(s);
    } else if BlockText(n).Some? {
      assert AllBlocks(s.done) + (s.pending + BlockOf(n)) == AllBlocks(s.done) + s.pending + BlockOf(n);
    }
  }

  lemma StepKeepsOk(s: SectionScan, n: Node)
    requires ScanOk(s)
    ensures ScanOk(SectionStep(s, n))
  {
    BlockTextShape(n);
  }

  lemma {:induction false} RunKeepsBlocks(s: SectionScan, rest: seq<Node>)
    ensures AllBlocks(SectionRun(s, rest)) == AllBlocks(s.done) + s.pending + Blocks(rest)
    decreases |rest|
  {
    if rest == [] {
      FlushKeepsBlocks(s);
    } else {
      var t := SectionStep(s, rest[0]);
      assert SectionRun(s, rest) == SectionRun(t, rest[1..]);
      StepKeepsBlocks(s, rest[0]);
      RunKeepsBlocks(t, rest[1..]);
      assert Blocks(rest) == BlockOf(rest[0]) + Blocks(rest[1..]);
      assert AllBlocks(s.done) + s.pending + BlockOf(rest[0]) + Blocks(rest[1..])
          == AllBlocks(s.done) + s.pending + Blocks(rest);
    }
  }

  lemma {:induction false} RunWellFormed(s: SectionScan, rest: seq<Node>)
    requires ScanOk(s)
    ensures forall k :: 0 <= k < |SectionRun(s, rest)| ==> WellFormed(SectionRun(s, rest)[k])
    decreases |rest|
  {
    if rest == [] {
      assert SectionRun(s, rest) == Flush(s);
    } else {
      var t := SectionStep(s, rest[0]);
      assert SectionRun(s, rest) == SectionRun(t, rest[1..]);
      StepKeepsOk(s, rest[0]);
      RunWellFormed(t, rest[1..]);
    }
  }

  /**
   * No block of a section is lost, duplicated or reordered across its
   * subsections; every subsection written out has a block; and a section
   * yields nothing exactly when none of its siblings has text.
   */
  lemma SectionKeepsEveryBlock(region: seq<Node>)
    ensures AllBlocks(SectionChunks(region)) == Blocks(region)
    ensures forall k :: 0 <= k < |SectionChunks(region)| ==> WellFormed(SectionChunks(region)[k])
    ensures SectionChunks(region) == [] <==> Blocks(region) == []
  {
    var cs := SectionChunks(region);
    RunKeepsBlocks(Start, region);
    RunWellFormed(Start, region);
    assert AllBlocks(Start.done) + Start.pending == [];
    if cs != [] {
      assert WellFormed(cs[|cs| - 1]);
      assert |AllBlocks(cs)| >= |cs[|cs| - 1].blocks|;
    }
  }

  lemma {:induction false} RunWithoutSubheadings(s: SectionScan, rest: seq<Node>)
    requires forall k :: 0 <= k < |rest| ==> !IsHeading(rest[k], 3)
    ensures SectionRun(s, rest)
         == if s.pending + Blocks(rest) == [] then s.done
            else s.done + [Chunk(s.subheading, s.pending + Blocks(rest))]
    decreases |rest|
  {
    if rest != [] {
      var t := SectionStep(s, rest[0]);
      assert t == s.(pending := s.pending + BlockOf(rest[0]));
      assert SectionRun(s, rest) == SectionRun(t, rest[1..]);
      assert forall k :: 0 <= k < |rest[1..]| ==> rest[1..][k] == rest[k + 1];
      RunWithoutSubheadings(t, rest[1..]);
      assert Blocks(rest) == BlockOf(rest[0]) + Blocks(rest[1..]);
      assert t.pending + Blocks(rest[1..]) == s.pending + Blocks(rest);
    } else {
      assert s.pending + Blocks(rest) == s.pending;
    }
  }

  /** Without an `h3`, a section with text yields exactly one subsection, with no subheading. */
  lemma OneSubsectionWithoutSubheadings(region: seq<Node>)
    requires forall k :: 0 <= k < |region| ==> !IsHeading(region[k], 3)
    ensures SectionChunks(region) == if Blocks(region) == [] then [] else [Chunk(None, Blocks(region))]
  {
    RunWithoutSubheadings(Start, region);
    assert Start.pending + Blocks(region) == Blocks(region);
  }

  /** The subheading in force after a run of siblings: the text of its last `h3`. */
  function LastSubheading(sub: Option<string>, ns: seq<Node>): Option<string>
    decreases |ns|
  {
    if ns == [] then sub
    else LastSubheading(if IsHeading(ns[0], 3) then Some(ns[0].text) else sub, ns[1..])
  }

  /** The position of the first sibling that adds text, or the length of the run. */
  function FirstBlock(region: seq<Node>): (f: nat)
    ensures f <= |region|
    decreases |region|
  {
    if region == [] then 0
    else if BlockText(region[0]).Some? then 0
    else 1 + FirstBlock(region[1..])
  }

  lemma {:induction false} RunKeepsDone(s: SectionScan, rest: seq<Node>)
    ensures |SectionRun(s, rest)| >= |s.done| && SectionRun(s, rest)[..|s.done|] == s.done
    decreases |rest|
  {
    if rest != [] {
      var t := SectionStep(s, rest[0]);
      RunKeepsDone(t, rest[1..]);
      assert t.done[..|s.done|] == s.done;
    }
  }

  lemma {:induction false} RunFirstFromPending(s: SectionScan, rest: seq<Node>)
    requires s.done == [] && s.pending != []
    ensures SectionRun(s, rest) != [] && SectionRun(s, rest)[0].subheading == s.subheading
    decreases |rest|
  {
    if rest != [] {
      var t := SectionStep(s, rest[0]);
      if IsHeading(rest[0], 3) {
        RunKeepsDone(t, rest[1..]);
        assert SectionRun(t, rest[1..])[..1] == t.done;
      } else {
        RunFirstFromPending(t, rest[1..]);
      }
    }
  }

  lemma {:induction false} RunFirstSubheading(s: SectionScan, rest: seq<Node>)
    requires s.done == [] && s.pending == []
    requires SectionRun(s, rest) != []
    ensures SectionRun(s, rest)[0].subheading == LastSubheading(s.subheading, rest[..FirstBlock(rest)])
    decreases |rest|
  {
    var n := rest[0];
    var t := SectionStep(s, n);
    if BlockText(n).Some? && !IsHeading(n, 3) {
      RunFirstFromPending(t, rest[1..]);
    } else {
      var f := FirstBlock(rest);
      assert rest[..f][1..] == rest[1..][..FirstBlock(rest[1..])];
      RunFirstSubheading(t, rest[1..]);
    }
  }

  /**
   * An `h3` always replaces the subheading, and closes a subsection only when
   * it has text; so the first subsection of a section carries the last `h3`
   * seen before the first text-bearing sibling, and None when there is none.
   */
  lemma FirstSubsectionSubheading(region: seq<Node>)
    requires SectionChunks(region) != []
    ensures SectionChunks(region)[0].subheading == LastSubheading(None, region[..FirstBlock(region)])
  {
    RunFirstSubheading(Start, region);
  }

  // A reference definition: the section cut at its `h3`s

  /** The position of the first `h3` in a run of siblings, or the length of the run. */
  function NextSubheading(ns: seq<Node>): (e: nat)
    ensures e <= |ns|
    ensures e < |ns| ==> IsHeading(ns[e], 3)
    ensures forall k :: 0 <= k < e ==> !IsHeading(ns[k], 3)
    decreases |ns|
  {
    if ns == [] then 0
    else if IsHeading(ns[0], 3) then 0
    else 1 + NextSubheading(ns[1..])
  }

  /** The subsection a stretch of blocks makes under `sub`: none when the stretch has no text. */
  function Opened(sub: Option<string>, blocks: seq<string>): seq<Chunk> {
    if blocks != [] then [Chunk(sub, blocks)] else []
  }

  /**
   * The subsections of the siblings `ns` that follow a point where `sub` is
   * the subheading in force: the blocks up to the next `h3` under `sub`,
   * then the subsections after that `h3`, under its text.
   */
  function ChunksFrom(sub: Option<string>, ns: seq<Node>): seq<Chunk>
    decreases |ns|, 1
  {
    Opened(sub, Blocks(ns[..NextSubheading(ns)])) + LaterChunks(ns)
  }

  /** The subsections after the first `h3` of `ns`, none when it has none. */
  function LaterChunks(ns: seq<Node>): seq<Chunk>
    decreases |ns|, 0
  {
    var e := NextSubheading(ns);
    if e == |ns| then [] else ChunksFrom(Some(ns[e].text), ns[e + 1..])
  }

  /**
   * The section cut at its `h3`s: every `h3`-free stretch with text becomes
   * one subsection of its blocks, under the text of the `h3` before it (None
   * for the stretch before the first `h3`).
   */
  function SectionReference(region: seq<Node>): seq<Chunk> {
    ChunksFrom(None, region)
  }

  /** What the scan from `s` yields over `rest`, in the terms of the reference. */
  predicate RunFollowsReference(s: SectionScan, rest: seq<Node>) {
    SectionRun(s, rest)
    == Flush(s.(pending := s.pending + Blocks(rest[..NextSubheading(rest)]))) + LaterChunks(rest)
  }

  lemma FlushOpens(s: SectionScan)
    ensures Flush(s) == s.done + Opened(s.subheading, s.pending)
  {
  }

  /** A sibling other than an `h3` adds its block to the pending ones. */
  lemma StepOfBlock(s: SectionScan, n: Node)
    requires !IsHeading(n, 3)
    ensures SectionStep(s, n) == s.(pending := s.pending + BlockOf(n))
  {
    if BlockText(n).None? {
      assert s.pending + [] == s.pending;
    }
  }

  /** From any state, the scan follows the reference. */
  lemma {:induction false} RunMatchesReference(s: SectionScan, rest: seq<Node>)
    ensures RunFollowsReference(s, rest)
    decreases |rest|
  {
    if rest == [] {
      assert rest[..0] == [] && s.pending + [] == s.pending;
    } else if IsHeading(rest[0], 3) {
      RunMatchesReference(SectionStep(s, rest[0]), rest[1..]);
      SubheadingStep(s, rest);
    } else {
      RunMatchesReference(SectionStep(s, rest[0]), rest[1..]);
      BlockStep(s, rest);
    }
  }

  /** The step of `RunMatchesReference` at an `h3`, given the claim for the siblings after it. */
  lemma SubheadingStep(s: SectionScan, rest: seq<Node>)
    requires rest != [] && IsHeading(rest[0], 3)
    requires RunFollowsReference(SectionStep(s, rest[0]), rest[1..])
    ensures RunFollowsReference(s, rest)
  {
    var ns := rest[1..];
    var sub := Some(rest[0].text);
    var b := Blocks(ns[..NextSubheading(ns)]);
    assert rest[..0] == [] && s.pending + [] == s.pending;
    assert rest[1..] == ns;
    FlushOpens(SectionScan(Flush(s), sub, [] + b));
    assert [] + b == b;
    ConcatAssoc(Flush(s), Opened(sub, b), LaterChunks(ns));
  }

  /** The step of `RunMatchesReference` at any other sibling, given the claim for the siblings after it. */
  lemma BlockStep(s: SectionScan, rest: seq<Node>)
    requires rest != [] && !IsHeading(rest[0], 3)
    requires RunFollowsReference(SectionStep(s, rest[0]), rest[1..])
    ensures RunFollowsReference(s, rest)
  {
    var ns := rest[1..];
    StepOfBlock(s, rest[0]);
    BlocksBeforeSubheading(rest);
    LaterChunksStep(rest);
    ConcatAssoc(s.pending, BlockOf(rest[0]), Blocks(ns[..NextSubheading(ns)]));
  }

  /** The blocks before the first `h3` of `rest`, when `rest` does not start with one. */
  lemma BlocksBeforeSubheading(rest: seq<Node>)
    requires rest != [] && !IsHeading(rest[0], 3)
    ensures Blocks(rest[..NextSubheading(rest)])
         == BlockOf(rest[0]) + Blocks(rest[1..][..NextSubheading(rest[1..])])
  {
    PrefixTail(rest, NextSubheading(rest));
  }

  /** A first sibling other than an `h3` leaves the later subsections alone. */
  lemma LaterChunksStep(rest: seq<Node>)
    requires rest != [] && !IsHeading(rest[0], 3)
    ensures LaterChunks(rest) == LaterChunks(rest[1..])
  {
    var e := NextSubheading(rest);
    if e < |rest| {
      TailShift(rest, e);
    }
  }

  /**
   * Where a section splits: the subsections `_extract_content` writes for a
   * section are exactly the section cut at its `h3`s, each `h3`-free stretch
   * with text under the subheading of the `h3` before it.
   */
  lemma SectionMatchesReference(region: seq<Node>)
    ensures SectionChunks(region) == SectionReference(region)
  {
    RunMatchesReference(Start, region);
    var b := Blocks(region[..NextSubheading(region)]);
    assert [] + b == b;
    FlushOpens(SectionScan([], None, b));
    assert [] + Opened(None, b) == Opened(None, b);
  }

  lemma {:induction false} RenderAllAt(heading: string, cs: seq<Chunk>, j: nat)
    requires j < |cs|
    ensures RenderAll(heading, cs)[j] == Render(heading, cs[j])
    decreases |cs|
  {
    if j < |cs| - 1 {
      RenderAllAt(heading, cs[..|cs| - 1], j);
    }
  }

  /**
   * Every record `_extract_content` returns has non-empty content and the text
   * of a non-`FAQS` `h2` as its heading.
   */
  lemma {:induction false} ContentRecordsWellFormed(nodes: seq<Node>, k: nat)
    requires k <= |nodes|
    ensures forall r :: r in ContentUpTo(nodes, k) ==>
              r.content != [] &&
              exists i :: 0 <= i < k && IsSectionHeading(nodes[i]) && nodes[i].text == r.heading
    decreases k
  {
    if k > 0 {
      ContentRecordsWellFormed(nodes, k - 1);
      var i := k - 1;
      if IsSectionHeading(nodes[i]) {
        var cs := SectionChunks(Region(nodes, i));
        SectionKeepsEveryBlock(Region(nodes, i));
        var rs := RenderAll(nodes[i].text, cs);
        forall j | 0 <= j < |rs|
          ensures rs[j].content != [] && rs[j].heading == nodes[i].text
        {
          RenderAllAt(nodes[i].text, cs, j);
          assert WellFormed(cs[j]);
          JoinNonEmpty(cs[j].blocks, "\n\n");
        }
      }
    }
  }

  /** The subsections of the scenario below: one per `h3`, each with its paragraph. */
  lemma TwoSubheadingChunks(a: string, x: string, b: string, y: string)
    requires x != [] && y != []
    ensures SectionChunks([Heading(3, a, None), Para(x, None), Heading(3, b, None), Para(y, None)])
         == [Chunk(Some(a), [x]), Chunk(Some(b), [y])]
  {
    var region := [Heading(3, a, None), Para(x, None), Heading(3, b, None), Para(y, None)];
    var s1 := SectionStep(Start, region[0]);
    assert s1 == SectionScan([], Some(a), []);
    var s2 := SectionStep(s1, region[1]);
    assert s2 == SectionScan([], Some(a), [x]);
    var s3 := SectionStep(s2, region[2]);
    assert s3 == SectionScan([Chunk(Some(a), [x])], Some(b), []);
    var s4 := SectionStep(s3, region[3]);
    assert s4 == SectionScan([Chunk(Some(a), [x])], Some(b), [y]);
    var cs := [Chunk(Some(a), [x]), Chunk(Some(b), [y])];
    assert SectionRun(s4, region[4..]) == cs;
    assert SectionRun(s3, region[3..]) == cs;
    assert SectionRun(s2, region[2..]) == cs;
    assert SectionRun(s1, region[1..]) == cs;
  }

  /** Nodes that are not section headings add no records. */
  lemma {:induction false} NoHeadingNoRecords(nodes: seq<Node>, j: nat, k: nat)
    requires j <= k <= |nodes|
    requires forall i :: j <= i < k ==> !IsHeading(nodes[i], 2)
    ensures ContentUpTo(nodes, k) == ContentUpTo(nodes, j)
    decreases k
  {
    if j < k {
      NoHeadingNoRecords(nodes, j, k - 1);
      assert SectionRecords(nodes, k - 1) == [];
      assert ContentUpTo(nodes, k) == ContentUpTo(nodes, k - 1) + [];
    }
  }

  /** The scenario of two `h3` subsections, each with one paragraph, under one `h2`. */
  lemma TwoSubheadingsGiveTwoRecords()
    ensures Content([Heading(2, "Background", None), Heading(3, "Economy", None), Para("GDP grew.", None),
                     Heading(3, "Polity", None), Para("Bill passed.", None)])
         == [ContentRecord("Background", Some("Economy"), "GDP grew."),
             ContentRecord("Background", Some("Polity"), "Bill passed.")]
  {
    var nodes := [Heading(2, "Background", None), Heading(3, "Economy", None), Para("GDP grew.", None),
                  Heading(3, "Polity", None), Para("Bill passed.", None)];
    assert |Upper(nodes[0].text)| != |"FAQS"|;
    assert ScanEnd(nodes, 4) == 5;
    assert ScanEnd(nodes, 2) == ScanEnd(nodes, 4);
    assert ScanEnd(nodes, 1) == 5;
    var region := nodes[1..5];
    TwoSubheadingChunks("Economy", "GDP grew.", "Polity", "Bill passed.");
    assert region == [Heading(3, "Economy", None), Para("GDP grew.", None), Heading(3, "Polity", None), Para("Bill passed.", None)];
    var cs := [Chunk(Some("Economy"), ["GDP grew."]), Chunk(Some("Polity"), ["Bill passed."])];
    assert SectionChunks(Region(nodes, 0)) == cs;
    assert cs[..1] == [cs[0]];
    assert RenderAll("Background", cs) == [Render("Background", cs[0]), Render("Background", cs[1])];
    assert SectionRecords(nodes, 0) == RenderAll("Background", cs);
    assert ContentUpTo(nodes, 1) == [] + SectionRecords(nodes, 0);
    NoHeadingNoRecords(nodes, 1, 5);
  }

  /** An `h2` followed straight away by another heading yields no record. */
  lemma EmptySectionYieldsNothing()
    ensures Content([Heading(2, "Why in News", None), Heading(2, "Background", None), Para("Text.", None)])
         == [ContentRecord("Background", None, "Text.")]
  {
    var nodes := [Heading(2, "Why in News", None), Heading(2, "Background", None), Para("Text.", None)];
    assert |Upper(nodes[0].text)| != |"FAQS"|;
    assert |Upper(nodes[1].text)| != |"FAQS"|;
    assert ScanEnd(nodes, 1) == 1;
    assert SectionChunks(nodes[1..1]) == [];
    assert ScanEnd(nodes, 2) == 3;
    var region := nodes[2..3];
    var s1 := SectionStep(Start, region[0]);
    assert s1 == SectionScan([], None, ["Text."]);
    assert SectionRun(s1, region[1..]) == Flush(s1);
    assert SectionChunks(region) == [Chunk(None, ["Text."])];
    assert ContentUpTo(nodes, 1) == [];
    assert ContentUpTo(nodes, 2) == [ContentRecord("Background", None, "Text.")];
  }
}
