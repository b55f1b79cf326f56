/**
 * An article container as the extractors see it: its elements as one flat run
 * of nodes in document order. `find` is the first matching node, `find_all`
 * all of them in order, and `find_next_sibling` the next node of the run.
 * Text fields hold `get_text(strip=True)` of the element, except where a
 * field says it holds `.text`: the extractors read an `h4` and its title
 * link only through `.text`, which keeps the whitespace between child strings.
 */
module Dom {
  import opened Wrappers
  import opened Text
  import TextCleaning

  datatype ListTag = Ul | Ol

  /** The `href` and `title` attributes of an `<a>`; a missing attribute reads as "". */
  datatype Link = Link(href: string, title: string)

  /** The `a.text-danger` link inside an `h4`: its `.text`, unstripped, and its `href` ("" when absent). */
  datatype TitleLink = TitleLink(text: string, href: string)

  /** A `td` (or, with `isHeader`, a `th`): its stripped, non-empty text fragments in order. */
  datatype Cell = Cell(isHeader: bool, fragments: seq<string>)

  datatype Node =
    | Heading(level: nat, text: string, titleLink: Option<TitleLink>)
      // <h1>..<h6>; `text` is `.text` for an `h4`, `get_text(strip=True)` for the others;
      // `titleLink` is the first `a.text-danger` inside it
    | Para(text: string, strong: Option<string>)
      // <p>; `strong` is the raw text of its first <strong>, if it has one
    | ListNode(tag: ListTag, items: seq<string>)
      // <ul>/<ol>; `items` are the texts of its direct <li> children
    | Table(classes: seq<string>, rows: seq<seq<Cell>>)
      // <table>; one entry per <tr>, holding that row's td/th cells
    | Img(classes: seq<string>, src: string, alt: string,
          width: Option<string>, height: Option<string>, parentLink: Option<Link>)
      // <img>; `src`/`alt` read as "" when absent; `parentLink` is the enclosing <a>
    | Other

  predicate IsHeading(n: Node, level: nat) {
    n.Heading? && n.level == level
  }

  /** Where every sibling scan stops: the next `h2` or `h4`. */
  predicate IsBoundary(n: Node) {
    IsHeading(n, 2) || IsHeading(n, 4)
  }

  /** The index of the first node at or after `j` that ends a scan, or `|nodes|`. */
  function ScanEnd(nodes: seq<Node>, j: nat): (e: nat)
    requires j <= |nodes|
    ensures j <= e <= |nodes|
    ensures forall k :: j <= k < e ==> !IsBoundary(nodes[k])
    ensures e < |nodes| ==> IsBoundary(nodes[e])
    decreases |nodes| - j
  {
    if j == |nodes| then j
    else if IsBoundary(nodes[j]) then j
    else ScanEnd(nodes, j + 1)
  }

  /**
   * The bounded sibling scan shared by every extractor: the siblings after
   * `nodes[i]` up to, not including, the next `h2` or `h4`.
   */
  function Region(nodes: seq<Node>, i: nat): (r: seq<Node>)
    requires i < |nodes|
    ensures forall k :: 0 <= k < |r| ==> !IsBoundary(r[k])
  {
    nodes[i + 1..ScanEnd(nodes, i + 1)]
  }

  /** `find`: the index of the first node satisfying `p`. */
  function FindFirst(nodes: seq<Node>, p: Node -> bool): (r: Option<nat>)
    ensures r.Some? ==> r.value < |nodes| && p(nodes[r.value])
    ensures r.Some? ==> forall k :: 0 <= k < r.value ==> !p(nodes[k])
    ensures r.None? ==> forall k :: 0 <= k < |nodes| ==> !p(nodes[k])
    decreases |nodes|
  {
    if nodes == [] then None
    else if p(nodes[0]) then Some(0)
    else match FindFirst(nodes[1..], p)
      case None => None
      case Some(k) => Some(k + 1)
  }

  predicate IsH4(n: Node) {
    IsHeading(n, 4)
  }

  /** The metadata table: `table.table-bordered`. */
  predicate IsMetadataTable(n: Node) {
    n.Table? && "table-bordered" in n.classes
  }

  /** `td.get_text(strip=True)`: the fragments run together. */
  function CellText(c: Cell): string {
    Join(c.fragments, "")
  }

  /** `[l.strip() for l in lines if l.strip()]`. */
  function NonBlankLines(lines: seq<string>): (r: seq<string>)
    ensures forall k :: 0 <= k < |r| ==> r[k] != [] && IsStripped(r[k])
    decreases |lines|
  {
    if lines == [] then []
    else
      var last := Strip(lines[|lines| - 1]);
      NonBlankLines(lines[..|lines| - 1]) + (if last != [] then [last] else [])
  }

  /** The comprehension is `extract_paragraphs`' filter with a minimum length of one. */
  lemma {:induction false} NonBlankIsLongLines(lines: seq<string>)
    ensures NonBlankLines(lines) == TextCleaning.LongLines(lines, 1)
    decreases |lines|
  {
    if lines != [] {
      NonBlankIsLongLines(lines[..|lines| - 1]);
    }
  }

  /**
   * Line `k` is kept, stripped, exactly when it is not blank, between the
   * kept lines before and after it.
   */
  lemma NonBlankLinesAt(lines: seq<string>, k: int)
    requires 0 <= k < |lines|
    ensures NonBlankLines(lines)
            == NonBlankLines(lines[..k])
               + (if Strip(lines[k]) != [] then [Strip(lines[k])] else [])
               + NonBlankLines(lines[k + 1..])
  {
    NonBlankIsLongLines(lines);
    NonBlankIsLongLines(lines[..k]);
    NonBlankIsLongLines(lines[k + 1..]);
    TextCleaning.LongLinesAt(lines, 1, k);
  }

  /** The lines of `td.get_text(separator='\n', strip=True)`, stripped, blank ones dropped. */
  function CellLines(c: Cell): seq<string> {
    NonBlankLines(Split(Join(c.fragments, "\n"), '\n'))
  }

  /** `table.find('td')`: the first non-header cell, rows in order. */
  function FirstTd(rows: seq<seq<Cell>>): Option<Cell>
    decreases |rows|
  {
    if rows == [] then None
    else
      var row := rows[0];
      var k := FirstTdInRow(row);
      if k < |row| then Some(row[k]) else FirstTd(rows[1..])
  }

  function FirstTdInRow(row: seq<Cell>): (k: nat)
    ensures k <= |row| && (k < |row| ==> !row[k].isHeader)
    ensures forall j :: 0 <= j < k ==> row[j].isHeader
    decreases |row|
  {
    if row == [] then 0 else if !row[0].isHeader then 0 else 1 + FirstTdInRow(row[1..])
  }
}
