/**
 * `_extract_metadata`: the Prelims/Mains syllabus lines of the Sanskriti IAS
 * source, read from the first cell of the first `table.table-bordered`.
 * Each line is tested in order; a later matching line overwrites an earlier one.
 */
module SanskritiMetadata {
  import opened Wrappers
  import opened Text
  import opened Dom
  import opened Documents

  const NoMetadata := Metadata(None, None, [])

  predicate IsPrelimsLine(line: string) {
    StartsWith(line, "Prelims:")
  }

  /** The `elif`: mentions `Mains` and holds a colon or a comma. */
  predicate IsMainsLine(line: string) {
    !IsPrelimsLine(line) && Contains(line, "Mains") && (Contains(line, ":") || Contains(line, ","))
  }

  /** `line.replace('Prelims:', '').strip()`. */
  function PrelimsValue(line: string): string {
    Strip(ReplaceAll(line, "Prelims:", ""))
  }

  /** `line.replace('Mains:', '').replace('Mains,', '').strip()`. */
  function MainsValue(line: string): string {
    Strip(ReplaceAll(ReplaceAll(line, "Mains:", ""), "Mains,", ""))
  }

  function MetadataStep(m: Metadata, line: string): Metadata {
    if IsPrelimsLine(line) then m.(prelims := Some(PrelimsValue(line)))
    else if IsMainsLine(line) then m.(mains := Some(MainsValue(line)))
    else m
  }

  /** The metadata after the loop over `lines`. */
  function ParseLines(lines: seq<string>): Metadata
    decreases |lines|
  {
    if lines == [] then NoMetadata
    else MetadataStep(ParseLines(lines[..|lines| - 1]), lines[|lines| - 1])
  }

  /** What `_extract_metadata` returns for the nodes of an article container. */
  function MetadataOf(nodes: seq<Node>): Metadata {
    match FindFirst(nodes, IsMetadataTable)
    case None => NoMetadata
    case Some(i) =>
      match FirstTd(nodes[i].rows)
      case None => NoMetadata
      case Some(td) => ParseLines(CellLines(td))
  }

  /** `_extract_metadata`: locate the cell, then walk its lines. */
  method ExtractMetadata(nodes: seq<Node>) returns (m: Metadata)
    ensures m == MetadataOf(nodes)
  {
    m := NoMetadata;
    var table := FindFirst(nodes, IsMetadataTable);
    if table.None? {
      return;
    }
    var td := FirstTd(nodes[table.value].rows);
    if td.None? {
      return;
    }
    m := ParseCellLines(CellLines(td.value));
  }

  /** The loop over the cell's lines. */
  method ParseCellLines(lines: seq<string>) returns (m: Metadata)
    ensures m == ParseLines(lines)
  {
    m := NoMetadata;
    var k := 0;
    while k < |lines|
      invariant 0 <= k <= |lines|
      invariant m == ParseLines(lines[..k])
    {
      var line := lines[k];
      assert lines[..k + 1][..k] == lines[..k];
      assert ParseLines(lines[..k + 1]) == MetadataStep(ParseLines(lines[..k]), line);
      if StartsWith(line, "Prelims:") {
        m := m.(prelims := Some(Strip(ReplaceAll(line, "Prelims:", ""))));
      } else if Contains(line, "Mains") && (Contains(line, ":") || Contains(line, ",")) {
        m := m.(mains := Some(Strip(ReplaceAll(ReplaceAll(line, "Mains:", ""), "Mains,", ""))));
      }
      k := k + 1;
    }
    assert lines[..|lines|] == lines;
  }

  // ---------------------------------------------------------------------
  // Last matching line wins
  // ---------------------------------------------------------------------

  /** The index of the last line satisfying `p`. */
  function LastWhere(lines: seq<string>, p: string -> bool): (r: Option<nat>)
    ensures r.Some? ==> r.value < |lines| && p(lines[r.value])
    ensures r.Some? ==> forall k :: r.value < k < |lines| ==> !p(lines[k])
    ensures r.None? ==> forall k :: 0 <= k < |lines| ==> !p(lines[k])
    decreases |lines|
  {
    if lines == [] then None
    else if p(lines[|lines| - 1]) then Some(|lines| - 1)
    else LastWhere(lines[..|lines| - 1], p)
  }

  lemma {:induction false} LastPrelimsLineWins(lines: seq<string>)
    ensures ParseLines(lines).prelims
         == (match LastWhere(lines, IsPrelimsLine) case Some(k) => Some(PrelimsValue(lines[k])) case None => None)
    decreases |lines|
  {
    if lines != [] {
      var init := lines[..|lines| - 1];
      assert ParseLines(init).prelims
          == (match LastWhere(init, IsPrelimsLine) case Some(k) => Some(PrelimsValue(init[k])) case None => None)
      by {
        LastPrelimsLineWins(init);
      }
      if !IsPrelimsLine(lines[|lines| - 1]) {
        assert LastWhere(lines, IsPrelimsLine) == LastWhere(init, IsPrelimsLine);
        assert forall k :: 0 <= k < |init| ==> init[k] == lines[k];
      }
    }
  }

  lemma {:induction false} LastMainsLineWins(lines: seq<string>)
    ensures ParseLines(lines).mains
         == (match LastWhere(lines, IsMainsLine) case Some(k) => Some(MainsValue(lines[k])) case None => None)
    decreases |lines|
  {
    if lines != [] {
      var init := lines[..|lines| - 1];
      assert ParseLines(init).mains
          == (match LastWhere(init, IsMainsLine) case Some(k) => Some(MainsValue(init[k])) case None => None)
      by {
        LastMainsLineWins(init);
      }
      if !IsMainsLine(lines[|lines| - 1]) {
        assert LastWhere(lines, IsMainsLine) == LastWhere(init, IsMainsLine);
        assert forall k :: 0 <= k < |init| ==> init[k] == lines[k];
      }
    }
  }

  lemma {:induction false} TagsStayEmpty(lines: seq<string>)
    ensures ParseLines(lines).tags == []
    decreases |lines|
  {
    if lines != [] {
      TagsStayEmpty(lines[..|lines| - 1]);
    }
  }

  /**
   * `prelims` comes from the last `Prelims:` line and `mains` from the last
   * Mains line, each None when there is no such line; `tags` stays empty.
   */
  lemma LastMatchingLineWins(lines: seq<string>)
    ensures ParseLines(lines).prelims
         == (match LastWhere(lines, IsPrelimsLine) case Some(k) => Some(PrelimsValue(lines[k])) case None => None)
    ensures ParseLines(lines).mains
         == (match LastWhere(lines, IsMainsLine) case Some(k) => Some(MainsValue(lines[k])) case None => None)
    ensures ParseLines(lines).tags == []
  {
    LastPrelimsLineWins(lines);
    LastMainsLineWins(lines);
    TagsStayEmpty(lines);
  }

  /** A `Prelims: v` line yields `v` stripped, when `v` does not repeat the label. */
  lemma PrelimsLabelRemoved(v: string)
    requires !Contains(v, "Prelims:")
    ensures IsPrelimsLine("Prelims:" + v)
    ensures PrelimsValue("Prelims:" + v) == Strip(v)
  {
    var line := "Prelims:" + v;
    assert line[..8] == "Prelims:";
    assert ReplaceAll(line, "Prelims:", "") == v by {
      ReplaceLeading("Prelims:", v, "");
      ReplaceAbsent(v, "Prelims:", "");
      assert "" + v == v;
    }
  }

  /** A `Mains: v` line yields `v` stripped, when `v` holds neither `Mains:` nor `Mains,`. */
  lemma MainsLabelRemoved(v: string)
    requires !Contains(v, "Mains:") && !Contains(v, "Mains,")
    ensures IsMainsLine("Mains:" + v)
    ensures MainsValue("Mains:" + v) == Strip(v)
  {
    var line := "Mains:" + v;
    assert !IsPrelimsLine(line) by {
      if |line| >= 8 {
        assert line[..8][0] == 'M' != "Prelims:"[0];
      }
    }
    assert line[..5] == "Mains";
    ContainsAt(line, "Mains", 0);
    assert line[5..6] == ":";
    ContainsAt(line, ":", 5);
    assert ReplaceAll(line, "Mains:", "") == v by {
      ReplaceLeading("Mains:", v, "");
      ReplaceAbsent(v, "Mains:", "");
      assert "" + v == v;
    }
    ReplaceAbsent(v, "Mains,", "");
  }
}
