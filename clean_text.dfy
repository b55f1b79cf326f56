/**
 * The text normalisers of the scraper's parser package: `clean_text`
 * (entity decoding and tag removal, then every whitespace run becomes one
 * space and the ends are stripped), `extract_paragraphs`,
 * `normalize_whitespace` (space runs become one space, runs of two or more
 * newlines become exactly two) and the `clean_article_text` pipeline.
 * `html.unescape`, the tag-removal substitution and `remove_boilerplate` are
 * parameters of the model.
 */
module TextCleaning {
  import opened Text

  // ---------------------------------------------------------------------
  // clean_text
  // ---------------------------------------------------------------------

  /** No two whitespace characters in a row. */
  predicate SingleSpaced(s: string) {
    forall i :: 0 <= i < |s| - 1 ==> !(IsSpace(s[i]) && IsSpace(s[i + 1]))
  }

  /** The only whitespace is the plain space: no newlines, tabs or other spaces. */
  predicate OnlyPlainSpaces(s: string) {
    forall i :: 0 <= i < |s| ==> IsSpace(s[i]) ==> s[i] == ' '
  }

  /** `re.sub(r'\s+', ' ', s)`: each maximal whitespace run becomes one space. */
  function CollapseSpaces(s: string): (r: string)
    ensures SingleSpaced(r) && OnlyPlainSpaces(r)
    ensures s == [] <==> r == []
    ensures s != [] ==> (IsSpace(r[0]) <==> IsSpace(s[0]))
    decreases |s|
  {
    if s == [] then []
    else if IsSpace(s[0]) then [' '] + CollapseSpaces(LStrip(s))
    else [s[0]] + CollapseSpaces(s[1..])
  }

  /** A slice keeps both properties. */
  lemma SliceSpacing(s: string, i: nat, j: nat)
    requires i <= j <= |s| && SingleSpaced(s) && OnlyPlainSpaces(s)
    ensures SingleSpaced(s[i..j]) && OnlyPlainSpaces(s[i..j])
  {
    assert forall k :: 0 <= k < j - i ==> s[i..j][k] == s[i + k];
  }

  /**
   * `clean_text`: `""` for empty input; otherwise entities decoded (`unescape`),
   * tags removed (`stripTags`), whitespace collapsed, ends stripped.
   */
  function CleanText(text: string, unescape: string -> string, stripTags: string -> string): (r: string)
    ensures text == [] ==> r == []
    ensures IsStripped(r) && SingleSpaced(r) && OnlyPlainSpaces(r)
  {
    if text == [] then []
    else
      var c := CollapseSpaces(stripTags(unescape(text)));
      var r := Strip(c);
      SliceSpacing(c, |c| - |LStrip(c)|, |c| - |LStrip(c)| + |r|);
      r
  }

  /** Text that is already clean is its own whitespace cleaning. */
  lemma {:induction false} CollapseClean(s: string)
    requires SingleSpaced(s) && OnlyPlainSpaces(s)
    ensures CollapseSpaces(s) == s
    decreases |s|
  {
    if s != [] {
      SliceSpacing(s, 1, |s|);
      CollapseClean(s[1..]);
      if IsSpace(s[0]) {
        assert s[1..] == [] || !IsSpace(s[1]);
        assert LStrip(s) == s[1..];
      }
    }
  }

  /** Cleaning is idempotent once entities and tags are gone. */
  lemma CleanTextIdempotent(text: string, unescape: string -> string, stripTags: string -> string)
    requires var c := CleanText(text, unescape, stripTags); unescape(c) == c && stripTags(c) == c
    ensures CleanText(CleanText(text, unescape, stripTags), unescape, stripTags) == CleanText(text, unescape, stripTags)
  {
    var c := CleanText(text, unescape, stripTags);
    if c != [] {
      CollapseClean(c);
      StripOfStripped(c);
    }
  }

  // ---------------------------------------------------------------------
  // extract_paragraphs
  // ---------------------------------------------------------------------

  /** `[p.strip() for p in lines if len(p.strip()) >= minLength]`. */
  function LongLines(lines: seq<string>, minLength: int): (r: seq<string>)
    ensures |r| <= |lines|
    ensures forall k :: 0 <= k < |r| ==> IsStripped(r[k]) && |r[k]| >= minLength
    decreases |lines|
  {
    if lines == [] then []
    else LongLines(lines[..|lines| - 1], minLength)
         + (if |Strip(lines[|lines| - 1])| >= minLength then [Strip(lines[|lines| - 1])] else [])
  }

  /** `extract_paragraphs(text, min_length)`: the long enough lines, stripped, in order. */
  function ExtractParagraphs(text: string, minLength: int): seq<string> {
    LongLines(Split(text, '\n'), minLength)
  }

  /** The paragraphs of two runs of lines are those of each, in order. */
  lemma {:induction false} LongLinesConcat(a: seq<string>, b: seq<string>, minLength: int)
    ensures LongLines(a + b, minLength) == LongLines(a, minLength) + LongLines(b, minLength)
    decreases |b|
  {
    if b == [] {
      assert a + b == a;
    } else {
      LongLinesConcat(a, b[..|b| - 1], minLength);
      LongLinesConcatStep(a, b, minLength);
    }
  }

  /** The last line of `b` is the last line of `a + b`. */
  lemma LongLinesConcatStep(a: seq<string>, b: seq<string>, minLength: int)
    requires b != []
    requires var init := b[..|b| - 1];
               LongLines(a + init, minLength) == LongLines(a, minLength) + LongLines(init, minLength)
    ensures LongLines(a + b, minLength) == LongLines(a, minLength) + LongLines(b, minLength)
  {
    var init, last := b[..|b| - 1], b[|b| - 1];
    var tail := if |Strip(last)| >= minLength then [Strip(last)] else [];
    InitConcat(a, b);
    assert LongLines(a + b, minLength) == LongLines(a + init, minLength) + tail;
    assert LongLines(b, minLength) == LongLines(init, minLength) + tail;
    ConcatAssoc(LongLines(a, minLength), LongLines(init, minLength), tail);
  }

  /**
   * Line `k` is kept, stripped, exactly when its stripped length reaches the
   * minimum, and it lands between the paragraphs of the lines before and after it.
   */
  lemma LongLinesAt(lines: seq<string>, minLength: int, k: int)
    requires 0 <= k < |lines|
    ensures LongLines(lines, minLength)
            == LongLines(lines[..k], minLength)
               + (if |Strip(lines[k])| >= minLength then [Strip(lines[k])] else [])
               + LongLines(lines[k + 1..], minLength)
  {
    SplitAround(lines, k);
    LongLinesConcat(lines[..k] + [lines[k]], lines[k + 1..], minLength);
    LongLinesConcat(lines[..k], [lines[k]], minLength);
    assert [lines[k]][..0] == [];
  }

  /** With no minimum every line is kept, blank ones included. */
  lemma {:induction false} NoMinimumKeepsEveryLine(lines: seq<string>, minLength: int)
    requires minLength <= 0
    ensures |LongLines(lines, minLength)| == |lines|
    ensures forall k :: 0 <= k < |lines| ==> LongLines(lines, minLength)[k] == Strip(lines[k])
    decreases |lines|
  {
    if lines != [] {
      var init := lines[..|lines| - 1];
      NoMinimumKeepsEveryLine(init, minLength);
      var r := LongLines(lines, minLength);
      assert r == LongLines(init, minLength) + [Strip(lines[|lines| - 1])];
      forall k | 0 <= k < |lines|
        ensures r[k] == Strip(lines[k])
      {
        if k < |init| {
          assert r[k] == LongLines(init, minLength)[k];
          assert init[k] == lines[k];
        }
      }
    }
  }

  /** A line of text is kept exactly when its stripped length reaches the minimum. */
  lemma OneLine(text: string, minLength: int)
    requires '\n' !in text
    ensures ExtractParagraphs(text, minLength) == (if |Strip(text)| >= minLength then [Strip(text)] else [])
  {
    SplitNoSep(text, '\n');
    assert [text][..0] == [];
  }

  // ---------------------------------------------------------------------
  // normalize_whitespace
  // ---------------------------------------------------------------------

  /** No two copies of `c` in a row. */
  predicate NoDouble(s: string, c: char) {
    forall i :: 0 <= i < |s| - 1 ==> !(s[i] == c && s[i + 1] == c)
  }

  /** Three copies of `c` start at position `i`. */
  predicate TripleAt(s: string, i: int, c: char) {
    0 <= i < |s| - 2 && s[i] == c && s[i + 1] == c && s[i + 2] == c
  }

  /** No three copies of `c` in a row. */
  predicate NoTriple(s: string, c: char) {
    forall i | 0 <= i < |s| - 2 :: !TripleAt(s, i, c)
  }

  /** `s` without its leading copies of `c`. */
  function DropLeading(s: string, c: char): (r: string)
    ensures |r| <= |s| && r == s[|s| - |r|..]
    ensures r == [] || r[0] != c
    decreases |s|
  {
    if s != [] && s[0] == c then DropLeading(s[1..], c) else s
  }

  /** `re.sub(r' +', ' ', s)`. */
  function SqueezeSpaces(s: string): (r: string)
    ensures NoDouble(r, ' ')
    ensures s == [] <==> r == []
    ensures s != [] ==> r[0] == s[0]
    decreases |s|
  {
    if s == [] then []
    else if s[0] == ' ' then [' '] + SqueezeSpaces(DropLeading(s[1..], ' '))
    else [s[0]] + SqueezeSpaces(s[1..])
  }

  /** `re.sub(r'\n\n+', '\n\n', s)`; spaces are left alone. */
  function SqueezeNewlines(s: string): (r: string)
    ensures NoTriple(r, '\n')
    ensures NoDouble(s, ' ') ==> NoDouble(r, ' ')
    ensures s == [] <==> r == []
    ensures s != [] ==> r[0] == s[0]
    decreases |s|
  {
    if s == [] then []
    else if |s| >= 2 && s[0] == '\n' && s[1] == '\n' then
      var rest := SqueezeNewlines(DropLeading(s[2..], '\n'));
      PrependNoTriple("\n\n", rest, '\n');
      "\n\n" + rest
    else
      var rest := SqueezeNewlines(s[1..]);
      PrependNoTriple([s[0]], rest, '\n');
      [s[0]] + rest
  }

  /** One or two characters put in front of a string without three copies of `c` in a row at the seam. */
  lemma PrependNoTriple(x: string, t: string, c: char)
    requires 1 <= |x| <= 2 && NoTriple(t, c)
    requires !TripleAt(x + t, 0, c) && (|x| == 2 ==> !TripleAt(x + t, 1, c))
    ensures NoTriple(x + t, c)
  {
    forall k | 0 <= k < |x + t| - 2
      ensures !TripleAt(x + t, k, c)
    {
      if k >= |x| {
        assert !TripleAt(t, k - |x|, c);
      }
    }
  }

  /** A piece of a string has no double space when the string has none. */
  lemma SliceNoDouble(s: string, r: string, i: nat)
    requires i + |r| <= |s| && r == s[i..i + |r|] && NoDouble(s, ' ')
    ensures NoDouble(r, ' ')
  {
    assert forall k :: 0 <= k < |r| ==> r[k] == s[i + k];
  }

  /** A piece of a string has no three newlines in a row when the string has none. */
  lemma SliceNoTriple(s: string, r: string, i: nat)
    requires i + |r| <= |s| && r == s[i..i + |r|] && NoTriple(s, '\n')
    ensures NoTriple(r, '\n')
  {
    forall k
      ensures !TripleAt(r, k, '\n')
    {
      if 0 <= k < |r| - 2 {
        assert !TripleAt(s, i + k, '\n');
      }
    }
  }

  // ---------------------------------------------------------------------
  // What the substitutions keep
  // ---------------------------------------------------------------------

  /** `s` with every `c` deleted: what is left when only the runs of `c` are rewritten. */
  function DropChar(s: string, c: char): (r: string)
    ensures |r| <= |s|
    decreases |s|
  {
    if s == [] then [] else (if s[0] == c then [] else [s[0]]) + DropChar(s[1..], c)
  }

  /** `s` with every whitespace character deleted. */
  function DropWhitespace(s: string): (r: string)
    ensures |r| <= |s|
    decreases |s|
  {
    if s == [] then [] else (if IsSpace(s[0]) then [] else [s[0]]) + DropWhitespace(s[1..])
  }

  lemma DropCharCons(x: char, t: string, c: char)
    ensures DropChar([x] + t, c) == (if x == c then [] else [x]) + DropChar(t, c)
  {
    assert ([x] + t)[1..] == t;
  }

  lemma DropWhitespaceCons(x: char, t: string)
    ensures DropWhitespace([x] + t) == (if IsSpace(x) then [] else [x]) + DropWhitespace(t)
  {
    assert ([x] + t)[1..] == t;
  }

  lemma {:induction false} DropWhitespaceConcat(a: string, b: string)
    ensures DropWhitespace(a + b) == DropWhitespace(a) + DropWhitespace(b)
    decreases |a|
  {
    if a == [] {
      assert a + b == b;
    } else {
      var x, t := a[0], a[1..];
      DropWhitespaceConcat(t, b);
      assert a == [x] + t;
      assert a + b == [x] + (t + b);
      DropWhitespaceCons(x, t + b);
      DropWhitespaceCons(x, t);
    }
  }

  lemma {:induction false} DropWhitespaceOfSpaces(s: string, lo: nat, hi: nat)
    requires lo <= hi <= |s|
    requires forall k :: lo <= k < hi ==> IsSpace(s[k])
    ensures DropWhitespace(s[lo..hi]) == []
    decreases hi - lo
  {
    if lo < hi {
      assert s[lo..hi][0] == s[lo];
      assert s[lo..hi][1..] == s[lo + 1..hi];
      DropWhitespaceOfSpaces(s, lo + 1, hi);
    }
  }

  lemma {:induction false} DropCharLeading(s: string, c: char)
    ensures DropChar(DropLeading(s, c), c) == DropChar(s, c)
    decreases |s|
  {
    if s != [] && s[0] == c {
      DropCharLeading(s[1..], c);
    }
  }

  lemma {:induction false} LStripKeepsText(s: string)
    ensures DropWhitespace(LStrip(s)) == DropWhitespace(s)
    decreases |s|
  {
    if s != [] && IsSpace(s[0]) {
      LStripKeepsText(s[1..]);
    }
  }

  /** `re.sub(r'\s+', ' ', s)` deletes or adds no character other than whitespace, and keeps their order. */
  lemma {:induction false} CollapseSpacesKeepsText(s: string)
    ensures DropWhitespace(CollapseSpaces(s)) == DropWhitespace(s)
    decreases |s|
  {
    if s != [] {
      if IsSpace(s[0]) {
        var t := LStrip(s);
        assert t == LStrip(s[1..]);
        CollapseSpacesKeepsText(t);
        LStripKeepsText(s);
        DropWhitespaceCons(' ', CollapseSpaces(t));
      } else {
        CollapseSpacesKeepsText(s[1..]);
        DropWhitespaceCons(s[0], CollapseSpaces(s[1..]));
      }
    }
  }

  lemma DropEmptyPrefix(s: string, i: nat)
    requires i <= |s|
    requires DropWhitespace(s[0..i]) == []
    ensures DropWhitespace(s[i..]) == DropWhitespace(s)
  {
    var a, b := s[0..i], s[i..];
    DropWhitespaceConcat(a, b);
    assert a + b == s;
  }

  lemma DropEmptySuffix(s: string, j: nat)
    requires j <= |s|
    requires DropWhitespace(s[j..]) == []
    ensures DropWhitespace(s[..j]) == DropWhitespace(s)
  {
    var a, b := s[..j], s[j..];
    DropWhitespaceConcat(a, b);
    assert a + b == s;
  }

  /** Cutting a run of whitespace off the front deletes only whitespace. */
  lemma DropSpacePrefix(s: string, i: nat)
    requires i <= |s|
    requires forall k :: 0 <= k < i ==> IsSpace(s[k])
    ensures DropWhitespace(s[i..]) == DropWhitespace(s)
  {
    DropWhitespaceOfSpaces(s, 0, i);
    DropEmptyPrefix(s, i);
  }

  /** Cutting a run of whitespace off the back deletes only whitespace. */
  lemma DropSpaceSuffix(s: string, j: nat)
    requires j <= |s|
    requires forall k :: j <= k < |s| ==> IsSpace(s[k])
    ensures DropWhitespace(s[..j]) == DropWhitespace(s)
  {
    DropWhitespaceOfSpaces(s, j, |s|);
    assert s[j..|s|] == s[j..];
    DropEmptySuffix(s, j);
  }

  /** Cutting whitespace off both ends deletes only whitespace. */
  lemma SliceKeepsText(s: string, i: nat, j: nat)
    requires i <= j <= |s|
    requires forall k :: 0 <= k < i ==> IsSpace(s[k])
    requires forall k :: j <= k < |s| ==> IsSpace(s[k])
    ensures DropWhitespace(s[i..j]) == DropWhitespace(s)
  {
    var front := s[..j];
    DropSpaceSuffix(s, j);
    DropSpacePrefix(front, i);
    assert front[i..] == s[i..j];
  }

  /** `strip()` deletes only whitespace. */
  lemma StripKeepsText(s: string)
    ensures DropWhitespace(Strip(s)) == DropWhitespace(s)
  {
    var i := |s| - |LStrip(s)|;
    StripDropsOnlyWhitespace(s);
    SliceKeepsText(s, i, i + |Strip(s)|);
  }

  /** `clean_text` keeps every character that is not whitespace, in order, once entities and tags are handled. */
  lemma CleanTextKeepsText(text: string, unescape: string -> string, stripTags: string -> string)
    requires text != []
    ensures DropWhitespace(CleanText(text, unescape, stripTags)) == DropWhitespace(stripTags(unescape(text)))
  {
    var c := CollapseSpaces(stripTags(unescape(text)));
    CollapseSpacesKeepsText(stripTags(unescape(text)));
    StripKeepsText(c);
  }

  /** `re.sub(r' +', ' ', s)` deletes or adds nothing but spaces, and keeps the order of the rest. */
  lemma {:induction false} SqueezeSpacesKeepsText(s: string)
    ensures DropChar(SqueezeSpaces(s), ' ') == DropChar(s, ' ')
    decreases |s|
  {
    if s != [] {
      if s[0] == ' ' {
        var t := DropLeading(s[1..], ' ');
        SqueezeSpacesKeepsText(t);
        DropCharLeading(s[1..], ' ');
        DropCharCons(' ', SqueezeSpaces(t), ' ');
      } else {
        SqueezeSpacesKeepsText(s[1..]);
        DropCharCons(s[0], SqueezeSpaces(s[1..]), ' ');
      }
    }
  }

  /** `re.sub(r'\n\n+', '\n\n', s)` deletes or adds nothing but newlines, and keeps the order of the rest. */
  lemma {:induction false} SqueezeNewlinesKeepsText(s: string)
    ensures DropChar(SqueezeNewlines(s), '\n') == DropChar(s, '\n')
    decreases |s|
  {
    if s != [] {
      if |s| >= 2 && s[0] == '\n' && s[1] == '\n' {
        SqueezeNewlinesKeepsText(DropLeading(s[2..], '\n'));
        SqueezeRunStep(s);
      } else {
        SqueezeNewlinesKeepsText(s[1..]);
        SqueezeOtherStep(s);
      }
    }
  }

  /** A run of two or more newlines becomes two newlines. */
  lemma SqueezeRunStep(s: string)
    requires |s| >= 2 && s[0] == '\n' && s[1] == '\n'
    requires var t := DropLeading(s[2..], '\n');
               DropChar(SqueezeNewlines(t), '\n') == DropChar(t, '\n')
    ensures DropChar(SqueezeNewlines(s), '\n') == DropChar(s, '\n')
  {
    var u := s[2..];
    var rest := SqueezeNewlines(DropLeading(u, '\n'));
    DropCharLeading(u, '\n');
    assert SqueezeNewlines(s) == "\n\n" + rest;
    DropTwoNewlines(rest);
    DropLeadingPair(s);
  }

  /** Any other character is kept and the rest is squeezed. */
  lemma SqueezeOtherStep(s: string)
    requires s != [] && !(|s| >= 2 && s[0] == '\n' && s[1] == '\n')
    requires DropChar(SqueezeNewlines(s[1..]), '\n') == DropChar(s[1..], '\n')
    ensures DropChar(SqueezeNewlines(s), '\n') == DropChar(s, '\n')
  {
    assert SqueezeNewlines(s) == [s[0]] + SqueezeNewlines(s[1..]);
    DropCharCons(s[0], SqueezeNewlines(s[1..]), '\n');
  }

  lemma DropTwoNewlines(t: string)
    ensures DropChar("\n\n" + t, '\n') == DropChar(t, '\n')
  {
    assert "\n\n" + t == ['\n'] + (['\n'] + t);
    DropCharCons('\n', ['\n'] + t, '\n');
    DropCharCons('\n', t, '\n');
  }

  lemma DropLeadingPair(s: string)
    requires |s| >= 2 && s[0] == '\n' && s[1] == '\n'
    ensures DropChar(s, '\n') == DropChar(s[2..], '\n')
  {
    var t := s[1..];
    assert t[0] == '\n';
    assert t[1..] == s[2..];
  }

  /** Stripping keeps both properties. */
  lemma StripKeepsRuns(n: string)
    requires NoDouble(n, ' ') && NoTriple(n, '\n')
    ensures NoDouble(Strip(n), ' ') && NoTriple(Strip(n), '\n')
  {
    StripNoDouble(n);
    StripNoTriple(n);
  }

  lemma StripNoDouble(n: string)
    requires NoDouble(n, ' ')
    ensures NoDouble(Strip(n), ' ')
  {
    SliceNoDouble(n, Strip(n), |n| - |LStrip(n)|);
  }

  lemma StripNoTriple(n: string)
    requires NoTriple(n, '\n')
    ensures NoTriple(Strip(n), '\n')
  {
    SliceNoTriple(n, Strip(n), |n| - |LStrip(n)|);
  }

  /** `normalize_whitespace`: no double space, no three newlines in a row, stripped. */
  function NormalizeWhitespace(s: string): (r: string)
    ensures NoDouble(r, ' ') && NoTriple(r, '\n') && IsStripped(r)
  {
    var n := SqueezeNewlines(SqueezeSpaces(s));
    StripKeepsRuns(n);
    Strip(n)
  }

  /** Nothing to drop when `t` does not start with `c`. */
  lemma DropLeadingNone(t: string, c: char)
    requires t == [] || t[0] != c
    ensures DropLeading(t, c) == t
  {
  }

  lemma NoDoubleSuffix(s: string, d: nat)
    requires d <= |s| && NoDouble(s, ' ')
    ensures NoDouble(s[d..], ' ')
  {
    assert forall k :: 0 <= k < |s| - d ==> s[d..][k] == s[d + k];
  }

  lemma {:induction false} SqueezeSpacesIdentity(s: string)
    requires NoDouble(s, ' ')
    ensures SqueezeSpaces(s) == s
    decreases |s|
  {
    if s == [] {
    } else {
      NoDoubleSuffix(s, 1);
      SqueezeSpacesIdentity(s[1..]);
      if s[0] == ' ' {
        assert s[1..] == [] || s[1] != ' ';
        assert DropLeading(s[1..], ' ') == s[1..];
      }
      assert s == [s[0]] + s[1..];
    }
  }

  lemma NoTripleSuffix(s: string, d: nat)
    requires d <= |s| && NoTriple(s, '\n')
    ensures NoTriple(s[d..], '\n')
  {
    SliceNoTriple(s, s[d..], d);
  }

  lemma {:induction false} SqueezeNewlinesIdentity(s: string)
    requires NoTriple(s, '\n')
    ensures SqueezeNewlines(s) == s
    decreases |s|
  {
    if s == [] {
    } else if |s| >= 2 && s[0] == '\n' && s[1] == '\n' {
      var t := s[2..];
      NoTripleSuffix(s, 2);
      SqueezeNewlinesIdentity(t);
      if |s| > 2 {
        assert !TripleAt(s, 0, '\n');
        assert t[0] == s[2];
      }
      DropLeadingNone(t, '\n');
      assert SqueezeNewlines(s) == "\n\n" + SqueezeNewlines(DropLeading(t, '\n'));
      assert s == "\n\n" + t;
    } else {
      NoTripleSuffix(s, 1);
      SqueezeNewlinesIdentity(s[1..]);
      assert s == [s[0]] + s[1..];
    }
  }

  /** Text with no double space, no three newlines in a row and no outer whitespace is left as it is. */
  lemma NormalizeFixesClean(n: string)
    requires NoDouble(n, ' ') && NoTriple(n, '\n') && IsStripped(n)
    ensures NormalizeWhitespace(n) == n
  {
    SqueezeSpacesIdentity(n);
    SqueezeNewlinesIdentity(n);
    StripOfStripped(n);
  }

  /** A second pass of `normalize_whitespace` changes nothing. */
  lemma NormalizeIdempotent(s: string)
    ensures NormalizeWhitespace(NormalizeWhitespace(s)) == NormalizeWhitespace(s)
  {
    NormalizeFixesClean(NormalizeWhitespace(s));
  }

  // ---------------------------------------------------------------------
  // What each run becomes
  // ---------------------------------------------------------------------

  /** `n` copies of `c`. */
  function Run(c: char, n: nat): (r: string)
    ensures |r| == n
  {
    if n == 0 then [] else [c] + Run(c, n - 1)
  }

  /** Every character of `w` is whitespace. */
  predicate AllSpace(w: string) {
    forall k :: 0 <= k < |w| ==> IsSpace(w[k])
  }

  /** `x` does not end with `c`, so no run of `c` reaches back into it. */
  predicate EndsWithout(x: string, c: char) {
    x == [] || x[|x| - 1] != c
  }

  /** `y` does not start with `c`, so a run of `c` before it ends there. */
  predicate StartsWithout(y: string, c: char) {
    y == [] || y[0] != c
  }

  /** `x` does not end with whitespace. */
  predicate EndsWithoutSpace(x: string) {
    x == [] || !IsSpace(x[|x| - 1])
  }

  lemma {:induction false} DropLeadingRun(c: char, n: nat, y: string)
    requires StartsWithout(y, c)
    ensures DropLeading(Run(c, n) + y, c) == y
    decreases n
  {
    if n > 0 {
      DropConcat(Run(c, n), y, 1);
      assert Run(c, n)[1..] == Run(c, n - 1);
      DropLeadingRun(c, n - 1, y);
    }
  }

  /** Leading copies of `c` never reach past the last character of `a` when that is not `c`. */
  lemma {:induction false} DropLeadingConcat(a: string, z: string, c: char)
    requires a != [] && a[|a| - 1] != c
    ensures DropLeading(a + z, c) == DropLeading(a, c) + z
    decreases |a|
  {
    if a[0] == c {
      DropConcat(a, z, 1);
      DropLeadingConcat(a[1..], z, c);
    }
  }

  /** What is left after the first `k` characters and the copies of `c` that follow does not end with `c`. */
  lemma DroppedEndsWithout(x: string, k: nat, c: char)
    requires k <= |x| && EndsWithout(x, c)
    ensures EndsWithout(DropLeading(x[k..], c), c)
  {
    var t := DropLeading(x[k..], c);
    if t != [] {
      assert t[|t| - 1] == x[k..][|x| - k - 1] == x[|x| - 1];
    }
  }

  /** Dropping the first character keeps a string from ending with `c`. */
  lemma TailEndsWithout(x: string, c: char)
    requires x != [] && EndsWithout(x, c)
    ensures EndsWithout(x[1..], c)
  {
    if |x| > 1 {
      assert x[1..][|x| - 2] == x[|x| - 1];
    }
  }

  /** A suffix of a string that does not end with whitespace does not end with whitespace either. */
  lemma SuffixEndsWithoutSpace(x: string, t: string)
    requires |t| <= |x| && t == x[|x| - |t|..] && EndsWithoutSpace(x)
    ensures EndsWithoutSpace(t)
  {
    if t != [] {
      assert t[|t| - 1] == x[|x| - 1];
    }
  }

  // `re.sub(r' +', ' ', s)`

  /** No space run crosses the end of `x` when `x` does not end with a space. */
  lemma {:induction false} SqueezeSpacesConcat(x: string, z: string)
    requires EndsWithout(x, ' ')
    ensures SqueezeSpaces(x + z) == SqueezeSpaces(x) + SqueezeSpaces(z)
    decreases |x|
  {
    if x == [] {
      PrependEmpty(x, z);
    } else if x[0] == ' ' {
      var v := DropLeading(x[1..], ' ');
      DroppedEndsWithout(x, 1, ' ');
      SqueezeSpacesConcat(v, z);
      SqueezeSpacesSpaceStep(x, z);
    } else {
      TailEndsWithout(x, ' ');
      SqueezeSpacesConcat(x[1..], z);
      SqueezeSpacesOtherStep(x, z);
    }
  }

  lemma SqueezeSpacesSpaceStep(x: string, z: string)
    requires x != [] && x[0] == ' ' && x[|x| - 1] != ' '
    requires var v := DropLeading(x[1..], ' ');
               SqueezeSpaces(v + z) == SqueezeSpaces(v) + SqueezeSpaces(z)
    ensures SqueezeSpaces(x + z) == SqueezeSpaces(x) + SqueezeSpaces(z)
  {
    var v := DropLeading(x[1..], ' ');
    DropConcat(x, z, 1);
    DropLeadingConcat(x[1..], z, ' ');
    assert (x + z)[0] == ' ';
    ConcatAssoc(" ", SqueezeSpaces(v), SqueezeSpaces(z));
  }

  lemma SqueezeSpacesOtherStep(x: string, z: string)
    requires x != [] && x[0] != ' '
    requires SqueezeSpaces(x[1..] + z) == SqueezeSpaces(x[1..]) + SqueezeSpaces(z)
    ensures SqueezeSpaces(x + z) == SqueezeSpaces(x) + SqueezeSpaces(z)
  {
    DropConcat(x, z, 1);
    assert (x + z)[0] == x[0];
    ConcatAssoc([x[0]], SqueezeSpaces(x[1..]), SqueezeSpaces(z));
  }

  /** A space run at the front becomes one space. */
  lemma SqueezeSpacesFront(n: nat, y: string)
    requires n >= 1 && StartsWithout(y, ' ')
    ensures SqueezeSpaces(Run(' ', n) + y) == " " + SqueezeSpaces(y)
  {
    DropConcat(Run(' ', n), y, 1);
    assert Run(' ', n)[1..] == Run(' ', n - 1);
    assert (Run(' ', n) + y)[0] == ' ';
    DropLeadingRun(' ', n - 1, y);
  }

  /**
   * A run of `n >= 1` spaces between text that does not continue it becomes
   * exactly one space.
   */
  lemma SqueezeSpacesRun(x: string, n: nat, y: string)
    requires n >= 1 && EndsWithout(x, ' ') && StartsWithout(y, ' ')
    ensures SqueezeSpaces(x + Run(' ', n) + y) == SqueezeSpaces(x) + " " + SqueezeSpaces(y)
  {
    SqueezeSpacesConcat(x, Run(' ', n) + y);
    SqueezeSpacesFront(n, y);
    ConcatAssoc(x, Run(' ', n), y);
    ConcatAssoc(SqueezeSpaces(x), " ", SqueezeSpaces(y));
  }

  // `re.sub(r'\n\n+', '\n\n', s)`

  /** No newline run crosses the end of `x` when `x` does not end with a newline. */
  lemma {:induction false} SqueezeNewlinesConcat(x: string, z: string)
    requires EndsWithout(x, '\n')
    ensures SqueezeNewlines(x + z) == SqueezeNewlines(x) + SqueezeNewlines(z)
    decreases |x|
  {
    if x == [] {
      PrependEmpty(x, z);
    } else if |x| >= 2 && x[0] == '\n' && x[1] == '\n' {
      var v := DropLeading(x[2..], '\n');
      DroppedEndsWithout(x, 2, '\n');
      SqueezeNewlinesConcat(v, z);
      SqueezeNewlinesPairStep(x, z);
    } else {
      TailEndsWithout(x, '\n');
      SqueezeNewlinesConcat(x[1..], z);
      SqueezeNewlinesOtherStep(x, z);
    }
  }

  lemma SqueezeNewlinesPairStep(x: string, z: string)
    requires |x| >= 2 && x[0] == '\n' && x[1] == '\n' && x[|x| - 1] != '\n'
    requires var v := DropLeading(x[2..], '\n');
               SqueezeNewlines(v + z) == SqueezeNewlines(v) + SqueezeNewlines(z)
    ensures SqueezeNewlines(x + z) == SqueezeNewlines(x) + SqueezeNewlines(z)
  {
    var v := DropLeading(x[2..], '\n');
    DropConcat(x, z, 2);
    DropLeadingConcat(x[2..], z, '\n');
    assert (x + z)[0] == '\n' && (x + z)[1] == '\n';
    ConcatAssoc("\n\n", SqueezeNewlines(v), SqueezeNewlines(z));
  }

  lemma SqueezeNewlinesOtherStep(x: string, z: string)
    requires x != [] && x[|x| - 1] != '\n' && !(|x| >= 2 && x[0] == '\n' && x[1] == '\n')
    requires SqueezeNewlines(x[1..] + z) == SqueezeNewlines(x[1..]) + SqueezeNewlines(z)
    ensures SqueezeNewlines(x + z) == SqueezeNewlines(x) + SqueezeNewlines(z)
  {
    DropConcat(x, z, 1);
    assert (x + z)[0] == x[0];
    assert |x| >= 2 ==> (x + z)[1] == x[1];
    ConcatAssoc([x[0]], SqueezeNewlines(x[1..]), SqueezeNewlines(z));
  }

  /** `n >= 2` copies of `c` start with two of them. */
  lemma RunPair(c: char, n: nat)
    requires n >= 2
    ensures Run(c, n)[0] == c && Run(c, n)[1] == c && Run(c, n)[2..] == Run(c, n - 2)
  {
    var r := Run(c, n - 1);
    assert Run(c, n) == [c] + r;
    assert r == [c] + Run(c, n - 2);
  }

  /** A newline run at the front becomes two newlines, or stays one. */
  lemma SqueezeNewlinesFront(n: nat, y: string)
    requires n >= 1 && StartsWithout(y, '\n')
    ensures SqueezeNewlines(Run('\n', n) + y) == (if n >= 2 then "\n\n" else "\n") + SqueezeNewlines(y)
  {
    if n >= 2 {
      SqueezeNewlinesFrontPair(n, y);
    } else {
      assert Run('\n', n) == "\n";
      SqueezeNewlinesFrontOne(y);
    }
  }

  lemma SqueezeNewlinesFrontPair(n: nat, y: string)
    requires n >= 2 && StartsWithout(y, '\n')
    ensures SqueezeNewlines(Run('\n', n) + y) == "\n\n" + SqueezeNewlines(y)
  {
    var s := Run('\n', n) + y;
    RunPair('\n', n);
    DropConcat(Run('\n', n), y, 2);
    assert s[0] == '\n' && s[1] == '\n';
    DropLeadingRun('\n', n - 2, y);
    assert DropLeading(s[2..], '\n') == y;
  }

  lemma SqueezeNewlinesFrontOne(y: string)
    requires StartsWithout(y, '\n')
    ensures SqueezeNewlines("\n" + y) == "\n" + SqueezeNewlines(y)
  {
    var s := "\n" + y;
    assert s[1..] == y;
    assert !(|s| >= 2 && s[0] == '\n' && s[1] == '\n');
  }

  /**
   * A run of two or more newlines between text that does not continue it
   * becomes exactly two newlines; a single newline stays as it is.
   */
  lemma SqueezeNewlinesRun(x: string, n: nat, y: string)
    requires n >= 1 && EndsWithout(x, '\n') && StartsWithout(y, '\n')
    ensures SqueezeNewlines(x + Run('\n', n) + y)
            == SqueezeNewlines(x) + (if n >= 2 then "\n\n" else "\n") + SqueezeNewlines(y)
  {
    SqueezeNewlinesConcat(x, Run('\n', n) + y);
    SqueezeNewlinesFront(n, y);
    ConcatAssoc(x, Run('\n', n), y);
    ConcatAssoc(SqueezeNewlines(x), if n >= 2 then "\n\n" else "\n", SqueezeNewlines(y));
  }

  // `re.sub(r'\s+', ' ', s)`

  /** A whitespace run cut off the front of `w + y`. */
  lemma {:induction false} LStripOfSpaces(w: string, y: string)
    requires AllSpace(w) && (y == [] || !IsSpace(y[0]))
    ensures LStrip(w + y) == y
    decreases |w|
  {
    if w == [] {
      assert w + y == y;
    } else {
      DropConcat(w, y, 1);
      assert (w + y)[0] == w[0];
      LStripOfSpaces(w[1..], y);
    }
  }

  /** Leading whitespace never reaches past the last character of `a` when that is not whitespace. */
  lemma {:induction false} LStripConcat(a: string, z: string)
    requires a != [] && !IsSpace(a[|a| - 1])
    ensures LStrip(a + z) == LStrip(a) + z
    decreases |a|
  {
    if IsSpace(a[0]) {
      DropConcat(a, z, 1);
      LStripConcat(a[1..], z);
    }
  }

  /** No whitespace run crosses the end of `x` when `x` does not end with whitespace. */
  lemma {:induction false} CollapseSpacesConcat(x: string, z: string)
    requires EndsWithoutSpace(x)
    ensures CollapseSpaces(x + z) == CollapseSpaces(x) + CollapseSpaces(z)
    decreases |x|
  {
    if x == [] {
      PrependEmpty(x, z);
    } else if IsSpace(x[0]) {
      var v := LStrip(x);
      SuffixEndsWithoutSpace(x, v);
      CollapseSpacesConcat(v, z);
      CollapseSpacesSpaceStep(x, z);
    } else {
      CollapseSpacesConcat(x[1..], z);
      CollapseSpacesOtherStep(x, z);
    }
  }

  lemma CollapseSpacesSpaceStep(x: string, z: string)
    requires x != [] && IsSpace(x[0]) && !IsSpace(x[|x| - 1])
    requires CollapseSpaces(LStrip(x) + z) == CollapseSpaces(LStrip(x)) + CollapseSpaces(z)
    ensures CollapseSpaces(x + z) == CollapseSpaces(x) + CollapseSpaces(z)
  {
    LStripConcat(x, z);
    assert (x + z)[0] == x[0];
    ConcatAssoc(" ", CollapseSpaces(LStrip(x)), CollapseSpaces(z));
  }

  lemma CollapseSpacesOtherStep(x: string, z: string)
    requires x != [] && !IsSpace(x[0])
    requires CollapseSpaces(x[1..] + z) == CollapseSpaces(x[1..]) + CollapseSpaces(z)
    ensures CollapseSpaces(x + z) == CollapseSpaces(x) + CollapseSpaces(z)
  {
    DropConcat(x, z, 1);
    assert (x + z)[0] == x[0];
    ConcatAssoc([x[0]], CollapseSpaces(x[1..]), CollapseSpaces(z));
  }

  /** A whitespace run at the front becomes one space. */
  lemma CollapseSpacesFront(w: string, y: string)
    requires w != [] && AllSpace(w) && (y == [] || !IsSpace(y[0]))
    ensures CollapseSpaces(w + y) == " " + CollapseSpaces(y)
  {
    assert (w + y)[0] == w[0];
    LStripOfSpaces(w, y);
  }

  /**
   * A non-empty whitespace run `w` between text that does not continue it
   * becomes exactly one space.
   */
  lemma CollapseSpacesRun(x: string, w: string, y: string)
    requires w != [] && AllSpace(w) && EndsWithoutSpace(x) && (y == [] || !IsSpace(y[0]))
    ensures CollapseSpaces(x + w + y) == CollapseSpaces(x) + " " + CollapseSpaces(y)
  {
    CollapseSpacesConcat(x, w + y);
    CollapseSpacesFront(w, y);
    ConcatAssoc(x, w, y);
    ConcatAssoc(CollapseSpaces(x), " ", CollapseSpaces(y));
  }

  // ---------------------------------------------------------------------
  // clean_text as the words of the text
  // ---------------------------------------------------------------------

  /** The longest prefix of `s` that holds no whitespace. */
  function Word(s: string): (w: string)
    ensures |w| <= |s| && w == s[..|w|]
    ensures |w| < |s| ==> IsSpace(s[|w|])
    ensures s != [] && !IsSpace(s[0]) ==> w != []
    ensures IsStripped(w)
    decreases |s|
  {
    if s == [] || IsSpace(s[0]) then [] else [s[0]] + Word(s[1..])
  }

  /** `s.split()`: the maximal runs of characters that are not whitespace, in order. */
  function Words(s: string): (ws: seq<string>)
    ensures forall k :: 0 <= k < |ws| ==> ws[k] != [] && IsStripped(ws[k])
    decreases |s|
  {
    if s == [] then []
    else if IsSpace(s[0]) then Words(s[1..])
    else
      var w := Word(s);
      [w] + Words(s[|w|..])
  }

  /** `' '.join(parts)` of non-empty stripped parts is stripped. */
  lemma {:induction false} JoinStripped(parts: seq<string>)
    requires forall k :: 0 <= k < |parts| ==> parts[k] != [] && IsStripped(parts[k])
    ensures IsStripped(Join(parts, " "))
    decreases |parts|
  {
    if |parts| > 1 {
      var rest := Join(parts[1..], " ");
      JoinStripped(parts[1..]);
      JoinNonEmpty(parts[1..], " ");
      var j := parts[0] + " " + rest;
      assert j[0] == parts[0][0];
      assert j[|j| - 1] == rest[|rest| - 1];
    }
  }

  /** Joining a first word to at least one more puts one space between them. */
  lemma JoinCons(w: string, ws: seq<string>)
    requires ws != []
    ensures Join([w] + ws, " ") == w + " " + Join(ws, " ")
  {
    assert ([w] + ws)[1..] == ws;
  }

  /** A word, then the rest: the word is copied. */
  lemma {:induction false} CollapseWord(s: string)
    ensures CollapseSpaces(s) == Word(s) + CollapseSpaces(s[|Word(s)|..])
    decreases |s|
  {
    if s == [] || IsSpace(s[0]) {
      PrependEmpty(Word(s), CollapseSpaces(s));
    } else {
      var u := s[1..];
      CollapseWord(u);
      CollapseWordStep(s);
    }
  }

  lemma CollapseWordStep(s: string)
    requires s != [] && !IsSpace(s[0])
    requires var u := s[1..]; CollapseSpaces(u) == Word(u) + CollapseSpaces(u[|Word(u)|..])
    ensures CollapseSpaces(s) == Word(s) + CollapseSpaces(s[|Word(s)|..])
  {
    var u := s[1..];
    assert s[|Word(s)|..] == u[|Word(u)|..];
    ConcatAssoc([s[0]], Word(u), CollapseSpaces(u[|Word(u)|..]));
  }

  /** Leading whitespace adds no word. */
  lemma {:induction false} WordsSkipSpace(s: string)
    ensures Words(LStrip(s)) == Words(s)
    decreases |s|
  {
    if s != [] && IsSpace(s[0]) {
      WordsSkipSpace(s[1..]);
    }
  }

  /** The space `re.sub(r'\s+', ' ', s)` leaves at the end of `s` when `s` ends with whitespace. */
  function Trail(s: string): string {
    if s != [] && IsSpace(s[|s| - 1]) then " " else ""
  }

  /**
   * Text that does not start with whitespace collapses to its words joined
   * by single spaces, plus one space when it ends with whitespace.
   */
  lemma {:induction false} CollapseIsJoin(s: string)
    requires s == [] || !IsSpace(s[0])
    ensures CollapseSpaces(s) == Join(Words(s), " ") + Trail(s)
    decreases |s|
  {
    if s != [] {
      var w := Word(s);
      var rest := s[|w|..];
      CollapseWord(s);
      if rest == [] {
        CollapseLastWord(s);
      } else {
        var t := LStrip(rest);
        CollapseIsJoin(t);
        CollapseNextWord(s);
      }
    }
  }

  /** The last word of the text. */
  lemma CollapseLastWord(s: string)
    requires s != [] && !IsSpace(s[0]) && s[|Word(s)|..] == []
    requires CollapseSpaces(s) == Word(s) + CollapseSpaces(s[|Word(s)|..])
    ensures CollapseSpaces(s) == Join(Words(s), " ") + Trail(s)
  {
    var w := Word(s);
    assert Words(s) == [w] + Words([]);
    assert Join([w], " ") == w;
    assert s[|s| - 1] == w[|w| - 1];
  }

  /** A word followed by whitespace: one space, then the words after it. */
  lemma CollapseNextWord(s: string)
    requires s != [] && !IsSpace(s[0]) && s[|Word(s)|..] != []
    requires CollapseSpaces(s) == Word(s) + CollapseSpaces(s[|Word(s)|..])
    requires var t := LStrip(s[|Word(s)|..]); CollapseSpaces(t) == Join(Words(t), " ") + Trail(t)
    ensures CollapseSpaces(s) == Join(Words(s), " ") + Trail(s)
  {
    var w := Word(s);
    var rest := s[|w|..];
    var t := LStrip(rest);
    assert CollapseSpaces(rest) == " " + CollapseSpaces(t);
    WordsSkipSpace(rest);
    assert Words(s) == [w] + Words(t);
    TrailOfSuffix(s, rest);
    if t == [] {
      CollapseFinalSpace(w, Words(s), CollapseSpaces(s));
    } else {
      CollapseMoreWords(w, Words(t), CollapseSpaces(t), Trail(t));
    }
  }

  lemma CollapseFinalSpace(w: string, ws: seq<string>, c: string)
    requires ws == [w] + Words([]) && c == w + (" " + CollapseSpaces([]))
    ensures c == Join(ws, " ") + " "
  {
    assert ws == [w];
  }

  lemma CollapseMoreWords(w: string, ws: seq<string>, c: string, tr: string)
    requires ws != [] && c == Join(ws, " ") + tr
    ensures w + (" " + c) == Join([w] + ws, " ") + tr
  {
    JoinCons(w, ws);
    ConcatAssoc(w, " ", c);
    ConcatAssoc(w + " ", Join(ws, " "), tr);
  }

  /** The trailing space of text is that of its whitespace-led end `rest`, stripped or not. */
  lemma TrailOfSuffix(s: string, rest: string)
    requires |rest| <= |s| && rest == s[|s| - |rest|..] && rest != []
    ensures LStrip(rest) != [] ==> Trail(LStrip(rest)) == Trail(s)
    ensures LStrip(rest) == [] ==> Trail(s) == " "
  {
    var t := LStrip(rest);
    LastOfSuffix(s, rest);
    if t != [] {
      LastOfSuffix(rest, t);
    } else {
      assert 0 <= |rest| - 1 < |rest| - |t|;
    }
  }

  /** Stripping removes an optional space on either side of stripped text. */
  lemma StripPadded(a: string, j: string, b: string)
    requires (a == "" || a == " ") && (b == "" || b == " ") && IsStripped(j)
    ensures Strip(a + j + b) == j
  {
    if j == [] {
      assert a + j + b == a + b;
      assert a + b == "" || a + b == " " || a + b == "  ";
    } else {
      ConcatAssoc(a, j, b);
      LStripSpaceBefore(a, j + b);
      RStripSpaceAfter(j, b);
    }
  }

  lemma LStripSpaceBefore(a: string, z: string)
    requires (a == "" || a == " ") && z != [] && !IsSpace(z[0])
    ensures LStrip(a + z) == z
  {
    if a == "" {
      PrependEmpty(a, z);
    } else {
      DropConcat(a, z, 1);
      assert (a + z)[0] == ' ';
    }
  }

  lemma RStripSpaceAfter(j: string, b: string)
    requires (b == "" || b == " ") && j != [] && IsStripped(j)
    ensures RStrip(j + b) == j
  {
    if b == "" {
      assert j + b == j;
    } else {
      assert (j + b)[..|j|] == j;
      assert (j + b)[|j|] == ' ';
    }
  }

  /** `re.sub(r'\s+', ' ', s).strip()` is `' '.join(s.split())`. */
  lemma CollapseThenStrip(s: string)
    ensures Strip(CollapseSpaces(s)) == Join(Words(s), " ")
  {
    var t := LStrip(s);
    var lead := if s != [] && IsSpace(s[0]) then " " else "";
    WordsSkipSpace(s);
    CollapseIsJoin(t);
    CollapseLeading(s);
    JoinStripped(Words(t));
    ConcatAssoc(lead, Join(Words(t), " "), Trail(t));
    StripPadded(lead, Join(Words(t), " "), Trail(t));
  }

  /** Leading whitespace collapses to one space in front of the collapsed rest. */
  lemma CollapseLeading(s: string)
    ensures CollapseSpaces(s) == (if s != [] && IsSpace(s[0]) then " " else "") + CollapseSpaces(LStrip(s))
  {
    if s == [] || !IsSpace(s[0]) {
      PrependEmpty("", CollapseSpaces(LStrip(s)));
    }
  }

  /** `clean_text` returns the words of the decoded, tag-free text joined by single spaces. */
  lemma CleanTextIsJoinedWords(text: string, unescape: string -> string, stripTags: string -> string)
    requires text != []
    ensures CleanText(text, unescape, stripTags) == Join(Words(stripTags(unescape(text))), " ")
  {
    CollapseThenStrip(stripTags(unescape(text)));
  }

  // ---------------------------------------------------------------------
  // normalize_whitespace on runs between clean text
  // ---------------------------------------------------------------------

  /** Deleting one kind of whitespace first does not change what is left without whitespace. */
  lemma {:induction false} DropWhitespaceOfDropChar(s: string, c: char)
    requires IsSpace(c)
    ensures DropWhitespace(DropChar(s, c)) == DropWhitespace(s)
    decreases |s|
  {
    if s != [] {
      DropWhitespaceOfDropChar(s[1..], c);
      var head := if s[0] == c then [] else [s[0]];
      DropWhitespaceConcat(head, DropChar(s[1..], c));
    }
  }

  /** `normalize_whitespace` deletes or adds only whitespace: every other character survives, in order. */
  lemma NormalizeKeepsText(s: string)
    ensures DropWhitespace(NormalizeWhitespace(s)) == DropWhitespace(s)
  {
    var a := SqueezeSpaces(s);
    var n := SqueezeNewlines(a);
    StripKeepsText(n);
    SqueezeNewlinesKeepsText(a);
    DropWhitespaceOfDropChar(n, '\n');
    DropWhitespaceOfDropChar(a, '\n');
    SqueezeSpacesKeepsText(s);
    DropWhitespaceOfDropChar(a, ' ');
    DropWhitespaceOfDropChar(s, ' ');
  }

  /** Text already normalised, and not empty. */
  predicate NormalText(x: string) {
    x != [] && NoDouble(x, ' ') && NoTriple(x, '\n') && IsStripped(x)
  }

  /** Normalised pieces meet at one character that is neither a space nor a newline without a run forming. */
  lemma JoinNormal(x: string, m: string, y: string)
    requires NormalText(x) && NormalText(y) && 1 <= |m| <= 2
    requires forall k :: 0 <= k < |m| ==> m[k] == '\n' || m[k] == ' '
    requires |m| == 2 ==> m == "\n\n"
    ensures NoDouble(x + m + y, ' ') && NoTriple(x + m + y, '\n') && IsStripped(x + m + y)
  {
    var s := x + m + y;
    assert s[0] == x[0] && s[|s| - 1] == y[|y| - 1];
    forall i | 0 <= i < |s| - 1
      ensures !(s[i] == ' ' && s[i + 1] == ' ')
    {
      if i + 1 < |x| {
        assert s[i] == x[i] && s[i + 1] == x[i + 1];
      } else if i >= |x| + |m| {
        assert s[i] == y[i - |x| - |m|] && s[i + 1] == y[i + 1 - |x| - |m|];
      }
    }
    forall i | 0 <= i < |s| - 2
      ensures !TripleAt(s, i, '\n')
    {
      if i + 2 < |x| {
        assert !TripleAt(x, i, '\n');
      } else if i >= |x| + |m| {
        assert !TripleAt(y, i - |x| - |m|, '\n');
      }
    }
  }

  /** Between normalised text, a run of `n >= 1` spaces becomes one space. */
  lemma NormalizeSpaceRun(x: string, n: nat, y: string)
    requires NormalText(x) && NormalText(y) && n >= 1
    ensures NormalizeWhitespace(x + Run(' ', n) + y) == x + " " + y
  {
    assert x[|x| - 1] != ' ' && y[0] != ' ';
    SqueezeSpacesRun(x, n, y);
    SqueezeSpacesIdentity(x);
    SqueezeSpacesIdentity(y);
    JoinNormal(x, " ", y);
    SqueezeNewlinesIdentity(x + " " + y);
    NormalizeThrough(x + Run(' ', n) + y, x + " " + y, x + " " + y);
  }

  /**
   * Between normalised text, a run of two or more newlines becomes one blank
   * line, `"\n\n"`; a single newline stays.
   */
  lemma NormalizeNewlineRun(x: string, n: nat, y: string)
    requires NormalText(x) && NormalText(y) && n >= 1
    ensures NormalizeWhitespace(x + Run('\n', n) + y) == x + (if n >= 2 then "\n\n" else "\n") + y
  {
    SpacesKeepNewlineRun(x, n, y);
    NewlinesOfNormalRun(x, n, y);
    if n >= 2 {
      JoinNormal(x, "\n\n", y);
      NormalizeThrough(x + Run('\n', n) + y, x + Run('\n', n) + y, x + "\n\n" + y);
    } else {
      JoinNormal(x, "\n", y);
      NormalizeThrough(x + Run('\n', n) + y, x + Run('\n', n) + y, x + "\n" + y);
    }
  }

  /** `normalize_whitespace` of `s`, given what each of its three steps makes of it. */
  lemma NormalizeThrough(s: string, spaced: string, b: string)
    requires SqueezeSpaces(s) == spaced && SqueezeNewlines(spaced) == b && IsStripped(b)
    ensures NormalizeWhitespace(s) == b
  {
    StripOfStripped(b);
  }

  /** Squeezing newlines turns a newline run between normalised text into one or two newlines. */
  lemma NewlinesOfNormalRun(x: string, n: nat, y: string)
    requires NormalText(x) && NormalText(y) && n >= 1
    ensures SqueezeNewlines(x + Run('\n', n) + y) == x + (if n >= 2 then "\n\n" else "\n") + y
  {
    assert x[|x| - 1] != '\n' && y[0] != '\n';
    SqueezeNewlinesRun(x, n, y);
    SqueezeNewlinesIdentity(x);
    SqueezeNewlinesIdentity(y);
  }

  /** Squeezing spaces leaves a newline run between normalised text alone. */
  lemma SpacesKeepNewlineRun(x: string, n: nat, y: string)
    requires NormalText(x) && NormalText(y)
    ensures SqueezeSpaces(x + Run('\n', n) + y) == x + Run('\n', n) + y
  {
    assert x[|x| - 1] != ' ';
    NewlineRunHasNoSpace(n);
    SqueezeSpacesConcat(x, Run('\n', n) + y);
    SqueezeSpacesConcat(Run('\n', n), y);
    SqueezeSpacesIdentity(x);
    SqueezeSpacesIdentity(y);
    ConcatAssoc(x, Run('\n', n), y);
  }

  /** A newline run holds no space. */
  lemma {:induction false} NewlineRunHasNoSpace(n: nat)
    ensures SqueezeSpaces(Run('\n', n)) == Run('\n', n)
    ensures EndsWithout(Run('\n', n), ' ')
    decreases n
  {
    if n > 0 {
      NewlineRunHasNoSpace(n - 1);
      DropConcat(Run('\n', n), [], 1);
      assert Run('\n', n)[0] == '\n';
      assert Run('\n', n)[1..] == Run('\n', n - 1);
    }
  }

  // ---------------------------------------------------------------------
  // clean_article_text
  // ---------------------------------------------------------------------

  /** `normalize_whitespace(remove_boilerplate(clean_text(raw)))`. */
  function CleanArticleText(raw: string, unescape: string -> string, stripTags: string -> string,
                            removeBoilerplate: string -> string): (r: string)
    ensures NoDouble(r, ' ') && NoTriple(r, '\n') && IsStripped(r)
  {
    NormalizeWhitespace(removeBoilerplate(CleanText(raw, unescape, stripTags)))
  }

  /** One-line, single-spaced text has neither a double space nor a newline. */
  lemma CleanHasNoRuns(b: string)
    requires SingleSpaced(b) && OnlyPlainSpaces(b)
    ensures NoDouble(b, ' ') && NoTriple(b, '\n')
  {
    forall i | 0 <= i < |b| - 1
      ensures !(b[i] == ' ' && b[i + 1] == ' ')
    {
      assert !(IsSpace(b[i]) && IsSpace(b[i + 1]));
    }
    forall i | 0 <= i < |b| - 2
      ensures !TripleAt(b, i, '\n')
    {
      assert !IsSpace(b[i]) || b[i] == ' ';
    }
  }

  /** Stripping a prefix of clean text leaves clean text. */
  lemma StripPrefixStaysClean(c: string, k: nat)
    requires k <= |c| && SingleSpaced(c) && OnlyPlainSpaces(c)
    ensures SingleSpaced(Strip(c[..k])) && OnlyPlainSpaces(Strip(c[..k]))
  {
    SliceSpacing(c, 0, k);
    var p := c[..k];
    var i := |p| - |LStrip(p)|;
    SliceSpacing(p, i, i + |Strip(p)|);
  }

  /**
   * Every boilerplate pattern ends in `.*?$`, so on the one-line output of
   * `clean_text` it cuts the text at some position `k` and `remove_boilerplate`
   * strips what is left. After such a cut the final `normalize_whitespace`
   * changes nothing: the pipeline's result is the cut text itself.
   */
  lemma PipelineEndsClean(raw: string, unescape: string -> string, stripTags: string -> string,
                          removeBoilerplate: string -> string, k: nat)
    requires var c := CleanText(raw, unescape, stripTags); k <= |c| && removeBoilerplate(c) == Strip(c[..k])
    ensures CleanArticleText(raw, unescape, stripTags, removeBoilerplate)
         == Strip(CleanText(raw, unescape, stripTags)[..k])
  {
    var c := CleanText(raw, unescape, stripTags);
    var b := Strip(c[..k]);
    StripPrefixStaysClean(c, k);
    CleanHasNoRuns(b);
    NormalizeFixesClean(b);
  }
}
