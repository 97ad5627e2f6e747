/*
 * Placing an expanded snippet in the buffer (coq/snippets/parse.py): the
 * indentation of the lines after the first, the choice of the prefix and
 * suffix the edit replaces, the edit itself, and the conversion of the
 * placeholders' byte offsets into (row, column) marks.
 *
 * The two snippet grammars' parsers, `is_word`, `expand_tabs` and the decoding
 * of the cursor's byte offset into a prefix string are not modelled; they are
 * the fields of an `Externals` record supplied by the caller.  The line
 * separator the parsers emit is the parameter `sep`.
 */
module SnippetParse {
  import opened SharedTypes
  import opened Text

  /** What a snippet parser returns: the text, the cursor's byte offset, and the numbered placeholders. */
  datatype ParsedSnippet = ParsedSnippet(text: string, cursor: int, regions: seq<(int, Region)>)

  datatype Externals = Externals(
    lspParser: (Context, string, string) -> ParsedSnippet,
    snuParser: (Context, string, string) -> ParsedSnippet,
    isWord: (string, set<char>) -> bool,
    expandTabs: (Context, string) -> string,
    decodePrefix: (string, int) -> string)

  function NonNeg(x: int): nat { if x < 0 then 0 else x }

  /**
   * The indentation of every snippet line after the first: as many columns as
   * the bytes of the line before the cursor that the old prefix does not cover,
   * as spaces, or with every run of `tabstop` spaces turned into a tab.
   */
  function Indent(ctx: Context, oldPrefix: string, lineBefore: string): (r: (int, string))
    ensures r.0 == ByteLen(lineBefore) - ByteLen(oldPrefix)
    ensures ctx.expandtab ==> r.1 == Spaces(r.0)
    ensures !ctx.expandtab && 0 < ctx.tabstop ==>
      r.1 == Tabs(NonNeg(r.0) / ctx.tabstop) + Spaces(NonNeg(r.0) % ctx.tabstop)
    ensures !ctx.expandtab && ctx.tabstop <= 0 ==> r.1 == "\t" + Repeat(" \t", NonNeg(r.0))
  {
    var l := ByteLen(lineBefore) - ByteLen(oldPrefix);
    var spaces := Spaces(ctx.tabstop);
    var indent := if ctx.expandtab then Spaces(l) else Replace(Spaces(l), spaces, "\t");
    assert Spaces(l) == Spaces(NonNeg(l));
    if !ctx.expandtab && 0 < ctx.tabstop then
      ReplaceSpacesByTabsDivMod(NonNeg(l), ctx.tabstop);
      (l, indent)
    else if !ctx.expandtab then
      assert spaces == [];
      ReplaceEmptyInSpaces(NonNeg(l));
      (l, indent)
    else
      (l, indent)
  }

  /** Where line `i + 1` starts: the bytes of lines `0..i`, with `nl` bytes for each of their separators. */
  function LineEnd(lines: seq<string>, nl: int, i: nat): int
    requires i < |lines|
  {
    ByteLen(lines[i]) + nl + (if i == 0 then 0 else LineEnd(lines, nl, i - 1))
  }

  /** `accumulate` of the lines' lengths plus separators: the running byte offsets of the snippet's lines. */
  function Len8(lines: seq<string>, nl: int): (len8: seq<int>)
    ensures |len8| == |lines|
    ensures forall i :: 0 <= i < |lines| ==> len8[i] == LineEnd(lines, nl, i)
    decreases |lines|
  {
    if lines == [] then []
    else
      var init := Len8(lines[..|lines| - 1], nl);
      assert forall i :: 0 <= i < |init| ==> LineEnd(lines[..|lines| - 1], nl, i) == LineEnd(lines, nl, i) by {
        forall i | 0 <= i < |init| ensures LineEnd(lines[..|lines| - 1], nl, i) == LineEnd(lines, nl, i) {
          LineEndPrefix(lines, |lines| - 1, nl, i);
        }
      }
      init + [(if |init| == 0 then 0 else init[|init| - 1]) + ByteLen(lines[|lines| - 1]) + nl]
  }

  lemma {:induction false} LineEndPrefix(lines: seq<string>, k: nat, nl: int, i: nat)
    requires i < k <= |lines|
    ensures LineEnd(lines[..k], nl, i) == LineEnd(lines, nl, i)
    decreases i
  {
    if 0 < i {
      LineEndPrefix(lines, k, nl, i - 1);
    }
  }

  lemma {:induction false} JoinSnoc(parts: seq<string>, x: string, sep: string)
    requires 0 < |parts|
    ensures Join(parts + [x], sep) == Join(parts, sep) + sep + x
    decreases |parts|
  {
    if 1 < |parts| {
      assert (parts + [x])[1..] == parts[1..] + [x];
      JoinSnoc(parts[1..], x, sep);
    }
  }

  /**
   * Entry `i` of the running offsets is the number of bytes, in the lines
   * joined by the separator, up to and including the separator after line `i`.
   */
  lemma {:induction false} Len8IsOffset(lines: seq<string>, sep: string, i: nat)
    requires i < |lines|
    ensures Len8(lines, ByteLen(sep))[i] == ByteLen(Join(lines[..i + 1], sep)) + ByteLen(sep)
    decreases i
  {
    if 0 < i {
      Len8IsOffset(lines, sep, i - 1);
      assert lines[..i + 1] == lines[..i] + [lines[i]];
      JoinSnoc(lines[..i], lines[i], sep);
      ByteLenAppend(Join(lines[..i], sep), sep);
      ByteLenAppend(Join(lines[..i], sep) + sep, lines[i]);
    } else {
      assert lines[..1] == [lines[0]];
    }
  }

  /** The last running offset covers the whole joined text and one separator. */
  lemma Len8Total(lines: seq<string>, sep: string)
    requires 0 < |lines|
    ensures Len8(lines, ByteLen(sep))[|lines| - 1] == ByteLen(Join(lines, sep)) + ByteLen(sep)
  {
    Len8IsOffset(lines, sep, |lines| - 1);
    assert lines[..|lines|] == lines;
  }

  predicate Increasing(s: seq<int>) { forall i, j :: 0 <= i < j < |s| ==> s[i] < s[j] }

  predicate Nondecreasing(s: seq<int>) { forall i, j :: 0 <= i < j < |s| ==> s[i] <= s[j] }

  /** Lines never have negative length, so the offsets never decrease; with a non-empty separator they increase. */
  lemma {:induction false} Len8Monotone(lines: seq<string>, nl: int, i: nat, j: nat)
    requires 0 <= nl && i < j < |lines|
    ensures Len8(lines, nl)[i] <= Len8(lines, nl)[j]
    ensures 0 < nl ==> Len8(lines, nl)[i] < Len8(lines, nl)[j]
    decreases j
  {
    if i < j - 1 {
      Len8Monotone(lines, nl, i, j - 1);
    }
  }

  lemma Len8Increasing(lines: seq<string>, nl: int)
    requires 0 <= nl
    ensures Nondecreasing(Len8(lines, nl))
    ensures 0 < nl ==> Increasing(Len8(lines, nl))
  {
    forall i, j | 0 <= i < j < |lines| ensures Len8(lines, nl)[i] <= Len8(lines, nl)[j] {
      Len8Monotone(lines, nl, i, j);
    }
    if 0 < nl {
      forall i, j | 0 <= i < j < |lines| ensures Len8(lines, nl)[i] < Len8(lines, nl)[j] {
        Len8Monotone(lines, nl, i, j);
      }
    }
  }

  /** The column shift of line `idx`: only the first line starts after the cursor's indentation. */
  function XShift(idx: int, indentLen: int): int { if idx == 0 then indentLen else 0 }

  /** Scanning the offsets from line `idx` on for the line that holds byte offset `off`. */
  function LocateFrom(len8: seq<int>, off: int, row: int, indentLen: int, idx: nat): (r: Option<NvimPos>)
    requires idx <= |len8|
    ensures r.Some? <==> exists k :: idx <= k < |len8| && off <= len8[k]
    ensures r.Some? ==> row + idx <= r.value.0 <= row + |len8|
    decreases |len8| - idx
  {
    if idx == |len8| then None
    else
      var lastLen := if idx == 0 then 0 else len8[idx - 1];
      if len8[idx] > off then Some((idx + row, off - lastLen + XShift(idx, indentLen)))
      else if len8[idx] == off then Some((idx + row + 1, XShift(idx, indentLen)))
      else LocateFrom(len8, off, row, indentLen, idx + 1)
  }

  /** The buffer position of byte offset `off` of the snippet, when the offsets reach it. */
  function Locate(len8: seq<int>, off: int, row: int, indentLen: int): (r: Option<NvimPos>)
    ensures r.Some? <==> exists k :: 0 <= k < |len8| && off <= len8[k]
    ensures r.Some? ==> row <= r.value.0 <= row + |len8|
  {
    LocateFrom(len8, off, row, indentLen, 0)
  }

  lemma {:induction false} LocateSkip(len8: seq<int>, off: int, row: int, indentLen: int, from: nat, idx: nat)
    requires from <= idx <= |len8|
    requires forall k :: from <= k < idx ==> len8[k] < off
    ensures LocateFrom(len8, off, row, indentLen, from) == LocateFrom(len8, off, row, indentLen, idx)
    decreases idx - from
  {
    if from < idx {
      LocateSkip(len8, off, row, indentLen, from + 1, idx);
    }
  }

  /**
   * An offset strictly inside line `idx` lands on row `row + idx`, at its
   * distance from the start of the line, shifted by the indentation on the
   * first line only.
   */
  lemma LocateInside(len8: seq<int>, off: int, row: int, indentLen: int, idx: nat)
    requires Increasing(len8)
    requires idx < |len8| && (idx == 0 || len8[idx - 1] < off) && off < len8[idx]
    ensures Locate(len8, off, row, indentLen)
      == Some((row + idx, off - (if idx == 0 then 0 else len8[idx - 1]) + (if idx == 0 then indentLen else 0)))
  {
    LocateSkip(len8, off, row, indentLen, 0, idx);
  }

  /** An offset exactly at the end of line `idx` (its separator included) lands at the start of the next row. */
  lemma LocateBoundary(len8: seq<int>, off: int, row: int, indentLen: int, idx: nat)
    requires Increasing(len8)
    requires idx < |len8| && off == len8[idx]
    ensures Locate(len8, off, row, indentLen) == Some((row + idx + 1, if idx == 0 then indentLen else 0))
  {
    LocateSkip(len8, off, row, indentLen, 0, idx);
  }

  /**
   * With offsets that never decrease, an offset is found exactly when there are
   * lines and it is at most the last offset; a found row is never above the
   * cursor's row and at most one below the last line.
   */
  lemma LocateFound(len8: seq<int>, off: int, row: int, indentLen: int)
    requires Nondecreasing(len8)
    ensures Locate(len8, off, row, indentLen).Some? <==> 0 < |len8| && off <= len8[|len8| - 1]
    ensures Locate(len8, off, row, indentLen).Some? ==> row <= Locate(len8, off, row, indentLen).value.0 <= row + |len8|
  {
    if exists k :: 0 <= k < |len8| && off <= len8[k] {
      var k :| 0 <= k < |len8| && off <= len8[k];
      assert k == |len8| - 1 || len8[k] <= len8[|len8| - 1];
    }
  }

  /** The mark of one numbered region, or the region itself when one of its ends cannot be placed. */
  function MarkOf(len8: seq<int>, row: int, indentLen: int, entry: (int, Region)): (r: Result<Mark, Region>)
    ensures r.Ok? <==> Locate(len8, entry.1.begin, row, indentLen).Some? && Locate(len8, entry.1.end, row, indentLen).Some?
    ensures r.Ok? ==> r.value.idx == entry.0 && r.value.text == entry.1.text
    ensures r.Ok? ==> Locate(len8, entry.1.begin, row, indentLen) == Some(r.value.begin)
    ensures r.Ok? ==> Locate(len8, entry.1.end, row, indentLen) == Some(r.value.end)
    ensures r.Err? ==> r.error == entry.1
  {
    var (idx, region) := entry;
    match (Locate(len8, region.begin, row, indentLen), Locate(len8, region.end, row, indentLen))
    case (Some(begin), Some(end)) => Ok(Mark(idx, begin, end, region.text))
    case _ => Err(region)
  }

  /**
   * One mark per region, in region order, or the first region that cannot be
   * placed (the source asserts and the whole parse fails).
   */
  function MarkAll(len8: seq<int>, row: int, indentLen: int, regions: seq<(int, Region)>): (r: Result<seq<Mark>, Region>)
    ensures r.Ok? <==> forall i :: 0 <= i < |regions| ==> MarkOf(len8, row, indentLen, regions[i]).Ok?
    ensures r.Ok? ==> |r.value| == |regions|
    ensures r.Ok? ==> forall i :: 0 <= i < |regions| ==> MarkOf(len8, row, indentLen, regions[i]) == Ok(r.value[i])
    ensures r.Err? ==>
      exists i :: 0 <= i < |regions| && MarkOf(len8, row, indentLen, regions[i]) == Err(r.error)
                 && (forall j :: 0 <= j < i ==> MarkOf(len8, row, indentLen, regions[j]).Ok?)
    decreases |regions|
  {
    if regions == [] then Ok([])
    else
      var init := regions[..|regions| - 1];
      assert forall i :: 0 <= i < |init| ==> init[i] == regions[i];
      match MarkAll(len8, row, indentLen, init)
      case Err(g) => Err(g)
      case Ok(marks) =>
        match MarkOf(len8, row, indentLen, regions[|regions| - 1])
        case Err(g) => Err(g)
        case Ok(m) => Ok(marks + [m])
  }

  /** Placing one more region after a prefix that was placed entirely. */
  lemma MarkAllStep(len8: seq<int>, row: int, indentLen: int, regions: seq<(int, Region)>, n: nat, marks: seq<Mark>)
    requires n < |regions| && MarkAll(len8, row, indentLen, regions[..n]) == Ok(marks)
    ensures MarkOf(len8, row, indentLen, regions[n]).Ok? ==>
      MarkAll(len8, row, indentLen, regions[..n + 1]) == Ok(marks + [MarkOf(len8, row, indentLen, regions[n]).value])
    ensures MarkOf(len8, row, indentLen, regions[n]).Err? ==>
      MarkAll(len8, row, indentLen, regions) == Err(regions[n].1)
  {
    assert regions[..n + 1][..n] == regions[..n];
    if MarkOf(len8, row, indentLen, regions[n]).Err? {
      assert forall j :: 0 <= j < n ==> regions[..n][j] == regions[j];
    }
  }

  /**
   * The inner loop of `_marks`: one pass over the running offsets looks for
   * both ends of a region at once and stops as soon as both are placed.
   */
  method PlaceRegion(len8: seq<int>, row: int, indentLen: int, region: Region)
    returns (p1: Option<NvimPos>, p2: Option<NvimPos>)
    ensures p1 == Locate(len8, region.begin, row, indentLen)
    ensures p2 == Locate(len8, region.end, row, indentLen)
  {
    p1, p2 := None, None;
    var lastLen := 0;
    var idx := 0;
    ghost var begin, end := Locate(len8, region.begin, row, indentLen), Locate(len8, region.end, row, indentLen);
    while idx < |len8|
      invariant 0 <= idx <= |len8|
      invariant lastLen == if idx == 0 then 0 else len8[idx - 1]
      invariant begin == if p1.None? then LocateFrom(len8, region.begin, row, indentLen, idx) else p1
      invariant end == if p2.None? then LocateFrom(len8, region.end, row, indentLen, idx) else p2
    {
      var l8 := len8[idx];
      var xShift := if idx == 0 then indentLen else 0;
      if p1.None? {
        if l8 > region.begin {
          p1 := Some((idx + row, region.begin - lastLen + xShift));
        } else if l8 == region.begin {
          p1 := Some((idx + row + 1, xShift));
        }
      }
      if p2.None? {
        if l8 > region.end {
          p2 := Some((idx + row, region.end - lastLen + xShift));
        } else if l8 == region.end {
          p2 := Some((idx + row + 1, xShift));
        }
      }
      if p1.Some? && p2.Some? {
        break;
      }
      lastLen := l8;
      idx := idx + 1;
    }
  }

  /**
   * `_marks`: the marks of the regions in order, the source's assertion
   * failing (here: the error result) at the first region with an end that
   * cannot be placed.
   */
  method Marks(pos: NvimPos, indentLen: int, newLines: seq<string>, nl: int, regions: seq<(int, Region)>)
    returns (r: Result<seq<Mark>, Region>)
    ensures r == MarkAll(Len8(newLines, nl), pos.0, indentLen, regions)
  {
    var row := pos.0;
    var len8 := Len8(newLines, nl);
    var marks: seq<Mark> := [];
    var n := 0;
    while n < |regions|
      invariant 0 <= n <= |regions|
      invariant MarkAll(len8, row, indentLen, regions[..n]) == Ok(marks)
    {
      var (rIdx, region) := regions[n];
      var p1, p2 := PlaceRegion(len8, row, indentLen, region);
      MarkAllStep(len8, row, indentLen, regions, n, marks);
      if p1.None? || p2.None? {
        r := Err(region);
        return;
      }
      marks := marks + [Mark(rIdx, p1.value, p2.value, region.text)];
      n := n + 1;
    }
    assert regions[..n] == regions;
    r := Ok(marks);
  }

  /** Prefixing every line with `indent`. */
  function PrefixEach(lines: seq<string>, indent: string): (r: seq<string>)
    ensures |r| == |lines|
    ensures forall i :: 0 <= i < |lines| ==> r[i] == indent + lines[i]
    decreases |lines|
  {
    if lines == [] then [] else [indent + lines[0]] + PrefixEach(lines[1..], indent)
  }

  /** The first line is kept as it is; every later line gets the indentation; no line is added or lost. */
  function IndentLines(lines: seq<string>, indent: string): (r: seq<string>)
    ensures |r| == |lines|
    ensures 0 < |lines| ==> r[0] == lines[0]
    ensures forall i :: 0 < i < |lines| ==> r[i] == indent + lines[i]
  {
    if lines == [] then [] else [lines[0]] + PrefixEach(lines[1..], indent)
  }

  /** `s[:1]`. */
  function First(s: string): (r: string)
    ensures r <= s && |r| == if s == [] then 0 else 1
  {
    if s == [] then [] else s[..1]
  }

  /** `s[-1:]`. */
  function Last(s: string): (r: string)
    ensures |r| == (if s == [] then 0 else 1) && r == s[|s| - |r|..]
  {
    if s == [] then [] else s[|s| - 1..]
  }

  /** The parser of the snippet's grammar; the grammar has no third value. */
  function ParserFor(ext: Externals, grammar: SnippetGrammar): (p: (Context, string, string) -> ParsedSnippet)
    ensures grammar == Lsp ==> p == ext.lspParser
    ensures grammar == Snu ==> p == ext.snuParser
  {
    match grammar
    case Lsp => ext.lspParser
    case Snu => ext.snuParser
  }

  /** The text the edit replaces before the cursor: the word before it when the snippet starts with a word character, otherwise the symbols before it. */
  function OldPrefix(ext: Externals, unifying: set<char>, ctx: Context, snippet: Edit, visual: string): (r: string)
    requires snippet.IsSnippet()
    ensures r == ctx.wordsBefore || r == ctx.symsBefore
    ensures r == ctx.wordsBefore <==>
      ext.isWord(First(ParserFor(ext, snippet.grammar)(ctx, snippet.newText, visual).text), unifying)
      || ctx.wordsBefore == ctx.symsBefore
  {
    var sortBy := ParserFor(ext, snippet.grammar)(ctx, snippet.newText, visual).text;
    if ext.isWord(First(sortBy), unifying) then ctx.wordsBefore else ctx.symsBefore
  }

  /**
   * The snippet text with tabs expanded and every line after the first
   * indented: with no indentation it is the expanded text itself, and it
   * always starts with the expanded text's first line.
   */
  function IndentedText(ext: Externals, ctx: Context, snippet: Edit, indent: string): (r: string)
    ensures indent == [] ==> r == ext.expandTabs(ctx, snippet.newText)
    ensures var t := ext.expandTabs(ctx, snippet.newText);
      t != [] ==> t[..FirstLineLen(t)] <= r
  {
    var lines := SplitLines(ext.expandTabs(ctx, snippet.newText));
    var indented := IndentLines(lines, indent);
    assert indent == [] ==> forall i :: 0 < i < |lines| ==> indented[i] == indent + lines[i] == lines[i];
    assert indent == [] ==> indented == lines;
    Join(indented, "")
  }

  /**
   * The indented snippet, parsed again by its grammar's parser.  When there is
   * no indentation, or the snippet is a single line, that parser sees exactly
   * the expanded text.
   */
  function Reparse(ext: Externals, unifying: set<char>, ctx: Context, snippet: Edit, visual: string): (p: ParsedSnippet)
    requires snippet.IsSnippet()
    ensures var t := ext.expandTabs(ctx, snippet.newText);
      Indent(ctx, OldPrefix(ext, unifying, ctx, snippet, visual), ctx.lineBefore).1 == [] ==>
        p == ParserFor(ext, snippet.grammar)(ctx, t, visual)
    ensures var t := ext.expandTabs(ctx, snippet.newText);
      t != [] && (forall i :: 0 <= i < |t| ==> !IsLineBreak(t[i])) ==>
        p == ParserFor(ext, snippet.grammar)(ctx, t, visual)
  {
    var oldPrefix := OldPrefix(ext, unifying, ctx, snippet, visual);
    var indent := Indent(ctx, oldPrefix, ctx.lineBefore).1;
    var t := ext.expandTabs(ctx, snippet.newText);
    if t != [] && (forall i :: 0 <= i < |t| ==> !IsLineBreak(t[i])) then
      IndentedTextOneLine(ext, ctx, snippet, indent);
      ParserFor(ext, snippet.grammar)(ctx, IndentedText(ext, ctx, snippet, indent), visual)
    else
      ParserFor(ext, snippet.grammar)(ctx, IndentedText(ext, ctx, snippet, indent), visual)
  }

  /** The running offsets of the reparsed snippet's lines. */
  function ParsedLen8(ext: Externals, sep: string, unifying: set<char>, ctx: Context, snippet: Edit, visual: string): seq<int>
    requires snippet.IsSnippet() && 0 < |sep|
  {
    Len8(Split(Reparse(ext, unifying, ctx, snippet, visual).text, sep), ByteLen(sep))
  }

  function IndentLen(ext: Externals, unifying: set<char>, ctx: Context, snippet: Edit, visual: string): int
    requires snippet.IsSnippet()
  {
    Indent(ctx, OldPrefix(ext, unifying, ctx, snippet, visual), ctx.lineBefore).0
  }

  /**
   * `parse`: the edit that inserts the snippet and the marks of its
   * placeholders.  A snippet range edit keeps its range, encoding and
   * fallback; any other snippet becomes a contextual edit.  Either way the
   * text is the parsed lines joined with the buffer's line feed.
   */
  function Parse(ext: Externals, sep: string, unifying: set<char>, ctx: Context, snippet: Edit, visual: string)
    : (r: Result<(Edit, seq<Mark>), Region>)
    requires snippet.IsSnippet()
    requires 0 < |sep|
    ensures var parsed := Reparse(ext, unifying, ctx, snippet, visual);
      var marks := MarkAll(ParsedLen8(ext, sep, unifying, ctx, snippet, visual), ctx.position.0,
        IndentLen(ext, unifying, ctx, snippet, visual), parsed.regions);
      && (r.Ok? <==> marks.Ok?)
      && (r.Ok? ==> r.value.1 == marks.value)
      && (r.Err? ==> r.error == marks.error)
      && (r.Ok? ==> r.value.0.newText == Join(Split(parsed.text, sep), ctx.linefeed))
      && (r.Ok? ==> (r.value.0.IsRange() <==> snippet.IsRange()))
      && (r.Ok? ==> r.value.0.Parsed? || r.value.0.Contextual?)
      && (r.Ok? ==> r.value.0.newPrefix == ext.decodePrefix(parsed.text, parsed.cursor))
    ensures r.Ok? && snippet.SnippetRange? ==>
      && r.value.0.begin == snippet.begin && r.value.0.end == snippet.end
      && r.value.0.encoding == snippet.encoding && r.value.0.fallback == snippet.fallback
    ensures r.Ok? && snippet.Snippet? ==>
      var parsed := Reparse(ext, unifying, ctx, snippet, visual);
      && r.value.0.oldPrefix == OldPrefix(ext, unifying, ctx, snippet, visual)
      && r.value.0.oldSuffix == (if ext.isWord(Last(parsed.text), unifying) then ctx.wordsAfter else "")
  {
    var parser := ParserFor(ext, snippet.grammar);
    var oldPrefix := OldPrefix(ext, unifying, ctx, snippet, visual);
    var (indentLen, indent) := Indent(ctx, oldPrefix, ctx.lineBefore);
    var parsed := parser(ctx, IndentedText(ext, ctx, snippet, indent), visual);
    var oldSuffix := if ext.isWord(Last(parsed.text), unifying) then ctx.wordsAfter else "";
    var newPrefix := ext.decodePrefix(parsed.text, parsed.cursor);
    var newLines := Split(parsed.text, sep);
    var newText := Join(newLines, ctx.linefeed);
    var edit :=
      if snippet.SnippetRange? then
        Parsed(newText, snippet.begin, snippet.end, snippet.encoding, snippet.fallback, newPrefix)
      else
        Contextual(newText, oldPrefix, newPrefix, oldSuffix);
    match MarkAll(Len8(newLines, ByteLen(sep)), ctx.position.0, indentLen, parsed.regions)
    case Ok(marks) => Ok((edit, marks))
    case Err(region) => Err(region)
  }

  /** When the buffer's line feed is the parsers' separator, the edit inserts the parsed text unchanged. */
  lemma ParseKeepsTextWithSameLinefeed(ext: Externals, sep: string, unifying: set<char>, ctx: Context, snippet: Edit, visual: string)
    requires snippet.IsSnippet() && 0 < |sep| && ctx.linefeed == sep
    ensures Parse(ext, sep, unifying, ctx, snippet, visual).Ok? ==>
      Parse(ext, sep, unifying, ctx, snippet, visual).value.0.newText == Reparse(ext, unifying, ctx, snippet, visual).text
  {
  }

  /**
   * Placeholders that lie within the parsed text are always placed: the
   * source's assertion cannot fail for them.  There is one mark per region,
   * in order, with the region's index and text, on a row at or below the
   * cursor's.
   */
  lemma ParseMarksWithinText(ext: Externals, sep: string, unifying: set<char>, ctx: Context, snippet: Edit, visual: string)
    requires snippet.IsSnippet() && 0 < |sep|
    requires var parsed := Reparse(ext, unifying, ctx, snippet, visual);
      forall i :: 0 <= i < |parsed.regions| ==>
        parsed.regions[i].1.begin <= ByteLen(parsed.text) && parsed.regions[i].1.end <= ByteLen(parsed.text)
    ensures var parsed := Reparse(ext, unifying, ctx, snippet, visual);
      var r := Parse(ext, sep, unifying, ctx, snippet, visual);
      && r.Ok?
      && |r.value.1| == |parsed.regions|
      && forall i :: 0 <= i < |parsed.regions| ==>
        && r.value.1[i].idx == parsed.regions[i].0
        && r.value.1[i].text == parsed.regions[i].1.text
        && ctx.position.0 <= r.value.1[i].begin.0
        && ctx.position.0 <= r.value.1[i].end.0
  {
    var parsed := Reparse(ext, unifying, ctx, snippet, visual);
    var lines := Split(parsed.text, sep);
    var len8 := Len8(lines, ByteLen(sep));
    var row, indentLen := ctx.position.0, IndentLen(ext, unifying, ctx, snippet, visual);
    Len8Total(lines, sep);
    Len8Increasing(lines, ByteLen(sep));
    forall i | 0 <= i < |parsed.regions|
      ensures MarkOf(len8, row, indentLen, parsed.regions[i]).Ok?
      ensures row <= MarkOf(len8, row, indentLen, parsed.regions[i]).value.begin.0
      ensures row <= MarkOf(len8, row, indentLen, parsed.regions[i]).value.end.0
    {
      LocateFound(len8, parsed.regions[i].1.begin, row, indentLen);
      LocateFound(len8, parsed.regions[i].1.end, row, indentLen);
    }
  }

  /** A snippet of a single line is inserted without indentation. */
  lemma IndentedTextOneLine(ext: Externals, ctx: Context, snippet: Edit, indent: string)
    requires var t := ext.expandTabs(ctx, snippet.newText);
      t != [] && forall i :: 0 <= i < |t| ==> !IsLineBreak(t[i])
    ensures IndentedText(ext, ctx, snippet, indent) == ext.expandTabs(ctx, snippet.newText)
  {
    SplitLinesOneLine(ext.expandTabs(ctx, snippet.newText));
  }
}
