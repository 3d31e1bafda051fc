/**
 * The decoration computer: every fragment of every tokenized code block
 * becomes one inline decoration over the document positions it occupies.
 */
module Highlight {
  import opened Blocks

  /** An inline decoration over the half-open range [from, to) with a CSS style. */
  datatype Decoration = Decoration(from: nat, to: nat, style: string)

  /** The inline style given to a fragment of colour `color`. */
  function Style(color: string): string
  {
    "color: " + color
  }

  /** A style begins `color: ` and names its colour: different colours give different styles. */
  lemma StyleNamesColor(c: string, c': string)
    ensures Style(c)[..7] == "color: " && Style(c)[7..] == c
    ensures Style(c) == Style(c') <==> c == c'
  {
    assert Style(c)[7..] == c && Style(c')[7..] == c';
  }

  // ---------------------------------------------------------------------
  // Specification functions. Each recurses on the last element, so that a
  // loop that walks its input from the front extends them one step at a time.
  // ---------------------------------------------------------------------

  /** The text a tokenizer line spells out: its fragments' contents in order. */
  function LineText(line: Line): Text
  {
    if line == [] then [] else LineText(line[..|line| - 1]) + line[|line| - 1].content
  }

  /** The sum of the text lengths of all lines. */
  function TotalWidth(lines: seq<Line>): nat
  {
    if lines == [] then 0 else TotalWidth(lines[..|lines| - 1]) + |LineText(lines[|lines| - 1])|
  }

  /** The text the tokenized lines spell out, lines separated by a line break. */
  function JoinLines(lines: seq<Line>): Text
  {
    if lines == [] then []
    else if |lines| == 1 then LineText(lines[0])
    else JoinLines(lines[..|lines| - 1]) + [LineFeed] + LineText(lines[|lines| - 1])
  }

  /** All fragments of all lines, in order. */
  function Fragments(lines: seq<Line>): seq<Fragment>
  {
    if lines == [] then [] else Fragments(lines[..|lines| - 1]) + lines[|lines| - 1]
  }

  /**
   * Where the cursor stands when line `i` begins, for a walk that starts at
   * `start`: every earlier line's text plus one position for its line break.
   */
  function LineStart(lines: seq<Line>, i: nat, start: nat): nat
    requires i <= |lines|
  {
    start + TotalWidth(lines[..i]) + i
  }

  /** The decorations of one line whose first fragment starts at `start`. */
  function LineDecorations(line: Line, start: nat): (r: seq<Decoration>)
    ensures |r| == |line|
  {
    if line == [] then []
    else
      var init := line[..|line| - 1];
      var f := line[|line| - 1];
      var from := start + |LineText(init)|;
      LineDecorations(init, start) + [Decoration(from, from + |f.content|, Style(f.color))]
  }

  /** The decorations of all lines of a block whose text starts at `start`. */
  function LinesDecorations(lines: seq<Line>, start: nat): (r: seq<Decoration>)
    ensures |r| == |Fragments(lines)|
  {
    if lines == [] then []
    else
      LinesDecorations(lines[..|lines| - 1], start)
        + LineDecorations(lines[|lines| - 1], LineStart(lines, |lines| - 1, start))
  }

  /**
   * The decorations of one code block: none when it has no language,
   * otherwise one per fragment, starting just inside the block's opening.
   */
  function BlockDecorations(b: CodeBlock): (r: seq<Decoration>)
    ensures |r| == (if HasLanguage(b) then |Fragments(b.tokens)| else 0)
  {
    if HasLanguage(b) then LinesDecorations(b.tokens, b.pos + 1) else []
  }

  /** The decorations of all code blocks of a document, block after block. */
  function Decorations(blocks: seq<CodeBlock>): (r: seq<Decoration>)
    ensures |blocks| == 1 ==> r == BlockDecorations(blocks[0])
  {
    if blocks == [] then [] else Decorations(blocks[..|blocks| - 1]) + BlockDecorations(blocks[|blocks| - 1])
  }

  /** No two decorations overlap, and they are listed from left to right. */
  predicate Ordered(ds: seq<Decoration>)
  {
    (forall k :: 0 <= k < |ds| ==> ds[k].from <= ds[k].to) &&
    (forall j, k :: 0 <= j < k < |ds| ==> ds[j].to <= ds[k].from)
  }

  // ---------------------------------------------------------------------
  // The computation as the plugin performs it: a cursor walked through the
  // fragments and an output list that decorations are pushed onto.
  // ---------------------------------------------------------------------

  /**
   * The work done for one line: a decoration per fragment, pushed as the
   * cursor moves from `start` across the fragments; returns the pushed
   * decorations and where the cursor ends.
   */
  method DecorateLine(line: Line, start: nat) returns (pushed: seq<Decoration>, from: nat)
    ensures pushed == LineDecorations(line, start)
    ensures from == start + |LineText(line)|
  {
    pushed := [];
    from := start;
    var k := 0;
    while k < |line|
      invariant 0 <= k <= |line|
      invariant pushed == LineDecorations(line[..k], start)
      invariant from == start + |LineText(line[..k])|
    {
      var node := line[k];
      var to := from + |node.content|;
      pushed := pushed + [Decoration(from, to, Style(node.color))];
      from := to;
      LineDecorationsSnoc(line, start, k);
      k := k + 1;
    }
    assert line[..k] == line;
  }

  /**
   * The work done for one block: returns the decorations pushed for it and
   * where the cursor ends.
   */
  method DecorateBlock(block: CodeBlock) returns (decorations: seq<Decoration>, from: nat)
    ensures decorations == BlockDecorations(block)
    ensures from == if HasLanguage(block)
                    then block.pos + 1 + TotalWidth(block.tokens) + |block.tokens|
                    else block.pos + 1
  {
    decorations := [];
    from := block.pos + 1;
    if !HasLanguage(block) {
      return;
    }
    var lines := block.tokens;
    var i := 0;
    while i < |lines|
      invariant 0 <= i <= |lines|
      invariant decorations == LinesDecorations(lines[..i], block.pos + 1)
      invariant from == LineStart(lines, i, block.pos + 1)
    {
      var pushed, to := DecorateLine(lines[i], from);
      decorations := decorations + pushed;
      from := to + 1;
      LinesDecorationsSnoc(lines, block.pos + 1, i);
      i := i + 1;
    }
    assert lines[..i] == lines;
  }

  /** All decorations of a document's code blocks, in block order. */
  method GetDecorations(blocks: seq<CodeBlock>) returns (decorations: seq<Decoration>)
    ensures decorations == Decorations(blocks)
  {
    decorations := [];
    var j := 0;
    while j < |blocks|
      invariant 0 <= j <= |blocks|
      invariant decorations == Decorations(blocks[..j])
    {
      var blockDecorations, end := DecorateBlock(blocks[j]);
      decorations := decorations + blockDecorations;
      assert blocks[..j + 1][..j] == blocks[..j];
      j := j + 1;
    }
    assert blocks[..j] == blocks;
  }

  /**
   * Widths count UTF-16 code units: a character outside the Basic
   * Multilingual Plane (here U+1F600, the surrogate pair D83D DE00) is two
   * positions wide, and the next fragment starts after both.
   */
  lemma SurrogatePairWidth()
    ensures var b := CodeBlock(0, 10, Some("javascript"),
                               [[Fragment([0xD83D, 0xDE00], "red"), Fragment([0x78], "blue")]]);
            BlockDecorations(b) == [Decoration(1, 3, Style("red")), Decoration(3, 4, Style("blue"))]
  {
  }

  // ---------------------------------------------------------------------
  // One line
  // ---------------------------------------------------------------------

  /** One more fragment of a line adds one decoration, over that fragment's text. */
  lemma LineDecorationsSnoc(line: Line, start: nat, k: nat)
    requires k < |line|
    ensures LineText(line[..k + 1]) == LineText(line[..k]) + line[k].content
    ensures LineDecorations(line[..k + 1], start)
         == LineDecorations(line[..k], start)
            + [Decoration(start + |LineText(line[..k])|, start + |LineText(line[..k])| + |line[k].content|,
                          Style(line[k].color))]
  {
    assert line[..k + 1][..k] == line[..k];
  }

  /** The text of a prefix of a line is a prefix of the line's text. */
  lemma {:induction false} LineTextPrefix(line: Line, j: nat)
    requires j <= |line|
    ensures LineText(line[..j]) <= LineText(line)
  {
    if j < |line| {
      var init := line[..|line| - 1];
      assert init[..j] == line[..j];
      LineTextPrefix(init, j);
    } else {
      assert line[..j] == line;
    }
  }

  /** When `p + q` begins `r`, the part of `r` after `p` begins with `q`. */
  lemma RunInPrefix<T>(p: seq<T>, q: seq<T>, r: seq<T>)
    requires p + q <= r
    ensures |p| + |q| <= |r| && r[|p| .. |p| + |q|] == q
  {
    assert r[..|p| + |q|] == p + q;
    assert (p + q)[|p|..] == q;
  }

  /** Fragment `k` of a line is decorated exactly over its own text. */
  lemma {:induction false} LineDecorationAt(line: Line, start: nat, k: nat)
    requires k < |line|
    ensures LineText(line[..k + 1]) == LineText(line[..k]) + line[k].content
    ensures LineDecorations(line, start)[k]
         == Decoration(start + |LineText(line[..k])|, start + |LineText(line[..k + 1])|, Style(line[k].color))
  {
    var n := |line| - 1;
    assert line[..k + 1][..k] == line[..k];
    if k < n {
      var init := line[..n];
      assert init[..k] == line[..k] && init[..k + 1] == line[..k + 1];
      LineDecorationAt(init, start, k);
    } else {
      assert line[..k + 1] == line;
    }
  }

  /** Fragment `k` of a line covers exactly its own text within the line's text. */
  lemma LineFragmentAt(line: Line, start: nat, k: nat)
    requires k < |line|
    ensures Covers(LineText(line), start, LineDecorations(line, start)[k], line[k])
  {
    LineDecorationAt(line, start, k);
    LineTextPrefix(line, k + 1);
    RunInPrefix(LineText(line[..k]), line[k].content, LineText(line));
  }

  /**
   * Within one line the decorations tile [start, start + |LineText(line)|)
   * without a gap: the first starts at `start`, each one ends where the next
   * begins, and the last ends with the line's text.
   */
  lemma LineContiguous(line: Line, start: nat)
    ensures line != [] ==> LineDecorations(line, start)[0].from == start
    ensures line != [] ==> LineDecorations(line, start)[|line| - 1].to == start + |LineText(line)|
    ensures forall k :: 0 <= k < |line| - 1 ==>
              LineDecorations(line, start)[k].to == LineDecorations(line, start)[k + 1].from
  {
    forall k | 0 <= k < |line| - 1
      ensures LineDecorations(line, start)[k].to == LineDecorations(line, start)[k + 1].from
    {
      LineDecorationAt(line, start, k);
      LineDecorationAt(line, start, k + 1);
    }
    if line != [] {
      LineDecorationAt(line, start, 0);
      assert line[..0] == [];
      LineDecorationAt(line, start, |line| - 1);
      assert line[..|line|] == line;
    }
  }

  /** A decoration of a line lies within the line's text. */
  lemma LineWithin(line: Line, start: nat, d: Decoration)
    requires d in LineDecorations(line, start)
    ensures start <= d.from <= d.to <= start + |LineText(line)|
  {
    var k :| 0 <= k < |line| && LineDecorations(line, start)[k] == d;
    LineFragmentAt(line, start, k);
  }

  /** The decorations of one line never overlap and are listed left to right. */
  lemma LineOrdered(line: Line, start: nat)
    ensures Ordered(LineDecorations(line, start))
  {
    var r := LineDecorations(line, start);
    forall j, k | 0 <= j < k < |r|
      ensures r[j].to <= r[k].from
    {
      LineDecorationAt(line, start, j);
      LineDecorationAt(line, start, k);
      assert line[..k][..j + 1] == line[..j + 1];
      LineTextPrefix(line[..k], j + 1);
    }
  }

  // ---------------------------------------------------------------------
  // The lines of one block
  // ---------------------------------------------------------------------

  /** The joined text has one line break fewer than there are lines. */
  lemma {:induction false} JoinLinesLength(lines: seq<Line>)
    requires lines != []
    ensures |JoinLines(lines)| == TotalWidth(lines) + |lines| - 1
  {
    if |lines| > 1 {
      JoinLinesLength(lines[..|lines| - 1]);
    }
  }

  /** The last line's text ends the joined text, right after the earlier lines and their breaks. */
  lemma JoinLinesLast(lines: seq<Line>)
    requires lines != []
    ensures var n := |lines| - 1;
            JoinLines(lines[..n]) <= JoinLines(lines) &&
            TotalWidth(lines[..n]) + n + |LineText(lines[n])| == |JoinLines(lines)| &&
            JoinLines(lines)[TotalWidth(lines[..n]) + n ..] == LineText(lines[n])
  {
    var n := |lines| - 1;
    JoinLinesLength(lines);
    if n > 0 {
      JoinLinesLength(lines[..n]);
    }
  }

  /**
   * Decoration `d` marks fragment `f` of the text `t` that begins at
   * document position `start`: it lies within the text, covers exactly the
   * fragment's characters and carries the fragment's colour.
   */
  predicate Covers(t: Text, start: nat, d: Decoration, f: Fragment)
  {
    start <= d.from <= d.to <= start + |t| &&
    d.to - d.from == |f.content| &&
    t[d.from - start .. d.to - start] == f.content &&
    d.style == Style(f.color)
  }

  /** What a decoration covers in a prefix of `t` it covers in `t`. */
  lemma CoversInPrefix(p: Text, t: Text, start: nat, d: Decoration, f: Fragment)
    requires p <= t && Covers(p, start, d, f)
    ensures Covers(t, start, d, f)
  {
    assert t[..|p|] == p;
    assert t[d.from - start .. d.to - start] == p[d.from - start .. d.to - start];
  }

  /** What a decoration covers in the part of `t` after `off` it covers in `t`, shifted by `off`. */
  lemma CoversAfterOffset(t: Text, off: nat, u: Text, s: nat, start: nat, d: Decoration, f: Fragment)
    requires off <= |t| && t[off..] == u && s == start + off && Covers(u, s, d, f)
    ensures Covers(t, start, d, f)
  {
    var a, b := d.from - start - off, d.to - start - off;
    assert t[off..][a..b] == t[off + a .. off + b];
  }

  /**
   * Decoration `k` of a block's lines belongs to fragment `k` of all the
   * lines: it covers exactly that fragment's text within the joined text
   * and carries the fragment's colour.
   */
  lemma {:induction false} LinesDecorationAt(lines: seq<Line>, start: nat, k: nat)
    requires k < |Fragments(lines)|
    ensures Covers(JoinLines(lines), start, LinesDecorations(lines, start)[k], Fragments(lines)[k])
  {
    var n := |lines| - 1;
    var init := lines[..n];
    if k < |Fragments(init)| {
      LinesDecorationAt(init, start, k);
      JoinLinesLast(lines);
      assert LinesDecorations(lines, start)[k] == LinesDecorations(init, start)[k];
      assert Fragments(lines)[k] == Fragments(init)[k];
      CoversInPrefix(JoinLines(init), JoinLines(lines), start, LinesDecorations(init, start)[k], Fragments(init)[k]);
    } else {
      LastLineDecorationAt(lines, start, k);
    }
  }

  /** The decorations of the last line cover their fragments' text within the joined text. */
  lemma LastLineDecorationAt(lines: seq<Line>, start: nat, k: nat)
    requires lines != [] && |Fragments(lines[..|lines| - 1])| <= k < |Fragments(lines)|
    ensures Covers(JoinLines(lines), start, LinesDecorations(lines, start)[k], Fragments(lines)[k])
  {
    var n := |lines| - 1;
    var init := lines[..n];
    var last := lines[n];
    var j := k - |Fragments(init)|;
    var s := LineStart(lines, n, start);
    var off := TotalWidth(init) + n;
    JoinLinesLast(lines);
    LineFragmentAt(last, s, j);
    var d := LineDecorations(last, s)[j];
    assert LinesDecorations(lines, start)[k] == d;
    assert Fragments(lines)[k] == last[j];
    CoversAfterOffset(JoinLines(lines), off, LineText(last), s, start, d, last[j]);
  }

  /** Every decoration of a block's lines lies within the text they spell out. */
  lemma LinesBounds(lines: seq<Line>, start: nat)
    ensures forall d :: d in LinesDecorations(lines, start) ==>
              start <= d.from <= d.to <= start + |JoinLines(lines)|
  {
    var r := LinesDecorations(lines, start);
    forall d | d in r
      ensures start <= d.from <= d.to <= start + |JoinLines(lines)|
    {
      var k :| 0 <= k < |r| && r[k] == d;
      LinesDecorationAt(lines, start, k);
    }
  }

  /** Walking a prefix of the lines produces a prefix of the decorations. */
  lemma {:induction false} LinesDecorationsPrefix(lines: seq<Line>, start: nat, i: nat)
    requires i <= |lines|
    ensures LinesDecorations(lines[..i], start) <= LinesDecorations(lines, start)
    ensures Fragments(lines[..i]) <= Fragments(lines)
  {
    if i < |lines| {
      var init := lines[..|lines| - 1];
      assert init[..i] == lines[..i];
      LinesDecorationsPrefix(init, start, i);
    } else {
      assert lines[..i] == lines;
    }
  }

  /**
   * One more line adds that line's decorations, walked from its start, and
   * moves the next line's start past its text and one line break.
   */
  lemma LinesDecorationsSnoc(lines: seq<Line>, start: nat, i: nat)
    requires i < |lines|
    ensures LinesDecorations(lines[..i + 1], start)
         == LinesDecorations(lines[..i], start) + LineDecorations(lines[i], LineStart(lines, i, start))
    ensures LineStart(lines, i + 1, start) == LineStart(lines, i, start) + |LineText(lines[i])| + 1
  {
    var pre := lines[..i + 1];
    assert pre[..i] == lines[..i];
    assert pre[i] == lines[i];
  }

  /**
   * The decorations of line `i` are a contiguous run of the block's list,
   * walked from that line's start; after the line the cursor has moved
   * past the line's text and exactly one more position, for the line break.
   */
  lemma LineSlice(lines: seq<Line>, start: nat, i: nat)
    requires i < |lines|
    ensures var a := |Fragments(lines[..i])|;
            var b := |Fragments(lines[..i + 1])|;
            a <= b <= |LinesDecorations(lines, start)| &&
            LinesDecorations(lines, start)[a..b] == LineDecorations(lines[i], LineStart(lines, i, start))
    ensures LineStart(lines, i + 1, start) == LineStart(lines, i, start) + |LineText(lines[i])| + 1
  {
    LinesDecorationsSnoc(lines, start, i);
    LinesDecorationsPrefix(lines, start, i + 1);
    RunInPrefix(LinesDecorations(lines[..i], start), LineDecorations(lines[i], LineStart(lines, i, start)),
                LinesDecorations(lines, start));
  }

  /** The first decoration of a block whose first line has a token starts right inside the block. */
  lemma FirstDecorationAtBlockStart(b: CodeBlock)
    requires HasLanguage(b) && b.tokens != [] && b.tokens[0] != []
    ensures |BlockDecorations(b)| > 0 && BlockDecorations(b)[0].from == b.pos + 1
  {
    LineSlice(b.tokens, b.pos + 1, 0);
    assert b.tokens[..0] == [];
    LineContiguous(b.tokens[0], b.pos + 1);
  }

  /** A longer prefix of the lines is at least as wide. */
  lemma {:induction false} TotalWidthPrefix(lines: seq<Line>, i: nat)
    requires i <= |lines|
    ensures TotalWidth(lines[..i]) <= TotalWidth(lines)
  {
    if i < |lines| {
      var init := lines[..|lines| - 1];
      assert init[..i] == lines[..i];
      TotalWidthPrefix(init, i);
    } else {
      assert lines[..i] == lines;
    }
  }

  /**
   * The position the cursor skips after line `i` is covered by no
   * decoration; when another line follows, it holds the line break.
   */
  lemma {:induction false} LineBreakUncovered(lines: seq<Line>, start: nat, i: nat, d: Decoration)
    requires i < |lines| && d in LinesDecorations(lines, start)
    ensures var nl := LineStart(lines, i, start) + |LineText(lines[i])|;
            d.to <= nl || nl < d.from
  {
    var n := |lines| - 1;
    var init := lines[..n];
    var last := lines[n];
    var s := LineStart(lines, n, start);
    assert LinesDecorations(lines, start) == LinesDecorations(init, start) + LineDecorations(last, s);
    if d in LinesDecorations(init, start) {
      if i == n {
        LinesEnd(init, start, d);
      } else {
        PrefixLineStart(lines, n, i);
        LineBreakUncovered(init, start, i, d);
      }
    } else {
      LineWithin(last, s, d);
      if i < n {
        LineBreakBeforeLaterLine(lines, start, i, n);
      }
    }
  }

  /** Every decoration of some lines ends before the cursor position reached after them. */
  lemma LinesEnd(lines: seq<Line>, start: nat, d: Decoration)
    requires d in LinesDecorations(lines, start)
    ensures d.to < start + TotalWidth(lines) + |lines|
  {
    LinesBounds(lines, start);
    JoinLinesLength(lines);
  }

  /** A line of a prefix of the lines starts where it does in all the lines. */
  lemma PrefixLineStart(lines: seq<Line>, m: nat, i: nat)
    requires i < m <= |lines|
    ensures lines[..m][i] == lines[i]
    ensures forall start: nat :: LineStart(lines[..m], i, start) == LineStart(lines, i, start)
  {
    assert lines[..m][..i] == lines[..i];
  }

  /** A line's break comes before the start of every later line. */
  lemma LineBreakBeforeLaterLine(lines: seq<Line>, start: nat, i: nat, m: nat)
    requires i < m <= |lines|
    ensures LineStart(lines, i, start) + |LineText(lines[i])| < LineStart(lines, m, start)
  {
    LinesDecorationsSnoc(lines, start, i);
    assert lines[..m][..i + 1] == lines[..i + 1];
    TotalWidthPrefix(lines[..m], i + 1);
  }

  /** The position skipped after a line that is not the last holds the line break. */
  lemma LineBreakIsNewline(lines: seq<Line>, start: nat, i: nat)
    requires i + 1 < |lines|
    ensures var nl := LineStart(lines, i, start) + |LineText(lines[i])|;
            nl - start < |JoinLines(lines)| && JoinLines(lines)[nl - start] == LineFeed
  {
    var pre := lines[..i + 2];
    assert pre[..i + 1] == lines[..i + 1];
    assert pre[..i + 1][..i] == lines[..i];
    JoinLinesPrefix(lines, i + 2);
    JoinLinesLength(lines[..i + 1]);
    LineSlice(lines, start, i);
  }

  /** The joined text of a non-empty prefix of the lines is a prefix of the joined text. */
  lemma {:induction false} JoinLinesPrefix(lines: seq<Line>, j: nat)
    requires 0 < j <= |lines|
    ensures JoinLines(lines[..j]) <= JoinLines(lines)
  {
    if j < |lines| {
      var init := lines[..|lines| - 1];
      assert init[..j] == lines[..j];
      JoinLinesPrefix(init, j);
      JoinLinesLast(lines);
    } else {
      assert lines[..j] == lines;
    }
  }

  /** Two ordered runs separated by `m` concatenate to an ordered run. */
  lemma OrderedConcat(a: seq<Decoration>, b: seq<Decoration>, m: int)
    requires Ordered(a) && Ordered(b)
    requires forall d :: d in a ==> d.to <= m
    requires forall d :: d in b ==> m <= d.from
    ensures Ordered(a + b)
  {
    var c := a + b;
    forall j, k | 0 <= j < k < |c|
      ensures c[j].to <= c[k].from
    {
      if k < |a| {
      } else if j < |a| {
        assert c[j] in a && c[k] in b;
      } else {
        assert c[j] == b[j - |a|] && c[k] == b[k - |a|];
      }
    }
  }

  /** The decorations of a block's lines never overlap and are listed left to right. */
  lemma {:induction false} LinesOrdered(lines: seq<Line>, start: nat)
    ensures Ordered(LinesDecorations(lines, start))
  {
    if lines != [] {
      var n := |lines| - 1;
      var init := lines[..n];
      var s := LineStart(lines, n, start);
      LinesOrdered(init, start);
      LineOrdered(lines[n], s);
      forall d | d in LinesDecorations(init, start)
        ensures d.to <= s
      {
        LinesEnd(init, start, d);
      }
      forall d | d in LineDecorations(lines[n], s)
        ensures s <= d.from
      {
        LineWithin(lines[n], s, d);
      }
      OrderedConcat(LinesDecorations(init, start), LineDecorations(lines[n], s), s);
    }
  }

  // ---------------------------------------------------------------------
  // Whole documents
  // ---------------------------------------------------------------------

  /** Code blocks listed in document order, none overlapping the next. */
  predicate InDocumentOrder(blocks: seq<CodeBlock>)
  {
    forall j :: 0 <= j < |blocks| - 1 ==> blocks[j].pos + blocks[j].nodeSize <= blocks[j + 1].pos
  }

  /**
   * The tokenized text fits the block's content, which runs from just
   * after the opening position to just before the closing one.
   */
  predicate TokensFit(b: CodeBlock)
  {
    |JoinLines(b.tokens)| + 2 <= b.nodeSize
  }

  /** A block's decorations stay inside the block's content. */
  lemma BlockInside(b: CodeBlock)
    requires TokensFit(b)
    ensures forall d :: d in BlockDecorations(b) ==> b.pos < d.from && d.to < b.pos + b.nodeSize
  {
    if HasLanguage(b) {
      LinesBounds(b.tokens, b.pos + 1);
    }
  }

  /**
   * For blocks in document order whose tokens fit them, every decoration of
   * the document lies strictly inside the span from the first block's start
   * to the last block's end.
   */
  lemma {:induction false} DocumentWithin(blocks: seq<CodeBlock>)
    requires blocks != [] && InDocumentOrder(blocks)
    requires forall j :: 0 <= j < |blocks| ==> TokensFit(blocks[j])
    ensures blocks[0].pos <= blocks[|blocks| - 1].pos
    ensures forall d :: d in Decorations(blocks) ==>
              blocks[0].pos < d.from && d.to < blocks[|blocks| - 1].pos + blocks[|blocks| - 1].nodeSize
  {
    var n := |blocks| - 1;
    var init := blocks[..n];
    var last := blocks[n];
    BlockInside(last);
    if n > 0 {
      assert InDocumentOrder(init);
      DocumentWithin(init);
      assert init[0] == blocks[0] && init[n - 1] == blocks[n - 1];
      assert blocks[n - 1].pos + blocks[n - 1].nodeSize <= last.pos;
    } else {
      assert init == [];
    }
  }

  /**
   * For blocks in document order whose tokens fit them, the decorations of
   * the whole document never overlap and are listed left to right.
   */
  lemma {:induction false} DocumentOrdered(blocks: seq<CodeBlock>)
    requires InDocumentOrder(blocks)
    requires forall j :: 0 <= j < |blocks| ==> TokensFit(blocks[j])
    ensures Ordered(Decorations(blocks))
  {
    if blocks != [] {
      var n := |blocks| - 1;
      var init := blocks[..n];
      var last := blocks[n];
      var a := Decorations(init);
      var b := BlockDecorations(last);
      assert Decorations(blocks) == a + b;
      assert InDocumentOrder(init);
      assert forall j :: 0 <= j < |init| ==> TokensFit(init[j]);
      DocumentOrdered(init);
      BlockOrdered(last);
      if n > 0 {
        DocumentWithin(init);
        assert init[n - 1] == blocks[n - 1];
        BlockInside(last);
        OrderedConcat(a, b, last.pos);
      } else {
        assert a == [];
        assert Decorations(blocks) == b;
      }
    }
  }

  /** The decorations of one block never overlap and are listed left to right. */
  lemma BlockOrdered(b: CodeBlock)
    ensures Ordered(BlockDecorations(b))
  {
    if HasLanguage(b) {
      LinesOrdered(b.tokens, b.pos + 1);
    }
  }

  /** A document has no decorations exactly when none of its blocks has any. */
  lemma {:induction false} DecorationsEmpty(blocks: seq<CodeBlock>)
    ensures Decorations(blocks) == [] <==> forall j :: 0 <= j < |blocks| ==> BlockDecorations(blocks[j]) == []
  {
    if blocks != [] {
      var n := |blocks| - 1;
      var init := blocks[..n];
      DecorationsEmpty(init);
      assert forall j :: 0 <= j < n ==> init[j] == blocks[j];
    }
  }

  /** Decorating a prefix of the blocks produces a prefix of the decorations. */
  lemma {:induction false} DecorationsPrefix(blocks: seq<CodeBlock>, j: nat)
    requires j <= |blocks|
    ensures Decorations(blocks[..j]) <= Decorations(blocks)
  {
    if j < |blocks| {
      var init := blocks[..|blocks| - 1];
      assert init[..j] == blocks[..j];
      DecorationsPrefix(init, j);
    } else {
      assert blocks[..j] == blocks;
    }
  }

  /** The decorations of block `j` are a contiguous run of the document's list. */
  lemma BlockSlice(blocks: seq<CodeBlock>, j: nat)
    requires j < |blocks|
    ensures var a := |Decorations(blocks[..j])|;
            var b := |Decorations(blocks[..j + 1])|;
            a <= b <= |Decorations(blocks)| &&
            Decorations(blocks)[a..b] == BlockDecorations(blocks[j])
  {
    assert blocks[..j + 1][..j] == blocks[..j];
    DecorationsPrefix(blocks, j + 1);
    RunInPrefix(Decorations(blocks[..j]), BlockDecorations(blocks[j]), Decorations(blocks));
  }
}
