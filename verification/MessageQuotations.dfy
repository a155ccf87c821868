/** Quotations: their text is read as a message of its own, so its entities are decoded once
    more. When that leaves the blocks as they were is decided line by line. */
module MessageQuotations {
  import opened Wrappers
  import opened Strings
  import opened MessageInline
  import opened MessageBlocks
  import opened MessageEntities
  import opened MessageInk

  // ----- how much text blocks hold -----

  /** Characters but for line breaks. */
  function Chars(s: string): nat {
    if s == "" then 0 else (if s[0] == '\n' then 0 else 1) + Chars(s[1..])
  }

  lemma {:induction false} CharsConcat(a: string, b: string)
    ensures Chars(a + b) == Chars(a) + Chars(b)
  {
    if a == "" {
      assert a + b == b;
    } else {
      CharsConcat(a[1..], b);
      assert (a + b)[1..] == a[1..] + b;
    }
  }

  lemma {:induction false} CharsOfLine(s: string)
    requires AllDots(s)
    ensures Chars(s) == |s|
  {
    if s != "" {
      CharsOfLine(s[1..]);
    }
  }

  function TreesInk(items: seq<seq<InlineNode>>): nat {
    if items == [] then 0 else Chars(WriteAll(items[0])) + TreesInk(items[1..])
  }

  function BlockInk(b: BlockNode): nat {
    match b
    case Paragraph(children) => Chars(WriteAll(children))
    case Heading(_, children) => Chars(WriteAll(children))
    case List(_, items) => TreesInk(items)
    case _ => 0
  }

  function BlocksInk(blocks: seq<BlockNode>): nat {
    if blocks == [] then 0 else BlockInk(blocks[0]) + BlocksInk(blocks[1..])
  }

  function LinesInk(lines: seq<string>): nat {
    if lines == [] then 0 else LineInk(lines[0]) + LinesInk(lines[1..])
  }

  lemma {:induction false} LinesInkConcat(a: seq<string>, b: seq<string>)
    ensures LinesInk(a + b) == LinesInk(a) + LinesInk(b)
  {
    hide LineInk;
    if a == [] {
      assert a + b == b;
    } else {
      LinesInkConcat(a[1..], b);
      assert (a + b)[1..] == a[1..] + b;
    }
  }

  predicate NoQuotes(blocks: seq<BlockNode>) { forall i :: 0 <= i < |blocks| ==> !blocks[i].Quote? }

  predicate NoCode(blocks: seq<BlockNode>) { forall i :: 0 <= i < |blocks| ==> !blocks[i].CodeBlock? }

  predicate NoFences(lines: seq<string>) { forall i :: 0 <= i < |lines| ==> !IsFence(lines[i]) }

  predicate NoMarks(lines: seq<string>) { forall i :: 0 <= i < |lines| ==> QuoteText(lines[i]).None? }

  lemma {:induction false} ParagraphInk(lines: seq<string>)
    requires AllLines(lines) && forall i :: 0 <= i < |lines| ==> !EndsParagraph(lines[i])
    ensures Chars(JoinLines(lines)) == LinesInk(lines)
  {
    if lines != [] {
      ParagraphInk(lines[1..]);
      CharsOfLine(lines[0]);
      assert LineInk(lines[0]) == |lines[0]|;
      hide LineInk, EndsParagraph, AllDots;
      if |lines| > 1 {
        CharsConcat(lines[0] + "\n", JoinLines(lines[1..]));
        CharsConcat(lines[0], "\n");
        assert Chars("\n") == 0;
      }
    }
  }

  lemma ItemDots(line: string, ordered: bool)
    requires AllDots(line) && ItemText(line, ordered).Some?
    ensures AllDots(ItemText(line, ordered).value)
  {
    ItemTextParts(line, ordered);
    var text := ItemText(line, ordered).value;
    hide ItemText, AllDots;
    var indent, mark, space :| ItemParts(line, ordered, indent, mark, space, text);
    DotsAtEnd(indent + mark + space, text);
  }

  lemma {:induction false} ListInk(lines: seq<string>, ordered: bool)
    requires AllLines(lines) && forall i :: 0 <= i < |lines| ==> ItemText(lines[i], ordered).Some?
    ensures TreesInk(ItemTrees(lines, ordered)) == LinesInk(lines)
  {
    hide ItemText, Inline, WriteAll, LineInk, AllDots;
    if lines == [] {
      assert ItemTrees(lines, ordered) == [];
    } else {
      ListInk(lines[1..], ordered);
      assert ItemTrees(lines, ordered)[1..] == ItemTrees(lines[1..], ordered);
      var text := ItemText(lines[0], ordered).value;
      ItemInk(lines[0], ordered);
      ItemDots(lines[0], ordered);
      CharsOfLine(text);
      InlineIsLossless(text);
    }
  }

  lemma HeadingInk(line: string)
    requires AllDots(line) && HeadingText(line).Some? && !IsBlank(line) && !IsRule(line)
    ensures Chars(WriteAll(Inline(HeadingText(line).value))) == LineInk(line)
    ensures QuoteText(line).None?
  {
    var hashes, space := HeadingParts(line);
    hide Inline, WriteAll, HeadingText, IsBlank, IsRule;
    var text := HeadingText(line).value;
    DotsAtEnd(hashes + space, text);
    CharsOfLine(text);
    InlineIsLossless(text);
    assert line[0] == hashes[0];
  }

  /** The first block holds the text of its lines. */
  lemma FirstInk(lines: seq<string>)
    requires lines != [] && AllLines(lines) && !IsFence(lines[0])
    requires FirstBlock(lines).Some? ==> !FirstBlock(lines).value.Quote?
    ensures var own := lines[..Taken(lines)];
            NoMarks(own) && LinesInk(own) == if FirstBlock(lines).Some? then BlockInk(FirstBlock(lines).value) else 0
    ensures FirstBlock(lines).Some? ==> !FirstBlock(lines).value.CodeBlock?
  {
    hide RunLength, QuoteText, OrderedText, BulletText, HeadingText, IsRule, IsFence, IsBlank, Inline, Blocks;
    hide JoinLines, ItemTrees, QuoteTexts, Hashes, WriteAll, Chars, TreesInk, AllDots;
    var line, k := lines[0], Taken(lines);
    var own := lines[..k];
    if IsBlank(line) || IsRule(line) {
      OneLine(lines);
      BlankIsNoQuote(line);
    } else if HeadingText(line).Some? {
      OneLine(lines);
      HeadingInk(line);
      hide LineInk;
    } else if QuoteText(line).Some? {
    } else if OrderedText(line).Some? {
      hide LineInk;
      ListInk(own, true);
      ItemsHaveNoMarks(own, true);
    } else if BulletText(line).Some? {
      hide LineInk;
      ListInk(own, false);
      ItemsHaveNoMarks(own, false);
    } else {
      hide LineInk;
      ParagraphInk(own);
      InlineIsLossless(JoinLines(own));
    }
  }

  lemma OneLine(lines: seq<string>)
    requires lines != []
    ensures LinesInk(lines[..1]) == LineInk(lines[0])
  {
    hide LineInk;
    assert lines[..1][1..] == [] && LinesInk([]) == 0;
  }

  lemma BlankIsNoQuote(line: string)
    requires IsBlank(line) || IsRule(line)
    ensures QuoteText(line).None?
  {
    hide TrimStart, TrimEnd;
    if line != "" && line[0] == '>' {
      TrimStartStays(line);
      TrimEndKeepsHead(line);
    }
  }

  lemma ItemsHaveNoMarks(lines: seq<string>, ordered: bool)
    requires forall i :: 0 <= i < |lines| ==> ItemText(lines[i], ordered).Some?
    ensures NoMarks(lines)
  {
    hide ItemText, QuoteText, IsBlank, IsRule, HeadingText, IsFence;
    forall i | 0 <= i < |lines| ensures QuoteText(lines[i]).None? {
      ItemIsNothingElse(lines[i], ordered);
    }
  }

  lemma {:induction false} BlocksConcat(a: seq<BlockNode>, b: seq<BlockNode>)
    ensures BlocksInk(a + b) == BlocksInk(a) + BlocksInk(b)
    ensures NoQuotes(a + b) <==> NoQuotes(a) && NoQuotes(b)
    ensures NoCode(a + b) <==> NoCode(a) && NoCode(b)
  {
    hide BlockInk;
    if a == [] {
      assert a + b == b;
    } else {
      BlocksConcat(a[1..], b);
      assert (a + b)[1..] == a[1..] + b;
      assert forall i :: 0 < i < |a| ==> a[1..][i - 1] == a[i];
      assert a == [a[0]] + a[1..];
    }
  }

  function BlockOf(b: Option<BlockNode>): seq<BlockNode> { if b.Some? then [b.value] else [] }

  lemma FirstThenRest(lines: seq<string>)
    requires lines != []
    ensures BlocksOf(lines) == BlockOf(FirstBlock(lines)) + BlocksOf(lines[Taken(lines)..])
  {
    hide FirstBlock, Taken;
  }

  lemma OneBlockInk(b: Option<BlockNode>)
    ensures BlocksInk(BlockOf(b)) == if b.Some? then BlockInk(b.value) else 0
    ensures NoQuotes(BlockOf(b)) <==> (b.Some? ==> !b.value.Quote?)
    ensures NoCode(BlockOf(b)) <==> (b.Some? ==> !b.value.CodeBlock?)
  {
    hide BlockInk;
    if b.Some? {
      assert BlockOf(b)[1..] == [] && BlockOf(b)[0] == b.value;
    }
  }

  /** Without code and quotations, the blocks hold the text of the lines. */
  lemma {:induction false} InkOfLines(lines: seq<string>)
    requires AllLines(lines) && NoFences(lines) && NoQuotes(BlocksOf(lines))
    ensures BlocksInk(BlocksOf(lines)) == LinesInk(lines) && NoMarks(lines) && NoCode(BlocksOf(lines))
    decreases |lines|
  {
    hide FirstBlock, Taken, BlockInk, LineInk, AllDots, IsFence, QuoteText, BlocksOf, BlocksInk, NoQuotes, NoCode, LinesInk, BlockOf;
    if lines == [] {
      NothingHere();
    } else {
      var t := Taken(lines);
      FirstThenRest(lines);
      OneBlockInk(FirstBlock(lines));
      BlocksConcat(BlockOf(FirstBlock(lines)), BlocksOf(lines[t..]));
      InkOfLines(lines[t..]);
      FirstInk(lines);
      LinesInkConcat(lines[..t], lines[t..]);
      assert lines == lines[..t] + lines[t..];
      MarksConcat(lines[..t], lines[t..]);
    }
  }

  lemma NothingHere()
    ensures BlocksOf([]) == [] && BlocksInk([]) == 0 && LinesInk([]) == 0 && NoCode([]) && NoQuotes([])
  {}

  lemma MarksConcat(a: seq<string>, b: seq<string>)
    ensures NoMarks(a + b) <==> NoMarks(a) && NoMarks(b)
  {
    hide QuoteText;
    assert forall i :: 0 <= i < |a| ==> (a + b)[i] == a[i];
    assert forall i :: 0 <= i < |b| ==> (a + b)[|a| + i] == b[i];
  }

  // ----- the lines up to the first fence -----

  lemma {:induction false} RunTail(lines: seq<string>, run: Run, t: nat)
    requires t <= RunLength(lines, run)
    ensures RunLength(lines[t..], run) == RunLength(lines, run) - t
  {
    hide Continues;
    if t == 0 {
      assert lines[0..] == lines;
    } else {
      RunTail(lines[1..], run, t - 1);
      assert lines[1..][t - 1..] == lines[t..];
    }
  }

  lemma NoFenceTaken(lines: seq<string>)
    requires lines != [] && !IsFence(lines[0])
    ensures Taken(lines) <= RunLength(lines, UntilFence)
  {
    hide RunLength, QuoteText, OrderedText, BulletText, HeadingText, IsRule, IsFence, IsBlank, EndsParagraph;
    forall i | 0 <= i < Taken(lines) ensures !IsFence(lines[i]) {
      if IsFence(lines[i]) {
        FenceIsNothingElse(lines[i]);
      }
    }
  }

  lemma UntilFenceIs(lines: seq<string>)
    ensures var k := RunLength(lines, UntilFence);
            k <= |lines| && NoFences(lines[..k]) && (k < |lines| ==> IsFence(lines[k]))
  {
    hide RunLength, IsFence;
    var k := RunLength(lines, UntilFence);
    assert forall i :: 0 <= i < k ==> Continues(lines[i], UntilFence);
  }

  lemma SlicesAfter(lines: seq<string>, t: nat, k: nat)
    requires t <= k <= |lines|
    ensures lines[..k][t..] == lines[t..][..k - t] && lines[t..][k - t..] == lines[k..]
  {}

  /** The blocks of the lines before the first fence, then those from it on. */
  lemma {:induction false} CutAtFence(lines: seq<string>)
    ensures var k := RunLength(lines, UntilFence);
            BlocksOf(lines) == BlocksOf(lines[..k]) + BlocksOf(lines[k..])
    decreases |lines|
  {
    hide Taken, FirstBlock, BlocksOf, RunLength, IsFence;
    if lines == [] || IsFence(lines[0]) {
      CutAtStart(lines);
    } else {
      NoFenceTaken(lines);
      UntilFenceIs(lines);
      var t, k := Taken(lines), RunLength(lines, UntilFence);
      RunTail(lines, UntilFence, t);
      CutAtFence(lines[t..]);
      CutStep(lines, t, k);
    }
  }

  lemma CutAtStart(lines: seq<string>)
    requires lines == [] || IsFence(lines[0])
    ensures RunLength(lines, UntilFence) == 0
    ensures BlocksOf(lines) == BlocksOf(lines[..0]) + BlocksOf(lines[0..])
  {
    NothingHere();
    hide BlocksOf, IsFence;
    assert lines[..0] == [] && lines[0..] == lines;
    assert [] + BlocksOf(lines) == BlocksOf(lines);
  }

  lemma CutStep(lines: seq<string>, t: nat, k: nat)
    requires lines != [] && !IsFence(lines[0]) && t == Taken(lines) <= k <= |lines|
    requires BlocksOf(lines[t..]) == BlocksOf(lines[t..][..k - t]) + BlocksOf(lines[t..][k - t..])
    ensures BlocksOf(lines) == BlocksOf(lines[..k]) + BlocksOf(lines[k..])
  {
    hide Taken, FirstBlock, BlocksOf, IsFence;
    PrefixHasBlock(lines, k);
    FirstThenRest(lines);
    FirstThenRest(lines[..k]);
    SlicesAfter(lines, t, k);
    Joined(BlockOf(FirstBlock(lines)), BlocksOf(lines[t..][..k - t]), BlocksOf(lines[k..]));
  }

  lemma Joined(a: seq<BlockNode>, b: seq<BlockNode>, c: seq<BlockNode>)
    ensures a + (b + c) == (a + b) + c
  {}

  /** The place of the first code block, or the length. */
  function FirstCode(blocks: seq<BlockNode>): nat {
    if blocks == [] || blocks[0].CodeBlock? then 0 else 1 + FirstCode(blocks[1..])
  }

  lemma {:induction false} FirstCodeIs(p: seq<BlockNode>, c: seq<BlockNode>)
    requires NoCode(p) && (c == [] || c[0].CodeBlock?)
    ensures FirstCode(p + c) == |p|
  {
    if p == [] {
      assert p + c == c;
    } else {
      FirstCodeIs(p[1..], c);
      assert (p + c)[1..] == p[1..] + c;
    }
  }

  /** Blocks without code, then nothing or code: there is only one such cut. */
  lemma SameCut(p: seq<BlockNode>, c: seq<BlockNode>, q: seq<BlockNode>, d: seq<BlockNode>)
    requires p + c == q + d && NoCode(p) && NoCode(q)
    requires (c == [] || c[0].CodeBlock?) && (d == [] || d[0].CodeBlock?)
    ensures p == q && c == d
  {
    FirstCodeIs(p, c);
    FirstCodeIs(q, d);
    assert p == (p + c)[..|p|] && q == (q + d)[..|q|] && c == (p + c)[|p|..] && d == (q + d)[|q|..];
  }

  lemma StartsWithCode(lines: seq<string>)
    requires lines == [] || IsFence(lines[0])
    ensures BlocksOf(lines) == [] || BlocksOf(lines)[0].CodeBlock?
  {
    if lines != [] {
      FenceTaken(lines);
      hide FirstBlock, Taken, BlocksOf, IsFence;
      FirstThenRest(lines);
    } else {
      NothingHere();
    }
  }

  // ----- lines that decoding leaves -----

  /** Decoding changes no line, but for the fences of code, of which nothing is drawn. */
  predicate Settled(lines: seq<string>) {
    forall i :: 0 <= i < |lines| ==> IsFence(lines[i]) || DecodeEntities(lines[i]) == lines[i]
  }

  predicate Same(lines: seq<string>) { forall i :: 0 <= i < |lines| ==> DecodeEntities(lines[i]) == lines[i] }

  lemma {:induction false} DecodedLinesInk(lines: seq<string>)
    requires AllLines(lines) && NoFences(lines) && NoMarks(lines)
    ensures LinesInk(Decoded(lines)) <= LinesInk(lines)
    ensures LinesInk(Decoded(lines)) == LinesInk(lines) ==> Same(lines)
  {
    hide LineInk, AllDots, IsFence, QuoteText, DecodeEntities;
    if lines != [] {
      DecodedLinesInk(lines[1..]);
      DecodedInk(lines[0]);
      assert Decoded(lines)[1..] == Decoded(lines[1..]);
      assert forall i :: 0 < i < |lines| ==> lines[1..][i - 1] == lines[i];
    }
  }

  /** When decoded lines up to some fence hold as much text as all lines up to the first
      fence, decoding has made no fence and has changed nothing. */
  lemma TextSettles(lines: seq<string>, k: nat, n: nat)
    requires AllLines(lines) && n <= k <= |lines| && NoFences(lines[..k]) && NoMarks(lines[..k])
    requires n < k ==> IsFence(DecodeEntities(lines[n]))
    requires LinesInk(lines[..k]) == LinesInk(Decoded(lines)[..n])
    ensures n == k && Same(lines[..k])
  {
    hide LineInk, AllDots, IsFence, QuoteText, DecodeEntities, LinesInk;
    var a, b := lines[..n], lines[n..k];
    assert lines[..k] == a + b;
    assert forall i :: 0 <= i < n ==> a[i] == lines[..k][i];
    LinesInkConcat(a, b);
    assert Decoded(lines)[..n] == Decoded(a);
    DecodedLinesInk(a);
    if n < k {
      assert lines[..k][n] == lines[n];
      DecodedInk(lines[n]);
      InkOfFirst(b);
    }
  }

  lemma InkOfFirst(lines: seq<string>)
    requires lines != []
    ensures LinesInk(lines) >= LineInk(lines[0])
  {}

  /** Joined lines tell the lines, but for nothing and one empty line. */
  lemma JoinTells(x: seq<string>, y: seq<string>)
    requires AllLines(x) && AllLines(y) && JoinLines(x) == JoinLines(y)
    ensures |x| == |y| ==> x == y
    ensures |x| > |y| ==> |x| == 1 && x[0] == ""
  {
    hide AllDots, SplitLines;
    JoinNothing();
    hide JoinLines;
    if x != [] {
      SplitJoined(x);
    }
    if y != [] {
      SplitJoined(y);
    }
  }

  lemma JoinNothing()
    ensures JoinLines([]) == "" && SplitLines("") == [""]
  {}

  lemma EmptyLine()
    ensures DecodeEntities("") == "" && !IsFence("")
  {}

  lemma FenceStaysIf(line: string)
    ensures IsFence(line) ==> IsFence(DecodeEntities(line))
  {
    if IsFence(line) {
      FenceStays(line);
    }
  }

  /** Decoding never takes a fence away. */
  lemma FencesStay(lines: seq<string>)
    ensures RunLength(Decoded(lines), UntilFence) <= RunLength(lines, UntilFence)
  {
    UntilFenceIs(lines);
    UntilFenceIs(Decoded(lines));
    hide RunLength, IsFence, DecodeEntities;
    var n := RunLength(Decoded(lines), UntilFence);
    forall i | 0 <= i < n ensures !IsFence(lines[i]) {
      FenceStaysIf(lines[i]);
      assert !IsFence(Decoded(lines)[..n][i]);
    }
  }

  lemma EmptyFirst(tail: seq<string>)
    requires tail != [] && tail[0] == ""
    ensures RunLength(Decoded(tail), UntilFence) >= 1
  {
    EmptyLine();
    hide IsFence, DecodeEntities;
    assert Decoded(tail)[0] == "";
  }

  lemma SameWhenDecoded(lines: seq<string>, r: nat)
    requires r <= |lines| && lines[..r] == Decoded(lines)[..r]
    ensures Same(lines[..r])
  {
    hide DecodeEntities;
    forall i | 0 <= i < r ensures DecodeEntities(lines[..r][i]) == lines[..r][i] {
      assert Decoded(lines)[..r][i] == DecodeEntities(lines[i]);
    }
  }

  /** The lines of a code block are what it holds, so they are settled when it is. */
  lemma CodeSettles(tail: seq<string>, r: nat, n: nat)
    requires AllLines(tail)
    requires r == RunLength(tail, UntilFence) && n == RunLength(Decoded(tail), UntilFence)
    requires r <= |tail| && n <= |tail| && JoinLines(tail[..r]) == JoinLines(Decoded(tail)[..n])
    ensures n == r && Same(tail[..r])
  {
    DecodedLines(tail);
    FencesStay(tail);
    hide RunLength, IsFence, DecodeEntities, AllDots, AllLines, JoinLines, Decoded, Same;
    SomeLines(tail, r);
    SomeLines(Decoded(tail), n);
    if r > 0 && tail[0] == "" {
      EmptyFirst(tail);
    }
    SameCode(tail, r, Decoded(tail), n);
    SameWhenDecoded(tail, r);
  }

  lemma SomeLines(lines: seq<string>, r: nat)
    requires AllLines(lines) && r <= |lines|
    ensures AllLines(lines[..r])
  {
    hide AllDots;
  }

  lemma SameCode(a: seq<string>, r: nat, b: seq<string>, n: nat)
    requires n <= r <= |a| && n <= |b| && AllLines(a[..r]) && AllLines(b[..n])
    requires JoinLines(a[..r]) == JoinLines(b[..n])
    requires r > 0 && a[0] == "" ==> n > 0
    ensures n == r && a[..r] == b[..n]
  {
    hide AllLines, JoinLines;
    JoinTells(a[..r], b[..n]);
    assert r > 0 ==> a[..r][0] == a[0];
  }

  // ----- same blocks, same lines -----

  /** Nothing changed before the first fence. */
  lemma TextPart(lines: seq<string>)
    requires AllLines(lines) && NoQuotes(BlocksOf(lines)) && BlocksOf(lines) == BlocksOf(Decoded(lines))
    ensures var k := RunLength(lines, UntilFence);
            && RunLength(Decoded(lines), UntilFence) == k && Same(lines[..k])
            && BlocksOf(lines[k..]) == BlocksOf(Decoded(lines)[k..]) && NoQuotes(BlocksOf(lines[k..]))
  {
    var d := Decoded(lines);
    var k, n := RunLength(lines, UntilFence), RunLength(d, UntilFence);
    DecodedLines(lines);
    FencesStay(lines);
    UntilFenceIs(lines);
    UntilFenceIs(d);
    SomeLines(lines, k);
    SomeLines(d, n);
    CutAtFence(lines);
    CutAtFence(d);
    StartsWithCode(lines[k..]);
    StartsWithCode(d[n..]);
    hide RunLength, BlocksOf, BlocksInk, LinesInk, IsFence, AllDots, DecodeEntities, AllLines, NoQuotes, NoCode, NoMarks, NoFences, Same;
    BlocksConcat(BlocksOf(lines[..k]), BlocksOf(lines[k..]));
    BlocksConcat(BlocksOf(d[..n]), BlocksOf(d[n..]));
    InkOfLines(lines[..k]);
    InkOfLines(d[..n]);
    SameCut(BlocksOf(lines[..k]), BlocksOf(lines[k..]), BlocksOf(d[..n]), BlocksOf(d[n..]));
    assert n < k ==> d[n] == DecodeEntities(lines[n]);
    TextSettles(lines, k, n);
  }

  lemma FenceAt(lines: seq<string>)
    requires lines != []
    ensures var r := RunLength(lines[1..], UntilFence);
            r + 1 <= |lines| && (r + 1 < |lines| ==> IsFence(lines[r + 1]))
  {
    UntilFenceIs(lines[1..]);
    hide *;
    var r := RunLength(lines[1..], UntilFence);
    assert r + 1 < |lines| ==> lines[1..][r] == lines[r + 1];
  }

  lemma AfterOne(lines: seq<string>, r: nat)
    requires 1 + r <= |lines|
    ensures lines[1..][..r] == lines[1..1 + r]
  {}

  /** What a fence at the front takes and what its block holds. */
  lemma FenceParts(lines: seq<string>)
    requires lines != [] && IsFence(lines[0])
    ensures var t, r := Taken(lines), RunLength(lines[1..], UntilFence);
            && t <= |lines| && 1 + r <= t <= r + 2 && (r + 1 < |lines| ==> IsFence(lines[r + 1]))
            && BlocksOf(lines) == [CodeBlock(JoinLines(lines[1..][..r]))] + BlocksOf(lines[t..])
  {
    hide RunLength, BlocksOf, Taken, FirstBlock, IsFence, JoinLines, LinesOf, Blocks, Settled, Same, LinesInk;
    FenceTaken(lines);
    FenceAt(lines);
    FirstThenRest(lines);
    AfterOne(lines, RunLength(lines[1..], UntilFence));
  }

  /** Nothing changed in a code block. */
  lemma CodePart(lines: seq<string>)
    requires lines != [] && IsFence(lines[0]) && AllLines(lines)
    requires NoQuotes(BlocksOf(lines)) && BlocksOf(lines) == BlocksOf(Decoded(lines))
    ensures var t, r := Taken(lines), RunLength(lines[1..], UntilFence);
            && 1 <= t <= |lines| && 1 + r <= t <= r + 2 && Same(lines[1..][..r]) && (r + 1 < |lines| ==> IsFence(lines[r + 1]))
            && BlocksOf(lines[t..]) == BlocksOf(Decoded(lines)[t..]) && NoQuotes(BlocksOf(lines[t..]))
  {
    hide RunLength, BlocksOf, Taken, FirstBlock, IsFence, DecodeEntities, JoinLines, NoQuotes, NoCode, Same, BlocksInk, AllLines, Decoded;
    var d := Decoded(lines);
    FirstDecoded(lines);
    FenceParts(lines);
    FenceParts(d);
    var r, n := RunLength(lines[1..], UntilFence), RunLength(d[1..], UntilFence);
    var code, other := CodeBlock(JoinLines(lines[1..][..r])), CodeBlock(JoinLines(d[1..][..n]));
    SameTail([code], BlocksOf(lines[Taken(lines)..]), [other], BlocksOf(d[Taken(d)..]));
    BlocksConcat([code], BlocksOf(lines[Taken(lines)..]));
    CodeSettles(lines[1..], r, n);
    SameTaken(lines, d);
  }

  lemma FirstDecoded(lines: seq<string>)
    requires lines != [] && IsFence(lines[0]) && AllLines(lines)
    ensures |Decoded(lines)| == |lines| && IsFence(Decoded(lines)[0]) && Decoded(lines)[1..] == Decoded(lines[1..])
    ensures AllLines(lines[1..])
  {
    FenceStays(lines[0]);
    hide IsFence, DecodeEntities, AllDots;
    DecodedDrop(lines, 1);
    LinesAfter(lines, 1);
  }

  lemma LinesAfter(lines: seq<string>, k: nat)
    requires k <= |lines| && AllLines(lines)
    ensures AllLines(lines[k..])
  {
    hide AllDots;
  }

  lemma SameTaken(lines: seq<string>, d: seq<string>)
    requires lines != [] && |d| == |lines| && IsFence(lines[0]) && IsFence(d[0])
    requires RunLength(lines[1..], UntilFence) == RunLength(d[1..], UntilFence)
    ensures Taken(d) == Taken(lines)
  {
    FenceTaken(lines);
    FenceTaken(d);
  }

  lemma SameTail(a: seq<BlockNode>, b: seq<BlockNode>, c: seq<BlockNode>, d: seq<BlockNode>)
    requires a + b == c + d && |a| == |c|
    ensures a == c && b == d
  {
    assert a == (a + b)[..|a|] && c == (c + d)[..|a|];
    assert b == (a + b)[|a|..] && d == (c + d)[|c|..];
  }

  lemma SettledParts(lines: seq<string>, k: nat)
    requires k <= |lines|
    ensures Settled(lines) <==> Settled(lines[..k]) && Settled(lines[k..])
    ensures Same(lines[..k]) ==> Settled(lines[..k])
  {
    hide IsFence, DecodeEntities;
    assert forall i :: 0 <= i < k ==> lines[..k][i] == lines[i];
    assert forall i :: k <= i < |lines| ==> lines[k..][i - k] == lines[i];
  }

  lemma SettledCode(lines: seq<string>, r: nat, t: nat)
    requires 1 + r <= t <= |lines| && t <= r + 2 && IsFence(lines[0]) && Same(lines[1..][..r])
    requires r + 1 < |lines| ==> IsFence(lines[r + 1])
    ensures Settled(lines[..t])
  {
    hide IsFence, DecodeEntities;
    forall i | 0 <= i < t ensures IsFence(lines[i]) || DecodeEntities(lines[i]) == lines[i] {
      if 1 <= i < 1 + r {
        assert lines[1..][..r][i - 1] == lines[i];
      }
    }
  }

  lemma {:induction false} SameBlocksSettled(lines: seq<string>)
    requires AllLines(lines) && NoQuotes(BlocksOf(lines)) && BlocksOf(lines) == BlocksOf(Decoded(lines))
    ensures Settled(lines)
    decreases |lines|
  {
    UntilFenceIs(lines);
    hide RunLength, BlocksOf, Taken, IsFence, AllDots, DecodeEntities, NoQuotes, Same, Settled;
    TextPart(lines);
    var k := RunLength(lines, UntilFence);
    SettledParts(lines, k);
    var after := lines[k..];
    if after == [] {
      NothingSettled();
    } else {
      assert Decoded(lines)[k..] == Decoded(after);
      CodePart(after);
      var t, r := Taken(after), RunLength(after[1..], UntilFence);
      SettledCode(after, r, t);
      SettledParts(after, t);
      assert Decoded(after)[t..] == Decoded(after[t..]);
      SameBlocksSettled(after[t..]);
    }
  }

  lemma NothingSettled()
    ensures Settled([])
  {}

  // ----- same lines, same blocks -----

  lemma UntilFenceSettled(lines: seq<string>)
    requires Settled(lines)
    ensures var k := RunLength(lines, UntilFence);
            RunLength(Decoded(lines), UntilFence) == k && Decoded(lines)[..k] == lines[..k]
  {
    UntilFenceIs(lines);
    UntilFenceIs(Decoded(lines));
    FencesStay(lines);
    hide RunLength, IsFence, DecodeEntities;
    var d, k := Decoded(lines), RunLength(lines, UntilFence);
    forall i | 0 <= i < k ensures d[i] == lines[i] && !IsFence(d[i]) {
      assert !IsFence(lines[..k][i]);
    }
  }

  /** The fences of code may change: nothing of them is drawn. */
  lemma {:induction false} SettledSameBlocks(lines: seq<string>)
    requires Settled(lines)
    ensures BlocksOf(Decoded(lines)) == BlocksOf(lines)
    decreases |lines|
  {
    hide RunLength, BlocksOf, Taken, FirstBlock, IsFence, DecodeEntities, Settled, JoinLines, NoFences, Decoded;
    var k := RunLength(lines, UntilFence);
    UntilFenceIs(lines);
    UntilFenceSettled(lines);
    CutAtFence(lines);
    CutAtFence(Decoded(lines));
    SettledParts(lines, k);
    DecodedDrop(lines, k);
    var after := lines[k..];
    if after == [] {
      DecodedNothing();
    } else {
      SettledFence(after);
      SettledParts(after, Taken(after));
      DecodedDrop(after, Taken(after));
      SettledSameBlocks(after[Taken(after)..]);
    }
  }

  lemma DecodedNothing()
    ensures Decoded([]) == []
  {}

  lemma DecodedDrop(lines: seq<string>, k: nat)
    requires k <= |lines|
    ensures |Decoded(lines)| == |lines| && Decoded(lines)[k..] == Decoded(lines[k..])
  {
    hide DecodeEntities;
  }

  lemma DecodedFence(lines: seq<string>)
    requires lines != [] && IsFence(lines[0])
    ensures |Decoded(lines)| == |lines| && IsFence(Decoded(lines)[0])
  {
    FenceStays(lines[0]);
    hide IsFence, DecodeEntities;
  }

  /** A code block in front is the same after decoding. */
  lemma SettledFence(lines: seq<string>)
    requires lines != [] && IsFence(lines[0]) && Settled(lines)
    ensures var t, d := Taken(lines), Decoded(lines);
            && 1 <= t <= |lines| && |d| == |lines|
            && (BlocksOf(d[t..]) == BlocksOf(lines[t..]) ==> BlocksOf(d) == BlocksOf(lines))
  {
    hide *;
    DecodedFence(lines);
    DecodedDrop(lines, 1);
    SettledParts(lines, 1);
    UntilFenceSettled(lines[1..]);
    SameTaken(lines, Decoded(lines));
    FenceParts(lines);
    FenceParts(Decoded(lines));
  }

  // ----- what a quotation shows -----

  /** Texts read as a message of their own make the blocks they would make outside of the
      quotation if decoding changes none of them, the fences of code aside; and, unless they
      hold a quotation themselves, in no other case. */
  lemma TextsIffSettled(texts: seq<string>)
    requires texts != [] && AllLines(texts)
    ensures Settled(texts) ==> Blocks(JoinLines(texts)) == BlocksOf(texts)
    ensures NoQuotes(BlocksOf(texts)) && Blocks(JoinLines(texts)) == BlocksOf(texts) ==> Settled(texts)
  {
    hide LinesOf, BlocksOf, Settled, AllLines, JoinLines, NoQuotes;
    LinesOfTexts(texts);
    if Settled(texts) {
      SettledSameBlocks(texts);
    }
    if NoQuotes(BlocksOf(texts)) && Blocks(JoinLines(texts)) == BlocksOf(texts) {
      SameBlocksSettled(texts);
    }
  }

  lemma QuotedLines(lines: seq<string>)
    requires lines != [] && FirstBlock(lines).Some? && FirstBlock(lines).value.Quote?
    ensures forall i :: 0 <= i < Taken(lines) ==> QuoteText(lines[..Taken(lines)][i]).Some?
    ensures FirstBlock(lines).value.blocks == Blocks(JoinLines(QuoteTexts(lines[..Taken(lines)])))
    ensures AllLines(QuoteTexts(lines[..Taken(lines)]))
  {
    hide RunLength, QuoteText, OrderedText, BulletText, HeadingText, IsRule, IsFence, IsBlank, Inline, Blocks, JoinLines, AllDots;
    var own := lines[..Taken(lines)];
    forall i | 0 <= i < |own| ensures AllDots(QuoteTexts(own)[i]) {
      QuoteDots(own[i]);
    }
  }

  lemma QuoteDots(line: string)
    requires QuoteText(line).Some?
    ensures AllDots(QuoteText(line).value)
  {}

  /** A quotation shows what follows its marks as it would be shown without them if decoding
      changes no line of it but the fences of code. This is the exact condition unless the
      quotation holds another. */
  lemma QuotationIffSettled(lines: seq<string>)
    requires lines != [] && FirstBlock(lines).Some? && FirstBlock(lines).value.Quote?
    ensures forall i :: 0 <= i < Taken(lines) ==> QuoteText(lines[..Taken(lines)][i]).Some?
    ensures var blocks, texts := FirstBlock(lines).value.blocks, QuoteTexts(lines[..Taken(lines)]);
            && (Settled(texts) ==> blocks == BlocksOf(texts))
            && (NoQuotes(BlocksOf(texts)) ==> (blocks == BlocksOf(texts) <==> Settled(texts)))
  {
    QuotedLines(lines);
    hide *;
    TextsIffSettled(QuoteTexts(lines[..Taken(lines)]));
  }

  /** Texts that decoding leaves are settled, such as those without an ampersand. */
  lemma UndecodedIsSettled(texts: seq<string>)
    requires texts != [] && AllLines(texts)
    ensures DecodeEntities(JoinLines(texts)) == JoinLines(texts) ==> Settled(texts)
    ensures (forall i :: 0 <= i < |texts| ==> '&' !in texts[i]) ==> DecodeEntities(JoinLines(texts)) == JoinLines(texts)
  {
    hide *;
    LinesOfTexts(texts);
    if Decoded(texts) == texts {
      UnchangedIsSettled(texts);
    }
    if forall i :: 0 <= i < |texts| ==> '&' !in texts[i] {
      PlainStays(texts);
    }
  }

  lemma UnchangedIsSettled(lines: seq<string>)
    requires Decoded(lines) == lines
    ensures Settled(lines)
  {
    hide DecodeEntities, IsFence;
    forall i | 0 <= i < |lines| ensures DecodeEntities(lines[i]) == lines[i] {
      assert Decoded(lines)[i] == DecodeEntities(lines[i]);
    }
  }

  lemma PlainStays(lines: seq<string>)
    requires forall i :: 0 <= i < |lines| ==> '&' !in lines[i]
    ensures Decoded(lines) == lines
  {
    hide DecodeEntities;
    forall i | 0 <= i < |lines| ensures Decoded(lines)[i] == lines[i] {
      DecodePlainOnly(lines[i]);
    }
  }

  // ----- quotations that show something else -----

  lemma PlainLine(line: string)
    requires line != "" && line[0] in "&<" && line[|line| - 1] !in " -*_"
    ensures !IsFence(line) && !IsBlank(line) && !IsRule(line) && HeadingText(line).None? && QuoteText(line).None?
    ensures OrderedText(line).None? && BulletText(line).None?
  {
    hide TrimEnd;
    TrimStartStays(line);
    TrimEndKeepsHead(line);
  }

  lemma PlainBlock(line: string)
    requires !IsFence(line) && !IsBlank(line) && !IsRule(line) && HeadingText(line).None? && QuoteText(line).None?
    requires OrderedText(line).None? && BulletText(line).None?
    ensures BlocksOf([line]) == [Paragraph(Inline(line))]
  {
    hide IsFence, IsBlank, IsRule, HeadingText, QuoteText, OrderedText, BulletText, Inline;
    assert [line][1..] == [] && [line][..1] == [line];
    NothingHere();
  }

  lemma OneParagraph(line: string)
    requires line != "" && line[0] in "&<" && line[|line| - 1] !in " -*_"
    ensures BlocksOf([line]) == [Paragraph(Inline(line))] && WriteAll(Inline(line)) == line
  {
    PlainLine(line);
    hide *;
    PlainBlock(line);
    InlineIsLossless(line);
  }

  lemma MarkedLine(line: string)
    requires line != "" && line[0] == '>'
    ensures !IsFence(line) && !IsBlank(line) && !IsRule(line) && HeadingText(line).None?
  {
    hide TrimEnd;
    TrimStartStays(line);
    TrimEndKeepsHead(line);
  }

  lemma OneQuotation(text: string)
    requires AllDots(text)
    ensures BlocksOf(["> " + text]) == [Quote(Blocks(text))]
  {
    var line := "> " + text;
    assert line[2..] == text;
    assert QuoteText(line) == Some(text);
    MarkedLine(line);
    hide IsFence, IsBlank, IsRule, HeadingText, QuoteText, OrderedText, BulletText, Inline, Blocks, AllDots;
    assert [line][1..] == [] && [line][..1] == [line];
    assert QuoteTexts([line]) == [text];
    NothingHere();
  }
  lemma Entities(text: string)
    requires '&' !in text
    ensures DecodeEntities("&amp;" + text) == "&" + text
    ensures DecodeEntities("&lt;" + text) == "<" + text
  {
    EntitiesDecoded(text);
    DecodePlainOnly(text);
  }

  /** Decoded text without ampersands, in marks or without. */
  lemma DecodedOnce(mark: string, name: string, text: string)
    requires '&' !in mark && '&' !in text && name in ["&amp;", "&lt;"] && AllDots(mark + name + text)
    ensures Blocks(mark + name + text) == BlocksOf([mark + (if name == "&lt;" then "<" else "&") + text])
  {
    var line, after := mark + name + text, mark + (if name == "&lt;" then "<" else "&") + text;
    Regrouped(mark, name, text);
    DecodePlain(mark, name + text);
    Entities(text);
    hide DecodeEntities;
    Regrouped(mark, if name == "&lt;" then "<" else "&", text);
    assert JoinLines([line]) == line;
    LinesOfTexts([line]);
    assert Decoded([line]) == [after];
  }

  lemma Literals()
    ensures "" + "&lt;" == "&lt;" && "&lt;" + "" == "&lt;" && "" + "<" == "<" && "<" + "" == "<"
    ensures "" + "&amp;lt;" == "&amp;lt;"
    ensures "> " + "&lt;" == "> &lt;" && "> " + "<" == "> <" && "> " + "&amp;lt;" == "> &amp;lt;"
    ensures "> &lt;" != "> <"
  {
    assert "> &lt;"[2] != "> <"[2];
  }

  lemma DecodedLess(mark: string)
    requires '&' !in mark && AllDots(mark)
    ensures Blocks(mark + "&lt;") == BlocksOf([mark + "<"])
  {
    DecodedOnce(mark, "&lt;", "");
    hide Blocks, BlocksOf;
    assert mark + "&lt;" + "" == mark + "&lt;" && mark + "<" + "" == mark + "<";
  }

  lemma AmpersandText(mark: string)
    ensures mark + "&amp;" + "lt;" == mark + "&amp;lt;" && mark + "&" + "lt;" == mark + "&lt;"
  {}

  lemma DecodedAmpersand(mark: string)
    requires '&' !in mark && AllDots(mark)
    ensures Blocks(mark + "&amp;lt;") == BlocksOf([mark + "&lt;"])
  {
    hide Blocks, BlocksOf;
    DecodedOnce(mark, "&amp;", "lt;");
    AmpersandText(mark);
  }

  lemma LessIsDecoded()
    ensures Blocks("&lt;") == BlocksOf(["<"])
  {
    DecodedLess("");
    hide *;
    Literals();
  }

  /** What stands in a message as `&lt;` is drawn so, but as `<` once the line is quoted. */
  lemma QuotationDecodesAgain()
    ensures Blocks("&amp;lt;") == [Paragraph(Inline("&lt;"))] && WriteAll(Inline("&lt;")) == "&lt;"
    ensures Blocks("> &amp;lt;") == [Quote([Paragraph(Inline("<"))])] && WriteAll(Inline("<")) == "<"
  {
    hide Blocks, BlocksOf, Inline, WriteAll, DecodeEntities;
    DecodedAmpersand("");
    DecodedAmpersand("> ");
    OneParagraph("&lt;");
    OneQuotation("&lt;");
    LessIsDecoded();
    OneParagraph("<");
    Literals();
  }

  lemma MarkedTwice()
    ensures Blocks("<") == BlocksOf(["<"]) && DecodeEntities("> &lt;") == "> <"
  {
    PlainStays(["<"]);
    Entities("");
    DecodePlain("> ", "&lt;");
    LinesOfTexts(["<"]);
    assert JoinLines(["<"]) == "<";
    hide DecodeEntities, BlocksOf, LinesOf, JoinLines, AllLines;
    Literals();
  }

  lemma UnsettledLine(line: string)
    requires !IsFence(line) && DecodeEntities(line) != line
    ensures !Settled([line])
  {
    hide IsFence, DecodeEntities;
    assert [line][0] == line;
  }

  lemma QuotedLess()
    ensures BlocksOf(["> &lt;"]) == [Quote(Blocks("&lt;"))] && BlocksOf(["> <"]) == [Quote(Blocks("<"))]
    ensures Blocks("> &lt;") == BlocksOf(["> <"])
  {
    hide Blocks, BlocksOf;
    OneQuotation("&lt;");
    OneQuotation("<");
    DecodedLess("> ");
    Literals();
  }

  lemma JoinOne(line: string)
    ensures JoinLines([line]) == line
  {}

  /** A quotation within a quotation decodes its text in any case, so that the outer one may
      show what its texts do although decoding changes them. */
  lemma QuotedTwiceIsDecodedTwice()
    ensures var texts := ["> &lt;"]; !Settled(texts) && Blocks(JoinLines(texts)) == BlocksOf(texts)
  {
    hide *;
    MarkedLine("> &lt;");
    JoinOne("> &lt;");
    QuotedLess();
    MarkedTwice();
    LessIsDecoded();
    Literals();
    UnsettledLine("> &lt;");
  }
}
