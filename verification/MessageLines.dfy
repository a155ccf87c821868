/** Which lines are recognised as what, by their characters, and the block that lines of each
    kind make. */
module MessageLines {
  import opened Wrappers
  import opened Strings
  import opened MessageInline
  import opened MessageBlocks
  import opened MessageEntities
  import opened MessageInk
  import opened MessagePatterns
  import opened MessageQuotations

  // ----- the kinds of lines, by their characters -----

  predicate FenceParts(line: string, indent: string, rest: string) {
    AllSpaces(indent) && line == indent + "```" + rest
  }

  predicate RuleParts(line: string, before: string, c: char, n: nat, after: string) {
    AllSpaces(before) && c in "-*_" && n >= 3 && AllSpaces(after) && line == before + Marks(c, n) + after
  }

  predicate HeadingLine(line: string, level: nat, space: string, text: string) {
    && 1 <= level <= 6 && AllSpaces(space) && space != "" && Trimmed(text)
    && line == Marks('#', level) + space + text
  }

  /** Nothing but space. */
  lemma BlankIff(line: string)
    ensures IsBlank(line) <==> AllSpaces(line)
  {
    var before := SpaceBefore(line);
    var after := TrimEndParts(TrimStart(line));
    if IsBlank(line) {
      assert line == before + after;
    } else {
      TrimEndKeepsHead(TrimStart(line));
      assert line[|before|] == TrimStart(line)[0];
    }
  }

  /** Three backticks after any space. */
  lemma FenceIff(line: string)
    ensures IsFence(line) <==> exists indent, rest :: FenceParts(line, indent, rest)
  {
    if IsFence(line) {
      var indent := SpaceBefore(line);
      var rest := TrimStart(line)[3..];
      assert TrimStart(line) == "```" + rest;
      Regrouped(indent, "```", rest);
      assert FenceParts(line, indent, rest);
    }
    forall indent, rest | FenceParts(line, indent, rest) ensures IsFence(line) {
      Regrouped(indent, "```", rest);
      TrimStartOf(indent, "```" + rest);
      TrimStartStays("```" + rest);
    }
  }

  lemma TrimOfParts(before: string, middle: string, after: string)
    requires AllSpaces(before) && AllSpaces(after)
    requires middle != "" && !IsSpace(middle[0]) && !IsSpace(middle[|middle| - 1])
    ensures Trim(before + middle + after) == middle
  {
    Regrouped(before, middle, after);
    TrimStartOf(before, middle + after);
    assert (middle + after)[0] == middle[0];
    TrimStartStays(middle + after);
    TrimEndOf(middle, after);
  }

  lemma {:induction false} TrimEndOf(s: string, space: string)
    requires AllSpaces(space) && s != "" && !IsSpace(s[|s| - 1])
    ensures TrimEnd(s + space) == s
  {
    if space == "" {
      assert s + space == s;
    } else {
      TrimEndOf(s, space[..|space| - 1]);
      assert (s + space)[..|s + space| - 1] == s + space[..|space| - 1];
    }
  }

  lemma TrimParts(line: string) returns (before: string, after: string)
    ensures line == before + Trim(line) + after && AllSpaces(before) && AllSpaces(after)
  {
    before := SpaceBefore(line);
    after := TrimEndParts(TrimStart(line));
    Regrouped(before, Trim(line), after);
  }

  lemma RepeatsIff(s: string, c: char)
    ensures Repeats(s, c) <==> |s| >= 3 && s == Marks(c, |s|)
  {
    if Repeats(s, c) {
      assert s == Marks(c, |s|);
    }
  }

  /** Three or more hyphens, stars or underscores, all the same, and space around them. */
  lemma RuleIff(line: string)
    ensures IsRule(line) <==> exists before, c, n, after :: RuleParts(line, before, c, n, after)
  {
    if IsRule(line) {
      var t := Trim(line);
      var c := t[0];
      RepeatsIff(t, c);
      hide Trim;
      var before, after := TrimParts(line);
      assert RuleParts(line, before, c, |t|, after);
    }
    forall before, c, n, after | RuleParts(line, before, c, n, after) ensures IsRule(line) {
      TrimOfParts(before, Marks(c, n), after);
      RepeatsIff(Marks(c, n), c);
    }
  }

  /** One to six hashes, space, the text. */
  lemma HeadingIff(line: string, text: string)
    ensures HeadingText(line) == Some(text) <==> AllDots(text) && exists level, space :: HeadingLine(line, level, space, text)
    ensures forall level, space :: HeadingLine(line, level, space, text) && AllDots(text) ==> Hashes(line) == level
  {
    if HeadingText(line) == Some(text) {
      var hashes, space := HeadingParts(line);
      HeadingIsTrimmed(line);
      hide HeadingText, Hashes;
      assert hashes == Marks('#', |hashes|);
      assert HeadingLine(line, |hashes|, space, text);
    }
    forall level, space | HeadingLine(line, level, space, text) && AllDots(text)
      ensures HeadingText(line) == Some(text) && Hashes(line) == level
    {
      Regrouped(Marks('#', level), space, text);
      HeadingOfParts(Marks('#', level), space, text);
      TrimStartStays(text);
      assert !IsSpace('#') && (space + text)[0] == space[0];
      HashesOf(Marks('#', level), space + text);
    }
  }

  lemma HeadingIsTrimmed(line: string)
    requires HeadingText(line).Some?
    ensures Trimmed(HeadingText(line).value) && AllDots(HeadingText(line).value)
  {
    var space := SpaceBefore(line[Hashes(line)..]);
  }

  /** A closing angle bracket, at most one space, the text. */
  lemma QuoteIff(line: string, text: string)
    ensures QuoteText(line) == Some(text) <==> AllDots(text) && QuoteLine(line, text)
  {
    hide AllDots;
    if QuoteLine(line, text) && line == ">" + text {
      assert line[1..] == text;
    }
    if QuoteText(line) == Some(text) && !(|line| > 1 && IsSpace(line[1])) {
      assert line == ">" + line[1..];
    }
  }

  /** Space, a bullet or a number with a point or bracket, space, the text. */
  lemma ItemIff(line: string, ordered: bool, text: string)
    ensures ItemText(line, ordered) == Some(text) <==> AllDots(text) && ItemLine(line, ordered, text)
  {
    if ItemText(line, ordered) == Some(text) {
      ItemTextParts(line, ordered);
      hide ItemLine;
      assert AllDots(text);
    }
    if AllDots(text) && ItemLine(line, ordered, text) {
      var indent, mark, space :| ItemParts(line, ordered, indent, mark, space, text);
      ItemOfParts(ordered, indent, mark, space, text);
      TrimStartStays(text);
    }
  }

  // ----- what lines of each kind make -----

  /** A run goes on to the first line that does not belong to it. */
  lemma {:induction false} RunIsRun(lines: seq<string>, rest: seq<string>, run: Run)
    requires forall i :: 0 <= i < |lines| ==> Continues(lines[i], run)
    requires rest == [] || !Continues(rest[0], run)
    ensures RunLength(lines + rest, run) == |lines|
  {
    hide Continues;
    if lines == [] {
      assert lines + rest == rest;
    } else {
      RunIsRun(lines[1..], rest, run);
      assert (lines + rest)[1..] == lines[1..] + rest;
    }
  }

  /** Lines that are taken as a block, then the rest. */
  lemma BlockThenRest(lines: seq<string>, rest: seq<string>, b: Option<BlockNode>)
    requires lines != [] && Taken(lines + rest) == |lines| && FirstBlock(lines + rest) == b
    ensures BlocksOf(lines + rest) == BlockOf(b) + BlocksOf(rest)
  {
    hide Taken, FirstBlock, BlocksOf, BlockOf;
    FirstThenRest(lines + rest);
    assert (lines + rest)[|lines|..] == rest;
  }

  /** A blank line makes nothing. */
  lemma BlankTree(line: string, rest: seq<string>)
    requires AllSpaces(line)
    ensures BlocksOf([line] + rest) == BlocksOf(rest)
  {
    BlankIff(line);
    assert !IsFence(line) by { BlankIsNoFence(line); }
    hide IsBlank, IsFence, BlocksOf;
    BlockThenRest([line], rest, None);
    assert [] + BlocksOf(rest) == BlocksOf(rest);
  }

  lemma BlankIsNoFence(line: string)
    requires AllSpaces(line)
    ensures !IsFence(line)
  {
    TrimStartOf(line, "");
    assert line + "" == line;
  }

  lemma RuleIsNoFence(line: string)
    requires IsRule(line)
    ensures !IsFence(line) && !IsBlank(line)
  {
    hide TrimStart;
    if IsFence(line) {
      var t := TrimStart(line);
      TrimEndKeepsHead(t);
    }
  }

  /** A rule makes a rule. */
  lemma RuleBlock(line: string, rest: seq<string>)
    requires exists before, c, n, after :: RuleParts(line, before, c, n, after)
    ensures BlocksOf([line] + rest) == [Line] + BlocksOf(rest)
  {
    RuleIff(line);
    RuleIsNoFence(line);
    hide IsBlank, IsFence, IsRule, BlocksOf;
    BlockThenRest([line], rest, Some(Line));
  }

  lemma HeadingIsNothingElse(line: string)
    requires HeadingText(line).Some?
    ensures !IsFence(line) && !IsBlank(line) && !IsRule(line)
  {
    assert line[0] == '#' && !IsSpace('#');
    TrimStartStays(line);
    hide TrimStart, HeadingText;
    TrimEndKeepsHead(line);
  }

  /** Hashes make a heading of their number. */
  lemma HeadingBlock(level: nat, space: string, text: string, rest: seq<string>)
    requires 1 <= level <= 6 && AllSpaces(space) && space != "" && Trimmed(text) && AllDots(text)
    ensures BlocksOf([Marks('#', level) + space + text] + rest) == [Heading(level, Inline(text))] + BlocksOf(rest)
  {
    var line := Marks('#', level) + space + text;
    assert HeadingLine(line, level, space, text);
    HeadingIff(line, text);
    HeadingIsNothingElse(line);
    hide IsBlank, IsFence, IsRule, HeadingText, Hashes, BlocksOf, Inline;
    BlockThenRest([line], rest, Some(Heading(level, Inline(text))));
  }

  /** What stands between fences is code, as it is; the fence that closes it is gone. */
  lemma CodeBlockTree(open: string, body: seq<string>, close: string, rest: seq<string>)
    requires IsFence(open) && IsFence(close) && forall i :: 0 <= i < |body| ==> !IsFence(body[i])
    ensures BlocksOf([open] + body + [close] + rest) == [CodeBlock(JoinLines(body))] + BlocksOf(rest)
    ensures BlocksOf([open] + body) == [CodeBlock(JoinLines(body))]
  {
    hide IsFence, JoinLines, BlocksOf;
    var whole := [open] + body + [close];
    var lines := whole + rest;
    assert lines[1..] == body + ([close] + rest) && lines[1..1 + |body|] == body;
    RunIsRun(body, [close] + rest, UntilFence);
    FenceTaken(lines);
    BlockThenRest(whole, rest, Some(CodeBlock(JoinLines(body))));
    var unclosed := [open] + body;
    assert unclosed[1..] == body + [] && unclosed[1..1 + |body|] == body && unclosed + [] == unclosed;
    RunIsRun(body, [], UntilFence);
    FenceTaken(unclosed);
    NothingHere();
    BlockThenRest(unclosed, [], Some(CodeBlock(JoinLines(body))));
  }

  predicate QuoteLines(lines: seq<string>, texts: seq<string>) {
    |lines| == |texts| && forall i :: 0 <= i < |lines| ==> QuoteText(lines[i]) == Some(texts[i])
  }

  lemma QuoteIsNothingElse(line: string)
    requires QuoteText(line).Some?
    ensures !IsFence(line) && !IsBlank(line) && !IsRule(line) && HeadingText(line).None?
  {
    MarkedLine(line);
  }

  /** Quoted lines, as many as follow one another, make one quotation: the message their
      texts make. */
  lemma QuoteBlock(lines: seq<string>, texts: seq<string>, rest: seq<string>)
    requires lines != [] && QuoteLines(lines, texts) && (rest == [] || QuoteText(rest[0]).None?)
    ensures BlocksOf(lines + rest) == [Quote(Blocks(JoinLines(texts)))] + BlocksOf(rest)
  {
    QuoteIsNothingElse(lines[0]);
    hide IsFence, IsBlank, IsRule, HeadingText, QuoteText, JoinLines, Blocks, BlocksOf, RunLength, QuoteTexts;
    RunIsRun(lines, rest, Quotes);
    TextsOfQuotes(lines, texts);
    assert (lines + rest)[..|lines|] == lines;
    BlockThenRest(lines, rest, Some(Quote(Blocks(JoinLines(texts)))));
  }

  lemma TextsOfQuotes(lines: seq<string>, texts: seq<string>)
    requires QuoteLines(lines, texts)
    ensures QuoteTexts(lines) == texts
  {
    hide QuoteText;
  }

  predicate ItemLines(lines: seq<string>, ordered: bool, texts: seq<string>) {
    |lines| == |texts| && forall i :: 0 <= i < |lines| ==> ItemText(lines[i], ordered) == Some(texts[i])
  }

  /** Items of one kind, as many as follow one another, make one list. */
  lemma ListBlock(lines: seq<string>, ordered: bool, texts: seq<string>, rest: seq<string>)
    requires lines != [] && ItemLines(lines, ordered, texts) && (rest == [] || ItemText(rest[0], ordered).None?)
    ensures BlocksOf(lines + rest)
      == [List(ordered, seq(|texts|, i requires 0 <= i < |texts| => Inline(texts[i])))] + BlocksOf(rest)
  {
    ItemIsNothingElse(lines[0], ordered);
    ListTaken(lines, ordered, rest);
    TreesOfItems(lines, ordered, texts);
    hide *;
    BlockThenRest(lines, rest, Some(List(ordered, ItemTrees(lines, ordered))));
    OneOf(List(ordered, ItemTrees(lines, ordered)));
  }

  lemma OneOf(b: BlockNode)
    ensures BlockOf(Some(b)) == [b]
  {}

  lemma ListTaken(lines: seq<string>, ordered: bool, rest: seq<string>)
    requires lines != [] && (forall i :: 0 <= i < |lines| ==> ItemText(lines[i], ordered).Some?)
    requires rest == [] || ItemText(rest[0], ordered).None?
    requires ItemText(lines[0], !ordered).None?
    requires !IsFence(lines[0]) && !IsBlank(lines[0]) && !IsRule(lines[0]) && HeadingText(lines[0]).None? && QuoteText(lines[0]).None?
    ensures Taken(lines + rest) == |lines| && FirstBlock(lines + rest) == Some(List(ordered, ItemTrees(lines, ordered)))
  {
    hide IsFence, IsBlank, IsRule, HeadingText, QuoteText, OrderedText, BulletText, RunLength, ItemTrees;
    RunIsRun(lines, rest, Items(ordered));
    assert (lines + rest)[..|lines|] == lines;
  }

  lemma TreesOfItems(lines: seq<string>, ordered: bool, texts: seq<string>)
    requires ItemLines(lines, ordered, texts)
    ensures ItemTrees(lines, ordered) == seq(|texts|, i requires 0 <= i < |texts| => Inline(texts[i]))
  {
    hide ItemText, Inline;
  }

  /** Lines of no kind, as many as follow one another, make one paragraph. */
  lemma ParagraphBlock(lines: seq<string>, rest: seq<string>)
    requires lines != [] && (forall i :: 0 <= i < |lines| ==> !EndsParagraph(lines[i]))
    requires rest == [] || EndsParagraph(rest[0])
    ensures BlocksOf(lines + rest) == [Paragraph(Inline(JoinLines(lines)))] + BlocksOf(rest)
  {
    hide IsFence, IsBlank, IsRule, HeadingText, QuoteText, OrderedText, BulletText, JoinLines, Inline, BlocksOf, RunLength;
    RunIsRun(lines, rest, Plain);
    assert (lines + rest)[..|lines|] == lines;
    assert !EndsParagraph(lines[0]);
    BlockThenRest(lines, rest, Some(Paragraph(Inline(JoinLines(lines)))));
  }
}
