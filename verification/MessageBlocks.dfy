/** Block markdown: the lines of a message grouped into paragraphs, headings, quotes,
    lists and code. */
module MessageBlocks {
  import opened Wrappers
  import opened Strings
  import opened MessageInline

  datatype BlockNode =
    | Paragraph(children: seq<InlineNode>)
    | Heading(level: nat, children: seq<InlineNode>)
    | Quote(blocks: seq<BlockNode>)
    | List(ordered: bool, items: seq<seq<InlineNode>>)
    | CodeBlock(value: string)
    | Line

  // ----- entities and line breaks -----

  const ENTITIES: seq<(string, char)> :=
    [("&nbsp;", ' '), ("&amp;", '&'), ("&lt;", '<'), ("&gt;", '>'), ("&quot;", '"'), ("&#39;", '\'')]

  /** The entity `s` begins with: its number in the table, or the size of the table. */
  function EntityAt(s: string, k: nat): (e: nat)
    requires k <= |ENTITIES|
    ensures k <= e <= |ENTITIES|
    ensures e < |ENTITIES| ==> ENTITIES[e].0 <= s
    decreases |ENTITIES| - k
  {
    if k == |ENTITIES| || ENTITIES[k].0 <= s then k else EntityAt(s, k + 1)
  }

  lemma EntitiesAreLong(e: nat)
    requires e < |ENTITIES|
    ensures |ENTITIES[e].0| >= 4
  {}

  /** Entities become the character they stand for, once: what they become is not read again. */
  function DecodeEntities(s: string): (t: string)
    ensures |t| <= |s|
    decreases |s|
  {
    if s == "" then ""
    else
      var e := EntityAt(s, 0);
      if e < |ENTITIES| then
        EntitiesAreLong(e);
        [ENTITIES[e].1] + DecodeEntities(s[|ENTITIES[e].0|..])
      else [s[0]] + DecodeEntities(s[1..])
  }

  /** Every way to end a line becomes a newline. */
  function NormalizeBreaks(s: string): (t: string)
    ensures |t| <= |s|
    ensures '\r' !in t
  {
    if s == "" then ""
    else if s[0] != '\r' then [s[0]] + NormalizeBreaks(s[1..])
    else "\n" + NormalizeBreaks(if |s| > 1 && s[1] == '\n' then s[2..] else s[1..])
  }

  function SplitLines(s: string): seq<string> { Split(s, '\n') }

  function JoinLines(lines: seq<string>): string {
    if lines == [] then "" else if |lines| == 1 then lines[0] else lines[0] + "\n" + JoinLines(lines[1..])
  }

  lemma {:induction false} JoinSplit(s: string)
    ensures JoinLines(SplitLines(s)) == s
    ensures forall i :: 0 <= i < |SplitLines(s)| ==> '\n' !in SplitLines(s)[i]
  {
    if s != "" {
      JoinSplit(s[1..]);
      var rest := SplitLines(s[1..]);
      if s[0] == '\n' {
        assert ([""] + rest)[1..] == rest;
      } else {
        var lines := [[s[0]] + rest[0]] + rest[1..];
        assert lines[1..] == rest[1..];
        assert |rest| > 1 ==> [s[0]] + rest[0] + "\n" + JoinLines(rest[1..]) == [s[0]] + (rest[0] + "\n" + JoinLines(rest[1..]));
      }
    }
  }

  function LinesOf(source: string): seq<string> { SplitLines(NormalizeBreaks(DecodeEntities(source))) }

  function Weight(lines: seq<string>): nat { |JoinLines(lines)| }

  /** Decoding and normalising never make a message longer. */
  lemma LinesOfWeight(source: string)
    ensures Weight(LinesOf(source)) <= |source|
  {
    JoinSplit(NormalizeBreaks(DecodeEntities(source)));
  }

  // ----- what a line is -----

  /** The characters a dot stands for. */
  predicate IsDot(c: char) { c != '\n' && c != '\r' && c != '\U{2028}' && c != '\U{2029}' }

  predicate AllDots(s: string) { forall i :: 0 <= i < |s| ==> IsDot(s[i]) }

  predicate IsFence(line: string) { "```" <= TrimStart(line) }

  predicate IsBlank(line: string) { Trim(line) == "" }

  predicate Repeats(s: string, c: char) { |s| >= 3 && forall i :: 0 <= i < |s| ==> s[i] == c }

  predicate IsRule(line: string) {
    Repeats(Trim(line), '-') || Repeats(Trim(line), '*') || Repeats(Trim(line), '_')
  }

  /** What follows the mark, after at least one space. */
  function AfterSpace(s: string): Option<string> {
    if s != "" && IsSpace(s[0]) && AllDots(TrimStart(s)) then Some(TrimStart(s)) else None
  }

  function Hashes(s: string): (k: nat)
    ensures k <= |s|
  {
    if s != "" && s[0] == '#' then 1 + Hashes(s[1..]) else 0
  }

  function HeadingText(line: string): Option<string> {
    if 1 <= Hashes(line) <= 6 then AfterSpace(line[Hashes(line)..]) else None
  }

  function QuoteText(line: string): (t: Option<string>)
    ensures t.Some? ==> |t.value| < |line|
  {
    if line == "" || line[0] != '>' then None
    else
      var text := if |line| > 1 && IsSpace(line[1]) then line[2..] else line[1..];
      if AllDots(text) then Some(text) else None
  }

  function BulletText(line: string): Option<string> {
    var t := TrimStart(line);
    if t != "" && t[0] in "-*+" then AfterSpace(t[1..]) else None
  }

  function OrderedText(line: string): Option<string> {
    var t := TrimStart(line);
    var d := Digits(t);
    if d >= 1 && d < |t| && t[d] in ".)" then AfterSpace(t[d + 1..]) else None
  }

  function ItemText(line: string, ordered: bool): Option<string> {
    if ordered then OrderedText(line) else BulletText(line)
  }

  /** A line that ends a paragraph. */
  predicate EndsParagraph(line: string) {
    || IsBlank(line) || IsFence(line) || IsRule(line) || HeadingText(line).Some?
    || QuoteText(line).Some? || BulletText(line).Some? || OrderedText(line).Some?
  }

  // ----- runs of lines -----

  /** The lines that belong together, from place `i` on. */
  datatype Run = UntilFence | Quotes | Items(ordered: bool) | Plain

  predicate Continues(line: string, run: Run) {
    match run
    case UntilFence => !IsFence(line)
    case Quotes => QuoteText(line).Some?
    case Items(ordered) => ItemText(line, ordered).Some?
    case Plain => !EndsParagraph(line)
  }

  function RunLength(lines: seq<string>, run: Run): (k: nat)
    ensures k <= |lines|
    ensures forall i :: 0 <= i < k ==> Continues(lines[i], run)
    ensures k < |lines| ==> !Continues(lines[k], run)
  {
    if lines == [] || !Continues(lines[0], run) then 0 else 1 + RunLength(lines[1..], run)
  }

  function QuoteTexts(lines: seq<string>): (texts: seq<string>)
    requires forall i :: 0 <= i < |lines| ==> QuoteText(lines[i]).Some?
    ensures |texts| == |lines|
  {
    seq(|lines|, i requires 0 <= i < |lines| => QuoteText(lines[i]).value)
  }

  function ItemTrees(lines: seq<string>, ordered: bool): seq<seq<InlineNode>>
    requires forall i :: 0 <= i < |lines| ==> ItemText(lines[i], ordered).Some?
  {
    seq(|lines|, i requires 0 <= i < |lines| => Inline(ItemText(lines[i], ordered).value))
  }

  lemma {:induction false} JoinTail(lines: seq<string>, k: nat)
    requires k <= |lines|
    ensures Weight(lines[k..]) <= Weight(lines)
  {
    if k > 0 {
      JoinTail(lines[1..], k - 1);
      assert lines[1..][k - 1..] == lines[k..];
    }
  }

  lemma {:induction false} JoinHead(lines: seq<string>, k: nat)
    requires k <= |lines|
    ensures Weight(lines[..k]) <= Weight(lines)
  {
    if k > 0 {
      JoinHead(lines[1..], k - 1);
      assert lines[..k][1..] == lines[1..][..k - 1];
    }
  }

  /** Taking a quotation out of its marks makes it shorter. */
  lemma {:induction false} QuoteTextsShorter(lines: seq<string>)
    requires forall i :: 0 <= i < |lines| ==> QuoteText(lines[i]).Some?
    ensures lines != [] ==> Weight(QuoteTexts(lines)) < Weight(lines)
  {
    if |lines| > 1 {
      QuoteTextsShorter(lines[1..]);
      assert QuoteTexts(lines)[1..] == QuoteTexts(lines[1..]);
    }
  }

  // ----- the blocks of a message -----

  /** How many lines the first block takes: its run, and the fences of a code block. */
  function Taken(lines: seq<string>): (k: nat)
    requires lines != []
    ensures 1 <= k <= |lines|
  {
    var line := lines[0];
    if IsFence(line) then
      var k := RunLength(lines[1..], UntilFence);
      if k + 2 <= |lines| then k + 2 else |lines|
    else if IsBlank(line) || IsRule(line) || HeadingText(line).Some? then 1
    else if QuoteText(line).Some? then RunLength(lines, Quotes)
    else if OrderedText(line).Some? then RunLength(lines, Items(true))
    else if BulletText(line).Some? then RunLength(lines, Items(false))
    else RunLength(lines, Plain)
  }

  /** The block the first lines make; nothing for a blank line. */
  function FirstBlock(lines: seq<string>): (b: Option<BlockNode>)
    requires lines != []
    decreases Weight(lines), 0
  {
    var line := lines[0];
    var k := Taken(lines);
    if IsFence(line) then Some(CodeBlock(JoinLines(lines[1..1 + RunLength(lines[1..], UntilFence)])))
    else if IsBlank(line) then None
    else if IsRule(line) then Some(Line)
    else if HeadingText(line).Some? then Some(Heading(Hashes(line), Inline(HeadingText(line).value)))
    else if QuoteText(line).Some? then
      QuoteTextsShorter(lines[..k]);
      JoinHead(lines, k);
      Some(Quote(Blocks(JoinLines(QuoteTexts(lines[..k])))))
    else if OrderedText(line).Some? then Some(List(true, ItemTrees(lines[..k], true)))
    else if BulletText(line).Some? then Some(List(false, ItemTrees(lines[..k], false)))
    else Some(Paragraph(Inline(JoinLines(lines[..k]))))
  }

  function BlocksOf(lines: seq<string>): seq<BlockNode>
    decreases Weight(lines), 1, |lines|
  {
    if lines == [] then []
    else
      JoinTail(lines, Taken(lines));
      var rest := BlocksOf(lines[Taken(lines)..]);
      if FirstBlock(lines).Some? then [FirstBlock(lines).value] + rest else rest
  }

  function Blocks(source: string): seq<BlockNode>
    decreases |source|, 2
  {
    LinesOfWeight(source);
    BlocksOf(LinesOf(source))
  }

  // ----- the parser -----

  lemma RunStep(lines: seq<string>, i: nat, j: nat, run: Run)
    requires i <= j <= |lines| && j <= i + RunLength(lines[i..], run)
    ensures j < |lines| ==> (Continues(lines[j], run) <==> j < i + RunLength(lines[i..], run))
  {
    if j < |lines| {
      assert lines[i..][j - i] == lines[j];
    }
  }

  /** The lines of a run, gathered one by one. */
  method ReadRun(lines: seq<string>, i: nat, run: Run) returns (body: seq<string>, j: nat)
    requires i <= |lines|
    ensures j == i + RunLength(lines[i..], run) <= |lines| && body == lines[i..j]
  {
    hide Continues, RunLength;
    body, j := [], i;
    RunStep(lines, i, j, run);
    while j < |lines| && Continues(lines[j], run)
      invariant i <= j <= i + RunLength(lines[i..], run) <= |lines|
      invariant j < |lines| ==> (Continues(lines[j], run) <==> j < i + RunLength(lines[i..], run))
      invariant body == lines[i..j]
    {
      body := body + [lines[j]];
      j := j + 1;
      RunStep(lines, i, j, run);
    }
  }

  lemma QuoteTextsSnoc(lines: seq<string>, i: nat, j: nat)
    requires i <= j < |lines| && forall k :: i <= k <= j ==> QuoteText(lines[k]).Some?
    ensures QuoteTexts(lines[i..j + 1]) == QuoteTexts(lines[i..j]) + [QuoteText(lines[j]).value]
  {
    hide QuoteText;
  }

  lemma ItemTreesSnoc(lines: seq<string>, ordered: bool, i: nat, j: nat)
    requires i <= j < |lines| && forall k :: i <= k <= j ==> ItemText(lines[k], ordered).Some?
    ensures ItemTrees(lines[i..j + 1], ordered) == ItemTrees(lines[i..j], ordered) + [Inline(ItemText(lines[j], ordered).value)]
  {
    hide ItemText, Inline;
  }

  lemma ItemTreesNone(ordered: bool)
    ensures ItemTrees([], ordered) == []
  {}

  method ReadQuoted(lines: seq<string>, i: nat) returns (quoted: seq<string>, j: nat)
    requires i <= |lines|
    ensures j == i + RunLength(lines[i..], Quotes) <= |lines|
    ensures forall k :: i <= k < j ==> QuoteText(lines[k]).Some?
    ensures quoted == QuoteTexts(lines[i..j])
  {
    hide RunLength, QuoteText, QuoteTexts;
    assert QuoteTexts(lines[i..i]) == [];
    quoted, j := [], i;
    RunStep(lines, i, j, Quotes);
    while j < |lines| && QuoteText(lines[j]).Some?
      invariant i <= j <= i + RunLength(lines[i..], Quotes) <= |lines|
      invariant j < |lines| ==> (Continues(lines[j], Quotes) <==> j < i + RunLength(lines[i..], Quotes))
      invariant forall k :: i <= k < j ==> QuoteText(lines[k]).Some?
      invariant quoted == QuoteTexts(lines[i..j])
    {
      QuoteTextsSnoc(lines, i, j);
      quoted := quoted + [QuoteText(lines[j]).value];
      j := j + 1;
      RunStep(lines, i, j, Quotes);
    }
  }

  method ReadItems(lines: seq<string>, i: nat, ordered: bool) returns (items: seq<seq<InlineNode>>, j: nat)
    requires i <= |lines|
    ensures j == i + RunLength(lines[i..], Items(ordered)) <= |lines|
    ensures forall k :: i <= k < j ==> ItemText(lines[k], ordered).Some?
    ensures items == ItemTrees(lines[i..j], ordered)
  {
    hide RunLength, ItemText, ItemTrees, Inline;
    assert |lines[i..i]| == 0;
    ItemTreesNone(ordered);
    items, j := [], i;
    RunStep(lines, i, j, Items(ordered));
    while j < |lines| && ItemText(lines[j], ordered).Some?
      invariant i <= j <= i + RunLength(lines[i..], Items(ordered)) <= |lines|
      invariant j < |lines| ==> (Continues(lines[j], Items(ordered)) <==> j < i + RunLength(lines[i..], Items(ordered)))
      invariant forall k :: i <= k < j ==> ItemText(lines[k], ordered).Some?
      invariant items == ItemTrees(lines[i..j], ordered)
    {
      var item := ParseInline(ItemText(lines[j], ordered).value);
      ItemTreesSnoc(lines, ordered, i, j);
      items := items + [item];
      j := j + 1;
      RunStep(lines, i, j, Items(ordered));
    }
  }

  lemma QuotedIsShorter(source: string, i: nat, j: nat)
    requires i < j <= |LinesOf(source)|
    requires forall k :: i <= k < j ==> QuoteText(LinesOf(source)[k]).Some?
    ensures Weight(QuoteTexts(LinesOf(source)[i..j])) < |source|
  {
    hide QuoteText, LinesOf;
    var lines := LinesOf(source);
    LinesOfWeight(source);
    QuoteTextsShorter(lines[i..j]);
    JoinTail(lines, i);
    JoinHead(lines[i..], j - i);
    assert lines[i..][..j - i] == lines[i..j];
  }

  lemma FenceTaken(lines: seq<string>)
    requires lines != [] && IsFence(lines[0])
    ensures var r := RunLength(lines[1..], UntilFence);
            && r + 1 <= |lines| && Taken(lines) == (if r + 2 <= |lines| then r + 2 else |lines|)
            && FirstBlock(lines) == Some(CodeBlock(JoinLines(lines[1..1 + r])))
  {
    hide RunLength, IsFence, JoinLines;
  }

  /** A code block, up to the fence that closes it or the end. */
  method ReadFenced(lines: seq<string>, i: nat) returns (block: Option<BlockNode>, j: nat)
    requires i < |lines| && IsFence(lines[i])
    ensures j == i + Taken(lines[i..]) && block == FirstBlock(lines[i..])
  {
    hide RunLength, IsFence, JoinLines, Taken, FirstBlock;
    FenceTaken(lines[i..]);
    var body;
    body, j := ReadRun(lines, i + 1, UntilFence);
    assert lines[i..][1..] == lines[i + 1..];
    assert lines[i..][1..1 + (j - i - 1)] == lines[i + 1..j];
    block := Some(CodeBlock(JoinLines(body)));
    j := if j + 1 <= |lines| then j + 1 else |lines|;
  }

  /** The first block of the lines from `i` on, and where the next one may begin. */
  method ParseBlock(source: string, lines: seq<string>, i: nat) returns (block: Option<BlockNode>, j: nat)
    requires lines == LinesOf(source) && i < |lines|
    ensures j == i + Taken(lines[i..]) && block == FirstBlock(lines[i..])
    decreases |source|, 0
  {
    hide RunLength, QuoteText, OrderedText, BulletText, HeadingText, IsRule, IsFence, IsBlank, EndsParagraph, LinesOf, Inline;
    hide JoinLines, Blocks, ItemTrees, QuoteTexts, Hashes;
    var line := lines[i];
    assert lines[i..][0] == line;
    if IsFence(line) {
      block, j := ReadFenced(lines, i);
    } else if IsBlank(line) {
      block, j := None, i + 1;
    } else if IsRule(line) {
      block, j := Some(Line), i + 1;
    } else if HeadingText(line).Some? {
      var children := ParseInline(HeadingText(line).value);
      block, j := Some(Heading(Hashes(line), children)), i + 1;
    } else if QuoteText(line).Some? {
      var quoted;
      quoted, j := ReadQuoted(lines, i);
      assert lines[i..][..j - i] == lines[i..j];
      assert i < j by { assert Taken(lines[i..]) >= 1; }
      QuotedIsShorter(source, i, j);
      var inner := ParseBlocks(JoinLines(quoted));
      block := Some(Quote(inner));
    } else if OrderedText(line).Some? {
      var items;
      items, j := ReadItems(lines, i, true);
      assert lines[i..][..j - i] == lines[i..j];
      block := Some(List(true, items));
    } else if BulletText(line).Some? {
      var items;
      items, j := ReadItems(lines, i, false);
      assert lines[i..][..j - i] == lines[i..j];
      block := Some(List(false, items));
    } else {
      var body;
      body, j := ReadRun(lines, i, Plain);
      assert lines[i..][..j - i] == lines[i..j];
      var children := ParseInline(JoinLines(body));
      block := Some(Paragraph(children));
    }
  }

  /** The parser. It ends on every message, each quotation being shorter than what it
      was quoted in. */
  method ParseBlocks(source: string) returns (blocks: seq<BlockNode>)
    ensures blocks == Blocks(source)
    decreases |source|, 1
  {
    hide FirstBlock, Taken, LinesOf;
    var lines := LinesOf(source);
    blocks := [];
    var i := 0;
    assert lines[0..] == lines;
    while i < |lines|
      invariant i <= |lines|
      invariant blocks + BlocksOf(lines[i..]) == BlocksOf(lines)
    {
      var block, j := ParseBlock(source, lines, i);
      assert lines[i..][Taken(lines[i..])..] == lines[j..];
      if block.Some? {
        blocks := blocks + [block.value];
      }
      i := j;
    }
  }

  // ----- every line has its place -----

  /** The lines each block is made of, from line `at` on: where it begins and where it ends. */
  function Spans(lines: seq<string>, at: nat): (spans: seq<(nat, nat)>)
    requires at <= |lines|
    decreases |lines| - at
  {
    if at == |lines| then []
    else
      var next := at + Taken(lines[at..]);
      (if FirstBlock(lines[at..]).Some? then [(at, next)] else []) + Spans(lines, next)
  }

  predicate InOrder(spans: seq<(nat, nat)>, at: nat, end: nat) {
    && (forall k :: 0 <= k < |spans| ==> at <= spans[k].0 < spans[k].1 <= end)
    && (forall k, l :: 0 <= k < l < |spans| ==> spans[k].1 <= spans[l].0)
  }

  predicate Within(spans: seq<(nat, nat)>, i: nat) { exists k :: 0 <= k < |spans| && spans[k].0 <= i < spans[k].1 }

  lemma {:induction false} SpansInOrder(lines: seq<string>, at: nat)
    requires at <= |lines|
    ensures InOrder(Spans(lines, at), at, |lines|)
    ensures |Spans(lines, at)| == |BlocksOf(lines[at..])|
    decreases |lines| - at
  {
    hide FirstBlock, Taken;
    if at < |lines| {
      var here := lines[at..];
      var next := at + Taken(here);
      assert here[Taken(here)..] == lines[next..];
      SpansInOrder(lines, next);
    }
  }

  lemma {:induction false} SpansStandAlone(lines: seq<string>, at: nat, k: nat)
    requires at <= |lines| && k < |Spans(lines, at)|
    ensures |Spans(lines, at)| == |BlocksOf(lines[at..])|
    ensures Spans(lines, at)[k].0 <= Spans(lines, at)[k].1 <= |lines|
    ensures BlocksOf(lines[Spans(lines, at)[k].0..Spans(lines, at)[k].1]) == [BlocksOf(lines[at..])[k]]
    decreases |lines| - at
  {
    hide FirstBlock, Taken;
    SpansInOrder(lines, at);
    var here := lines[at..];
    var next := at + Taken(here);
    assert here[Taken(here)..] == lines[next..];
    assert lines[at..next] == here[..Taken(here)];
    BlockStandsAlone(here);
    if FirstBlock(here).Some? {
      if k > 0 {
        SpansStandAlone(lines, next, k - 1);
      }
    } else {
      SpansStandAlone(lines, next, k);
    }
  }

  lemma {:induction false} SpansCover(lines: seq<string>, at: nat, i: nat)
    requires at <= i < |lines| && !IsBlank(lines[i])
    ensures Within(Spans(lines, at), i)
    decreases |lines| - at
  {
    hide FirstBlock, Taken, IsBlank;
    var here := lines[at..];
    var next := at + Taken(here);
    var spans, rest := Spans(lines, at), Spans(lines, next);
    if FirstBlock(here).None? {
      BlankLine(here);
      assert here[0] == lines[at];
      SpansCover(lines, next, i);
      assert spans == rest;
    } else if i < next {
      assert spans[0].0 <= i < spans[0].1;
    } else {
      SpansCover(lines, next, i);
      var k :| 0 <= k < |rest| && rest[k].0 <= i < rest[k].1;
      assert spans[k + 1] == rest[k];
    }
  }

  /** The blocks follow the lines: block k is what the lines of span k make by themselves,
      the spans are in order and do not meet, and only blank lines are in none of them. */
  lemma SpansPartitionLines(source: string)
    ensures var lines := LinesOf(source); var spans := Spans(lines, 0);
            && |spans| == |Blocks(source)| && InOrder(spans, 0, |lines|)
            && (forall k :: 0 <= k < |spans| ==> BlocksOf(lines[spans[k].0..spans[k].1]) == [Blocks(source)[k]])
            && (forall i :: 0 <= i < |lines| && !IsBlank(lines[i]) ==> Within(spans, i))
  {
    hide LinesOf, IsBlank, Within, BlocksOf, Spans;
    var lines := LinesOf(source); var spans := Spans(lines, 0);
    assert lines[0..] == lines;
    SpansInOrder(lines, 0);
    forall k | 0 <= k < |spans| ensures BlocksOf(lines[spans[k].0..spans[k].1]) == [Blocks(source)[k]] {
      SpansStandAlone(lines, 0, k);
    }
    forall i | 0 <= i < |lines| && !IsBlank(lines[i]) ensures Within(spans, i) {
      SpansCover(lines, 0, i);
    }
  }

  lemma BlankLine(lines: seq<string>)
    requires lines != [] && FirstBlock(lines).None?
    ensures Taken(lines) == 1 && IsBlank(lines[0])
  {}

  lemma {:induction false} RunAlone(lines: seq<string>, run: Run, k: nat)
    requires RunLength(lines, run) <= k <= |lines|
    ensures RunLength(lines[..k], run) == RunLength(lines, run)
  {
    hide Continues;
    if lines != [] && Continues(lines[0], run) {
      RunAlone(lines[1..], run, k - 1);
      assert lines[..k][1..] == lines[1..][..k - 1];
    }
  }

  lemma FenceStandsAlone(lines: seq<string>)
    requires lines != [] && IsFence(lines[0])
    ensures var own := lines[..Taken(lines)]; Taken(own) == |own| && FirstBlock(own) == FirstBlock(lines)
  {
    hide RunLength, IsFence, JoinLines, Taken, FirstBlock;
    FenceTaken(lines);
    var k, r := Taken(lines), RunLength(lines[1..], UntilFence);
    var own := lines[..k];
    RunAlone(lines[1..], UntilFence, k - 1);
    PrefixSlices(lines, k, r);
    FenceTaken(own);
  }

  lemma PrefixSlices(lines: seq<string>, k: nat, r: nat)
    requires 1 <= k <= |lines| && 1 + r <= k
    ensures lines[..k][0] == lines[0] && lines[..k][1..] == lines[1..][..k - 1]
    ensures lines[..k][1..1 + r] == lines[1..1 + r]
  {}

  /** A block that is no code depends on no line after its own. */
  lemma PrefixHasBlock(lines: seq<string>, k: nat)
    requires lines != [] && !IsFence(lines[0]) && Taken(lines) <= k <= |lines|
    ensures Taken(lines[..k]) == Taken(lines) && FirstBlock(lines[..k]) == FirstBlock(lines)
  {
    hide RunLength, QuoteText, OrderedText, BulletText, HeadingText, IsRule, IsFence, IsBlank, EndsParagraph, Inline, Blocks;
    hide JoinLines, ItemTrees, QuoteTexts, Hashes;
    var own, line := lines[..k], lines[0];
    assert own[0] == line && own[..Taken(lines)] == lines[..Taken(lines)];
    if IsBlank(line) || IsRule(line) || HeadingText(line).Some? {
    } else if QuoteText(line).Some? {
      RunAlone(lines, Quotes, k);
    } else if OrderedText(line).Some? {
      RunAlone(lines, Items(true), k);
    } else if BulletText(line).Some? {
      RunAlone(lines, Items(false), k);
    } else {
      RunAlone(lines, Plain, k);
    }
  }

  /** The lines a block takes make that block by themselves. */
  lemma BlockStandsAlone(lines: seq<string>)
    requires lines != []
    ensures var own := lines[..Taken(lines)];
            Taken(own) == |own| && FirstBlock(own) == FirstBlock(lines)
            && (FirstBlock(lines).Some? ==> BlocksOf(own) == [FirstBlock(lines).value])
  {
    hide FirstBlock, IsFence, BlocksOf;
    if IsFence(lines[0]) {
      FenceStandsAlone(lines);
    } else {
      PrefixHasBlock(lines, Taken(lines));
    }
    OneBlock(lines[..Taken(lines)]);
  }

  lemma OneBlock(lines: seq<string>)
    requires lines != [] && Taken(lines) == |lines|
    ensures BlocksOf(lines) == if FirstBlock(lines).Some? then [FirstBlock(lines).value] else []
  {
    hide FirstBlock, Taken;
    assert lines[Taken(lines)..] == [];
    assert BlocksOf([]) == [];
  }

  // ----- no text is lost -----

  predicate AllSpaces(s: string) { forall i :: 0 <= i < |s| ==> IsSpace(s[i]) }

  /** What is left of a text once the space before it is gone. */
  predicate Trimmed(text: string) { text == "" || !IsSpace(text[0]) }

  lemma {:induction false} SpaceBefore(s: string) returns (space: string)
    ensures s == space + TrimStart(s) && AllSpaces(space) && Trimmed(TrimStart(s))
    ensures s != "" && IsSpace(s[0]) ==> space != ""
  {
    space := "";
    if s != "" && IsSpace(s[0]) {
      var rest := SpaceBefore(s[1..]);
      space := [s[0]] + rest;
      assert s == [s[0]] + s[1..];
    }
  }

  /** What marks an item: a number with a point or a bracket, or a bullet. */
  predicate IsMark(mark: string, ordered: bool) {
    if ordered then
      |mark| >= 2 && (forall i :: 0 <= i < |mark| - 1 ==> IsDigit(mark[i])) && mark[|mark| - 1] in ".)"
    else
      |mark| == 1 && mark[0] in "-*+"
  }

  /** A line in its parts: space, the mark, at least one more space, and the text. */
  predicate ItemParts(line: string, ordered: bool, indent: string, mark: string, space: string, text: string) {
    && line == indent + mark + space + text
    && AllSpaces(indent) && IsMark(mark, ordered) && AllSpaces(space) && space != "" && Trimmed(text)
  }

  ghost predicate ItemLine(line: string, ordered: bool, text: string) {
    exists indent, mark, space :: ItemParts(line, ordered, indent, mark, space, text)
  }

  lemma ItemTextParts(line: string, ordered: bool)
    requires ItemText(line, ordered).Some?
    ensures ItemLine(line, ordered, ItemText(line, ordered).value)
  {
    var indent := SpaceBefore(line);
    var t := TrimStart(line);
    var k := if ordered then Digits(t) + 1 else 1;
    var mark, rest := t[..k], t[k..];
    assert IsMark(mark, ordered);
    var space := SpaceBefore(rest);
    hide TrimStart, IsMark;
    var text := TrimStart(rest);
    assert t == mark + rest;
    Regrouped(indent, mark, space + text);
    Regrouped(indent + mark, space, text);
    assert ItemParts(line, ordered, indent, mark, space, text);
  }

  /** A quoted line: its mark, at most one space, the text. */
  predicate QuoteLine(line: string, text: string) {
    || (line == ">" + text && Trimmed(text))
    || (line != "" && |line| == |text| + 2 && line[0] == '>' && IsSpace(line[1]) && line[2..] == text)
  }

  lemma {:induction false} HashesAtFront(s: string)
    ensures forall i :: 0 <= i < Hashes(s) ==> s[i] == '#'
  {
    if s != "" && s[0] == '#' {
      HashesAtFront(s[1..]);
    }
  }

  /** The lines from 1 on are between the fences up to line `n`, which closes them, unless
      nothing does. */
  predicate Fences(lines: seq<string>, n: nat, k: nat) {
    && 1 <= n <= k <= n + 1 && k <= |lines|
    && (forall i :: 1 <= i < n ==> !IsFence(lines[i]))
    && (n < k ==> IsFence(lines[n])) && (n == k ==> k == |lines|)
  }

  /** What the texts of a block are, written back from its trees; a quotation is the message
      its texts make, read on its own. */
  ghost predicate KeepsText(lines: seq<string>, b: BlockNode, k: nat)
    requires 1 <= k <= |lines|
  {
    match b
    case Paragraph(children) => WriteAll(children) == JoinLines(lines[..k])
    case Heading(level, children) =>
      && k == 1 && 1 <= level <= 6 && level < |lines[0]| && IsSpace(lines[0][level])
      && (forall i :: 0 <= i < level ==> lines[0][i] == '#')
      && WriteAll(children) == TrimStart(lines[0][level..])
    case List(ordered, items) => |items| == k && forall i :: 0 <= i < k ==> ItemLine(lines[i], ordered, WriteAll(items[i]))
    case Quote(blocks) =>
      exists texts: seq<string> :: |texts| == k && blocks == Blocks(JoinLines(texts))
        && forall i :: 0 <= i < k ==> QuoteLine(lines[i], texts[i])
    case CodeBlock(value) => IsFence(lines[0]) && exists n: nat :: Fences(lines, n, k) && value == JoinLines(lines[1..n])
    case Line => k == 1 && IsRule(lines[0])
  }

  lemma ListKeepsText(lines: seq<string>, ordered: bool)
    requires forall i :: 0 <= i < |lines| ==> ItemText(lines[i], ordered).Some?
    ensures forall i :: 0 <= i < |lines| ==> ItemLine(lines[i], ordered, WriteAll(ItemTrees(lines, ordered)[i]))
  {
    hide ItemText, ItemLine, Inline, WriteAll;
    forall i | 0 <= i < |lines| ensures ItemLine(lines[i], ordered, WriteAll(ItemTrees(lines, ordered)[i])) {
      ItemTextParts(lines[i], ordered);
      InlineIsLossless(ItemText(lines[i], ordered).value);
    }
  }

  lemma CodeKeepsText(lines: seq<string>)
    requires lines != [] && IsFence(lines[0])
    ensures FirstBlock(lines).Some? && KeepsText(lines, FirstBlock(lines).value, Taken(lines))
  {
    hide RunLength, IsFence;
    var n := 1 + RunLength(lines[1..], UntilFence);
    assert FirstBlock(lines).value == CodeBlock(JoinLines(lines[1..n]));
    forall i | 1 <= i < n ensures !IsFence(lines[i]) {
      assert Continues(lines[1..][i - 1], UntilFence);
    }
    assert n < |lines| ==> lines[1..][n - 1] == lines[n];
    assert Fences(lines, n, Taken(lines));
  }

  lemma QuotationKeepsText(lines: seq<string>)
    requires lines != [] && FirstBlock(lines).Some? && FirstBlock(lines).value.Quote?
    ensures KeepsText(lines, FirstBlock(lines).value, Taken(lines))
  {
    hide RunLength, QuoteText, OrderedText, BulletText, HeadingText, IsRule, IsFence, IsBlank, EndsParagraph;
    hide Blocks, BlocksOf, JoinLines, QuoteLine, QuoteTexts;
    var own := lines[..Taken(lines)];
    QuoteKeepsText(own);
    assert FirstBlock(lines).value == Quote(Blocks(JoinLines(QuoteTexts(own))));
    assert forall i :: 0 <= i < |own| ==> own[i] == lines[i];
  }

  /** Which text a block holds: a paragraph its lines, a heading and an item the rest of
      their line, a code block the very lines between its fences, a quotation the message
      made by what follows its marks. That message is decoded once more, so what it shows
      need not be what its texts are; see `MessageQuotations`. */
  lemma BlockKeepsText(lines: seq<string>)
    requires lines != [] && FirstBlock(lines).Some?
    ensures KeepsText(lines, FirstBlock(lines).value, Taken(lines))
  {
    hide RunLength, QuoteText, OrderedText, BulletText, HeadingText, IsRule, IsFence, IsBlank, EndsParagraph, Inline, WriteAll, ItemLine;
    var own := lines[..Taken(lines)];
    match FirstBlock(lines).value
    case Paragraph(_) => InlineIsLossless(JoinLines(own));
    case Heading(_, _) => HeadingKeepsText(lines[0]);
    case List(ordered, _) => ListKeepsText(own, ordered);
    case Quote(_) => QuotationKeepsText(lines);
    case CodeBlock(_) => CodeKeepsText(lines);
    case Line =>
  }

  lemma HeadingKeepsText(line: string)
    requires HeadingText(line).Some?
    ensures 1 <= Hashes(line) <= 6 && Hashes(line) < |line| && IsSpace(line[Hashes(line)])
    ensures forall i :: 0 <= i < Hashes(line) ==> line[i] == '#'
    ensures WriteAll(Inline(HeadingText(line).value)) == TrimStart(line[Hashes(line)..])
  {
    hide Inline, WriteAll;
    HashesAtFront(line);
    InlineIsLossless(HeadingText(line).value);
  }

  lemma QuoteKeepsText(lines: seq<string>)
    requires forall i :: 0 <= i < |lines| ==> QuoteText(lines[i]).Some?
    ensures forall i :: 0 <= i < |lines| ==> QuoteLine(lines[i], QuoteTexts(lines)[i])
  {}

  // ----- links, at any depth of any block -----

  /** Every link in the trees of a block, and of the blocks it quotes, is safe. */
  predicate WellFormedBlock(b: BlockNode)
    decreases b
  {
    match b
    case Paragraph(children) => AllWellFormed(children)
    case Heading(_, children) => AllWellFormed(children)
    case Quote(blocks) => forall i :: 0 <= i < |blocks| ==> WellFormedBlock(blocks[i])
    case List(_, items) => forall i :: 0 <= i < |items| ==> AllWellFormed(items[i])
    case CodeBlock(_) => true
    case Line => true
  }

  predicate AllBlocksWellFormed(blocks: seq<BlockNode>) { forall i :: 0 <= i < |blocks| ==> WellFormedBlock(blocks[i]) }

  lemma {:induction false} FirstBlockIsWellFormed(lines: seq<string>)
    requires lines != []
    ensures FirstBlock(lines).Some? ==> WellFormedBlock(FirstBlock(lines).value)
    decreases Weight(lines), 0
  {
    hide RunLength, QuoteText, OrderedText, BulletText, HeadingText, IsRule, IsFence, IsBlank, EndsParagraph;
    hide Inline, AllWellFormed, Blocks, JoinLines, Hashes;
    var line, k := lines[0], Taken(lines);
    if IsFence(line) || IsBlank(line) || IsRule(line) {
    } else if HeadingText(line).Some? {
      InlineIsWellFormed(HeadingText(line).value);
    } else if QuoteText(line).Some? {
      QuoteTextsShorter(lines[..k]);
      JoinHead(lines, k);
      BlocksAreWellFormed(JoinLines(QuoteTexts(lines[..k])));
    } else if OrderedText(line).Some? {
      ItemsAreWellFormed(lines[..k], true);
    } else if BulletText(line).Some? {
      ItemsAreWellFormed(lines[..k], false);
    } else {
      InlineIsWellFormed(JoinLines(lines[..k]));
    }
  }

  lemma ItemsAreWellFormed(lines: seq<string>, ordered: bool)
    requires forall i :: 0 <= i < |lines| ==> ItemText(lines[i], ordered).Some?
    ensures forall i :: 0 <= i < |lines| ==> AllWellFormed(ItemTrees(lines, ordered)[i])
    ensures |ItemTrees(lines, ordered)| == |lines|
  {
    hide ItemText, Inline, AllWellFormed;
    forall i | 0 <= i < |lines| ensures AllWellFormed(ItemTrees(lines, ordered)[i]) {
      InlineIsWellFormed(ItemText(lines[i], ordered).value);
    }
  }

  lemma {:induction false} LinesAreWellFormed(lines: seq<string>)
    ensures AllBlocksWellFormed(BlocksOf(lines))
    decreases Weight(lines), 1, |lines|
  {
    hide FirstBlock, Taken, WellFormedBlock;
    if lines != [] {
      JoinTail(lines, Taken(lines));
      FirstBlockIsWellFormed(lines);
      LinesAreWellFormed(lines[Taken(lines)..]);
    }
  }

  /** Whatever the message, every link in its blocks, at any depth of quotations and of
      inline trees, carries an accepted address. */
  lemma {:induction false} BlocksAreWellFormed(source: string)
    ensures AllBlocksWellFormed(Blocks(source))
    decreases |source|, 2
  {
    LinesOfWeight(source);
    hide LinesOf, AllBlocksWellFormed, BlocksOf;
    LinesAreWellFormed(LinesOf(source));
  }
}
