/** How much text each line of a message gives, and that decoding a line never gives more. */
module MessageInk {
  import opened Wrappers
  import opened Strings
  import opened MessageInline
  import opened MessageBlocks
  import opened MessageEntities

  // ----- what the lines of a kind look like -----

  lemma {:induction false} TrimStartOf(space: string, s: string)
    requires AllSpaces(space)
    ensures TrimStart(space + s) == TrimStart(s)
  {
    if space == "" {
      assert space + s == s;
    } else {
      TrimStartOf(space[1..], s);
      assert (space + s)[1..] == space[1..] + s;
    }
  }

  lemma TrimStartStays(s: string)
    requires Trimmed(s)
    ensures TrimStart(s) == s
  {}

  lemma {:induction false} TrimEndParts(s: string) returns (space: string)
    ensures s == TrimEnd(s) + space && AllSpaces(space)
  {
    space := "";
    if s != "" && IsSpace(s[|s| - 1]) {
      var before := TrimEndParts(s[..|s| - 1]);
      space := before + [s[|s| - 1]];
      assert s == s[..|s| - 1] + [s[|s| - 1]];
    }
  }

  lemma {:induction false} TrimEndKeepsHead(s: string)
    requires s != "" && !IsSpace(s[0])
    ensures TrimEnd(s) != "" && TrimEnd(s)[0] == s[0]
    ensures |TrimEnd(s)| > 1 ==> |s| > 1 && TrimEnd(s)[1] == s[1]
  {
    if IsSpace(s[|s| - 1]) {
      TrimEndKeepsHead(s[..|s| - 1]);
    }
  }

  /** A blank line and a rule hold nothing that could be decoded. */
  lemma NothingToDecode(line: string)
    requires IsBlank(line) || IsRule(line)
    ensures '&' !in line && DecodeEntities(line) == line
  {
    hide DecodeEntities;
    var before := SpaceBefore(line);
    var after := TrimEndParts(TrimStart(line));
    assert line == before + (Trim(line) + after);
    assert forall i :: 0 <= i < |Trim(line)| ==> Trim(line)[i] != '&';
    DecodePlainOnly(line);
  }

  /** A line that opens or closes a code block is nothing else. */
  lemma FenceIsNothingElse(line: string)
    requires IsFence(line)
    ensures QuoteText(line).None? && BulletText(line).None? && OrderedText(line).None? && EndsParagraph(line)
  {}

  lemma FenceStays(line: string)
    requires IsFence(line)
    ensures IsFence(DecodeEntities(line))
  {
    hide DecodeEntities, TrimStart;
    var space := SpaceBefore(line);
    var rest := TrimStart(line)[3..];
    assert TrimStart(line) == "```" + rest;
    Regrouped(space, "```", rest);
    assert '&' !in space + "```";
    DecodePlain(space + "```", rest);
    Regrouped(space, "```", DecodeEntities(rest));
    TrimStartOf(space, "```" + DecodeEntities(rest));
    TrimStartStays("```" + DecodeEntities(rest));
  }

  lemma ItemAtMark(line: string, ordered: bool, mark: string, rest: string)
    requires TrimStart(line) == mark + rest && IsMark(mark, ordered)
    requires rest != "" && IsSpace(rest[0]) && AllDots(TrimStart(rest))
    ensures ItemText(line, ordered) == Some(TrimStart(rest))
  {
    hide TrimStart;
    var t, k := mark + rest, |mark|;
    assert t[k..] == rest;
    if ordered {
      DigitsOf(mark[..k - 1], [mark[k - 1]] + rest);
      assert t == mark[..k - 1] + ([mark[k - 1]] + rest);
    }
  }

  /** An item line of any text that begins anywhere after the space. */
  lemma ItemOfParts(ordered: bool, indent: string, mark: string, space: string, text: string)
    requires AllSpaces(indent) && IsMark(mark, ordered) && AllSpaces(space) && space != "" && AllDots(text)
    ensures ItemText(indent + mark + space + text, ordered) == Some(TrimStart(text))
  {
    var rest := space + text;
    TrimStartOf(space, text);
    DotsAfterTrim(text);
    assert rest[0] == space[0];
    MarkIsTrimmed(mark, rest, ordered);
    TrimStartOf(indent, mark + rest);
    hide ItemText, IsMark, TrimStart, AllDots;
    Regrouped(indent, mark, space);
    Regrouped(indent, mark + space, text);
    Regrouped(mark, space, text);
    ItemAtMark(indent + mark + space + text, ordered, mark, rest);
  }

  lemma MarkIsTrimmed(mark: string, rest: string, ordered: bool)
    requires IsMark(mark, ordered)
    ensures TrimStart(mark + rest) == mark + rest
  {
    assert (mark + rest)[0] == mark[0];
  }

  lemma {:induction false} DigitsOf(digits: string, rest: string)
    requires (forall i :: 0 <= i < |digits| ==> IsDigit(digits[i])) && rest != "" && !IsDigit(rest[0])
    ensures Digits(digits + rest) == |digits|
  {
    if digits == "" {
      assert digits + rest == rest;
    } else {
      DigitsOf(digits[1..], rest);
      assert (digits + rest)[1..] == digits[1..] + rest;
    }
  }

  lemma DotsAfterTrim(text: string)
    requires AllDots(text)
    ensures AllDots(TrimStart(text))
  {
    var space := SpaceBefore(text);
    forall i | 0 <= i < |TrimStart(text)| ensures IsDot(TrimStart(text)[i]) {
      assert TrimStart(text)[i] == text[|space| + i];
    }
  }

  lemma {:induction false} HashesOf(hashes: string, rest: string)
    requires (forall i :: 0 <= i < |hashes| ==> hashes[i] == '#') && rest != "" && rest[0] != '#'
    ensures Hashes(hashes + rest) == |hashes|
  {
    if hashes == "" {
      assert hashes + rest == rest;
    } else {
      HashesOf(hashes[1..], rest);
      assert (hashes + rest)[1..] == hashes[1..] + rest;
    }
  }

  lemma HeadingOfParts(hashes: string, space: string, text: string)
    requires 1 <= |hashes| <= 6 && (forall i :: 0 <= i < |hashes| ==> hashes[i] == '#')
    requires AllSpaces(space) && space != "" && AllDots(text)
    ensures HeadingText(hashes + (space + text)) == Some(TrimStart(text))
  {
    var rest := space + text;
    assert rest[0] == space[0] && IsSpace(space[0]);
    HashesOf(hashes, rest);
    TrimStartOf(space, text);
    DotsAfterTrim(text);
    hide TrimStart, Hashes;
    assert (hashes + rest)[|hashes|..] == rest;
  }

  // ----- how much text a line gives -----

  /** The characters of a line that end up as text, outside of quotations and code. */
  function LineInk(line: string): nat {
    if IsBlank(line) || IsRule(line) then 0
    else if HeadingText(line).Some? then |HeadingText(line).value|
    else if OrderedText(line).Some? then |OrderedText(line).value|
    else if BulletText(line).Some? then |BulletText(line).value|
    else |line|
  }

  lemma InkAtMost(line: string)
    ensures LineInk(line) <= |line|
  {
    hide IsBlank, IsRule;
  }

  lemma ItemTextIsTrimmed(line: string, ordered: bool)
    requires ItemText(line, ordered).Some?
    ensures var t := TrimStart(line);
            |t| >= 2 && !IsSpace(t[0]) && t[0] !in "`#>" && t[0] !in "_" && (t[0] in "-*+" ==> IsSpace(t[1]))
    ensures ItemText(line, !ordered).None?
  {
    var space := SpaceBefore(line);
    hide TrimStart;
  }

  lemma ItemIsNoRule(line: string, ordered: bool)
    requires ItemText(line, ordered).Some?
    ensures !IsBlank(line) && !IsRule(line)
  {
    ItemTextIsTrimmed(line, ordered);
    hide TrimStart, TrimEnd, ItemText, IsSpace;
    TrimEndKeepsHead(TrimStart(line));
  }

  lemma ItemIsNothingElse(line: string, ordered: bool)
    requires ItemText(line, ordered).Some?
    ensures !IsBlank(line) && !IsRule(line) && HeadingText(line).None? && QuoteText(line).None? && !IsFence(line)
    ensures ItemText(line, !ordered).None?
  {
    ItemIsNoRule(line, ordered);
    ItemTextIsTrimmed(line, ordered);
    var space := SpaceBefore(line);
    hide TrimStart, ItemText, IsBlank, IsRule;
    assert space == "" ==> line == TrimStart(line);
    assert space != "" ==> line[0] == space[0];
  }

  lemma ItemInk(line: string, ordered: bool)
    requires ItemText(line, ordered).Some?
    ensures LineInk(line) == |ItemText(line, ordered).value|
  {
    ItemIsNothingElse(line, ordered);
    hide IsBlank, IsRule, HeadingText;
  }

  lemma HeadingInkAtMost(line: string)
    requires HeadingText(line).Some?
    ensures LineInk(line) <= |HeadingText(line).value|
  {
    hide IsBlank, IsRule, HeadingText;
  }

  /** Decoding never gives a line more text, and less when it changes the line. */
  lemma DecodedInk(line: string)
    requires AllDots(line) && !IsFence(line) && QuoteText(line).None?
    ensures LineInk(DecodeEntities(line)) <= LineInk(line)
    ensures DecodeEntities(line) != line ==> LineInk(DecodeEntities(line)) < LineInk(line)
  {
    hide DecodeEntities, IsBlank, IsRule, HeadingText, OrderedText, BulletText;
    if IsBlank(line) || IsRule(line) {
      NothingToDecode(line);
    } else if HeadingText(line).Some? {
      DecodedHeading(line);
    } else if OrderedText(line).Some? {
      DecodedItem(line, true);
    } else if BulletText(line).Some? {
      DecodedItem(line, false);
    } else {
      InkAtMost(DecodeEntities(line));
      DecodeShortens(line);
    }
  }

  lemma DecodedItem(line: string, ordered: bool)
    requires AllDots(line) && ItemText(line, ordered).Some?
    ensures LineInk(DecodeEntities(line)) <= LineInk(line)
    ensures DecodeEntities(line) != line ==> LineInk(DecodeEntities(line)) < LineInk(line)
  {
    ItemTextParts(line, ordered);
    var text := ItemText(line, ordered).value;
    var indent, mark, space :| ItemParts(line, ordered, indent, mark, space, text);
    ItemInk(line, ordered);
    hide DecodeEntities, ItemText, TrimStart, LineInk, AllDots;
    var before := indent + mark + space;
    MarksArePlain(indent, mark, space, ordered);
    DecodePlain(before, text);
    DotsAtEnd(before, text);
    DecodeDots(text);
    DecodeShortens(text);
    ItemOfParts(ordered, indent, mark, space, DecodeEntities(text));
    ItemInk(before + DecodeEntities(text), ordered);
    TrimStartShortens(DecodeEntities(text));
  }

  lemma DotsAtEnd(before: string, text: string)
    requires AllDots(before + text)
    ensures AllDots(text)
  {
    forall i | 0 <= i < |text| ensures IsDot(text[i]) { assert (before + text)[|before| + i] == text[i]; }
  }

  lemma TrimStartShortens(s: string)
    ensures |TrimStart(s)| <= |s|
  {}

  lemma MarksArePlain(indent: string, mark: string, space: string, ordered: bool)
    requires AllSpaces(indent) && IsMark(mark, ordered) && AllSpaces(space)
    ensures '&' !in indent + mark + space
  {
    assert forall i :: 0 <= i < |mark| ==> mark[i] != '&';
  }

  lemma HeadingParts(line: string) returns (hashes: string, space: string)
    requires HeadingText(line).Some?
    ensures line == hashes + space + HeadingText(line).value
    ensures 1 <= |hashes| <= 6 && forall i :: 0 <= i < |hashes| ==> hashes[i] == '#'
    ensures AllSpaces(space) && space != ""
  {
    var k := Hashes(line);
    HashesAtFront(line);
    hashes := line[..k];
    space := SpaceBefore(line[k..]);
    hide TrimStart, Hashes;
    assert line == hashes + line[k..];
    Regrouped(hashes, space, TrimStart(line[k..]));
  }

  lemma DecodedHeading(line: string)
    requires AllDots(line) && HeadingText(line).Some? && !IsBlank(line) && !IsRule(line)
    ensures LineInk(DecodeEntities(line)) <= LineInk(line)
    ensures DecodeEntities(line) != line ==> LineInk(DecodeEntities(line)) < LineInk(line)
  {
    var hashes, space := HeadingParts(line);
    var text := HeadingText(line).value;
    assert LineInk(line) == |text|;
    hide DecodeEntities, HeadingText, TrimStart, LineInk, IsBlank, IsRule, AllDots;
    var before := hashes + space;
    assert '&' !in before;
    DecodePlain(before, text);
    DotsAtEnd(before, text);
    DecodeDots(text);
    DecodeShortens(text);
    Regrouped(hashes, space, DecodeEntities(text));
    HeadingOfParts(hashes, space, DecodeEntities(text));
    HeadingInkAtMost(before + DecodeEntities(text));
    TrimStartShortens(DecodeEntities(text));
  }
}
