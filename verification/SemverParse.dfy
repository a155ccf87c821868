/** Which names are version tags, what is read from them, and which of them are listed. */
module SemverParse {
  import opened Wrappers
  import opened Strings
  import opened SemverTags

  /** The characters of an identifier, without the dot between two of them. */
  predicate IsIdentifier(s: string) {
    forall i :: 0 <= i < |s| ==> '0' <= s[i] <= '9' || 'A' <= s[i] <= 'Z' || 'a' <= s[i] <= 'z' || s[i] == '-'
  }

  predicate Identifiers(ids: seq<string>) { forall i :: 0 <= i < |ids| ==> IsIdentifier(ids[i]) }

  function Suffix(ids: seq<string>): string { if ids == [] then "" else "-" + Joined(ids, '.') }

  /** A name in its parts: `v` or nothing, three numbers, and identifiers after a hyphen. */
  predicate TagParts(s: string, v: string, a: string, b: string, c: string, ids: seq<string>) {
    && v in ["", "v"] && AllDigits(a) && AllDigits(b) && AllDigits(c)
    && Identifiers(ids) && ids != [""]
    && s == v + a + "." + b + "." + c + Suffix(ids)
  }

  // ----- pieces -----

  lemma {:induction false} DigitsThen(digits: string, rest: string)
    requires (forall i :: 0 <= i < |digits| ==> IsDigit(digits[i])) && (rest == "" || !IsDigit(rest[0]))
    ensures Digits(digits + rest) == |digits|
  {
    if digits == "" {
      assert digits + rest == rest;
    } else {
      DigitsThen(digits[1..], rest);
      assert (digits + rest)[1..] == digits[1..] + rest;
    }
  }

  lemma NumberReads(a: string, rest: string)
    requires AllDigits(a)
    ensures NumberBefore(a + "." + rest, '.') == Some((Number(a), rest))
  {
    hide Number;
    Regrouped(a, ".", rest);
    DigitsThen(a, "." + rest);
    var s := a + "." + rest;
    assert s[..|a|] == a && s[|a| + 1..] == rest;
  }

  lemma NumberRead(s: string)
    requires NumberBefore(s, '.').Some?
    ensures var k, (n, rest) := Digits(s), NumberBefore(s, '.').value;
            s == s[..k] + "." + rest && AllDigits(s[..k]) && n == Number(s[..k])
  {
    hide Number;
  }

  /** Characters of identifiers and dots are identifiers joined by dots. */
  lemma {:induction false} CharsOfJoined(ids: seq<string>)
    requires Identifiers(ids)
    ensures forall i :: 0 <= i < |Joined(ids, '.')| ==> IsPrereleaseChar(Joined(ids, '.')[i])
  {
    if |ids| > 1 {
      CharsOfJoined(ids[1..]);
    }
  }

  lemma {:induction false} PiecesOfChars(s: string)
    requires forall i :: 0 <= i < |s| ==> IsPrereleaseChar(s[i])
    ensures Identifiers(Split(s, '.'))
    decreases |s|
  {
    hide Split;
    var i := IndexOf(s, '.');
    if i == |s| {
      assert Split(s, '.') == [s];
    } else {
      var a, b := s[..i], s[i + 1..];
      assert s == a + ['.'] + b && '.' !in a;
      SplitPiece(a, b, '.');
      PiecesOfChars(b);
    }
  }

  lemma NothingJoined(ids: seq<string>)
    requires ids != [] && Identifiers(ids)
    ensures Joined(ids, '.') == "" <==> ids == [""]
  {
    if |ids| == 1 {
      assert ids == [ids[0]];
    }
  }

  lemma TailReads(c: string, ids: seq<string>)
    requires AllDigits(c) && Identifiers(ids) && ids != [""]
    ensures ParseTail(c + Suffix(ids)) == Some((Number(c), ids))
  {
    hide Number, Split;
    var s, joined := c + Suffix(ids), Joined(ids, '.');
    DigitsThen(c, Suffix(ids));
    assert s[..|c|] == c;
    if ids != [] {
      NothingJoined(ids);
      CharsOfJoined(ids);
      SplitOfJoined(ids, '.');
      assert s[|c|] == '-' && s[|c| + 1..] == joined;
      forall i | |c| < i < |s| ensures IsPrereleaseChar(s[i]) {
        assert s[i] == joined[i - |c| - 1];
      }
    }
  }

  lemma TailRead(s: string)
    requires ParseTail(s).Some?
    ensures var k, (n, ids) := Digits(s), ParseTail(s).value;
            && s == s[..k] + Suffix(ids) && AllDigits(s[..k]) && n == Number(s[..k]) && Identifiers(ids) && ids != [""]
  {
    hide Number, Digits, Suffix, Identifiers, IsPrereleaseChar;
    var k := Digits(s);
    if k < |s| {
      SuffixOfTail(s, k);
    } else {
      NoSuffix(s);
    }
  }

  lemma NoSuffix(s: string)
    ensures s[..|s|] == s && s == s + Suffix([]) && Identifiers([])
  {}

  lemma SuffixOfTail(s: string, k: nat)
    requires k + 1 < |s| && s[k] == '-' && forall i :: k < i < |s| ==> IsPrereleaseChar(s[i])
    ensures var ids := Split(s[k + 1..], '.'); Identifiers(ids) && ids != [""] && s == s[..k] + Suffix(ids)
  {
    hide IsPrereleaseChar, Identifiers, Suffix;
    var rest := s[k + 1..];
    forall i | 0 <= i < |rest| ensures IsPrereleaseChar(rest[i]) {
      assert rest[i] == s[k + 1 + i];
    }
    SuffixOfChars(rest);
    assert s == s[..k] + ("-" + rest);
  }

  lemma SuffixOfChars(rest: string)
    requires rest != "" && forall i :: 0 <= i < |rest| ==> IsPrereleaseChar(rest[i])
    ensures var ids := Split(rest, '.'); Identifiers(ids) && ids != [""] && Suffix(ids) == "-" + rest
  {
    hide Split;
    PiecesOfChars(rest);
    JoinedOfSplit(rest, '.');
    NothingJoined(Split(rest, '.'));
  }

  // ----- a name and its tag -----

  function AfterV(trimmed: string): string { if trimmed != "" && trimmed[0] == 'v' then trimmed[1..] else trimmed }

  /** The tag is what the parts say. */
  predicate Says(s: string, v: string, a: string, b: string, c: string, tag: Tag) {
    TagParts(s, v, a, b, c, tag.prerelease) && tag.core == (Number(a), Number(b), Number(c))
  }

  /** A name is read as a tag exactly when, without the space around it, it is written from
      three numbers and identifiers; then these are what is read. */
  lemma ParseTagIff(name: string, tag: Tag)
    ensures ParseTag(name) == Some(tag) <==> tag.name == name && exists v, a, b, c :: Says(Trim(name), v, a, b, c, tag)
  {
    hide Says, Trim, ParseTag;
    if ParseTag(name) == Some(tag) {
      PartsOfTag(name, tag);
    }
    if tag.name == name {
      forall v, a, b, c | Says(Trim(name), v, a, b, c, tag) ensures ParseTag(name) == Some(tag) {
        TagOfParts(name, v, a, b, c, tag);
      }
    }
  }

  lemma TagOfParts(name: string, v: string, a: string, b: string, c: string, tag: Tag)
    requires tag.name == name && Says(Trim(name), v, a, b, c, tag)
    ensures ParseTag(name) == Some(tag)
  {
    hide Number, Trim, NumberBefore, ParseTail, Suffix;
    var tail := c + Suffix(tag.prerelease);
    var s := a + "." + (b + "." + tail);
    NumberReads(a, b + "." + tail);
    NumberReads(b, tail);
    TailReads(c, tag.prerelease);
    PartsRegrouped(v, a, b, c, Suffix(tag.prerelease));
    assert Trim(name) == v + s;
    AfterVIs(v, s);
  }

  lemma AfterVIs(v: string, s: string)
    requires v in ["", "v"] && s != "" && s[0] != 'v'
    ensures AfterV(v + s) == s
  {
    if v == "" {
      assert v + s == s;
    }
  }

  lemma PartsRegrouped(v: string, a: string, b: string, c: string, d: string)
    ensures v + a + "." + b + "." + c + d == v + (a + "." + (b + "." + (c + d)))
  {
    assert v + a + "." + b + "." + c + d == v + (a + "." + b + "." + c + d);
    assert a + "." + b + "." + c + d == a + "." + (b + "." + (c + d));
  }

  lemma PartsOfTag(name: string, tag: Tag)
    requires ParseTag(name) == Some(tag)
    ensures tag.name == name && exists v, a, b, c :: Says(Trim(name), v, a, b, c, tag)
  {
    hide Number, Trim, NumberBefore, ParseTail, Suffix, Digits;
    var trimmed := Trim(name);
    var s := AfterV(trimmed);
    var v := if trimmed != "" && trimmed[0] == 'v' then "v" else "";
    assert trimmed == v + s;
    NumberRead(s);
    var s2 := NumberBefore(s, '.').value.1;
    NumberRead(s2);
    var s3 := NumberBefore(s2, '.').value.1;
    TailRead(s3);
    var a, b, c := s[..Digits(s)], s2[..Digits(s2)], s3[..Digits(s3)];
    PartsRegrouped(v, a, b, c, Suffix(tag.prerelease));
    assert Says(trimmed, v, a, b, c, tag);
  }

  // ----- numbers as text -----

  function Decimal(n: nat): (s: string)
    ensures AllDigits(s)
  {
    var last := ['0' + (n % 10) as char];
    if n < 10 then last else Decimal(n / 10) + last
  }

  lemma {:induction false} NumberOfDecimal(n: nat)
    ensures Number(Decimal(n)) == n
  {
    var last := '0' + (n % 10) as char;
    if n < 10 {
      assert Decimal(n) == [last] && Number("") == 0;
      assert Decimal(n)[..0] == "";
    } else {
      NumberOfDecimal(n / 10);
      assert Decimal(n)[..|Decimal(n)| - 1] == Decimal(n / 10);
    }
  }

  /** A name written from three numbers and a list of identifiers is read as exactly these. */
  lemma WrittenTagIsRead(v: string, a: nat, b: nat, c: nat, ids: seq<string>)
    requires v in ["", "v"] && Identifiers(ids) && ids != [""]
    ensures var name := v + Decimal(a) + "." + Decimal(b) + "." + Decimal(c) + Suffix(ids);
            ParseTag(name) == Some(Tag(name, (a, b, c), ids))
  {
    var name := v + Decimal(a) + "." + Decimal(b) + "." + Decimal(c) + Suffix(ids);
    NumberOfDecimal(a);
    NumberOfDecimal(b);
    NumberOfDecimal(c);
    NoSpaceInTag(v, Decimal(a), Decimal(b), Decimal(c), ids);
    hide Number, Decimal, Suffix, Trim, ParseTag;
    TagOfParts(name, v, Decimal(a), Decimal(b), Decimal(c), Tag(name, (a, b, c), ids));
  }

  lemma NoSpaceInTag(v: string, a: string, b: string, c: string, ids: seq<string>)
    requires v in ["", "v"] && AllDigits(a) && AllDigits(b) && AllDigits(c) && Identifiers(ids)
    ensures var name := v + a + "." + b + "." + c + Suffix(ids); Trim(name) == name
  {
    NoSpaceInSuffix(ids);
    hide Suffix, Trim;
    NoSpaceConcat(v, a);
    NoSpaceConcat(v + a, ".");
    NoSpaceConcat(v + a + ".", b);
    NoSpaceConcat(v + a + "." + b, ".");
    NoSpaceConcat(v + a + "." + b + ".", c);
    NoSpaceConcat(v + a + "." + b + "." + c, Suffix(ids));
    TrimClean(v + a + "." + b + "." + c + Suffix(ids));
  }

  predicate NoSpaces(s: string) { forall i :: 0 <= i < |s| ==> !IsSpace(s[i]) }

  lemma NoSpaceConcat(a: string, b: string)
    requires NoSpaces(a) && NoSpaces(b)
    ensures NoSpaces(a + b)
  {
    hide IsSpace;
  }

  lemma NoSpaceInSuffix(ids: seq<string>)
    requires Identifiers(ids)
    ensures NoSpaces(Suffix(ids))
  {
    CharsOfJoined(ids);
  }

  // ----- the names listed for a major -----

  predicate NamesMajor(name: string, major: nat) { ParseTag(name).Some? && ParseTag(name).value.core.0 == major }

  /** Tags that were read from their names. */
  predicate Parsed(tags: seq<Tag>) { forall i :: 0 <= i < |tags| ==> ParseTag(tags[i].name) == Some(tags[i]) }

  function OneTag(name: string, major: nat): seq<Tag> {
    if NamesMajor(name, major) then [ParseTag(name).value] else []
  }

  lemma WantedStep(names: seq<string>, name: string, major: nat)
    ensures OfMajor(ParseAll(names + [name]), major) == OfMajor(ParseAll(names), major) + OneTag(name, major)
  {
    hide ParseTag;
    assert (names + [name])[..|names|] == names;
    var all := ParseAll(names);
    if ParseTag(name).Some? {
      assert (all + [ParseTag(name).value])[..|all|] == all;
    } else {
      assert all + [] == all;
    }
  }

  lemma OneTagCounts(name: string, major: nat, t: Tag)
    ensures Parsed(OneTag(name, major))
    ensures multiset(OneTag(name, major))[t] == if name == t.name && ParseTag(t.name) == Some(t) && t.core.0 == major then 1 else 0
  {
    NameOfTag(name);
    hide ParseTag;
  }

  lemma {:induction false} WantedTags(names: seq<string>, major: nat, t: Tag)
    ensures Parsed(OfMajor(ParseAll(names), major))
    ensures var n := multiset(OfMajor(ParseAll(names), major))[t];
            n == if ParseTag(t.name) == Some(t) && t.core.0 == major then multiset(names)[t.name] else 0
  {
    hide ParseTag, OneTag, OfMajor, ParseAll;
    if names != [] {
      var init, last := names[..|names| - 1], names[|names| - 1];
      WantedTags(init, major, t);
      assert names == init + [last];
      WantedStep(init, last, major);
      OneTagCounts(last, major, t);
    } else {
      NothingWanted(major);
    }
  }

  lemma NothingWanted(major: nat)
    ensures OfMajor(ParseAll([]), major) == []
  {}

  lemma NameOfTag(name: string)
    ensures ParseTag(name).Some? ==> ParseTag(name).value.name == name
  {
    hide Trim, Number;
  }

  lemma {:induction false} CountNames(tags: seq<Tag>, name: string)
    requires Parsed(tags)
    ensures multiset(NamesOf(tags))[name] == if ParseTag(name).Some? then multiset(tags)[ParseTag(name).value] else 0
  {
    hide ParseTag;
    if tags != [] {
      var init, last := tags[..|tags| - 1], tags[|tags| - 1];
      CountNames(init, name);
      NameOfTag(name);
      assert tags == init + [last];
      assert NamesOf(tags) == NamesOf(init) + [last.name];
    }
  }

  lemma ParsedAgain(a: seq<Tag>, b: seq<Tag>)
    requires Parsed(a) && multiset(a) == multiset(b)
    ensures Parsed(b)
  {
    hide ParseTag;
    forall i | 0 <= i < |b| ensures ParseTag(b[i].name) == Some(b[i]) {
      assert b[i] in multiset(b);
      assert b[i] in a;
    }
  }

  /** The list of a major holds the names that parse to it, each as often as it was given,
      and no others; none of them is older than one that follows it. */
  lemma ListedNames(names: seq<string>, major: nat, name: string)
    ensures multiset(TagsOfMajor(names, major))[name] == if NamesMajor(name, major) then multiset(names)[name] else 0
    ensures var listed := TagsOfMajor(names, major);
            forall i, j :: 0 <= i < j < |listed| ==>
              && ParseTag(listed[i]).Some? && ParseTag(listed[j]).Some?
              && CompareTags(ParseTag(listed[i]).value, ParseTag(listed[j]).value) >= 0
  {
    hide ParseTag, CompareTags, Sort, OfMajor;
    var wanted := OfMajor(ParseAll(names), major);
    forall t: Tag ensures Parsed(wanted) && multiset(wanted)[t]
                        == if ParseTag(t.name) == Some(t) && t.core.0 == major then multiset(names)[t.name] else 0 {
      WantedTags(names, major, t);
    }
    SortDescends(wanted);
    ParsedAgain(wanted, Sort(wanted));
    CountNames(Sort(wanted), name);
    NameOfTag(name);
  }
}
