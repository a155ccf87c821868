/** The order of version tags, and the lists made with it. */
module SemverTags {
  import opened Wrappers
  import opened Strings

  datatype Tag = Tag(name: string, core: (nat, nat, nat), prerelease: seq<string>)

  // ----- reading a tag -----

  predicate AllDigits(s: string) { s != "" && forall i :: 0 <= i < |s| ==> IsDigit(s[i]) }

  function Number(s: string): nat
    requires forall i :: 0 <= i < |s| ==> IsDigit(s[i])
  {
    if s == "" then 0
    else
      var last := s[|s| - 1];
      assert IsDigit(last);
      10 * Number(s[..|s| - 1]) + DigitValue(last)
  }

  function DigitValue(c: char): nat
    requires IsDigit(c)
  {
    c as int - '0' as int
  }

  predicate IsPrereleaseChar(c: char) {
    IsDigit(c) || 'A' <= c <= 'Z' || 'a' <= c <= 'z' || c == '.' || c == '-'
  }

  /** Digits, then the separator. */
  function NumberBefore(s: string, separator: char): Option<(nat, string)> {
    var k := Digits(s);
    if k >= 1 && k < |s| && s[k] == separator then Some((Number(s[..k]), s[k + 1..])) else None
  }

  function ParseTail(s: string): Option<(nat, seq<string>)> {
    var k := Digits(s);
    if k == 0 then None
    else if k == |s| then Some((Number(s[..k]), []))
    else if s[k] == '-' && k + 1 < |s| && forall i :: k < i < |s| ==> IsPrereleaseChar(s[i]) then
      Some((Number(s[..k]), Split(s[k + 1..], '.')))
    else None
  }

  function ParseTag(name: string): Option<Tag> {
    var trimmed := Trim(name);
    var s := if trimmed != "" && trimmed[0] == 'v' then trimmed[1..] else trimmed;
    match NumberBefore(s, '.')
    case None => None
    case Some((major, s2)) =>
      match NumberBefore(s2, '.')
      case None => None
      case Some((minor, s3)) =>
        match ParseTail(s3)
        case None => None
        case Some((patch, prerelease)) => Some(Tag(name, (major, minor, patch), prerelease))
  }

  // ----- comparing -----

  function CompareStrings(a: string, b: string): int {
    if a == b then 0 else if Before(a, b) then -1 else 1
  }

  /** `a < b` on strings. */
  predicate Before(a: string, b: string) {
    b != "" && (a == "" || a[0] < b[0] || (a[0] == b[0] && Before(a[1..], b[1..])))
  }

  function CompareIdentifiers(a: string, b: string): int {
    if AllDigits(a) && AllDigits(b) then Number(a) - Number(b)
    else if AllDigits(a) then -1
    else if AllDigits(b) then 1
    else CompareStrings(a, b)
  }

  function ComparePrereleases(a: seq<string>, b: seq<string>): int {
    if a == [] || b == [] then |a| - |b|
    else
      var diff := CompareIdentifiers(a[0], b[0]);
      if diff != 0 then diff else ComparePrereleases(a[1..], b[1..])
  }

  /** Positive when `a` is the newer version. */
  function CompareTags(a: Tag, b: Tag): int {
    if a.core.0 != b.core.0 then a.core.0 - b.core.0
    else if a.core.1 != b.core.1 then a.core.1 - b.core.1
    else if a.core.2 != b.core.2 then a.core.2 - b.core.2
    else if a.prerelease == [] || b.prerelease == [] then |b.prerelease| - |a.prerelease|
    else ComparePrereleases(a.prerelease, b.prerelease)
  }

  // ----- precedence, section 11 of Semantic Versioning 2.0.0 -----

  /** Numeric identifiers by number, below all others, which go in ASCII order. */
  predicate IdentifierBelow(a: string, b: string) {
    if AllDigits(a) then AllDigits(b) ==> Number(a) < Number(b)
    else !AllDigits(b) && Before(a, b)
  }

  predicate SameIdentifier(a: string, b: string) {
    if AllDigits(a) && AllDigits(b) then Number(a) == Number(b) else a == b
  }

  /** The identifiers are the same up to place `i`, which decides. */
  predicate BelowAt(a: seq<string>, b: seq<string>, i: int) {
    && 0 <= i <= |a| && i < |b|
    && (forall k :: 0 <= k < i ==> SameIdentifier(a[k], b[k]))
    && (i < |a| ==> IdentifierBelow(a[i], b[i]))
  }

  /** The first identifier that differs decides; when none does, the longer list is higher. */
  predicate PrereleaseBelow(a: seq<string>, b: seq<string>) {
    exists i :: 0 <= i <= |a| && BelowAt(a, b, i)
  }

  predicate CoreBelow(a: (nat, nat, nat), b: (nat, nat, nat)) {
    a.0 < b.0 || (a.0 == b.0 && (a.1 < b.1 || (a.1 == b.1 && a.2 < b.2)))
  }

  /** A prerelease is lower than the version it prepares. */
  predicate Precedes(a: Tag, b: Tag) {
    || CoreBelow(a.core, b.core)
    || (a.core == b.core && if a.prerelease == [] then false
                            else b.prerelease == [] || PrereleaseBelow(a.prerelease, b.prerelease))
  }

  lemma {:induction false} BeforeIsIrreflexive(a: string)
    ensures !Before(a, a)
  {
    if a != "" {
      BeforeIsIrreflexive(a[1..]);
    }
  }

  lemma {:induction false} BeforeIsOrder(a: string, b: string)
    ensures a == b || Before(a, b) || Before(b, a)
    ensures !(Before(a, b) && Before(b, a)) && !Before(a, a)
    decreases |a| + |b|
  {
    BeforeIsIrreflexive(a);
    if a != "" && b != "" && a[0] == b[0] {
      BeforeIsOrder(a[1..], b[1..]);
      assert a == [a[0]] + a[1..] && b == [b[0]] + b[1..];
    }
  }

  lemma {:induction false} BeforeIsTransitive(a: string, b: string, c: string)
    requires Before(a, b) && Before(b, c)
    ensures Before(a, c)
  {
    if a != "" && a[0] == b[0] == c[0] {
      BeforeIsTransitive(a[1..], b[1..], c[1..]);
    }
  }

  lemma CompareIdentifiersMeans(a: string, b: string)
    ensures CompareIdentifiers(a, b) < 0 <==> IdentifierBelow(a, b)
    ensures CompareIdentifiers(a, b) > 0 <==> IdentifierBelow(b, a)
    ensures CompareIdentifiers(a, b) == 0 <==> SameIdentifier(a, b)
  {
    BeforeIsOrder(a, b);
  }

  lemma IdentifierBelowTransitive(a: string, b: string, c: string)
    ensures IdentifierBelow(a, b) && IdentifierBelow(b, c) ==> IdentifierBelow(a, c)
    ensures SameIdentifier(a, b) && IdentifierBelow(b, c) ==> IdentifierBelow(a, c)
    ensures IdentifierBelow(a, b) && SameIdentifier(b, c) ==> IdentifierBelow(a, c)
    ensures SameIdentifier(a, b) && SameIdentifier(b, c) ==> SameIdentifier(a, c)
  {
    if Before(a, b) && Before(b, c) {
      BeforeIsTransitive(a, b, c);
    }
  }

  lemma {:induction false} ComparePrereleasesMeans(a: seq<string>, b: seq<string>)
    ensures ComparePrereleases(a, b) < 0 <==> PrereleaseBelow(a, b)
    ensures ComparePrereleases(a, b) > 0 <==> PrereleaseBelow(b, a)
  {
    hide CompareIdentifiers, IdentifierBelow, SameIdentifier;
    if a == [] || b == [] {
      assert b != [] ==> BelowAt([], b, 0);
      assert a != [] ==> BelowAt([], a, 0);
    } else {
      CompareIdentifiersMeans(a[0], b[0]);
      CompareIdentifiersMeans(b[0], a[0]);
      ComparePrereleasesMeans(a[1..], b[1..]);
      PrereleaseBelowStep(a, b);
      PrereleaseBelowStep(b, a);
    }
  }

  lemma PrereleaseBelowStep(a: seq<string>, b: seq<string>)
    requires a != [] && b != []
    ensures PrereleaseBelow(a, b)
       <==> IdentifierBelow(a[0], b[0]) || (SameIdentifier(a[0], b[0]) && PrereleaseBelow(a[1..], b[1..]))
  {
    hide IdentifierBelow, SameIdentifier;
    if IdentifierBelow(a[0], b[0]) {
      assert BelowAt(a, b, 0);
    }
    if SameIdentifier(a[0], b[0]) && PrereleaseBelow(a[1..], b[1..]) {
      var i :| 0 <= i <= |a| - 1 && BelowAt(a[1..], b[1..], i);
      forall k | 0 <= k < i + 1 ensures SameIdentifier(a[k], b[k]) {
        if k > 0 {
          assert SameIdentifier(a[1..][k - 1], b[1..][k - 1]);
        }
      }
      assert BelowAt(a, b, i + 1);
    }
    if PrereleaseBelow(a, b) {
      var i :| 0 <= i <= |a| && BelowAt(a, b, i);
      if i > 0 {
        assert BelowAt(a[1..], b[1..], i - 1);
      }
    }
  }

  /** The comparison agrees with the precedence of the standard. */
  lemma CompareTagsIsPrecedence(a: Tag, b: Tag)
    ensures CompareTags(a, b) < 0 <==> Precedes(a, b)
    ensures CompareTags(a, b) > 0 <==> Precedes(b, a)
  {
    hide ComparePrereleases, PrereleaseBelow;
    ComparePrereleasesMeans(a.prerelease, b.prerelease);
  }

  // ----- a total preorder -----

  lemma {:induction false} ComparePrereleasesOrder(a: seq<string>, b: seq<string>, c: seq<string>)
    ensures ComparePrereleases(a, b) <= 0 && ComparePrereleases(b, c) <= 0 ==> ComparePrereleases(a, c) <= 0
    ensures ComparePrereleases(a, b) < 0 && ComparePrereleases(b, c) <= 0 ==> ComparePrereleases(a, c) < 0
    ensures ComparePrereleases(a, b) <= 0 && ComparePrereleases(b, c) < 0 ==> ComparePrereleases(a, c) < 0
  {
    hide CompareIdentifiers, IdentifierBelow, SameIdentifier;
    if a != [] && b != [] && c != [] {
      CompareIdentifiersMeans(a[0], b[0]);
      CompareIdentifiersMeans(b[0], c[0]);
      CompareIdentifiersMeans(a[0], c[0]);
      IdentifierBelowTransitive(a[0], b[0], c[0]);
      ComparePrereleasesOrder(a[1..], b[1..], c[1..]);
    }
  }

  /** Any two tags compare, one way or the other, and the comparison is transitive. */
  lemma CompareTagsIsTotalPreorder(a: Tag, b: Tag, c: Tag)
    ensures CompareTags(a, a) == 0
    ensures CompareTags(a, b) > 0 <==> CompareTags(b, a) < 0
    ensures CompareTags(a, b) <= 0 && CompareTags(b, c) <= 0 ==> CompareTags(a, c) <= 0
    ensures CompareTags(a, b) == 0 && CompareTags(b, c) == 0 ==> CompareTags(a, c) == 0
  {
    CompareTagsIsPrecedence(a, b);
    CompareTagsIsPrecedence(b, a);
    CompareTagsIsPrecedence(a, a);
    hide ComparePrereleases, PrereleaseBelow;
    ComparePrereleasesOrder(a.prerelease, b.prerelease, c.prerelease);
    ComparePrereleasesOrder(c.prerelease, b.prerelease, a.prerelease);
    ComparePrereleasesMeans(a.prerelease, b.prerelease);
    ComparePrereleasesMeans(b.prerelease, a.prerelease);
    ComparePrereleasesMeans(b.prerelease, c.prerelease);
    ComparePrereleasesMeans(c.prerelease, b.prerelease);
    ComparePrereleasesMeans(a.prerelease, c.prerelease);
    ComparePrereleasesMeans(c.prerelease, a.prerelease);
    ComparePrereleasesMeans(a.prerelease, a.prerelease);
  }

  // ----- lists of tags -----

  function ParseAll(names: seq<string>): seq<Tag> {
    if names == [] then []
    else ParseAll(names[..|names| - 1]) + match ParseTag(names[|names| - 1]) case Some(tag) => [tag] case None => []
  }

  /** Newest first. */
  predicate Descending(tags: seq<Tag>) {
    forall i, j :: 0 <= i < j < |tags| ==> CompareTags(tags[i], tags[j]) >= 0
  }

  predicate Level(t: Tag, u: Tag) { CompareTags(t, u) == 0 }

  /** The tags that compare equal to `t`, in order. */
  function LevelOf(tags: seq<Tag>, t: Tag): seq<Tag> {
    if tags == [] then [] else LevelOf(tags[..|tags| - 1], t) + if Level(t, tags[|tags| - 1]) then [tags[|tags| - 1]] else []
  }

  /** What a stable sort gives: the same tags in descending order, those that compare
      equal in the order they came. */
  ghost predicate StablySorted(before: seq<Tag>, after: seq<Tag>) {
    && multiset(after) == multiset(before)
    && Descending(after)
    && forall t :: LevelOf(after, t) == LevelOf(before, t)
  }

  function Insert(sorted: seq<Tag>, t: Tag): (r: seq<Tag>)
    ensures multiset(r) == multiset(sorted) + multiset{t}
  {
    if sorted == [] then [t]
    else
      var init, last := sorted[..|sorted| - 1], sorted[|sorted| - 1];
      assert sorted == init + [last];
      if CompareTags(last, t) >= 0 then sorted + [t] else Insert(init, t) + [last]
  }

  function Sort(tags: seq<Tag>): (r: seq<Tag>)
    ensures multiset(r) == multiset(tags)
  {
    if tags == [] then []
    else
      var init, last := tags[..|tags| - 1], tags[|tags| - 1];
      assert tags == init + [last];
      Insert(Sort(init), last)
  }

  lemma {:induction false} InsertDescends(sorted: seq<Tag>, t: Tag)
    requires Descending(sorted)
    ensures Descending(Insert(sorted, t))
  {
    hide CompareTags;
    if sorted != [] {
      var init, last := sorted[..|sorted| - 1], sorted[|sorted| - 1];
      if CompareTags(last, t) >= 0 {
        forall i | 0 <= i < |sorted| ensures CompareTags(sorted[i], t) >= 0 {
          NewerIsTransitive(sorted[i], last, t);
        }
      } else {
        InsertDescends(init, t);
        var r := Insert(init, t);
        CompareTagsIsTotalPreorder(last, t, t);
        CompareTagsIsTotalPreorder(t, last, last);
        forall i | 0 <= i < |r| ensures CompareTags(r[i], last) >= 0 {
          assert r[i] in multiset(r);
          assert r[i] == t || r[i] in multiset(init);
          assert r[i] == t || r[i] in init;
        }
      }
    }
  }

  lemma NewerIsTransitive(a: Tag, b: Tag, c: Tag)
    requires (a == b || CompareTags(a, b) >= 0) && CompareTags(b, c) >= 0
    ensures CompareTags(a, c) >= 0
  {
    hide CompareTags;
    CompareTagsIsTotalPreorder(c, b, a);
    CompareTagsIsTotalPreorder(a, b, c);
    CompareTagsIsTotalPreorder(b, c, c);
    CompareTagsIsTotalPreorder(a, c, c);
    CompareTagsIsTotalPreorder(c, a, a);
    CompareTagsIsTotalPreorder(b, a, a);
    CompareTagsIsTotalPreorder(c, b, b);
  }

  lemma LevelOfSnoc(tags: seq<Tag>, u: Tag, t: Tag)
    ensures LevelOf(tags + [u], t) == LevelOf(tags, t) + if Level(t, u) then [u] else []
  {
    hide Level;
    assert (tags + [u])[..|tags|] == tags;
  }

  lemma LevelIsOneClass(t: Tag, u: Tag, v: Tag)
    ensures Level(t, u) && Level(t, v) ==> CompareTags(u, v) == 0
  {
    hide CompareTags;
    CompareTagsIsTotalPreorder(t, u, u);
    CompareTagsIsTotalPreorder(u, t, v);
    CompareTagsIsTotalPreorder(u, t, t);
  }

  lemma {:induction false} InsertIsStable(sorted: seq<Tag>, u: Tag, t: Tag)
    ensures LevelOf(Insert(sorted, u), t) == LevelOf(sorted + [u], t)
  {
    hide CompareTags, Level, LevelOf;
    LevelOfSnoc(sorted, u, t);
    if sorted == [] {
      assert [] + [u] == [u];
    } else {
      var init, last := sorted[..|sorted| - 1], sorted[|sorted| - 1];
      if CompareTags(last, u) < 0 {
        InsertIsStable(init, u, t);
        LevelOfSnoc(init, u, t);
        LevelOfSnoc(Insert(init, u), last, t);
        LevelOfSnoc(init, last, t);
        assert sorted == init + [last];
        LevelIsOneClass(t, last, u);
      }
    }
  }

  lemma {:induction false} SortDescends(tags: seq<Tag>)
    ensures Descending(Sort(tags))
  {
    hide CompareTags;
    if tags != [] {
      SortDescends(tags[..|tags| - 1]);
      InsertDescends(Sort(tags[..|tags| - 1]), tags[|tags| - 1]);
    }
  }

  lemma {:induction false} SortIsStable(tags: seq<Tag>, t: Tag)
    ensures LevelOf(Sort(tags), t) == LevelOf(tags, t)
  {
    hide CompareTags, Level, Insert;
    if tags != [] {
      var init, last := tags[..|tags| - 1], tags[|tags| - 1];
      SortIsStable(init, t);
      InsertIsStable(Sort(init), last, t);
      LevelOfSnoc(Sort(init), last, t);
      LevelOfSnoc(init, last, t);
      assert tags == init + [last];
    }
  }

  lemma SortIsStablySorted(tags: seq<Tag>)
    ensures StablySorted(tags, Sort(tags))
  {
    hide CompareTags, Level, LevelOf;
    SortDescends(tags);
    forall t ensures LevelOf(Sort(tags), t) == LevelOf(tags, t) {
      SortIsStable(tags, t);
    }
  }

  // ----- there is only one stable sort -----

  lemma {:induction false} LevelOfCons(u: Tag, tags: seq<Tag>, t: Tag)
    ensures LevelOf([u] + tags, t) == (if Level(t, u) then [u] else []) + LevelOf(tags, t)
  {
    hide Level;
    if tags == [] {
      LevelOfSnoc([], u, t);
      assert [u] + tags == [] + [u];
    } else {
      var init, last := tags[..|tags| - 1], tags[|tags| - 1];
      LevelOfCons(u, init, t);
      LevelOfSnoc([u] + init, last, t);
      assert [u] + tags == ([u] + init) + [last];
    }
  }

  /** Stably sorted lists of the same tags are the same list. */
  lemma {:induction false} StableSortIsUnique(a: seq<Tag>, b: seq<Tag>)
    requires Descending(a) && Descending(b) && multiset(a) == multiset(b)
    requires forall t :: LevelOf(a, t) == LevelOf(b, t)
    ensures a == b
  {
    hide CompareTags, LevelOf;
    assert |a| == |multiset(a)| == |multiset(b)| == |b|;
    if a != [] {
      SameHead(a, b);
      assert a == [a[0]] + a[1..] && b == [a[0]] + b[1..];
      TailsAgree(a[0], a[1..], b[1..]);
      StableSortIsUnique(a[1..], b[1..]);
    }
  }

  lemma TailsAgree(x: Tag, a: seq<Tag>, b: seq<Tag>)
    requires multiset([x] + a) == multiset([x] + b)
    requires forall t :: LevelOf([x] + a, t) == LevelOf([x] + b, t)
    ensures multiset(a) == multiset(b)
    ensures forall t :: LevelOf(a, t) == LevelOf(b, t)
  {
    hide CompareTags, Level, LevelOf;
    assert multiset(a) == multiset([x] + a) - multiset{x};
    assert multiset(b) == multiset([x] + b) - multiset{x};
    forall t ensures LevelOf(a, t) == LevelOf(b, t) {
      LevelOfCons(x, a, t);
      LevelOfCons(x, b, t);
      assert LevelOf([x] + a, t) == LevelOf([x] + b, t);
      SameAfterHead(if Level(t, x) then [x] else [], LevelOf(a, t), LevelOf(b, t));
    }
  }

  lemma SameAfterHead(h: seq<Tag>, a: seq<Tag>, b: seq<Tag>)
    requires h + a == h + b
    ensures a == b
  {
    assert a == (h + a)[|h|..] && b == (h + b)[|h|..];
  }

  lemma SameHead(a: seq<Tag>, b: seq<Tag>)
    requires a != [] && b != [] && Descending(a) && Descending(b) && multiset(a) == multiset(b)
    requires LevelOf(a, a[0]) == LevelOf(b, a[0])
    ensures a[0] == b[0]
  {
    hide CompareTags, LevelOf;
    var x, y := a[0], b[0];
    assert x in multiset(b) && y in multiset(a);
    assert x in b && y in a;
    CompareTagsIsTotalPreorder(x, x, x);
    CompareTagsIsTotalPreorder(y, y, y);
    CompareTagsIsTotalPreorder(x, y, y);
    CompareTagsIsTotalPreorder(y, x, x);
    assert CompareTags(x, y) >= 0 && CompareTags(y, x) >= 0;
    LevelOfCons(x, a[1..], x);
    LevelOfCons(y, b[1..], x);
    assert a == [x] + a[1..] && b == [y] + b[1..];
    assert LevelOf(a, x)[0] == x && LevelOf(b, x)[0] == y;
  }

  /** The tags of one major. */
  function OfMajor(tags: seq<Tag>, major: nat): seq<Tag> {
    if tags == [] then []
    else OfMajor(tags[..|tags| - 1], major) + if tags[|tags| - 1].core.0 == major then [tags[|tags| - 1]] else []
  }

  function NamesOf(tags: seq<Tag>): seq<string> { seq(|tags|, i requires 0 <= i < |tags| => tags[i].name) }

  function TagsOfMajor(names: seq<string>, major: nat): seq<string> {
    NamesOf(Sort(OfMajor(ParseAll(names), major)))
  }

  function NewestMajor(names: seq<string>): Option<nat> {
    var sorted := Sort(ParseAll(names));
    if sorted == [] then None else Some(sorted[0].core.0)
  }

  /** Whatever stable sort is used, the list of a major names exactly the tags of that
      major that parse, newest first, those that compare equal in the order they came. */
  lemma TagsOfMajorIsTheStableSort(names: seq<string>, major: nat, sorted: seq<Tag>)
    requires StablySorted(OfMajor(ParseAll(names), major), sorted)
    ensures TagsOfMajor(names, major) == NamesOf(sorted)
  {
    hide CompareTags, Level, LevelOf, Sort;
    var all := OfMajor(ParseAll(names), major);
    SortIsStablySorted(all);
    StableSortIsUnique(Sort(all), sorted);
  }

  /** The major chosen is the one of a tag that no other tag is newer than. */
  lemma NewestMajorIsOfTheNewest(names: seq<string>)
    ensures NewestMajor(names).None? <==> ParseAll(names) == []
    ensures NewestMajor(names).Some? ==>
      exists t :: t in ParseAll(names) && t.core.0 == NewestMajor(names).value
               && forall u :: u in ParseAll(names) ==> CompareTags(t, u) >= 0
  {
    hide CompareTags, ParseTag;
    var all := ParseAll(names);
    var sorted := Sort(all);
    SortDescends(all);
    assert |multiset(sorted)| == |multiset(all)|;
    if sorted != [] {
      var t := sorted[0];
      assert t in multiset(all);
      CompareTagsIsTotalPreorder(t, t, t);
      forall u | u in all ensures CompareTags(t, u) >= 0 {
        assert u in multiset(sorted);
        var j :| 0 <= j < |sorted| && sorted[j] == u;
      }
    }
  }
}
