/** Which delimiters are recognised, and what is drawn for them: the nine patterns of inline
    markdown by the texts they match, in the order in which they are tried. */
module MessagePatterns {
  import opened Wrappers
  import opened Strings
  import opened MessageInline

  // ----- the patterns, by the texts they match -----

  /** `Between`: something between two of the fence, up to the nearest closing one. `Around`:
      something without the mark itself, nor any of `never`, between two of the mark.
      `Address`: a text in brackets, then an address in parentheses. */
  datatype Pattern =
    | Between(fence: string, kind: Kind)
    | Around(mark: char, never: string, kind: Kind)
    | Address

  /** In the order in which they are tried. */
  const PATTERNS: seq<Pattern> :=
    [Around('`', "", IsCode),
     Between("***", IsStrongEm), Between("___", IsStrongEm),
     Between("**", IsStrong), Between("__", IsStrong), Between("~~", IsStrike),
     Around('*', "\n", IsEm), Around('_', "\n", IsEm),
     Address]

  predicate Begins(s: string, prefix: string) { prefix <= s }

  /** Something between two of the fence, with no closing fence nearer. */
  predicate IsBetween(fence: string, kind: Kind, s: string, t: Token) {
    && fence != "" && t == Token(kind, fence[0], t.inner, "", |t.inner| + 2 * |fence|)
    && t.inner != "" && Begins(s, fence + t.inner + fence)
    && forall i :: |fence| < i < |fence| + |t.inner| ==> !StandsAt(s, fence, i)
  }

  /** Something without the mark, nor any of `never`, between two of the mark. */
  predicate IsAround(mark: char, never: string, kind: Kind, s: string, t: Token) {
    && t == Token(kind, mark, t.inner, "", |t.inner| + 2)
    && t.inner != "" && Begins(s, [mark] + t.inner + [mark])
    && mark !in t.inner && forall c :: c in never ==> c !in t.inner
  }

  /** A text without a closing bracket, an address without a closing parenthesis or space. */
  predicate IsAddress(s: string, t: Token) {
    && t == Token(IsLink, '[', t.inner, t.href, |t.inner| + |t.href| + 4)
    && Begins(s, "[" + t.inner + "](" + t.href + ")")
    && ']' !in t.inner && t.href != "" && ')' !in t.href && forall i :: 0 <= i < |t.href| ==> !IsSpace(t.href[i])
  }

  /** The text begins with the token, read by the pattern. */
  predicate Reads(p: Pattern, s: string, t: Token) {
    match p
    case Between(fence, kind) => IsBetween(fence, kind, s, t)
    case Around(mark, never, kind) => IsAround(mark, never, kind, s, t)
    case Address => IsAddress(s, t)
  }

  /** No pattern tried before this one reads the text. */
  ghost predicate NoneBefore(i: nat, s: string)
    requires i <= |PATTERNS|
  {
    forall j, t :: 0 <= j < i ==> !Reads(PATTERNS[j], s, t)
  }

  /** What one pattern finds is what it reads. */
  ghost predicate Finds(p: Pattern, s: string, r: Option<Token>) {
    forall t :: r == Some(t) <==> Reads(p, s, t)
  }

  // ----- accepted addresses -----

  function LowerCase(s: string): (t: string)
    ensures |t| == |s|
  {
    seq(|s|, i requires 0 <= i < |s| => if 'A' <= s[i] <= 'Z' then s[i] - 'A' + 'a' else s[i])
  }

  predicate SchemeAllowed(href: string) {
    || "http://" <= LowerCase(href) || "https://" <= LowerCase(href) || "mailto:" <= LowerCase(href) || "/" <= href
  }

  predicate CharAllowed(c: char) { !IsSpace(c) && c >= ' ' && c != '"' && c != '\'' && c != '<' && c != '>' }

  /** An address is accepted exactly when, without the space around it, it begins with one of
      four schemes, in either case, and holds no space, control character, quote or angle
      bracket; what is accepted is that. */
  lemma SafeHrefIff(raw: string, href: string)
    ensures SafeHref(raw) == Some(href) <==>
      href == Trim(raw) && SchemeAllowed(href) && forall i :: 0 <= i < |href| ==> CharAllowed(href[i])
  {
    hide IsSpace, Trim;
    var t := Trim(raw);
    BeginsIff(t, "http://");
    BeginsIff(t, "https://");
    BeginsIff(t, "mailto:");
    BeginsIff(t, "/");
    SlashIsSlash(t);
    hide LowerCase, BeginsWith;
    assert forall i :: 0 <= i < |t| ==> (Forbidden(t[i]) <==> !CharAllowed(t[i]));
  }

  lemma SlashIsSlash(s: string)
    ensures "/" <= s <==> "/" <= LowerCase(s)
  {}

  lemma BeginsIff(s: string, prefix: string)
    ensures BeginsWith(s, prefix) <==> prefix <= LowerCase(s)
  {
    if |prefix| <= |s| {
      forall i | 0 <= i < |prefix| ensures LowerCase(s)[i] == Lower(s[i]) {}
    }
  }

  // ----- each pattern -----

  /** A text that begins with `a` and has `c` at place `k`. */
  lemma BeginsWhenCut(s: string, a: string, k: nat, c: string)
    requires |a| <= k && k + |c| <= |s| && s[..|a|] == a && s[k..k + |c|] == c
    ensures Begins(s, a + s[|a|..k] + c)
  {
    assert s[..k + |c|] == s[..|a|] + s[|a|..k] + s[k..k + |c|];
  }

  lemma CutWhenBegins(s: string, a: string, b: string, c: string)
    requires Begins(s, a + b + c)
    ensures |a| + |b| + |c| <= |s| && s[..|a|] == a && s[|a|..|a| + |b|] == b && s[|a| + |b|..|a| + |b| + |c|] == c
  {
    var whole := a + b + c;
    assert whole == s[..|whole|];
    assert whole[..|a|] == a && whole[|a|..|a| + |b|] == b && whole[|a| + |b|..] == c;
  }

  lemma BetweenFinds(s: string, fence: string, kind: Kind)
    requires fence != ""
    ensures Finds(Between(fence, kind), s, Fenced(s, fence, kind, fence[0]))
  {
    hide IsBetween;
    var r := Fenced(s, fence, kind, fence[0]);
    if r.Some? {
      var k := Find(s, fence, |fence| + 1);
      BeginsMeans(s, fence);
      FoundIsRead(s, fence, kind, k, s[|fence|..k]);
    }
    forall t | Reads(Between(fence, kind), s, t) ensures r == Some(t) {
      ReadIsFound(s, fence, kind, t);
    }
  }

  lemma FoundIsRead(s: string, fence: string, kind: Kind, k: int, inner: string)
    requires fence != "" && Begins(s, fence) && k == Find(s, fence, |fence| + 1) && k != -1
    requires k <= |s| && inner == s[|fence|..k]
    ensures IsBetween(fence, kind, s, Token(kind, fence[0], inner, "", k + |fence|))
  {
    hide Find, Begins, StandsAt, IsBetween;
    FoundBegins(s, fence, k);
    NearestIsBetween(s, fence, kind, inner);
  }

  lemma FoundBegins(s: string, fence: string, k: int)
    requires Begins(s, fence) && |fence| < k && StandsAt(s, fence, k)
    ensures Begins(s, fence + s[|fence|..k] + fence)
  {
    StandsMeans(s, fence, k);
    hide Begins, StandsAt;
    BeginsMeans(s, fence);
    BeginsWhenCut(s, fence, k, fence);
  }

  lemma BeginsMeans(s: string, d: string)
    ensures Begins(s, d) <==> |d| <= |s| && s[..|d|] == d
  {}

  lemma NearestIsBetween(s: string, fence: string, kind: Kind, inner: string)
    requires fence != "" && inner != "" && Begins(s, fence + inner + fence)
    requires forall i :: |fence| < i < |fence| + |inner| ==> !StandsAt(s, fence, i)
    ensures IsBetween(fence, kind, s, Token(kind, fence[0], inner, "", |fence| + |inner| + |fence|))
  {
    hide Begins, StandsAt;
  }

  lemma StandsMeans(s: string, d: string, k: int)
    ensures StandsAt(s, d, k) <==> 0 <= k && k + |d| <= |s| && s[k..k + |d|] == d
  {}

  lemma ReadIsFound(s: string, fence: string, kind: Kind, t: Token)
    requires IsBetween(fence, kind, s, t)
    ensures Fenced(s, fence, kind, fence[0]) == Some(t)
  {
    CutWhenBegins(s, fence, t.inner, fence);
    StandsMeans(s, fence, |fence| + |t.inner|);
    hide Find, Begins, StandsAt;
    NearestIs(s, fence, |fence| + |t.inner|);
  }

  /** The nearest place where the fence closes is the one it is found at. */
  lemma NearestIs(s: string, fence: string, k: nat)
    requires k > |fence| && StandsAt(s, fence, k)
    requires forall i :: |fence| < i < k ==> !StandsAt(s, fence, i)
    ensures Find(s, fence, |fence| + 1) == k
  {
    hide StandsAt;
    var r := Find(s, fence, |fence| + 1);
    assert r == -1 || r <= k;
  }

  lemma AroundFinds(s: string, mark: char, never: string, kind: Kind)
    ensures Finds(Around(mark, never, kind), s, Plain(s, mark, never, kind))
  {
    hide IsAround, Plain;
    var r := Plain(s, mark, never, kind);
    if r.Some? {
      RunIsRead(s, mark, never, kind);
    }
    forall t | Reads(Around(mark, never, kind), s, t) ensures r == Some(t) {
      ReadIsRun(s, mark, never, kind, t);
    }
  }

  lemma RunIsRead(s: string, mark: char, never: string, kind: Kind)
    requires Plain(s, mark, never, kind).Some?
    ensures IsAround(mark, never, kind, s, Plain(s, mark, never, kind).value)
  {
    hide Begins, RunEnd;
    BeginsWhenCut(s, [mark], RunEnd(s, [mark] + never, 1), [mark]);
  }

  lemma ReadIsRun(s: string, mark: char, never: string, kind: Kind, t: Token)
    requires IsAround(mark, never, kind, s, t)
    ensures Plain(s, mark, never, kind) == Some(t)
  {
    CutWhenBegins(s, [mark], t.inner, [mark]);
    hide Begins, RunEnd;
    RunIs(s, [mark] + never, 1, 1 + |t.inner|);
  }

  /** The run ends where the first of the stops stands. */
  lemma {:induction false} RunIs(s: string, stops: string, k: nat, end: nat)
    requires k <= end < |s| && s[end] in stops && forall i :: k <= i < end ==> s[i] !in stops
    ensures RunEnd(s, stops, k) == end
    decreases end - k
  {
    if k < end {
      RunIs(s, stops, k + 1, end);
    }
  }

  lemma AddressFinds(s: string)
    ensures Finds(Address, s, LinkText(s))
  {
    hide IsAddress;
    if LinkText(s).Some? {
      LinkIsRead(s);
    }
    forall t | Reads(Address, s, t) ensures LinkText(s) == Some(t) {
      AddressIsFound(s, t);
    }
  }

  lemma LinkIsRead(s: string)
    requires LinkText(s).Some?
    ensures IsAddress(s, LinkText(s).value)
  {
    LinkFront(s, LinkText(s).value);
    hide Begins, RunEnd, AddressEnd;
  }

  lemma LinkFront(s: string, t: Token)
    requires LinkText(s) == Some(t) && t.kind.IsLink?
    ensures Begins(s, "[" + t.inner + "](" + t.href + ")")
  {
    LinkMatches(s);
    hide LinkText, IsSpace;
    Regrouped("[" + t.inner, "](", t.href);
    Regrouped("[" + t.inner, "](" + t.href, ")");
  }

  lemma AddressIsFound(s: string, t: Token)
    requires IsAddress(s, t)
    ensures LinkText(s) == Some(t)
  {
    var k, e := 1 + |t.inner|, 3 + |t.inner| + |t.href|;
    AddressParts(s, t.inner, t.href);
    hide Begins, IsSpace;
    RunIs(s, "]", 1, k);
    AddressIs(s, k + 2, e);
  }

  lemma AddressParts(s: string, inner: string, href: string)
    requires Begins(s, "[" + inner + "](" + href + ")")
    ensures var k, e := 1 + |inner|, 3 + |inner| + |href|;
            && e < |s| && s[0] == '[' && s[k] == ']' && s[k + 1] == '(' && s[e] == ')'
            && s[1..k] == inner && s[k + 2..e] == href
  {
    var k, e := 1 + |inner|, 3 + |inner| + |href|;
    Regrouped("[" + inner + "](", href, ")");
    CutWhenBegins(s, "[" + inner + "](", href, ")");
    assert s[..k + 2] == "[" + inner + "](";
    assert s[1..k] == s[..k + 2][1..k];
    assert s[k] == s[..k + 2][k] && s[k + 1] == s[..k + 2][k + 1];
    assert s[e] == s[e..e + 1][0];
  }

  lemma {:induction false} AddressIs(s: string, k: nat, end: nat)
    requires k <= end < |s| && s[end] == ')' && forall i :: k <= i < end ==> s[i] != ')' && !IsSpace(s[i])
    ensures AddressEnd(s, k) == end
    decreases end - k
  {
    hide IsSpace;
    if k < end {
      AddressIs(s, k + 1, end);
    }
  }

  // ----- the first pattern that reads the text wins -----

  /** What a pattern finds in the text. */
  function Found(p: Pattern, s: string): Option<Token> {
    match p
    case Between(fence, kind) => if fence == "" then None else Fenced(s, fence, kind, fence[0])
    case Around(mark, never, kind) => Plain(s, mark, never, kind)
    case Address => LinkText(s)
  }

  lemma FoundIsWhatReads(p: Pattern, s: string)
    requires p.Between? ==> p.fence != ""
    ensures Finds(p, s, Found(p, s))
  {
    match p
    case Between(fence, kind) => BetweenFinds(s, fence, kind);
    case Around(mark, never, kind) => AroundFinds(s, mark, never, kind);
    case Address => AddressFinds(s);
  }

  lemma FencesAreThere(i: nat)
    requires i < |PATTERNS|
    ensures PATTERNS[i].Between? ==> PATTERNS[i].fence != ""
  {}

  /** The rules are tried in the order of the patterns. */
  function FirstFound(s: string, i: nat): Option<Token>
    requires i <= |PATTERNS|
    decreases |PATTERNS| - i
  {
    if i == |PATTERNS| then None else Or(Found(PATTERNS[i], s), FirstFound(s, i + 1))
  }

  lemma RulesInOrder(s: string)
    ensures FirstRule(s) == FirstFound(s, 0)
  {
    hide Fenced, Plain, LinkText;
    assert FirstFound(s, 8) == Or(LinkText(s), FirstFound(s, 9)) == LinkText(s);
    assert FirstFound(s, 6) == Or(Plain(s, '*', "\n", IsEm), Or(Plain(s, '_', "\n", IsEm), FirstFound(s, 8)));
    assert FirstFound(s, 4) == Or(Fenced(s, "__", IsStrong, '_'), Or(Fenced(s, "~~", IsStrike, '~'), FirstFound(s, 6)));
    assert FirstFound(s, 2) == Or(Fenced(s, "___", IsStrongEm, '_'), Or(Fenced(s, "**", IsStrong, '*'), FirstFound(s, 4)));
  }

  /** The token of the first pattern that reads the text. */
  ghost predicate FirstReads(s: string, t: Token) {
    exists i :: 0 <= i < |PATTERNS| && Reads(PATTERNS[i], s, t) && NoneBefore(i, s)
  }

  lemma {:induction false} FirstFoundIs(s: string, i: nat)
    requires i <= |PATTERNS| && NoneBefore(i, s)
    ensures forall t :: FirstFound(s, i) == Some(t) <==> FirstReads(s, t)
    decreases |PATTERNS| - i
  {
    hide Reads, Found;
    if i < |PATTERNS| {
      FencesAreThere(i);
      FoundIsWhatReads(PATTERNS[i], s);
      var r := Found(PATTERNS[i], s);
      if r.None? {
        FirstFoundIs(s, i + 1);
      } else {
        assert Reads(PATTERNS[i], s, r.value);
        forall t | FirstReads(s, t) ensures t == r.value {
          var j :| 0 <= j < |PATTERNS| && Reads(PATTERNS[j], s, t) && NoneBefore(j, s);
        }
      }
    }
  }

  /** A rule applies exactly when it is that of the first pattern that reads the text, and
      its address, if it is a link, is accepted. */
  lemma RuleIffFirst(s: string, t: Token)
    ensures Rule(s) == Some(t) <==> FirstReads(s, t) && (t.kind.IsLink? ==> SafeHref(t.href).Some?)
  {
    hide FirstRule, FirstReads, SafeHref;
    RulesInOrder(s);
    FirstFoundIs(s, 0);
  }

  // ----- what is drawn -----

  function Front(p: Pattern): string {
    match p
    case Between(fence, _) => fence
    case Around(mark, _, _) => [mark]
    case Address => "["
  }

  lemma ReadsFront(p: Pattern, s: string, t: Token)
    requires Reads(p, s, t)
    ensures Front(p) != "" && Begins(s, Front(p))
  {
    match p
    case Between(fence, _) => CutWhenBegins(s, fence, t.inner, fence);
    case Around(mark, _, _) => CutWhenBegins(s, [mark], t.inner, [mark]);
    case Address => AddressParts(s, t.inner, t.href);
  }

  lemma NoneByFront(i: nat, s: string)
    requires i <= |PATTERNS| && forall j :: 0 <= j < i ==> !Begins(s, Front(PATTERNS[j]))
    ensures NoneBefore(i, s)
  {
    hide Reads, Begins, Front;
    forall j, t | 0 <= j < i ensures !Reads(PATTERNS[j], s, t) {
      if Reads(PATTERNS[j], s, t) {
        ReadsFront(PATTERNS[j], s, t);
      }
    }
  }

  /** A text that begins with a rule that applies is drawn as its node, then the rest. */
  lemma RuleTree(s: string, i: nat, t: Token)
    requires i < |PATTERNS| && Reads(PATTERNS[i], s, t) && (forall j :: 0 <= j < i ==> !Begins(s, Front(PATTERNS[j])))
    requires t.kind.IsLink? ==> SafeHref(t.href).Some?
    ensures t.length <= |s|
    ensures Inline(s) == [NodeOf(t, if t.kind.IsCode? then [] else Inline(t.inner))] + Inline(s[t.length..])
  {
    FrontIsNoBreak(s, i, t);
    hide Reads, Begins, Front, Rule, FirstRule, NodeOf, SafeHref;
    NoneByFront(i, s);
    assert FirstReads(s, t);
    RuleIffFirst(s, t);
    RuleIsFirst(s);
    RuleMatches(s);
  }

  lemma FrontIsNoBreak(s: string, i: nat, t: Token)
    requires i < |PATTERNS| && Reads(PATTERNS[i], s, t)
    ensures s != "" && s[0] != '\n'
  {
    ReadsFront(PATTERNS[i], s, t);
    hide Reads;
  }

  /** A mark as a fence of `n` of it. */
  function Marks(c: char, n: nat): (fence: string)
    ensures |fence| == n && forall i :: 0 <= i < n ==> fence[i] == c
  {
    seq(n, _ => c)
  }

  lemma FencedText(c: char, n: nat, kind: Kind, x: string, rest: string)
    requires n >= 1 && x != "" && c !in x
    ensures var s := Marks(c, n) + x + Marks(c, n) + rest;
            && IsBetween(Marks(c, n), kind, s, Token(kind, c, x, "", |x| + 2 * n))
            && |x| + 2 * n <= |s| && s[|x| + 2 * n..] == rest
  {
    var fence := Marks(c, n);
    var front := fence + x + fence;
    var s := front + rest;
    assert s[..|front|] == front;
    forall i | n < i < n + |x| ensures !StandsAt(s, fence, i) {
      assert s[i] == x[i - n];
      NotThere(s, fence, i);
    }
  }

  lemma NotThere(s: string, d: string, i: nat)
    requires d != "" && i < |s| && s[i] != d[0]
    ensures !StandsAt(s, d, i)
  {}

  lemma MarkedText(c: char, never: string, kind: Kind, x: string, rest: string)
    requires x != "" && c !in x && forall a :: a in never ==> a !in x
    ensures var s := [c] + x + [c] + rest;
            && IsAround(c, never, kind, s, Token(kind, c, x, "", |x| + 2))
            && |x| + 2 <= |s| && s[|x| + 2..] == rest
  {
    var front := [c] + x + [c];
    var s := front + rest;
    assert s[..|front|] == front;
  }

  /** What follows the marks does not begin with one more. */
  lemma FrontChars(c: char, n: nat, x: string, rest: string)
    requires x != "" && c !in x
    ensures var s := Marks(c, n) + x + rest;
            (forall i :: 0 <= i < n ==> s[i] == c) && |s| > n && s[n] != c
  {}

  lemma OtherMark(c: char, s: string, i: nat)
    requires i < |PATTERNS| && s != "" && s[0] == c && c !in Front(PATTERNS[i])
    ensures !Begins(s, Front(PATTERNS[i]))
  {
    FrontIsMarks(i);
    hide Front;
  }

  lemma FrontIsMarks(i: nat)
    requires i < |PATTERNS|
    ensures Front(PATTERNS[i]) == ["`", "***", "___", "**", "__", "~~", "*", "_", "["][i] != ""
  {}

  lemma TooShort(c: char, n: nat, s: string, i: nat)
    requires i < |PATTERNS| && n < |s| && s[n] != c && |Front(PATTERNS[i])| > n && Front(PATTERNS[i])[n] == c
    ensures !Begins(s, Front(PATTERNS[i]))
  {
    hide Front;
  }

  /** The patterns of a mark by the number of marks they begin with. */
  function Place(c: char, n: nat): nat
    requires c in "*_" && 1 <= n <= 3
  {
    (if n == 3 then 1 else if n == 2 then 3 else 6) + if c == '*' then 0 else 1
  }

  lemma NothingBefore(c: char, n: nat, s: string)
    requires c in "*_" && 1 <= n <= 3 && |s| > n && s[n] != c && forall i :: 0 <= i < n ==> s[i] == c
    ensures forall j :: 0 <= j < Place(c, n) ==> !Begins(s, Front(PATTERNS[j]))
  {
    forall j | 0 <= j < Place(c, n) ensures !Begins(s, Front(PATTERNS[j])) {
      FrontIsMarks(j);
      hide Front, Begins;
      if c in Front(PATTERNS[j]) {
        TooShort(c, n, s, j);
      } else {
        OtherMark(c, s, j);
      }
    }
  }

  /** Two stars, or two underscores, on either side are bold. */
  lemma StrongTree(c: char, x: string, rest: string)
    requires c in "*_" && x != "" && c !in x
    ensures Inline(Marks(c, 2) + x + Marks(c, 2) + rest) == [Strong(c, Inline(x))] + Inline(rest)
  {
    FencedTree(c, 2, IsStrong, x, rest);
  }

  /** Three are bold and italic. */
  lemma StrongEmTree(c: char, x: string, rest: string)
    requires c in "*_" && x != "" && c !in x
    ensures Inline(Marks(c, 3) + x + Marks(c, 3) + rest) == [Strong(c, [Em(c, Inline(x))])] + Inline(rest)
  {
    FencedTree(c, 3, IsStrongEm, x, rest);
  }

  lemma FencedTree(c: char, n: nat, kind: Kind, x: string, rest: string)
    requires c in "*_" && x != "" && c !in x && ((n == 2 && kind == IsStrong) || (n == 3 && kind == IsStrongEm))
    ensures Inline(Marks(c, n) + x + Marks(c, n) + rest) == [NodeOf(Token(kind, c, x, "", 0), Inline(x))] + Inline(rest)
  {
    var s := Marks(c, n) + x + Marks(c, n) + rest;
    FencedText(c, n, kind, x, rest);
    Regrouped(Marks(c, n) + x, Marks(c, n), rest);
    FrontChars(c, n, x, Marks(c, n) + rest);
    NothingBefore(c, n, s);
    PatternAtPlace(c, n);
    hide Begins, Front, IsBetween, Inline, Place;
    RuleTree(s, Place(c, n), Token(kind, c, x, "", |x| + 2 * n));
  }

  lemma PatternAtPlace(c: char, n: nat)
    requires c in "*_" && 1 <= n <= 3
    ensures Place(c, n) < |PATTERNS|
    ensures PATTERNS[Place(c, n)] == if n == 1 then Around(c, "\n", IsEm) else Between(Marks(c, n), if n == 2 then IsStrong else IsStrongEm)
  {
    assert Marks('*', 2) == "**" && Marks('_', 2) == "__" && Marks('*', 3) == "***" && Marks('_', 3) == "___";
  }

  /** One is italic, if no line ends between them. */
  lemma EmTree(c: char, x: string, rest: string)
    requires c in "*_" && x != "" && c !in x && '\n' !in x
    ensures Inline([c] + x + [c] + rest) == [Em(c, Inline(x))] + Inline(rest)
  {
    var s := [c] + x + [c] + rest;
    MarkedText(c, "\n", IsEm, x, rest);
    OneMark(c, x, [c] + rest);
    Regrouped([c] + x, [c], rest);
    PatternAtPlace(c, 1);
    EmNode(c, x);
    hide *;
    RuleTree(s, Place(c, 1), Token(IsEm, c, x, "", |x| + 2));
  }

  lemma EmNode(c: char, x: string)
    ensures NodeOf(Token(IsEm, c, x, "", |x| + 2), Inline(x)) == Em(c, Inline(x))
    ensures forall s, t :: Reads(Around(c, "\n", IsEm), s, t) <==> IsAround(c, "\n", IsEm, s, t)
  {
    hide Inline, IsAround;
  }

  lemma OneMark(c: char, x: string, rest: string)
    requires c in "*_" && x != "" && c !in x
    ensures forall j :: 0 <= j < Place(c, 1) ==> !Begins([c] + x + rest, Front(PATTERNS[j]))
  {
    var s := [c] + x + rest;
    assert s[0] == c && s[1] == x[0];
    hide Begins, Front, Place;
    NothingBefore(c, 1, s);
  }

  /** Two tildes on either side strike a text through. */
  lemma StrikeTree(x: string, rest: string)
    requires x != "" && '~' !in x
    ensures Inline("~~" + x + "~~" + rest) == [Strike(Inline(x))] + Inline(rest)
  {
    var s := "~~" + x + "~~" + rest;
    assert Marks('~', 2) == "~~";
    FencedText('~', 2, IsStrike, x, rest);
    assert s[0] == '~';
    forall j | 0 <= j < 5 ensures !Begins(s, Front(PATTERNS[j])) {
      FrontIsMarks(j);
      OtherMark('~', s, j);
    }
    hide Begins, Front, IsBetween, Inline;
    RuleTree(s, 5, Token(IsStrike, '~', x, "", |x| + 4));
  }

  /** What stands between backticks is code, and nothing in it is read further. */
  lemma CodeTree(x: string, rest: string)
    requires x != "" && '`' !in x
    ensures Inline("`" + x + "`" + rest) == [Code(x)] + Inline(rest)
  {
    var s := "`" + x + "`" + rest;
    MarkedText('`', "", IsCode, x, rest);
    hide Begins, Front, IsAround, Inline;
    RuleTree(s, 0, Token(IsCode, '`', x, "", |x| + 2));
  }

  predicate IsHref(href: string) { href != "" && ')' !in href && forall i :: 0 <= i < |href| ==> !IsSpace(href[i]) }

  lemma AddressText(x: string, href: string, rest: string)
    requires ']' !in x && IsHref(href)
    ensures var s := "[" + x + "](" + href + ")" + rest;
            && IsAddress(s, Token(IsLink, '[', x, href, |x| + |href| + 4))
            && |x| + |href| + 4 <= |s| && s[|x| + |href| + 4..] == rest && s[0] == '['
  {
    var front := "[" + x + "](" + href + ")";
    var s := front + rest;
    assert s[..|front|] == front;
  }

  lemma NoMarkBefore(s: string)
    requires s != "" && s[0] == '['
    ensures forall j :: 0 <= j < 8 ==> !Begins(s, Front(PATTERNS[j]))
  {
    forall j | 0 <= j < 8 ensures !Begins(s, Front(PATTERNS[j])) {
      FrontIsMarks(j);
      OtherMark('[', s, j);
    }
  }

  /** A link is drawn when its address is accepted, and stays text when it is not. */
  lemma LinkTree(x: string, href: string, rest: string)
    requires ']' !in x && IsHref(href)
    ensures var s := "[" + x + "](" + href + ")" + rest;
            Inline(s) == if SafeHref(href).Some? then [Link(href, Inline(x))] + Inline(rest) else AddText("[", Inline(s[1..]))
  {
    hide *;
    AddressText(x, href, rest);
    LinkOrText("[" + x + "](" + href + ")" + rest, Token(IsLink, '[', x, href, |x| + |href| + 4));
    LinkNode(x, href);
  }

  lemma LinkNode(x: string, href: string)
    ensures NodeOf(Token(IsLink, '[', x, href, |x| + |href| + 4), Inline(x)) == Link(href, Inline(x))
  {
    hide Inline;
  }

  lemma LinkOrText(s: string, t: Token)
    requires IsAddress(s, t) && s != "" && s[0] == '[' && t.kind.IsLink? && t.length <= |s|
    ensures Inline(s) == if SafeHref(t.href).Some? then [NodeOf(t, Inline(t.inner))] + Inline(s[t.length..])
                         else AddText("[", Inline(s[1..]))
  {
    hide Begins, Front, IsAddress, SafeHref, Inline, NodeOf, NoneBefore;
    NoMarkBefore(s);
    if SafeHref(t.href).Some? {
      RuleTree(s, 8, t);
    } else {
      NoneByFront(8, s);
      RefusedLink(s, t);
    }
  }

  lemma RefusedLink(s: string, t: Token)
    requires IsAddress(s, t) && NoneBefore(8, s) && SafeHref(t.href).None? && t.kind.IsLink? && s != "" && s[0] == '['
    ensures Inline(s) == AddText("[", Inline(s[1..]))
  {
    hide IsAddress, NoneBefore, FirstReads, SafeHref, FirstRule;
    assert PATTERNS[8] == Address;
    if Rule(s).Some? {
      RuleIffFirst(s, Rule(s).value);
      OnlyToken(s, t, Rule(s).value);
    }
  }

  lemma OnlyToken(s: string, t: Token, u: Token)
    requires Reads(Address, s, t) && NoneBefore(8, s) && FirstReads(s, u)
    ensures t == u
  {
    hide Reads;
    AddressFinds(s);
    var i :| 0 <= i < |PATTERNS| && Reads(PATTERNS[i], s, u) && NoneBefore(i, s);
    assert i == 8;
  }

  /** A line that ends is a break. */
  lemma BreakTree(rest: string)
    ensures Inline("\n" + rest) == [Break] + Inline(rest)
  {
    assert ("\n" + rest)[1..] == rest;
  }

  /** Characters no pattern begins with, nor a line break: nothing but text. */
  lemma {:induction false} PlainTextStays(s: string)
    requires forall i :: 0 <= i < |s| ==> s[i] !in "`*_~[\n"
    ensures Inline(s) == if s == "" then [] else [Text(s)]
  {
    if s != "" {
      PlainTextStays(s[1..]);
      NothingReads(s);
      NoRule(s);
      PlainStep(s);
      hide *;
      OneMore(s[0], s[1..]);
      assert s == [s[0]] + s[1..];
    }
  }

  lemma PlainStep(s: string)
    requires s != "" && s[0] != '\n' && Rule(s).None?
    ensures Inline(s) == AddText([s[0]], Inline(s[1..]))
  {
    hide Rule, AddText;
  }

  lemma OneMore(c: char, s: string)
    ensures AddText([c], if s == "" then [] else [Text(s)]) == [Text([c] + s)]
  {
    assert s == "" ==> [c] + s == [c];
  }

  lemma NothingReads(s: string)
    requires s != "" && s[0] !in "`*_~["
    ensures NoneBefore(|PATTERNS|, s)
  {
    forall j | 0 <= j < |PATTERNS| ensures !Begins(s, Front(PATTERNS[j])) {
      FrontIsMarks(j);
      hide Front, Begins;
      OtherMark(s[0], s, j);
    }
    NoneByFront(|PATTERNS|, s);
  }

  lemma NoRule(s: string)
    requires NoneBefore(|PATTERNS|, s)
    ensures Rule(s).None?
  {
    hide Rule, Reads;
    if Rule(s).Some? {
      RuleIffFirst(s, Rule(s).value);
    }
  }
}
