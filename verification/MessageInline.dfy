/** Inline markdown: a message is parsed into a description of what to draw, losing no
    character of it. */
module MessageInline {
  import opened Wrappers
  import opened Strings

  /** `tag` is the character the delimiters were written with; what is drawn does not
      depend on it. */
  datatype InlineNode =
    | Text(value: string)
    | Code(value: string)
    | Strong(tag: char, children: seq<InlineNode>)
    | Em(tag: char, children: seq<InlineNode>)
    | Strike(children: seq<InlineNode>)
    | Link(href: string, children: seq<InlineNode>)
    | Break

  // ----- characters -----

  predicate IsControl(c: char) { c < ' ' }

  function Lower(c: char): char { if 'A' <= c <= 'Z' then c + 32 as char else c }

  // ----- links -----

  /** Whether `s` begins with `prefix`, written in lower case, whatever its own case. */
  predicate BeginsWith(s: string, prefix: string) {
    |prefix| <= |s| && forall i :: 0 <= i < |prefix| ==> Lower(s[i]) == prefix[i]
  }

  predicate SafeScheme(href: string) {
    BeginsWith(href, "http://") || BeginsWith(href, "https://") || BeginsWith(href, "mailto:") || BeginsWith(href, "/")
  }

  predicate Forbidden(c: char) { IsSpace(c) || IsControl(c) || c in "\"'<>" }

  function SafeHref(raw: string): Option<string> {
    var href := Trim(raw);
    if href == "" || (exists i :: 0 <= i < |href| && Forbidden(href[i])) || !SafeScheme(href) then None
    else Some(href)
  }

  /** What is accepted is the text itself without the space around it, holds nothing that
      could end the attribute it goes in, and names a scheme that cannot execute. */
  lemma SafeHrefAccepts(raw: string)
    ensures SafeHref(raw).Some? <==>
      && SafeScheme(Trim(raw))
      && forall i :: 0 <= i < |Trim(raw)| ==> !Forbidden(Trim(raw)[i])
    ensures SafeHref(raw).Some? ==> SafeHref(raw).value == Trim(raw) && SafeHref(Trim(raw)) == SafeHref(raw)
  {
    var href := Trim(raw);
    if SafeScheme(href) && forall i :: 0 <= i < |href| ==> !Forbidden(href[i]) {
      TrimClean(href);
    }
  }

  // ----- rules -----

  datatype Kind = IsCode | IsStrongEm | IsStrong | IsStrike | IsEm | IsLink

  /** What a rule matched at the front of the text: its kind, the character it is written
      with, the text inside, the address of a link, and how much was matched. */
  datatype Token = Token(kind: Kind, tag: char, inner: string, href: string, length: nat)

  predicate StandsAt(s: string, d: string, i: int) { 0 <= i && i + |d| <= |s| && s[i..i + |d|] == d }

  /** The first place from `k` on where `d` stands, or -1. */
  function Find(s: string, d: string, k: nat): (r: int)
    ensures r == -1 || (k <= r && StandsAt(s, d, r))
    ensures forall i :: k <= i && (r == -1 || i < r) ==> !StandsAt(s, d, i)
    decreases |s| - k
  {
    if k + |d| > |s| then -1
    else if StandsAt(s, d, k) then k
    else Find(s, d, k + 1)
  }

  /** The end of the run of characters from `k` on that are none of `stops`. */
  function RunEnd(s: string, stops: string, k: nat): (r: nat)
    requires k <= |s|
    ensures k <= r <= |s|
    ensures forall i :: k <= i < r ==> s[i] !in stops
    ensures r < |s| ==> s[r] in stops
    decreases |s| - k
  {
    if k == |s| || s[k] in stops then k else RunEnd(s, stops, k + 1)
  }

  /** The shortest non-empty text between two of the delimiters. */
  function Fenced(s: string, d: string, kind: Kind, tag: char): Option<Token> {
    if |d| <= |s| && s[..|d|] == d then
      var k := Find(s, d, |d| + 1);
      if k == -1 then None else Some(Token(kind, tag, s[|d|..k], "", k + |d|))
    else None
  }

  /** A non-empty run without the character itself, nor any of `stops`, between two of it. */
  function Plain(s: string, c: char, stops: string, kind: Kind): Option<Token> {
    if s != [] && s[0] == c then
      var k := RunEnd(s, [c] + stops, 1);
      if k >= 2 && k < |s| && s[k] == c then Some(Token(kind, c, s[1..k], "", k + 1)) else None
    else None
  }

  function AddressEnd(s: string, k: nat): (r: nat)
    requires k <= |s|
    ensures k <= r <= |s|
    ensures forall i :: k <= i < r ==> s[i] != ')' && !IsSpace(s[i])
    decreases |s| - k
  {
    if k == |s| || s[k] == ')' || IsSpace(s[k]) then k else AddressEnd(s, k + 1)
  }

  function LinkText(s: string): Option<Token> {
    if s != [] && s[0] == '[' then
      var k := RunEnd(s, "]", 1);
      if k + 1 < |s| && s[k + 1] == '(' then
        var e := AddressEnd(s, k + 2);
        if e > k + 2 && e < |s| && s[e] == ')' then Some(Token(IsLink, '[', s[1..k], s[k + 2..e], e + 1)) else None
      else None
    else None
  }

  function Or<T>(a: Option<T>, b: Option<T>): Option<T> { if a.Some? then a else b }

  /** The first rule that matches, the longest delimiter first. */
  function FirstRule(s: string): Option<Token> {
    Or(Plain(s, '`', "", IsCode),
    Or(Fenced(s, "***", IsStrongEm, '*'),
    Or(Fenced(s, "___", IsStrongEm, '_'),
    Or(Fenced(s, "**", IsStrong, '*'),
    Or(Fenced(s, "__", IsStrong, '_'),
    Or(Fenced(s, "~~", IsStrike, '~'),
    Or(Plain(s, '*', "\n", IsEm),
    Or(Plain(s, '_', "\n", IsEm),
       LinkText(s)))))))))
  }

  /** The rule that applies: a link whose address is refused does not. */
  function Rule(s: string): Option<Token> {
    var t := FirstRule(s);
    if t.Some? && t.value.kind.IsLink? && SafeHref(t.value.href).None? then None else t
  }

  function Opening(t: Token): string {
    match t.kind
    case IsCode => "`"
    case IsStrongEm => [t.tag, t.tag, t.tag]
    case IsStrong => [t.tag, t.tag]
    case IsStrike => "~~"
    case IsEm => [t.tag]
    case IsLink => "["
  }

  function Closing(t: Token): string {
    if t.kind.IsLink? then "](" + t.href + ")" else Opening(t)
  }

  /** What was matched is the delimiters and what is between them, no more and no less. */
  predicate Exactly(s: string, r: Option<Token>) {
    r.Some? ==>
      var t := r.value;
      && 2 <= t.length <= |s| && |t.inner| < t.length
      && s[..t.length] == Opening(t) + t.inner + Closing(t)
      && (t.kind.IsLink? ==> forall i :: 0 <= i < |t.href| ==> !IsSpace(t.href[i]))
  }

  lemma RuleMatches(s: string)
    ensures Exactly(s, FirstRule(s))
  {
    hide Exactly, Plain, Fenced, LinkText;
    PlainMatches(s, '`', "", IsCode);
    FencedMatches(s, "***", IsStrongEm, '*');
    FencedMatches(s, "___", IsStrongEm, '_');
    FencedMatches(s, "**", IsStrong, '*');
    FencedMatches(s, "__", IsStrong, '_');
    FencedMatches(s, "~~", IsStrike, '~');
    PlainMatches(s, '*', "\n", IsEm);
    PlainMatches(s, '_', "\n", IsEm);
    LinkMatches(s);
  }

  lemma FencedMatches(s: string, d: string, kind: Kind, tag: char)
    requires |d| >= 2 && !kind.IsLink? && d == Opening(Token(kind, tag, "", "", 0))
    ensures Exactly(s, Fenced(s, d, kind, tag))
  {
    var k := Find(s, d, |d| + 1);
    if |d| <= |s| && s[..|d|] == d && k >= 0 {
      assert s[..k + |d|] == s[..|d|] + s[|d|..k] + s[k..k + |d|];
    }
  }

  lemma PlainMatches(s: string, c: char, stops: string, kind: Kind)
    requires !kind.IsLink? && [c] == Opening(Token(kind, c, "", "", 0))
    ensures Exactly(s, Plain(s, c, stops, kind))
  {
    var r := Plain(s, c, stops, kind);
    if r.Some? {
      assert s[..r.value.length] == [c] + r.value.inner + [c];
    }
  }

  /** A text cut at four places, put together again. */
  lemma FivePieces(s: string, a: nat, b: nat, c: nat, d: nat)
    requires a <= b <= c <= d <= |s|
    ensures s[..d] == s[..a] + s[a..b] + (s[b..c] + s[c..d])
  {}

  lemma LinkMatches(s: string)
    ensures Exactly(s, LinkText(s))
  {
    if LinkText(s).Some? {
      var k := RunEnd(s, "]", 1);
      var e := AddressEnd(s, k + 2);
      FivePieces(s, 1, k, k + 2, e + 1);
      assert s[..1] == "[" && s[k..k + 2] == "](";
      assert s[k + 2..e + 1] == s[k + 2..e] + ")";
      Regrouped("](", s[k + 2..e], ")");
    }
  }

  // ----- the tree a text stands for -----

  function NodeOf(t: Token, children: seq<InlineNode>): InlineNode {
    match t.kind
    case IsCode => Code(t.inner)
    case IsStrongEm => Strong(t.tag, [Em(t.tag, children)])
    case IsStrong => Strong(t.tag, children)
    case IsStrike => Strike(children)
    case IsEm => Em(t.tag, children)
    case IsLink => Link(t.href, children)
  }

  /** Puts plain text in front, joining it with plain text that is there already. */
  function AddText(text: string, nodes: seq<InlineNode>): seq<InlineNode> {
    if text == "" then nodes
    else if nodes != [] && nodes[0].Text? then [Text(text + nodes[0].value)] + nodes[1..]
    else [Text(text)] + nodes
  }

  /** The tree of a text, read from its front: a line break, a rule, or a plain character. */
  function Inline(s: string): seq<InlineNode>
    decreases |s|
  {
    if s == "" then []
    else if s[0] == '\n' then [Break] + Inline(s[1..])
    else
      match Rule(s)
      case None => AddText([s[0]], Inline(s[1..]))
      case Some(t) =>
        RuleMatches(s);
        [NodeOf(t, if t.kind.IsCode? then [] else Inline(t.inner))] + Inline(s[t.length..])
  }

  /** The parser: plain characters gather in `buffer` until a node closes it. */
  method ParseInline(source: string) returns (out: seq<InlineNode>)
    ensures out == Inline(source)
    decreases |source|
  {
    hide Rule;
    out := [];
    var buffer := "";
    var rest := source;
    while rest != ""
      invariant |rest| <= |source|
      invariant out + AddText(buffer, Inline(rest)) == Inline(source)
      decreases |rest|
    {
      if rest[0] == '\n' {
        FlushText(buffer, Break, Inline(rest[1..]));
        out := Flush(out, buffer) + [Break];
        buffer := "";
        rest := rest[1..];
        continue;
      }
      var rule := Rule(rest);
      if rule.Some? {
        var t := rule.value;
        assert FirstRule(rest) == rule by { RuleIsFirst(rest); }
        RuleMatches(rest);
        var children: seq<InlineNode> := [];
        if !t.kind.IsCode? {
          children := ParseInline(t.inner);
        }
        FlushText(buffer, NodeOf(t, children), Inline(rest[t.length..]));
        out := Flush(out, buffer) + [NodeOf(t, children)];
        buffer := "";
        rest := rest[t.length..];
      } else {
        AddTextTwice(buffer, rest[0], Inline(rest[1..]));
        buffer := buffer + [rest[0]];
        rest := rest[1..];
      }
    }
    out := Flush(out, buffer);
  }

  function Flush(out: seq<InlineNode>, buffer: string): seq<InlineNode> {
    if buffer != "" then out + [Text(buffer)] else out
  }

  lemma RuleIsFirst(s: string)
    ensures Rule(s).Some? ==> FirstRule(s) == Rule(s)
  {}

  lemma FlushText(buffer: string, node: InlineNode, nodes: seq<InlineNode>)
    requires !node.Text?
    ensures forall out :: Flush(out, buffer) + [node] + nodes == out + AddText(buffer, [node] + nodes)
  {}

  lemma AddTextTwice(buffer: string, c: char, nodes: seq<InlineNode>)
    ensures AddText(buffer + [c], nodes) == AddText(buffer, AddText([c], nodes))
  {
    assert buffer == "" ==> buffer + [c] == [c];
    if nodes != [] && nodes[0].Text? {
      assert buffer + [c] + nodes[0].value == buffer + ([c] + nodes[0].value);
    }
  }

  // ----- nothing is lost -----

  /** A node written back as markdown. */
  function Write(node: InlineNode): string
    decreases node
  {
    match node
    case Text(value) => value
    case Code(value) => "`" + value + "`"
    case Strong(tag, children) => [tag, tag] + WriteAll(children) + [tag, tag]
    case Em(tag, children) => [tag] + WriteAll(children) + [tag]
    case Strike(children) => "~~" + WriteAll(children) + "~~"
    case Link(href, children) => "[" + WriteAll(children) + "](" + href + ")"
    case Break => "\n"
  }

  function WriteAll(nodes: seq<InlineNode>): string
    decreases nodes
  {
    if nodes == [] then "" else Write(nodes[0]) + WriteAll(nodes[1..])
  }

  lemma WriteAddText(text: string, nodes: seq<InlineNode>)
    ensures WriteAll(AddText(text, nodes)) == text + WriteAll(nodes)
  {
    if text != "" {
      if nodes != [] && nodes[0].Text? {
        assert AddText(text, nodes)[1..] == nodes[1..];
        assert Write(nodes[0]) == nodes[0].value;
      } else {
        assert AddText(text, nodes)[1..] == nodes;
      }
    }
  }

  lemma WriteCons(node: InlineNode, nodes: seq<InlineNode>)
    ensures WriteAll([node] + nodes) == Write(node) + WriteAll(nodes)
  {
    assert ([node] + nodes)[1..] == nodes;
  }

  lemma WriteToken(t: Token, children: seq<InlineNode>)
    requires !t.kind.IsCode? ==> WriteAll(children) == t.inner
    ensures Write(NodeOf(t, children)) == Opening(t) + t.inner + Closing(t)
  {
    match t.kind
    case IsStrongEm =>
      var em := Em(t.tag, children);
      assert [em][1..] == [];
      assert WriteAll([em]) == Write(em) + WriteAll([em][1..]) == [t.tag] + t.inner + [t.tag];
      assert [t.tag, t.tag] + ([t.tag] + t.inner + [t.tag]) + [t.tag, t.tag]
          == [t.tag, t.tag, t.tag] + t.inner + [t.tag, t.tag, t.tag];
    case IsLink =>
      assert "[" + t.inner + "](" + t.href + ")" == "[" + t.inner + ("](" + t.href + ")");
    case IsCode =>
    case IsStrong =>
    case IsStrike =>
    case IsEm =>
  }

  /** Writing the tree back gives the message, character for character: refused links and
      delimiters that match nothing included. */
  lemma {:induction false} InlineIsLossless(s: string)
    ensures WriteAll(Inline(s)) == s
    decreases |s|
  {
    hide Rule, FirstRule, WriteAll, Write;
    if s == "" {
      assert WriteAll([]) == "" by { WriteNothing(); }
    } else if s[0] == '\n' {
      InlineIsLossless(s[1..]);
      WriteCons(Break, Inline(s[1..]));
      WriteNothing();
      assert s == "\n" + s[1..];
    } else {
      match Rule(s)
      case None =>
        InlineIsLossless(s[1..]);
        WriteAddText([s[0]], Inline(s[1..]));
        assert s == [s[0]] + s[1..];
      case Some(t) =>
        RuleIsFirst(s);
        RuleMatches(s);
        var children := if t.kind.IsCode? then [] else Inline(t.inner);
        InlineIsLossless(t.inner);
        InlineIsLossless(s[t.length..]);
        WriteToken(t, children);
        WriteCons(NodeOf(t, children), Inline(s[t.length..]));
        assert s == s[..t.length] + s[t.length..];
    }
  }

  lemma WriteNothing()
    ensures WriteAll([]) == "" && Write(Break) == "\n"
  {}

  // ----- links and texts, at any depth -----

  /** Every link of the tree has an address that is accepted as it stands, no text is
      empty, and no two texts stand side by side. */
  predicate WellFormed(node: InlineNode)
    decreases node
  {
    match node
    case Text(value) => value != ""
    case Code(value) => value != ""
    case Strong(_, children) => AllWellFormed(children)
    case Em(_, children) => AllWellFormed(children)
    case Strike(children) => AllWellFormed(children)
    case Link(href, children) => SafeHref(href) == Some(href) && AllWellFormed(children)
    case Break => true
  }

  predicate AllWellFormed(nodes: seq<InlineNode>)
    decreases nodes
  {
    nodes == [] || (WellFormed(nodes[0]) && AllWellFormed(nodes[1..])
                    && (nodes[0].Text? ==> |nodes| > 1 ==> !nodes[1].Text?))
  }

  lemma WellFormedAddText(c: char, nodes: seq<InlineNode>)
    requires AllWellFormed(nodes)
    ensures AllWellFormed(AddText([c], nodes))
  {
    var r := AddText([c], nodes);
    if nodes != [] && nodes[0].Text? {
      assert r[1..] == nodes[1..];
    } else {
      assert r[1..] == nodes;
    }
  }

  lemma WellFormedCons(node: InlineNode, nodes: seq<InlineNode>)
    requires !node.Text? && WellFormed(node) && AllWellFormed(nodes)
    ensures AllWellFormed([node] + nodes)
  {
    assert ([node] + nodes)[1..] == nodes;
  }

  lemma WellFormedNode(t: Token, children: seq<InlineNode>)
    requires AllWellFormed(children)
    requires t.kind.IsCode? ==> t.inner != ""
    requires t.kind.IsLink? ==> SafeHref(t.href) == Some(t.href)
    ensures WellFormed(NodeOf(t, children)) && !NodeOf(t, children).Text?
  {
    hide SafeHref;
    if t.kind.IsStrongEm? {
      var em := Em(t.tag, children);
      assert WellFormed(em) && [em][1..] == [];
      assert AllWellFormed([em]);
    }
  }

  lemma CodeIsNotEmpty(s: string)
    ensures FirstRule(s).Some? && FirstRule(s).value.kind.IsCode? ==> FirstRule(s).value.inner != ""
  {}

  lemma {:induction false} InlineIsWellFormed(s: string)
    ensures AllWellFormed(Inline(s))
    decreases |s|
  {
    hide FirstRule, WellFormed, AllWellFormed;
    if s == "" {
      assert AllWellFormed([]) by { NothingWellFormed(); }
    } else if s[0] == '\n' {
      InlineIsWellFormed(s[1..]);
      NothingWellFormed();
      WellFormedCons(Break, Inline(s[1..]));
    } else {
      match Rule(s)
      case None =>
        InlineIsWellFormed(s[1..]);
        WellFormedAddText(s[0], Inline(s[1..]));
      case Some(t) =>
        RuleMatches(s);
        CodeIsNotEmpty(s);
        var children := if t.kind.IsCode? then [] else Inline(t.inner);
        NothingWellFormed();
        InlineIsWellFormed(t.inner);
        InlineIsWellFormed(s[t.length..]);
        if t.kind.IsLink? {
          SafeHrefAccepts(t.href);
          TrimClean(t.href);
        }
        WellFormedNode(t, children);
        WellFormedCons(NodeOf(t, children), Inline(s[t.length..]));
    }
  }

  lemma NothingWellFormed()
    ensures AllWellFormed([]) && WellFormed(Break)
  {}
}
