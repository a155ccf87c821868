/** Which names the sidecar accepts, and the fields of the lines it writes for them. */
module DkimNames {
  import opened Strings
  import opened DkimTables

  // ----- accepted names -----

  predicate Alphanumeric(c: char) { 'a' <= c <= 'z' || '0' <= c <= '9' }

  /** Letters, digits and hyphens, of which the first is no hyphen. */
  predicate SelectorName(s: string) {
    s != "" && Alphanumeric(s[0]) && forall i :: 0 <= i < |s| ==> Alphanumeric(s[i]) || s[i] == '-'
  }

  /** Such a name whose last character is no hyphen either. */
  predicate LabelName(s: string) { SelectorName(s) && Alphanumeric(s[|s| - 1]) }

  predicate LabelNames(labels: seq<string>) { forall i :: 0 <= i < |labels| ==> LabelName(labels[i]) }

  predicate SelectorParts(s: string, name: string, end: string) {
    s == name + end && SelectorName(name) && end in ["", "\n"]
  }

  predicate DomainParts(s: string, labels: seq<string>, end: string) {
    s == Joined(labels, '.') + end && |labels| >= 2 && LabelNames(labels) && end in ["", "\n"]
  }

  lemma BeforeEndIs(name: string, end: string)
    requires end in ["", "\n"] && (name == "" || name[|name| - 1] != '\n')
    ensures BeforeEnd(name + end) == name
  {
    if end == "" {
      assert name + end == name;
    } else {
      assert (name + end)[..|name|] == name;
    }
  }

  lemma EndIs(s: string) returns (end: string)
    ensures s == BeforeEnd(s) + end && end in ["", "\n"]
  {
    end := if s != "" && s[|s| - 1] == '\n' then "\n" else "";
  }

  /** A selector is accepted exactly when it is such a name, or one with a newline after it. */
  lemma SelectorAcceptedIff(s: string)
    ensures SelectorAccepted(s) <==> exists name, end :: SelectorParts(s, name, end)
  {
    if SelectorAccepted(s) {
      var end := EndIs(s);
      assert SelectorParts(s, BeforeEnd(s), end);
    }
    forall name, end | SelectorParts(s, name, end) ensures SelectorAccepted(s) {
      BeforeEndIs(name, end);
    }
  }

  lemma LabelIff(s: string)
    ensures IsLabel(s) <==> LabelName(s)
  {}

  lemma LabelHasNoDot(s: string)
    requires LabelName(s)
    ensures '.' !in s && '\n' !in s
  {}

  lemma {:induction false} DomainIsSplit(s: string)
    ensures IsDomain(s) <==> |Split(s, '.')| >= 2 && LabelNames(Split(s, '.'))
    decreases |s|
  {
    hide IsLabel, LabelName, Split;
    var i := IndexOf(s, '.');
    if i == |s| {
      assert |Split(s, '.')| == 1;
    } else {
      var a, rest := s[..i], s[i + 1..];
      assert s == a + ['.'] + rest && '.' !in a;
      SplitPiece(a, rest, '.');
      LabelIff(a);
      DomainIsSplit(rest);
      OneLabel(rest);
      ConsLabels(a, Split(rest, '.'));
    }
  }

  lemma OneLabel(s: string)
    ensures IsLabel(s) <==> |Split(s, '.')| == 1 && LabelNames(Split(s, '.'))
  {
    hide Split;
    LabelIff(s);
    if LabelName(s) {
      LabelHasNoDot(s);
    }
    hide LabelName, IsLabel;
    if '.' !in s {
      assert Split(s, '.') == [s] && [s][0] == s;
    }
  }

  lemma ConsLabels(a: string, labels: seq<string>)
    ensures LabelNames([a] + labels) <==> LabelName(a) && LabelNames(labels)
  {
    hide LabelName;
    assert forall i :: 0 <= i < |labels| ==> ([a] + labels)[i + 1] == labels[i];
    assert ([a] + labels)[0] == a;
  }

  /** A domain is accepted exactly when it is two labels or more with dots between them, or
      that with a newline after it. */
  lemma DomainAcceptedIff(s: string)
    ensures DomainAccepted(s) <==> exists labels, end :: DomainParts(s, labels, end)
  {
    hide IsDomain, Split, BeforeEnd, LabelName;
    if DomainAccepted(s) {
      var end := EndIs(s);
      DomainIsSplit(BeforeEnd(s));
      JoinedOfSplit(BeforeEnd(s), '.');
      assert DomainParts(s, Split(BeforeEnd(s), '.'), end);
    }
    forall labels, end | DomainParts(s, labels, end) ensures DomainAccepted(s) {
      DomainOfLabels(s, labels, end);
    }
  }

  lemma DomainOfLabels(s: string, labels: seq<string>, end: string)
    requires DomainParts(s, labels, end)
    ensures DomainAccepted(s)
  {
    hide IsDomain, Split, BeforeEnd, LabelName;
    forall i | 0 <= i < |labels| ensures '.' !in labels[i] {
      LabelHasNoDot(labels[i]);
    }
    LabelHasNoDot(labels[|labels| - 1]);
    LastOfJoined(labels);
    BeforeEndIs(Joined(labels, '.'), end);
    SplitOfJoined(labels, '.');
    DomainIsSplit(Joined(labels, '.'));
  }

  lemma {:induction false} LastOfJoined(labels: seq<string>)
    requires labels != [] && LabelNames(labels)
    ensures Joined(labels, '.') != "" && Joined(labels, '.')[|Joined(labels, '.')| - 1] != '\n'
  {
    if |labels| > 1 {
      LastOfJoined(labels[1..]);
    }
  }

  // ----- the fields of the lines -----

  /** Accepted names hold none of the characters that part fields. */
  lemma NoSeparators(p: Pair)
    requires Accepted(p)
    ensures ' ' !in p.domain && ' ' !in p.selector && ':' !in p.domain && ':' !in p.selector
  {
    AcceptedChars(p);
    DomainChars(BeforeEnd(p.domain));
    forall i | 0 <= i < |p.domain| ensures p.domain[i] != ':' {
      if i < |BeforeEnd(p.domain)| { assert BeforeEnd(p.domain)[i] == p.domain[i]; }
    }
    forall i | 0 <= i < |p.selector| ensures p.selector[i] != ':' {
      if i < |BeforeEnd(p.selector)| { assert BeforeEnd(p.selector)[i] == p.selector[i]; }
    }
  }

  /** A line of the key table has two fields: the DNS name, and the domain, the selector and
      the path of the private key, in this order. */
  lemma KeyLineFields(p: Pair)
    requires Accepted(p)
    ensures var value, path := p.domain + ":" + p.selector + ":" + PrivatePath(p), PrivatePath(p);
            && Split(KeyLine(p), ' ') == [p.selector + "._domainkey." + p.domain, value]
            && Split(value, ':') == [p.domain, p.selector, path]
            && path == "/etc/opendkim/keys/" + p.domain + "/" + p.selector + ".private"
  {
    NoSeparators(p);
    PathChars(p);
    hide Accepted, Split;
    ThreeFields(p.domain, p.selector, PrivatePath(p));
    NameAndValue(p.selector + "._domainkey." + p.domain, p.domain + ":" + p.selector + ":" + PrivatePath(p));
  }

  lemma NameAndValue(name: string, value: string)
    requires ' ' !in name && ' ' !in value
    ensures Split(name + " " + value, ' ') == [name, value]
  {
    hide Split;
    SplitPiece(name, value, ' ');
  }

  lemma ThreeFields(a: string, b: string, c: string)
    requires ':' !in a && ':' !in b && ':' !in c
    ensures Split(a + ":" + b + ":" + c, ':') == [a, b, c]
  {
    hide Split;
    SplitPiece(b, c, ':');
    SplitPiece(a, b + ":" + c, ':');
    assert a + ":" + b + ":" + c == a + ":" + (b + ":" + c);
  }

  lemma PathChars(p: Pair)
    requires ' ' !in p.domain && ' ' !in p.selector && ':' !in p.domain && ':' !in p.selector
    ensures ' ' !in PrivatePath(p) && ':' !in PrivatePath(p)
  {}

  /** A line of the signing table has two: all addresses of the domain, and the DNS name. */
  lemma SigningLineFields(p: Pair)
    requires Accepted(p)
    ensures Split(SigningLine(p), ' ') == ["*@" + p.domain, p.selector + "._domainkey." + p.domain]
  {
    NoSeparators(p);
    hide Accepted, Split;
    NameAndValue("*@" + p.domain, p.selector + "._domainkey." + p.domain);
  }
}
