/** The key table, the signing table and the private keys of the DKIM sidecar, changed one
    request at a time. A table is the sequence of its lines. */
module DkimTables {
  import opened Wrappers
  import opened Strings

  datatype Pair = Pair(domain: string, selector: string)

  datatype State = State(keyTable: seq<string>, signingTable: seq<string>, private: set<Pair>, txt: set<Pair>)

  // ----- names -----

  predicate IsAlphanumeric(c: char) { 'a' <= c <= 'z' || IsDigit(c) }

  predicate IsNameChar(c: char) { IsAlphanumeric(c) || c == '-' }

  predicate IsSelector(s: string) { s != "" && IsAlphanumeric(s[0]) && forall i :: 0 <= i < |s| ==> IsNameChar(s[i]) }

  /** Labels of name characters, of which the first and the last is no hyphen. */
  predicate IsLabel(s: string) { IsSelector(s) && IsAlphanumeric(s[|s| - 1]) }

  /** One label, then one more at least, dots between them. */
  predicate IsDomain(s: string) {
    var i := IndexOf(s, '.');
    i < |s| && IsLabel(s[..i]) && (IsLabel(s[i + 1..]) || IsDomain(s[i + 1..]))
  }

  /** `$` also stands before a newline that ends the text. */
  function BeforeEnd(s: string): string { if s != "" && s[|s| - 1] == '\n' then s[..|s| - 1] else s }

  predicate DomainAccepted(s: string) { IsDomain(BeforeEnd(s)) }

  predicate SelectorAccepted(s: string) { IsSelector(BeforeEnd(s)) }

  predicate Clean(p: Pair) { '\n' !in p.domain && '\n' !in p.selector }

  predicate Accepted(p: Pair) { DomainAccepted(p.domain) && SelectorAccepted(p.selector) }

  lemma {:induction false} DomainChars(s: string)
    requires IsDomain(s)
    ensures forall i :: 0 <= i < |s| ==> IsNameChar(s[i]) || s[i] == '.'
  {
    var i := IndexOf(s, '.');
    var rest := s[i + 1..];
    if !IsLabel(rest) {
      DomainChars(rest);
    }
    forall k | 0 <= k < |s| ensures IsNameChar(s[k]) || s[k] == '.' {
      if k < i {
        assert s[..i][k] == s[k];
      } else if k > i {
        assert rest[k - i - 1] == s[k];
      }
    }
  }

  /** Accepted names hold no space, and the selector no dot; without a newline at the end
      they are names through and through. */
  lemma AcceptedChars(p: Pair)
    requires Accepted(p)
    ensures ' ' !in p.domain && ' ' !in p.selector && '.' !in p.selector && p.selector != ""
  {
    DomainChars(BeforeEnd(p.domain));
    forall i | 0 <= i < |p.domain| ensures p.domain[i] != ' ' {
      if i < |BeforeEnd(p.domain)| { assert BeforeEnd(p.domain)[i] == p.domain[i]; }
    }
    forall i | 0 <= i < |p.selector| ensures p.selector[i] != ' ' && p.selector[i] != '.' {
      if i < |BeforeEnd(p.selector)| { assert BeforeEnd(p.selector)[i] == p.selector[i]; }
    }
  }

  // ----- lines -----

  function DnsName(p: Pair): string { p.selector + "._domainkey." + p.domain }

  /** Where the files of a pair are. */
  function KeyPath(p: Pair): string { "/etc/opendkim/keys/" + p.domain + "/" + p.selector }

  function PrivatePath(p: Pair): string { KeyPath(p) + ".private" }

  function TxtPath(p: Pair): string { KeyPath(p) + ".txt" }

  function KeyLine(p: Pair): string {
    DnsName(p) + " " + (p.domain + ":" + p.selector + ":" + PrivatePath(p))
  }

  function SigningLine(p: Pair): string { "*@" + p.domain + " " + DnsName(p) }

  /** Which lines a deletion removes. */
  predicate KeyMarked(p: Pair, line: string) { DnsName(p) + " " <= line }

  predicate SigningMarked(p: Pair, line: string) {
    var marker := " " + DnsName(p);
    |marker| <= |line| && line[|line| - |marker|..] == marker
  }

  /** The first dot of a DNS name ends its selector. */
  lemma DnsNameParts(p: Pair)
    requires '.' !in p.selector
    ensures var name, k := DnsName(p), IndexOf(DnsName(p), '.');
            k + 12 <= |name| && p.selector == name[..k] && p.domain == name[k + 12..]
  {
    var middle, rest := "._domainkey.", "_domainkey." + p.domain;
    FirstOf(p.selector, rest, '.');
    Regrouped(p.selector, middle, p.domain);
    assert middle + p.domain == ['.'] + rest;
    Regrouped(p.selector, ['.'], rest);
    assert DnsName(p) == p.selector + ['.'] + rest;
    assert DnsName(p)[|p.selector + middle|..] == p.domain;
  }

  /** A DNS name has only one reading as a selector and a domain. */
  lemma DnsNameIsInjective(p: Pair, q: Pair)
    requires Accepted(p) && Accepted(q)
    ensures DnsName(p) == DnsName(q) <==> p == q
  {
    AcceptedChars(p);
    AcceptedChars(q);
    hide Accepted, DnsName;
    DnsNameParts(p);
    DnsNameParts(q);
  }

  lemma NoSlash(p: Pair)
    requires Accepted(p)
    ensures '/' !in p.domain && '/' !in p.selector
  {
    DomainChars(BeforeEnd(p.domain));
    forall i | 0 <= i < |p.domain| ensures p.domain[i] != '/' {
      if i < |BeforeEnd(p.domain)| { assert BeforeEnd(p.domain)[i] == p.domain[i]; }
    }
    forall i | 0 <= i < |p.selector| ensures p.selector[i] != '/' {
      if i < |BeforeEnd(p.selector)| { assert BeforeEnd(p.selector)[i] == p.selector[i]; }
    }
  }

  /** What follows the directory of the keys: a domain, a slash, a selector and an ending. */
  lemma PathParts(p: Pair, ending: string)
    requires '/' !in p.domain
    ensures var below := (KeyPath(p) + ending)[19..]; var i := IndexOf(below, '/');
            i < |below| && p.domain == below[..i] && p.selector + ending == below[i + 1..]
  {
    var dir, rest := "/etc/opendkim/keys/", p.selector + ending;
    FirstOf(p.domain, rest, '/');
    Regrouped(dir + p.domain + "/", p.selector, ending);
    Regrouped(dir + p.domain, "/", rest);
    Regrouped(dir, p.domain, "/" + rest);
    Regrouped(p.domain, "/", rest);
    assert KeyPath(p) + ending == dir + (p.domain + ['/'] + rest);
  }

  lemma SamePath(p: Pair, q: Pair, ending: string)
    requires '/' !in p.domain && '/' !in q.domain
    ensures KeyPath(p) + ending == KeyPath(q) + ending <==> p == q
  {
    hide KeyPath;
    PathParts(p, ending);
    PathParts(q, ending);
    SameEnding(p.selector, q.selector, ending);
  }

  /** No file of one pair is a file of another, and a private key is no record: that is why
      the files on disk are sets of pairs. */
  lemma PathsAreDistinct(p: Pair, q: Pair)
    requires Accepted(p) && Accepted(q)
    ensures PrivatePath(p) == PrivatePath(q) <==> p == q
    ensures TxtPath(p) == TxtPath(q) <==> p == q
    ensures PrivatePath(p) != TxtPath(q)
  {
    NoSlash(p);
    NoSlash(q);
    hide Accepted, KeyPath;
    SamePath(p, q, ".private");
    SamePath(p, q, ".txt");
    LastOf(KeyPath(p), ".private");
    LastOf(KeyPath(q), ".txt");
  }

  lemma LastOf(a: string, b: string)
    requires b != ""
    ensures (a + b)[|a + b| - 1] == b[|b| - 1]
  {}

  lemma SameEnding(a: string, b: string, ending: string)
    ensures a + ending == b + ending ==> a == b
  {
    if a + ending == b + ending {
      assert |a| == |b|;
      assert a == (a + ending)[..|a|] && b == (b + ending)[..|b|];
    }
  }

  lemma NoSpace(p: Pair)
    requires Accepted(p)
    ensures ' ' !in DnsName(p)
  {
    AcceptedChars(p);
  }

  /** What begins with a name and a space has that name before its first space. */
  lemma NameBeforeSpace(name: string, line: string)
    requires ' ' !in name
    ensures name + " " <= line ==> IndexOf(line, ' ') == |name| && line[..|name|] == name
  {
    if name + " " <= line {
      var rest := line[|name| + 1..];
      assert line == name + [' '] + rest;
      FirstOf(name, rest, ' ');
    }
  }

  /** A marker marks the line of its own pair and of no other. */
  lemma KeyMarkedOnly(p: Pair, q: Pair)
    requires Accepted(p) && Accepted(q)
    ensures KeyMarked(p, KeyLine(q)) <==> p == q
  {
    NoSpace(p);
    NoSpace(q);
    DnsNameIsInjective(p, q);
    hide Accepted, DnsName, PrivatePath;
    assert DnsName(q) + " " <= KeyLine(q);
    NameBeforeSpace(DnsName(p), KeyLine(q));
    NameBeforeSpace(DnsName(q), KeyLine(q));
  }

  /** In a text with a single space, only what follows it can follow a space. */
  lemma TailAfterSpace(head: string, b: string, tail: string, k: nat)
    requires ' ' !in head && ' ' !in b
    requires k <= |head| + |b| && (head + [' '] + b)[k..] == [' '] + tail
    ensures b == tail
  {
    var line := head + [' '] + b;
    assert line[k] == line[k..][0] == ' ';
    forall j | 0 <= j < |line| && j != |head| ensures line[j] != ' ' {
      if j < |head| { assert line[j] == head[j]; } else { assert line[j] == b[j - |head| - 1]; }
    }
    assert line[k..] == [' '] + b;
    assert b == ([' '] + b)[1..] && tail == ([' '] + tail)[1..];
  }

  lemma EndsInTail(head: string, b: string, tail: string)
    requires ' ' !in head && ' ' !in b
    ensures var line, marker := head + " " + b, " " + tail;
            |marker| <= |line| && line[|line| - |marker|..] == marker <==> b == tail
  {
    var line := head + " " + b;
    if |tail| + 1 <= |line| && line[|line| - |tail| - 1..] == " " + tail {
      TailAfterSpace(head, b, tail, |line| - |tail| - 1);
    }
    assert line[|head|..] == " " + b;
  }

  lemma SigningMarkedOnly(p: Pair, q: Pair)
    requires Accepted(p) && Accepted(q)
    ensures SigningMarked(p, SigningLine(q)) <==> p == q
  {
    NoSpace(p);
    NoSpace(q);
    AcceptedChars(q);
    DnsNameIsInjective(p, q);
    hide Accepted, DnsName;
    EndsInTail("*@" + q.domain, DnsName(q), DnsName(p));
  }

  // ----- the requests -----

  function TableAppend(table: seq<string>, line: string): seq<string> {
    if line in table then table else table + Split(line, '\n')
  }

  function Keep(table: seq<string>, marked: string -> bool): seq<string> {
    if table == [] then []
    else Keep(table[..|table| - 1], marked) + if marked(table[|table| - 1]) then [] else [table[|table| - 1]]
  }

  /** Generate; None when the names are refused. */
  function Generate(s: State, p: Pair): Option<State> {
    if !Accepted(p) then None
    else Some(State(TableAppend(s.keyTable, KeyLine(p)), TableAppend(s.signingTable, SigningLine(p)),
                    s.private + {p}, if p in s.private then s.txt else s.txt + {p}))
  }

  function Delete(s: State, p: Pair): Option<State> {
    if !Accepted(p) then None
    else Some(State(Keep(s.keyTable, line => KeyMarked(p, line)), Keep(s.signingTable, line => SigningMarked(p, line)),
                    s.private - {p}, s.txt - {p}))
  }

  class Sidecar {
    var keyTable: seq<string>
    var signingTable: seq<string>
    var private: set<Pair>
    var txt: set<Pair>

    function Now(): State reads this { State(keyTable, signingTable, private, txt) }

    constructor ()
      ensures Now() == State([], [], {}, {})
    {
      keyTable, signingTable, private, txt := [], [], {}, {};
    }

    method GenerateKey(p: Pair) returns (ok: bool)
      modifies this
      ensures ok == Generate(old(Now()), p).Some?
      ensures Now() == if ok then Generate(old(Now()), p).value else old(Now())
    {
      if !Accepted(p) {
        return false;
      }
      if p !in private {
        private := private + {p};
        txt := txt + {p};
      }
      keyTable := Append(keyTable, KeyLine(p));
      signingTable := Append(signingTable, SigningLine(p));
      ok := true;
    }

    method DeleteKey(p: Pair) returns (ok: bool)
      modifies this
      ensures ok == Delete(old(Now()), p).Some?
      ensures Now() == if ok then Delete(old(Now()), p).value else old(Now())
    {
      if !Accepted(p) {
        return false;
      }
      private := private - {p};
      txt := txt - {p};
      keyTable := Remove(keyTable, line => KeyMarked(p, line));
      signingTable := Remove(signingTable, line => SigningMarked(p, line));
      ok := true;
    }
  }

  /** Idempotent append: nothing is added when the exact line is there. */
  method Append(table: seq<string>, line: string) returns (r: seq<string>)
    ensures r == TableAppend(table, line)
  {
    for i := 0 to |table|
      invariant line !in table[..i]
    {
      if table[i] == line {
        return table;
      }
      assert table[..i + 1] == table[..i] + [table[i]];
    }
    assert table[..|table|] == table;
    r := table + Split(line, '\n');
  }

  method Remove(table: seq<string>, marked: string -> bool) returns (kept: seq<string>)
    ensures kept == Keep(table, marked)
  {
    kept := [];
    var removed := 0;
    for i := 0 to |table|
      invariant kept == Keep(table[..i], marked)
      invariant removed == i - |kept| && (removed == 0 ==> kept == table[..i])
    {
      assert table[..i + 1][..i] == table[..i];
      if marked(table[i]) {
        removed := removed + 1;
      } else {
        kept := kept + [table[i]];
      }
    }
    assert table[..|table|] == table;
    if removed == 0 {
      kept := table;
    }
  }

  // ----- the tables and the disk agree -----

  function KeyLines(pairs: seq<Pair>): seq<string> { seq(|pairs|, i requires 0 <= i < |pairs| => KeyLine(pairs[i])) }

  function SigningLines(pairs: seq<Pair>): seq<string> { seq(|pairs|, i requires 0 <= i < |pairs| => SigningLine(pairs[i])) }

  /** The two tables name the same pairs in the same order, once each, and these are the
      pairs whose private key is on disk. */
  ghost predicate Holds(s: State, pairs: seq<Pair>) {
    && (forall i :: 0 <= i < |pairs| ==> Accepted(pairs[i]) && Clean(pairs[i]))
    && (forall i, j :: 0 <= i < j < |pairs| ==> pairs[i] != pairs[j])
    && s.keyTable == KeyLines(pairs) && s.signingTable == SigningLines(pairs)
    && s.private == (set p | p in pairs) && s.txt == s.private
  }

  function Added(pairs: seq<Pair>, p: Pair): seq<Pair> { if p in pairs then pairs else pairs + [p] }

  function Without(pairs: seq<Pair>, p: Pair): seq<Pair> {
    if pairs == [] then []
    else Without(pairs[..|pairs| - 1], p) + if pairs[|pairs| - 1] == p then [] else [pairs[|pairs| - 1]]
  }

  lemma LinesAreClean(p: Pair)
    requires Clean(p)
    ensures '\n' !in KeyLine(p) && '\n' !in SigningLine(p)
  {}

  lemma LineInTable(pairs: seq<Pair>, p: Pair)
    requires Accepted(p) && forall i :: 0 <= i < |pairs| ==> Accepted(pairs[i])
    ensures KeyLine(p) in KeyLines(pairs) <==> p in pairs
    ensures SigningLine(p) in SigningLines(pairs) <==> p in pairs
  {
    hide Accepted, KeyLine, SigningLine;
    forall i | 0 <= i < |pairs|
      ensures KeyLine(p) == KeyLines(pairs)[i] <==> p == pairs[i]
      ensures SigningLine(p) == SigningLines(pairs)[i] <==> p == pairs[i]
    {
      SameLine(p, pairs[i]);
    }
  }

  lemma SameLine(p: Pair, q: Pair)
    requires Accepted(p) && Accepted(q)
    ensures KeyLine(p) == KeyLine(q) <==> p == q
    ensures SigningLine(p) == SigningLine(q) <==> p == q
  {
    hide KeyMarked, SigningMarked, KeyLine, SigningLine, Accepted;
    KeyMarkedOnly(p, p);
    KeyMarkedOnly(p, q);
    SigningMarkedOnly(p, p);
    SigningMarkedOnly(p, q);
  }

  /** Generating adds the pair at the end, or changes nothing when it is there. */
  lemma GenerateHolds(s: State, pairs: seq<Pair>, p: Pair)
    requires Holds(s, pairs) && Accepted(p) && Clean(p)
    ensures Generate(s, p).Some? && Holds(Generate(s, p).value, Added(pairs, p))
  {
    hide Accepted, KeyLine, SigningLine;
    LineInTable(pairs, p);
    LinesAreClean(p);
    var more := Added(pairs, p);
    if p !in pairs {
      assert KeyLines(more) == KeyLines(pairs) + [KeyLine(p)];
      assert SigningLines(more) == SigningLines(pairs) + [SigningLine(p)];
    }
    assert forall q :: q in more <==> q in pairs || q == p;
  }

  lemma {:induction false} KeepIsWithout(pairs: seq<Pair>, p: Pair)
    requires Accepted(p) && forall i :: 0 <= i < |pairs| ==> Accepted(pairs[i])
    ensures Keep(KeyLines(pairs), line => KeyMarked(p, line)) == KeyLines(Without(pairs, p))
    ensures Keep(SigningLines(pairs), line => SigningMarked(p, line)) == SigningLines(Without(pairs, p))
  {
    hide Accepted, KeyLine, SigningLine, KeyMarked, SigningMarked;
    if pairs != [] {
      var init, last := pairs[..|pairs| - 1], pairs[|pairs| - 1];
      KeepIsWithout(init, p);
      KeyMarkedOnly(p, last);
      SigningMarkedOnly(p, last);
      assert KeyLines(pairs)[..|pairs| - 1] == KeyLines(init);
      assert SigningLines(pairs)[..|pairs| - 1] == SigningLines(init);
      assert KeyLines(Without(init, p) + [last]) == KeyLines(Without(init, p)) + [KeyLine(last)];
      assert SigningLines(Without(init, p) + [last]) == SigningLines(Without(init, p)) + [SigningLine(last)];
      assert Without(init, p) + [] == Without(init, p);
    }
  }

  lemma {:induction false} WithoutProperties(pairs: seq<Pair>, p: Pair)
    requires forall i, j :: 0 <= i < j < |pairs| ==> pairs[i] != pairs[j]
    ensures forall q :: q in Without(pairs, p) <==> q in pairs && q != p
    ensures forall i, j :: 0 <= i < j < |Without(pairs, p)| ==> Without(pairs, p)[i] != Without(pairs, p)[j]
  {
    if pairs != [] {
      var init, last := pairs[..|pairs| - 1], pairs[|pairs| - 1];
      WithoutProperties(init, p);
      assert pairs == init + [last];
      assert last !in init;
    }
  }

  /** Deleting takes the lines of the pair out and leaves every other line as it was, in
      its order. */
  lemma DeleteHolds(s: State, pairs: seq<Pair>, p: Pair)
    requires Holds(s, pairs) && Accepted(p)
    ensures Delete(s, p).Some? && Holds(Delete(s, p).value, Without(pairs, p))
  {
    hide Accepted, KeyLine, SigningLine, KeyMarked, SigningMarked, Clean;
    KeepIsWithout(pairs, p);
    WithoutProperties(pairs, p);
    forall i | 0 <= i < |Without(pairs, p)| ensures Accepted(Without(pairs, p)[i]) && Clean(Without(pairs, p)[i]) {
      assert Without(pairs, p)[i] in pairs;
    }
  }

  datatype Request = Make(p: Pair) | Drop(p: Pair)

  function Handle(s: State, r: Request): State {
    match r
    case Make(p) => if Generate(s, p).Some? then Generate(s, p).value else s
    case Drop(p) => if Delete(s, p).Some? then Delete(s, p).value else s
  }

  function Run(requests: seq<Request>): State {
    if requests == [] then State([], [], {}, {})
    else Handle(Run(requests[..|requests| - 1]), requests[|requests| - 1])
  }

  /** No key is asked for under a name that is accepted and holds a newline. */
  predicate CleanlyMade(requests: seq<Request>) {
    forall i :: 0 <= i < |requests| && requests[i].Make? && Accepted(requests[i].p) ==> Clean(requests[i].p)
  }

  lemma {:induction false} TablesAgree(requests: seq<Request>)
    requires CleanlyMade(requests)
    ensures exists pairs :: Holds(Run(requests), pairs)
  {
    hide Accepted, Clean, Generate, Delete;
    if requests == [] {
      assert Holds(Run(requests), []);
    } else {
      var init, r := requests[..|requests| - 1], requests[|requests| - 1];
      TablesAgree(init);
      var pairs :| Holds(Run(init), pairs);
      if !Accepted(r.p) {
        RefusedChangesNothing(Run(init), r);
        assert Holds(Run(requests), pairs);
      } else if r.Make? {
        GenerateHolds(Run(init), pairs, r.p);
        assert Holds(Run(requests), Added(pairs, r.p));
      } else {
        DeleteHolds(Run(init), pairs, r.p);
        assert Holds(Run(requests), Without(pairs, r.p));
      }
    }
  }

  lemma RefusedChangesNothing(s: State, r: Request)
    requires !Accepted(r.p)
    ensures Handle(s, r) == s
  {}

  /** Generating a pair twice is the same as generating it once exactly when its names
      hold no newline: a name that ends in one is accepted, but its line is never found
      again. */
  lemma GenerateTwiceIff(s: State, p: Pair)
    requires Accepted(p)
    requires forall i :: 0 <= i < |s.keyTable| ==> '\n' !in s.keyTable[i]
    requires forall i :: 0 <= i < |s.signingTable| ==> '\n' !in s.signingTable[i]
    ensures Generate(Generate(s, p).value, p) == Generate(s, p) <==> Clean(p)
  {
    hide Accepted;
    var once := Generate(s, p).value;
    var line := KeyLine(p);
    if Clean(p) {
      LinesAreClean(p);
    } else {
      DirtyLine(p);
      assert line !in s.keyTable;
      assert once.keyTable == s.keyTable + Split(line, '\n');
      forall i | 0 <= i < |once.keyTable| ensures '\n' !in once.keyTable[i] {}
      assert line !in once.keyTable;
      assert |Generate(once, p).value.keyTable| > |once.keyTable|;
    }
  }

  /** A request that is accepted and takes the tables and the disk apart. */
  lemma NewlineIsAccepted() returns (p: Pair)
    ensures p == Pair("a.b", "s\n") && Accepted(p) && !Clean(p)
    ensures !exists pairs :: Holds(Run([Make(p)]), pairs)
    ensures Generate(Run([Make(p)]), p) != Some(Run([Make(p)]))
  {
    p := Pair("a.b", "s\n");
    assert p.domain[..1] == "a" && p.domain[2..] == "b" && p.domain[1] == '.';
    assert BeforeEnd(p.domain) == p.domain && BeforeEnd(p.selector) == "s";
    assert p.selector[1] == '\n';
    hide Accepted, Holds, Clean, Generate, KeyLine, SigningLine;
    TablesAgreeIff([Make(p)]);
    assert [Make(p)][0].p == p;
    var start := State([], [], {}, {});
    assert [Make(p)][..0] == [] && Run([]) == start;
    Generates(start, p);
    GenerateTwiceIff(start, p);
  }

  lemma DirtyLine(p: Pair)
    requires !Clean(p)
    ensures '\n' in KeyLine(p)
  {
    var line := KeyLine(p);
    if '\n' in p.selector {
      var i :| 0 <= i < |p.selector| && p.selector[i] == '\n';
      assert line[i] == '\n';
    } else {
      var i :| 0 <= i < |p.domain| && p.domain[i] == '\n';
      assert line[|p.selector| + 12 + i] == '\n';
    }
  }

  // ----- what such a name does to the tables -----

  /** A line that begins the way no line of a pair does. */
  predicate Torn(line: string) { line != "" && !IsAlphanumeric(line[0]) }

  ghost predicate Damaged(s: State) { exists line :: line in s.keyTable && Torn(line) }

  predicate Whole(table: seq<string>) { forall i :: 0 <= i < |table| ==> '\n' !in table[i] }

  lemma {:induction false} KeptLines(table: seq<string>, marked: string -> bool)
    ensures forall line :: line in Keep(table, marked) <==> line in table && !marked(line)
  {
    if table != [] {
      var init, last := table[..|table| - 1], table[|table| - 1];
      KeptLines(init, marked);
      assert table == init + [last];
    }
  }

  lemma SelectorBegins(p: Pair)
    requires Accepted(p)
    ensures p.selector != "" && IsAlphanumeric(p.selector[0])
  {
    assert p.selector[0] == BeforeEnd(p.selector)[0];
  }

  lemma PairLineIsNotTorn(p: Pair, line: string)
    requires Accepted(p)
    ensures KeyMarked(p, line) ==> !Torn(line)
    ensures !Torn(KeyLine(p))
  {
    SelectorBegins(p);
    if KeyMarked(p, line) {
      assert line[0] == (DnsName(p) + " ")[0] == p.selector[0];
    }
    assert KeyLine(p)[0] == p.selector[0];
  }

  /** No request ever removes a torn line. */
  lemma DamageStays(s: State, r: Request)
    requires Whole(s.keyTable)
    ensures Whole(Handle(s, r).keyTable)
    ensures Damaged(s) ==> Damaged(Handle(s, r))
  {
    hide Accepted, KeyMarked, Torn, KeyLine, SigningLine, SigningMarked;
    if !Accepted(r.p) {
      RefusedChangesNothing(s, r);
    } else if r.Drop? {
      KeptLines(s.keyTable, line => KeyMarked(r.p, line));
      var t := Handle(s, r);
      assert t.keyTable == Keep(s.keyTable, line => KeyMarked(r.p, line));
      forall i | 0 <= i < |t.keyTable| ensures '\n' !in t.keyTable[i] {
        assert t.keyTable[i] in s.keyTable;
      }
      if Damaged(s) {
        var line :| line in s.keyTable && Torn(line);
        PairLineIsNotTorn(r.p, line);
        assert line in t.keyTable;
      }
    } else {
      var t := Handle(s, r);
      assert t.keyTable == TableAppend(s.keyTable, KeyLine(r.p));
      assert forall line :: line in s.keyTable ==> line in t.keyTable;
    }
  }

  lemma NameBeforeNewline(p: Pair)
    requires Accepted(p)
    ensures '\n' in p.selector ==> p.selector == BeforeEnd(p.selector) + "\n"
    ensures '\n' in p.domain ==> p.domain == BeforeEnd(p.domain) + "\n"
    ensures '\n' !in BeforeEnd(p.selector) && '\n' !in BeforeEnd(p.domain)
  {
    DomainChars(BeforeEnd(p.domain));
  }

  /** What stands before and after the first newline of the line of such a name. */
  lemma LineAtNewline(p: Pair) returns (a: string, b: string)
    requires Accepted(p) && !Clean(p)
    ensures KeyLine(p) == a + ['\n'] + b && '\n' !in a
    ensures b != "" && (b[0] == '.' || b[0] == ' ')
  {
    NameBeforeNewline(p);
    hide Accepted, PrivatePath, BeforeEnd;
    var middle, tail := "._domainkey.", p.domain + ":" + p.selector + ":" + PrivatePath(p);
    if '\n' in p.selector {
      a, b := BeforeEnd(p.selector), middle + p.domain + " " + tail;
      Regrouped(p.selector, middle, p.domain);
      Regrouped(p.selector, middle + p.domain, " ");
      Regrouped(p.selector, middle + p.domain + " ", tail);
    } else {
      a, b := p.selector + middle + BeforeEnd(p.domain), " " + tail;
      Regrouped(p.selector + middle, BeforeEnd(p.domain), "\n");
      Regrouped(DnsName(p), " ", tail);
    }
  }

  /** Such a line is written as several lines, the second one torn. */
  lemma NewlineDamages(s: State, p: Pair)
    requires Accepted(p) && !Clean(p) && Whole(s.keyTable)
    ensures Damaged(Generate(s, p).value)
  {
    hide Accepted, KeyLine, SigningLine, Clean;
    var line := KeyLine(p);
    DirtyLine(p);
    assert line !in s.keyTable;
    var a, b := LineAtNewline(p);
    SecondPiece(a, b, '\n');
    var torn := Split(line, '\n')[1];
    hide Split;
    assert Torn(torn) && torn in Generate(s, p).value.keyTable;
  }

  lemma {:induction false} TablesAreDamaged(requests: seq<Request>)
    ensures Whole(Run(requests).keyTable)
    ensures !CleanlyMade(requests) ==> Damaged(Run(requests))
  {
    hide Accepted, Clean, Generate, Delete, Damaged;
    if requests != [] {
      var init, r := requests[..|requests| - 1], requests[|requests| - 1];
      TablesAreDamaged(init);
      DamageStays(Run(init), r);
      if r.Make? && Accepted(r.p) && !Clean(r.p) {
        NewlineDamages(Run(init), r.p);
        assert Generate(Run(init), r.p).Some? by { Generates(Run(init), r.p); }
      }
    }
  }

  lemma Generates(s: State, p: Pair)
    ensures Generate(s, p).Some? <==> Accepted(p)
  {}

  lemma NotDamaged(s: State, pairs: seq<Pair>)
    requires Holds(s, pairs)
    ensures !Damaged(s)
  {
    hide KeyLine, Torn, Accepted;
    forall i | 0 <= i < |pairs| ensures !Torn(KeyLines(pairs)[i]) {
      PairLineIsNotTorn(pairs[i], "");
    }
  }

  /** After any requests, refused ones among them: the tables and the private keys name
      the same pairs, once each, exactly when no key was ever made under a name that
      ends in a newline. Such a name is accepted, since `$` matches before it. */
  lemma TablesAgreeIff(requests: seq<Request>)
    ensures (exists pairs :: Holds(Run(requests), pairs)) <==> CleanlyMade(requests)
  {
    hide Run, CleanlyMade, KeyLine, Torn, Accepted;
    if CleanlyMade(requests) {
      TablesAgree(requests);
    } else {
      TablesAreDamaged(requests);
      forall pairs ensures !Holds(Run(requests), pairs) {
        if Holds(Run(requests), pairs) {
          NotDamaged(Run(requests), pairs);
        }
      }
    }
  }
}
