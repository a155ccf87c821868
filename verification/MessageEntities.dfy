/** What decoding entities does to a line: it never joins or parts lines, it shortens every
    line it changes, and the marks of a line stay what they are. */
module MessageEntities {
  import opened Wrappers
  import opened Strings
  import opened MessageInline
  import opened MessageBlocks

  lemma EntityChars(e: nat)
    requires e < |ENTITIES|
    ensures |ENTITIES[e].0| >= 4 && ENTITIES[e].0[0] == '&' && '\n' !in ENTITIES[e].0
    ensures IsDot(ENTITIES[e].1)
  {}

  lemma {:induction false} SameEntity(a: string, b: string, k: nat)
    requires k <= |ENTITIES|
    requires forall e :: 0 <= e < |ENTITIES| ==> (ENTITIES[e].0 <= a <==> ENTITIES[e].0 <= b)
    ensures EntityAt(a, k) == EntityAt(b, k)
    decreases |ENTITIES| - k
  {
    if k < |ENTITIES| {
      SameEntity(a, b, k + 1);
    }
  }

  /** How far the first character of what is decoded reaches, and what it becomes. */
  lemma DecodeStep(s: string) returns (n: nat, c: char)
    requires s != ""
    ensures 1 <= n <= |s| && DecodeEntities(s) == [c] + DecodeEntities(s[n..])
    ensures var e := EntityAt(s, 0);
            if e < |ENTITIES| then n == |ENTITIES[e].0| >= 4 && c == ENTITIES[e].1 else n == 1 && c == s[0]
  {
    var e := EntityAt(s, 0);
    n, c := 1, s[0];
    if e < |ENTITIES| {
      EntityChars(e);
      n, c := |ENTITIES[e].0|, ENTITIES[e].1;
    }
  }

  lemma NoEntity(s: string)
    requires s != "" && s[0] != '&'
    ensures EntityAt(s, 0) == |ENTITIES|
    ensures DecodeEntities(s) == [s[0]] + DecodeEntities(s[1..])
  {
    hide DecodeEntities;
    forall e | 0 <= e < |ENTITIES| ensures !(ENTITIES[e].0 <= s) {
      EntityChars(e);
    }
    var n, c := DecodeStep(s);
  }

  lemma {:induction false} EntityIs(s: string, k: nat, e: nat)
    requires k <= e < |ENTITIES| && |s| >= 2 && ENTITIES[e].0 <= s
    requires forall i :: 0 <= i < |ENTITIES| && i != e ==> ENTITIES[i].0[1] != s[1]
    ensures EntityAt(s, k) == e
    decreases e - k
  {
    EntityChars(e);
    if k < e {
      EntityIs(s, k + 1, e);
    }
  }

  lemma DecodeFirst(name: string, c: char, rest: string)
    requires (name, c) in ENTITIES
    ensures DecodeEntities(name + rest) == [c] + DecodeEntities(rest)
  {
    hide DecodeEntities, EntityAt;
    var s := name + rest;
    var e :| 0 <= e < |ENTITIES| && ENTITIES[e] == (name, c);
    EntityChars(e);
    assert s[1] == name[1];
    EntityIs(s, 0, e);
    var n, d := DecodeStep(s);
    assert s[n..] == rest;
  }

  /** What each entity stands for. */
  lemma EntitiesDecoded(rest: string)
    ensures DecodeEntities("&nbsp;" + rest) == " " + DecodeEntities(rest)
    ensures DecodeEntities("&amp;" + rest) == "&" + DecodeEntities(rest)
    ensures DecodeEntities("&lt;" + rest) == "<" + DecodeEntities(rest)
    ensures DecodeEntities("&gt;" + rest) == ">" + DecodeEntities(rest)
    ensures DecodeEntities("&quot;" + rest) == "\"" + DecodeEntities(rest)
    ensures DecodeEntities("&#39;" + rest) == "'" + DecodeEntities(rest)
  {
    hide DecodeEntities;
    EntityTable();
    DecodeFirst("&nbsp;", ' ', rest);
    DecodeFirst("&amp;", '&', rest);
    DecodeFirst("&lt;", '<', rest);
    DecodeFirst("&gt;", '>', rest);
    DecodeFirst("&quot;", '"', rest);
    DecodeFirst("&#39;", '\'', rest);
  }

  lemma EntityTable()
    ensures ("&nbsp;", ' ') in ENTITIES && ("&amp;", '&') in ENTITIES && ("&lt;", '<') in ENTITIES
    ensures ("&gt;", '>') in ENTITIES && ("&quot;", '"') in ENTITIES && ("&#39;", '\'') in ENTITIES
  {
    assert ENTITIES[0] == ("&nbsp;", ' ') && ENTITIES[1] == ("&amp;", '&') && ENTITIES[2] == ("&lt;", '<');
    assert ENTITIES[3] == ("&gt;", '>') && ENTITIES[4] == ("&quot;", '"') && ENTITIES[5] == ("&#39;", '\'');
  }

  predicate BeginsEntity(s: string) {
    "&nbsp;" <= s || "&amp;" <= s || "&lt;" <= s || "&gt;" <= s || "&quot;" <= s || "&#39;" <= s
  }

  /** Any other character stays, an ampersand that begins none of them included. */
  lemma OthersStay(s: string)
    requires s != "" && !BeginsEntity(s)
    ensures DecodeEntities(s) == [s[0]] + DecodeEntities(s[1..])
  {
    hide DecodeEntities;
    var n, c := DecodeStep(s);
  }

  /** What holds no ampersand stays. */
  lemma {:induction false} DecodePlain(a: string, b: string)
    requires '&' !in a
    ensures DecodeEntities(a + b) == a + DecodeEntities(b)
  {
    hide DecodeEntities, EntityAt;
    if a == "" {
      assert a + b == b;
    } else {
      var c, rest := a[0], a[1..];
      assert a == [c] + rest;
      DecodePlain(rest, b);
      assert a + b == [c] + (rest + b);
      NoEntity([c] + (rest + b));
      assert ([c] + (rest + b))[1..] == rest + b;
      Regrouped([c], rest, DecodeEntities(b));
    }
  }

  lemma PrefixBeforeBreak(name: string, a: string, b: string)
    requires '\n' !in name
    ensures name <= a + "\n" + b <==> name <= a
  {
    var s := a + "\n" + b;
    assert s[|a|] == '\n';
    if name <= s {
      forall i | 0 <= i < |name| ensures s[i] != '\n' {
        assert name[i] == s[i];
      }
      assert name == s[..|name|] == a[..|name|];
    }
  }

  /** An entity at the front of a text that a line break follows. */
  lemma EntityBeforeBreak(a: string, b: string)
    ensures EntityAt(a + "\n" + b, 0) == EntityAt(a, 0)
  {
    hide EntityAt;
    var s := a + "\n" + b;
    forall e | 0 <= e < |ENTITIES| ensures ENTITIES[e].0 <= s <==> ENTITIES[e].0 <= a {
      EntityChars(e);
      PrefixBeforeBreak(ENTITIES[e].0, a, b);
    }
    SameEntity(s, a, 0);
  }

  /** Decoding keeps to the lines. */
  lemma {:induction false} DecodeBreak(a: string, b: string)
    ensures DecodeEntities(a + "\n" + b) == DecodeEntities(a) + "\n" + DecodeEntities(b)
    decreases |a|
  {
    hide EntityAt, DecodeEntities;
    var s := a + "\n" + b;
    EntityBeforeBreak(a, b);
    if a == "" {
      DecodePlainOnly(a);
      assert s == "\n" + b && "" + "\n" == "\n";
      DecodePlain("\n", b);
    } else {
      var n, c := DecodeStep(a);
      var k, d := DecodeStep(s);
      assert k == n && c == d;
      DecodeBreak(a[n..], b);
      RestAfter(a, b, n);
      Regrouped([c], DecodeEntities(a[n..]), "\n");
      Regrouped([c], DecodeEntities(a[n..]) + "\n", DecodeEntities(b));
    }
  }

  lemma RestAfter(a: string, b: string, n: nat)
    requires n <= |a|
    ensures (a + "\n" + b)[n..] == a[n..] + "\n" + b
  {}

  function Decoded(lines: seq<string>): (decoded: seq<string>)
    ensures |decoded| == |lines|
  {
    seq(|lines|, i requires 0 <= i < |lines| => DecodeEntities(lines[i]))
  }

  lemma {:induction false} DecodeJoined(lines: seq<string>)
    ensures DecodeEntities(JoinLines(lines)) == JoinLines(Decoded(lines))
  {
    hide DecodeEntities;
    if lines == [] {
      assert DecodeEntities("") == "" by { DecodePlainOnly(""); }
    } else if |lines| > 1 {
      DecodeJoined(lines[1..]);
      DecodeBreak(lines[0], JoinLines(lines[1..]));
      assert Decoded(lines)[1..] == Decoded(lines[1..]);
    }
  }

  lemma DecodePlainOnly(s: string)
    requires '&' !in s
    ensures DecodeEntities(s) == s
  {
    DecodePlain(s, "");
    assert s + "" == s && s + DecodeEntities("") == s;
  }

  lemma {:induction false} DecodeDots(s: string)
    requires AllDots(s)
    ensures AllDots(DecodeEntities(s))
    decreases |s|
  {
    hide EntityAt, IsDot, DecodeEntities;
    if s == "" {
      DecodePlainOnly(s);
    } else {
      var n, c := DecodeStep(s);
      DecodeDots(s[n..]);
      if EntityAt(s, 0) < |ENTITIES| {
        EntityChars(EntityAt(s, 0));
      }
    }
  }

  /** What is changed gets shorter. */
  lemma {:induction false} DecodeShortens(s: string)
    ensures DecodeEntities(s) != s ==> |DecodeEntities(s)| < |s|
    decreases |s|
  {
    hide EntityAt, DecodeEntities;
    if s == "" {
      DecodePlainOnly(s);
    } else {
      var n, c := DecodeStep(s);
      DecodeShortens(s[n..]);
      assert n == 1 ==> s == [c] + s[1..];
    }
  }

  // ----- lines without line breaks -----

  predicate AllLines(lines: seq<string>) { forall i :: 0 <= i < |lines| ==> AllDots(lines[i]) }

  lemma DecodedLines(lines: seq<string>)
    requires AllLines(lines)
    ensures AllLines(Decoded(lines))
  {
    hide AllDots;
    forall i | 0 <= i < |lines| ensures AllDots(Decoded(lines)[i]) {
      DecodeDots(lines[i]);
    }
  }

  lemma {:induction false} NormalizeNothing(s: string)
    requires '\r' !in s
    ensures NormalizeBreaks(s) == s
  {
    if s != "" {
      NormalizeNothing(s[1..]);
      assert s == [s[0]] + s[1..];
    }
  }

  lemma {:induction false} JoinedChars(lines: seq<string>)
    requires AllLines(lines)
    ensures '\r' !in JoinLines(lines)
  {
    if |lines| > 1 {
      JoinedChars(lines[1..]);
    }
  }

  /** Lines joined and split again are the lines. */
  lemma {:induction false} SplitJoined(lines: seq<string>)
    requires lines != [] && AllLines(lines)
    ensures SplitLines(JoinLines(lines)) == lines
  {
    hide Split;
    if |lines| == 1 {
      assert '\n' !in lines[0];
    } else {
      SplitJoined(lines[1..]);
      SplitPiece(lines[0], JoinLines(lines[1..]), '\n');
      assert ['\n'] == "\n";
      assert lines == [lines[0]] + lines[1..];
    }
  }

  /** Texts read as a message of their own are decoded once more. */
  lemma LinesOfTexts(texts: seq<string>)
    requires texts != [] && AllLines(texts)
    ensures LinesOf(JoinLines(texts)) == Decoded(texts)
    ensures DecodeEntities(JoinLines(texts)) == JoinLines(texts) <==> Decoded(texts) == texts
  {
    hide DecodeEntities, JoinLines, SplitLines, Decoded;
    DecodeJoined(texts);
    DecodedLines(texts);
    JoinedChars(Decoded(texts));
    NormalizeNothing(JoinLines(Decoded(texts)));
    SplitJoined(Decoded(texts));
    SplitJoined(texts);
  }
}
