/** What the message parser, the version tags and the key tables all do with text. */
module Strings {

  // ----- characters -----

  predicate IsDigit(c: char) { '0' <= c <= '9' }

  /** The characters `\s` stands for, and `trim` takes off. */
  predicate IsSpace(c: char) {
    || c in "\t\n\r " || c == '\U{000b}' || c == '\U{000c}' || c == '\U{00a0}' || c == '\U{1680}'
    || '\U{2000}' <= c <= '\U{200a}' || c == '\U{2028}' || c == '\U{2029}' || c == '\U{202f}'
    || c == '\U{205f}' || c == '\U{3000}' || c == '\U{feff}'
  }

  /** How many digits stand at the front. */
  function Digits(s: string): (k: nat)
    ensures k <= |s| && forall i :: 0 <= i < k ==> IsDigit(s[i])
  {
    if s != "" && IsDigit(s[0]) then 1 + Digits(s[1..]) else 0
  }

  // ----- joining -----

  lemma Regrouped(x: string, y: string, z: string)
    ensures x + y + z == x + (y + z)
  {}

  // ----- trimming -----

  function TrimStart(s: string): (t: string)
    ensures |t| <= |s|
  {
    if s != [] && IsSpace(s[0]) then TrimStart(s[1..]) else s
  }

  function TrimEnd(s: string): (t: string)
    ensures |t| <= |s|
  {
    if s != [] && IsSpace(s[|s| - 1]) then TrimEnd(s[..|s| - 1]) else s
  }

  function Trim(s: string): string { TrimEnd(TrimStart(s)) }

  lemma TrimClean(s: string)
    requires forall i :: 0 <= i < |s| ==> !IsSpace(s[i])
    ensures Trim(s) == s
  {}

  // ----- splitting -----

  /** The first place of `c`, or the length. */
  function IndexOf(s: string, c: char): (i: nat)
    ensures i <= |s| && (i < |s| ==> s[i] == c) && forall k :: 0 <= k < i ==> s[k] != c
  {
    if s == "" || s[0] == c then 0 else 1 + IndexOf(s[1..], c)
  }

  /** Nothing before the separator is the separator. */
  lemma FirstOf(a: string, b: string, c: char)
    requires c !in a
    ensures IndexOf(a + [c] + b, c) == |a|
  {
    var s := a + [c] + b;
    assert s[|a|] == c;
    forall k | 0 <= k < |a| ensures s[k] != c {
      assert s[k] == a[k];
    }
  }

  /** The pieces between the separators: one more than there are separators. */
  function Split(s: string, c: char): (parts: seq<string>)
    ensures |parts| >= 1 && (|parts| == 1 <==> c !in s)
    ensures forall i :: 0 <= i < |parts| ==> c !in parts[i]
    ensures c !in s ==> parts == [s]
  {
    if s == "" then [""]
    else
      assert s == [s[0]] + s[1..];
      var rest := Split(s[1..], c);
      if s[0] == c then [""] + rest else [[s[0]] + rest[0]] + rest[1..]
  }

  /** A text up to its first separator is the first piece. */
  lemma {:induction false} SplitPiece(a: string, b: string, c: char)
    requires c !in a
    ensures Split(a + [c] + b, c) == [a] + Split(b, c)
  {
    var s := a + [c] + b;
    if a == "" {
      assert s == [c] + b;
      assert s[1..] == b;
    } else {
      SplitPiece(a[1..], b, c);
      assert s[1..] == a[1..] + [c] + b;
      assert a == [a[0]] + a[1..];
    }
  }

  /** The pieces with a separator between each two. */
  function Joined(parts: seq<string>, c: char): string {
    if parts == [] then "" else if |parts| == 1 then parts[0] else parts[0] + [c] + Joined(parts[1..], c)
  }

  /** Pieces without the separator are what their joined text splits into, and no others. */
  lemma {:induction false} SplitOfJoined(parts: seq<string>, c: char)
    requires parts != [] && forall i :: 0 <= i < |parts| ==> c !in parts[i]
    ensures Split(Joined(parts, c), c) == parts
  {
    hide Split;
    if |parts| > 1 {
      SplitOfJoined(parts[1..], c);
      SplitPiece(parts[0], Joined(parts[1..], c), c);
      assert parts == [parts[0]] + parts[1..];
    } else {
      assert parts == [parts[0]];
    }
  }

  lemma {:induction false} JoinedOfSplit(s: string, c: char)
    ensures Joined(Split(s, c), c) == s
    decreases |s|
  {
    hide Split;
    var i := IndexOf(s, c);
    if i == |s| {
      assert c !in s;
    } else {
      var a, b := s[..i], s[i + 1..];
      assert s == a + [c] + b && c !in a;
      SplitPiece(a, b, c);
      JoinedOfSplit(b, c);
      assert ([a] + Split(b, c))[1..] == Split(b, c);
    }
  }

  /** The second piece begins where the text goes on after the first separator. */
  lemma SecondPiece(a: string, b: string, c: char)
    requires c !in a && b != "" && b[0] != c
    ensures var parts := Split(a + [c] + b, c); |parts| >= 2 && parts[1] != "" && parts[1][0] == b[0]
  {
    SplitPiece(a, b, c);
  }
}
