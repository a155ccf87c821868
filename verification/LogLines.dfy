/** Lines of a log file, which is a sequence of bytes that only ever grows. */
module LogLines {

  newtype Octet = b: int | 0 <= b < 256

  type Bytes = seq<Octet>

  const NEWLINE: Octet := 0x0a

  /** Whether a line answers the search; what it looks for is left open. */
  type Filter = Bytes -> bool

  /** The place of the last newline, or -1. */
  function LastNewline(s: Bytes): (k: int)
    ensures -1 <= k < |s|
    ensures k >= 0 ==> s[k] == NEWLINE
    ensures forall i :: k < i < |s| ==> s[i] != NEWLINE
  {
    if s == [] then -1
    else if s[|s| - 1] == NEWLINE then |s| - 1
    else LastNewline(s[..|s| - 1])
  }

  /** The line itself when it is not empty and matches, otherwise nothing. */
  function One(line: Bytes, keep: Filter): seq<Bytes> {
    if line != [] && keep(line) then [line] else []
  }

  /** The simple specification: split on newlines, drop empty lines, filter. */
  function Kept(s: Bytes, keep: Filter): seq<Bytes> {
    var k := LastNewline(s);
    if k == -1 then One(s, keep) else Kept(s[..k], keep) + One(s[k + 1..], keep)
  }

  lemma KeptEmpty(keep: Filter)
    ensures Kept([], keep) == []
  {}

  lemma KeptLine(s: Bytes, keep: Filter)
    requires NEWLINE !in s
    ensures Kept(s, keep) == One(s, keep)
  {}

  lemma KeptLastLine(s: Bytes, line: Bytes, keep: Filter)
    requires NEWLINE !in line
    ensures Kept(s + [NEWLINE] + line, keep) == Kept(s, keep) + One(line, keep)
  {
    hide One;
    var t := s + [NEWLINE] + line;
    assert t[|s|] == NEWLINE;
    assert LastNewline(t) == |s|;
    assert t[..|s|] == s && t[|s| + 1..] == line;
  }

  /** Any newline splits the work in two. */
  lemma {:induction false} KeptAtNewline(s: Bytes, t: Bytes, keep: Filter)
    ensures Kept(s + [NEWLINE] + t, keep) == Kept(s, keep) + Kept(t, keep)
    decreases |t|
  {
    hide Kept, One;
    var k := LastNewline(t);
    if k == -1 {
      KeptLine(t, keep);
      KeptLastLine(s, t, keep);
    } else {
      var t', line := t[..k], t[k + 1..];
      assert t == t' + [NEWLINE] + line;
      KeptAtNewline(s, t', keep);
      KeptLastLine(t', line, keep);
      KeptLastLine(s + [NEWLINE] + t', line, keep);
      assert s + [NEWLINE] + t == (s + [NEWLINE] + t') + [NEWLINE] + line;
    }
  }

  /** Two stretches meet cleanly when no line runs from one into the other. */
  predicate Clean(s: Bytes, t: Bytes) {
    s == [] || t == [] || s[|s| - 1] == NEWLINE || t[0] == NEWLINE
  }

  /** A cut that does not fall inside a line. */
  predicate CleanCut(s: Bytes, k: nat)
    requires k <= |s|
  {
    Clean(s[..k], s[k..])
  }

  /** What is kept, line by line: a text up to its first newline is a line, and what follows
      is the rest; the empty line and the line that does not match are left out. */
  lemma KeptLineByLine(line: Bytes, rest: Bytes, keep: Filter)
    requires NEWLINE !in line
    ensures Kept(line + [NEWLINE] + rest, keep) == (if line == [] || !keep(line) then [] else [line]) + Kept(rest, keep)
    ensures Kept(line, keep) == if line == [] || !keep(line) then [] else [line]
  {
    hide Kept;
    KeptAtNewline(line, rest, keep);
    KeptLine(line, keep);
  }


  lemma KeptConcat(s: Bytes, t: Bytes, keep: Filter)
    requires Clean(s, t)
    ensures Kept(s + t, keep) == Kept(s, keep) + Kept(t, keep)
  {
    hide Kept;
    KeptEmpty(keep);
    if s == [] {
      assert s + t == t;
    } else if t == [] {
      assert s + t == s;
    } else if s[|s| - 1] == NEWLINE {
      var s' := s[..|s| - 1];
      assert s + t == s' + [NEWLINE] + t && s == s' + [NEWLINE] + [];
      KeptAtNewline(s', t, keep);
      KeptAtNewline(s', [], keep);
    } else {
      var t' := t[1..];
      assert s + t == s + [NEWLINE] + t' && t == [] + [NEWLINE] + t';
      KeptAtNewline(s, t', keep);
      KeptAtNewline([], t', keep);
    }
  }

  lemma KeptAtCut(s: Bytes, k: nat, keep: Filter)
    requires k <= |s| && CleanCut(s, k)
    ensures Kept(s, keep) == Kept(s[..k], keep) + Kept(s[k..], keep)
  {
    hide Kept;
    KeptConcat(s[..k], s[k..], keep);
    assert s == s[..k] + s[k..];
  }

  /** Without a filter, cutting loses nothing exactly when the cut is clean: a cut
      inside a line makes two lines of it. */
  lemma CutIsExact(s: Bytes, t: Bytes)
    ensures Kept(s + t, _ => true) == Kept(s, _ => true) + Kept(t, _ => true) <==> Clean(s, t)
  {
    hide Kept;
    var all: Filter := _ => true;
    if Clean(s, t) {
      KeptConcat(s, t, all);
    } else {
      CutLine(s, t, all);
    }
  }

  /** The place of the first newline, or the length. */
  function FirstNewline(s: Bytes): (k: nat)
    ensures k <= |s|
    ensures k < |s| ==> s[k] == NEWLINE
    ensures forall i :: 0 <= i < k ==> s[i] != NEWLINE
  {
    if s == [] || s[0] == NEWLINE then 0 else 1 + FirstNewline(s[1..])
  }

  /** A line u + v with what comes before it and after it. */
  lemma CutParts(a: Bytes, u: Bytes, v: Bytes, b: Bytes, keep: Filter)
    requires (a == [] || a[|a| - 1] == NEWLINE) && (b == [] || b[0] == NEWLINE)
    requires u != [] && v != [] && NEWLINE !in u && NEWLINE !in v && forall line: Bytes :: keep(line)
    ensures |Kept((a + (u + v)) + b, keep)| + 1 == |Kept(a + u, keep)| + |Kept(v + b, keep)|
  {
    hide Kept;
    KeptConcat(a, u, keep);
    KeptConcat(v, b, keep);
    KeptConcat(a + (u + v), b, keep);
    KeptConcat(a, u + v, keep);
    KeptLine(u, keep);
    KeptLine(v, keep);
    KeptLine(u + v, keep);
  }

  lemma CutLine(s: Bytes, t: Bytes, keep: Filter)
    requires !Clean(s, t) && forall line: Bytes :: keep(line)
    ensures |Kept(s + t, keep)| + 1 == |Kept(s, keep)| + |Kept(t, keep)|
  {
    hide Kept, LastNewline, FirstNewline;
    // s ends with the beginning of a line, whose end begins t
    var i, j := LastNewline(s) + 1, FirstNewline(t);
    CutParts(s[..i], s[i..], t[..j], t[j..], keep);
    assert s == s[..i] + s[i..] && t == t[..j] + t[j..];
    assert s + t == (s[..i] + (s[i..] + t[..j])) + t[j..];
  }

  /** Filtering the lines afterwards is the same as filtering while splitting. */
  function Select(lines: seq<Bytes>, keep: Filter): seq<Bytes> {
    if lines == [] then [] else Select(lines[..|lines| - 1], keep) + (if keep(lines[|lines| - 1]) then [lines[|lines| - 1]] else [])
  }

  lemma {:induction false} SelectKept(s: Bytes, keep: Filter)
    ensures Select(Kept(s, _ => true), keep) == Kept(s, keep)
    decreases |s|
  {
    var k := LastNewline(s);
    if k >= 0 {
      SelectKept(s[..k], keep);
      SelectConcat(Kept(s[..k], _ => true), One(s[k + 1..], _ => true), keep);
    }
  }

  lemma {:induction false} SelectConcat(a: seq<Bytes>, b: seq<Bytes>, keep: Filter)
    ensures Select(a + b, keep) == Select(a, keep) + Select(b, keep)
  {
    if b == [] {
      assert a + b == a;
    } else {
      SelectConcat(a, b[..|b| - 1], keep);
      assert (a + b)[..|a + b| - 1] == a + b[..|b| - 1];
    }
  }
}
