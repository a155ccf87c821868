/** The service that reads a log: `Tail` reads the file backwards in chunks, `Follow`
    hands out what was appended since the last call. */
module LogService {
  import opened Wrappers
  import opened LogLines

  datatype Service = Postfix | Dovecot

  datatype Window = Window(lines: seq<Bytes>, size: nat, start: nat, truncated: bool)

  datatype Frame = Frame(first: nat, last: nat, lines: seq<Bytes>)

  function Reverse(s: seq<Bytes>): (r: seq<Bytes>)
    ensures |r| == |s|
  {
    if s == [] then [] else [s[|s| - 1]] + Reverse(s[..|s| - 1])
  }

  lemma ReverseSnoc(s: seq<Bytes>, x: Bytes)
    ensures Reverse(s + [x]) == [x] + Reverse(s)
  {
    assert (s + [x])[..|s|] == s;
  }

  // ----- what an answer to `tail` promises -----

  /** The place just before byte `k` is not inside a line of the first `top` bytes. */
  predicate Boundary(file: Bytes, k: nat, top: nat)
    requires k <= top <= |file|
  {
    CleanCut(file[..top], k)
  }

  /** A line break, or the end. */
  predicate AtBreak(file: Bytes, top: nat, k: nat) { k <= top <= |file| && (k < top ==> file[k] == NEWLINE) }

  /** The line that begins at `start`, to its end. */
  predicate LineAt(file: Bytes, top: nat, start: nat, line: Bytes) {
    AtBreak(file, top, start + |line|) && file[start..start + |line|] == line
  }

  /** How many bytes are read in whole chunks before the scan limit stops the reading. */
  function Span(chunk: nat, scanLimit: nat): nat
    requires chunk >= 1
  {
    (scanLimit + chunk - 1) / chunk * chunk
  }

  /** The lines are the matching lines of the bytes from `start` up to `top`, cut cleanly.
      When they are as many as wanted, `start` is where the first one begins. When they are
      fewer, all bytes were read, or the last `span` ones, whose first line break, if they
      hold any, is at `start`. */
  ghost predicate Answers(file: Bytes, keep: Filter, wanted: nat, span: nat, top: nat, lines: seq<Bytes>, start: nat) {
    && start <= top <= |file| && Boundary(file, start, top)
    && lines == Kept(file[start..top], keep)
    && |lines| <= wanted
    && (|lines| == wanted && wanted > 0 ==>
          LineAt(file, top, start, lines[0]) && if start == 0 then top <= span else top - span < start && file[start - 1] == NEWLINE)
    && (|lines| < wanted ==> if top <= span then start == 0 else Exhausted(file, top - span, top, start))
  }

  /** The bytes from `position` on hold no line break before `start`, and one at it. */
  predicate Exhausted(file: Bytes, position: nat, top: nat, start: nat)
    requires top <= |file|
  {
    position <= start <= top && NEWLINE !in file[position..start] && AtBreak(file, top, start)
  }

  // ----- the backward reader -----

  /** Where the reading stands: everything from `edge` up to `top` has been searched. */
  ghost predicate Searched(file: Bytes, keep: Filter, top: nat, edge: nat, found: seq<Bytes>) {
    && edge <= top <= |file| && Boundary(file, edge, top)
    && Reverse(found) == Kept(file[edge..top], keep)
  }

  /** The search stopped on a line, the first of the answer, that begins at `start`. */
  ghost predicate Stopped(file: Bytes, keep: Filter, top: nat, start: nat, found: seq<Bytes>) {
    && Searched(file, keep, top, start, found)
    && found != [] && LineAt(file, top, start, found[|found| - 1])
  }

  /** It stopped after a line break that lies at `position` or above. */
  ghost predicate StoppedIn(file: Bytes, keep: Filter, top: nat, position: nat, start: nat, found: seq<Bytes>) {
    Stopped(file, keep, top, start, found) && position < start <= |file| && file[start - 1] == NEWLINE
  }

  /** The search goes on below `position`, with the beginning of a line in hand. */
  ghost predicate Reading(file: Bytes, keep: Filter, top: nat, position: nat, carry: Bytes, start: nat, found: seq<Bytes>) {
    && position + |carry| == start <= |file|
    && NEWLINE !in carry && carry == file[position..start]
    && Searched(file, keep, top, start, found) && AtBreak(file, top, start)
  }

  lemma SearchLine(file: Bytes, keep: Filter, top: nat, edge: nat, newline: nat, found: seq<Bytes>)
    requires Searched(file, keep, top, edge, found) && AtBreak(file, top, edge)
    requires newline < edge && file[newline] == NEWLINE && NEWLINE !in file[newline + 1..edge]
    ensures var line := file[newline + 1..edge];
            var found' := if line != [] && keep(line) then found + [line] else found;
            && Searched(file, keep, top, newline, found') && AtBreak(file, top, newline)
            && (found' != found ==> Stopped(file, keep, top, newline + 1, found'))
  {
    hide Kept, Reverse;
    var line, tail := file[newline + 1..edge], file[edge..top];
    var found' := if line != [] && keep(line) then found + [line] else found;
    CleanFromEdge(file, newline + 1, edge, top);
    KeptConcat(line, tail, keep);
    KeptLine(line, keep);
    ReverseSnoc(found, line);
    assert file[newline + 1..top] == line + tail;
    assert Reverse(found') == Kept(file[newline + 1..top], keep);
    assert file[newline..top] == [] + [NEWLINE] + file[newline + 1..top];
    KeptAtNewline([], file[newline + 1..top], keep);
    KeptEmpty(keep);
    BoundaryAt(file, newline, top);
  }

  lemma BoundaryAt(file: Bytes, newline: nat, top: nat)
    requires newline < top <= |file| && file[newline] == NEWLINE
    ensures Boundary(file, newline, top) && Boundary(file, newline + 1, top)
  {}

  lemma CleanFromEdge(file: Bytes, k: nat, edge: nat, top: nat)
    requires k <= edge <= top <= |file| && Boundary(file, edge, top)
    ensures Clean(file[k..edge], file[edge..top])
  {
    assert file[..top][..edge] == file[..edge] && file[..top][edge..] == file[edge..top];
  }

  lemma SearchFirstLine(file: Bytes, keep: Filter, top: nat, edge: nat, found: seq<Bytes>)
    requires Searched(file, keep, top, edge, found) && AtBreak(file, top, edge) && NEWLINE !in file[..edge]
    ensures var line := file[..edge];
            var found' := if line != [] && keep(line) then found + [line] else found;
            && Searched(file, keep, top, 0, found')
            && (found' != found ==> Stopped(file, keep, top, 0, found'))
  {
    hide Kept, Reverse;
    var line, tail := file[..edge], file[edge..top];
    CleanFromEdge(file, 0, edge, top);
    KeptConcat(line, tail, keep);
    KeptLine(line, keep);
    ReverseSnoc(found, line);
    assert file[0..top] == line + tail;
  }

  // ----- the follower -----

  /** `split("\n")`: one piece more than there are newlines. */
  function Split(s: Bytes): (pieces: seq<Bytes>)
    ensures |pieces| >= 1
  {
    var k := LastNewline(s);
    if k == -1 then [s] else Split(s[..k]) + [s[k + 1..]]
  }

  function NonEmpty(lines: seq<Bytes>): seq<Bytes> {
    if lines == [] then []
    else NonEmpty(lines[..|lines| - 1]) + if lines[|lines| - 1] != [] then [lines[|lines| - 1]] else []
  }

  function Known(offsets: map<Service, nat>, service: Service): Option<nat> {
    if service in offsets then Some(offsets[service]) else None
  }

  /** One call of `Follow`: the frame it hands out and the offset it leaves. */
  function FollowStep(known: Option<nat>, file: Bytes, limit: nat): (Frame, nat) {
    if known.None? || |file| <= known.value then (Frame(|file|, |file|, []), |file|)
    else
      var offset := known.value;
      var start := if |file| - limit > offset then |file| - limit else offset;
      var end := LastNewline(file[start..]);
      if end == -1 then (Frame(offset, offset, []), offset)
      else
        var pieces := Split(file[start..][..end]);
        (Frame(offset, start + end + 1, NonEmpty(if start > offset then pieces[1..] else pieces)), start + end + 1)
  }

  class MailLogs {
    const chunk: nat
    const scanLimit: nat
    const followLimit: nat
    var offsets: map<Service, nat>

    ghost predicate Valid() { chunk >= 1 && scanLimit >= 1 && followLimit >= 1 }

    constructor (chunk: nat, scanLimit: nat, followLimit: nat)
      requires chunk >= 1 && scanLimit >= 1 && followLimit >= 1
      ensures Valid() && offsets == map[]
      ensures this.chunk == chunk && this.scanLimit == scanLimit && this.followLimit == followLimit
    {
      this.chunk, this.scanLimit, this.followLimit := chunk, scanLimit, followLimit;
      offsets := map[];
    }

    /** The bytes appended since the last call, as far as their last line break; the
        offset of the service is where the next call begins. */
    method Follow(service: Service, content: Option<Bytes>) returns (f: Frame)
      requires Valid()
      modifies this`offsets
      ensures var file := if content.Some? then content.value else [];
              var step := FollowStep(Known(old(offsets), service), file, followLimit);
              f == step.0 && offsets == old(offsets)[service := step.1]
    {
      hide Split, NonEmpty, LastNewline;
      var file := if content.Some? then content.value else [];
      var size := |file|;
      if service !in offsets || size <= offsets[service] {
        offsets := offsets[service := size];
        return Frame(size, size, []);
      }
      var offset := offsets[service];
      assert Known(offsets, service) == Some(offset) && offset < size;
      var start: nat := if size - followLimit > offset then size - followLimit else offset;
      var buffer := file[start..size];
      assert buffer == file[start..];
      var end := LastNewline(buffer);
      if end == -1 {
        assert offsets[service := offset] == offsets;
        return Frame(offset, offset, []);
      }
      var lines := Split(buffer[..end]);
      if start > offset {
        lines := lines[1..];
      }
      var last := start + end + 1;
      offsets := offsets[service := last];
      f := Frame(offset, last, NonEmpty(lines));
    }

    /** The lines of one chunk, from its end; stops when enough are found. */
    method SearchChunk(combined: Bytes, keep: Filter, wanted: nat, found: seq<Bytes>, position: nat, start: nat,
                       ghost file: Bytes, ghost top: nat)
      returns (found': seq<Bytes>, start': nat, carry: Bytes)
      requires position + |combined| <= |file| && combined == file[position..position + |combined|]
      requires |found| < wanted && Searched(file, keep, top, position + |combined|, found)
      requires AtBreak(file, top, position + |combined|)
      ensures |found'| <= wanted
      ensures |found'| < wanted ==> Reading(file, keep, top, position, carry, start', found')
      ensures |found'| == wanted ==> StoppedIn(file, keep, top, position, start', found')
    {
      hide Searched, Stopped, AtBreak, Reading, LastNewline, NextBreak, StoppedIn;
      found', start' := found, start;
      var end := |combined|;
      var newline := LastNewline(combined[..end]);
      LastBreak(combined, end);
      while newline != -1 && |found'| < wanted
        invariant end <= |combined|
        invariant if end == 0 then newline == -1 else -1 <= newline < end && NextBreak(combined, end, newline)
        invariant |found'| <= wanted
        invariant Searched(file, keep, top, position + end, found') && AtBreak(file, top, position + end)
        invariant |found'| == wanted ==> StoppedIn(file, keep, top, position, start', found')
        decreases end
      {
        var line := combined[newline + 1..end];
        SearchStep(file, keep, top, position, combined, end, newline, found');
        start' := position + newline + 1;
        if line != [] && keep(line) {
          found' := found' + [line];
        }
        end := newline;
        newline := if end > 0 then LastNewline(combined[..end]) else -1;
        LastBreak(combined, end);
      }
      carry := combined[..end];
      if |found'| < wanted && newline == -1 {
        start' := position + end;
        SearchRest(file, keep, top, position, combined, end, found');
      }
    }

    /** Chunk after chunk backwards, until enough is found, read, or nothing is left. */
    method ReadBack(file: Bytes, keep: Filter, wanted: nat, top: nat)
      returns (found: seq<Bytes>, start: nat, carry: Bytes, position: nat)
      requires Valid() && wanted >= 1 && top <= |file|
      ensures |found| <= wanted && position <= top
      ensures top - Span(chunk, scanLimit) <= position
      ensures |found| == wanted ==> StoppedIn(file, keep, top, position, start, found)
      ensures |found| < wanted ==>
        && Reading(file, keep, top, position, carry, start, found)
        && (position == 0 || position == top - Span(chunk, scanLimit))
    {
      hide Searched, StoppedIn, Span;
      position, found, carry, start := top, [], [], top;
      var scanned := 0;
      ghost var chunks := 0;
      NothingSearched(file, keep, top);
      while position > 0 && |found| < wanted && scanned < scanLimit
        invariant 0 <= position <= top && scanned == top - position
        invariant scanned <= Span(chunk, scanLimit) && (position > 0 ==> scanned == chunks * chunk)
        invariant |found| <= wanted
        invariant |found| < wanted ==> Reading(file, keep, top, position, carry, start, found)
        invariant |found| == wanted ==> StoppedIn(file, keep, top, position, start, found)
      {
        SpanHolds(chunk, scanLimit, chunks);
        var length: nat := if chunk < position then chunk else position;
        position := position - length;
        scanned := scanned + length;
        chunks := chunks + 1;
        var combined := file[position..position + length] + carry;
        assert combined == file[position..start];
        found, start, carry := SearchChunk(combined, keep, wanted, found, position, start, file, top);
      }
      if position > 0 && |found| < wanted {
        SpanEnds(chunk, scanLimit, chunks);
      }
    }

    /** The last `wanted` matching lines before byte `before`, and where they start. */
    method Tail(content: Option<Bytes>, keep: Filter, wanted: nat, before: Option<nat>) returns (w: Window)
      requires Valid() && wanted >= 1
      ensures content.None? ==> w == Window([], 0, 0, false)
      ensures content.Some? ==>
        var file := content.value;
        var top := if before.Some? && before.value < |file| then before.value else |file|;
        && w.size == |file|
        && Answers(file, keep, wanted, Span(chunk, scanLimit), top, w.lines, w.start)
        && (w.truncated <==> w.start > 0 && |w.lines| < wanted)
    {
      if content.None? {
        return Window([], 0, 0, false);
      }
      hide Searched, StoppedIn, Reading, Answers, Span;
      var file := content.value;
      var size := |file|;
      var top: nat := if before.Some? && before.value < size then before.value else size;
      var found, start, carry, position := ReadBack(file, keep, wanted, top);
      if |found| == wanted {
        StoppedAnswers(file, keep, wanted, Span(chunk, scanLimit), top, position, start, found);
      } else if position == 0 {
        WholeAnswers(file, keep, wanted, Span(chunk, scanLimit), top, carry, start, found);
      } else {
        ExhaustedAnswers(file, keep, wanted, Span(chunk, scanLimit), top, position, carry, start, found);
      }
      if position == 0 && |found| < wanted && carry != [] {
        if keep(carry) {
          found := found + [carry];
        }
        start := 0;
      }
      var lines := ReverseLines(found);
      w := Window(lines, size, start, start > 0 && |found| < wanted);
    }
  }

  /** The last line break before `end`, if there is one. */
  predicate NextBreak(combined: Bytes, end: nat, newline: int) {
    && -1 <= newline < end <= |combined|
    && (newline >= 0 ==> combined[newline] == NEWLINE) && NEWLINE !in combined[newline + 1..end]
  }

  lemma LastBreak(combined: Bytes, end: nat)
    requires end <= |combined|
    ensures end > 0 ==> NextBreak(combined, end, LastNewline(combined[..end]))
  {
    var k := LastNewline(combined[..end]);
    assert combined[..end][k + 1..] == combined[k + 1..end];
  }

  lemma SearchStep(file: Bytes, keep: Filter, top: nat, position: nat, combined: Bytes, end: nat, newline: nat, found: seq<Bytes>)
    requires position + |combined| <= |file| && combined == file[position..position + |combined|]
    requires end <= |combined| && NextBreak(combined, end, newline)
    requires Searched(file, keep, top, position + end, found) && AtBreak(file, top, position + end)
    ensures var line := combined[newline + 1..end];
            var found' := if line != [] && keep(line) then found + [line] else found;
            && Searched(file, keep, top, position + newline, found') && AtBreak(file, top, position + newline)
            && (found' != found ==> StoppedIn(file, keep, top, position, position + newline + 1, found'))
  {
    hide Searched, Stopped, AtBreak;
    SliceOfSlice(file, position, combined, newline + 1, end);
    ElementOfSlice(file, position, combined, newline);
    SearchLine(file, keep, top, position + end, position + newline, found);
  }

  lemma SearchRest(file: Bytes, keep: Filter, top: nat, position: nat, combined: Bytes, end: nat, found: seq<Bytes>)
    requires position + |combined| <= |file| && combined == file[position..position + |combined|]
    requires end <= |combined| && (end > 0 ==> NextBreak(combined, end, -1))
    requires Searched(file, keep, top, position + end, found) && AtBreak(file, top, position + end)
    ensures Reading(file, keep, top, position, combined[..end], position + end, found)
  {
    hide Searched, AtBreak;
    SliceOfSlice(file, position, combined, 0, end);
  }

  lemma ElementOfSlice(file: Bytes, position: nat, combined: Bytes, k: nat)
    requires position + |combined| <= |file| && combined == file[position..position + |combined|]
    requires k < |combined|
    ensures file[position + k] == combined[k]
  {}

  lemma SliceOfSlice(file: Bytes, position: nat, combined: Bytes, i: nat, j: nat)
    requires position + |combined| <= |file| && combined == file[position..position + |combined|]
    requires i <= j <= |combined|
    ensures combined[i..j] == file[position + i..position + j]
  {
    forall k | 0 <= k < j - i ensures combined[i..j][k] == file[position + i..position + j][k] {
      assert combined[i + k] == file[position..position + |combined|][i + k];
    }
  }

  /** Full chunks below the limit leave room for one more. */
  lemma SpanHolds(chunk: nat, limit: nat, chunks: nat)
    requires chunk >= 1 && chunks * chunk < limit
    ensures chunks * chunk + chunk == (chunks + 1) * chunk <= Span(chunk, limit)
  {
    var q := (limit + chunk - 1) / chunk;
    RoundedUp(limit, chunk);
    if q <= chunks {
      TimesMonotone(q, chunks, chunk);
    }
    TimesMonotone(chunks + 1, q, chunk);
  }

  /** Full chunks at the limit are all that is read. */
  lemma SpanEnds(chunk: nat, limit: nat, chunks: nat)
    requires chunk >= 1 && limit <= chunks * chunk <= Span(chunk, limit)
    ensures chunks * chunk == Span(chunk, limit)
  {
    var q := (limit + chunk - 1) / chunk;
    RoundedUp(limit, chunk);
    if chunks < q {
      TimesMonotone(chunks, q - 1, chunk);
    }
  }

  lemma RoundedUp(limit: nat, chunk: nat)
    requires chunk >= 1
    ensures var q := (limit + chunk - 1) / chunk;
            limit <= q * chunk && (q >= 1 ==> (q - 1) * chunk < limit)
  {
    var q, r := (limit + chunk - 1) / chunk, (limit + chunk - 1) % chunk;
    assert limit + chunk - 1 == q * chunk + r;
    assert (q - 1) * chunk == q * chunk - chunk;
  }

  lemma TimesMonotone(a: nat, b: nat, c: nat)
    ensures a <= b ==> a * c <= b * c
  {}

  lemma AnswerFound(file: Bytes, keep: Filter, wanted: nat, span: nat, top: nat, position: nat, start: nat, found: seq<Bytes>)
    requires wanted >= 1 && position <= top && top - span <= position && |found| <= wanted
    requires |found| < wanted ==>
      && Searched(file, keep, top, start, found)
      && if position == 0 then start == 0
         else position == top - span && position <= start && NEWLINE !in file[position..start] && AtBreak(file, top, start)
    requires |found| == wanted ==>
      && Stopped(file, keep, top, start, found)
      && if start == 0 then position == 0 else position < start && file[start - 1] == NEWLINE
    ensures Answers(file, keep, wanted, span, top, Reverse(found), start)
  {
    hide Kept, Boundary, LineAt, Reverse;
    LastFoundIsFirst(found);
  }

  /** Enough lines were found in the chunks. */
  lemma StoppedAnswers(file: Bytes, keep: Filter, wanted: nat, span: nat, top: nat, position: nat, start: nat, found: seq<Bytes>)
    requires wanted >= 1 && position <= top && top - span <= position && |found| == wanted
    requires StoppedIn(file, keep, top, position, start, found)
    ensures Answers(file, keep, wanted, span, top, Reverse(found), start)
  {
    hide Searched, Answers, Stopped, Reverse;
    AnswerFound(file, keep, wanted, span, top, position, start, found);
  }

  /** The limit stopped the reading. */
  lemma ExhaustedAnswers(file: Bytes, keep: Filter, wanted: nat, span: nat, top: nat, position: nat, carry: Bytes,
                         start: nat, found: seq<Bytes>)
    requires wanted >= 1 && 0 < position <= top && position == top - span && |found| < wanted
    requires Reading(file, keep, top, position, carry, start, found)
    ensures Answers(file, keep, wanted, span, top, Reverse(found), start)
  {
    hide Searched, Answers, Reverse;
    AnswerFound(file, keep, wanted, span, top, position, start, found);
  }

  /** All bytes were read: what is carried is the first line of the file. */
  lemma WholeAnswers(file: Bytes, keep: Filter, wanted: nat, span: nat, top: nat, carry: Bytes, start: nat, found: seq<Bytes>)
    requires wanted >= 1 && top <= span && |found| < wanted
    requires Reading(file, keep, top, 0, carry, start, found)
    ensures var found' := if carry != [] && keep(carry) then found + [carry] else found;
            Answers(file, keep, wanted, span, top, Reverse(found'), 0)
    ensures carry == [] ==> start == 0
  {
    hide Searched, Stopped, Answers, Reverse;
    assert carry == file[..start];
    SearchFirstLine(file, keep, top, start, found);
    var found' := if carry != [] && keep(carry) then found + [carry] else found;
    AnswerFound(file, keep, wanted, span, top, 0, 0, found');
  }

  method ReverseLines(s: seq<Bytes>) returns (r: seq<Bytes>)
    ensures r == Reverse(s)
  {
    r := [];
    for i := 0 to |s|
      invariant r == Reverse(s[..i])
    {
      ReverseSnoc(s[..i], s[i]);
      assert s[..i + 1] == s[..i] + [s[i]];
      r := [s[i]] + r;
    }
    assert s[..|s|] == s;
  }

  lemma LastFoundIsFirst(s: seq<Bytes>)
    ensures s != [] ==> Reverse(s)[0] == s[|s| - 1]
  {}

  lemma NothingSearched(file: Bytes, keep: Filter, top: nat)
    requires top <= |file|
    ensures Searched(file, keep, top, top, [])
  {}

  // ----- what an answer of `tail` means -----

  /** The last `n` of a sequence. */
  function LastOf(s: seq<Bytes>, n: nat): seq<Bytes> {
    if |s| <= n then s else s[|s| - n..]
  }

  lemma AnswerIsSuffix(file: Bytes, keep: Filter, wanted: nat, span: nat, top: nat, lines: seq<Bytes>, start: nat)
    requires Answers(file, keep, wanted, span, top, lines, start)
    ensures Kept(file[..top], keep) == Kept(file[..start], keep) + lines
  {
    hide Kept;
    KeptAtCut(file[..top], start, keep);
    assert file[..top][..start] == file[..start] && file[..top][start..] == file[start..top];
  }

  /** The answer is the last `wanted` matching lines exactly when it has that many, or
      when no matching line is left before where it starts. It is so in particular
      whenever the scan limit did not stop the reading. */
  lemma AnswerIsTheLastLines(file: Bytes, keep: Filter, wanted: nat, span: nat, top: nat, lines: seq<Bytes>, start: nat)
    requires Answers(file, keep, wanted, span, top, lines, start)
    ensures lines == LastOf(Kept(file[..top], keep), wanted)
       <==> |lines| == wanted || Kept(file[..start], keep) == []
    ensures start == 0 || top <= span ==> lines == LastOf(Kept(file[..top], keep), wanted)
  {
    hide Kept;
    AnswerIsSuffix(file, keep, wanted, span, top, lines, start);
    KeptEmpty(keep);
  }

  /** An answer that starts below the end starts at a line break that was read, or after one. */
  lemma BreakBefore(file: Bytes, keep: Filter, wanted: nat, span: nat, top: nat, lines: seq<Bytes>, start: nat, end: nat)
    requires wanted >= 1 && Answers(file, keep, wanted, span, top, lines, start)
    requires start < end <= top && span < top
    ensures NEWLINE in file[top - span..end]
  {
    hide Kept;
    var k := if |lines| == wanted then start - 1 else start;
    assert file[top - span..end][k - (top - span)] == NEWLINE;
  }

  /** Asking again from where an answer starts gets on, exactly unless there is nothing left
      or the last bytes the limit allows, read in whole chunks, hold no line break while
      more come before them. */
  lemma AnswerProgressesIff(file: Bytes, keep: Filter, wanted: nat, span: nat, top: nat, lines: seq<Bytes>, start: nat)
    requires Answers(file, keep, wanted, span, top, lines, start) && wanted >= 1
    ensures start < top <==> top > 0 && (top <= span || NEWLINE in file[top - span..top])
  {
    hide Kept;
    KeptEmpty(keep);
    if start == top {
      assert file[start..top] == [];
    } else if top > span {
      BreakBefore(file, keep, wanted, span, top, lines, start, top);
    }
  }

  lemma {:induction false} KeptAreLines(s: Bytes, keep: Filter)
    ensures forall i :: 0 <= i < |Kept(s, keep)| ==>
      var line := Kept(s, keep)[i]; line != [] && keep(line) && NEWLINE !in line
    decreases |s|
  {
    var k := LastNewline(s);
    if k >= 0 {
      KeptAreLines(s[..k], keep);
    }
  }

  /** A stretch that begins with a kept line, and ends later, keeps it. */
  lemma FirstLineIsKept(s: Bytes, line: Bytes, keep: Filter)
    requires line != [] && keep(line) && NEWLINE !in line
    requires |line| < |s| && s[..|line|] == line && s[|line|] == NEWLINE
    ensures Kept(s, keep) != []
  {
    hide Kept;
    assert s == line + [NEWLINE] + s[|line| + 1..];
    KeptAtNewline(line, s[|line| + 1..], keep);
    KeptLine(line, keep);
  }

  /** What is asked settles where the answer starts. */
  lemma StartIsNotLater(file: Bytes, keep: Filter, wanted: nat, span: nat, top: nat,
                        lines: seq<Bytes>, start: nat, others: seq<Bytes>, other: nat)
    requires wanted >= 1
    requires Answers(file, keep, wanted, span, top, lines, start) && Answers(file, keep, wanted, span, top, others, other)
    ensures other <= start
  {
    hide Kept;
    if start < other {
      if |others| < wanted {
        if top > span {
          BreakBefore(file, keep, wanted, span, top, lines, start, other);
        }
      } else {
        // the bytes in between would hold the first line of the one answer, and no line for the other
        var a, b := file[start..other], file[other..top];
        CleanFromEdge(file, start, other, top);
        KeptConcat(a, b, keep);
        assert file[start..top] == a + b;
        KeptAreLines(a + b, keep);
        var line := lines[0];
        assert a[|a| - 1] == NEWLINE;
        LineInside(file, start, other, top, line);
        FirstLineIsKept(a, line, keep);
      }
    }
  }

  lemma LineInside(file: Bytes, start: nat, other: nat, top: nat, line: Bytes)
    requires start < other <= top <= |file| && file[other - 1] == NEWLINE
    requires LineAt(file, top, start, line) && NEWLINE !in line
    ensures var a := file[start..other]; |line| < |a| && a[..|line|] == line && a[|line|] == NEWLINE
  {
    var a := file[start..other];
    forall j | start <= j < start + |line| ensures file[j] != NEWLINE {
      assert file[start..start + |line|][j - start] == line[j - start];
    }
  }

  /** What is asked settles the answer. */
  lemma AnswerIsUnique(file: Bytes, keep: Filter, wanted: nat, span: nat, top: nat,
                       lines: seq<Bytes>, start: nat, others: seq<Bytes>, other: nat)
    requires wanted >= 1
    requires Answers(file, keep, wanted, span, top, lines, start) && Answers(file, keep, wanted, span, top, others, other)
    ensures lines == others && start == other
  {
    StartIsNotLater(file, keep, wanted, span, top, lines, start, others, other);
    StartIsNotLater(file, keep, wanted, span, top, others, other, lines, start);
  }

  // ----- paging -----

  datatype Page = Page(file: Bytes, top: nat, lines: seq<Bytes>, start: nat)

  /** Pages asked for one after the other, each with the start of the one before, while
      the file grows. */
  ghost predicate Paged(pages: seq<Page>, keep: Filter, wanted: nat, span: nat) {
    && (forall i :: 0 <= i < |pages| ==>
          Answers(pages[i].file, keep, wanted, span, pages[i].top, pages[i].lines, pages[i].start))
    && (forall i :: 0 < i < |pages| ==>
          pages[i].top == pages[i - 1].start && pages[i - 1].file <= pages[i].file)
  }

  /** The pages put together, the last one asked for first. */
  function Joined(pages: seq<Page>): seq<Bytes> {
    if pages == [] then [] else pages[|pages| - 1].lines + Joined(pages[..|pages| - 1])
  }

  /** However many pages were read, together they are the matching lines from the start
      of the last one: none lost, repeated or split. */
  lemma {:induction false} PagesAreExact(pages: seq<Page>, keep: Filter, wanted: nat, span: nat)
    requires pages != [] && Paged(pages, keep, wanted, span)
    ensures var first, last := pages[0], pages[|pages| - 1];
            && first.file <= last.file && last.start <= first.top <= |first.file|
            && Boundary(first.file, last.start, first.top)
            && Joined(pages) == Kept(first.file[last.start..first.top], keep)
  {
    hide Kept, Boundary, LineAt, Exhausted;
    if |pages| == 1 {
      assert Joined(pages[..0]) == [];
      assert Joined(pages) == pages[0].lines;
    } else {
      var init, last := pages[..|pages| - 1], pages[|pages| - 1];
      PagesAreExact(init, keep, wanted, span);
      var first, previous := pages[0], pages[|pages| - 2];
      assert init[|init| - 1] == previous && init[0] == first;
      assert last.top == previous.start && previous.file <= last.file;
      JoinPage(first.file, last.file, last.start, last.top, first.top, keep);
    }
  }

  lemma JoinPage(file: Bytes, grown: Bytes, a: nat, b: nat, c: nat, keep: Filter)
    requires file <= grown && a <= b <= c <= |file|
    requires Boundary(grown, a, b) && Boundary(file, b, c)
    ensures Boundary(file, a, c)
    ensures Kept(grown[a..b], keep) + Kept(file[b..c], keep) == Kept(file[a..c], keep)
  {
    hide Kept;
    assert grown[a..b] == file[a..b] && grown[..b] == file[..b];
    CleanFromEdge(file, a, b, c);
    KeptConcat(file[a..b], file[b..c], keep);
    assert file[a..c] == file[a..b] + file[b..c];
    BoundaryWithin(file, a, b, c);
  }

  lemma BoundaryWithin(file: Bytes, a: nat, b: nat, c: nat)
    requires a <= b <= c <= |file| && Boundary(file, a, b) && Boundary(file, b, c)
    ensures Boundary(file, a, c)
  {
    assert file[..b][..a] == file[..c][..a];
    if 0 < a < b {
      assert file[..b][a..][0] == file[a] == file[..c][a..][0];
    }
  }

  /** Once a page starts at 0 the pages together are all matching lines of the bytes the
      first one was asked about. */
  lemma PagesAreComplete(pages: seq<Page>, keep: Filter, wanted: nat, span: nat)
    requires pages != [] && Paged(pages, keep, wanted, span) && pages[|pages| - 1].start == 0
    ensures pages[0].top <= |pages[0].file|
    ensures Joined(pages) == Kept(pages[0].file[..pages[0].top], keep)
  {
    hide Kept;
    PagesAreExact(pages, keep, wanted, span);
    assert pages[0].file[0..pages[0].top] == pages[0].file[..pages[0].top];
  }

  // ----- what a frame of `follow` means -----

  lemma {:induction false} NonEmptySplit(s: Bytes)
    ensures NonEmpty(Split(s)) == Kept(s, _ => true)
    decreases |s|
  {
    var k := LastNewline(s);
    if k >= 0 {
      NonEmptySplit(s[..k]);
    } else {
      assert Split(s)[..0] == [];
    }
  }

  lemma NoneNonEmpty()
    ensures NonEmpty([]) == []
  {}

  /** The bytes up to the last newline, and that newline. */
  lemma UpToNewline(file: Bytes, start: nat, end: nat, keep: Filter)
    requires start + end < |file| && file[start + end] == NEWLINE
    ensures Kept(file[start..start + end + 1], keep) == Kept(file[start..][..end], keep)
  {
    hide Kept;
    var s := file[start..][..end];
    KeptEmpty(keep);
    KeptLastLine(s, [], keep);
    assert file[start..start + end + 1] == s + [NEWLINE] + [];
    assert One([], keep) == [];
  }

  /** A follower that is at most the limit behind hands out exactly the lines it passes
      over, and then stands at the beginning of a line. */
  lemma FrameIsExact(offset: nat, file: Bytes, limit: nat)
    requires offset <= |file| && |file| - offset <= limit
    requires offset == 0 || file[offset - 1] == NEWLINE
    ensures var (f, next) := FollowStep(Some(offset), file, limit);
            && f.first == offset && f.last == next && offset <= next <= |file|
            && (next == 0 || file[next - 1] == NEWLINE)
            && f.lines == Kept(file[offset..next], _ => true)
            && NEWLINE !in file[next..]
  {
    hide Kept, Split, NonEmpty, LastNewline;
    var end := LastNewline(file[offset..]);
    KeptEmpty(_ => true);
    assert file[offset..offset] == [];
    if |file| > offset && end >= 0 {
      NonEmptySplit(file[offset..][..end]);
      UpToNewline(file, offset, end, _ => true);
      AfterLastNewline(file, offset);
    }
  }

  /** Nothing after the last newline is one. */
  lemma AfterLastNewline(file: Bytes, start: nat)
    requires start <= |file|
    ensures var end := LastNewline(file[start..]);
            if end == -1 then NEWLINE !in file[start..] else start + end < |file| && NEWLINE !in file[start + end + 1..]
  {
    var end := LastNewline(file[start..]);
    forall i | start + end + 1 <= i < |file| ensures file[i] != NEWLINE {
      assert file[start..][i - start] == file[i];
    }
  }

  /** The bytes a look of the follower reads: all after its offset, the last ones of them
      when they are more than the limit. */
  function Seen(offset: nat, file: Bytes, limit: nat): Bytes
    requires offset <= |file|
  {
    file[if |file| - offset > limit then |file| - limit else offset..]
  }

  /** A look that finds a line break moves the follower right behind the last one of the
      file; any other leaves it where it is and hands out nothing. */
  lemma FollowerMovesIff(offset: nat, file: Bytes, limit: nat)
    requires offset <= |file|
    ensures var (f, next) := FollowStep(Some(offset), file, limit);
            && f.first == offset && f.last == next
            && (next > offset <==> NEWLINE in Seen(offset, file, limit))
            && (next > offset ==> next <= |file| && file[next - 1] == NEWLINE && NEWLINE !in file[next..])
            && (next <= offset ==> next == offset && f.lines == [])
  {
    hide Split, NonEmpty, LastNewline;
    var start := if |file| - offset > limit then |file| - limit else offset;
    AfterLastNewline(file, start);
    var end := LastNewline(file[start..]);
    if end >= 0 {
      assert file[start..][end] == NEWLINE;
    }
  }

  // ----- one look after the other, while the file grows -----

  /** What one look read, handed out and left as the offset of the next. */
  datatype Look = Look(file: Bytes, frame: Frame, next: nat)

  function OffsetAt(looks: seq<Look>, start: nat, i: nat): nat
    requires i <= |looks|
  {
    if i == 0 then start else looks[i - 1].next
  }

  /** Looks at a growing file, none of them more than the limit behind. */
  predicate Followed(looks: seq<Look>, start: nat, limit: nat) {
    && (forall i :: 0 < i < |looks| ==> looks[i - 1].file <= looks[i].file)
    && forall i :: 0 <= i < |looks| ==> OnTime(looks[i], OffsetAt(looks, start, i), limit)
  }

  predicate OnTime(look: Look, offset: nat, limit: nat) {
    |look.file| - offset <= limit && (look.frame, look.next) == FollowStep(Some(offset), look.file, limit)
  }

  function HandedOut(looks: seq<Look>): seq<Bytes> {
    if looks == [] then [] else HandedOut(looks[..|looks| - 1]) + looks[|looks| - 1].frame.lines
  }

  lemma FollowedBefore(looks: seq<Look>, start: nat, limit: nat)
    requires looks != [] && Followed(looks, start, limit)
    ensures Followed(looks[..|looks| - 1], start, limit)
  {
    hide OnTime;
    var before := looks[..|looks| - 1];
    forall i | 0 <= i < |before| ensures OnTime(before[i], OffsetAt(before, start, i), limit) {
      assert OffsetAt(before, start, i) == OffsetAt(looks, start, i);
    }
  }

  /** The offset stands right behind the last line break of the file, and what was handed
      out are the lines up to there. */
  ghost predicate CaughtUp(file: Bytes, start: nat, next: nat, lines: seq<Bytes>) {
    && start <= next <= |file| && NEWLINE !in file[next..]
    && (next == 0 || file[next - 1] == NEWLINE)
    && lines == Kept(file[start..next], _ => true)
  }

  lemma LookCatchesUp(look: Look, offset: nat, limit: nat)
    requires offset <= |look.file| && (offset == 0 || look.file[offset - 1] == NEWLINE)
    requires OnTime(look, offset, limit)
    ensures CaughtUp(look.file, offset, look.next, look.frame.lines)
  {
    hide FollowStep, Kept;
    FrameIsExact(offset, look.file, limit);
  }

  /** What two looks hand out one after the other. */
  lemma CatchUpAgain(file: Bytes, look: Look, start: nat, offset: nat, limit: nat, lines: seq<Bytes>)
    requires file <= look.file && CaughtUp(file, start, offset, lines) && OnTime(look, offset, limit)
    ensures CaughtUp(look.file, start, look.next, lines + look.frame.lines)
  {
    hide Kept, OnTime;
    var grown, next := look.file, look.next;
    PrefixBytes(file, grown, start, offset);
    LookCatchesUp(look, offset, limit);
    if offset == start {
      assert file[start..offset] == [];
      KeptEmpty(_ => true);
      assert [] + look.frame.lines == look.frame.lines;
    } else {
      KeptAround(grown, start, offset, next, _ => true);
    }
  }

  /** A follower that looks often enough misses nothing and stays behind with nothing: all
      its frames together are the lines of the file up to its last line break. */
  lemma {:induction false} FollowerKeepsUp(looks: seq<Look>, start: nat, limit: nat)
    requires looks != [] && Followed(looks, start, limit)
    requires start <= |looks[0].file| && (start == 0 || looks[0].file[start - 1] == NEWLINE)
    ensures CaughtUp(looks[|looks| - 1].file, start, looks[|looks| - 1].next, HandedOut(looks))
  {
    hide OnTime, Kept, CaughtUp;
    var n := |looks| - 1;
    var offset, look := OffsetAt(looks, start, n), looks[n];
    assert OnTime(look, offset, limit);
    if n == 0 {
      LookCatchesUp(look, start, limit);
      assert looks[..0] == [] && [] + look.frame.lines == look.frame.lines;
    } else {
      FollowedBefore(looks, start, limit);
      FollowerKeepsUp(looks[..n], start, limit);
      CatchUpAgain(looks[n - 1].file, look, start, offset, limit, HandedOut(looks[..n]));
    }
  }

  lemma PrefixBytes(file: Bytes, grown: Bytes, start: nat, offset: nat)
    requires file <= grown && start <= offset <= |file|
    ensures grown[start..offset] == file[start..offset] && (offset > 0 ==> grown[offset - 1] == file[offset - 1])
  {
    assert grown[..|file|] == file;
  }

  lemma SplitLast(s: Bytes, line: Bytes)
    requires NEWLINE !in line
    ensures Split(s + [NEWLINE] + line) == Split(s) + [line]
    ensures Split(line) == [line]
  {
    var t := s + [NEWLINE] + line;
    assert t[|s|] == NEWLINE;
    assert LastNewline(t) == |s|;
    assert t[..|s|] == s && t[|s| + 1..] == line;
  }

  lemma {:induction false} SplitFirst(line: Bytes, t: Bytes)
    requires NEWLINE !in line
    ensures Split(line + [NEWLINE] + t) == [line] + Split(t)
    decreases |t|
  {
    hide Split;
    var k := LastNewline(t);
    if k == -1 {
      SplitLast(line, t);
      SplitLast([], line);
    } else {
      var t', last := t[..k], t[k + 1..];
      assert t == t' + [NEWLINE] + last;
      SplitFirst(line, t');
      SplitLast(t', last);
      SplitLast(line + [NEWLINE] + t', last);
      assert line + [NEWLINE] + t == (line + [NEWLINE] + t') + [NEWLINE] + last;
    }
  }

  /** Where the lines of a frame really begin: after the first newline that the
      follower still reads when it has fallen more than the limit behind. */
  function FrameCut(offset: nat, file: Bytes, limit: nat): nat
    requires offset <= |file|
  {
    if |file| - offset <= limit then offset
    else
      var start := |file| - limit;
      start + FirstNewline(file[start..]) + 1
  }

  /** A follower that fell more than the limit behind hands out the lines after the cut. */
  lemma LateFrame(offset: nat, file: Bytes, limit: nat)
    requires |file| - offset > limit && NEWLINE in file[|file| - limit..]
    ensures var (f, next) := FollowStep(Some(offset), file, limit);
            var cut := FrameCut(offset, file, limit);
            && f.last == next && offset < cut <= next <= |file|
            && f.lines == Kept(file[cut..next], _ => true)
            && NEWLINE !in file[next..]
  {
    hide Kept, Split, NonEmpty, LastNewline, FirstNewline, FollowStep;
    var start := |file| - limit;
    LinesAfterFirst(file[start..]);
    PassedOver(file, start);
    AfterLastNewline(file, start);
    LateStep(offset, file, limit);
  }

  lemma LateStep(offset: nat, file: Bytes, limit: nat)
    requires |file| - offset > limit && NEWLINE in file[|file| - limit..]
    ensures var start := |file| - limit;
            var end := LastNewline(file[start..]);
            && 0 <= end < limit
            && FollowStep(Some(offset), file, limit)
               == (Frame(offset, start + end + 1, NonEmpty(Split(file[start..][..end])[1..])), start + end + 1)
  {
    hide Split, NonEmpty, LastNewline;
    FirstBeforeLast(file[|file| - limit..]);
  }

  lemma PassedOver(file: Bytes, start: nat)
    requires start <= |file| && NEWLINE in file[start..]
    ensures var buffer := file[start..];
            var end, i := LastNewline(buffer), FirstNewline(buffer);
            && 0 <= i <= end
            && Kept(file[start + i + 1..start + end + 1], _ => true)
               == if i < end then Kept(buffer[..end][i + 1..], _ => true) else []
  {
    hide Kept, LastNewline, FirstNewline;
    FirstBeforeLast(file[start..]);
    var end, i := LastNewline(file[start..]), FirstNewline(file[start..]);
    if i < end {
      assert file[start + end] == NEWLINE;
      UpToNewline(file, start + i + 1, end - i - 1, _ => true);
      DropFromSlice(file, start, i + 1, end);
    } else {
      KeptEmpty(_ => true);
      assert file[start + end + 1..start + end + 1] == [];
    }
  }

  lemma FirstBeforeLast(buffer: Bytes)
    requires NEWLINE in buffer
    ensures 0 <= FirstNewline(buffer) <= LastNewline(buffer) < |buffer|
    ensures buffer[FirstNewline(buffer)] == NEWLINE && buffer[LastNewline(buffer)] == NEWLINE
  {}

  lemma DropFromSlice(file: Bytes, start: nat, i: nat, end: nat)
    requires i <= end && start + end <= |file|
    ensures file[start..][..end][i..] == file[start + i..][..end - i]
  {}

  /** `split` on the bytes before the last newline, without its first piece: the lines
      between the first newline and the last one. */
  lemma LinesAfterFirst(buffer: Bytes)
    requires NEWLINE in buffer
    ensures var end, i := LastNewline(buffer), FirstNewline(buffer);
            && 0 <= i <= end
            && NonEmpty(Split(buffer[..end])[1..]) == if i < end then Kept(buffer[..end][i + 1..], _ => true) else []
  {
    hide Kept, Split, NonEmpty, LastNewline;
    FirstBeforeLast(buffer);
    var end, i := LastNewline(buffer), FirstNewline(buffer);
    var s := buffer[..end];
    if i < end {
      assert s == s[..i] + [NEWLINE] + s[i + 1..];
      assert NEWLINE !in s[..i];
      SplitFirst(s[..i], s[i + 1..]);
      NonEmptySplit(s[i + 1..]);
      assert Split(s)[1..] == Split(s[i + 1..]);
    } else {
      assert NEWLINE !in s;
      SplitLast([], s);
      assert Split(s)[1..] == [];
      assert NonEmpty([]) == [] by { NoneNonEmpty(); }
    }
  }

  /** A frame that moves the follower on hands out all the lines it passes over exactly
      when the follower is at most the limit behind, or what it skips holds no line. */
  lemma FrameExactIff(offset: nat, file: Bytes, limit: nat)
    requires offset <= |file|
    requires offset == 0 || file[offset - 1] == NEWLINE
    ensures var (f, next) := FollowStep(Some(offset), file, limit);
            next > offset ==>
              var cut := FrameCut(offset, file, limit);
              && offset <= cut <= next <= |file|
              && (f.lines == Kept(file[offset..next], _ => true)
                  <==> |file| - offset <= limit || Kept(file[offset..cut], _ => true) == [])
  {
    hide Kept, Split, NonEmpty, LastNewline, FirstNewline;
    var (f, next) := FollowStep(Some(offset), file, limit);
    if |file| - offset <= limit {
      FrameIsExact(offset, file, limit);
    } else if next > offset {
      var start := |file| - limit;
      assert file[start..][LastNewline(file[start..])] == NEWLINE;
      LateFrame(offset, file, limit);
      hide FollowStep;
      var cut := FrameCut(offset, file, limit);
      CutIsBreak(offset, file, limit);
      KeptAround(file, offset, cut, next, _ => true);
      SameAfter(Kept(file[offset..cut], _ => true), Kept(file[cut..next], _ => true));
    }
  }

  lemma CutIsBreak(offset: nat, file: Bytes, limit: nat)
    requires |file| - offset > limit && NEWLINE in file[|file| - limit..]
    ensures offset < FrameCut(offset, file, limit) <= |file| && file[FrameCut(offset, file, limit) - 1] == NEWLINE
  {
    hide FirstNewline;
    FirstBeforeLast(file[|file| - limit..]);
  }

  lemma KeptAround(file: Bytes, offset: nat, cut: nat, next: nat, keep: Filter)
    requires offset < cut <= next <= |file| && file[cut - 1] == NEWLINE
    ensures Kept(file[offset..next], keep) == Kept(file[offset..cut], keep) + Kept(file[cut..next], keep)
  {
    hide Kept;
    var a, b := file[offset..cut], file[cut..next];
    assert a[|a| - 1] == NEWLINE;
    KeptConcat(a, b, keep);
    assert file[offset..next] == a + b;
  }

  function Newlines(n: nat): (s: Bytes)
    ensures |s| == n && forall i :: 0 <= i < n ==> s[i] == NEWLINE
  {
    seq(n, _ => NEWLINE)
  }

  lemma {:induction false} KeptNewlines(s: Bytes, keep: Filter)
    requires forall i :: 0 <= i < |s| ==> s[i] == NEWLINE
    ensures Kept(s, keep) == []
  {
    hide Kept;
    KeptEmpty(keep);
    if s != [] {
      KeptNewlines(s[1..], keep);
      assert s == [] + [NEWLINE] + s[1..];
      KeptAtNewline([], s[1..], keep);
    }
  }

  /** Whatever the limit, a follower that is one byte too far behind may pass over a line
      it does not hand out. */
  lemma LateFrameMissesLine(limit: nat) returns (file: Bytes)
    requires limit >= 1
    ensures file == [0x61] + Newlines(limit)
    ensures var (f, next) := FollowStep(Some(0), file, limit);
            && next == f.last == |file| && f.lines == []
            && Kept(file[0..next], _ => true) == [[0x61]]
  {
    file := [0x61] + Newlines(limit);
    hide FollowStep, Kept, Newlines;
    LineKept(limit, _ => true);
    assert file[0..|file|] == file && file[1..] == Newlines(limit);
    LateOnNewlines(file, limit);
  }

  lemma LateOnNewlines(file: Bytes, limit: nat)
    requires limit >= 1 && |file| == limit + 1 && file[1..] == Newlines(limit)
    ensures var (f, next) := FollowStep(Some(0), file, limit);
            next == f.last == |file| && f.lines == []
  {
    hide FollowStep, LastNewline, Split, NonEmpty, Kept, FirstNewline, Newlines;
    LastOfNewlines(limit);
    assert Newlines(limit)[0] == NEWLINE;
    LateStep(0, file, limit);
    LateFrame(0, file, limit);
    NewlinesAfter(file, limit, FrameCut(0, file, limit));
  }

  lemma NewlinesAfter(file: Bytes, limit: nat, cut: nat)
    requires |file| == limit + 1 && file[1..] == Newlines(limit) && 1 <= cut <= |file|
    ensures Kept(file[cut..|file|], _ => true) == []
  {
    hide Kept;
    forall i | 0 <= i < |file| - cut ensures file[cut..|file|][i] == NEWLINE {
      assert file[1..][cut + i - 1] == NEWLINE;
    }
    KeptNewlines(file[cut..|file|], _ => true);
  }

  lemma LineKept(n: nat, keep: Filter)
    requires n >= 1 && forall line: Bytes :: keep(line)
    ensures Kept([0x61] + Newlines(n), keep) == [[0x61]]
  {
    hide Kept;
    var line: Bytes := [0x61];
    assert line + Newlines(n) == line + [NEWLINE] + Newlines(n)[1..];
    KeptAtNewline(line, Newlines(n)[1..], keep);
    KeptNewlines(Newlines(n)[1..], keep);
    KeptLine(line, keep);
  }

  lemma LastOfNewlines(n: nat)
    requires n >= 1
    ensures LastNewline(Newlines(n)) == n - 1
  {}

  lemma SameAfter(a: seq<Bytes>, b: seq<Bytes>)
    ensures b == a + b <==> a == []
  {
    if b == a + b {
      assert |b| == |a| + |b|;
    }
  }
}
