/** The log on screen: one window that loads, older pages and pushed frames update, each
    answer arriving when it may. */
module LogView {
  import opened Wrappers
  import opened LogLines
  import opened LogService

  // ----- the composable -----

  datatype View = View(window: Option<Window>, asked: nat, loading: bool, loadingOlder: bool, failed: bool, disposed: bool)

  /** What an edit of the view asks the service for. */
  datatype Query = NoQuery | Latest(ticket: nat) | Before(ticket: nat, before: nat)

  function Load(v: View): (View, Query) {
    if v.disposed then (v, NoQuery)
    else (v.(asked := v.asked + 1, loading := true, loadingOlder := false), Latest(v.asked + 1))
  }

  function LoadAnswered(v: View, ticket: nat, answer: Window): View {
    if ticket != v.asked then v else v.(window := Some(answer), failed := false, loading := false)
  }

  function LoadFailed(v: View, ticket: nat): View {
    if ticket != v.asked then v else v.(failed := true, loading := false)
  }

  function LoadOlder(v: View): (View, Query) {
    if v.disposed || v.window.None? || v.window.value.start == 0 || v.loading || v.loadingOlder then (v, NoQuery)
    else (v.(loadingOlder := true), Before(v.asked, v.window.value.start))
  }

  function OlderAnswered(v: View, ticket: nat, answer: Window): View {
    if ticket != v.asked then v
    else if v.window.None? then v.(loadingOlder := false)
    else
      var w := v.window.value;
      v.(window := Some(w.(lines := answer.lines + w.lines, start := answer.start, truncated := answer.truncated)),
         loadingOlder := false)
  }

  function OlderFailed(v: View, ticket: nat): View {
    if ticket != v.asked then v else v.(failed := true, loadingOlder := false)
  }

  /** A pushed frame extends the window it continues; one that leaves a gap reloads it. */
  function FrameArrived(v: View, f: Frame, keep: Filter): (View, Query) {
    if v.window.None? || v.loading || f.last <= v.window.value.size then (v, NoQuery)
    else if f.first != v.window.value.size then Load(v)
    else
      var w := v.window.value;
      (v.(window := Some(w.(lines := w.lines + Select(f.lines, keep), size := f.last))), NoQuery)
  }

  function Dispose(v: View): View { v.(disposed := true, asked := v.asked + 1, window := None) }

  class MailLogView {
    var window: Option<Window>
    var asked: nat
    var loading: bool
    var loadingOlder: bool
    var failed: bool
    var disposed: bool

    function Now(): View reads this { View(window, asked, loading, loadingOlder, failed, disposed) }

    constructor ()
      ensures Now() == View(None, 0, false, false, false, false)
    {
      window, asked, loading, loadingOlder, failed, disposed := None, 0, false, false, false, false;
    }

    method StartLoad() returns (query: Query)
      modifies this
      ensures (Now(), query) == Load(old(Now()))
    {
      if disposed {
        return NoQuery;
      }
      asked := asked + 1;
      loading := true;
      loadingOlder := false;
      query := Latest(asked);
    }

    method FinishLoad(ticket: nat, answer: Option<Window>)
      modifies this
      ensures answer.Some? ==> Now() == LoadAnswered(old(Now()), ticket, answer.value)
      ensures answer.None? ==> Now() == LoadFailed(old(Now()), ticket)
    {
      if ticket != asked {
        return;
      }
      if answer.Some? {
        window := answer;
        failed := false;
      } else {
        failed := true;
      }
      loading := false;
    }

    method StartLoadOlder() returns (query: Query)
      modifies this
      ensures (Now(), query) == LoadOlder(old(Now()))
    {
      if disposed || window.None? || window.value.start == 0 || loading || loadingOlder {
        return NoQuery;
      }
      loadingOlder := true;
      query := Before(asked, window.value.start);
    }

    method FinishLoadOlder(ticket: nat, answer: Option<Window>)
      modifies this
      ensures answer.Some? ==> Now() == OlderAnswered(old(Now()), ticket, answer.value)
      ensures answer.None? ==> Now() == OlderFailed(old(Now()), ticket)
    {
      if ticket != asked {
        return;
      }
      if answer.None? {
        failed := true;
      } else if window.Some? {
        var w := window.value;
        window := Some(w.(lines := answer.value.lines + w.lines, start := answer.value.start, truncated := answer.value.truncated));
      }
      loadingOlder := false;
    }

    method OnFrame(f: Frame, keep: Filter) returns (query: Query)
      modifies this
      ensures (Now(), query) == FrameArrived(old(Now()), f, keep)
    {
      if window.None? || loading || f.last <= window.value.size {
        return NoQuery;
      }
      if f.first != window.value.size {
        query := StartLoad();
        return;
      }
      var added := Select(f.lines, keep);
      window := Some(window.value.(lines := window.value.lines + added, size := f.last));
      query := NoQuery;
    }

    method OnDispose()
      modifies this
      ensures Now() == Dispose(old(Now()))
    {
      disposed := true;
      asked := asked + 1;
      window := None;
    }
  }

  // ----- the view, the service and the file together -----

  /** A query on its way to the service, or its answer on the way back. */
  datatype Flight = Flight(query: Query, answer: Option<Window>)

  datatype World = World(file: Bytes, view: View, flights: seq<Flight>, follower: Option<nat>, frames: seq<Frame>)

  datatype Event =
    | Append(bytes: Bytes)
    | AskLatest
    | AskOlder
    | Serve(i: nat, answer: Window)
    | Deliver(i: nat)
    | Lose(i: nat)
    | Follow
    | Push(i: nat)
    | Leave

  datatype Setting = Setting(keep: Filter, page: nat, span: nat, followLimit: nat)

  predicate LineStart(file: Bytes, k: nat) { k <= |file| && (k == 0 || file[k - 1] == NEWLINE) }

  function Sent(flights: seq<Flight>, query: Query): seq<Flight> {
    if query.NoQuery? then flights else flights + [Flight(query, None)]
  }

  function Without<T>(s: seq<T>, i: nat): seq<T>
    requires i < |s|
  {
    s[..i] + s[i + 1..]
  }

  /** What the service may answer, reading the file as it then is. */
  ghost predicate MayAnswer(s: Setting, file: Bytes, query: Query, answer: Window) {
    && query != NoQuery
    && var top := if query.Before? && query.before < |file| then query.before else |file|;
    && answer.size == |file|
    && Answers(file, s.keep, s.page, s.span, top, answer.lines, answer.start)
    && (answer.truncated <==> answer.start > 0 && |answer.lines| < s.page)
  }

  function Delivered(v: View, f: Flight): View
    requires f.query != NoQuery
  {
    match f.query
    case Latest(ticket) => if f.answer.Some? then LoadAnswered(v, ticket, f.answer.value) else LoadFailed(v, ticket)
    case Before(ticket, _) => if f.answer.Some? then OlderAnswered(v, ticket, f.answer.value) else OlderFailed(v, ticket)
  }

  /** One step of the whole: the log grows, the view asks, the service answers, an
      answer arrives or a call fails, the follower looks, a frame arrives at last,
      whatever the order, or again, or the view goes away. */
  ghost predicate Next(s: Setting, w: World, e: Event, w': World) {
    match e
    case Append(bytes) => w' == w.(file := w.file + bytes)
    case AskLatest =>
      var (v, query) := Load(w.view);
      w' == w.(view := v, flights := Sent(w.flights, query))
    case AskOlder =>
      var (v, query) := LoadOlder(w.view);
      w' == w.(view := v, flights := Sent(w.flights, query))
    case Serve(i, answer) =>
      && i < |w.flights| && w.flights[i].answer.None?
      && MayAnswer(s, w.file, w.flights[i].query, answer)
      && w' == w.(flights := w.flights[i := Flight(w.flights[i].query, Some(answer))])
    case Deliver(i) =>
      && i < |w.flights| && w.flights[i].answer.Some? && w.flights[i].query != NoQuery
      && w' == w.(view := Delivered(w.view, w.flights[i]), flights := Without(w.flights, i))
    case Lose(i) =>
      && i < |w.flights| && w.flights[i].query != NoQuery
      && w' == w.(view := Delivered(w.view, Flight(w.flights[i].query, None)), flights := Without(w.flights, i))
    case Follow =>
      // the follower begins at the beginning of a line, and never falls too far behind
      && (w.follower.None? ==> LineStart(w.file, |w.file|))
      && (w.follower.Some? ==> |w.file| - w.follower.value <= s.followLimit)
      && var (f, next) := FollowStep(w.follower, w.file, s.followLimit);
         w' == w.(follower := Some(next), frames := w.frames + [f])
    case Push(i) =>
      && i < |w.frames|
      && var (v, query) := FrameArrived(w.view, w.frames[i], s.keep);
         w' == w.(view := v, flights := Sent(w.flights, query))
    case Leave => w' == w.(view := Dispose(w.view))
  }

  ghost predicate Init(w: World) {
    && w.view == View(None, 0, false, false, false, false)
    && w.flights == [] && w.follower == None && w.frames == []
  }

  // ----- the invariant -----

  /** Lines of the bytes from `start` to `size`, cut cleanly. */
  ghost predicate Exact(s: Setting, file: Bytes, start: nat, size: nat, lines: seq<Bytes>) {
    && start <= size <= |file| && Boundary(file, start, size)
    && lines == Kept(file[start..size], s.keep)
  }

  ghost predicate FrameExact(file: Bytes, f: Frame) {
    && f.first <= f.last && LineStart(file, f.first) && LineStart(file, f.last)
    && f.lines == Kept(file[f.first..f.last], _ => true)
  }

  /** An answer on its way is right about the file, and a query for an older page that
      is still awaited asked for what lies before the window. */
  ghost predicate FlightRight(s: Setting, file: Bytes, v: View, f: Flight) {
    match f.query
    case NoQuery => false
    case Latest(ticket) =>
      && ticket <= v.asked && (ticket == v.asked ==> v.loading && !v.disposed)
      && (f.answer.Some? ==> Exact(s, file, f.answer.value.start, f.answer.value.size, f.answer.value.lines))
    case Before(ticket, before) =>
      && ticket <= v.asked && before <= |file|
      && (ticket == v.asked ==> v.loadingOlder && !v.loading && v.window.Some? && v.window.value.start == before)
      && (f.answer.Some? ==> Exact(s, file, f.answer.value.start, before, f.answer.value.lines))
  }

  /** The view still waits for this answer: nothing was asked anew since. */
  predicate Awaited(v: View, f: Flight) { f.query != NoQuery && f.query.ticket == v.asked }

  ghost predicate Inv(s: Setting, w: World) {
    && (w.view.window.Some? ==>
          var win := w.view.window.value;
          Exact(s, w.file, win.start, win.size, win.lines))
    && (w.view.disposed ==> w.view.window.None?)
    && (forall i :: 0 <= i < |w.flights| ==> FlightRight(s, w.file, w.view, w.flights[i]))
    && (forall i, j :: 0 <= i < j < |w.flights| ==> !(Awaited(w.view, w.flights[i]) && Awaited(w.view, w.flights[j])))
    && (w.follower.Some? ==> LineStart(w.file, w.follower.value))
    && (forall i :: 0 <= i < |w.frames| ==> FrameExact(w.file, w.frames[i]))
  }

  lemma ExactGrows(s: Setting, file: Bytes, more: Bytes, start: nat, size: nat, lines: seq<Bytes>)
    requires Exact(s, file, start, size, lines)
    ensures Exact(s, file + more, start, size, lines)
  {
    var grown := file + more;
    assert grown[..size] == file[..size] && grown[start..size] == file[start..size];
  }

  lemma FrameGrows(file: Bytes, more: Bytes, f: Frame)
    requires FrameExact(file, f)
    ensures FrameExact(file + more, f)
  {
    assert (file + more)[f.first..f.last] == file[f.first..f.last];
  }

  /** The answer to a query is exact. */
  lemma AnswerIsExact(s: Setting, file: Bytes, query: Query, answer: Window)
    requires MayAnswer(s, file, query, answer) && (query.Before? ==> query.before <= |file|)
    ensures Exact(s, file, answer.start, if query.Before? then query.before else answer.size, answer.lines)
  {}

  /** An older page meets the window where the window starts. */
  lemma OlderPageJoins(s: Setting, file: Bytes, a: nat, b: nat, c: nat, page: seq<Bytes>, lines: seq<Bytes>)
    requires Exact(s, file, a, b, page) && Exact(s, file, b, c, lines)
    ensures Exact(s, file, a, c, page + lines)
  {
    JoinPage(file, file, a, b, c, s.keep);
  }

  lemma LineStartIsBoundary(file: Bytes, k: nat, top: nat)
    requires LineStart(file, k) && k <= top <= |file|
    ensures Boundary(file, k, top)
  {
    if k > 0 {
      assert file[..top][..k][k - 1] == file[k - 1] == NEWLINE;
    }
  }

  /** A frame extends the window it continues. */
  lemma FrameExtends(s: Setting, file: Bytes, win: Window, f: Frame)
    requires Exact(s, file, win.start, win.size, win.lines) && FrameExact(file, f) && f.first == win.size
    ensures Exact(s, file, win.start, f.last, win.lines + Select(f.lines, s.keep))
  {
    hide Kept, Select, Boundary;
    var a, b, c := win.start, f.first, f.last;
    SelectKept(file[b..c], s.keep);
    LineStartIsBoundary(file, b, c);
    JoinPage(file, file, a, b, c, s.keep);
  }

  lemma FollowKeeps(s: Setting, w: World)
    requires w.follower.Some? ==> LineStart(w.file, w.follower.value)
    requires w.follower.None? ==> LineStart(w.file, |w.file|)
    requires w.follower.Some? ==> |w.file| - w.follower.value <= s.followLimit
    ensures var (f, next) := FollowStep(w.follower, w.file, s.followLimit);
            FrameExact(w.file, f) && LineStart(w.file, next)
  {
    hide FollowStep, Kept, LineStart;
    if w.follower.Some? {
      LineStartIs(w.file, w.follower.value);
      FrameIsExact(w.follower.value, w.file, s.followLimit);
      LineStartIs(w.file, FollowStep(w.follower, w.file, s.followLimit).1);
    } else {
      FirstFrame(w.file, s.followLimit);
    }
  }

  lemma LineStartIs(file: Bytes, k: nat)
    ensures LineStart(file, k) <==> k <= |file| && (k == 0 || file[k - 1] == NEWLINE)
  {}

  /** The first look of the follower hands out nothing. */
  lemma FirstFrame(file: Bytes, limit: nat)
    ensures FollowStep(None, file, limit) == (Frame(|file|, |file|, []), |file|)
    ensures Kept(file[|file|..|file|], _ => true) == []
  {
    assert file[|file|..|file|] == [];
  }

  /** Every step keeps the window exact. */
  lemma StepKeepsExact(s: Setting, w: World, e: Event, w': World)
    requires Inv(s, w) && Next(s, w, e, w')
    ensures Inv(s, w')
  {
    hide Exact, FrameExact, MayAnswer, FollowStep, LineStart;
    match e
    case Append(bytes) => AppendKeeps(s, w, bytes);
    case AskLatest =>
    case AskOlder => AskOlderKeeps(s, w);
    case Serve(i, answer) => ServeKeeps(s, w, i, answer);
    case Deliver(i) => DeliverKeeps(s, w, i);
    case Lose(i) => DeliverKeeps(s, w, i);
    case Follow => FollowKeeps(s, w);
    case Push(i) => PushKeeps(s, w, i);
    case Leave =>
  }

  lemma AppendKeeps(s: Setting, w: World, bytes: Bytes)
    requires Inv(s, w)
    ensures Inv(s, w.(file := w.file + bytes))
  {
    var w' := w.(file := w.file + bytes);
    if w.view.window.Some? {
      var win := w.view.window.value;
      ExactGrows(s, w.file, bytes, win.start, win.size, win.lines);
    }
    forall i | 0 <= i < |w.flights| ensures FlightRight(s, w'.file, w.view, w.flights[i]) {
      var f := w.flights[i];
      if f.answer.Some? && f.query != NoQuery {
        var a := f.answer.value;
        ExactGrows(s, w.file, bytes, a.start, if f.query.Before? then f.query.before else a.size, a.lines);
      }
    }
    forall i | 0 <= i < |w.frames| ensures FrameExact(w'.file, w.frames[i]) {
      FrameGrows(w.file, bytes, w.frames[i]);
    }
  }

  lemma AskOlderKeeps(s: Setting, w: World)
    requires Inv(s, w)
    ensures var (v, query) := LoadOlder(w.view);
            Inv(s, w.(view := v, flights := Sent(w.flights, query)))
  {
    hide Boundary, Kept, FrameExact, LineStart;
  }

  lemma ServeKeeps(s: Setting, w: World, i: nat, answer: Window)
    requires Inv(s, w) && i < |w.flights| && MayAnswer(s, w.file, w.flights[i].query, answer)
    ensures Inv(s, w.(flights := w.flights[i := Flight(w.flights[i].query, Some(answer))]))
  {
    hide Exact, FrameExact, LineStart;
    AnswerIsExact(s, w.file, w.flights[i].query, answer);
  }

  /** Taking a flight out of the list leaves the others in order. */
  lemma Others<T>(s: seq<T>, i: nat, k: nat)
    requires i < |s| && k < |s| - 1
    ensures Without(s, i)[k] == s[if k < i then k else k + 1]
  {}

  lemma DeliverKeeps(s: Setting, w: World, i: nat)
    requires Inv(s, w) && i < |w.flights| && w.flights[i].query != NoQuery
    ensures Inv(s, w.(view := Delivered(w.view, w.flights[i]), flights := Without(w.flights, i)))
    ensures Inv(s, w.(view := Delivered(w.view, Flight(w.flights[i].query, None)), flights := Without(w.flights, i)))
  {
    hide Exact, FrameExact, LineStart, Without;
    var f, rest := w.flights[i], Without(w.flights, i);
    assert |rest| == |w.flights| - 1 by { WithoutSize(w.flights, i); }
    if f.query.Before? && f.query.ticket == w.view.asked && f.answer.Some? {
      var win, a := w.view.window.value, f.answer.value;
      OlderPageJoins(s, w.file, a.start, win.start, win.size, a.lines, win.lines);
    }
    forall k | 0 <= k < |rest|
      ensures FlightRight(s, w.file, Delivered(w.view, f), rest[k])
      ensures FlightRight(s, w.file, Delivered(w.view, Flight(f.query, None)), rest[k])
    {
      Others(w.flights, i, k);
      var j := if k < i then k else k + 1;
      assert FlightRight(s, w.file, w.view, w.flights[j]) && FlightRight(s, w.file, w.view, f);
      assert !(Awaited(w.view, w.flights[j]) && Awaited(w.view, f));
      assert f.query.Latest? ==> f.query.ticket <= w.view.asked;
    }
    forall k, l | 0 <= k < l < |rest| ensures !(Awaited(w.view, rest[k]) && Awaited(w.view, rest[l])) {
      Others(w.flights, i, k);
      Others(w.flights, i, l);
    }
  }

  lemma WithoutSize<T>(s: seq<T>, i: nat)
    requires i < |s|
    ensures |Without(s, i)| == |s| - 1
  {}

  lemma PushKeeps(s: Setting, w: World, i: nat)
    requires Inv(s, w) && i < |w.frames|
    ensures var (v, query) := FrameArrived(w.view, w.frames[i], s.keep);
            Inv(s, w.(view := v, flights := Sent(w.flights, query)))
  {
    hide Exact, FrameExact, LineStart;
    if w.view.window.Some? && w.frames[i].first == w.view.window.value.size {
      FrameExtends(s, w.file, w.view.window.value, w.frames[i]);
    }
  }

  // ----- whole runs -----

  ghost predicate Run(s: Setting, worlds: seq<World>, events: seq<Event>) {
    && |worlds| == |events| + 1 && Init(worlds[0])
    && forall i :: 0 <= i < |events| ==> Next(s, worlds[i], events[i], worlds[i + 1])
  }

  lemma {:induction false} RunKeepsExact(s: Setting, worlds: seq<World>, events: seq<Event>)
    requires Run(s, worlds, events)
    ensures Inv(s, worlds[|events|])
  {
    if events != [] {
      var n := |events| - 1;
      RunKeepsExact(s, worlds[..n + 1], events[..n]);
      StepKeepsExact(s, worlds[n], events[n], worlds[n + 1]);
    }
  }

  /** After every run, whatever was asked, answered, lost, late or pushed, in whatever
      order: the window holds exactly the matching lines of the file from its start to
      its size. */
  lemma WindowIsExact(s: Setting, worlds: seq<World>, events: seq<Event>)
    requires Run(s, worlds, events)
    ensures var w := worlds[|events|];
            w.view.window.Some? ==>
              var win := w.view.window.value;
              win.start <= win.size <= |w.file| && win.lines == Kept(w.file[win.start..win.size], s.keep)
  {
    RunKeepsExact(s, worlds, events);
  }
  // ----- nothing is ignored -----

  /** The request the view waits for is on its way. */
  predicate LoadAwaited(w: World) {
    w.view.loading && exists i :: 0 <= i < |w.flights| && w.flights[i] == Flight(Latest(w.view.asked), None)
  }

  /** In every run, a frame that comes to a window while nothing is loading is heeded: the
      window then ends where the frame does, or further, or the window is asked for anew. */
  lemma FrameIsHeeded(s: Setting, worlds: seq<World>, events: seq<Event>, k: nat, i: nat)
    requires Run(s, worlds, events) && k < |events| && events[k] == Push(i)
    requires i < |worlds[k].frames| && worlds[k].view.window.Some? && !worlds[k].view.loading
    ensures var f, w, w' := worlds[k].frames[i], worlds[k], worlds[k + 1];
            || LoadAwaited(w')
            || (w'.view.window.Some? && w'.view.window.value.start == w.view.window.value.start
                && w'.view.window.value.size == if f.last <= w.view.window.value.size then w.view.window.value.size else f.last)
  {
    RunKeepsExact(s, worlds[..k + 1], events[..k]);
    hide Exact, FrameExact, LineStart, Select;
    var w, w' := worlds[k], worlds[k + 1];
    assert Next(s, w, Push(i), w');
    assert !w.view.disposed;
    if w.frames[i].last > w.view.window.value.size && w.frames[i].first != w.view.window.value.size {
      assert w'.flights[|w.flights|] == Flight(Latest(w'.view.asked), None);
    }
  }

  /** The answer that is awaited is shown, a failure is told, and the view is ready again. */
  lemma AnswerIsShown(v: View, answer: Window)
    ensures var loaded := Delivered(v, Flight(Latest(v.asked), Some(answer)));
            loaded.window == Some(answer) && !loaded.loading && !loaded.failed
    ensures var lost := Delivered(v, Flight(Latest(v.asked), None));
            lost.window == v.window && !lost.loading && lost.failed
    ensures forall before :: v.window.Some? ==>
              var older := Delivered(v, Flight(Before(v.asked, before), Some(answer)));
              && older.window.Some? && !older.loadingOlder && older.window.value.start == answer.start
              && older.window.value.lines == answer.lines + v.window.value.lines
              && older.window.value.size == v.window.value.size
  {}

  /** Loading asks for the latest lines unless the view is gone. An older page is asked for,
      from where the window starts, exactly when there is something before the window and
      nothing else is awaited. */
  lemma AskedIff(v: View)
    ensures Load(v).1 == if v.disposed then NoQuery else Latest(Load(v).0.asked)
    ensures Load(v).0.loading == (v.loading || !v.disposed)
    ensures LoadOlder(v).1 != NoQuery <==>
      !v.disposed && !v.loading && !v.loadingOlder && v.window.Some? && v.window.value.start > 0
    ensures LoadOlder(v).1 != NoQuery ==> LoadOlder(v).1 == Before(v.asked, v.window.value.start) && LoadOlder(v).0.loadingOlder
  {}
}
