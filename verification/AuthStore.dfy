/** The session store: a refresh token can be used once, so callers that want a rotation
    at the same time must share one. */
module AuthStore {
  import opened Wrappers

  type Token = nat

  /** The part of a session that rotates; an expiry that does not parse is None. */
  datatype Session = Session(refresh: Token, expiresAt: Option<int>)

  /** What a call of `refresh` leads to: an answer at once, a share in the rotation that
      is in flight, or a rotation of its own. */
  datatype Outcome = Answer(ok: bool) | Share | Post(token: Token)

  datatype Store = Store(session: Option<Session>, inFlight: bool)

  const BUFFER := 120_000

  function Refresh(s: Store): (Store, Outcome) {
    if s.session.None? then (s, Answer(false))
    else if s.inFlight then (s, Share)
    else (s.(inFlight := true), Post(s.session.value.refresh))
  }

  predicate ExpiresSoon(session: Session, now: int) {
    session.expiresAt.None? || session.expiresAt.value - now <= BUFFER
  }

  function RefreshIfNeeded(s: Store, now: int): (Store, Outcome) {
    if s.session.None? then (s, Answer(false))
    else if !ExpiresSoon(s.session.value, now) then (s, Answer(true))
    else Refresh(s)
  }

  /** The rotation came back with a new pair, or failed. */
  function Rotated(s: Store, pair: Option<Session>): Store { Store(pair, false) }

  function Opened(s: Store, pair: Session): Store { s.(session := Some(pair)) }

  function LoggedOut(s: Store): Store { s.(session := None) }

  class AuthStore {
    var session: Option<Session>
    var refreshInFlight: bool

    function Now(): Store reads this { Store(session, refreshInFlight) }

    constructor ()
      ensures Now() == Store(None, false)
    {
      session, refreshInFlight := None, false;
    }

    method StartRefresh() returns (outcome: Outcome)
      modifies this
      ensures (Now(), outcome) == Refresh(old(Now()))
    {
      if session.None? {
        return Answer(false);
      }
      if refreshInFlight {
        return Share;
      }
      refreshInFlight := true;
      outcome := Post(session.value.refresh);
    }

    method StartRefreshIfNeeded(now: int) returns (outcome: Outcome)
      modifies this
      ensures (Now(), outcome) == RefreshIfNeeded(old(Now()), now)
    {
      if session.None? {
        return Answer(false);
      }
      if !ExpiresSoon(session.value, now) {
        return Answer(true);
      }
      outcome := StartRefresh();
    }

    /** What runs when the rotation answers, whoever waits for it. */
    method FinishRefresh(pair: Option<Session>) returns (ok: bool)
      modifies this
      ensures Now() == Rotated(old(Now()), pair) && ok == pair.Some?
    {
      if pair.Some? {
        session := pair;
        ok := true;
      } else {
        session := None;
        ok := false;
      }
      refreshInFlight := false;
    }

    method Open(pair: Session)
      modifies this
      ensures Now() == Opened(old(Now()), pair)
    {
      session := Some(pair);
    }

    /** Logging out asks the server first; meanwhile an open session stays open. */
    method StartLogout() returns (asked: bool)
      modifies this
      ensures Now() == old(Now()) && asked == old(Now()).session.Some?
    {
      if session.Some? {
        return true;
      }
      session := None;
      asked := false;
    }

    /** What runs when the server answered, or failed to. */
    method FinishLogout()
      modifies this
      ensures Now() == LoggedOut(old(Now()))
    {
      session := None;
    }
  }

  // ----- the store, its callers and the server -----

  /** `outstanding` are the rotation requests on the wire, `posted` every token ever sent
      to the rotation, `issued` every token the server ever gave out, and `leaving` counts
      the logouts the server was asked for and did not answer yet. */
  datatype World = World(store: Store, outstanding: seq<Token>, posted: seq<Token>, issued: set<Token>,
                         waiting: set<nat>, answered: map<nat, bool>, leaving: nat)

  datatype Event =
    | CallRefresh(caller: nat)
    | CallIfNeeded(caller: nat, now: int)
    | RotationSucceeds(i: nat, pair: Session)
    | RotationFails(i: nat)
    | Login(pair: Session)
    | LogoutCalled
    | LogoutAnswered

  function Called(w: World, caller: nat, result: (Store, Outcome)): World {
    match result.1
    case Answer(ok) => w.(store := result.0, answered := w.answered[caller := ok])
    case Share => w.(store := result.0, waiting := w.waiting + {caller})
    case Post(token) =>
      w.(store := result.0, waiting := w.waiting + {caller}, outstanding := w.outstanding + [token], posted := w.posted + [token])
  }

  function Settled(w: World, i: nat, pair: Option<Session>): World
    requires i < |w.outstanding|
  {
    World(Rotated(w.store, pair), w.outstanding[..i] + w.outstanding[i + 1..], w.posted,
          if pair.Some? then w.issued + {pair.value.refresh} else w.issued,
          {}, w.answered + map caller | caller in w.waiting :: pair.Some?, w.leaving)
  }

  /** Any caller calls, any answer comes, in any order; the server only gives out tokens
      it never gave out before. */
  ghost predicate Next(w: World, e: Event, w': World) {
    match e
    case CallRefresh(caller) =>
      && caller !in w.waiting && caller !in w.answered
      && w' == Called(w, caller, Refresh(w.store))
    case CallIfNeeded(caller, now) =>
      && caller !in w.waiting && caller !in w.answered
      && w' == Called(w, caller, RefreshIfNeeded(w.store, now))
    case RotationSucceeds(i, pair) =>
      && i < |w.outstanding| && pair.refresh !in w.issued
      && w' == Settled(w, i, Some(pair))
    case RotationFails(i) =>
      && i < |w.outstanding|
      && w' == Settled(w, i, None)
    case Login(pair) =>
      && pair.refresh !in w.issued
      && w' == w.(store := Opened(w.store, pair), issued := w.issued + {pair.refresh})
    case LogoutCalled => w' == if w.store.session.Some? then w.(leaving := w.leaving + 1) else w
    case LogoutAnswered => w.leaving > 0 && w' == w.(store := LoggedOut(w.store), leaving := w.leaving - 1)
  }

  predicate Distinct(s: seq<Token>) { forall i, j :: 0 <= i < j < |s| ==> s[i] != s[j] }

  ghost predicate Init(w: World) { w == World(Store(None, false), [], [], {}, {}, map[], 0) }

  ghost predicate Inv(w: World) {
    // one rotation at most, whose token was posted last
    && |w.outstanding| <= 1 && (w.store.inFlight <==> |w.outstanding| == 1)
    && (w.waiting != {} ==> w.store.inFlight)
    // the token of the session was not posted, unless it is being rotated
    && (w.store.session.Some? ==>
          var token := w.store.session.value.refresh;
          token in w.issued && (token in w.posted ==> w.outstanding == [token]))
    && (forall token :: token in w.posted ==> token in w.issued)
    && Distinct(w.posted)
  }

  lemma AnswerKeepsInv(w: World, caller: nat, ok: bool)
    requires Inv(w)
    ensures Inv(Called(w, caller, (w.store, Answer(ok))))
  {}

  lemma RefreshKeepsInv(w: World, caller: nat)
    requires Inv(w)
    ensures Inv(Called(w, caller, Refresh(w.store)))
  {
    var s := w.store;
    if s.session.Some? && !s.inFlight {
      var token := s.session.value.refresh;
      assert w.outstanding == [];
      assert token !in w.posted;
      assert Distinct(w.posted + [token]);
    }
  }

  lemma SettledKeepsInv(w: World, i: nat, pair: Option<Session>)
    requires Inv(w) && i < |w.outstanding|
    requires pair.Some? ==> pair.value.refresh !in w.issued
    ensures Inv(Settled(w, i, pair))
  {
    hide Distinct;
    assert w.outstanding[..i] + w.outstanding[i + 1..] == [];
  }

  /** Every step keeps one rotation at most, and never leaves a posted token to be posted again. */
  lemma StepKeepsInv(w: World, e: Event, w': World)
    requires Inv(w) && Next(w, e, w')
    ensures Inv(w')
  {
    hide Called, Settled, Distinct, Refresh;
    match e
    case CallRefresh(caller) => RefreshKeepsInv(w, caller);
    case CallIfNeeded(caller, now) =>
      if w.store.session.None? || !ExpiresSoon(w.store.session.value, now) {
        AnswerKeepsInv(w, caller, w.store.session.Some?);
      } else {
        RefreshKeepsInv(w, caller);
      }
    case RotationSucceeds(i, pair) => SettledKeepsInv(w, i, Some(pair));
    case RotationFails(i) => SettledKeepsInv(w, i, None);
    case Login(_) =>
    case LogoutCalled =>
    case LogoutAnswered =>
  }

  // ----- whole runs -----

  ghost predicate Steps(worlds: seq<World>, events: seq<Event>) {
    && |worlds| == |events| + 1
    && forall i :: 0 <= i < |events| ==> Next(worlds[i], events[i], worlds[i + 1])
  }

  ghost predicate Run(worlds: seq<World>, events: seq<Event>) {
    Steps(worlds, events) && Init(worlds[0])
  }

  lemma {:induction false} StepsKeepInv(worlds: seq<World>, events: seq<Event>, k: nat)
    requires Steps(worlds, events) && Inv(worlds[0]) && k <= |events|
    ensures Inv(worlds[k])
  {
    hide Inv, Next;
    if k > 0 {
      StepsKeepInv(worlds, events, k - 1);
      StepKeepsInv(worlds[k - 1], events[k - 1], worlds[k]);
    }
  }

  lemma InitIsInv(w: World)
    requires Init(w)
    ensures Inv(w)
  {}

  /** Over every run at most one rotation is on the wire, and no refresh token is ever
      posted to it twice. */
  lemma RotationIsSingleFlight(worlds: seq<World>, events: seq<Event>)
    requires Run(worlds, events)
    ensures |worlds[|events|].outstanding| <= 1 && Distinct(worlds[|events|].posted)
  {
    InitIsInv(worlds[0]);
    StepsKeepInv(worlds, events, |events|);
  }

  // ----- who shares a rotation -----

  predicate Settles(e: Event) { e.RotationSucceeds? || e.RotationFails? }

  predicate IsCall(e: Event, caller: nat) {
    (e.CallRefresh? || e.CallIfNeeded?) && e.caller == caller
  }

  /** What a caller can tell before it calls: a session is open and, for the call that
      spares a fresh token, its expiry is past, at most two minutes away, or unreadable. */
  predicate NeedsRotation(session: Option<Session>, e: Event)
    requires e.CallRefresh? || e.CallIfNeeded?
  {
    session.Some? && (e.CallIfNeeded? ==>
      session.value.expiresAt.None? || session.value.expiresAt.value <= e.now + 2 * 60 * 1000)
  }

  /** A call during a rotation shares it if and only if it needs one: without a session
      it is answered false at once, although a rotation is in flight. A call outside of a
      rotation posts one under the same condition, and no other call posts. */
  lemma SharesIff(w: World, e: Event, w': World, caller: nat)
    requires Inv(w) && Next(w, e, w') && IsCall(e, caller)
    ensures caller in w'.waiting <==> NeedsRotation(w.store.session, e)
    ensures caller !in w'.waiting ==> caller in w'.answered && w'.answered[caller] == w.store.session.Some?
    ensures w'.posted == w.posted + (if NeedsRotation(w.store.session, e) && w.outstanding == []
                                     then [w.store.session.value.refresh] else [])
  {}

  /** Everyone who waits when a rotation settles gets its outcome. */
  lemma SettlingAnswers(w: World, e: Event, w': World)
    requires Inv(w) && Next(w, e, w') && Settles(e)
    ensures w'.waiting == {} && !w'.store.inFlight && w'.outstanding == []
    ensures forall caller :: caller in w.waiting ==> caller in w'.answered && w'.answered[caller] == e.RotationSucceeds?
  {}

  lemma CalledKeeps(w: World, other: nat, result: (Store, Outcome), caller: nat)
    requires other !in w.waiting && other !in w.answered
    ensures var w' := Called(w, other, result);
            && (caller in w.waiting ==> caller in w'.waiting)
            && (caller in w.answered && caller !in w.waiting ==>
                  caller in w'.answered && caller !in w'.waiting && w'.answered[caller] == w.answered[caller])
  {}

  /** Nothing but a settled rotation ends the wait of a caller, and an answer stands. */
  lemma WaitingAndAnswersStay(w: World, e: Event, w': World, caller: nat)
    requires Next(w, e, w')
    ensures !Settles(e) && caller in w.waiting ==> caller in w'.waiting
    ensures caller in w.answered && caller !in w.waiting ==>
      caller in w'.answered && caller !in w'.waiting && w'.answered[caller] == w.answered[caller]
  {
    hide Called, Refresh, RefreshIfNeeded;
    match e
    case CallRefresh(other) => CalledKeeps(w, other, Refresh(w.store), caller);
    case CallIfNeeded(other, now) => CalledKeeps(w, other, RefreshIfNeeded(w.store, now), caller);
    case RotationSucceeds(_, _) =>
    case RotationFails(_) =>
    case Login(_) =>
    case LogoutCalled =>
    case LogoutAnswered =>
  }

  lemma {:induction false} AnswerStays(worlds: seq<World>, events: seq<Event>, caller: nat, i: nat, m: nat)
    requires Run(worlds, events) && i <= m <= |events|
    requires caller in worlds[i].answered && caller !in worlds[i].waiting
    ensures caller in worlds[m].answered && caller !in worlds[m].waiting
    ensures worlds[m].answered[caller] == worlds[i].answered[caller]
  {
    hide Inv, Next, Init;
    if i < m {
      AnswerStays(worlds, events, caller, i, m - 1);
      WaitingAndAnswersStay(worlds[m - 1], events[m - 1], worlds[m], caller);
    }
  }

  lemma {:induction false} WaitingStays(worlds: seq<World>, events: seq<Event>, caller: nat, i: nat, j: nat)
    requires Run(worlds, events) && i <= j <= |events|
    requires caller in worlds[i].waiting
    requires forall k :: i <= k < j ==> !Settles(events[k])
    ensures caller in worlds[j].waiting
  {
    hide Inv, Next, Init;
    if i < j {
      WaitingStays(worlds, events, caller, i, j - 1);
      WaitingAndAnswersStay(worlds[j - 1], events[j - 1], worlds[j], caller);
    }
  }

  /** Over every run: a call at step i that needs a rotation is answered with the outcome
      of the next rotation to settle, at step j, and with nothing before; any other call
      is answered at once, with whether a session is open. Neither answer changes later. */
  lemma CallersShareTheOutcome(worlds: seq<World>, events: seq<Event>, caller: nat, i: nat, j: nat, m: nat)
    requires Run(worlds, events) && i < j < m <= |events|
    requires IsCall(events[i], caller)
    requires Settles(events[j]) && forall k :: i < k < j ==> !Settles(events[k])
    ensures NeedsRotation(worlds[i].store.session, events[i]) ==> forall k :: i < k <= j ==> caller in worlds[k].waiting
    ensures caller in worlds[m].answered
    ensures worlds[m].answered[caller] == if NeedsRotation(worlds[i].store.session, events[i]) then events[j].RotationSucceeds?
                                          else worlds[i].store.session.Some?
  {
    hide Inv, Next, Init, NeedsRotation;
    InitIsInv(worlds[0]);
    StepsKeepInv(worlds, events, i);
    SharesIff(worlds[i], events[i], worlds[i + 1], caller);
    if NeedsRotation(worlds[i].store.session, events[i]) {
      forall k | i < k <= j ensures caller in worlds[k].waiting {
        WaitingStays(worlds, events, caller, i + 1, k);
      }
      StepsKeepInv(worlds, events, j);
      SettlingAnswers(worlds[j], events[j], worlds[j + 1]);
      AnswerStays(worlds, events, caller, j + 1, m);
    } else {
      AnswerStays(worlds, events, caller, i + 1, m);
    }
  }

  /** Whether a session is open after some steps in which no rotation settles. */
  function OpenAfter(open: bool, events: seq<Event>): bool {
    if events == [] then open
    else
      match events[|events| - 1]
      case Login(_) => true
      case LogoutAnswered => false
      case _ => OpenAfter(open, events[..|events| - 1])
  }

  lemma OpenAfterSnoc(open: bool, events: seq<Event>, e: Event)
    ensures OpenAfter(open, events + [e]) == if e.Login? then true else if e.LogoutAnswered? then false else OpenAfter(open, events)
  {
    assert (events + [e])[..|events|] == events;
  }

  lemma OpenAfterNothing(open: bool)
    ensures OpenAfter(open, []) == open
  {}

  lemma OpenStep(w: World, e: Event, w': World)
    requires Next(w, e, w') && !Settles(e)
    ensures w'.store.session.Some? == if e.Login? then true else if e.LogoutAnswered? then false else w.store.session.Some?
  {}

  lemma {:induction false} SessionBetween(worlds: seq<World>, events: seq<Event>, i: nat, k: nat)
    requires Steps(worlds, events) && i <= k <= |events|
    requires forall n :: i <= n < k ==> !Settles(events[n])
    ensures worlds[k].store.session.Some? == OpenAfter(worlds[i].store.session.Some?, events[i..k])
  {
    hide Next, Settles, OpenAfter;
    if i == k {
      OpenAfterNothing(worlds[i].store.session.Some?);
      assert events[i..k] == [];
    } else {
      SessionBetween(worlds, events, i, k - 1);
      OpenStep(worlds[k - 1], events[k - 1], worlds[k]);
      OpenAfterSnoc(worlds[i].store.session.Some?, events[i..k - 1], events[k - 1]);
      assert events[i..k] == events[i..k - 1] + [events[k - 1]];
    }
  }

  /** A caller of `refresh` that arrives at step k, while the rotation posted at step i is
      out, shares it if and only if the last login or answered logout since then, if any, is
      a login. */
  lemma SharesUnlessLoggedOut(worlds: seq<World>, events: seq<Event>, first: nat, caller: nat, i: nat, k: nat)
    requires Run(worlds, events) && i < k < |events|
    requires events[i] == CallRefresh(first) && events[k] == CallRefresh(caller)
    requires worlds[i].outstanding == [] && worlds[i + 1].outstanding != []
    requires forall n :: i < n < k ==> !Settles(events[n])
    ensures caller in worlds[k + 1].waiting <==> OpenAfter(true, events[i + 1..k])
  {
    hide Inv, Init, OpenAfter;
    InitIsInv(worlds[0]);
    StepsKeepInv(worlds, events, i);
    StepsKeepInv(worlds, events, k);
    assert Next(worlds[i], events[i], worlds[i + 1]);
    assert worlds[i + 1].store.session.Some?;
    SessionBetween(worlds, events, i + 1, k);
    SharesIff(worlds[k], events[k], worlds[k + 1], caller);
  }

  lemma StepsSnoc(worlds: seq<World>, events: seq<Event>, e: Event, w: World)
    requires Run(worlds, events) && Next(worlds[|events|], e, w)
    ensures Run(worlds + [w], events + [e])
  {
    hide Next, Init;
  }

  const FIRST := Session(1, None)

  /** A login, a rotation posted for it, and a logout. */
  const LEFT_EARLY: seq<Event> := [Login(FIRST), CallRefresh(7), LogoutCalled, LogoutAnswered]

  lemma LeftEarly() returns (worlds: seq<World>)
    ensures Run(worlds, LEFT_EARLY) && |worlds| == 5
    ensures worlds[4] == World(Store(None, true), [1], [1], {1}, {7}, map[], 0)
  {
    var w0 := World(Store(None, false), [], [], {}, {}, map[], 0);
    var w1 := w0.(store := Store(Some(FIRST), false), issued := {1});
    var w2 := w1.(store := Store(Some(FIRST), true), waiting := {7}, outstanding := [1], posted := [1]);
    var w3 := w2.(leaving := 1);
    var w4 := w3.(store := Store(None, true), leaving := 0);
    worlds := [w0, w1, w2, w3, w4];
    assert Next(w0, LEFT_EARLY[0], w1) && Next(w1, LEFT_EARLY[1], w2);
    assert Next(w2, LEFT_EARLY[2], w3) && Next(w3, LEFT_EARLY[3], w4);
    hide Next;
  }

  /** A run in which two callers of one rotation part ways: the second arrives after a
      logout and is answered false at once, the first is answered true, and the rotation
      opens the session again. */
  lemma LogoutPartsCallers()
    returns (worlds: seq<World>, events: seq<Event>)
    ensures Run(worlds, events) && |worlds| == 7
    ensures events == LEFT_EARLY + [CallRefresh(8)] + [RotationSucceeds(0, Session(2, None))]
    ensures worlds[4].store == Store(None, true)
    ensures 7 in worlds[6].answered && worlds[6].answered[7]
    ensures 8 in worlds[6].answered && !worlds[6].answered[8]
    ensures worlds[6].store.session.Some?
  {
    worlds := LeftEarly();
    events := LEFT_EARLY;
    hide Run;
    var w5 := worlds[4].(answered := map[8 := false]);
    StepsSnoc(worlds, events, CallRefresh(8), w5);
    worlds, events := worlds + [w5], events + [CallRefresh(8)];
    var w6 := Settled(w5, 0, Some(Session(2, None)));
    StepsSnoc(worlds, events, RotationSucceeds(0, Session(2, None)), w6);
    worlds, events := worlds + [w6], events + [RotationSucceeds(0, Session(2, None))];
  }

  // ----- how long a logout lasts -----

  predicate NoLogin(events: seq<Event>) { forall i :: 0 <= i < |events| ==> !events[i].Login? }

  lemma {:induction false} ClosedStays(worlds: seq<World>, events: seq<Event>, k: nat)
    requires Steps(worlds, events) && Inv(worlds[0]) && k <= |events|
    requires worlds[0].store.session.None? && worlds[0].outstanding == []
    requires NoLogin(events)
    ensures worlds[k].store.session.None? && worlds[k].outstanding == []
  {
    if k > 0 {
      ClosedStays(worlds, events, k - 1);
      assert Next(worlds[k - 1], events[k - 1], worlds[k]);
    }
  }

  /** Some token was not given out yet. */
  lemma {:induction false} NewToken(issued: set<Token>) returns (token: Token)
    ensures forall t :: t in issued ==> t < token
  {
    if forall t :: t !in issued {
      token := 0;
    } else {
      var t :| t in issued;
      token := NewToken(issued - {t});
      assert forall u :: u in issued ==> u == t || u in issued - {t};
      if token <= t {
        token := t + 1;
      }
    }
  }

  /** However things go on, no session opens before the next login. */
  ghost predicate ClosedUntilLogin(w: World) {
    forall worlds: seq<World>, events: seq<Event> ::
      Steps(worlds, events) && worlds[0] == w && NoLogin(events) ==> worlds[|events|].store.session.None?
  }

  /** A logout lasts until the next login if and only if no rotation is out when the server
      has answered it: one that is opens the session again. */
  lemma LogoutLastsIff(w: World, w': World)
    requires Inv(w) && Next(w, LogoutAnswered, w')
    ensures ClosedUntilLogin(w') <==> w.outstanding == []
  {
    hide Inv;
    StepKeepsInv(w, LogoutAnswered, w');
    if w.outstanding == [] {
      forall worlds: seq<World>, events: seq<Event> | Steps(worlds, events) && worlds[0] == w' && NoLogin(events)
        ensures worlds[|events|].store.session.None?
      {
        ClosedStays(worlds, events, |events|);
      }
    } else {
      var token := NewToken(w'.issued);
      var e := RotationSucceeds(0, Session(token, None));
      var after := Settled(w', 0, Some(Session(token, None)));
      assert Next(w', e, after);
      var worlds, events := [w', after], [e];
      assert Steps(worlds, events);
      assert worlds[|events|].store.session.Some?;
    }
  }

  lemma PostedStep(w: World, e: Event, w': World)
    requires Next(w, e, w')
    ensures w.posted <= w'.posted
    ensures w'.posted == w.posted && w.outstanding == [] ==> w'.outstanding == []
    ensures w'.posted == w.posted && w.outstanding == [] && !e.Login? && !e.LogoutAnswered? ==>
      w'.store.session == w.store.session
  {}

  lemma {:induction false} PostedGrows(worlds: seq<World>, events: seq<Event>, i: nat, k: nat)
    requires Steps(worlds, events) && i <= k <= |events|
    ensures worlds[i].posted <= worlds[k].posted
  {
    hide Next;
    if i < k {
      PostedGrows(worlds, events, i, k - 1);
      PostedStep(worlds[k - 1], events[k - 1], worlds[k]);
    }
  }

  /** While no rotation is posted, none is out. */
  lemma {:induction false} QuietStays(worlds: seq<World>, events: seq<Event>, i: nat, k: nat)
    requires Steps(worlds, events) && i <= k <= |events|
    requires worlds[i].outstanding == [] && worlds[k].posted == worlds[i].posted
    ensures worlds[k].outstanding == []
  {
    hide Next;
    if i < k {
      PostedGrows(worlds, events, i, k - 1);
      PostedStep(worlds[k - 1], events[k - 1], worlds[k]);
      QuietStays(worlds, events, i, k - 1);
    }
  }

  /** What a caller of `logout` can rely on: when nothing is in flight at the call, and no
      call posts a rotation before the answer, the session stays closed until the next login. */
  lemma QuietLogoutLasts(worlds: seq<World>, events: seq<Event>, i: nat, j: nat)
    requires Run(worlds, events) && i < j < |events|
    requires events[i] == LogoutCalled && events[j] == LogoutAnswered
    requires worlds[i].outstanding == [] && worlds[j].posted == worlds[i].posted
    ensures ClosedUntilLogin(worlds[j + 1])
  {
    hide Inv, Init, ClosedUntilLogin;
    InitIsInv(worlds[0]);
    StepsKeepInv(worlds, events, j);
    QuietStays(worlds, events, i, j);
    LogoutLastsIff(worlds[j], worlds[j + 1]);
  }

  /** A run in which nothing is in flight when `logout` is called, and the logout is undone:
      a rotation is posted while the server is being asked. */
  lemma QuietCallIsNotEnough()
    returns (worlds: seq<World>, events: seq<Event>)
    ensures Run(worlds, events)
    ensures events == [Login(Session(1, None)), LogoutCalled, CallRefresh(7), LogoutAnswered,
                       RotationSucceeds(0, Session(2, None))]
    ensures worlds[1].outstanding == [] && worlds[4].store.session.None? && worlds[5].store.session.Some?
  {
    var a, b := Session(1, None), Session(2, None);
    events := [Login(a), LogoutCalled, CallRefresh(7), LogoutAnswered, RotationSucceeds(0, b)];
    var w0 := World(Store(None, false), [], [], {}, {}, map[], 0);
    var w1 := w0.(store := Store(Some(a), false), issued := {1});
    var w2 := w1.(leaving := 1);
    var w3 := w2.(store := Store(Some(a), true), waiting := {7}, outstanding := [1], posted := [1]);
    var w4 := w3.(store := Store(None, true), leaving := 0);
    var w5 := Settled(w4, 0, Some(b));
    worlds := [w0, w1, w2, w3, w4, w5];
    assert Next(w0, events[0], w1) && Next(w1, events[1], w2) && Next(w2, events[2], w3);
    assert Next(w3, events[3], w4) && Next(w4, events[4], w5);
    hide Next;
  }

  // ----- how long a login lasts -----

  /** Nobody logs in, no logout is answered, and no rotation is posted. */
  predicate Undisturbed(worlds: seq<World>, events: seq<Event>)
    requires |worlds| == |events| + 1
  {
    && NoLogin(events) && (forall i :: 0 <= i < |events| ==> !events[i].LogoutAnswered?)
    && worlds[|events|].posted == worlds[0].posted
  }

  /** However things go on, the session stays as it is while it is not disturbed. */
  ghost predicate SessionKept(w: World) {
    forall worlds: seq<World>, events: seq<Event> ::
      Steps(worlds, events) && worlds[0] == w && Undisturbed(worlds, events) ==>
        worlds[|events|].store.session == w.store.session
  }

  lemma {:induction false} SessionStays(worlds: seq<World>, events: seq<Event>, k: nat)
    requires Steps(worlds, events) && Undisturbed(worlds, events) && k <= |events|
    requires worlds[0].outstanding == []
    ensures worlds[k].store.session == worlds[0].store.session
  {
    hide Next;
    if k > 0 {
      SessionStays(worlds, events, k - 1);
      PostedGrows(worlds, events, 0, k - 1);
      PostedGrows(worlds, events, k - 1, k);
      PostedGrows(worlds, events, k, |events|);
      QuietStays(worlds, events, 0, k - 1);
      PostedStep(worlds[k - 1], events[k - 1], worlds[k]);
    }
  }

  /** The session of a login lasts until the next login, the next answered logout or the
      next rotation posted, if and only if no older rotation is out when it opens: that one
      overwrites the session or ends it. */
  lemma LoginLastsIff(w: World, pair: Session, w': World)
    requires Inv(w) && Next(w, Login(pair), w')
    ensures w'.store.session == Some(pair)
    ensures SessionKept(w') <==> w.outstanding == []
  {
    hide Inv;
    if w.outstanding == [] {
      forall worlds: seq<World>, events: seq<Event> |
        Steps(worlds, events) && worlds[0] == w' && Undisturbed(worlds, events)
        ensures worlds[|events|].store.session == w'.store.session
      {
        SessionStays(worlds, events, |events|);
      }
    } else {
      var e := RotationFails(0);
      var after := Settled(w', 0, None);
      assert Next(w', e, after);
      var worlds, events := [w', after], [e];
      assert Steps(worlds, events) && Undisturbed(worlds, events);
      assert worlds[|events|].store.session == None;
    }
  }

  /** A run in which a login is overwritten by the rotation of the session before it. */
  lemma LoginIsOverwritten()
    returns (worlds: seq<World>, events: seq<Event>)
    ensures Run(worlds, events) && |worlds| == 7
    ensures events == LEFT_EARLY + [Login(Session(5, None))] + [RotationSucceeds(0, Session(9, None))]
    ensures worlds[5].store.session == Some(Session(5, None)) && worlds[6].store.session == Some(Session(9, None))
  {
    worlds := LeftEarly();
    events := LEFT_EARLY;
    hide Run;
    var w5 := worlds[4].(store := Store(Some(Session(5, None)), true), issued := {1, 5});
    StepsSnoc(worlds, events, Login(Session(5, None)), w5);
    worlds, events := worlds + [w5], events + [Login(Session(5, None))];
    var w6 := Settled(w5, 0, Some(Session(9, None)));
    StepsSnoc(worlds, events, RotationSucceeds(0, Session(9, None)), w6);
    worlds, events := worlds + [w6], events + [RotationSucceeds(0, Session(9, None))];
  }
}
