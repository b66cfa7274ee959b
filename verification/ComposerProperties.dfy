/**
 What listeners of the composer can rely on: notifications and identifiers.
 */
module ComposerProperties {
  import opened Options
  import opened ComposerModel

  // ---------------------------------------------------------------- notifications

  /** The mode the listener knows: the last one it was told, or the one at its registration. */
  function Known(l: Listener): Mode {
    if |l.inbox| == 0 then l.since else l.inbox[|l.inbox| - 1]
  }

  predicate Follows(l: Listener) { MODE_CHANGE in l.msg && l.name != "VideoDriver" }

  /** Up to the transient post-processing bit, a following listener knows the mode. */
  predicate InSync(l: Listener, mode: Mode) {
    Follows(l) ==> Known(l) - {VppChanged} == mode - {VppChanged}
  }

  /** The only silent change of the mode: a callback registration that finds
      the connection changed. */
  predicate Quiet(s: State, e: Event) {
    e.RegisterCallback? && e.present ==> WithConnection(s.mode, e.connection) == s.mode
  }

  lemma BroadcastSyncs(ls: map<int, Listener>, mode: Mode, skip: bool, id: int)
    requires id in ls
    ensures var l := Broadcast(ls, mode, skip)[id];
            Follows(l) ==> Known(l) == mode && Follows(ls[id])
  {
  }

  /** Every step keeps a listener in sync exactly when it is not a silent change. */
  lemma StepSync(s: State, e: Event, id: int)
    requires |s.videos| == SESSIONS && ModeMatches(s)
    requires id in s.listeners && InSync(s.listeners[id], s.mode) && id in Step(s, e).listeners
    ensures InSync(Step(s, e).listeners[id], Step(s, e).mode) <==> Quiet(s, e) || !Follows(s.listeners[id])
  {
    var t := Step(s, e);
    match e
    case WidiHotplug(_) => BroadcastSyncs(s.listeners, t.mode, false, id);
    case HdmiHotplug(_) => if t.mode != s.mode { BroadcastSyncs(s.listeners, t.mode, false, id); }
    case VideoState(_, state) => if t.mode != s.mode { BroadcastSyncs(s.listeners, t.mode, state >= UNPREPARED, id); }
    case ResetPlayback => if !AllUnprepared(s.videos) { BroadcastSyncs(s.listeners, t.mode, false, id); }
    case SetVpp(_, _, status) =>
      if status != -1 {
        BroadcastSyncs(s.listeners, s.mode + {VppChanged}, false, id);
        assert s.mode + {VppChanged} - {VppChanged} == s.mode - {VppChanged};
      }
    case RegisterCallback(present, c) =>
      if present { SilentChange(s.mode, c); }
    case _ =>
  }

  lemma SilentChange(mode: Mode, c: Connection)
    requires VppChanged !in mode
    ensures WithConnection(mode, c) - {VppChanged} == mode - {VppChanged} <==> WithConnection(mode, c) == mode
  {
    assert mode - {VppChanged} == mode;
    assert WithConnection(mode, c) - {VppChanged} == WithConnection(mode, c);
  }

  lemma FreshListenerInSync(s: State, e: Event, id: int)
    requires |s.videos| == SESSIONS && id in Step(s, e).listeners
    requires id !in s.listeners
    ensures e.Register? && InSync(Step(s, e).listeners[id], Step(s, e).mode)
  {
  }

  function RunFrom(s: State, es: seq<Event>): (r: State)
    requires |s.videos| == SESSIONS
    ensures |r.videos| == SESSIONS
  {
    if |es| == 0 then s else
      var t := RunFrom(s, es[..|es| - 1]);
      StepShape(t, es[|es| - 1]);
      Step(t, es[|es| - 1])
  }

  ghost predicate QuietRun(s: State, es: seq<Event>)
    requires |s.videos| == SESSIONS
  {
    forall i :: 0 <= i < |es| ==> Quiet(RunFrom(s, es[..i]), es[i])
  }

  lemma {:induction false} RunFromMatches(s: State, es: seq<Event>)
    requires |s.videos| == SESSIONS && ModeMatches(s)
    ensures ModeMatches(RunFrom(s, es))
  {
    if |es| > 0 {
      RunFromMatches(s, es[..|es| - 1]);
      StepKeepsModeMatches(RunFrom(s, es[..|es| - 1]), es[|es| - 1]);
    }
  }

  /** From the registration of a listener on, through any events without a
      silent change, a listener for mode changes other than the video driver
      has last been told the current mode, or the mode is still the one at its
      registration. */
  lemma {:induction false} ListenerStaysInSync(s: State, es: seq<Event>, id: int)
    requires |s.videos| == SESSIONS && ModeMatches(s) && QuietRun(s, es)
    requires id in s.listeners ==> InSync(s.listeners[id], s.mode)
    ensures id in RunFrom(s, es).listeners ==> InSync(RunFrom(s, es).listeners[id], RunFrom(s, es).mode)
  {
    if |es| > 0 {
      var front, e := es[..|es| - 1], es[|es| - 1];
      assert forall i :: 0 <= i < |front| ==> front[..i] == es[..i];
      ListenerStaysInSync(s, front, id);
      RunFromMatches(s, front);
      var t := RunFrom(s, front);
      if id in Step(t, e).listeners {
        if id in t.listeners { StepSync(t, e, id); } else { FreshListenerInSync(t, e, id); }
      }
    }
  }

  const WATCHER := Register(Some("Watcher"), {MODE_CHANGE}, true)

  /** Two events after which a listener for mode changes has been told nothing
      and knows a mode that is not the current one. */
  lemma CallbackChangesSilently()
    ensures var s := Run(Disconnected, [WATCHER, RegisterCallback(true, Hdmi)]);
            && 0 in s.listeners && Follows(s.listeners[0]) && s.listeners[0].inbox == []
            && HdmiConnected in s.mode && !InSync(s.listeners[0], s.mode)
  {
    var es := [WATCHER, RegisterCallback(true, Hdmi)];
    RunSnoc(Disconnected, [], WATCHER);
    RunSnoc(Disconnected, [WATCHER], RegisterCallback(true, Hdmi));
    assert es == [WATCHER] + [RegisterCallback(true, Hdmi)] && [WATCHER] == [] + [WATCHER];
    var s := Run(Disconnected, es);
    assert "Watcher"[0] != "VideoDriver"[0];
    assert HdmiConnected in s.mode - {VppChanged} && HdmiConnected !in Known(s.listeners[0]);
  }

  lemma RunSnoc(c: Connection, es: seq<Event>, e: Event)
    ensures Run(c, es + [e]) == Step(Run(c, es), e)
  {
    assert (es + [e])[..|es|] == es;
  }

  // ---------------------------------------------------------------- sessions, connections, listeners

  /** The state last set for the session since the last reset, or unprepared. */
  function LastState(es: seq<Event>, session: nat): int {
    if |es| == 0 then UNPREPARED
    else
      match es[|es| - 1]
      case ResetPlayback => UNPREPARED
      case VideoState(k, state) =>
        if k == session && PREPARING <= state <= UNPREPARED then state else LastState(es[..|es| - 1], session)
      case _ => LastState(es[..|es| - 1], session)
  }

  lemma SessionStep(s: State, e: Event, session: nat)
    requires |s.videos| == SESSIONS && session < SESSIONS
    ensures Step(s, e).videos[session] ==
              match e
              case ResetPlayback => UNPREPARED
              case VideoState(k, state) =>
                if k == session && PREPARING <= state <= UNPREPARED then state else s.videos[session]
              case _ => s.videos[session]
  {
  }

  /** In every run each session holds the state last set for it since the last
      reset, or is unprepared. */
  lemma {:induction false} SessionsHoldLastState(c: Connection, es: seq<Event>, session: nat)
    requires session < SESSIONS
    ensures Run(c, es).videos[session] == LastState(es, session)
  {
    if |es| > 0 {
      SessionsHoldLastState(c, es[..|es| - 1], session);
      SessionStep(Run(c, es[..|es| - 1]), es[|es| - 1], session);
    }
  }

  /** The last report about the wireless display, initially not connected. */
  function LastWidi(es: seq<Event>): bool {
    if |es| == 0 then false
    else if es[|es| - 1].WidiHotplug? then es[|es| - 1].connected
    else LastWidi(es[..|es| - 1])
  }

  lemma WidiStep(s: State, e: Event)
    requires |s.videos| == SESSIONS
    ensures WidiOn in Step(s, e).mode <==> if e.WidiHotplug? then e.connected else WidiOn in s.mode
  {
  }

  /** In every run the wireless bit says what was reported last. */
  lemma {:induction false} WidiBitExact(c: Connection, es: seq<Event>)
    ensures WidiOn in Run(c, es).mode <==> LastWidi(es)
  {
    if |es| > 0 {
      WidiBitExact(c, es[..|es| - 1]);
      WidiStep(Run(c, es[..|es| - 1]), es[|es| - 1]);
    }
  }

  /** The driver status an event brings, if any. */
  function Reported(e: Event): Option<Connection> {
    match e
    case HdmiHotplug(c) => Some(c)
    case RegisterCallback(present, c) => if present then Some(c) else None
    case _ => None
  }

  /** Whether the cable was reported with status `c` since it was last reported
      disconnected; `first` is the status at the start. */
  function SeenSinceDisconnect(first: Connection, es: seq<Event>, c: Connection): bool {
    if |es| == 0 then first == c
    else
      var r := Reported(es[|es| - 1]);
      if r == Some(Disconnected) then false
      else r == Some(c) || SeenSinceDisconnect(first, es[..|es| - 1], c)
  }

  lemma CableStep(s: State, e: Event)
    requires |s.videos| == SESSIONS
    ensures HdmiConnected in Step(s, e).mode
            <==> Reported(e) != Some(Disconnected) && (Reported(e) == Some(Hdmi) || HdmiConnected in s.mode)
    ensures DviConnected in Step(s, e).mode
            <==> Reported(e) != Some(Disconnected) && (Reported(e) == Some(Dvi) || DviConnected in s.mode)
  {
  }

  /** In every run the two cable bits collect the statuses reported since the last
      disconnection: one does not clear the other. */
  lemma {:induction false} CableBitsExact(first: Connection, es: seq<Event>)
    ensures HdmiConnected in Run(first, es).mode <==> SeenSinceDisconnect(first, es, Hdmi)
    ensures DviConnected in Run(first, es).mode <==> SeenSinceDisconnect(first, es, Dvi)
  {
    if |es| > 0 {
      CableBitsExact(first, es[..|es| - 1]);
      CableStep(Run(first, es[..|es| - 1]), es[|es| - 1]);
    }
  }

  /** Which listener an event adds or removes; all others keep their registration. */
  lemma ListenersChangeExactly(s: State, e: Event, id: int)
    requires |s.videos| == SESSIONS
    ensures id in Step(s, e).listeners
            <==> || (Succeeds(s, e) && id == s.listenerId)
                 || (id in s.listeners && !(e.Unregister? && e.id == id && id >= 0))
    ensures id in s.listeners && id in Step(s, e).listeners ==>
              var l, l' := s.listeners[id], Step(s, e).listeners[id];
              l'.name == l.name && l'.msg == l.msg && l'.since == l.since && l.inbox <= l'.inbox
    ensures Succeeds(s, e) && id == s.listenerId ==>
              Step(s, e).listeners[id] == Listener(e.msg, e.name.value, s.mode, [])
  {
  }

  /** When a video state changes the mode, a mode listener misses the message
      exactly if it is the video driver and its session was closed. */
  lemma VideoDriverSparedExactly(s: State, session: int, state: int, id: int)
    requires |s.videos| == SESSIONS && id in s.listeners && MODE_CHANGE in s.listeners[id].msg
    requires Step(s, VideoState(session, state)).mode != s.mode
    ensures var t := Step(s, VideoState(session, state));
            t.listeners[id].inbox == (if s.listeners[id].name == "VideoDriver" && state == UNPREPARED
                                      then s.listeners[id].inbox else s.listeners[id].inbox + [t.mode])
  {
  }

  // ---------------------------------------------------------------- identifiers

  predicate IdsInRange(s: State) {
    0 <= s.listenerId <= MAX_LISTENERS && forall id :: id in s.listeners ==> 0 <= id < MAX_LISTENERS
  }

  predicate Succeeds(s: State, e: Event) {
    e.Register? && CanRegister(s, e.name, e.msg, e.present)
  }

  predicate ValidRequest(e: Event) {
    e.Register? && e.name.Some? && e.msg != {} && e.present
  }

  function Successes(c: Connection, es: seq<Event>): nat {
    if |es| == 0 then 0
    else Successes(c, es[..|es| - 1]) + if Succeeds(Run(c, es[..|es| - 1]), es[|es| - 1]) then 1 else 0
  }

  lemma {:induction false} RunIdsInRange(c: Connection, es: seq<Event>)
    ensures IdsInRange(Run(c, es))
  {
    if |es| > 0 { RunIdsInRange(c, es[..|es| - 1]); }
  }

  lemma {:induction false} BoundedCount(ids: set<int>, n: nat)
    requires forall id :: id in ids ==> 0 <= id < n
    ensures |ids| <= n
    ensures |ids| == n ==> forall id :: 0 <= id < n ==> id in ids
  {
    if n == 0 {
      assert forall id :: id !in ids;
    } else {
      BoundedCount(ids - {n - 1}, n - 1);
    }
  }

  /** The next identifier is `n` and all live identifiers are below it. */
  predicate CountedTo(s: State, n: nat) {
    s.listenerId == n && forall id :: id in s.listeners ==> 0 <= id < n
  }

  lemma StepCounts(s: State, e: Event, n: nat)
    requires |s.videos| == SESSIONS && CountedTo(s, n) && n < MAX_LISTENERS
    ensures !Succeeds(s, e) ==> CountedTo(Step(s, e), n)
    ensures Succeeds(s, e) && n + 1 < MAX_LISTENERS ==> CountedTo(Step(s, e), n + 1)
  {
  }

  /** Until 64 registrations have succeeded, the next identifier is their number
      and all live identifiers are below it. */
  lemma {:induction false} IdsCountUp(c: Connection, es: seq<Event>)
    requires Successes(c, es) < MAX_LISTENERS
    ensures CountedTo(Run(c, es), Successes(c, es))
  {
    if |es| > 0 {
      IdsCountUp(c, es[..|es| - 1]);
      StepCounts(Run(c, es[..|es| - 1]), es[|es| - 1], Successes(c, es[..|es| - 1]));
    }
  }

  /** So every valid registration up to then succeeds, with identifiers
      0, 1, 2, ... whatever is unregistered in between. */
  lemma EarlyRegistrationsSucceed(c: Connection, es: seq<Event>, e: Event)
    requires Successes(c, es) < MAX_LISTENERS && ValidRequest(e)
    ensures RegisterResult(Run(c, es), e.name, e.msg, e.present) == Successes(c, es)
  {
    var s := Run(c, es);
    IdsCountUp(c, es);
    BoundedCount(s.listeners.Keys, Successes(c, es));
  }

  /** In every run an identifier handed out is in range and was not in use. */
  lemma ReturnedIdIsFresh(c: Connection, es: seq<Event>, e: Event)
    requires e.Register?
    ensures var s := Run(c, es);
            var id := RegisterResult(s, e.name, e.msg, e.present);
            id != -1 ==> 0 <= id < MAX_LISTENERS && id !in s.listeners && id in Step(s, e).listeners
  {
    RunIdsInRange(c, es);
  }

  lemma {:induction false} NextUnusedMeaning(ls: map<int, Listener>, id: nat)
    requires id <= MAX_LISTENERS
    ensures forall k :: id <= k < NextUnused(ls, id) ==> k in ls
    ensures NextUnused(ls, id) < MAX_LISTENERS ==> NextUnused(ls, id) !in ls
    decreases MAX_LISTENERS - id
  {
    if id < MAX_LISTENERS && id in ls { NextUnusedMeaning(ls, id + 1); }
  }

  /** The counter gets stuck at the maximum exactly by the registration of
      identifier 63 that leaves all 64 identifiers live. */
  lemma CounterSticksExactly(s: State, e: Event)
    requires |s.videos| == SESSIONS && IdsInRange(s) && s.listenerId < MAX_LISTENERS
    ensures Step(s, e).listenerId == MAX_LISTENERS
            <==> Succeeds(s, e) && s.listenerId == MAX_LISTENERS - 1
                 && forall id :: 0 <= id < MAX_LISTENERS ==> id in Step(s, e).listeners
  {
    if Succeeds(s, e) {
      NextUnusedMeaning(s.listeners[s.listenerId := Listener(e.msg, e.name.value, s.mode, [])], 0);
    }
  }

  /** And then it stays there: no later registration succeeds, even after
      listeners have gone. */
  lemma {:induction false} StuckCounterIsFinal(s: State, es: seq<Event>, e: Event)
    requires |s.videos| == SESSIONS && s.listenerId == MAX_LISTENERS
    ensures RunFrom(s, es).listenerId == MAX_LISTENERS && !Succeeds(RunFrom(s, es), e)
  {
    if |es| > 0 {
      StuckCounterIsFinal(s, es[..|es| - 1], es[|es| - 1]);
    }
  }

  // ---------------------------------------------------------------- a run that gets stuck

  /** The same registration `n` times. */
  function Registrations(e: Event, n: nat): seq<Event> {
    if n == 0 then [] else Registrations(e, n - 1) + [e]
  }

  lemma RegistrationAdds(s: State, e: Event, t: State)
    requires |s.videos| == SESSIONS && Succeeds(s, e) && t == Step(s, e)
    ensures t.listeners.Keys == s.listeners.Keys + {s.listenerId}
  {
  }

  predicate AllLive(s: State, n: nat) {
    forall id :: 0 <= id < n ==> id in s.listeners
  }

  lemma RegistrationExtends(s: State, e: Event, t: State, n: nat)
    requires |s.videos| == SESSIONS && Succeeds(s, e) && t == Step(s, e)
    requires s.listenerId == n && AllLive(s, n)
    ensures AllLive(t, n + 1)
  {
    RegistrationAdds(s, e, t);
  }

  /** After `n` registrations the identifiers below `n` are live. */
  lemma {:induction false} RegistrationsStayLive(c: Connection, e: Event, n: nat)
    requires n < MAX_LISTENERS && ValidRequest(e)
    ensures Successes(c, Registrations(e, n)) == n && AllLive(Run(c, Registrations(e, n)), n)
  {
    if n > 0 {
      RegistrationsStayLive(c, e, n - 1);
      OneMoreRegistration(c, Registrations(e, n - 1), e, n - 1);
    }
  }

  lemma OneMoreRegistration(c: Connection, es: seq<Event>, e: Event, n: nat)
    requires n < MAX_LISTENERS && ValidRequest(e) && Successes(c, es) == n && AllLive(Run(c, es), n)
    ensures Successes(c, es + [e]) == n + 1 && AllLive(Run(c, es + [e]), n + 1)
  {
    EarlyRegistrationsSucceed(c, es, e);
    IdsCountUp(c, es);
    RunSnoc(c, es, e);
    assert (es + [e])[..|es|] == es;
    RegistrationExtends(Run(c, es), e, Run(c, es + [e]), n);
  }

  /** Sixty-four registrations get the counter stuck for good. */
  lemma SixtyFourRegistrationsStick(c: Connection, e: Event, later: seq<Event>, last: Event)
    requires ValidRequest(e)
    ensures var s := Run(c, Registrations(e, MAX_LISTENERS));
            && s.listenerId == MAX_LISTENERS
            && !Succeeds(RunFrom(s, later), last)
  {
    var n := MAX_LISTENERS - 1;
    var es := Registrations(e, n);
    RegistrationsStayLive(c, e, n);
    LastRegistrationSticks(c, es, e, n);
    assert Registrations(e, MAX_LISTENERS) == es + [e];
    StuckCounterIsFinal(Run(c, es + [e]), later, last);
  }

  lemma LastRegistrationSticks(c: Connection, es: seq<Event>, e: Event, n: nat)
    requires n == MAX_LISTENERS - 1 && ValidRequest(e) && Successes(c, es) == n && AllLive(Run(c, es), n)
    ensures Run(c, es + [e]).listenerId == MAX_LISTENERS
  {
    EarlyRegistrationsSucceed(c, es, e);
    RunIdsInRange(c, es);
    RunSnoc(c, es, e);
    FullStateSticks(Run(c, es), e, Run(c, es + [e]));
  }

  lemma FullStateSticks(s: State, e: Event, t: State)
    requires |s.videos| == SESSIONS && IdsInRange(s) && Succeeds(s, e) && t == Step(s, e)
    requires s.listenerId == MAX_LISTENERS - 1 && AllLive(s, MAX_LISTENERS - 1)
    ensures t.listenerId == MAX_LISTENERS
  {
    RegistrationExtends(s, e, t, MAX_LISTENERS - 1);
    CounterSticksExactly(s, e);
  }
}
