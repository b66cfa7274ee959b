/**
 The multi-display composer as a state machine: the display mode, the video
 sessions and the listeners with everything they have been told.
 */
module ComposerModel {
  import opened Options

  const SESSIONS := 16
  const MAX_LISTENERS := 64

  /** The bits of the display mode. */
  datatype Flag = DviConnected | HdmiConnected | WidiOn | VideoOn | VppChanged

  type Mode = set<Flag>

  /** Bit of the only message: a change of the mode. */
  const MODE_CHANGE: nat := 1

  const PREPARING := 1
  const PREPARED := 2
  const UNPREPARED := 4

  /** A listener with its message mask (as a set of bits), the mode at its registration and the modes it received since. */
  datatype Listener = Listener(msg: set<nat>, name: string, since: Mode, inbox: seq<Mode>)

  datatype State = State(
    mode: Mode, videos: seq<int>, listeners: map<int, Listener>, listenerId: int, widiActive: bool)

  datatype Connection = Hdmi | Dvi | Disconnected

  /** Calls from clients, with the answers of the display driver. */
  datatype Event =
    | WidiHotplug(connected: bool)
    | HdmiHotplug(connection: Connection)
    | VideoState(session: int, state: int)
    | ResetPlayback
    | Register(name: Option<string>, msg: set<nat>, present: bool)
    | Unregister(id: int)
    | RegisterCallback(present: bool, connection: Connection)
    | UnregisterCallback
    | SetVpp(isVirtual: bool, connected: bool, status: int)

  // ---------------------------------------------------------------- modes

  function WithVideoBit(mode: Mode, videos: seq<int>): Mode {
    if PREPARED in videos then mode + {VideoOn} else mode - {VideoOn}
  }

  function WithConnection(mode: Mode, c: Connection): Mode {
    match c
    case Hdmi => mode + {HdmiConnected}
    case Dvi => mode + {DviConnected}
    case Disconnected => mode - {HdmiConnected, DviConnected}
  }

  // ---------------------------------------------------------------- notifications

  predicate Receives(l: Listener, skipVideoDriver: bool) {
    !(skipVideoDriver && l.name == "VideoDriver") && MODE_CHANGE in l.msg
  }

  function Told(l: Listener, mode: Mode, skipVideoDriver: bool): Listener {
    if Receives(l, skipVideoDriver) then l.(inbox := l.inbox + [mode]) else l
  }

  function Broadcast(ls: map<int, Listener>, mode: Mode, skipVideoDriver: bool): map<int, Listener> {
    map id | id in ls :: Told(ls[id], mode, skipVideoDriver)
  }

  // ---------------------------------------------------------------- transitions

  function OnHdmiHotplug(s: State, c: Connection): State {
    var mode := WithConnection(WithVideoBit(s.mode, s.videos), c);
    s.(mode := mode, listeners := if mode != s.mode then Broadcast(s.listeners, mode, false) else s.listeners)
  }

  function OnWidiHotplug(s: State, connected: bool): State {
    var mode := if connected then s.mode + {WidiOn} else s.mode - {WidiOn};
    s.(mode := mode, listeners := Broadcast(s.listeners, mode, false))
  }

  /** A closed session starts over; its video driver may be gone already. */
  function OnVideoState(s: State, session: int, state: int): State
    requires |s.videos| == SESSIONS
  {
    if session < 0 || session >= SESSIONS || s.videos[session] == state then s
    else if state < PREPARING || state > UNPREPARED then s
    else
      var videos := s.videos[session := state];
      var mode := WithVideoBit(s.mode, videos);
      s.(videos := videos, mode := mode,
         listeners := if mode != s.mode then Broadcast(s.listeners, mode, state >= UNPREPARED) else s.listeners)
  }

  predicate AllUnprepared(videos: seq<int>) {
    forall i :: 0 <= i < |videos| ==> videos[i] == UNPREPARED
  }

  function OnResetPlayback(s: State): State {
    if AllUnprepared(s.videos) then s
    else
      var mode := s.mode - {VideoOn};
      s.(videos := seq(SESSIONS, _ => UNPREPARED), mode := mode, listeners := Broadcast(s.listeners, mode, false))
  }

  /** The lowest identifier from `id` on that no listener uses, or the maximum. */
  function NextUnused(ls: map<int, Listener>, id: nat): (r: nat)
    requires id <= MAX_LISTENERS
    ensures id <= r <= MAX_LISTENERS
    decreases MAX_LISTENERS - id
  {
    if id == MAX_LISTENERS || id !in ls then id else NextUnused(ls, id + 1)
  }

  predicate CanRegister(s: State, name: Option<string>, msg: set<nat>, present: bool) {
    && name.Some? && msg != {} && present
    && |s.listeners| < MAX_LISTENERS && s.listenerId < MAX_LISTENERS && s.listenerId !in s.listeners
  }

  function OnRegister(s: State, name: Option<string>, msg: set<nat>, present: bool): State {
    if !CanRegister(s, name, msg, present) then s
    else
      var ls := s.listeners[s.listenerId := Listener(msg, name.value, s.mode, [])];
      s.(listeners := ls,
         listenerId := if s.listenerId + 1 >= MAX_LISTENERS then NextUnused(ls, 0) else s.listenerId + 1)
  }

  /** The identifier handed to the caller, or -1. */
  function RegisterResult(s: State, name: Option<string>, msg: set<nat>, present: bool): int {
    if CanRegister(s, name, msg, present) then s.listenerId else -1
  }

  function OnUnregister(s: State, id: int): State {
    if id < 0 then s else s.(listeners := s.listeners - {id})
  }

  function OnSetVpp(s: State, isVirtual: bool, connected: bool, status: int): State {
    if status == -1 then
      if isVirtual then s.(widiActive := connected) else s
    else
      s.(mode := s.mode - {VppChanged}, listeners := Broadcast(s.listeners, s.mode + {VppChanged}, false))
  }

  function Step(s: State, e: Event): State
    requires |s.videos| == SESSIONS
  {
    match e
    case WidiHotplug(connected) => OnWidiHotplug(s, connected)
    case HdmiHotplug(c) => OnHdmiHotplug(s, c)
    case VideoState(session, state) => OnVideoState(s, session, state)
    case ResetPlayback => OnResetPlayback(s)
    case Register(name, msg, present) => OnRegister(s, name, msg, present)
    case Unregister(id) => OnUnregister(s, id)
    case RegisterCallback(present, c) => if present then s.(mode := WithConnection(s.mode, c)) else s
    case UnregisterCallback => s
    case SetVpp(v, c, status) => OnSetVpp(s, v, c, status)
  }

  function Init(c: Connection): State {
    State(WithConnection({}, c), seq(SESSIONS, _ => UNPREPARED), map[], 0, false)
  }

  function Run(c: Connection, es: seq<Event>): (s: State)
    ensures |s.videos| == SESSIONS
  {
    if |es| == 0 then Init(c) else
      var s := Run(c, es[..|es| - 1]);
      StepShape(s, es[|es| - 1]);
      Step(s, es[|es| - 1])
  }

  lemma StepShape(s: State, e: Event)
    requires |s.videos| == SESSIONS
    ensures |Step(s, e).videos| == SESSIONS
  {
  }

  // ---------------------------------------------------------------- the video bit

  /** The mode says "video" exactly when some session is prepared, and never
      keeps the transient post-processing bit. */
  predicate ModeMatches(s: State) {
    (VideoOn in s.mode <==> PREPARED in s.videos) && VppChanged !in s.mode
  }

  lemma StepKeepsModeMatches(s: State, e: Event)
    requires |s.videos| == SESSIONS && ModeMatches(s)
    ensures ModeMatches(Step(s, e))
  {
  }

  /** In every run the video bit is set exactly when some session is prepared. */
  lemma {:induction false} VideoBitExact(c: Connection, es: seq<Event>)
    ensures ModeMatches(Run(c, es))
  {
    if |es| > 0 {
      VideoBitExact(c, es[..|es| - 1]);
      StepKeepsModeMatches(Run(c, es[..|es| - 1]), es[|es| - 1]);
    }
  }
}
