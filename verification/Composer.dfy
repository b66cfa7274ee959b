/**
 The composer as it runs: fields, session array and search loops. Every method
 performs one transition of the state machine.
 */
module Composer {
  import opened Options
  import opened ComposerModel
  import opened ListenerVector

  class MultiDisplayComposer {
    var mode: Mode
    const videos: array<int>
    var listeners: seq<Item>
    var listenerId: int
    var widiActive: bool

    ghost predicate Valid()
      reads this
    {
      && videos.Length == SESSIONS && 0 <= listenerId <= MAX_LISTENERS
      && Sorted(listeners) && forall i :: 0 <= i < |listeners| ==> 0 <= listeners[i].key < MAX_LISTENERS
    }

    ghost function Abs(): (s: State)
      reads this, videos
      requires Valid()
      ensures |s.videos| == SESSIONS
    {
      State(mode, videos[..], AsMap(listeners), listenerId, widiActive)
    }

    constructor (connection: Connection)
      ensures Valid() && fresh(videos) && Abs() == Init(connection)
    {
      videos := new int[SESSIONS](_ => UNPREPARED);
      mode, listeners, listenerId, widiActive := WithConnection({}, connection), [], 0, false;
    }

    // -------------------------------------------------------------- loops over sessions

    /** `hasVideoPlaying_l`. */
    method HasVideoPlaying() returns (playing: bool)
      requires Valid()
      ensures playing <==> PREPARED in videos[..]
    {
      var size, i := 0, 0;
      while i < SESSIONS
        invariant 0 <= i <= SESSIONS && size >= 0
        invariant size >= 1 <==> PREPARED in videos[..i]
      {
        assert videos[..i + 1] == videos[..i] + [videos[i]];
        if videos[i] == PREPARED {
          size := size + 1;
        }
        i := i + 1;
      }
      assert videos[..SESSIONS] == videos[..];
      playing := size >= 1;
    }

    /** `getVideoSessionSize_l`: the number of sessions in use. */
    method SessionSize() returns (size: nat)
      requires Valid()
      ensures size == 0 <==> AllUnprepared(videos[..])
      ensures size <= SESSIONS
    {
      size := 0;
      var i := 0;
      while i < SESSIONS
        invariant 0 <= i <= SESSIONS && size <= i
        invariant size == 0 <==> forall k :: 0 <= k < i ==> videos[k] == UNPREPARED
      {
        if videos[i] != UNPREPARED {
          size := size + 1;
        }
        i := i + 1;
      }
    }

    /** `allocateVideoSessionId`: the first session not in use, or -1. */
    method AllocateSession() returns (id: int)
      requires Valid()
      ensures id == -1 ==> forall k :: 0 <= k < SESSIONS ==> videos[k] != UNPREPARED
      ensures id != -1 ==> 0 <= id < SESSIONS && videos[id] == UNPREPARED
                           && forall k :: 0 <= k < id ==> videos[k] != UNPREPARED
    {
      var i := 0;
      while i < SESSIONS
        invariant 0 <= i <= SESSIONS
        invariant forall k :: 0 <= k < i ==> videos[k] != UNPREPARED
      {
        if videos[i] == UNPREPARED {
          return i;
        }
        i := i + 1;
      }
      return -1;
    }

    method UpdateVideoBit()
      requires Valid()
      modifies this`mode
      ensures mode == WithVideoBit(old(mode), videos[..])
    {
      var playing := HasVideoPlaying();
      mode := if playing then mode + {VideoOn} else mode - {VideoOn};
    }

    // -------------------------------------------------------------- listeners

    /** `broadcastMessageLocked` for a mode change, in the order of the vector. */
    method BroadcastMode(value: Mode, skipVideoDriver: bool)
      requires Valid()
      modifies this`listeners
      ensures Valid() && AsMap(listeners) == Broadcast(AsMap(old(listeners)), value, skipVideoDriver)
      ensures |listeners| == |old(listeners)|
      ensures forall i :: 0 <= i < |listeners| ==>
                var l := old(listeners)[i].value;
                listeners[i] == old(listeners)[i].(value := l.(inbox :=
                  if MODE_CHANGE in l.msg && !(skipVideoDriver && l.name == "VideoDriver")
                  then l.inbox + [value] else l.inbox))
    {
      ghost var before := listeners;
      var index := 0;
      while index < |listeners|
        invariant 0 <= index <= |listeners| == |before|
        invariant forall k :: 0 <= k < index ==>
                    listeners[k] == Item(before[k].key, Told(before[k].value, value, skipVideoDriver))
        invariant forall k :: index <= k < |before| ==> listeners[k] == before[k]
      {
        var l := listeners[index].value;
        if !(skipVideoDriver && l.name == "VideoDriver") && MODE_CHANGE in l.msg {
          listeners := listeners[index := listeners[index].(value := l.(inbox := l.inbox + [value]))];
        }
        index := index + 1;
      }
      BroadcastMeaning(before, listeners, value, skipVideoDriver);
    }

    /** `registerListener`. */
    method RegisterListener(name: Option<string>, msg: set<nat>, present: bool) returns (id: int)
      requires Valid()
      modifies this`listeners, this`listenerId
      ensures Valid()
      ensures id == RegisterResult(old(Abs()), name, msg, present)
      ensures Abs() == OnRegister(old(Abs()), name, msg, present)
    {
      AsMapMeaning(listeners);
      if name.None? || msg == {} || !present {
        return -1;
      }
      if |listeners| >= MAX_LISTENERS || listenerId >= MAX_LISTENERS {
        return -1;
      }
      var at := Find(listeners, listenerId);
      if at < |listeners| {
        return -1;
      }
      id := listenerId;
      AddListener(Item(id, Listener(msg, name.value, mode, [])));
      listenerId := listenerId + 1;
      if listenerId >= MAX_LISTENERS {
        FindUnused(0);
      }
    }

    method AddListener(item: Item)
      requires Valid() && !HasKey(listeners, item.key) && 0 <= item.key < MAX_LISTENERS
      modifies this`listeners
      ensures Valid() && AsMap(listeners) == AsMap(old(listeners))[item.key := item.value]
    {
      KeysInRange(listeners, 0, MAX_LISTENERS);
      listeners := Insert(listeners, item);
      KeysInRange(listeners, 0, MAX_LISTENERS);
    }

    /** The search for the next unused identifier, from `start` on. */
    method FindUnused(start: nat)
      requires Valid() && start <= MAX_LISTENERS
      modifies this`listenerId
      ensures Valid() && listenerId == NextUnused(AsMap(listeners), start)
    {
      ghost var m := AsMap(listeners);
      listenerId := start;
      while listenerId < MAX_LISTENERS
        invariant 0 <= listenerId <= MAX_LISTENERS
        invariant NextUnused(m, start) == NextUnused(m, listenerId)
      {
        var at := Find(listeners, listenerId);
        KeyMeaning(listeners, listenerId);
        if at == |listeners| {
          break;
        }
        listenerId := listenerId + 1;
      }
    }

    /** `unregisterListener`: the scan for the identifier, and its removal. */
    method UnregisterListener(id: int)
      requires Valid()
      modifies this`listeners
      ensures Valid() && Abs() == OnUnregister(old(Abs()), id)
    {
      if id < 0 {
        return;
      }
      ghost var before := listeners;
      var i := 0;
      while i < |listeners|
        invariant 0 <= i <= |listeners| && listeners == before
        invariant forall k :: 0 <= k < i ==> listeners[k].key != id
      {
        if listeners[i].key != id {
          i := i + 1;
          continue;
        }
        listeners := listeners[..i] + listeners[i + 1..];
        RemoveMeaning(before, i, listeners);
        return;
      }
      AbsentMeaning(listeners, id);
    }

    // -------------------------------------------------------------- events

    /** `updateHdmiConnectStatusLocked`, with the status the driver reports. */
    method AlignConnection(connection: Connection)
      modifies this`mode
      ensures mode == WithConnection(old(mode), connection)
    {
      if connection == Hdmi {
        mode := mode + {HdmiConnected};
      } else if connection == Dvi {
        mode := mode + {DviConnected};
      } else {
        mode := mode - {HdmiConnected, DviConnected};
      }
    }

    /** `notifyHotplugLocked` for the wireless display. */
    method UpdateWidiConnection(connected: bool)
      requires Valid()
      modifies this`mode, this`listeners
      ensures Valid() && Abs() == OnWidiHotplug(old(Abs()), connected)
      ensures WidiOn in mode <==> connected
      ensures forall f :: f in mode && f != WidiOn <==> f in old(mode) && f != WidiOn
    {
      mode := if connected then mode + {WidiOn} else mode - {WidiOn};
      BroadcastMode(mode, false);
    }

    /** `notifyHotplugLocked` for the cable, with the status the driver reports. */
    method UpdateHdmiConnection(connection: Connection)
      requires Valid()
      modifies this`mode, this`listeners
      ensures Valid() && Abs() == OnHdmiHotplug(old(Abs()), connection)
    {
      var before := mode;
      UpdateVideoBit();
      AlignConnection(connection);
      if before != mode {
        BroadcastMode(mode, false);
      }
    }

    /** `updateVideoState`. */
    method UpdateVideoState(session: int, state: int)
      requires Valid()
      modifies this`mode, this`listeners, videos
      ensures Valid() && Abs() == OnVideoState(old(Abs()), session, state)
      ensures forall k :: 0 <= k < 16 ==>
                videos[k] == if k == session && 1 <= state <= 4 then state else old(videos[k])
    {
      var skipVideoDriver := false;
      if session < 0 || session >= SESSIONS {
        return;
      }
      if videos[session] == state {
        return;
      }
      if state < PREPARING || state > UNPREPARED {
        return;
      }
      videos[session] := state;
      if state >= UNPREPARED {
        videos[session] := UNPREPARED;
        skipVideoDriver := true;
      }
      assert videos[..] == old(videos[..])[session := state];
      var before := mode;
      UpdateVideoBit();
      if before != mode {
        BroadcastMode(mode, skipVideoDriver);
      }
    }

    /** `resetVideoPlayback`. */
    method ResetVideoPlayback()
      requires Valid()
      modifies this`mode, this`listeners, videos
      ensures Valid() && Abs() == OnResetPlayback(old(Abs()))
      ensures forall k :: 0 <= k < 16 ==> videos[k] == 4
    {
      var size := SessionSize();
      if size <= 0 {
        return;
      }
      var i := 0;
      while i < SESSIONS
        modifies videos
        invariant 0 <= i <= SESSIONS
        invariant forall k :: 0 <= k < i ==> videos[k] == UNPREPARED
      {
        videos[i] := UNPREPARED;
        i := i + 1;
      }
      assert videos[..] == seq(SESSIONS, _ => UNPREPARED);
      mode := mode - {VideoOn};
      BroadcastMode(mode, false);
    }

    /** `setVppState_l`. */
    method SetVppState(isVirtual: bool, connected: bool, status: int)
      requires Valid()
      modifies this`mode, this`listeners, this`widiActive
      ensures Valid() && Abs() == OnSetVpp(old(Abs()), isVirtual, connected, status)
      ensures widiActive == if status == -1 && isVirtual then connected else old(widiActive)
      ensures mode == if status == -1 then old(mode) else old(mode) - {VppChanged}
    {
      if status == -1 {
        if isVirtual {
          widiActive := connected;
        }
      } else {
        mode := mode + {VppChanged};
        BroadcastMode(mode, false);
        mode := mode - {VppChanged};
        assert mode == old(mode) - {VppChanged};
      }
    }

    /** `registerCallback`: aligns the connection bits and tells nobody. */
    method RegisterDisplayCallback(present: bool, connection: Connection)
      requires Valid()
      modifies this`mode
      ensures Valid() && Abs() == Step(old(Abs()), RegisterCallback(present, connection))
    {
      if present {
        AlignConnection(connection);
      }
    }
  }
}
