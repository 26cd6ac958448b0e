/**
 The plugin's connection state machine: singleton states that keep the reason they were last
 given, driven by websocket callbacks, the update thread and the main loop.
 */
module ConnectionStates {
  import opened Bytes

  datatype Name =
    | Init
    | AgentAlive
    | AgentDisabled
    | WebsocketConnected
    | DeviceOffline
    | WebsocketDisconnected
    | PluginRegistered
    | ResendPlugin
    | ServerOffline
    | Exit

  datatype Reason =
    | NoReason
    | REGISTERED
    | DEVICE_OFFLINE
    | SERVER_OFFLINE
    | SERVER_ONLINE
    | WEBSOCKET_DISCONNECTED
    | AGENT_DISABLED
    | AGENT_ALIVE
    | WEBSOCKET_CONNECTED
    | RESEND_PLUGIN
    | ERROR

  /** Which state is current, every singleton's reason, the last state of ServerOffline, the client's flag. */
  datatype Machine = Machine(current: Name, reason: map<Name, Reason>, lastState: Option<Name>, isOpen: bool)

  const STATES: set<Name> := {Init, AgentAlive, AgentDisabled, WebsocketConnected, DeviceOffline, WebsocketDisconnected,
                              PluginRegistered, ResendPlugin, ServerOffline, Exit}

  lemma AllStates()
    ensures forall n: Name :: n in STATES
  {
    forall n: Name ensures n in STATES {
      match n
      case Init => case AgentAlive => case AgentDisabled => case WebsocketConnected => case DeviceOffline =>
      case WebsocketDisconnected => case PluginRegistered => case ResendPlugin => case ServerOffline => case Exit =>
    }
  }

  predicate WellTyped(m: Machine) {
    forall n: Name :: n in m.reason
  }

  function Start(): (m: Machine)
    ensures WellTyped(m)
  {
    var none := map n | n in STATES :: NoReason;
    AllStates();
    Machine(Init, none, None, false)
  }

  /** What happens to the program, one handler at a time. */
  datatype Event =
    | Connect                           // main loop: a new client starts
    | Broken                            // main loop: the client no longer works
    | Opened
    | Failed
    | Closed
    | ErrorMessage(code: int)
    | AgentOffline
    | AgentOnline
    | Update(dataReady: bool)           // one round of the update thread

  // ---------- the states ----------

  function Goto(m: Machine, n: Name): Machine {
    m.(current := n)
  }

  function Give(m: Machine, n: Name, r: Reason): Machine {
    m.(reason := m.reason[n := r])
  }

  /** Where a toggle leads from each state. */
  function Toggle(m: Machine): (r: Machine)
    requires WellTyped(m)
    ensures WellTyped(r)
  {
    var why := m.reason[m.current];
    match m.current
    case Init =>
      if why == AGENT_ALIVE then Goto(m, AgentAlive) else if why == AGENT_DISABLED then Goto(m, AgentDisabled) else m
    case AgentAlive =>
      if why == WEBSOCKET_CONNECTED then Goto(m, WebsocketConnected)
      else if why == WEBSOCKET_DISCONNECTED then Goto(m, WebsocketDisconnected) else m
    case AgentDisabled =>
      if why == ERROR then Goto(m, Exit) else if why == AGENT_ALIVE then Goto(m, AgentAlive) else m
    case WebsocketConnected =>
      if why == SERVER_OFFLINE then Goto(m, ServerOffline)
      else if why == WEBSOCKET_DISCONNECTED then Goto(m, WebsocketDisconnected) else Goto(m, PluginRegistered)
    case DeviceOffline =>
      if why == WEBSOCKET_DISCONNECTED then Goto(m, WebsocketDisconnected) else Goto(m, WebsocketConnected)
    case WebsocketDisconnected =>
      if why == AGENT_DISABLED then Goto(m, AgentDisabled) else Goto(m, AgentAlive)
    case PluginRegistered =>
      var to := if why == DEVICE_OFFLINE then DeviceOffline else if why == SERVER_OFFLINE then ServerOffline
                else if why == WEBSOCKET_DISCONNECTED then WebsocketDisconnected
                else if why == AGENT_DISABLED then AgentDisabled
                else if why == RESEND_PLUGIN then WebsocketConnected else PluginRegistered;
      Give(Goto(m, to), PluginRegistered, REGISTERED)
    case ResendPlugin =>
      Give(if why == REGISTERED then Goto(m, PluginRegistered) else m, ResendPlugin, RESEND_PLUGIN)
    case ServerOffline =>
      if m.lastState == Some(PluginRegistered) || m.lastState == Some(WebsocketConnected) then Goto(m, WebsocketConnected)
      else m
    case Exit => m
  }

  /** Which reasons lead into each state by a toggle, and which reasons are reset. */
  lemma ToggleLeads(m: Machine)
    requires WellTyped(m)
    ensures var from, why, to := m.current, m.reason[m.current], Toggle(m).current;
            && (to == Init <==> from == Init && why != AGENT_ALIVE && why != AGENT_DISABLED)
            && (to == AgentAlive <==>
                || (from == Init && why == AGENT_ALIVE) || (from == AgentDisabled && why == AGENT_ALIVE)
                || (from == WebsocketDisconnected && why != AGENT_DISABLED)
                || (from == AgentAlive && why != WEBSOCKET_CONNECTED && why != WEBSOCKET_DISCONNECTED))
            && (to == AgentDisabled <==>
                || (why == AGENT_DISABLED && (from == Init || from == WebsocketDisconnected || from == PluginRegistered))
                || (from == AgentDisabled && why != ERROR && why != AGENT_ALIVE))
            && (to == WebsocketDisconnected <==>
                || (why == WEBSOCKET_DISCONNECTED
                    && (from == AgentAlive || from == WebsocketConnected || from == DeviceOffline || from == PluginRegistered)))
            && (to == DeviceOffline <==> from == PluginRegistered && why == DEVICE_OFFLINE)
            && (to == ResendPlugin <==> from == ResendPlugin && why != REGISTERED)
            && (to == Exit <==> from == Exit || (from == AgentDisabled && why == ERROR))
  {
  }

  lemma ToggleLeadsOnline(m: Machine)
    requires WellTyped(m)
    ensures var from, why, to := m.current, m.reason[m.current], Toggle(m).current;
            var known := m.lastState == Some(PluginRegistered) || m.lastState == Some(WebsocketConnected);
            && (to == WebsocketConnected <==>
                || (from == AgentAlive && why == WEBSOCKET_CONNECTED) || (from == DeviceOffline && why != WEBSOCKET_DISCONNECTED)
                || (from == PluginRegistered && why == RESEND_PLUGIN) || (from == ServerOffline && known))
            && (to == ServerOffline <==>
                || (why == SERVER_OFFLINE && (from == WebsocketConnected || from == PluginRegistered))
                || (from == ServerOffline && !known))
            && (to == PluginRegistered <==>
                || (from == WebsocketConnected && why != SERVER_OFFLINE && why != WEBSOCKET_DISCONNECTED)
                || (from == ResendPlugin && why == REGISTERED)
                || (from == PluginRegistered && why != DEVICE_OFFLINE && why != SERVER_OFFLINE && why != WEBSOCKET_DISCONNECTED
                    && why != AGENT_DISABLED && why != RESEND_PLUGIN))
  {
  }

  /** A toggle touches one reason at most: that of the two states that note what they were last. */
  lemma ToggleResets(m: Machine, n: Name)
    requires WellTyped(m)
    ensures Toggle(m).reason[n] == if m.current == n && n == PluginRegistered then REGISTERED
                                   else if m.current == n && n == ResendPlugin then RESEND_PLUGIN
                                   else m.reason[n]
    ensures Toggle(m).lastState == m.lastState && Toggle(m).isOpen == m.isOpen
  {
  }

  /** Give the current state a reason and toggle. */
  function ToggleFor(m: Machine, r: Reason): (result: Machine)
    requires WellTyped(m)
    ensures WellTyped(result)
  {
    Toggle(Give(m, m.current, r))
  }

  // ---------- the handlers ----------

  function OfflineFrom(m: Machine, from: Name): (r: Machine)
    requires WellTyped(m)
    ensures WellTyped(r)
  {
    var t := ToggleFor(m, SERVER_OFFLINE);
    if t.current == ServerOffline then t.(lastState := Some(from)) else t
  }

  function Handle(m: Machine, e: Event): (r: Machine)
    requires WellTyped(m)
    ensures WellTyped(r)
  {
    match e
    case Connect => ToggleFor(m, AGENT_ALIVE).(isOpen := false)
    case Broken => if m.current == PluginRegistered then ToggleFor(m, WEBSOCKET_DISCONNECTED) else m
    case Opened => (if m.current == AgentAlive then ToggleFor(m, WEBSOCKET_CONNECTED) else m).(isOpen := true)
    case Failed =>
      var n := m.(isOpen := false);
      if m.current == AgentAlive then ToggleFor(n, WEBSOCKET_DISCONNECTED) else n
    case Closed =>
      var n := m.(isOpen := false);
      if m.current == PluginRegistered then ToggleFor(n, WEBSOCKET_DISCONNECTED) else n
    case ErrorMessage(code) =>
      if (code == 32000 || code == -32000) && m.current == PluginRegistered then ToggleFor(m, DEVICE_OFFLINE) else m
    case AgentOffline =>
      if m.current == PluginRegistered || m.current == WebsocketConnected then OfflineFrom(m, m.current) else m
    case AgentOnline => if m.current == ServerOffline then Toggle(m) else m
    case Update(dataReady) =>
      if !m.isOpen then m
      else if m.current == WebsocketConnected || m.current == ResendPlugin then (if dataReady then Toggle(m) else m)
      else if m.current == DeviceOffline then Toggle(m)
      else m
  }

  function Run(m: Machine, events: seq<Event>): (r: Machine)
    requires WellTyped(m)
    ensures WellTyped(r)
    decreases |events|
  {
    if events == [] then m else Run(Handle(m, events[0]), events[1..])
  }

  // ---------- what every run keeps ----------

  /** The reasons and the last state a run can leave behind. */
  predicate Inv(m: Machine)
    requires WellTyped(m)
  {
    && m.current !in {AgentDisabled, ResendPlugin, Exit}
    && m.lastState in {None, Some(PluginRegistered), Some(WebsocketConnected)}
    && (m.current == ServerOffline ==> m.lastState != None)
    && (m.reason[WebsocketConnected] == SERVER_OFFLINE ==> m.lastState != None)
    && m.reason[WebsocketConnected] in {NoReason, AGENT_ALIVE, SERVER_OFFLINE}
    && m.reason[DeviceOffline] in {NoReason, AGENT_ALIVE}
    && m.reason[WebsocketDisconnected] in {NoReason, AGENT_ALIVE}
    && m.reason[PluginRegistered] in {NoReason, REGISTERED}
  }

  lemma ConnectInv(m: Machine)
    requires WellTyped(m) && Inv(m)
    ensures Inv(Handle(m, Connect))
  {
    hide Handle, Inv;
    match m.current
    case Init => ConnectSetsOut(m);
    case AgentAlive => ConnectSetsOut(m);
    case WebsocketDisconnected => ConnectSetsOut(m);
    case WebsocketConnected => ConnectMovesOn(m);
    case DeviceOffline => ConnectMovesOn(m);
    case _ => ConnectElsewhere(m);
  }

  lemma ConnectSetsOut(m: Machine)
    requires WellTyped(m) && Inv(m) && m.current in {Init, AgentAlive, WebsocketDisconnected}
    ensures Inv(Handle(m, Connect))
  {
  }

  lemma ConnectMovesOn(m: Machine)
    requires WellTyped(m) && Inv(m) && m.current in {WebsocketConnected, DeviceOffline}
    ensures Inv(Handle(m, Connect))
  {
  }

  lemma ConnectElsewhere(m: Machine)
    requires WellTyped(m) && Inv(m) && m.current in {AgentDisabled, PluginRegistered, ResendPlugin, ServerOffline, Exit}
    ensures Inv(Handle(m, Connect))
  {
  }

  lemma ErrorInv(m: Machine, code: int)
    requires WellTyped(m) && Inv(m)
    ensures Inv(Handle(m, ErrorMessage(code)))
  {
  }

  lemma UpdateInv(m: Machine, dataReady: bool)
    requires WellTyped(m) && Inv(m)
    ensures Inv(Handle(m, Update(dataReady)))
  {
  }

  lemma OfflineInv(m: Machine)
    requires WellTyped(m) && Inv(m)
    ensures Inv(Handle(m, AgentOffline))
  {
    hide Toggle, Inv;
    if m.current == PluginRegistered {
      OfflineWhileRegistered(m);
    } else if m.current == WebsocketConnected {
      OfflineWhileConnected(m);
    }
  }

  lemma OfflineWhileRegistered(m: Machine)
    requires WellTyped(m) && Inv(m) && m.current == PluginRegistered
    ensures Inv(Handle(m, AgentOffline))
  {
  }

  lemma OfflineWhileConnected(m: Machine)
    requires WellTyped(m) && Inv(m) && m.current == WebsocketConnected
    ensures Inv(Handle(m, AgentOffline))
  {
  }

  lemma OnlineInv(m: Machine)
    requires WellTyped(m) && Inv(m)
    ensures Inv(Handle(m, AgentOnline))
  {
  }

  lemma BrokenInv(m: Machine)
    requires WellTyped(m) && Inv(m)
    ensures Inv(Handle(m, Broken))
  {
  }

  lemma OpenedInv(m: Machine)
    requires WellTyped(m) && Inv(m)
    ensures Inv(Handle(m, Opened))
  {
  }

  lemma FailedInv(m: Machine)
    requires WellTyped(m) && Inv(m)
    ensures Inv(Handle(m, Failed))
  {
  }

  lemma ClosedInv(m: Machine)
    requires WellTyped(m) && Inv(m)
    ensures Inv(Handle(m, Closed))
  {
  }

  lemma HandleInv(m: Machine, e: Event)
    requires WellTyped(m) && Inv(m)
    ensures Inv(Handle(m, e))
  {
    hide Handle, Inv;
    match e
    case Connect => ConnectInv(m);
    case Broken => BrokenInv(m);
    case Opened => OpenedInv(m);
    case Failed => FailedInv(m);
    case Closed => ClosedInv(m);
    case ErrorMessage(code) => ErrorInv(m, code);
    case AgentOffline => OfflineInv(m);
    case AgentOnline => OnlineInv(m);
    case Update(dataReady) => UpdateInv(m, dataReady);
  }

  lemma {:induction false} RunInv(m: Machine, events: seq<Event>)
    requires WellTyped(m) && Inv(m)
    ensures Inv(Run(m, events))
    decreases |events|
  {
    hide Handle, Inv;
    if events != [] {
      HandleInv(m, events[0]);
      RunInv(Handle(m, events[0]), events[1..]);
    }
  }

  /** Over every run: three states are never reached, and ServerOffline knows where it came from. */
  lemma {:induction false} NeverReached(events: seq<Event>)
    ensures var m := Run(Start(), events);
            && m.current != AgentDisabled && m.current != ResendPlugin && m.current != Exit
            && (m.current == ServerOffline ==> m.lastState in {Some(PluginRegistered), Some(WebsocketConnected)})
  {
    RunInv(Start(), events);
  }

  /** From ServerOffline, the agent coming back always leads to WebsocketConnected. */
  lemma {:induction false} OnlineAgain(events: seq<Event>)
    requires Run(Start(), events).current == ServerOffline
    ensures Handle(Run(Start(), events), AgentOnline).current == WebsocketConnected
  {
    RunInv(Start(), events);
  }

  /**
   After any run, a step enters PluginRegistered exactly when it starts in WebsocketConnected
   and either the main loop reconnects, or the update thread sends while the connection is
   open and no offline reason sticks.
   */
  lemma {:induction false} EntersRegistered(events: seq<Event>, e: Event)
    ensures var m := Run(Start(), events);
            (m.current != PluginRegistered && Handle(m, e).current == PluginRegistered) <==>
            (m.current == WebsocketConnected &&
             (e == Connect || (e == Update(true) && m.isOpen && m.reason[WebsocketConnected] != SERVER_OFFLINE)))
  {
    RunInv(Start(), events);
  }

  // ---------- the state diagram ----------

  predicate DeviceIsOffline(e: Event) {
    e == ErrorMessage(32000) || e == ErrorMessage(-32000)
  }

  /** Where a step leads, state by state. */
  function Destination(m: Machine, e: Event): Name
    requires WellTyped(m)
  {
    match m.current
    case Init => if e == Connect then AgentAlive else Init
    case AgentAlive =>
      if e == Opened then WebsocketConnected else if e == Failed then WebsocketDisconnected else AgentAlive
    case WebsocketConnected =>
      var stuck := m.reason[WebsocketConnected] == SERVER_OFFLINE;
      var sends := e == Update(true) && m.isOpen;
      if e == Connect || (sends && !stuck) then PluginRegistered
      else if e == AgentOffline || (sends && stuck) then ServerOffline
      else WebsocketConnected
    case DeviceOffline => if e == Connect || (e.Update? && m.isOpen) then WebsocketConnected else DeviceOffline
    case WebsocketDisconnected => if e == Connect then AgentAlive else WebsocketDisconnected
    case PluginRegistered =>
      if e == Closed || e == Broken then WebsocketDisconnected
      else if DeviceIsOffline(e) then DeviceOffline
      else if e == AgentOffline then ServerOffline
      else PluginRegistered
    case ServerOffline => if e == Connect || e == AgentOnline then WebsocketConnected else ServerOffline
    case _ => m.current
  }

  /** The state, the client's flag and the reason of WebsocketConnected after a step. */
  predicate Follows(m: Machine, e: Event, r: Machine)
    requires WellTyped(m) && WellTyped(r)
  {
    && r.current == Destination(m, e)
    && r.isOpen == (if e == Opened then true else if e == Failed || e == Closed || e == Connect then false else m.isOpen)
    && r.reason[WebsocketConnected] ==
       (if m.current == WebsocketConnected && e == Connect then AGENT_ALIVE
        else if m.current == WebsocketConnected && e == AgentOffline then SERVER_OFFLINE
        else m.reason[WebsocketConnected])
    && r.lastState ==
       (if e == AgentOffline && (m.current == WebsocketConnected || m.current == PluginRegistered) then Some(m.current)
        else m.lastState)
  }

  lemma ConnectFollows(m: Machine)
    requires WellTyped(m) && Inv(m)
    ensures Follows(m, Connect, Handle(m, Connect))
  {
  }

  lemma CallbackFollows(m: Machine, e: Event)
    requires WellTyped(m) && Inv(m) && (e == Opened || e == Failed || e == Closed || e == Broken)
    ensures Follows(m, e, Handle(m, e))
  {
  }

  lemma ErrorFollows(m: Machine, code: int)
    requires WellTyped(m) && Inv(m)
    ensures Follows(m, ErrorMessage(code), Handle(m, ErrorMessage(code)))
  {
  }

  lemma AgentFollows(m: Machine, e: Event)
    requires WellTyped(m) && Inv(m) && (e == AgentOffline || e == AgentOnline)
    ensures Follows(m, e, Handle(m, e))
  {
  }

  lemma UpdateFollows(m: Machine, dataReady: bool)
    requires WellTyped(m) && Inv(m)
    ensures Follows(m, Update(dataReady), Handle(m, Update(dataReady)))
  {
  }

  lemma StepFollows(m: Machine, e: Event)
    requires WellTyped(m) && Inv(m)
    ensures Follows(m, e, Handle(m, e))
  {
    hide Handle, Inv, Follows;
    match e
    case Connect => ConnectFollows(m);
    case ErrorMessage(code) => ErrorFollows(m, code);
    case AgentOffline => AgentFollows(m, e);
    case AgentOnline => AgentFollows(m, e);
    case Update(dataReady) => UpdateFollows(m, dataReady);
    case _ => CallbackFollows(m, e);
  }

  /** After every run, every step follows the diagram. */
  lemma {:induction false} DiagramHolds(events: seq<Event>, e: Event)
    ensures var m := Run(Start(), events); Follows(m, e, Handle(m, e))
  {
    hide Handle, Follows, Inv;
    StartInv();
    RunInv(Start(), events);
    StepFollows(Run(Start(), events), e);
  }

  lemma StartInv()
    ensures Inv(Start())
  {
  }

  /** Exactly which steps, after any run, enter and leave the two states in which the plugin waits. */
  lemma {:induction false} EntersAndLeaves(events: seq<Event>, e: Event)
    ensures var m := Run(Start(), events);
            var n := Handle(m, e).current;
            && (m.current != DeviceOffline && n == DeviceOffline <==> m.current == PluginRegistered && DeviceIsOffline(e))
            && (m.current == DeviceOffline ==>
                  n == if e == Connect || (e.Update? && m.isOpen) then WebsocketConnected else DeviceOffline)
            && (m.current != WebsocketDisconnected && n == WebsocketDisconnected <==>
                (m.current == AgentAlive && e == Failed) || (m.current == PluginRegistered && (e == Closed || e == Broken)))
            && (m.current == WebsocketDisconnected ==> n == if e == Connect then AgentAlive else WebsocketDisconnected)
  {
    hide Handle;
    DiagramHolds(events, e);
    NeverReached(events);
  }

  /** A device that was offline comes back: two update rounds register again, exactly when no reason is stuck. */
  lemma {:induction false} DeviceComesBack(events: seq<Event>, b: bool)
    requires Run(Start(), events).current == PluginRegistered && Run(Start(), events).isOpen
    ensures var m := Run(Start(), events);
            Run(m, [ErrorMessage(32000), Update(b), Update(true)]).current == PluginRegistered
            <==> m.reason[WebsocketConnected] != SERVER_OFFLINE
  {
    hide Handle, Inv;
    var m := Run(Start(), events);
    StartInv();
    RunInv(Start(), events);
    var m1 := Handle(m, ErrorMessage(32000));
    var m2 := Handle(m1, Update(b));
    StepFollows(m, ErrorMessage(32000));
    HandleInv(m, ErrorMessage(32000));
    StepFollows(m1, Update(b));
    HandleInv(m1, Update(b));
    StepFollows(m2, Update(true));
    RunOne(m, ErrorMessage(32000), [Update(b), Update(true)]);
    RunOne(m1, Update(b), [Update(true)]);
    RunOne(m2, Update(true), []);
    assert [Update(true)] + [] == [Update(true)];
  }

  // ---------- the reason that sticks ----------

  /** WebsocketConnected still has the offline reason, and the plugin is not registered. */
  predicate Stuck(m: Machine)
    requires WellTyped(m)
  {
    Inv(m) && m.reason[WebsocketConnected] == SERVER_OFFLINE && m.current != PluginRegistered
  }

  /** A new client while WebsocketConnected is current: it overwrites the reason left there. */
  predicate Frees(m: Machine, e: Event) {
    e == Connect && m.current == WebsocketConnected
  }

  /** Exactly that step ends it, and registers the plugin at once. */
  lemma StuckStep(m: Machine, e: Event)
    requires WellTyped(m) && Stuck(m)
    ensures Stuck(Handle(m, e)) <==> !Frees(m, e)
    ensures Frees(m, e) ==> Handle(m, e).current == PluginRegistered
  {
    hide Handle, Inv;
    HandleInv(m, e);
    NotResending(m);
    StuckReason(m, e);
  }

  lemma StuckReason(m: Machine, e: Event)
    requires WellTyped(m) && m.current != PluginRegistered && m.current != ResendPlugin
    requires m.reason[WebsocketConnected] == SERVER_OFFLINE
    ensures !Frees(m, e) ==>
              Handle(m, e).reason[WebsocketConnected] == SERVER_OFFLINE && Handle(m, e).current != PluginRegistered
    ensures Frees(m, e) ==> Handle(m, e).current == PluginRegistered
  {
  }

  lemma NotResending(m: Machine)
    requires WellTyped(m) && Inv(m)
    ensures m.current != ResendPlugin
  {
  }

  /** The plugin is registered at some point of the run. */
  predicate EverRegistered(m: Machine, events: seq<Event>)
    requires WellTyped(m)
    decreases |events|
  {
    m.current == PluginRegistered || (events != [] && EverRegistered(Handle(m, events[0]), events[1..]))
  }

  /** Some step of the run is a new client while WebsocketConnected is current. */
  predicate EverFreed(m: Machine, events: seq<Event>)
    requires WellTyped(m)
    decreases |events|
  {
    events != [] && (Frees(m, events[0]) || EverFreed(Handle(m, events[0]), events[1..]))
  }

  /**
   Once the agent went offline in WebsocketConnected, coming back online is not enough: a run
   registers the plugin again exactly when the main loop starts a client in WebsocketConnected.
   A reconnect in any other state, ServerOffline for one, does not help.
   */
  lemma {:induction false} OfflineSticks(m: Machine, events: seq<Event>)
    requires WellTyped(m) && Stuck(m)
    ensures EverRegistered(m, events) <==> EverFreed(m, events)
    ensures Stuck(Run(m, events)) || EverFreed(m, events)
    decreases |events|
  {
    hide Handle, Stuck, Frees;
    StuckUnregistered(m);
    if events != [] {
      var next := Handle(m, events[0]);
      StuckStep(m, events[0]);
      if Frees(m, events[0]) {
        RegisteredNow(next, events[1..]);
      } else {
        OfflineSticks(next, events[1..]);
      }
    }
  }

  lemma RegisteredNow(m: Machine, events: seq<Event>)
    requires WellTyped(m) && m.current == PluginRegistered
    ensures EverRegistered(m, events)
  {
  }

  lemma StuckUnregistered(m: Machine)
    requires WellTyped(m) && Stuck(m)
    ensures m.current != PluginRegistered
  {
  }

  /** Going offline in WebsocketConnected gets the machine stuck. */
  lemma {:induction false} OfflineGetsStuck(events: seq<Event>)
    requires Run(Start(), events).current == WebsocketConnected
    ensures Stuck(Handle(Run(Start(), events), AgentOffline))
  {
    RunInv(Start(), events);
    HandleInv(Run(Start(), events), AgentOffline);
  }

  /** Going offline when registered does not: back online, the next update registers again, unless stuck before. */
  lemma {:induction false} RegistersAgain(events: seq<Event>)
    requires Run(Start(), events).current == PluginRegistered && Run(Start(), events).isOpen
    ensures var m := Run(Start(), events);
            Run(m, [AgentOffline, AgentOnline, Update(true)]).current == PluginRegistered
            <==> m.reason[WebsocketConnected] != SERVER_OFFLINE
  {
    hide Handle;
    var m := Run(Start(), events);
    RunInv(Start(), events);
    var m1 := Handle(m, AgentOffline);
    var m2 := Handle(m1, AgentOnline);
    OfflineWhenRegistered(m);
    OnlineStep(m1);
    UpdateStep(m2);
    RunOne(m, AgentOffline, [AgentOnline, Update(true)]);
    RunOne(m1, AgentOnline, [Update(true)]);
    RunOne(m2, Update(true), []);
    assert [Update(true)] + [] == [Update(true)];
  }

  lemma OnlineHandled(m: Machine)
    requires WellTyped(m)
    ensures Handle(m, AgentOnline) == if m.current == ServerOffline then Toggle(m) else m
  {
  }

  lemma {:induction false} RunSnoc(m: Machine, events: seq<Event>, e: Event)
    requires WellTyped(m)
    ensures Run(m, events + [e]) == Handle(Run(m, events), e)
    decreases |events|
  {
    hide Handle;
    if events == [] {
      assert [] + [e] == [e] && [e][1..] == [];
    } else {
      assert (events + [e])[1..] == events[1..] + [e];
      RunSnoc(Handle(m, events[0]), events[1..], e);
    }
  }

  lemma RunOne(m: Machine, e: Event, rest: seq<Event>)
    requires WellTyped(m)
    ensures Run(m, [e] + rest) == Run(Handle(m, e), rest)
  {
    assert ([e] + rest)[1..] == rest;
  }

  lemma OfflineWhenRegistered(m: Machine)
    requires WellTyped(m) && Inv(m) && m.current == PluginRegistered
    ensures var r := Handle(m, AgentOffline);
            r.current == ServerOffline && r.lastState == Some(PluginRegistered) && r.isOpen == m.isOpen
            && r.reason[WebsocketConnected] == m.reason[WebsocketConnected]
  {
  }

  lemma OnlineStep(m: Machine)
    requires WellTyped(m) && m.current == ServerOffline && m.lastState == Some(PluginRegistered)
    ensures Handle(m, AgentOnline) == m.(current := WebsocketConnected)
  {
  }

  lemma UpdateStep(m: Machine)
    requires WellTyped(m) && m.current == WebsocketConnected && m.isOpen
    requires m.reason[WebsocketConnected] != WEBSOCKET_DISCONNECTED
    ensures Handle(m, Update(true)).current == PluginRegistered <==> m.reason[WebsocketConnected] != SERVER_OFFLINE
  {
  }

  // ---------- registered and connected ----------

  predicate RegisteredIsOpen(m: Machine) {
    m.current == PluginRegistered ==> m.isOpen
  }

  /**
   The steps that leave the plugin registered over a closed websocket: a new client while
   WebsocketConnected or PluginRegistered is current, and a failed connection while registered.
   */
  predicate LosesConnection(m: Machine, e: Event) {
    || (e == Connect && (m.current == WebsocketConnected || m.current == PluginRegistered))
    || (e == Failed && m.current == PluginRegistered)
  }

  /** Exactly those steps break it. */
  lemma StepKeepsOpen(m: Machine, e: Event)
    requires WellTyped(m) && Inv(m) && RegisteredIsOpen(m)
    ensures RegisteredIsOpen(Handle(m, e)) <==> !LosesConnection(m, e)
  {
  }

  /** The plugin is connected whenever it is registered, at every point of the run. */
  predicate AlwaysOpen(m: Machine, events: seq<Event>)
    requires WellTyped(m)
    decreases |events|
  {
    RegisteredIsOpen(m) && (events == [] || AlwaysOpen(Handle(m, events[0]), events[1..]))
  }

  /** No step of the run is one of those. */
  predicate NeverLoses(m: Machine, events: seq<Event>)
    requires WellTyped(m)
    decreases |events|
  {
    events == [] || (!LosesConnection(m, events[0]) && NeverLoses(Handle(m, events[0]), events[1..]))
  }

  /** Over every run: registered means connected throughout exactly when no step of the run loses the connection. */
  lemma {:induction false} RegisteredMeansConnected(m: Machine, events: seq<Event>)
    requires WellTyped(m) && Inv(m) && RegisteredIsOpen(m)
    ensures AlwaysOpen(m, events) <==> NeverLoses(m, events)
    decreases |events|
  {
    hide Handle, Inv, LosesConnection, RegisteredIsOpen;
    if events != [] {
      StepKeepsOpen(m, events[0]);
      HandleInv(m, events[0]);
      if RegisteredIsOpen(Handle(m, events[0])) {
        RegisteredMeansConnected(Handle(m, events[0]), events[1..]);
      }
    }
  }

  lemma {:induction false} RegisteredMeansConnectedFromStart(events: seq<Event>)
    ensures AlwaysOpen(Start(), events) <==> NeverLoses(Start(), events)
  {
    hide AlwaysOpen, NeverLoses;
    RegisteredMeansConnected(Start(), events);
  }

  /** Both causes occur: two runs that end registered with the websocket closed. */
  lemma RegisteredWithoutConnection()
    ensures var m := Run(Start(), [Connect, Opened, Closed, Connect]); m.current == PluginRegistered && !m.isOpen
    ensures var m := Run(Start(), [Connect, Opened, Update(true), Failed]); m.current == PluginRegistered && !m.isOpen
  {
    hide Run;
    RunFour(Start(), Connect, Opened, Closed, Connect);
    RunFour(Start(), Connect, Opened, Update(true), Failed);
  }

  lemma RunFour(m: Machine, a: Event, b: Event, c: Event, d: Event)
    requires WellTyped(m)
    ensures Run(m, [a, b, c, d]) == Handle(Handle(Handle(Handle(m, a), b), c), d)
  {
    hide Handle;
    RunOne(m, a, [b, c, d]);
    RunOne(Handle(m, a), b, [c, d]);
    RunOne(Handle(Handle(m, a), b), c, [d]);
    RunOne(Handle(Handle(Handle(m, a), b), c), d, []);
    assert [d] + [] == [d];
  }

  // ---------- the program ----------

  class Connection {
    var current: Name
    var reason: map<Name, Reason>
    var lastState: Option<Name>
    var isOpen: bool
    /** Everything that has happened so far. */
    ghost var history: seq<Event>

    ghost function Now(): Machine
      reads this
    {
      Machine(current, reason, lastState, isOpen)
    }

    /** The object is where the machine is after all the events it has handled. */
    ghost predicate Valid()
      reads this
    {
      Now() == Run(Start(), history)
    }

    constructor ()
      ensures Valid() && history == []
    {
      history := [];
      current, lastState, isOpen := Init, None, false;
      reason := map n | n in STATES :: NoReason;
      AllStates();
    }

    method SetState(newState: Name)
      modifies this`current
      ensures Now() == Goto(old(Now()), newState)
    {
      current := newState;
    }

    method SetNewStateReason(r: Reason)
      requires WellTyped(Now())
      modifies this`reason
      ensures Now() == Give(old(Now()), current, r)
    {
      reason := reason[current := r];
    }

    method DoToggle()
      requires WellTyped(Now())
      modifies this`current, this`reason
      ensures Now() == Toggle(old(Now()))
    {
      var why := reason[current];
      match current
      case Init =>
        if why == AGENT_ALIVE { SetState(AgentAlive); } else if why == AGENT_DISABLED { SetState(AgentDisabled); }
      case AgentAlive =>
        if why == WEBSOCKET_CONNECTED { SetState(WebsocketConnected); }
        else if why == WEBSOCKET_DISCONNECTED { SetState(WebsocketDisconnected); }
      case AgentDisabled =>
        if why == ERROR { SetState(Exit); } else if why == AGENT_ALIVE { SetState(AgentAlive); }
      case WebsocketConnected =>
        if why == SERVER_OFFLINE { SetState(ServerOffline); }
        else if why == WEBSOCKET_DISCONNECTED { SetState(WebsocketDisconnected); }
        else { SetState(PluginRegistered); }
      case DeviceOffline =>
        if why == WEBSOCKET_DISCONNECTED { SetState(WebsocketDisconnected); } else { SetState(WebsocketConnected); }
      case WebsocketDisconnected =>
        if why == AGENT_DISABLED { SetState(AgentDisabled); } else { SetState(AgentAlive); }
      case PluginRegistered =>
        if why == DEVICE_OFFLINE { SetState(DeviceOffline); }
        else if why == SERVER_OFFLINE { SetState(ServerOffline); }
        else if why == WEBSOCKET_DISCONNECTED { SetState(WebsocketDisconnected); }
        else if why == AGENT_DISABLED { SetState(AgentDisabled); }
        else if why == RESEND_PLUGIN { SetState(WebsocketConnected); }
        reason := reason[PluginRegistered := REGISTERED];
      case ResendPlugin =>
        if why == REGISTERED { SetState(PluginRegistered); }
        reason := reason[ResendPlugin := RESEND_PLUGIN];
      case ServerOffline =>
        if lastState == Some(PluginRegistered) { SetState(WebsocketConnected); }
        else if lastState == Some(WebsocketConnected) { SetState(WebsocketConnected); }
      case Exit =>
    }

    method OnOpen()
      requires Valid()
      modifies this
      ensures Valid() && history == old(history) + [Opened]
    {
      hide Toggle, Run;
      RunSnoc(Start(), history, Opened);
      history := history + [Opened];
      if current == AgentAlive {
        SetNewStateReason(WEBSOCKET_CONNECTED);
        DoToggle();
      }
      isOpen := true;
    }

    method OnFail()
      requires Valid()
      modifies this
      ensures Valid() && history == old(history) + [Failed]
    {
      hide Toggle, Run;
      RunSnoc(Start(), history, Failed);
      history := history + [Failed];
      isOpen := false;
      if current == AgentAlive {
        SetNewStateReason(WEBSOCKET_DISCONNECTED);
        DoToggle();
      }
    }

    method OnClose()
      requires Valid()
      modifies this
      ensures Valid() && history == old(history) + [Closed]
    {
      hide Toggle, Run;
      RunSnoc(Start(), history, Closed);
      history := history + [Closed];
      isOpen := false;
      if current == PluginRegistered {
        SetNewStateReason(WEBSOCKET_DISCONNECTED);
        DoToggle();
      }
    }

    method OnErrorMessage(code: int)
      requires Valid()
      modifies this
      ensures Valid() && history == old(history) + [ErrorMessage(code)]
    {
      hide Toggle, Run;
      RunSnoc(Start(), history, ErrorMessage(code));
      history := history + [ErrorMessage(code)];
      var errCodeInt := if code < 0 then -code else code;
      if errCodeInt == 32000 {
        if current == PluginRegistered {
          SetNewStateReason(DEVICE_OFFLINE);
          DoToggle();
        }
      }
    }

    method OnAgentOffline()
      requires Valid()
      modifies this
      ensures Valid() && history == old(history) + [AgentOffline]
    {
      hide Toggle, Run;
      RunSnoc(Start(), history, AgentOffline);
      history := history + [AgentOffline];
      if current == PluginRegistered {
        SetNewStateReason(SERVER_OFFLINE);
        DoToggle();
        if current == ServerOffline {
          lastState := Some(PluginRegistered);
        }
      } else if current == WebsocketConnected {
        SetNewStateReason(SERVER_OFFLINE);
        DoToggle();
        if current == ServerOffline {
          lastState := Some(WebsocketConnected);
        }
      }
    }

    method OnAgentOnline()
      requires Valid()
      modifies this
      ensures Valid() && history == old(history) + [AgentOnline]
      ensures old(current) == ServerOffline ==> current == WebsocketConnected
    {
      hide Toggle, Run, Handle;
      if current == ServerOffline { OnlineAgain(history); }
      OnlineHandled(Now());
      RunSnoc(Start(), history, AgentOnline);
      history := history + [AgentOnline];
      if current == ServerOffline {
        DoToggle();
      }
    }

    method SendNotifyPluginUpdate(dataReady: bool)
      requires WellTyped(Now())
      modifies this`current, this`reason
      ensures Now() == if dataReady && (old(current) == WebsocketConnected || old(current) == ResendPlugin)
                       then Toggle(old(Now())) else old(Now())
    {
      hide Toggle;
      if dataReady {
        if current == WebsocketConnected || current == ResendPlugin {
          DoToggle();
        }
      }
    }

    /** One round of the update thread. */
    method NotifyUpdateRound(dataReady: bool)
      requires Valid()
      modifies this
      ensures Valid() && history == old(history) + [Update(dataReady)]
    {
      hide Toggle, Run;
      RunSnoc(Start(), history, Update(dataReady));
      history := history + [Update(dataReady)];
      if isOpen {
        if current == WebsocketConnected || current == ResendPlugin {
          SendNotifyPluginUpdate(dataReady);
        } else if current == DeviceOffline {
          DoToggle();
        }
      }
    }

    /** The main loop starts a client; whatever state is current is given the reason. */
    method ConnectWebsocket()
      requires Valid()
      modifies this
      ensures Valid() && history == old(history) + [Connect]
    {
      hide Toggle, Run;
      RunSnoc(Start(), history, Connect);
      history := history + [Connect];
      SetNewStateReason(AGENT_ALIVE);
      DoToggle();
      isOpen := false;
    }

    /** The main loop finds that the client stopped working. */
    method ConnectionBroken()
      requires Valid()
      modifies this
      ensures Valid() && history == old(history) + [Broken]
    {
      hide Toggle, Run;
      RunSnoc(Start(), history, Broken);
      history := history + [Broken];
      if current == PluginRegistered {
        SetNewStateReason(WEBSOCKET_DISCONNECTED);
        DoToggle();
      }
    }

    /** At any time: three states have not been reached, and ServerOffline knows where it came from. */
    lemma WhereItCanBe()
      requires Valid()
      ensures current != AgentDisabled && current != ResendPlugin && current != Exit
      ensures current == ServerOffline ==> lastState in {Some(PluginRegistered), Some(WebsocketConnected)}
    {
      hide Run;
      NeverReached(history);
    }
  }
}
