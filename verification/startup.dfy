/** Starting sessions: every interleaving of the sessions of one process, their emulators, and other processes. */
module Startup {
  import opened Words

  const START_ATTEMPTS: nat := 5

  type Id = nat

  type Pid = nat

  type Port = nat

  /** How far an emulator process has come. It binds at most once, and accepts at most once. */
  datatype Status = Starting | Listening | Serving | Exited(couldNotBind: bool)

  /** `client`: the session whose connection reached its listening socket. `reaped`: it has been waited for. */
  datatype Process = Process(port: Port, status: Status, client: Option<Id>, reaped: bool)

  /** Where a session is. `lost` counts its attempts that lost the port race so far. A connection reached a
      `server` of this process, or (`None`) a listener of another one. */
  datatype Phase =
    | Waiting(lost: nat)
    | Locked(lost: nat)
    | Reserved(lost: nat, port: Port)
    | Spawned(lost: nat, port: Port, child: Pid)
    | Unreachable(lost: nat, child: Pid)
    | Connected(lost: nat, child: Pid, server: Option<Pid>)
    | Live(child: Pid, server: Option<Pid>)
    | Failed(lostRaces: bool)
    | Closed

  datatype State = State(
    lock: Option<Id>, sessions: map<Id, Phase>, processes: map<Pid, Process>, foreign: set<Port>, leaked: set<Pid>)

  const INITIAL := State(None, map[], map[], {}, {})

  function PhaseOf(s: State, id: Id): Phase { if id in s.sessions then s.sessions[id] else Waiting(0) }

  /** Holding the startup lock. */
  predicate InWindow(phase: Phase) {
    phase.Locked? || phase.Reserved? || phase.Spawned? || phase.Unreachable? || phase.Connected?
  }

  function ChildOf(phase: Phase): Option<Pid> {
    if phase.Spawned? || phase.Unreachable? || phase.Connected? || phase.Live? then Some(phase.child) else None
  }

  function ServerOf(phase: Phase): Option<Pid> {
    if phase.Connected? || phase.Live? then phase.server else None
  }

  predicate ListensOn(process: Process, port: Port) { process.status == Listening && process.port == port }

  /** Nobody, here or elsewhere, listens on the port. */
  predicate Free(s: State, port: Port) {
    port !in s.foreign && forall pid :: pid in s.processes ==> !ListensOn(s.processes[pid], port)
  }

  // ---- Steps ----

  datatype Action =
    | Acquire(id: Id)
    | Reserve(id: Id, port: Port) | ReserveFails(id: Id)
    | Spawn(id: Id, pid: Pid) | SpawnFails(id: Id)
    | Connect(id: Id, server: Option<Pid>) | ConnectFails(id: Id)
    | Reap(id: Id)
    | SetTimeouts(id: Id) | SetTimeoutsFails(id: Id)
    | Shutdown(id: Id)
    | Bind(pid: Pid) | BindFails(pid: Pid) | Accept(pid: Pid) | Exit(pid: Pid)
    | ForeignBind(port: Port) | ForeignRelease(port: Port)

  function Enter(s: State, id: Id, phase: Phase): State { s.(sessions := s.sessions[id := phase]) }

  /** Leave the window: the guard of the lock is dropped. */
  function Leave(s: State, id: Id, phase: Phase): State { Enter(s, id, phase).(lock := None) }

  function WithStatus(s: State, pid: Pid, status: Status): State
    requires pid in s.processes
  {
    s.(processes := s.processes[pid := s.processes[pid].(status := status)])
  }

  /** Kill and wait. A process that had already exited keeps the reason it exited with. */
  function Reaped(s: State, pid: Pid): State
    requires pid in s.processes
  {
    var process := s.processes[pid];
    var status := if process.status.Exited? then process.status else Exited(false);
    s.(processes := s.processes[pid := process.(status := status, reaped := true)])
  }

  /** What a session does next, if the action is possible. */
  function SessionStep(s: State, action: Action): Option<State>
    requires !action.Bind? && !action.BindFails? && !action.Accept? && !action.Exit?
    requires !action.ForeignBind? && !action.ForeignRelease?
  {
    var id := action.id;
    var phase := PhaseOf(s, id);
    match action
    case Acquire(_) =>
      if phase.Waiting? && s.lock == None then Some(Enter(s, id, Locked(phase.lost)).(lock := Some(id))) else None
    case Reserve(_, port) =>
      if phase.Locked? && Free(s, port) then Some(Enter(s, id, Reserved(phase.lost, port))) else None
    case ReserveFails(_) => if phase.Locked? then Some(Leave(s, id, Failed(false))) else None
    case Spawn(_, pid) =>
      if phase.Reserved? && pid !in s.processes then
        Some(Enter(s, id, Spawned(phase.lost, phase.port, pid))
             .(processes := s.processes[pid := Process(phase.port, Starting, None, false)]))
      else None
    case SpawnFails(_) => if phase.Reserved? then Some(Leave(s, id, Failed(false))) else None
    case Connect(_, None) =>
      if phase.Spawned? && phase.port in s.foreign then
        Some(Enter(s, id, Connected(phase.lost, phase.child, None)))
      else None
    case Connect(_, Some(server)) =>
      if phase.Spawned? && server in s.processes && ListensOn(s.processes[server], phase.port) then
        Some(Enter(s, id, Connected(phase.lost, phase.child, Some(server)))
             .(processes := s.processes[server := s.processes[server].(client := Some(id))]))
      else None
    case ConnectFails(_) =>
      if phase.Spawned? then Some(Enter(s, id, Unreachable(phase.lost, phase.child))) else None
    case Reap(_) =>
      if phase.Unreachable? && phase.child in s.processes then
        var lostRace := Reaped(s, phase.child).processes[phase.child].status.couldNotBind;
        Some(Leave(Reaped(s, phase.child), id,
                   if !lostRace then Failed(false)
                   else if phase.lost + 1 < START_ATTEMPTS then Waiting(phase.lost + 1)
                   else Failed(true)))
      else None
    case SetTimeouts(_) => if phase.Connected? then Some(Leave(s, id, Live(phase.child, phase.server))) else None
    case SetTimeoutsFails(_) =>
      if phase.Connected? then Some(Leave(s, id, Failed(false)).(leaked := s.leaked + {phase.child})) else None
    case Shutdown(_) =>
      if phase.Live? && phase.child in s.processes then Some(Enter(Reaped(s, phase.child), id, Closed)) else None
  }

  /** What an emulator of this process does next. */
  function ProcessStep(s: State, action: Action): Option<State>
    requires action.Bind? || action.BindFails? || action.Accept? || action.Exit?
  {
    var pid := action.pid;
    if pid !in s.processes then None
    else
      var process := s.processes[pid];
      match action
      case Bind(_) =>
        if process.status.Starting? && Free(s, process.port) then Some(WithStatus(s, pid, Listening)) else None
      case BindFails(_) =>
        if process.status.Starting? && !Free(s, process.port) then Some(WithStatus(s, pid, Exited(true))) else None
      case Accept(_) => if process.status.Listening? then Some(WithStatus(s, pid, Serving)) else None
      case Exit(_) => if !process.status.Exited? then Some(WithStatus(s, pid, Exited(false))) else None
  }

  function Step(s: State, action: Action): Option<State> {
    match action
    case ForeignBind(port) => if Free(s, port) then Some(s.(foreign := s.foreign + {port})) else None
    case ForeignRelease(port) => if port in s.foreign then Some(s.(foreign := s.foreign - {port})) else None
    case Bind(_) => ProcessStep(s, action)
    case BindFails(_) => ProcessStep(s, action)
    case Accept(_) => ProcessStep(s, action)
    case Exit(_) => ProcessStep(s, action)
    case _ => SessionStep(s, action)
  }

  /** The state after a run, if every action of it was possible. */
  function Run(actions: seq<Action>): Option<State> {
    if actions == [] then Some(INITIAL)
    else
      match Run(actions[..|actions| - 1])
      case None => None
      case Some(before) => Step(before, actions[|actions| - 1])
  }

  // ---- What every run keeps ----

  /** The session in the window is the one that holds the lock. */
  ghost predicate OneInWindow(s: State) {
    forall id: Id :: InWindow(PhaseOf(s, id)) <==> s.lock == Some(id)
  }

  /** A session that has reserved the port the process listens on. */
  predicate Aims(phase: Phase, process: Process) {
    (phase.Reserved? || phase.Spawned?) && ListensOn(process, phase.port)
  }

  /** Whoever may still be connected to has no client yet. */
  ghost predicate FreshListeners(s: State) {
    && (forall pid :: pid in s.processes && s.processes[pid].status.Starting? ==> s.processes[pid].client == None)
    && (forall id: Id, pid: Pid :: pid in s.processes && Aims(PhaseOf(s, id), s.processes[pid]) ==>
         s.processes[pid].client == None)
  }

  predicate IsClientOf(s: State, id: Id, pid: Pid) { pid in s.processes && s.processes[pid].client == Some(id) }

  /** A session is connected to the emulator whose client it is. */
  ghost predicate ServersAgree(s: State) {
    forall id: Id :: ServerOf(PhaseOf(s, id)).Some? ==> IsClientOf(s, id, ServerOf(PhaseOf(s, id)).value)
  }

  predicate Kept(s: State, pid: Pid) { pid in s.processes && !s.processes[pid].reaped && pid !in s.leaked }

  /** Children exist, are not shared, not reaped and not leaked while their session has them. */
  ghost predicate ChildrenKept(s: State) {
    && (forall id: Id :: ChildOf(PhaseOf(s, id)).Some? ==> Kept(s, ChildOf(PhaseOf(s, id)).value))
    && (forall i: Id, j: Id :: i != j && ChildOf(PhaseOf(s, i)).Some? ==>
         ChildOf(PhaseOf(s, i)) != ChildOf(PhaseOf(s, j)))
  }

  ghost predicate Owned(s: State, pid: Pid) { exists id: Id :: ChildOf(PhaseOf(s, id)) == Some(pid) }

  /** A process that was not waited for belongs to a session or was leaked; the leaked ones stay so. */
  ghost predicate Accounted(s: State) {
    && (forall pid :: pid in s.processes && !s.processes[pid].reaped ==> pid in s.leaked || Owned(s, pid))
    && (forall pid :: pid in s.leaked ==> pid in s.processes && !s.processes[pid].reaped)
  }

  function LostOf(phase: Phase): nat {
    if phase.Waiting? || InWindow(phase) then phase.lost else 0
  }

  /** No session has lost more than its attempts. */
  ghost predicate Counted(s: State) {
    forall id: Id :: LostOf(PhaseOf(s, id)) < START_ATTEMPTS
  }

  ghost predicate Invariant(s: State) {
    OneInWindow(s) && FreshListeners(s) && ServersAgree(s) && ChildrenKept(s) && Accounted(s) && Counted(s)
  }

  lemma InitialInvariant()
    ensures Invariant(INITIAL)
  {
  }

  /** The session an action is of, if it is a session's. */
  function ActorOf(action: Action): Option<Id> {
    match action
    case Bind(_) => None
    case BindFails(_) => None
    case Accept(_) => None
    case Exit(_) => None
    case ForeignBind(_) => None
    case ForeignRelease(_) => None
    case _ => Some(action.id)
  }

  lemma OthersStay(s: State, action: Action, t: State)
    requires Step(s, action) == Some(t)
    ensures forall id: Id :: ActorOf(action) != Some(id) ==> PhaseOf(t, id) == PhaseOf(s, id)
    ensures ActorOf(action) == None ==> t.lock == s.lock && t.leaked == s.leaked && t.sessions == s.sessions
  {
  }

  lemma WindowKept(s: State, action: Action, t: State)
    requires Step(s, action) == Some(t) && OneInWindow(s)
    ensures OneInWindow(t)
  {
    OthersStay(s, action, t);
  }

  lemma CountKept(s: State, action: Action, t: State)
    requires Step(s, action) == Some(t) && Counted(s)
    ensures Counted(t)
  {
    OthersStay(s, action, t);
  }

  /** A process appears by being spawned, keeps its port, and listens only from its bind to a free port on. */
  lemma ProcessesMove(s: State, action: Action, t: State, pid: Pid)
    requires Step(s, action) == Some(t) && pid in t.processes
    ensures pid !in s.processes ==>
              action.Spawn? && action.pid == pid && t.processes[pid].status.Starting? && t.processes[pid].client == None
    ensures pid in s.processes ==> t.processes[pid].port == s.processes[pid].port
    ensures pid in s.processes && t.processes[pid].status.Starting? ==> s.processes[pid].status.Starting?
    ensures pid in s.processes && t.processes[pid].status.Listening? && !s.processes[pid].status.Listening? ==>
              action == Bind(pid) && s.processes[pid].status.Starting?
  {
  }

  /** A session reserves a port nobody listens on, and spawns on the port it has reserved. */
  lemma PhasesMove(s: State, action: Action, t: State, id: Id)
    requires Step(s, action) == Some(t)
    ensures var before, after := PhaseOf(s, id), PhaseOf(t, id);
      && (after.Reserved? && after != before ==> action == Reserve(id, after.port) && Free(s, after.port))
      && (after.Spawned? && after != before ==>
            action == Spawn(id, after.child) && before == Reserved(after.lost, after.port))
  {
    OthersStay(s, action, t);
  }

  lemma NobodyListensOnFree(s: State, port: Port, pid: Pid)
    requires Free(s, port) && pid in s.processes
    ensures !ListensOn(s.processes[pid], port)
  {
  }

  /** Who aims at a listener after a step: the session did before, at the same listener, or the listener has just
      bound. */
  lemma AimsMove(s: State, action: Action, t: State, id: Id, pid: Pid)
    requires Step(s, action) == Some(t) && pid in t.processes && Aims(PhaseOf(t, id), t.processes[pid])
    ensures pid in s.processes
    ensures Aims(PhaseOf(s, id), s.processes[pid]) || (action == Bind(pid) && s.processes[pid].status.Starting?)
  {
    hide Step, PhaseOf, Free;
    ProcessesMove(s, action, t, pid);
    PhasesMove(s, action, t, id);
    if action.Reserve? && action.id == id && Free(s, PhaseOf(t, id).port) {
      NobodyListensOnFree(s, PhaseOf(t, id).port, pid);
    }
  }

  /** A process gets a client only by a connection that was aimed at it, and a session a server likewise. */
  lemma ClientMoves(s: State, action: Action, t: State, pid: Pid)
    requires Step(s, action) == Some(t) && pid in s.processes
    ensures pid in t.processes
    ensures t.processes[pid].client != s.processes[pid].client ==>
              action.Connect? && action.server == Some(pid) && Aims(PhaseOf(s, action.id), s.processes[pid])
  {
  }

  lemma ServerMoves(s: State, action: Action, t: State, id: Id)
    requires Step(s, action) == Some(t)
    ensures ServerOf(PhaseOf(t, id)).Some? && ServerOf(PhaseOf(t, id)) != ServerOf(PhaseOf(s, id)) ==>
              IsClientOf(t, id, ServerOf(PhaseOf(t, id)).value)
  {
    OthersStay(s, action, t);
  }

  /** Only the session in the window can connect, and it stops aiming then. */
  lemma NobodyAimsAfterConnecting(s: State, action: Action, t: State, id: Id)
    requires Step(s, action) == Some(t) && OneInWindow(s) && action.Connect?
    ensures !PhaseOf(t, id).Reserved? && !PhaseOf(t, id).Spawned?
  {
    OthersStay(s, action, t);
    assert InWindow(PhaseOf(s, action.id)) && (InWindow(PhaseOf(s, id)) ==> id == action.id);
  }

  /** A listener met in the window has been listening only since, so nobody is connected to it yet. */
  lemma FreshKept(s: State, action: Action, t: State)
    requires Step(s, action) == Some(t) && OneInWindow(s) && FreshListeners(s)
    ensures FreshListeners(t)
  {
    hide Step, OneInWindow, PhaseOf;
    forall pid | pid in t.processes && t.processes[pid].status.Starting?
      ensures t.processes[pid].client == None
    {
      ProcessesMove(s, action, t, pid);
      if pid in s.processes {
        ClientMoves(s, action, t, pid);
      }
    }
    forall id: Id, pid: Pid | pid in t.processes && Aims(PhaseOf(t, id), t.processes[pid])
      ensures t.processes[pid].client == None
    {
      AimsMove(s, action, t, id, pid);
      ClientMoves(s, action, t, pid);
      if action.Connect? {
        NobodyAimsAfterConnecting(s, action, t, id);
      }
    }
  }

  lemma ServersKept(s: State, action: Action, t: State)
    requires Step(s, action) == Some(t) && FreshListeners(s) && ServersAgree(s)
    ensures ServersAgree(t)
  {
    hide Step, PhaseOf, ServerOf, Aims;
    forall id: Id | ServerOf(PhaseOf(t, id)).Some?
      ensures IsClientOf(t, id, ServerOf(PhaseOf(t, id)).value)
    {
      ServerMoves(s, action, t, id);
      var server := ServerOf(PhaseOf(t, id)).value;
      if ServerOf(PhaseOf(s, id)) == Some(server) {
        assert IsClientOf(s, id, server);
        ClientMoves(s, action, t, server);
      }
    }
  }

  /** A session gets a child only by spawning a process, and loses it only by a step of its own. */
  lemma ChildMoves(s: State, action: Action, t: State, id: Id)
    requires Step(s, action) == Some(t)
    ensures ActorOf(action) != Some(id) ==> ChildOf(PhaseOf(t, id)) == ChildOf(PhaseOf(s, id))
    ensures ChildOf(PhaseOf(t, id)).Some? && ChildOf(PhaseOf(t, id)) != ChildOf(PhaseOf(s, id)) ==>
              action == Spawn(id, ChildOf(PhaseOf(t, id)).value) && ChildOf(PhaseOf(t, id)).value !in s.processes
  {
    OthersStay(s, action, t);
  }

  /** A process is reaped or leaked only by a step of the session that loses it as its child. */
  lemma KeptStays(s: State, action: Action, t: State, pid: Pid)
    requires Step(s, action) == Some(t) && Accounted(s)
    ensures action.Spawn? && action.pid == pid ==> Kept(t, pid)
    ensures Kept(s, pid) && !Kept(t, pid) ==>
              && ActorOf(action).Some? && ChildOf(PhaseOf(s, ActorOf(action).value)) == Some(pid)
              && ChildOf(PhaseOf(t, ActorOf(action).value)) == None
  {
  }

  lemma ChildrenExist(s: State, id: Id)
    requires ChildrenKept(s)
    ensures ChildOf(PhaseOf(s, id)).Some? ==> ChildOf(PhaseOf(s, id)).value in s.processes
  {
  }

  lemma ChildrenStay(s: State, action: Action, t: State)
    requires Step(s, action) == Some(t) && ChildrenKept(s) && Accounted(s)
    ensures ChildrenKept(t)
  {
    hide Step, PhaseOf, ChildOf, Kept, Accounted;
    forall id: Id | ChildOf(PhaseOf(t, id)).Some?
      ensures Kept(t, ChildOf(PhaseOf(t, id)).value)
    {
      ChildMoves(s, action, t, id);
      KeptStays(s, action, t, ChildOf(PhaseOf(t, id)).value);
    }
    forall i: Id, j: Id | i != j && ChildOf(PhaseOf(t, i)).Some?
      ensures ChildOf(PhaseOf(t, i)) != ChildOf(PhaseOf(t, j))
    {
      ChildMoves(s, action, t, i);
      ChildMoves(s, action, t, j);
      ChildrenExist(s, i);
      ChildrenExist(s, j);
    }
  }

  lemma LostChildren(s: State, action: Action, t: State, id: Id, pid: Pid)
    requires Step(s, action) == Some(t) && ChildOf(PhaseOf(s, id)) == Some(pid) && pid in t.processes
    ensures ChildOf(PhaseOf(t, id)) == Some(pid) || t.processes[pid].reaped || pid in t.leaked
  {
    OthersStay(s, action, t);
  }

  lemma UnreapedBefore(s: State, action: Action, t: State, pid: Pid)
    requires Step(s, action) == Some(t) && pid in t.processes && !t.processes[pid].reaped
    ensures pid in s.processes ==> !s.processes[pid].reaped
    ensures pid !in s.processes ==> Owned(t, pid)
    ensures pid in s.leaked ==> pid in t.leaked
  {
    if pid !in s.processes {
      assert ChildOf(PhaseOf(t, action.id)) == Some(pid);
    }
  }

  lemma LeakedStay(s: State, action: Action, t: State, pid: Pid)
    requires Step(s, action) == Some(t) && ChildrenKept(s) && Accounted(s) && pid in t.leaked
    ensures pid in t.processes && !t.processes[pid].reaped
  {
  }

  lemma AccountKept(s: State, action: Action, t: State)
    requires Step(s, action) == Some(t) && ChildrenKept(s) && Accounted(s)
    ensures Accounted(t)
  {
    hide Step, ChildrenKept, PhaseOf, ChildOf;
    forall pid | pid in t.processes && !t.processes[pid].reaped
      ensures pid in t.leaked || Owned(t, pid)
    {
      UnreapedBefore(s, action, t, pid);
      if pid in s.processes && pid !in s.leaked {
        var id: Id :| ChildOf(PhaseOf(s, id)) == Some(pid);
        LostChildren(s, action, t, id, pid);
      }
    }
    forall pid | pid in t.leaked
      ensures pid in t.processes && !t.processes[pid].reaped
    {
      LeakedStay(s, action, t, pid);
    }
  }

  lemma InvariantKept(s: State, action: Action, t: State)
    requires Step(s, action) == Some(t) && Invariant(s)
    ensures Invariant(t)
  {
    hide OneInWindow, FreshListeners, ServersAgree, ChildrenKept, Accounted, Counted, Step;
    WindowKept(s, action, t);
    CountKept(s, action, t);
    FreshKept(s, action, t);
    ServersKept(s, action, t);
    ChildrenStay(s, action, t);
    AccountKept(s, action, t);
  }

  lemma {:induction false} EveryRunKeepsTheInvariant(actions: seq<Action>)
    requires Run(actions).Some?
    ensures Invariant(Run(actions).value)
  {
    hide Invariant, Step;
    if actions == [] {
      InitialInvariant();
    } else {
      var init, last := actions[..|actions| - 1], actions[|actions| - 1];
      EveryRunKeepsTheInvariant(init);
      InvariantKept(Run(init).value, last, Run(actions).value);
    }
  }

  // ---- What that means ----

  /** In every interleaving at most one session is between reserving its port and being connected to. */
  lemma OneSessionStartsAtATime(actions: seq<Action>, i: Id, j: Id)
    requires Run(actions).Some?
    requires InWindow(PhaseOf(Run(actions).value, i)) && InWindow(PhaseOf(Run(actions).value, j))
    ensures i == j && Run(actions).value.lock == Some(i)
  {
    hide Run;
    EveryRunKeepsTheInvariant(actions);
    var s := Run(actions).value;
    assert OneInWindow(s);
  }

  /** In every interleaving two sessions never have the same emulator of this process at the other end. */
  lemma SessionsDoNotShareAnEmulator(actions: seq<Action>, i: Id, j: Id)
    requires Run(actions).Some? && i != j
    requires ServerOf(PhaseOf(Run(actions).value, i)).Some?
    ensures ServerOf(PhaseOf(Run(actions).value, i)) != ServerOf(PhaseOf(Run(actions).value, j))
  {
    hide Run;
    EveryRunKeepsTheInvariant(actions);
    var s := Run(actions).value;
    assert ServersAgree(s);
    assert IsClientOf(s, i, ServerOf(PhaseOf(s, i)).value);
  }

  /** The step by which a session loses a race reaps the child that could not bind. */
  lemma LosersAreReaped(actions: seq<Action>, action: Action, id: Id)
    requires Run(actions + [action]).Some?
    ensures Run(actions).Some? && Run(actions + [action]) == Step(Run(actions).value, action)
    ensures var s, t := Run(actions).value, Run(actions + [action]).value;
      && LostOf(PhaseOf(s, id)) < START_ATTEMPTS
      && ((|| (PhaseOf(t, id).Waiting? && !PhaseOf(s, id).Waiting?)
           || (PhaseOf(t, id) == Failed(true) && PhaseOf(s, id) != Failed(true))) ==>
            && action == Reap(id) && PhaseOf(s, id).Unreachable?
            && t.processes[PhaseOf(s, id).child] == s.processes[PhaseOf(s, id).child].(reaped := true)
            && s.processes[PhaseOf(s, id).child].status == Exited(true)
            && PhaseOf(t, id) == (if PhaseOf(s, id).lost + 1 < START_ATTEMPTS then Waiting(PhaseOf(s, id).lost + 1)
                 else Failed(true)))
  {
    assert (actions + [action])[..|actions + [action]| - 1] == actions;
    hide Run;
    EveryRunKeepsTheInvariant(actions);
    var s, t := Run(actions).value, Run(actions + [action]).value;
    OthersStay(s, action, t);
    assert Counted(s);
  }

  /** The lock is released with the session live or its child reaped, except when a timeout cannot be set on an
      established connection: then, and only then, the child is left running and is never waited for. */
  lemma ChildrenAreReapedUnlessTimeoutsFail(actions: seq<Action>, action: Action, id: Id)
    requires Run(actions + [action]).Some? && Run(actions).Some?
    requires Run(actions).value.lock == Some(id) && Run(actions + [action]).value.lock == None
    requires ChildOf(PhaseOf(Run(actions).value, id)).Some?
    ensures var s, t := Run(actions).value, Run(actions + [action]).value;
      var child := ChildOf(PhaseOf(s, id)).value;
      && child in t.processes
      && (PhaseOf(t, id).Live? || t.processes[child].reaped <==> action != SetTimeoutsFails(id))
      && (action == SetTimeoutsFails(id) ==> child in t.leaked && !Owned(t, child))
  {
    assert (actions + [action])[..|actions + [action]| - 1] == actions;
    assert Run(actions + [action]) == Step(Run(actions).value, action);
    hide Run;
    EveryRunKeepsTheInvariant(actions);
    EveryRunKeepsTheInvariant(actions + [action]);
    var s, t := Run(actions).value, Run(actions + [action]).value;
    OthersStay(s, action, t);
    assert OneInWindow(s) && ChildrenKept(s) && ChildrenKept(t);
    assert InWindow(PhaseOf(s, id));
  }

  lemma LeakedGrows(s: State, action: Action, t: State)
    requires Step(s, action) == Some(t)
    ensures t.leaked == {} <==> s.leaked == {} && !action.SetTimeoutsFails?
  {
    OthersStay(s, action, t);
    if action.SetTimeoutsFails? {
      assert PhaseOf(s, action.id).child in t.leaked;
    }
  }

  /** A whole run leaves no child behind exactly when no timeout failed to be set in it. */
  lemma {:induction false} LeaksAreFailedTimeouts(actions: seq<Action>)
    requires Run(actions).Some?
    ensures Run(actions).value.leaked == {} <==> forall action :: action in actions ==> !action.SetTimeoutsFails?
  {
    hide Step;
    if actions != [] {
      var init, last := actions[..|actions| - 1], actions[|actions| - 1];
      LeaksAreFailedTimeouts(init);
      LeakedGrows(Run(init).value, last, Run(actions).value);
      assert actions == init + [last];
    }
  }

  /** In every run: each process belongs to a session or has been waited for, exactly when no timeout failed to be
      set in it. */
  lemma NoProcessLeftExactly(actions: seq<Action>)
    requires Run(actions).Some?
    ensures var s := Run(actions).value;
      (forall pid :: pid in s.processes ==> Owned(s, pid) || s.processes[pid].reaped) <==>
      (forall action :: action in actions ==> !action.SetTimeoutsFails?)
  {
    hide Run;
    EveryRunKeepsTheInvariant(actions);
    LeaksAreFailedTimeouts(actions);
    var s := Run(actions).value;
    forall pid | pid in s.leaked
      ensures pid in s.processes && !s.processes[pid].reaped && !Owned(s, pid)
    {
      assert forall id: Id :: ChildOf(PhaseOf(s, id)) == Some(pid) ==> Kept(s, pid);
    }
    if s.leaked != {} {
      var pid :| pid in s.leaked;
    }
  }

  // ---- Attempts over a run ----

  function AttemptsOf(actions: seq<Action>, id: Id): nat {
    if actions == [] then 0
    else AttemptsOf(actions[..|actions| - 1], id) + if actions[|actions| - 1] == Acquire(id) then 1 else 0
  }

  /** How many attempts a session has made, read off where it is. */
  predicate Consistent(phase: Phase, attempts: nat) {
    if phase.Waiting? then attempts == phase.lost
    else if InWindow(phase) then attempts == phase.lost + 1
    else if phase == Failed(true) then attempts == START_ATTEMPTS
    else 1 <= attempts <= START_ATTEMPTS
  }

  lemma AttemptsStep(s: State, action: Action, t: State, id: Id, attempts: nat)
    requires Step(s, action) == Some(t) && Counted(s) && Consistent(PhaseOf(s, id), attempts)
    ensures Consistent(PhaseOf(t, id), attempts + if action == Acquire(id) then 1 else 0)
  {
    OthersStay(s, action, t);
    assert LostOf(PhaseOf(s, id)) < START_ATTEMPTS;
  }

  lemma {:induction false} AttemptsAreConsistent(actions: seq<Action>, id: Id)
    requires Run(actions).Some?
    ensures Consistent(PhaseOf(Run(actions).value, id), AttemptsOf(actions, id))
  {
    hide Step, InWindow;
    if actions != [] {
      var init := actions[..|actions| - 1];
      AttemptsAreConsistent(init, id);
      EveryRunKeepsTheInvariant(init);
      AttemptsStep(Run(init).value, actions[|actions| - 1], Run(actions).value, id, AttemptsOf(init, id));
    }
  }

  /** A session waits for another attempt, or gives up over lost races, only by reaping a child that could not bind;
      it gives up exactly when that was its fifth attempt in the run. */
  lemma OnlyLostRacesAreRetried(actions: seq<Action>, action: Action, id: Id)
    requires Run(actions + [action]).Some?
    ensures Run(actions).Some? && Run(actions + [action]) == Step(Run(actions).value, action)
    ensures var s, t := Run(actions).value, Run(actions + [action]).value;
      (|| (PhaseOf(t, id).Waiting? && !PhaseOf(s, id).Waiting?)
       || (PhaseOf(t, id) == Failed(true) && PhaseOf(s, id) != Failed(true))) ==>
        && action == Reap(id) && PhaseOf(s, id).Unreachable?
        && t.processes[PhaseOf(s, id).child] == s.processes[PhaseOf(s, id).child].(reaped := true)
        && s.processes[PhaseOf(s, id).child].status == Exited(true)
        && (if AttemptsOf(actions, id) < START_ATTEMPTS then PhaseOf(t, id) == Waiting(AttemptsOf(actions, id))
            else AttemptsOf(actions, id) == START_ATTEMPTS && PhaseOf(t, id) == Failed(true))
  {
    hide Run, Step, AttemptsOf;
    LosersAreReaped(actions, action, id);
    AttemptsAreConsistent(actions, id);
  }

  /** In every interleaving no session makes more than five attempts, and one that has lost every race has made all
      five. */
  lemma AtMostFiveAttempts(actions: seq<Action>, id: Id)
    requires Run(actions).Some?
    ensures AttemptsOf(actions, id) <= START_ATTEMPTS
    ensures PhaseOf(Run(actions).value, id).Waiting? ==> AttemptsOf(actions, id) < START_ATTEMPTS
    ensures PhaseOf(Run(actions).value, id) == Failed(true) ==> AttemptsOf(actions, id) == START_ATTEMPTS
  {
    hide Run;
    AttemptsAreConsistent(actions, id);
    EveryRunKeepsTheInvariant(actions);
    assert Counted(Run(actions).value);
    assert LostOf(PhaseOf(Run(actions).value, id)) < START_ATTEMPTS;
  }

  // ---- A session and its own child ----

  predicate Launches(phase: Phase, pid: Pid) {
    (phase.Spawned? || phase.Unreachable?) && phase.child == pid
  }

  ghost predicate Launching(s: State, pid: Pid) { exists id: Id :: Launches(PhaseOf(s, id), pid) }

  predicate Joined(phase: Phase) { phase.Connected? || phase.Live? }

  /** Only the child of a session in the window has still to bind; only it may listen on the session's port; and
      whoever is connected is connected to its own child. */
  ghost predicate OwnServers(s: State) {
    && (forall pid :: pid in s.processes && s.processes[pid].status.Starting? ==> Launching(s, pid))
    && (forall id: Id, pid: Pid :: pid in s.processes && Aims(PhaseOf(s, id), s.processes[pid]) ==>
          ChildOf(PhaseOf(s, id)) == Some(pid))
    && (forall id: Id :: Joined(PhaseOf(s, id)) ==> ServerOf(PhaseOf(s, id)) == ChildOf(PhaseOf(s, id)))
  }

  predicate ReachesAnother(action: Action) { action.Connect? && action.server == None }

  lemma LaunchesMove(s: State, action: Action, t: State, id: Id, pid: Pid)
    requires Step(s, action) == Some(t) && Launches(PhaseOf(s, id), pid) && pid in t.processes
    ensures || Launches(PhaseOf(t, id), pid)
            || !t.processes[pid].status.Starting?
            || (action.Connect? && action.id == id)
  {
    OthersStay(s, action, t);
  }

  lemma ConnectedChildIsListening(s: State, action: Action, t: State)
    requires Step(s, action) == Some(t) && OwnServers(s) && action.Connect? && !ReachesAnother(action)
    ensures ChildOf(PhaseOf(s, action.id)).Some?
    ensures var child := ChildOf(PhaseOf(s, action.id)).value;
      child in t.processes && t.processes[child].status.Listening?
  {
    var server := action.server.value;
    assert Aims(PhaseOf(s, action.id), s.processes[server]);
  }

  lemma SpawnLaunches(s: State, action: Action, t: State)
    requires Step(s, action) == Some(t) && action.Spawn?
    ensures Launching(t, action.pid)
  {
    assert Launches(PhaseOf(t, action.id), action.pid);
  }

  lemma LaunchingKept(s: State, action: Action, t: State, pid: Pid)
    requires Step(s, action) == Some(t) && Invariant(s) && OwnServers(s)
    requires pid in t.processes && t.processes[pid].status.Starting? && !ReachesAnother(action)
    ensures Launching(t, pid)
  {
    hide Step, Invariant, PhaseOf, ReachesAnother, Aims;
    ProcessesMove(s, action, t, pid);
    if pid in s.processes {
      var id: Id :| Launches(PhaseOf(s, id), pid);
      LaunchesMove(s, action, t, id, pid);
      if action.Connect? && action.id == id {
        ConnectedChildIsListening(s, action, t);
      }
      assert Launches(PhaseOf(t, id), pid);
    } else {
      SpawnLaunches(s, action, t);
    }
  }

  lemma AimerKeepsItsChild(s: State, action: Action, t: State, id: Id, pid: Pid)
    requires Step(s, action) == Some(t) && pid in t.processes && Aims(PhaseOf(t, id), t.processes[pid])
    requires ChildOf(PhaseOf(s, id)) == Some(pid)
    ensures ChildOf(PhaseOf(t, id)) == Some(pid)
  {
    OthersStay(s, action, t);
  }

  lemma OnlyTheLauncherAims(s: State, action: Action, t: State, id: Id, other: Id, pid: Pid)
    requires Step(s, action) == Some(t) && action == Bind(pid) && OneInWindow(s)
    requires Launches(PhaseOf(s, other), pid) && (PhaseOf(t, id).Reserved? || PhaseOf(t, id).Spawned?)
    ensures ChildOf(PhaseOf(t, id)) == Some(pid)
  {
    OthersStay(s, action, t);
    assert InWindow(PhaseOf(s, other)) && InWindow(PhaseOf(s, id));
  }

  lemma AimsKept(s: State, action: Action, t: State, id: Id, pid: Pid)
    requires Step(s, action) == Some(t) && Invariant(s) && OwnServers(s)
    requires pid in t.processes && Aims(PhaseOf(t, id), t.processes[pid])
    ensures ChildOf(PhaseOf(t, id)) == Some(pid)
  {
    hide Step, PhaseOf, FreshListeners, ServersAgree, ChildrenKept, Accounted, Counted, Launches;
    AimsMove(s, action, t, id, pid);
    PhasesMove(s, action, t, id);
    if Aims(PhaseOf(s, id), s.processes[pid]) {
      AimerKeepsItsChild(s, action, t, id, pid);
    } else {
      var other: Id :| Launches(PhaseOf(s, other), pid);
      OnlyTheLauncherAims(s, action, t, id, other, pid);
    }
  }

  lemma JoinedKept(s: State, action: Action, t: State, id: Id)
    requires Step(s, action) == Some(t) && OwnServers(s) && !ReachesAnother(action)
    requires Joined(PhaseOf(t, id))
    ensures ServerOf(PhaseOf(t, id)) == ChildOf(PhaseOf(t, id))
  {
    OthersStay(s, action, t);
  }

  lemma {:induction false} EveryRunKeepsOwnServers(actions: seq<Action>)
    requires Run(actions).Some? && forall action :: action in actions ==> !ReachesAnother(action)
    ensures OwnServers(Run(actions).value)
  {
    if actions != [] {
      hide Step, Invariant, Aims, ReachesAnother, Joined, PhaseOf, ChildOf, ServerOf, Launching;
      var init, last := actions[..|actions| - 1], actions[|actions| - 1];
      var s, t := Run(init).value, Run(actions).value;
      EveryRunKeepsTheInvariant(init);
      EveryRunKeepsOwnServers(init);
      assert last in actions;
      forall pid | pid in t.processes && t.processes[pid].status.Starting?
        ensures Launching(t, pid)
      {
        LaunchingKept(s, last, t, pid);
      }
      forall id: Id, pid: Pid | pid in t.processes && Aims(PhaseOf(t, id), t.processes[pid])
        ensures ChildOf(PhaseOf(t, id)) == Some(pid)
      {
        AimsKept(s, last, t, id, pid);
      }
      forall id: Id | Joined(PhaseOf(t, id))
        ensures ServerOf(PhaseOf(t, id)) == ChildOf(PhaseOf(t, id))
      {
        JoinedKept(s, last, t, id);
      }
    }
  }

  /** Every connected session is connected to the emulator it spawned itself. */
  ghost predicate AllAtTheirOwn(s: State) {
    forall id: Id :: Joined(PhaseOf(s, id)) ==> ServerOf(PhaseOf(s, id)) == ChildOf(PhaseOf(s, id))
  }

  ghost predicate AtTheirOwnAfter(actions: seq<Action>, n: nat)
    requires n <= |actions|
  {
    Run(actions[..n]).Some? && AllAtTheirOwn(Run(actions[..n]).value)
  }

  lemma {:induction false} PrefixesRun(actions: seq<Action>, n: nat)
    requires Run(actions).Some? && n <= |actions|
    ensures Run(actions[..n]).Some?
    decreases |actions|
  {
    if n < |actions| {
      assert actions[..|actions| - 1][..n] == actions[..n];
      PrefixesRun(actions[..|actions| - 1], n);
    } else {
      assert actions[..n] == actions;
    }
  }

  lemma AnotherIsNotOwn(s: State, action: Action, t: State)
    requires Step(s, action) == Some(t) && ReachesAnother(action)
    ensures !AllAtTheirOwn(t)
  {
    assert Joined(PhaseOf(t, action.id)) && ServerOf(PhaseOf(t, action.id)) == None;
  }

  lemma RunOneMore(actions: seq<Action>, action: Action)
    requires Run(actions).Some?
    ensures Run(actions + [action]) == Step(Run(actions).value, action)
  {
    assert (actions + [action])[..|actions|] == actions;
  }

  /** Throughout a run every connected session is connected to its own child, exactly when no connection of the run
      reaches a listener of another process. */
  lemma SessionsReachTheirOwnChildExactly(actions: seq<Action>)
    requires Run(actions).Some?
    ensures (forall n :: 0 <= n <= |actions| ==> AtTheirOwnAfter(actions, n)) <==>
            (forall action :: action in actions ==> !ReachesAnother(action))
  {
    hide Run, ReachesAnother, Step;
    if forall action :: action in actions ==> !ReachesAnother(action) {
      forall n | 0 <= n <= |actions|
        ensures AtTheirOwnAfter(actions, n)
      {
        PrefixesRun(actions, n);
        EveryRunKeepsOwnServers(actions[..n]);
        assert OwnServers(Run(actions[..n]).value);
      }
    } else {
      var k :| 0 <= k < |actions| && ReachesAnother(actions[k]);
      PrefixesRun(actions, k);
      PrefixesRun(actions, k + 1);
      assert actions[..k + 1] == actions[..k] + [actions[k]];
      RunOneMore(actions[..k], actions[k]);
      AnotherIsNotOwn(Run(actions[..k]).value, actions[k], Run(actions[..k + 1]).value);
      assert !AtTheirOwnAfter(actions, k + 1);
    }
  }

  lemma NothingRun()
    ensures Run([]) == Some(INITIAL)
  {
  }

  lemma Overwritten<V>(m: map<nat, V>, key: nat, first: V, second: V)
    ensures m[key := first][key := second] == m[key := second]
  {
  }

  /** A first attempt up to its spawned child. */
  function AfterSpawn(s: State, id: Id, port: Port, pid: Pid): State {
    s.(lock := Some(id), sessions := s.sessions[id := Spawned(0, port, pid)],
       processes := s.processes[pid := Process(port, Starting, None, false)])
  }

  function SpawnRun(actions: seq<Action>, id: Id, port: Port, pid: Pid): seq<Action> {
    actions + [Acquire(id)] + [Reserve(id, port)] + [Spawn(id, pid)]
  }

  lemma SpawnRuns(actions: seq<Action>, s: State, id: Id, port: Port, pid: Pid)
    requires Run(actions) == Some(s) && s.lock == None && PhaseOf(s, id) == Waiting(0)
    requires Free(s, port) && pid !in s.processes
    ensures Run(SpawnRun(actions, id, port, pid)) == Some(AfterSpawn(s, id, port, pid))
  {
    hide Run;
    var s1 := s.(lock := Some(id), sessions := s.sessions[id := Locked(0)]);
    var s2 := s.(lock := Some(id), sessions := s.sessions[id := Reserved(0, port)]);
    Overwritten(s.sessions, id, Locked(0), Reserved(0, port));
    Overwritten(s.sessions, id, Reserved(0, port), Spawned(0, port, pid));
    assert Step(s, Acquire(id)) == Some(s1);
    RunOneMore(actions, Acquire(id));
    assert Step(s1, Reserve(id, port)) == Some(s2);
    RunOneMore(actions + [Acquire(id)], Reserve(id, port));
    assert Step(s2, Spawn(id, pid)) == Some(AfterSpawn(s, id, port, pid));
    RunOneMore(actions + [Acquire(id)] + [Reserve(id, port)], Spawn(id, pid));
  }

  const SPAWNED := State(
    Some(0), map[0 := Spawned(0, 5000, 1)], map[1 := Process(5000, Starting, None, false)], {}, {})

  lemma FirstSpawn()
    ensures Run(SpawnRun([], 0, 5000, 1)) == Some(SPAWNED)
  {
    hide Run;
    NothingRun();
    SpawnRuns([], INITIAL, 0, 5000, 1);
  }

  // ---- A start that leaves its child ----

  const LEAKING_RUN: seq<Action> := SpawnRun([], 0, 5000, 1) + [Bind(1)] + [Connect(0, Some(1))] + [SetTimeoutsFails(0)]

  /** A start that fails after connecting returns with its emulator still running and the lock released. */
  lemma AFailedStartMayLeaveItsChild()
    ensures Run(LEAKING_RUN) == Some(State(
              None, map[0 := Failed(false)], map[1 := Process(5000, Listening, Some(0), false)], {}, {1}))
  {
    hide Run, SpawnRun;
    var run := SpawnRun([], 0, 5000, 1);
    var s1 := SPAWNED.(processes := map[1 := Process(5000, Listening, None, false)]);
    var s2 := State(Some(0), map[0 := Connected(0, 1, Some(1))], map[1 := Process(5000, Listening, Some(0), false)],
        {}, {});
    FirstSpawn();
    Overwritten(map[], 1, Process(5000, Starting, None, false), Process(5000, Listening, None, false));
    Overwritten(map[], 1, Process(5000, Listening, None, false), Process(5000, Listening, Some(0), false));
    Overwritten(map[], 0, Spawned(0, 5000, 1), Connected(0, 1, Some(1)));
    Overwritten(map[], 0, Connected(0, 1, Some(1)), Failed(false));
    assert s2.leaked + {1} == {1};
    assert Step(SPAWNED, Bind(1)) == Some(s1);
    RunOneMore(run, Bind(1));
    assert Step(s1, Connect(0, Some(1))) == Some(s2);
    RunOneMore(run + [Bind(1)], Connect(0, Some(1)));
    RunOneMore(run + [Bind(1)] + [Connect(0, Some(1))], SetTimeoutsFails(0));
  }

  // ---- A session that drives another's child ----

  /** Session 0 has reached a listener of another process while its own child has not bound yet. */
  const STRAYED_RUN: seq<Action> :=
    SpawnRun([], 0, 5000, 1) + [ForeignBind(5000)] + [Connect(0, None)] + [SetTimeouts(0)] + [ForeignRelease(5000)]

  const STRAYED := State(None, map[0 := Live(1, None)], map[1 := Process(5000, Starting, None, false)], {}, {})

  const MISLED := SPAWNED.(sessions := map[0 := Connected(0, 1, None)], foreign := {5000})

  /** A foreign listener takes the port session 0 spawned for, and the session connects to it. */
  lemma MisledRun()
    ensures Run(SpawnRun([], 0, 5000, 1) + [ForeignBind(5000)] + [Connect(0, None)]) == Some(MISLED)
  {
    hide Run, SpawnRun;
    var run := SpawnRun([], 0, 5000, 1);
    var s1 := SPAWNED.(foreign := {5000});
    FirstSpawn();
    Overwritten(map[], 0, Spawned(0, 5000, 1), Connected(0, 1, None));
    assert SPAWNED.foreign + {5000} == {5000};
    assert Step(SPAWNED, ForeignBind(5000)) == Some(s1);
    RunOneMore(run, ForeignBind(5000));
    assert Step(s1, Connect(0, None)) == Some(MISLED);
    RunOneMore(run + [ForeignBind(5000)], Connect(0, None));
  }

  lemma StrayedRun()
    ensures Run(STRAYED_RUN) == Some(STRAYED)
  {
    hide Run, SpawnRun;
    var run := SpawnRun([], 0, 5000, 1);
    var s3 := STRAYED.(foreign := {5000});
    MisledRun();
    Overwritten(map[], 0, Connected(0, 1, None), Live(1, None));
    assert s3.foreign - {5000} == {};
    assert Step(MISLED, SetTimeouts(0)) == Some(s3);
    RunOneMore(run + [ForeignBind(5000)] + [Connect(0, None)], SetTimeouts(0));
    assert Step(s3, ForeignRelease(5000)) == Some(STRAYED);
    RunOneMore(run + [ForeignBind(5000)] + [Connect(0, None)] + [SetTimeouts(0)], ForeignRelease(5000));
  }

  const CROSSED_RUN: seq<Action> :=
    SpawnRun(STRAYED_RUN, 1, 5000, 2) + [Bind(1)] + [Connect(1, Some(1))] + [SetTimeouts(1)]

  /** Then session 1 can reserve the same port, and be live with session 0's child at the other end. */
  lemma AStrayedSessionMayLoseItsChildToAnother()
    ensures Run(CROSSED_RUN).Some?
    ensures var s := Run(CROSSED_RUN).value; PhaseOf(s, 0) == Live(1, None) && PhaseOf(s, 1) == Live(2, Some(1))
  {
    hide Run, SpawnRun;
    StrayedRun();
    SpawnRuns(STRAYED_RUN, STRAYED, 1, 5000, 2);
    var run := SpawnRun(STRAYED_RUN, 1, 5000, 2);
    var s := AfterSpawn(STRAYED, 1, 5000, 2);
    var listening := Process(5000, Listening, None, false);
    var s1 := s.(processes := s.processes[1 := listening]);
    var s2 := s1.(sessions := s1.sessions[1 := Connected(0, 2, Some(1))],
                  processes := s1.processes[1 := listening.(client := Some(1))]);
    assert Step(s, Bind(1)) == Some(s1);
    RunOneMore(run, Bind(1));
    assert Step(s1, Connect(1, Some(1))) == Some(s2);
    RunOneMore(run + [Bind(1)], Connect(1, Some(1)));
    RunOneMore(run + [Bind(1)] + [Connect(1, Some(1))], SetTimeouts(1));
  }

  // ---- One session's own loop ----

  /** What one attempt comes to. */
  datatype Attempt = Started | LostPortRace | Fatal

  datatype StartOutcome = StartedSession | StartFailed | LostEveryRace

  /** `start`: attempts in order, going on only past lost races and stopping after the fifth. */
  method Start(attempt: nat -> Attempt) returns (outcome: StartOutcome, attempts: nat)
    ensures 1 <= attempts <= START_ATTEMPTS
    ensures forall k :: 0 <= k < attempts - 1 ==> attempt(k) == LostPortRace
    ensures outcome == match attempt(attempts - 1)
      case Started => StartedSession
      case Fatal => StartFailed
      case LostPortRace => LostEveryRace
    ensures attempt(attempts - 1) == LostPortRace ==> attempts == START_ATTEMPTS
  {
    attempts := 0;
    while attempts < START_ATTEMPTS
      invariant attempts <= START_ATTEMPTS
      invariant forall k :: 0 <= k < attempts ==> attempt(k) == LostPortRace
    {
      var result := attempt(attempts);
      attempts := attempts + 1;
      match result {
        case Started => return StartedSession, attempts;
        case Fatal => return StartFailed, attempts;
        case LostPortRace =>
      }
    }
    outcome := LostEveryRace;
  }
}
