/** The VPN connection protocol of src-tauri/src/vpn/mod.rs: any number of `connect` calls and `run_vpn` tasks
    racing over one shared map, as a step relation. A step is what a thread does between two points where
    another thread can observe the map, a status or a channel. */
module VpnProtocol {
  import opened Wrappers

  type ProfileId = nat
  /** One successful claim of a profile's slot: its status cell, its control channel, its child, its task. */
  type ConnId = nat
  type CallId = nat

  datatype VpnState = Connecting | Connected | Disconnecting | Disconnected | Error

  /** Connecting, Connected and Disconnecting are the states in which `connect` does not try again. */
  predicate Active(state: VpnState) {
    state.Connecting? || state.Connected? || state.Disconnecting?
  }

  datatype Outcome = Status(state: VpnState) | Failed

  /** How far a `connect` call has got. */
  datatype Call =
    | Start(profile: ProfileId)
    | Checked(profile: ProfileId)
    | Claimed(profile: ProfileId, conn: ConnId)
    | Launched(profile: ProfileId, conn: ConnId)
    | Failing(profile: ProfileId, conn: ConnId)
    | Waiting(profile: ProfileId, conn: ConnId)
    | Returned(profile: ProfileId, outcome: Outcome)

  /** How far a `run_vpn` task has got. */
  datatype Task = NotSpawned | AwaitingMgmt | Reading | Ending | Reaping | Removing | CleaningUp | Done

  datatype Child = NotLaunched | Live | Exited

  /** `queue` counts undelivered Disconnect messages, `ready` is what was sent on the oneshot channel. */
  datatype Conn =
    Conn(profile: ProfileId, status: VpnState, queue: nat, ready: Option<VpnState>, child: Child, task: Task)

  datatype State = State(vpnMap: map<ProfileId, ConnId>, conns: map<ConnId, Conn>, calls: map<CallId, Call>)

  const INITIAL := State(map[], map[], map[])

  datatype Step =
    | BeginConnect(call: CallId, profile: ProfileId)
    | SeeActive(call: CallId)
    | SeeInactive(call: CallId)
    | NotInstalled(call: CallId)
    | ClaimOccupied(call: CallId)
    | ClaimVacant(call: CallId, conn: ConnId)
    | SetupFails(call: CallId)
    | LaunchChild(call: CallId)
    | SpawnTask(call: CallId)
    | UndoClaim(call: CallId)
    | ReceiveReady(call: CallId)
    | TimeOut(call: CallId)
    | MgmtUp(conn: ConnId)
    | MgmtNeverUp(conn: ConnId)
    | ReadLine(conn: ConnId, update: Option<VpnState>)
    | ReceiveDisconnect(conn: ConnId)
    | ControlClosed(conn: ConnId)
    | StreamEnds(conn: ConnId)
    | SettleStatus(conn: ConnId)
    | ReapChild(conn: ConnId)
    | RemoveEntry(conn: ConnId)
    | FinishCleanup(conn: ConnId)
    | ChildExits(conn: ConnId)
    | SendDisconnect(profile: ProfileId)

  // ---------------------------------------------------------------- the steps

  function StatusOf(s: State, p: ProfileId): Option<VpnState> {
    if p in s.vpnMap && s.vpnMap[p] in s.conns then Some(s.conns[s.vpnMap[p]].status) else None
  }

  predicate IsActive(status: Option<VpnState>) { status.Some? && Active(status.value) }

  predicate TaskAt(s: State, c: ConnId, at: Task) { c in s.conns && s.conns[c].task == at }

  /** The map entry is the only holder of the channel's sender. */
  predicate SenderAlive(s: State, c: ConnId)
    requires c in s.conns
  {
    s.conns[c].profile in s.vpnMap && s.vpnMap[s.conns[c].profile] == c
  }

  predicate Enabled(s: State, step: Step) {
    match step
    case BeginConnect(t, p) => t !in s.calls
    case SeeActive(t) => t in s.calls && s.calls[t].Start? && IsActive(StatusOf(s, s.calls[t].profile))
    case SeeInactive(t) => t in s.calls && s.calls[t].Start? && !IsActive(StatusOf(s, s.calls[t].profile))
    case NotInstalled(t) => t in s.calls && s.calls[t].Checked?
    case ClaimOccupied(t) => t in s.calls && s.calls[t].Checked? && StatusOf(s, s.calls[t].profile).Some?
    case ClaimVacant(t, c) => t in s.calls && s.calls[t].Checked? && s.calls[t].profile !in s.vpnMap && c !in s.conns
    case SetupFails(t) => t in s.calls && s.calls[t].Claimed?
    case LaunchChild(t) => t in s.calls && s.calls[t].Claimed? && s.calls[t].conn in s.conns
    case SpawnTask(t) => t in s.calls && s.calls[t].Launched? && s.calls[t].conn in s.conns
    case UndoClaim(t) => t in s.calls && s.calls[t].Failing?
    case ReceiveReady(t) => t in s.calls && s.calls[t].Waiting? && s.calls[t].conn in s.conns
        && s.conns[s.calls[t].conn].ready.Some?
    case TimeOut(t) => t in s.calls && s.calls[t].Waiting? && s.calls[t].conn in s.conns
    case MgmtUp(c) => TaskAt(s, c, AwaitingMgmt)
    case MgmtNeverUp(c) => TaskAt(s, c, AwaitingMgmt) && s.conns[c].child == Exited
    case ReadLine(c, update) => TaskAt(s, c, Reading)
        && (update.None? || update.value.Connected? || update.value.Error?)
    case ReceiveDisconnect(c) => TaskAt(s, c, Reading) && s.conns[c].queue > 0
    case ControlClosed(c) => TaskAt(s, c, Reading) && s.conns[c].queue == 0 && !SenderAlive(s, c)
    case StreamEnds(c) => TaskAt(s, c, Reading)
    case SettleStatus(c) => TaskAt(s, c, Ending)
    case ReapChild(c) => TaskAt(s, c, Reaping) && s.conns[c].child == Exited
    case RemoveEntry(c) => TaskAt(s, c, Removing)
    case FinishCleanup(c) => TaskAt(s, c, CleaningUp)
    case ChildExits(c) => c in s.conns && s.conns[c].child == Live
    case SendDisconnect(p) => StatusOf(s, p).Some?
  }

  function WithCall(s: State, t: CallId, call: Call): State { s.(calls := s.calls[t := call]) }
  function WithConn(s: State, c: ConnId, conn: Conn): State { s.(conns := s.conns[c := conn]) }

  /** The oneshot sender is used up by the first message. */
  function SendReady(conn: Conn, state: VpnState): Conn {
    if conn.ready.Some? then conn else conn.(ready := Some(state))
  }

  function Do(s: State, step: Step): State
    requires Enabled(s, step)
  {
    match step
    case BeginConnect(t, p) => WithCall(s, t, Start(p))
    case SeeActive(t) => WithCall(s, t, Returned(s.calls[t].profile, Status(StatusOf(s, s.calls[t].profile).value)))
    case SeeInactive(t) => WithCall(s, t, Checked(s.calls[t].profile))
    case NotInstalled(t) => WithCall(s, t, Returned(s.calls[t].profile, Failed))
    case ClaimOccupied(t) => WithCall(s, t, Returned(s.calls[t].profile, Status(StatusOf(s, s.calls[t].profile).value)))
    case ClaimVacant(t, c) =>
      var p := s.calls[t].profile;
      State(s.vpnMap[p := c], s.conns[c := Conn(p, Connecting, 0, None, NotLaunched, NotSpawned)],
          s.calls[t := Claimed(p, c)])
    case SetupFails(t) => WithCall(s, t, Failing(s.calls[t].profile, s.calls[t].conn))
    case LaunchChild(t) =>
      var Claimed(p, c) := s.calls[t];
      WithCall(WithConn(s, c, s.conns[c].(child := Live)), t, Launched(p, c))
    case SpawnTask(t) =>
      var Launched(p, c) := s.calls[t];
      WithCall(WithConn(s, c, s.conns[c].(task := AwaitingMgmt)), t, Waiting(p, c))
    case UndoClaim(t) =>
      var p := s.calls[t].profile;
      WithCall(s.(vpnMap := s.vpnMap - {p}), t, Returned(p, Failed))
    case ReceiveReady(t) => WithCall(s, t, Returned(s.calls[t].profile, Status(s.conns[s.calls[t].conn].ready.value)))
    case TimeOut(t) => WithCall(s, t, Returned(s.calls[t].profile, Status(s.conns[s.calls[t].conn].status)))
    case MgmtUp(c) => WithConn(s, c, s.conns[c].(task := Reading))
    case MgmtNeverUp(c) => WithConn(s, c, SendReady(s.conns[c].(status := Error, task := Removing), Error))
    case ReadLine(c, update) =>
      if update.None? then s else WithConn(s, c, SendReady(s.conns[c].(status := update.value), update.value))
    case ReceiveDisconnect(c) => WithConn(s, c, s.conns[c].(status := Disconnecting, queue := s.conns[c].queue - 1))
    case ControlClosed(c) => WithConn(s, c, s.conns[c].(task := Ending))
    case StreamEnds(c) => WithConn(s, c, s.conns[c].(task := Ending))
    case SettleStatus(c) =>
      var final := if s.conns[c].status == Error then Error else Disconnected;
      WithConn(s, c, SendReady(s.conns[c].(status := final, task := Reaping), final))
    case ReapChild(c) => WithConn(s, c, s.conns[c].(task := Removing))
    case RemoveEntry(c) =>
      WithConn(s.(vpnMap := s.vpnMap - {s.conns[c].profile}), c, s.conns[c].(task := CleaningUp))
    case FinishCleanup(c) => WithConn(s, c, s.conns[c].(task := Done))
    case ChildExits(c) => WithConn(s, c, s.conns[c].(child := Exited))
    case SendDisconnect(p) =>
      var c := s.vpnMap[p];
      WithConn(s, c, s.conns[c].(queue := s.conns[c].queue + 1))
  }

  // ---------------------------------------------------------------- ownership

  /** Whoever is responsible for a profile's map entry: a claimant still in `start_connection` or about to undo
      its claim, or a `run_vpn` task that has not yet removed the entry. */
  datatype Owner = CallOwner(call: CallId) | TaskOwner(conn: ConnId)

  predicate Holding(call: Call) { call.Claimed? || call.Launched? || call.Failing? }

  predicate Running(task: Task) {
    task.AwaitingMgmt? || task.Reading? || task.Ending? || task.Reaping? || task.Removing?
  }

  predicate Owns(s: State, o: Owner, p: ProfileId) {
    match o
    case CallOwner(t) => t in s.calls && Holding(s.calls[t]) && s.calls[t].profile == p
    case TaskOwner(c) => c in s.conns && Running(s.conns[c].task) && s.conns[c].profile == p
  }

  function ConnOf(s: State, o: Owner): ConnId
    requires o.CallOwner? ==> o.call in s.calls && Holding(s.calls[o.call])
  {
    match o case CallOwner(t) => s.calls[t].conn case TaskOwner(c) => c
  }

  /** The claim's holder, its status, its child and its task go together. */
  ghost predicate CallOk(s: State, t: CallId)
    requires t in s.calls
  {
    Holding(s.calls[t]) ==>
      var c := s.calls[t].conn;
      && c in s.conns && s.conns[c].profile == s.calls[t].profile
      && s.calls[t].profile in s.vpnMap && s.vpnMap[s.calls[t].profile] == c
      && s.conns[c].task == NotSpawned && s.conns[c].status == Connecting
      && (s.calls[t].Launched? || s.conns[c].child == NotLaunched)
  }

  ghost predicate ConnOk(s: State, c: ConnId)
    requires c in s.conns
  {
    var conn := s.conns[c];
    && (Running(conn.task) || conn.child.Live? ==> conn.profile in s.vpnMap && s.vpnMap[conn.profile] == c)
    && (conn.task.AwaitingMgmt? ==> conn.status.Connecting?)
    && (conn.task.Reading? || conn.task.Ending? ==> !conn.status.Disconnected?)
    && (conn.task.Reaping? || conn.task.Removing? ==> !Active(conn.status))
    && (conn.task.Removing? || conn.task.CleaningUp? || conn.task.Done? ==> conn.child.Exited?)
  }

  ghost predicate EntryOk(s: State, p: ProfileId)
    requires p in s.vpnMap
  {
    && s.vpnMap[p] in s.conns && s.conns[s.vpnMap[p]].profile == p
    && exists o :: Owns(s, o, p)
  }

  ghost predicate OneHolder(s: State) {
    forall t, u ::
      t in s.calls && u in s.calls && Holding(s.calls[t]) && Holding(s.calls[u]) && s.calls[t].conn == s.calls[u].conn
      ==> t == u
  }

  ghost predicate Inv(s: State) {
    && (forall t :: t in s.calls ==> CallOk(s, t))
    && (forall c :: c in s.conns ==> ConnOk(s, c))
    && (forall p :: p in s.vpnMap ==> EntryOk(s, p))
    && OneHolder(s)
  }

  /** Who owns the entry after the step, given who owned it before. */
  function OwnerAfter(s: State, step: Step, o: Owner): Owner
    requires Enabled(s, step)
  {
    match step
    case SpawnTask(t) => if o == CallOwner(t) then TaskOwner(s.calls[t].conn) else o
    case _ => o
  }

  /** Steps of a `connect` call; the others are a task's, a child's or a disconnect's. */
  predicate OfCall(step: Step) {
    || step.BeginConnect? || step.SeeActive? || step.SeeInactive? || step.NotInstalled? || step.ClaimOccupied?
    || step.ClaimVacant? || step.SetupFails? || step.LaunchChild? || step.SpawnTask? || step.UndoClaim?
    || step.ReceiveReady? || step.TimeOut?
  }

  lemma OwnerStays(s: State, step: Step, p: ProfileId, o: Owner)
    requires Inv(s) && Enabled(s, step) && !OfCall(step) && p in Do(s, step).vpnMap && Owns(s, o, p)
    ensures Owns(Do(s, step), o, p)
  {
    match o
    case CallOwner(t) => assert Do(s, step).calls == s.calls;
    case TaskOwner(c) => assert ConnOk(s, c);
  }

  lemma CallStepKeepsEntry(s: State, step: Step, p: ProfileId)
    requires Inv(s) && Enabled(s, step) && OfCall(step) && p in Do(s, step).vpnMap
    ensures EntryOk(Do(s, step), p)
  {
    var after := Do(s, step);
    if p in s.vpnMap {
      assert EntryOk(s, p);
      var o :| Owns(s, o, p);
      assert Owns(after, OwnerAfter(s, step, o), p);
    } else {
      assert Owns(after, CallOwner(step.call), p);
    }
  }

  lemma TaskStepKeepsEntry(s: State, step: Step, p: ProfileId)
    requires Inv(s) && Enabled(s, step) && !OfCall(step) && p in Do(s, step).vpnMap
    ensures EntryOk(Do(s, step), p)
  {
    assert EntryOk(s, p);
    var o :| Owns(s, o, p);
    OwnerStays(s, step, p, o);
  }

  lemma StepKeepsEntries(s: State, step: Step)
    requires Inv(s) && Enabled(s, step)
    ensures forall p :: p in Do(s, step).vpnMap ==> EntryOk(Do(s, step), p)
  {
    forall p | p in Do(s, step).vpnMap ensures EntryOk(Do(s, step), p) {
      if OfCall(step) { CallStepKeepsEntry(s, step, p); } else { TaskStepKeepsEntry(s, step, p); }
    }
  }

  lemma CallStepKeepsCall(s: State, step: Step, t: CallId)
    requires Inv(s) && Enabled(s, step) && OfCall(step) && t in Do(s, step).calls
    ensures CallOk(Do(s, step), t)
  {
    if t in s.calls { assert CallOk(s, t); }
    match step {
      case UndoClaim(u) => assert CallOk(s, u);
      case LaunchChild(u) => assert CallOk(s, u);
      case SpawnTask(u) => assert CallOk(s, u);
      case _ =>
    }
  }

  lemma TaskStepKeepsCall(s: State, step: Step, t: CallId)
    requires Inv(s) && Enabled(s, step) && !OfCall(step) && t in Do(s, step).calls
    ensures CallOk(Do(s, step), t)
  {
    assert CallOk(s, t);
    if step.RemoveEntry? { assert ConnOk(s, step.conn); }
  }

  lemma StepKeepsCall(s: State, step: Step, t: CallId)
    requires Inv(s) && Enabled(s, step) && t in Do(s, step).calls
    ensures CallOk(Do(s, step), t)
  {
    if OfCall(step) { CallStepKeepsCall(s, step, t); } else { TaskStepKeepsCall(s, step, t); }
  }

  lemma StepKeepsOneHolder(s: State, step: Step)
    requires Inv(s) && Enabled(s, step)
    ensures OneHolder(Do(s, step))
  {
    if step.ClaimVacant? {
      forall t | t in s.calls && Holding(s.calls[t]) ensures s.calls[t].conn != step.conn {
        assert CallOk(s, t);
      }
    }
  }

  /** The connection a step writes to, if any. */
  function Touched(s: State, step: Step): Option<ConnId>
    requires Enabled(s, step)
  {
    match step
    case ClaimVacant(t, c) => Some(c)
    case LaunchChild(t) => Some(s.calls[t].conn)
    case SpawnTask(t) => Some(s.calls[t].conn)
    case SendDisconnect(p) => Some(s.vpnMap[p])
    case MgmtUp(c) => Some(c)
    case MgmtNeverUp(c) => Some(c)
    case ReadLine(c, _) => Some(c)
    case ReceiveDisconnect(c) => Some(c)
    case ControlClosed(c) => Some(c)
    case StreamEnds(c) => Some(c)
    case SettleStatus(c) => Some(c)
    case ReapChild(c) => Some(c)
    case RemoveEntry(c) => Some(c)
    case FinishCleanup(c) => Some(c)
    case ChildExits(c) => Some(c)
    case _ => None
  }

  lemma StepKeepsOtherConn(s: State, step: Step, c: ConnId)
    requires Inv(s) && Enabled(s, step) && c in s.conns && Touched(s, step) != Some(c)
    ensures c in Do(s, step).conns && ConnOk(Do(s, step), c)
  {
    assert ConnOk(s, c);
    match step {
      case UndoClaim(t) => assert CallOk(s, t);
      case RemoveEntry(d) => assert ConnOk(s, d);
      case _ =>
    }
  }

  lemma CallStepKeepsOwnConn(s: State, step: Step, c: ConnId)
    requires Inv(s) && Enabled(s, step) && OfCall(step) && Touched(s, step) == Some(c)
    ensures c in Do(s, step).conns && ConnOk(Do(s, step), c)
  {
    if !step.ClaimVacant? {
      assert CallOk(s, step.call) && ConnOk(s, c);
    }
  }

  /** What a task does while it waits for and reads the management interface. */
  predicate OfReading(step: Step) {
    step.MgmtUp? || step.MgmtNeverUp? || step.ReadLine? || step.ReceiveDisconnect? || step.ControlClosed?
        || step.StreamEnds?
  }

  lemma ReadingStepKeepsOwnConn(s: State, step: Step, c: ConnId)
    requires Inv(s) && Enabled(s, step) && OfReading(step) && Touched(s, step) == Some(c)
    ensures c in Do(s, step).conns && ConnOk(Do(s, step), c)
  {
    assert ConnOk(s, c);
  }

  lemma EndingStepKeepsOwnConn(s: State, step: Step, c: ConnId)
    requires Inv(s) && Enabled(s, step) && !OfCall(step) && !OfReading(step) && Touched(s, step) == Some(c)
    ensures c in Do(s, step).conns && ConnOk(Do(s, step), c)
  {
    if step.SendDisconnect? { assert EntryOk(s, step.profile); }
    assert ConnOk(s, c);
  }

  lemma StepKeepsOwnConn(s: State, step: Step, c: ConnId)
    requires Inv(s) && Enabled(s, step) && Touched(s, step) == Some(c)
    ensures c in Do(s, step).conns && ConnOk(Do(s, step), c)
  {
    if OfCall(step) {
      CallStepKeepsOwnConn(s, step, c);
    } else if OfReading(step) {
      ReadingStepKeepsOwnConn(s, step, c);
    } else {
      EndingStepKeepsOwnConn(s, step, c);
    }
  }

  lemma StepKeepsInv(s: State, step: Step)
    requires Inv(s) && Enabled(s, step)
    ensures Inv(Do(s, step))
  {
    var after := Do(s, step);
    forall t | t in after.calls ensures CallOk(after, t) { StepKeepsCall(s, step, t); }
    forall c | c in after.conns ensures ConnOk(after, c) {
      if Touched(s, step) == Some(c) { StepKeepsOwnConn(s, step, c); } else { StepKeepsOtherConn(s, step, c); }
    }
    StepKeepsEntries(s, step);
    StepKeepsOneHolder(s, step);
  }

  // ---------------------------------------------------------------- every run

  ghost predicate RunEnabled(s: State, steps: seq<Step>)
    decreases |steps|
  {
    steps == [] || (Enabled(s, steps[0]) && RunEnabled(Do(s, steps[0]), steps[1..]))
  }

  ghost function Run(s: State, steps: seq<Step>): State
    requires RunEnabled(s, steps)
    decreases |steps|
  {
    if steps == [] then s else Run(Do(s, steps[0]), steps[1..])
  }

  lemma {:induction false} RunKeepsInv(s: State, steps: seq<Step>)
    requires Inv(s) && RunEnabled(s, steps)
    ensures Inv(Run(s, steps))
    decreases |steps|
  {
    if steps != [] {
      StepKeepsInv(s, steps[0]);
      RunKeepsInv(Do(s, steps[0]), steps[1..]);
    }
  }

  ghost predicate Reachable(s: State) {
    exists steps :: RunEnabled(INITIAL, steps) && s == Run(INITIAL, steps)
  }

  lemma ReachableInv(s: State)
    requires Reachable(s)
    ensures Inv(s)
  {
    var steps :| RunEnabled(INITIAL, steps) && s == Run(INITIAL, steps);
    RunKeepsInv(INITIAL, steps);
  }

  /** A profile is in the map exactly when somebody owns it, and then exactly one does: there is neither a
      phantom entry nor a second connection. */
  lemma MappedIffOwned(s: State, p: ProfileId)
    requires Reachable(s)
    ensures p in s.vpnMap <==> exists o :: Owns(s, o, p)
    ensures forall o, o' :: Owns(s, o, p) && Owns(s, o', p) ==> o == o' && s.vpnMap[p] == ConnOf(s, o)
  {
    ReachableInv(s);
    if p in s.vpnMap { assert EntryOk(s, p); }
    forall o, o' | Owns(s, o, p) && Owns(s, o', p)
      ensures p in s.vpnMap && o == o' && s.vpnMap[p] == ConnOf(s, o)
    {
      OwnerIsMapped(s, o, p);
      OwnerIsMapped(s, o', p);
    }
  }

  lemma OwnerIsMapped(s: State, o: Owner, p: ProfileId)
    requires Inv(s) && Owns(s, o, p)
    ensures p in s.vpnMap && s.vpnMap[p] == ConnOf(s, o)
    ensures ConnOf(s, o) in s.conns && (o.CallOwner? <==> s.conns[ConnOf(s, o)].task.NotSpawned?)
  {
    match o
    case CallOwner(t) => assert CallOk(s, t);
    case TaskOwner(c) => assert ConnOk(s, c);
  }

  /** At most one live openvpn process per profile, and it is the one behind the profile's entry. */
  lemma OneLiveChildPerProfile(s: State, c: ConnId, d: ConnId)
    requires Reachable(s)
    requires c in s.conns && d in s.conns && s.conns[c].child.Live? && s.conns[d].child.Live?
    requires s.conns[c].profile == s.conns[d].profile
    ensures c == d && s.conns[c].profile in s.vpnMap && s.vpnMap[s.conns[c].profile] == c
  {
    ReachableInv(s);
    assert ConnOk(s, c) && ConnOk(s, d);
  }

  /** A connect that fails after its claim removes its own entry and nobody else's: it had launched nothing,
      and afterwards nobody owns the profile, so the next connect can claim it. */
  lemma FailedConnectFreesSlot(s: State, t: CallId)
    requires Reachable(s) && Enabled(s, UndoClaim(t))
    ensures var Failing(p, c) := s.calls[t];
            var after := Do(s, UndoClaim(t));
            && p in s.vpnMap && s.vpnMap[p] == c && c in s.conns && s.conns[c].child.NotLaunched?
            && after.calls[t] == Returned(p, Failed)
            && after.vpnMap == s.vpnMap - {p}
            && forall o :: !Owns(after, o, p)
  {
    ReachableInv(s);
    assert CallOk(s, t);
    StepKeepsInv(s, UndoClaim(t));
    var p, after := s.calls[t].profile, Do(s, UndoClaim(t));
    forall o | Owns(after, o, p) ensures false {
      OwnerIsMapped(after, o, p);
    }
  }

  /** While a task listens on its control channel the entry that holds the sender is still there, so the
      "all senders dropped" branch of its select is never taken and no Disconnect is lost to a closed channel. */
  lemma ControlChannelStaysOpen(s: State, c: ConnId)
    requires Reachable(s) && c in s.conns && s.conns[c].task.Reading?
    ensures SenderAlive(s, c) && !Enabled(s, ControlClosed(c))
  {
    ReachableInv(s);
    assert ConnOk(s, c);
  }

  // ---------------------------------------------------------------- what a second caller is told

  /** `run_vpn` has settled its final status but not yet removed the entry: it waits for the process to exit. */
  predicate Settled(s: State, p: ProfileId) {
    p in s.vpnMap && s.vpnMap[p] in s.conns
        && (s.conns[s.vpnMap[p]].task.Reaping? || s.conns[s.vpnMap[p]].task.Removing?)
  }

  /** An occupied entry reports Disconnected, or an error that is final, exactly while its task has settled; the
      only other inactive status is an error line `run_vpn` has just read and may still see overwritten. */
  lemma OccupiedStatus(s: State, p: ProfileId)
    requires Reachable(s) && p in s.vpnMap
    ensures StatusOf(s, p).Some?
    ensures var status := StatusOf(s, p).value;
            && (status.Disconnected? ==> Settled(s, p))
            && (Settled(s, p) ==> !Active(status))
            && (!Active(status) && !Settled(s, p) ==>
                  status.Error? && (s.conns[s.vpnMap[p]].task.Reading? || s.conns[s.vpnMap[p]].task.Ending?))
  {
    ReachableInv(s);
    assert EntryOk(s, p);
    var o :| Owns(s, o, p);
    OwnerIsMapped(s, o, p);
    match o
    case CallOwner(t) => assert CallOk(s, t);
    case TaskOwner(c) => assert ConnOk(s, c);
  }

  /** What a connection's task last took note of: a management line that says something, or a disconnect message. */
  function Heard(step: Step, c: ConnId, before: VpnState): VpnState {
    match step
    case ReadLine(d, update) => if d == c && update.Some? then update.value else before
    case ReceiveDisconnect(d) => if d == c then Disconnecting else before
    case _ => before
  }

  function NewsAfter(before: VpnState, steps: seq<Step>, c: ConnId): VpnState
    decreases |steps|
  {
    if steps == [] then before else NewsAfter(Heard(steps[0], c, before), steps[1..], c)
  }

  /** The last news in a run, Connecting if there was none. */
  function News(steps: seq<Step>, c: ConnId): VpnState { NewsAfter(Connecting, steps, c) }

  predicate Unsettled(task: Task) { task.NotSpawned? || task.AwaitingMgmt? || task.Reading? || task.Ending? }

  /** Until its task settles, a connection's status is the last news. */
  predicate StatusIsNews(s: State, c: ConnId, news: VpnState) {
    if c in s.conns then Unsettled(s.conns[c].task) ==> s.conns[c].status == news else news.Connecting?
  }

  lemma CallStepKeepsNews(s: State, step: Step, c: ConnId, news: VpnState)
    requires Inv(s) && Enabled(s, step) && OfCall(step) && StatusIsNews(s, c, news)
    ensures StatusIsNews(Do(s, step), c, news)
  {
    if step.LaunchChild? || step.SpawnTask? { assert CallOk(s, step.call); }
  }

  lemma ReadingStepKeepsNews(s: State, step: Step, c: ConnId, news: VpnState)
    requires Enabled(s, step) && OfReading(step) && StatusIsNews(s, c, news)
    ensures StatusIsNews(Do(s, step), c, Heard(step, c, news))
  {
  }

  lemma EndingStepKeepsNews(s: State, step: Step, c: ConnId, news: VpnState)
    requires Enabled(s, step) && !OfCall(step) && !OfReading(step) && StatusIsNews(s, c, news)
    ensures StatusIsNews(Do(s, step), c, news)
  {
  }

  lemma StepKeepsNews(s: State, step: Step, c: ConnId, news: VpnState)
    requires Inv(s) && Enabled(s, step) && StatusIsNews(s, c, news)
    ensures StatusIsNews(Do(s, step), c, Heard(step, c, news))
  {
    if OfCall(step) {
      CallStepKeepsNews(s, step, c, news);
    } else if OfReading(step) {
      ReadingStepKeepsNews(s, step, c, news);
    } else {
      EndingStepKeepsNews(s, step, c, news);
    }
  }

  lemma {:induction false} RunKeepsNews(s: State, steps: seq<Step>, c: ConnId, news: VpnState)
    requires Inv(s) && RunEnabled(s, steps) && StatusIsNews(s, c, news)
    ensures StatusIsNews(Run(s, steps), c, NewsAfter(news, steps, c))
    decreases |steps|
  {
    if steps != [] {
      StepKeepsInv(s, steps[0]);
      StepKeepsNews(s, steps[0], c, news);
      RunKeepsNews(Do(s, steps[0]), steps[1..], c, Heard(steps[0], c, news));
    }
  }

  /** When an occupied entry is not active, by what happened: exactly if its task has settled, or the last thing it
      heard was an error line. */
  lemma OccupiedInactiveIff(steps: seq<Step>, p: ProfileId)
    requires RunEnabled(INITIAL, steps) && p in Run(INITIAL, steps).vpnMap
    ensures var s := Run(INITIAL, steps);
            && StatusOf(s, p).Some?
            && (!Active(StatusOf(s, p).value) <==> Settled(s, p) || News(steps, s.vpnMap[p]) == Error)
  {
    var s := Run(INITIAL, steps);
    var c := s.vpnMap[p];
    OccupiedStatus(s, p);
    RunKeepsInv(INITIAL, steps);
    RunKeepsNews(INITIAL, steps, c, Connecting);
    assert EntryOk(s, p);
    var o :| Owns(s, o, p);
    OwnerIsMapped(s, o, p);
  }

  /** `try_claim`'s comment says an occupied entry is always Connecting, Connected or Disconnecting. It is not:
      this run ends with a second connect turned away with Disconnected although nothing is connected. */
  lemma OccupiedCanBeDisconnected() returns (steps: seq<Step>)
    ensures RunEnabled(INITIAL, steps)
    ensures var s := Run(INITIAL, steps);
            0 in s.vpnMap && 1 in s.calls && StatusOf(s, 0) == Some(Disconnected)
                && s.calls[1] == Returned(0, Status(Disconnected))
  {
    steps := SecondCallTurnedAway();
    steps := FirstCallSettles(steps);
  }

  /** One connection whose management stream has ended: its task waits for the process to exit. */
  const SETTLED :=
      State(map[0 := 0], map[0 := Conn(0, Disconnected, 0, Some(Disconnected), Live, Reaping)], map[0 := Waiting(0, 0)])

  lemma FirstCallSettles(rest: seq<Step>) returns (steps: seq<Step>)
    requires RunEnabled(SETTLED, rest)
    ensures RunEnabled(INITIAL, steps) && Run(INITIAL, steps) == Run(SETTLED, rest)
  {
    var entry, waiting := map[0 := 0], map[0 := Waiting(0, 0)];
    var conn := Conn(0, Connecting, 0, None, Live, AwaitingMgmt);
    steps := Prepend(State(entry, map[0 := conn.(task := Ending)], waiting), SettleStatus(0), SETTLED, rest);
    steps := Prepend(State(entry, map[0 := conn.(task := Reading)], waiting), StreamEnds(0),
        State(entry, map[0 := conn.(task := Ending)], waiting), steps);
    steps := Prepend(State(entry, map[0 := conn], waiting), MgmtUp(0),
        State(entry, map[0 := conn.(task := Reading)], waiting), steps);
    steps := FirstCallLaunches(steps);
  }

  const LAUNCHED :=
      State(map[0 := 0], map[0 := Conn(0, Connecting, 0, None, Live, AwaitingMgmt)], map[0 := Waiting(0, 0)])

  lemma FirstCallLaunches(rest: seq<Step>) returns (steps: seq<Step>)
    requires RunEnabled(LAUNCHED, rest)
    ensures RunEnabled(INITIAL, steps) && Run(INITIAL, steps) == Run(LAUNCHED, rest)
  {
    var claimed := Conn(0, Connecting, 0, None, NotLaunched, NotSpawned);
    var s1 := State(map[], map[], map[0 := Start(0)]);
    var s2 := State(map[], map[], map[0 := Checked(0)]);
    var s3 := State(map[0 := 0], map[0 := claimed], map[0 := Claimed(0, 0)]);
    var s4 := State(map[0 := 0], map[0 := claimed.(child := Live)], map[0 := Launched(0, 0)]);
    steps := Prepend(s4, SpawnTask(0), LAUNCHED, rest);
    steps := Prepend(s3, LaunchChild(0), s4, steps);
    steps := Prepend(s2, ClaimVacant(0, 0), s3, steps);
    steps := Prepend(s1, SeeInactive(0), s2, steps);
    steps := Prepend(INITIAL, BeginConnect(0, 0), s1, steps);
  }

  lemma SecondCallTurnedAway() returns (steps: seq<Step>)
    ensures RunEnabled(SETTLED, steps)
    ensures var s := Run(SETTLED, steps);
            0 in s.vpnMap && 1 in s.calls && StatusOf(s, 0) == Some(Disconnected)
                && s.calls[1] == Returned(0, Status(Disconnected))
  {
    var s1 := SETTLED.(calls := map[0 := Waiting(0, 0), 1 := Start(0)]);
    var s2 := SETTLED.(calls := map[0 := Waiting(0, 0), 1 := Checked(0)]);
    var s3 := SETTLED.(calls := map[0 := Waiting(0, 0), 1 := Returned(0, Status(Disconnected))]);
    steps := Prepend(s2, ClaimOccupied(1), s3, []);
    steps := Prepend(s1, SeeInactive(1), s2, steps);
    steps := Prepend(SETTLED, BeginConnect(1, 0), s1, steps);
  }

  lemma Prepend(s: State, step: Step, after: State, rest: seq<Step>) returns (steps: seq<Step>)
    requires Enabled(s, step) && Do(s, step) == after && RunEnabled(after, rest)
    ensures RunEnabled(s, steps) && Run(s, steps) == Run(after, rest)
  {
    steps := [step] + rest;
    assert steps[1..] == rest;
  }
}
