/** What a `connect` call is told, and what becomes of a disconnect and of a process (src-tauri/src/vpn/mod.rs:177-257,
    391-516), from the steps of a run alone. */
module VpnAnswers {
  import opened Wrappers
  import opened VpnProtocol

  // ---------------------------------------------------------------- a run and its states

  /** A run, with the state before and after every step. */
  datatype Log = Log(states: seq<State>, steps: seq<Step>)

  type Trace = l: Log | |l.states| == |l.steps| + 1 witness Log([INITIAL], [])

  ghost predicate Takes(run: Trace, k: nat)
    requires k < |run.steps|
  {
    Enabled(run.states[k], run.steps[k]) && run.states[k + 1] == Do(run.states[k], run.steps[k])
  }

  ghost predicate Legal(run: Trace) {
    run.states[0] == INITIAL && forall k: nat :: k < |run.steps| ==> Takes(run, k)
  }

  lemma {:induction false} TraceFrom(s: State, steps: seq<Step>) returns (run: Trace)
    requires RunEnabled(s, steps)
    ensures run.steps == steps && run.states[0] == s && run.states[|steps|] == Run(s, steps)
    ensures forall k: nat :: k < |steps| ==> Takes(run, k)
    decreases |steps|
  {
    if steps == [] {
      run := Log([s], []);
    } else {
      var rest := TraceFrom(Do(s, steps[0]), steps[1..]);
      run := Log([s] + rest.states, steps);
      forall k: nat | k < |steps| ensures Takes(run, k) {
        if k > 0 { assert Takes(rest, k - 1); }
      }
    }
  }

  /** Every run is one of these. */
  lemma TraceOf(steps: seq<Step>) returns (run: Trace)
    requires RunEnabled(INITIAL, steps)
    ensures Legal(run) && run.steps == steps && run.states[|steps|] == Run(INITIAL, steps)
  {
    run := TraceFrom(INITIAL, steps);
  }

  lemma {:induction false} TraceKeepsInv(run: Trace, k: nat)
    requires Legal(run) && k <= |run.steps|
    ensures Inv(run.states[k])
  {
    if k > 0 {
      TraceKeepsInv(run, k - 1);
      assert Takes(run, k - 1);
      StepKeepsInv(run.states[k - 1], run.steps[k - 1]);
    }
  }

  // ---------------------------------------------------------------- what a connection says of itself

  lemma {:induction false} NewsAfterOneMore(before: VpnState, steps: seq<Step>, step: Step, c: ConnId)
    ensures NewsAfter(before, steps + [step], c) == Heard(step, c, NewsAfter(before, steps, c))
    decreases |steps|
  {
    var all := steps + [step];
    if steps == [] {
      assert all[1..] == [];
    } else {
      assert all[0] == steps[0] && all[1..] == steps[1..] + [step];
      NewsAfterOneMore(Heard(steps[0], c, before), steps[1..], step, c);
    }
  }

  lemma NewsOneMore(run: Trace, k: nat, c: ConnId)
    requires k < |run.steps|
    ensures News(run.steps[..k + 1], c) == Heard(run.steps[k], c, News(run.steps[..k], c))
  {
    assert run.steps[..k + 1] == run.steps[..k] + [run.steps[k]];
    NewsAfterOneMore(Connecting, run.steps[..k], run.steps[k], c);
  }

  /** How the connection ended, if it has: in error if the management interface never came up or the last news was an
      error, and otherwise disconnected. */
  function EndedAs(run: Trace, k: nat, c: ConnId): Option<VpnState>
    requires k <= |run.steps|
  {
    if k == 0 then None
    else if run.steps[k - 1] == MgmtNeverUp(c) then Some(Error)
    else if run.steps[k - 1] == SettleStatus(c) then
      Some(if News(run.steps[..k - 1], c) == Error then Error else Disconnected)
    else EndedAs(run, k - 1, c)
  }

  /** What the connection says of itself: how it ended, or else the last news. */
  function SaysOfItself(run: Trace, k: nat, c: ConnId): VpnState
    requires k <= |run.steps|
  {
    if EndedAs(run, k, c).Some? then EndedAs(run, k, c).value else News(run.steps[..k], c)
  }

  /** The first thing definite: a Connected or an error line, or the end. */
  function Verdict(run: Trace, k: nat, c: ConnId): Option<VpnState>
    requires k <= |run.steps|
  {
    if k == 0 then None
    else if Verdict(run, k - 1, c).Some? then Verdict(run, k - 1, c)
    else match run.steps[k - 1]
         case ReadLine(d, update) => if d == c then update else None
         case MgmtNeverUp(d) => if d == c then EndedAs(run, k, c) else None
         case SettleStatus(d) => if d == c then EndedAs(run, k, c) else None
         case _ => None
  }

  /** A step as its connection records it. */
  ghost predicate Records(conn: Conn, conn': Conn, step: Step, c: ConnId) {
    var ended := if step == MgmtNeverUp(c) then Some(Error)
                 else if step == SettleStatus(c) then Some(if conn.status == Error then Error else Disconnected)
                 else None;
    var heard := if ended.Some? then ended else
                 match step case ReadLine(d, update) => (if d == c then update else None) case _ => None;
    && conn'.status == (if ended.Some? then ended.value else Heard(step, c, conn.status))
    && conn'.ready == (if conn.ready.Some? then conn.ready else heard)
  }

  predicate Ended(task: Task) { task.Reaping? || task.Removing? || task.CleaningUp? || task.Done? }

  lemma CallStepRecords(s: State, step: Step, c: ConnId)
    requires Inv(s) && Enabled(s, step) && OfCall(step) && c in s.conns
    ensures c in Do(s, step).conns && Records(s.conns[c], Do(s, step).conns[c], step, c)
    ensures Ended(Do(s, step).conns[c].task) <==> Ended(s.conns[c].task)
  {
    if step.SpawnTask? { assert CallOk(s, step.call); }
  }

  lemma ReadingStepRecords(s: State, step: Step, c: ConnId)
    requires Enabled(s, step) && OfReading(step) && c in s.conns
    ensures c in Do(s, step).conns && Records(s.conns[c], Do(s, step).conns[c], step, c)
    ensures Ended(Do(s, step).conns[c].task) <==> Ended(s.conns[c].task) || step == MgmtNeverUp(c)
    ensures Ended(s.conns[c].task) ==> step.conn != c
  {
  }

  lemma EndingStepRecords(s: State, step: Step, c: ConnId)
    requires Enabled(s, step) && !OfCall(step) && !OfReading(step) && c in s.conns
    ensures c in Do(s, step).conns && Records(s.conns[c], Do(s, step).conns[c], step, c)
    ensures Ended(Do(s, step).conns[c].task) <==> Ended(s.conns[c].task) || step == SettleStatus(c)
    ensures Ended(s.conns[c].task) ==> step != SettleStatus(c)
  {
  }

  lemma StepRecords(s: State, step: Step, c: ConnId)
    requires Inv(s) && Enabled(s, step) && c in s.conns
    ensures c in Do(s, step).conns && Records(s.conns[c], Do(s, step).conns[c], step, c)
    ensures Ended(Do(s, step).conns[c].task)
       <==> Ended(s.conns[c].task) || step == MgmtNeverUp(c) || step == SettleStatus(c)
    ensures Ended(s.conns[c].task) ==>
              && step != MgmtNeverUp(c) && step != SettleStatus(c) && !(step.ReadLine? && step.conn == c)
              && Heard(step, c, s.conns[c].status) == s.conns[c].status
  {
    if OfCall(step) {
      CallStepRecords(s, step, c);
    } else if OfReading(step) {
      ReadingStepRecords(s, step, c);
    } else {
      EndingStepRecords(s, step, c);
    }
  }

  /** A connection that does not exist yet has no history. */
  lemma StepMakes(s: State, step: Step, c: ConnId)
    requires Enabled(s, step) && c !in s.conns
    ensures Heard(step, c, Connecting) == Connecting && step != MgmtNeverUp(c) && step != SettleStatus(c)
        && !(step.ReadLine? && step.conn == c)
    ensures c in Do(s, step).conns ==>
              var conn := Do(s, step).conns[c];
              conn == Conn(conn.profile, Connecting, 0, None, NotLaunched, NotSpawned)
  {
  }

  /** The connection's status and its one answer, from its history. */
  ghost predicate Remembers(conn: Conn, run: Trace, k: nat, c: ConnId)
    requires k <= |run.steps|
  {
    && conn.status == SaysOfItself(run, k, c) && conn.ready == Verdict(run, k, c)
    && (EndedAs(run, k, c).Some? <==> Ended(conn.task))
  }

  ghost predicate NoHistory(run: Trace, k: nat, c: ConnId)
    requires k <= |run.steps|
  {
    News(run.steps[..k], c) == Connecting && EndedAs(run, k, c) == None && Verdict(run, k, c) == None
  }

  lemma RemembersOneMore(conn: Conn, conn': Conn, run: Trace, k: nat, c: ConnId)
    requires k < |run.steps| && Remembers(conn, run, k, c) && Records(conn, conn', run.steps[k], c)
    requires Ended(conn'.task)
        <==> Ended(conn.task) || run.steps[k] == MgmtNeverUp(c) || run.steps[k] == SettleStatus(c)
    requires Ended(conn.task) ==> run.steps[k] != MgmtNeverUp(c) && run.steps[k] != SettleStatus(c)
                                  && Heard(run.steps[k], c, conn.status) == conn.status
                                  && !(run.steps[k].ReadLine? && run.steps[k].conn == c)
    ensures Remembers(conn', run, k + 1, c)
  {
    NewsOneMore(run, k, c);
  }

  lemma {:induction false} ConnRemembers(run: Trace, k: nat, c: ConnId)
    requires Legal(run) && k <= |run.steps|
    ensures c in run.states[k].conns ==> Remembers(run.states[k].conns[c], run, k, c)
    ensures c !in run.states[k].conns ==> NoHistory(run, k, c)
  {
    if k > 0 {
      var s := run.states[k - 1];
      ConnRemembers(run, k - 1, c);
      assert Takes(run, k - 1);
      TraceKeepsInv(run, k - 1);
      if c in s.conns {
        StepRecords(s, run.steps[k - 1], c);
        RemembersOneMore(s.conns[c], run.states[k].conns[c], run, k - 1, c);
      } else {
        StepMakes(s, run.steps[k - 1], c);
        NewsOneMore(run, k - 1, c);
      }
    }
  }

  // ---------------------------------------------------------------- what a call is told

  predicate Answers(step: Step) {
    || step.SeeActive? || step.NotInstalled? || step.ClaimOccupied? || step.UndoClaim? || step.ReceiveReady?
    || step.TimeOut?
  }

  function ConnOfCall(call: Call): Option<ConnId> {
    match call
    case Claimed(_, c) => Some(c)
    case Launched(_, c) => Some(c)
    case Failing(_, c) => Some(c)
    case Waiting(_, c) => Some(c)
    case _ => None
  }

  /** The connection whose word the answer is: the call's own, or the one that holds the profile. */
  function AsksOf(s: State, t: CallId): Option<ConnId>
    requires t in s.calls
  {
    if ConnOfCall(s.calls[t]).Some? then ConnOfCall(s.calls[t])
    else if s.calls[t].profile in s.vpnMap then Some(s.vpnMap[s.calls[t].profile])
    else None
  }

  /** Over every run: a call that waited for the connection it started is told its first verdict, one that waited too
      long or came second what the connection says of itself just then, and only one that could not start fails. */
  lemma CallIsTold(run: Trace, k: nat)
    requires Legal(run) && k < |run.steps| && Answers(run.steps[k])
    ensures var s, s', t := run.states[k], run.states[k + 1], run.steps[k].call;
            && t in s.calls && t in s'.calls && s'.calls[t].Returned? && s'.calls[t].profile == s.calls[t].profile
            && var told, c := s'.calls[t].outcome, AsksOf(s, t);
               match run.steps[k]
               case NotInstalled(_) => told == Failed
               case UndoClaim(_) => told == Failed
               case ReceiveReady(_) => c.Some? && Verdict(run, k, c.value).Some?
                                       && told == Status(Verdict(run, k, c.value).value)
               case SeeActive(_) => c.Some? && told == Status(SaysOfItself(run, k, c.value))
                                    && Active(SaysOfItself(run, k, c.value))
               case _ => c.Some? && told == Status(SaysOfItself(run, k, c.value))
  {
    assert Takes(run, k);
    var s, t := run.states[k], run.steps[k].call;
    var c := AsksOf(s, t);
    if c.Some? { ConnRemembers(run, k, c.value); }
  }

  /** The steps that say something definite of a connection. */
  predicate Definite(step: Step, c: ConnId) {
    || step == MgmtNeverUp(c) || step == SettleStatus(c)
    || (step.ReadLine? && step.conn == c && step.update.Some?)
  }

  /** The verdict is the first definite step's. */
  lemma {:induction false} VerdictIsFirst(run: Trace, k: nat, c: ConnId) returns (j: nat)
    requires k <= |run.steps|
    ensures Verdict(run, k, c).None? <==> forall i :: 0 <= i < k ==> !Definite(run.steps[i], c)
    ensures var verdict := Verdict(run, k, c);
            verdict.Some? ==>
              && j < k && Definite(run.steps[j], c) && (forall i :: 0 <= i < j ==> !Definite(run.steps[i], c))
              && match run.steps[j]
                 case ReadLine(_, update) => verdict == update
                 case MgmtNeverUp(_) => verdict == Some(Error)
                 case _ => verdict == Some(if News(run.steps[..j], c) == Error then Error else Disconnected)
  {
    if k == 0 {
      j := 0;
    } else {
      j := VerdictIsFirst(run, k - 1, c);
      if Verdict(run, k - 1, c).None? && Definite(run.steps[k - 1], c) { j := k - 1; }
    }
  }

  /** A caller that waited is told Connected only after a line said so, with no error and no end before it. */
  lemma ToldConnected(run: Trace, k: nat) returns (c: ConnId, j: nat)
    requires Legal(run) && k < |run.steps| && run.steps[k].ReceiveReady?
    requires var calls := run.states[k + 1].calls;
             && run.steps[k].call in calls && calls[run.steps[k].call].Returned?
             && calls[run.steps[k].call].outcome == Status(Connected)
    ensures run.steps[k].call in run.states[k].calls && ConnOfCall(run.states[k].calls[run.steps[k].call]) == Some(c)
    ensures j < k && run.steps[j] == ReadLine(c, Some(Connected))
    ensures forall i :: 0 <= i < j ==> !Definite(run.steps[i], c)
  {
    assert Takes(run, k);
    CallIsTold(run, k);
    c := run.states[k].calls[run.steps[k].call].conn;
    j := VerdictIsFirst(run, k, c);
  }

  /** The call works for the profile it began with and on the connection it claimed. */
  ghost predicate Began(run: Trace, k: nat, t: CallId, call: Call)
    requires k <= |run.steps|
  {
    && (exists i :: 0 <= i < k && run.steps[i] == BeginConnect(t, call.profile))
    && (ConnOfCall(call).Some? ==> exists i :: 0 <= i < k && run.steps[i] == ClaimVacant(t, ConnOfCall(call).value))
  }

  /** A step moves no call but its own, and its own goes on with what it has. */
  lemma StepMovesOneCall(s: State, step: Step, t: CallId)
    requires Enabled(s, step) && t in Do(s, step).calls
    ensures if OfCall(step) && step.call == t then
              var call := Do(s, step).calls[t];
              && (if t in s.calls then call.profile == s.calls[t].profile else step == BeginConnect(t, call.profile))
              && (ConnOfCall(call).Some? ==>
                    step == ClaimVacant(t, ConnOfCall(call).value)
                    || (t in s.calls && ConnOfCall(call) == ConnOfCall(s.calls[t])))
            else t in s.calls && Do(s, step).calls[t] == s.calls[t]
  {
  }

  lemma {:induction false} CallsBegan(run: Trace, k: nat, t: CallId)
    requires Legal(run) && k <= |run.steps| && t in run.states[k].calls
    ensures Began(run, k, t, run.states[k].calls[t])
  {
    if k > 0 {
      assert Takes(run, k - 1);
      StepMovesOneCall(run.states[k - 1], run.steps[k - 1], t);
      if t in run.states[k - 1].calls { CallsBegan(run, k - 1, t); }
      assert run.steps[k - 1] == run.steps[k - 1];
    }
  }

  // ---------------------------------------------------------------- what becomes of a disconnect

  /** How many disconnects were sent to the connection: to its profile, while it held it. */
  ghost function Sent(run: Trace, k: nat, c: ConnId): nat
    requires Legal(run) && k <= |run.steps|
  {
    if k == 0 then 0
    else
      var s, step := run.states[k - 1], run.steps[k - 1];
      Sent(run, k - 1, c)
      + if step.SendDisconnect? && step.profile in s.vpnMap && s.vpnMap[step.profile] == c then 1 else 0
  }

  function Received(run: Trace, k: nat, c: ConnId): nat
    requires k <= |run.steps|
  {
    if k == 0 then 0 else Received(run, k - 1, c) + if run.steps[k - 1] == ReceiveDisconnect(c) then 1 else 0
  }

  lemma StepQueues(s: State, step: Step, c: ConnId)
    requires Enabled(s, step)
    ensures c in s.conns ==>
              && c in Do(s, step).conns
              && Do(s, step).conns[c].queue == s.conns[c].queue
                   + (if step.SendDisconnect? && s.vpnMap[step.profile] == c then 1 else 0)
                   - (if step == ReceiveDisconnect(c) then 1 else 0)
    ensures c !in s.conns ==>
              && step != ReceiveDisconnect(c) && !(step.SendDisconnect? && s.vpnMap[step.profile] == c)
              && (c in Do(s, step).conns ==> Do(s, step).conns[c].queue == 0)
  {
  }

  /** No disconnect is lost or made up: what waits in the channel is what was sent and not yet received. */
  lemma {:induction false} QueueIsUnreceived(run: Trace, k: nat, c: ConnId)
    requires Legal(run) && k <= |run.steps|
    ensures Received(run, k, c)
         == Sent(run, k, c) - if c in run.states[k].conns then run.states[k].conns[c].queue else 0
  {
    if k > 0 {
      QueueIsUnreceived(run, k - 1, c);
      assert Takes(run, k - 1);
      StepQueues(run.states[k - 1], run.steps[k - 1], c);
    }
  }

  /** A disconnect finds the connection that holds the profile. As long as that connection's task reads, it can receive
      it, and receiving it makes the status Disconnecting. */
  lemma DisconnectArrives(run: Trace, k: nat, c: ConnId)
    requires Legal(run) && k <= |run.steps|
    requires c in run.states[k].conns && run.states[k].conns[c].task.Reading?
    ensures var s, p := run.states[k], run.states[k].conns[c].profile;
            && p in s.vpnMap && s.vpnMap[p] == c && Enabled(s, SendDisconnect(p))
            && Enabled(Do(s, SendDisconnect(p)), ReceiveDisconnect(c))
            && (Enabled(s, ReceiveDisconnect(c)) <==> Received(run, k, c) < Sent(run, k, c))
            && (Enabled(s, ReceiveDisconnect(c)) ==>
                  StatusOf(Do(s, ReceiveDisconnect(c)), p) == Some(Disconnecting))
  {
    TraceKeepsInv(run, k);
    assert ConnOk(run.states[k], c);
    QueueIsUnreceived(run, k, c);
  }

  // ---------------------------------------------------------------- what becomes of a process

  /** A call has launched a process for the connection. */
  ghost predicate Launches(run: Trace, k: nat, c: ConnId)
    requires Legal(run) && k <= |run.steps|
  {
    k > 0
    && (Launches(run, k - 1, c)
        || (run.steps[k - 1].LaunchChild? && run.steps[k - 1].call in run.states[k - 1].calls
            && ConnOfCall(run.states[k - 1].calls[run.steps[k - 1].call]) == Some(c)))
  }

  /** What a step makes of a connection's process. */
  ghost predicate ChildGoesOn(before: Child, after: Child, launched: bool, exits: bool) {
    if launched then before.NotLaunched? && after.Live?
    else if exits then before.Live? && after.Exited?
    else before == after
  }

  lemma LaunchGoesOn(s: State, t: CallId, c: ConnId)
    requires Inv(s) && Enabled(s, LaunchChild(t)) && c in s.conns
    ensures c in Do(s, LaunchChild(t)).conns
    ensures ChildGoesOn(s.conns[c].child, Do(s, LaunchChild(t)).conns[c].child, ConnOfCall(s.calls[t]) == Some(c),
                        false)
  {
    assert CallOk(s, t);
  }

  lemma StepLaunches(s: State, step: Step, c: ConnId)
    requires Inv(s) && Enabled(s, step) && c in s.conns
    ensures c in Do(s, step).conns
    ensures ChildGoesOn(s.conns[c].child, Do(s, step).conns[c].child,
                        step.LaunchChild? && ConnOfCall(s.calls[step.call]) == Some(c), step == ChildExits(c))
  {
    if step.LaunchChild? { LaunchGoesOn(s, step.call, c); }
  }

  /** The process of a connection, if there is the connection, after k steps. */
  ghost predicate ChildAt(run: Trace, k: nat, c: ConnId, child: Option<Child>)
    requires Legal(run) && k <= |run.steps|
  {
    var exited := ChildExits(c) in run.steps[..k];
    && (exited ==> Launches(run, k, c))
    && (child.None? ==> !Launches(run, k, c))
    && (child.Some? ==>
          child.value == if !Launches(run, k, c) then NotLaunched else if exited then Exited else Live)
  }

  function ChildOf(s: State, c: ConnId): Option<Child> { if c in s.conns then Some(s.conns[c].child) else None }

  lemma ChildAtOneMore(run: Trace, k: nat, c: ConnId, before: Child, after: Child)
    requires Legal(run) && k < |run.steps| && ChildAt(run, k, c, Some(before))
    requires run.steps[k].LaunchChild? ==> run.steps[k].call in run.states[k].calls
    requires ChildGoesOn(before, after,
                         run.steps[k].LaunchChild?
                         && ConnOfCall(run.states[k].calls[run.steps[k].call]) == Some(c),
                         run.steps[k] == ChildExits(c))
    ensures ChildAt(run, k + 1, c, Some(after))
  {
    assert run.steps[..k + 1] == run.steps[..k] + [run.steps[k]];
  }

  lemma StepMakesNoChild(s: State, step: Step, c: ConnId)
    requires Enabled(s, step) && c !in s.conns
    ensures step != ChildExits(c) && !(step.LaunchChild? && ConnOfCall(s.calls[step.call]) == Some(c))
  {
  }

  /** There is a process from its launch until it exits, and it is launched once. */
  lemma {:induction false} ChildIs(run: Trace, k: nat, c: ConnId)
    requires Legal(run) && k <= |run.steps|
    ensures ChildAt(run, k, c, ChildOf(run.states[k], c))
  {
    if k > 0 {
      var s, step := run.states[k - 1], run.steps[k - 1];
      ChildIs(run, k - 1, c);
      assert Takes(run, k - 1);
      if c in s.conns {
        TraceKeepsInv(run, k - 1);
        StepLaunches(s, step, c);
        ChildAtOneMore(run, k - 1, c, s.conns[c].child, run.states[k].conns[c].child);
      } else {
        StepMakes(s, step, c);
        StepMakesNoChild(s, step, c);
        assert run.steps[..k] == run.steps[..k - 1] + [step];
      }
    }
  }
}
