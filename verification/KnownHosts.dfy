/** Host keys trusted on first use (src-tauri/src/ssh/known_hosts.rs:38-47, 87-122): any number of connections, each
    running its transaction step by step under SQLite's write lock. */
module KnownHosts {
  import opened Wrappers

  datatype Address = Address(hostname: string, port: nat)

  type Fingerprint = string

  type Table = map<Address, Fingerprint>

  datatype Op = Verify(address: Address, fingerprint: Fingerprint) | Delete(address: Address)

  datatype Outcome = TrustedNew | Matches | Mismatch(expected: Fingerprint) | Deleted | NotFound | DbError

  // ---------------------------------------------------------------- one call at a time

  /** What a call does when nothing runs beside it. */
  function Apply(table: Table, op: Op): (Table, Outcome) {
    match op
    case Verify(address, fingerprint) =>
      if address !in table then (table[address := fingerprint], TrustedNew)
      else if table[address] == fingerprint then (table, Matches)
      else (table, Mismatch(table[address]))
    case Delete(address) =>
      if address in table then (table - {address}, Deleted) else (table, NotFound)
  }

  /** A connection to the database file, with the table to itself. */
  class Connection {
    var table: Table

    method VerifyOrTrust(address: Address, fingerprint: Fingerprint) returns (outcome: Outcome)
      modifies this
      ensures (table, outcome) == Apply(old(table), Verify(address, fingerprint))
    {
      var existing := if address in table then Some(table[address]) else None;
      match existing {
        case Some(stored) =>
          outcome := if stored == fingerprint then Matches else Mismatch(stored);
        case None =>
          table := table[address := fingerprint];
          outcome := TrustedNew;
      }
    }

    method DeletePin(address: Address) returns (outcome: Outcome)
      modifies this
      ensures (table, outcome) == Apply(old(table), Delete(address))
    {
      var changed := address in table;
      assert !changed ==> table - {address} == table;
      table := table - {address};
      outcome := if changed then Deleted else NotFound;
    }
  }

  // ---------------------------------------------------------------- calls in steps

  type CallId = nat

  /** How far a call has got. From Begun to Inserted it holds the write lock. */
  datatype Call =
    | Waiting(op: Op)
    | Begun(op: Op)
    | Selected(op: Op, existing: Option<Fingerprint>)
    | Inserted(op: Op)
    | Returned(op: Op, outcome: Outcome)

  datatype Entry = Entry(call: CallId, op: Op, outcome: Outcome)

  /** The committed table, the write lock, the calls, and what was committed in which order. */
  datatype State = State(table: Table, lock: Option<CallId>, calls: map<CallId, Call>, log: seq<Entry>)

  const INITIAL := State(map[], None, map[], [])

  datatype Step =
    | BeginCall(call: CallId, op: Op)
    | BeginImmediate(call: CallId)
    | Select(call: CallId)
    | Insert(call: CallId)
    | Commit(call: CallId)
    | DeleteRow(call: CallId)
    | Fail(call: CallId)

  predicate InTransaction(c: Call) { c.Begun? || c.Selected? || c.Inserted? }

  predicate Enabled(s: State, step: Step) {
    match step
    case BeginCall(t, op) => t !in s.calls
    case BeginImmediate(t) => t in s.calls && s.calls[t].Waiting? && s.calls[t].op.Verify? && s.lock.None?
    case Select(t) => t in s.calls && s.calls[t].Begun?
    case Insert(t) => t in s.calls && s.calls[t].Selected? && s.calls[t].existing.None?
        && s.calls[t].op.address !in s.table
    case Commit(t) => t in s.calls && s.calls[t].op.Verify?
        && (s.calls[t].Inserted? || (s.calls[t].Selected? && s.calls[t].existing.Some?))
    case DeleteRow(t) => t in s.calls && s.calls[t].Waiting? && s.calls[t].op.Delete? && s.lock.None?
    case Fail(t) => t in s.calls && !s.calls[t].Returned?
  }

  function VerdictOn(stored: Fingerprint, op: Op): Outcome
    requires op.Verify?
  {
    if stored == op.fingerprint then Matches else Mismatch(stored)
  }

  function Do(s: State, step: Step): State
    requires Enabled(s, step)
  {
    match step
    case BeginCall(t, op) => s.(calls := s.calls[t := Waiting(op)])
    case BeginImmediate(t) => s.(calls := s.calls[t := Begun(s.calls[t].op)], lock := Some(t))
    case Select(t) =>
      var op := s.calls[t].op;
      s.(calls := s.calls[t := Selected(op, if op.address in s.table then Some(s.table[op.address]) else None)])
    case Insert(t) => s.(calls := s.calls[t := Inserted(s.calls[t].op)])
    case Commit(t) =>
      var op := s.calls[t].op;
      var outcome := if s.calls[t].Inserted? then TrustedNew else VerdictOn(s.calls[t].existing.value, op);
      State(if s.calls[t].Inserted? then s.table[op.address := op.fingerprint] else s.table, None,
            s.calls[t := Returned(op, outcome)], s.log + [Entry(t, op, outcome)])
    case DeleteRow(t) =>
      var op := s.calls[t].op;
      var outcome := if op.address in s.table then Deleted else NotFound;
      State(s.table - {op.address}, s.lock, s.calls[t := Returned(op, outcome)], s.log + [Entry(t, op, outcome)])
    case Fail(t) =>
      s.(calls := s.calls[t := Returned(s.calls[t].op, DbError)], lock := if s.lock == Some(t) then None else s.lock)
  }

  function Run(steps: seq<Step>): Option<State>
    decreases |steps|
  {
    if steps == [] then Some(INITIAL)
    else
      var before := Run(steps[..|steps| - 1]);
      var step := steps[|steps| - 1];
      if before.Some? && Enabled(before.value, step) then Some(Do(before.value, step)) else None
  }

  // ---------------------------------------------------------------- every run is one call at a time

  function TableAfter(log: seq<Entry>): Table {
    if log == [] then map[] else Apply(TableAfter(log[..|log| - 1]), log[|log| - 1].op).0
  }

  ghost predicate SerialAt(log: seq<Entry>, i: nat)
    requires i < |log|
  {
    log[i].outcome == Apply(TableAfter(log[..i]), log[i].op).1
  }

  /** The logged outcomes are those of running the logged calls alone, one after the other. */
  ghost predicate Serial(log: seq<Entry>) { forall i :: 0 <= i < |log| ==> SerialAt(log, i) }

  ghost predicate Logged(s: State, t: CallId) {
    exists i :: 0 <= i < |s.log| && s.log[i].call == t
  }

  /** What a call in its transaction knows is still so. */
  ghost predicate CallOk(s: State, t: CallId)
    requires t in s.calls
  {
    var c := s.calls[t];
    && (InTransaction(c) ==> s.lock == Some(t) && c.op.Verify?)
    && (c.Selected? ==> c.existing == if c.op.address in s.table then Some(s.table[c.op.address]) else None)
    && (c.Inserted? ==> c.op.address !in s.table)
    && (c.Returned? && c.outcome != DbError <==> Logged(s, t))
  }

  ghost predicate EntryOk(s: State, i: nat)
    requires i < |s.log|
  {
    s.log[i].call in s.calls && s.calls[s.log[i].call] == Returned(s.log[i].op, s.log[i].outcome)
  }

  ghost predicate Inv(s: State) {
    && (s.lock.Some? ==> s.lock.value in s.calls && InTransaction(s.calls[s.lock.value]))
    && (forall t :: t in s.calls ==> CallOk(s, t))
    && (forall i :: 0 <= i < |s.log| ==> EntryOk(s, i))
    && (forall i, j :: 0 <= i < j < |s.log| ==> s.log[i].call != s.log[j].call)
    && s.table == TableAfter(s.log) && Serial(s.log)
  }

  lemma LogOneMore(log: seq<Entry>, e: Entry)
    requires Serial(log) && e.outcome == Apply(TableAfter(log), e.op).1
    ensures Serial(log + [e]) && TableAfter(log + [e]) == Apply(TableAfter(log), e.op).0
  {
    var more := log + [e];
    assert more[..|log|] == log;
    forall i | 0 <= i < |more| ensures SerialAt(more, i) {
      if i < |log| {
        assert SerialAt(log, i);
        assert more[..i] == log[..i];
      }
    }
  }

  lemma LoggedIsCall(s: State, t: CallId)
    requires Inv(s) && Logged(s, t)
    ensures t in s.calls
  {
    var i :| 0 <= i < |s.log| && s.log[i].call == t;
    assert EntryOk(s, i);
  }

  /** Steps that commit nothing. */
  lemma QuietStepKeepsInv(s: State, step: Step)
    requires Inv(s) && Enabled(s, step) && !step.Commit? && !step.DeleteRow?
    ensures Inv(Do(s, step))
  {
    var after := Do(s, step);
    forall t | t in after.calls ensures CallOk(after, t) {
      if t in s.calls { assert CallOk(s, t); }
      assert Logged(after, t) <==> Logged(s, t);
      if Logged(s, t) { LoggedIsCall(s, t); }
    }
    forall i | 0 <= i < |after.log| ensures EntryOk(after, i) {
      assert EntryOk(s, i);
    }
  }

  /** The committed call's outcome is the one it would have had alone, because nothing changed under its lock. */
  lemma CommittedAsAlone(s: State, step: Step)
    requires Inv(s) && Enabled(s, step) && (step.Commit? || step.DeleteRow?)
    ensures var after, op := Do(s, step), s.calls[step.call].op;
      && after.log == s.log + [Entry(step.call, op, after.calls[step.call].outcome)]
      && (after.table, after.calls[step.call].outcome) == Apply(s.table, op)
  {
    assert CallOk(s, step.call);
    var address := s.calls[step.call].op.address;
    assert address !in s.table ==> s.table - {address} == s.table;
  }

  lemma CommitKeepsInv(s: State, step: Step)
    requires Inv(s) && Enabled(s, step) && (step.Commit? || step.DeleteRow?)
    ensures Inv(Do(s, step))
  {
    var after, call := Do(s, step), step.call;
    CommittedAsAlone(s, step);
    assert CallOk(s, call);
    LogOneMore(s.log, after.log[|s.log|]);
    forall i | 0 <= i < |s.log| ensures EntryOk(after, i) && s.log[i].call != call {
      assert EntryOk(s, i);
    }
    forall t | t in after.calls ensures CallOk(after, t) {
      assert CallOk(s, t);
      LoggedOneMore(s, after, t, call);
    }
  }

  lemma LoggedOneMore(s: State, after: State, t: CallId, call: CallId)
    requires |after.log| == |s.log| + 1 && after.log[..|s.log|] == s.log && after.log[|s.log|].call == call
    ensures Logged(after, t) <==> Logged(s, t) || t == call
  {
    if Logged(s, t) {
      var i :| 0 <= i < |s.log| && s.log[i].call == t;
      assert after.log[i] == after.log[..|s.log|][i];
    }
    if Logged(after, t) {
      var i :| 0 <= i < |after.log| && after.log[i].call == t;
      if i < |s.log| { assert s.log[i] == after.log[..|s.log|][i]; }
    }
  }

  lemma {:induction false} RunKeepsInv(steps: seq<Step>)
    requires Run(steps).Some?
    ensures Inv(Run(steps).value)
    decreases |steps|
  {
    if steps != [] {
      var before, step := Run(steps[..|steps| - 1]).value, steps[|steps| - 1];
      RunKeepsInv(steps[..|steps| - 1]);
      if step.Commit? || step.DeleteRow? {
        CommitKeepsInv(before, step);
      } else {
        QuietStepKeepsInv(before, step);
      }
    }
  }

  /** However the steps of the calls interleave, the calls that returned something other than a database error did
      what they would have done one at a time, in the order of their commits; the others did nothing. */
  lemma EveryRunIsSerial(steps: seq<Step>)
    requires Run(steps).Some?
    ensures var s := Run(steps).value;
      && Serial(s.log) && s.table == TableAfter(s.log)
      && (forall t :: t in s.calls && s.calls[t].Returned? && s.calls[t].outcome != DbError ==>
            exists i :: 0 <= i < |s.log| && s.log[i] == Entry(t, s.calls[t].op, s.calls[t].outcome))
      && (forall i, j :: 0 <= i < j < |s.log| ==> s.log[i].call != s.log[j].call)
  {
    RunKeepsInv(steps);
    var s := Run(steps).value;
    forall t | t in s.calls && s.calls[t].Returned? && s.calls[t].outcome != DbError
      ensures exists i :: 0 <= i < |s.log| && s.log[i] == Entry(t, s.calls[t].op, s.calls[t].outcome)
    {
      assert CallOk(s, t);
      var i :| 0 <= i < |s.log| && s.log[i].call == t;
      assert EntryOk(s, i);
    }
  }

  /** The INSERT after an empty SELECT never meets a row of the same address. */
  lemma InsertNeverCollides(steps: seq<Step>, t: CallId)
    requires Run(steps).Some?
    requires var s := Run(steps).value; t in s.calls && s.calls[t].Selected? && s.calls[t].existing.None?
    ensures Enabled(Run(steps).value, Insert(t))
  {
    RunKeepsInv(steps);
    assert CallOk(Run(steps).value, t);
  }

  // ---------------------------------------------------------------- trust on first use

  predicate Accepts(e: Entry, address: Address) {
    e.op.Verify? && e.op.address == address && (e.outcome.TrustedNew? || e.outcome.Matches?)
  }

  predicate Deletes(e: Entry, address: Address) { e.op == Delete(address) && e.outcome.Deleted? }

  ghost predicate DeletedWithin(log: seq<Entry>, address: Address, lo: nat, hi: nat)
    requires hi <= |log|
  {
    exists k :: lo <= k < hi && Deletes(log[k], address)
  }

  /** An accepted fingerprint stays pinned until the address is deleted. */
  lemma {:induction false} PinStays(log: seq<Entry>, address: Address, i: nat, n: nat)
    requires Serial(log) && i < n <= |log| && Accepts(log[i], address) && !DeletedWithin(log, address, i, n)
    ensures address in TableAfter(log[..n]) && TableAfter(log[..n])[address] == log[i].op.fingerprint
    decreases n
  {
    assert log[..n][..n - 1] == log[..n - 1] && log[..n][n - 1] == log[n - 1];
    assert SerialAt(log, n - 1);
    if i < n - 1 {
      PinStays(log, address, i, n - 1);
      assert !Deletes(log[n - 1], address);
    }
  }

  /** Between two deletions every accepting call carries the same fingerprint, and only the first is new. */
  lemma OnePinBetweenDeletions(log: seq<Entry>, address: Address, i: nat, j: nat)
    requires Serial(log) && i < j < |log| && Accepts(log[i], address) && Accepts(log[j], address)
    requires !DeletedWithin(log, address, i, j)
    ensures log[i].op.fingerprint == log[j].op.fingerprint && log[j].outcome == Matches
  {
    PinStays(log, address, i, j);
    assert SerialAt(log, j);
  }

  lemma {:induction false} PinHasOrigin(log: seq<Entry>, address: Address, n: nat)
    requires Serial(log) && n <= |log| && address in TableAfter(log[..n])
    ensures exists i :: 0 <= i < n && Accepts(log[i], address) && !DeletedWithin(log, address, i, n)
    decreases n
  {
    if n > 0 {
      assert log[..n][..n - 1] == log[..n - 1] && log[..n][n - 1] == log[n - 1];
      assert SerialAt(log, n - 1);
      if address in TableAfter(log[..n - 1]) {
        PinHasOrigin(log, address, n - 1);
        var i :| 0 <= i < n - 1 && Accepts(log[i], address) && !DeletedWithin(log, address, i, n - 1);
        assert !DeletedWithin(log, address, i, n);
      } else {
        assert Accepts(log[n - 1], address) && !DeletedWithin(log, address, n - 1, n);
      }
    }
  }

  /** A call trusts a new key exactly when no accepting call came before it since the last deletion. */
  lemma NewIffFirst(log: seq<Entry>, address: Address, j: nat)
    requires Serial(log) && j < |log| && Accepts(log[j], address)
    ensures log[j].outcome == TrustedNew
       <==> !exists i :: 0 <= i < j && Accepts(log[i], address) && !DeletedWithin(log, address, i, j)
  {
    assert SerialAt(log, j);
    if log[j].outcome != TrustedNew {
      PinHasOrigin(log, address, j);
    } else if i :| 0 <= i < j && Accepts(log[i], address) && !DeletedWithin(log, address, i, j) {
      PinStays(log, address, i, j);
    }
  }

  /** Call i accepted a key for the address, and it was not deleted up to call j. */
  ghost predicate PinnedBy(log: seq<Entry>, address: Address, i: nat, j: nat)
    requires j <= |log|
  {
    i < j && Accepts(log[i], address) && !DeletedWithin(log, address, i, j)
  }

  /** What every call is told, from the calls before it: with nothing accepted since the last deletion a key is new and
      there is nothing to delete; otherwise the accepted key matches, any other is refused with it, and a deletion
      succeeds. */
  lemma OutcomeIs(log: seq<Entry>, j: nat)
    requires Serial(log) && j < |log|
    ensures var address, outcome := log[j].op.address, log[j].outcome;
            && ((forall i: nat :: !PinnedBy(log, address, i, j)) ==>
                  outcome == if log[j].op.Verify? then TrustedNew else NotFound)
            && forall i: nat :: PinnedBy(log, address, i, j) ==>
                 outcome == if log[j].op.Delete? then Deleted
                            else if log[i].op.fingerprint == log[j].op.fingerprint then Matches
                            else Mismatch(log[i].op.fingerprint)
  {
    var address := log[j].op.address;
    assert SerialAt(log, j);
    if address in TableAfter(log[..j]) {
      PinHasOrigin(log, address, j);
      var i :| 0 <= i < j && Accepts(log[i], address) && !DeletedWithin(log, address, i, j);
      assert PinnedBy(log, address, i, j);
    }
    forall i: nat | PinnedBy(log, address, i, j)
      ensures address in TableAfter(log[..j]) && TableAfter(log[..j])[address] == log[i].op.fingerprint
    {
      PinStays(log, address, i, j);
    }
  }

  /** A refused key changes nothing, and was refused because a different one had been accepted and not deleted. */
  lemma RefusalLeavesTable(log: seq<Entry>, j: nat)
    requires Serial(log) && j < |log| && log[j].op.Verify? && log[j].outcome.Mismatch?
    ensures TableAfter(log[..j + 1]) == TableAfter(log[..j])
    ensures log[j].outcome.expected != log[j].op.fingerprint
    ensures exists i :: 0 <= i < j && Accepts(log[i], log[j].op.address)
              && log[i].op.fingerprint == log[j].outcome.expected && !DeletedWithin(log, log[j].op.address, i, j)
  {
    assert SerialAt(log, j);
    assert log[..j + 1][..j] == log[..j];
    var address := log[j].op.address;
    PinHasOrigin(log, address, j);
    var i :| 0 <= i < j && Accepts(log[i], address) && !DeletedWithin(log, address, i, j);
    PinStays(log, address, i, j);
  }
}
