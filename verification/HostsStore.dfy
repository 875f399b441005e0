/** The host store's `loadAll` (src/state/hostsStore.ts:46-76): overlapping loads, of which only the most recently
    started may write its answer. */
module HostsStore {
  import opened Wrappers
  import opened GroupForest
  import opened HostTables

  datatype SshKey = SshKey(id: Id, keyLabel: string)

  /** One answer of the backend. */
  datatype Collections =
    Collections(groups: seq<Group>, hosts: seq<Host>, identities: seq<Identity>, keys: seq<SshKey>)

  const EMPTY := Collections([], [], [], [])

  /** The module-level counter and the store's fields. `loadAll` is cut at its `await`. */
  class HostsStore {
    var loadRequestId: nat
    var shown: Collections
    var loaded: bool

    constructor ()
      ensures loadRequestId == 0 && shown == EMPTY && !loaded
    {
      loadRequestId, shown, loaded := 0, EMPTY, false;
    }

    ghost function View(): Shown reads this { Shown(loadRequestId, shown, loaded) }

    method BeginLoad() returns (requestId: nat)
      modifies this
      ensures View() == Begun(old(View())) && requestId == old(loadRequestId) + 1
    {
      loadRequestId := loadRequestId + 1;
      requestId := loadRequestId;
    }

    method EndLoad(requestId: nat, answer: Collections)
      modifies this
      ensures View() == Answered(old(View()), requestId, answer)
    {
      if requestId != loadRequestId {
        return;
      }
      shown, loaded := answer, true;
    }
  }

  // ---------------------------------------------------------------- every interleaving

  datatype Shown = Shown(requestId: nat, collections: Collections, loaded: bool)

  function Begun(v: Shown): Shown { v.(requestId := v.requestId + 1) }

  function Answered(v: Shown, id: nat, answer: Collections): Shown {
    if id == v.requestId then v.(collections := answer, loaded := true) else v
  }

  /** The store with its history: the loads still out, how the others ended, and whose answers were written. */
  datatype State = State(view: Shown, pending: set<nat>, ended: map<nat, Option<Collections>>, stored: seq<nat>)

  const INITIAL := State(Shown(0, EMPTY, false), {}, map[], [])

  datatype Step = Start | Answer(id: nat, answer: Collections) | Reject(id: nat)

  predicate Enabled(s: State, step: Step) { step.Start? || step.id in s.pending }

  function Do(s: State, step: Step): State
    requires Enabled(s, step)
  {
    match step
    case Start =>
      var view := Begun(s.view);
      s.(view := view, pending := s.pending + {view.requestId})
    case Answer(id, answer) =>
      State(Answered(s.view, id, answer), s.pending - {id}, s.ended[id := Some(answer)],
            if id == s.view.requestId then s.stored + [id] else s.stored)
    case Reject(id) => s.(pending := s.pending - {id}, ended := s.ended[id := None])
  }

  /** The state after these steps, if each could be taken. */
  function Run(s: State, steps: seq<Step>): Option<State>
    decreases |steps|
  {
    if steps == [] then Some(s)
    else
      var before := Run(s, steps[..|steps| - 1]);
      var step := steps[|steps| - 1];
      if before.Some? && Enabled(before.value, step) then Some(Do(before.value, step)) else None
  }

  ghost predicate Increasing(ids: seq<nat>) { forall i, j :: 0 <= i < j < |ids| ==> ids[i] < ids[j] }

  predicate LatestSucceeded(s: State) { s.view.requestId in s.ended && s.ended[s.view.requestId].Some? }

  ghost predicate Inv(s: State) {
    && (forall id :: id in s.pending || id in s.ended ==> 0 < id <= s.view.requestId)
    && (forall id :: 0 < id <= s.view.requestId ==> (id in s.pending <==> id !in s.ended))
    && Increasing(s.stored)
    && (forall k :: 0 <= k < |s.stored| ==> s.stored[k] in s.ended && s.ended[s.stored[k]].Some?)
    && (s.stored != [] ==> s.view.loaded && Some(s.view.collections) == s.ended[s.stored[|s.stored| - 1]])
    && (s.stored == [] ==> s.view == Shown(s.view.requestId, EMPTY, false))
    && (LatestSucceeded(s) <==> s.stored != [] && s.stored[|s.stored| - 1] == s.view.requestId)
  }

  lemma StepKeepsInv(s: State, step: Step)
    requires Inv(s) && Enabled(s, step)
    ensures Inv(Do(s, step))
  {
  }

  lemma {:induction false} RunKeepsInv(steps: seq<Step>)
    requires Run(INITIAL, steps).Some?
    ensures Inv(Run(INITIAL, steps).value)
    decreases |steps|
  {
    if steps != [] {
      RunKeepsInv(steps[..|steps| - 1]);
      StepKeepsInv(Run(INITIAL, steps[..|steps| - 1]).value, steps[|steps| - 1]);
    }
  }

  /** Answers are written in the order in which their loads were started, each at most once. */
  lemma StoredInStartOrder(steps: seq<Step>)
    requires Run(INITIAL, steps).Some?
    ensures Increasing(Run(INITIAL, steps).value.stored)
  {
    RunKeepsInv(steps);
  }

  /** Once nothing is out, the store shows the last-started load's answer exactly when that load succeeded. */
  lemma LatestWins(steps: seq<Step>)
    requires Run(INITIAL, steps).Some? && Run(INITIAL, steps).value.pending == {}
        && Run(INITIAL, steps).value.view.requestId > 0
    ensures var s := Run(INITIAL, steps).value;
      && s.view.requestId in s.ended
      && (LatestSucceeded(s) <==> s.stored != [] && s.stored[|s.stored| - 1] == s.view.requestId)
      && (LatestSucceeded(s) ==> s.view.loaded && Some(s.view.collections) == s.ended[s.view.requestId])
  {
    RunKeepsInv(steps);
  }

  /** When the last-started load fails, the answers of loads it overtook are lost with it: the store stays as it
      was when that load began, however many of the others succeed later. */
  lemma {:induction false} OvertakenAnswersAreLost(s: State, steps: seq<Step>, t: State)
    requires Run(s, steps) == Some(t) && forall k :: 0 <= k < |steps| ==> !steps[k].Start?
    requires forall k :: 0 <= k < |steps| && steps[k].Answer? ==> steps[k].id != s.view.requestId
    ensures t.view == s.view && t.stored == s.stored
    decreases |steps|
  {
    if steps != [] {
      var before := Run(s, steps[..|steps| - 1]);
      OvertakenAnswersAreLost(s, steps[..|steps| - 1], before.value);
      assert !steps[|steps| - 1].Start?;
    }
  }
}
