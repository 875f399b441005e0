/** What becomes of a command the assistant proposes (src/state/aiStore.ts:245-374): over every run, clears at any time
    included, which way it is run, whether the denylist was asked first, and what comes back into the history. */
module AiCommands {
  import opened Wrappers
  import opened AiConversation

  // ---------------------------------------------------------------- a run and its states

  /** A run, with the state before and after every step. */
  datatype Log = Log(states: seq<State>, steps: seq<Step>)

  type Trace = l: Log | |l.states| == |l.steps| + 1 witness Log([INITIAL], [])

  ghost predicate Takes(run: Trace, k: nat)
    requires k < |run.steps|
  {
    && Enabled(run.states[k], run.steps[k]) && Permitted(run.states[k], run.steps[k])
    && run.states[k + 1] == Do(run.states[k], run.steps[k])
  }

  /** From the empty store, by steps the interface permits. */
  ghost predicate Legal(run: Trace) {
    run.states[0] == INITIAL && forall k: nat :: k < |run.steps| ==> Takes(run, k)
  }

  lemma {:induction false} TraceFrom(s: State, steps: seq<Step>) returns (run: Trace)
    requires RunPermitted(s, steps)
    ensures run.steps == steps && run.states[0] == s && run.states[|steps|] == Run(s, steps)
    ensures forall k: nat :: k < |steps| ==> Takes(run, k)
    decreases |steps|
  {
    if steps == [] {
      run := Log([s], []);
    } else {
      var rest := TraceFrom(Do(s, steps[0]), steps[1..]);
      run := Log([s] + rest.states, steps);
      forall k: nat | k < |steps| ensures Takes(run, k) {
        if k > 0 { assert Takes(rest, k - 1); }
      }
    }
  }

  /** Every permitted run is one of these. */
  lemma TraceOf(steps: seq<Step>) returns (run: Trace)
    requires RunPermitted(INITIAL, steps)
    ensures Legal(run) && run.steps == steps && run.states[|steps|] == Run(INITIAL, steps)
  {
    run := TraceFrom(INITIAL, steps);
  }

  // ---------------------------------------------------------------- what a step adds to a history

  /** The same message, whatever is marked on it. */
  predicate SameMessage(m: Message, m': Message) { m'.(needsConfirmation := None) == m.(needsConfirmation := None) }

  /** The message is what the step brings: the user's question, the provider's answer or proposal, the proposal of a
      code block, or what became of a command. */
  ghost predicate Brings(s: State, step: Step, m: Message)
    requires Enabled(s, step)
  {
    match m.role
    case User => step.SendUserMessage? && m.text == Some(step.text)
    case Assistant =>
      || (step.ChatText? && m.text == Some(step.text) && m.toolCall.None?)
      || ((step.ChatToolCall? || step.ProposeAndRun?) && m.toolCall == Some(step.toolCall) && m.text.None?)
    case ToolResult =>
      if step.SkipCommand? then
        m.skipped && !m.ranInTerminal
        && exists p :: p in Get(s, step.host).messages && p.id == step.messageId && p.toolCall == m.toolCall
      else
        && (step.WriteDone? || step.ExecDone?) && m.toolCall == Some(s.ops[step.op].toolCall) && !m.skipped
        && m.ranInTerminal == step.WriteDone? && (step.ExecDone? ==> m.execOutput == Some(step.output))
  }

  /** A history only grows, by at most one message a step, and by what the step brings. */
  ghost predicate Grows(s: State, step: Step, before: seq<Message>, after: seq<Message>)
    requires Enabled(s, step)
  {
    && |before| <= |after| <= |before| + 1 && (forall i :: 0 <= i < |before| ==> SameMessage(before[i], after[i]))
    && (|after| > |before| ==>
          after[|before|].id == s.nextId && after[|before|].needsConfirmation.None? && Brings(s, step, after[|before|]))
  }

  lemma {:induction false} FoundMessage(messages: seq<Message>, messageId: MessageId)
    ensures var m := FindMessage(messages, messageId); m.Some? ==> m.value in messages && m.value.id == messageId
  {
    if messages != [] { FoundMessage(messages[1..], messageId); }
  }

  lemma UserStepGrows(s: State, step: Step)
    requires Enabled(s, step) && IsUserStep(step) && !step.ClearConversation?
    ensures Grows(s, step, Get(s, HostOf(s, step)).messages, Get(Do(s, step), HostOf(s, step)).messages)
  {
    if step.SkipCommand? { FoundMessage(Get(s, step.host).messages, step.messageId); }
  }

  lemma ReplyGrows(s: State, step: Step)
    requires Enabled(s, step) && (step.ChatText? || step.WriteDone?)
    ensures var before, after := Get(s, HostOf(s, step)).messages, Get(Do(s, step), HostOf(s, step)).messages;
            Grows(s, step, before, after) && |after| > |before|
  {
  }

  lemma ProposalGrows(s: State, step: Step)
    requires Enabled(s, step) && step.ChatToolCall?
    ensures var before, after := Get(s, HostOf(s, step)).messages, Get(Do(s, step), HostOf(s, step)).messages;
            Grows(s, step, before, after) && |after| > |before|
  {
  }

  lemma ResultGrows(s: State, step: Step)
    requires Enabled(s, step) && step.ExecDone?
    ensures var before, after := Get(s, HostOf(s, step)).messages, Get(Do(s, step), HostOf(s, step)).messages;
            Grows(s, step, before, after) && |after| > |before|
  {
  }

  /** An await that comes back with something for the history. */
  predicate Delivers(step: Step) { step.ChatText? || step.ChatToolCall? || step.WriteDone? || step.ExecDone? }

  lemma AwaitStepGrows(s: State, step: Step)
    requires Enabled(s, step) && !IsUserStep(step)
    ensures var before, after := Get(s, HostOf(s, step)).messages, Get(Do(s, step), HostOf(s, step)).messages;
            && Grows(s, step, before, after)
            && (|after| > |before| <==> Delivers(step))
  {
    if step.ChatText? || step.WriteDone? {
      ReplyGrows(s, step);
    } else if step.ChatToolCall? {
      ProposalGrows(s, step);
    } else if step.ExecDone? {
      ResultGrows(s, step);
    }
  }

  // ---------------------------------------------------------------- message ids

  /** Ids are never used twice in a conversation, whatever is cleared when. */
  ghost predicate IdsOk(messages: seq<Message>, nextId: MessageId) {
    && (forall i :: 0 <= i < |messages| ==> messages[i].id < nextId)
    && forall i, j :: 0 <= i < j < |messages| ==> messages[i].id != messages[j].id
  }

  /** A new message takes the next id. */
  lemma IdsAreDrawn(s: State, step: Step)
    requires Enabled(s, step) && !step.ClearConversation?
    ensures s.nextId <= Do(s, step).nextId
    ensures |Get(Do(s, step), HostOf(s, step)).messages| > |Get(s, HostOf(s, step)).messages| ==>
              s.nextId < Do(s, step).nextId
  {
  }

  lemma GrownIdsOk(s: State, step: Step, before: seq<Message>, after: seq<Message>, nextId': MessageId)
    requires Enabled(s, step) && IdsOk(before, s.nextId) && Grows(s, step, before, after)
    requires s.nextId <= nextId' && (|after| > |before| ==> s.nextId < nextId')
    ensures IdsOk(after, nextId')
  {
    forall i | 0 <= i < |before| ensures after[i].id == before[i].id {
      assert SameMessage(before[i], after[i]);
    }
  }

  lemma StepKeepsIds(s: State, step: Step, h: HostId)
    requires Enabled(s, step) && IdsOk(Get(s, h).messages, s.nextId)
    ensures IdsOk(Get(Do(s, step), h).messages, Do(s, step).nextId)
  {
    if HostOf(s, step) != h {
      OtherHostUntouched(s, step, h);
    } else if !step.ClearConversation? {
      if IsUserStep(step) { UserStepGrows(s, step); } else { AwaitStepGrows(s, step); }
      IdsAreDrawn(s, step);
      GrownIdsOk(s, step, Get(s, h).messages, Get(Do(s, step), h).messages, Do(s, step).nextId);
    }
  }

  lemma {:induction false} IdsStayOk(run: Trace, k: nat, h: HostId)
    requires Legal(run) && k <= |run.steps|
    ensures IdsOk(Get(run.states[k], h).messages, run.states[k].nextId)
  {
    if k > 0 {
      IdsStayOk(run, k - 1, h);
      assert Takes(run, k - 1);
      StepKeepsIds(run.states[k - 1], run.steps[k - 1], h);
    }
  }

  // ---------------------------------------------------------------- the way a command takes

  /** The operation is on its way to run a command. */
  predicate OnPath(s: State, o: OpId) { o in s.ops && !s.ops[o].AwaitChat? }

  /** The step that makes an operation run a command: a click on Run or Run anyway, a click on a code block's Run,
      or a proposal in autonomous mode. */
  predicate IsStart(step: Step, o: OpId) {
    (step.RunCommand? || step.ProposeAndRun? || step.ChatToolCall?) && step.op == o
  }

  /** The host had an open terminal when the command was started. */
  predicate Live(step: Step) { (step.RunCommand? || step.ProposeAndRun? || step.ChatToolCall?) && step.live }

  /** Only a click on Run anyway overrides the denylist. */
  predicate Overrides(step: Step) { step.RunCommand? && step.overrideDenylist }

  /** Step i starts the operation, and it has been under way from then on up to k. */
  ghost predicate UnderWay(run: Trace, o: OpId, i: nat, k: nat)
    requires k <= |run.steps|
  {
    && i < k && IsStart(run.steps[i], o) && !OnPath(run.states[i], o)
    && forall j :: i < j <= k ==> OnPath(run.states[j], o)
  }

  ghost predicate Between(run: Trace, step: Step, i: nat, k: nat)
    requires k <= |run.steps|
  {
    exists j :: i < j < k && run.steps[j] == step
  }

  /** Where a started command may be: with a terminal open it is checked, unless overridden, and then written there;
      without one it waits for the VPN and is then handed to the backend, which is told of an override. */
  ghost predicate RightWay(run: Trace, o: OpId, i: nat, k: nat)
    requires i < k <= |run.steps|
  {
    var op, checked := run.states[k].ops, Between(run, CheckPasses(o), i, k);
    && o in op
    && (op[o].AwaitCheck? <==> Live(run.steps[i]) && !Overrides(run.steps[i]) && !checked)
    && (op[o].AwaitWrite? <==> Live(run.steps[i]) && (Overrides(run.steps[i]) || checked))
    && (op[o].AwaitVpn? <==> !Live(run.steps[i]) && !Between(run, VpnUp(o), i, k))
    && (op[o].AwaitExec? <==> !Live(run.steps[i]) && Between(run, VpnUp(o), i, k))
    && (op[o].AwaitVpn? || op[o].AwaitExec? ==> op[o].overridden == Overrides(run.steps[i]))
  }

  /** The command is the conversation's pending proposal. */
  ghost predicate RunsPending(c: Conversation, op: Op)
    requires !op.AwaitChat?
  {
    && c.running && LastIsProposal(c.messages, op.messageId)
    && c.messages[|c.messages| - 1].toolCall == Some(op.toolCall)
  }

  /** The step begins to run the conversation's pending proposal, for the conversation's provider. */
  ghost predicate Starts(s: State, step: Step, s': State, op: Op) {
    && Enabled(s, step) && op.host == HostOf(s, step) && !op.AwaitChat? && RunsPending(Get(s', op.host), op)
    && (step.RunCommand? ==> op.messageId == step.messageId)
    && (op.AwaitVpn? || op.AwaitExec? ==> Get(s', op.host).provider == Some(op.provider))
  }

  /** The first await a started command comes to. */
  ghost predicate FirstAwait(op: Op, live: bool, overridden: bool) {
    && (op.AwaitCheck? <==> live && !overridden) && (op.AwaitWrite? <==> live && overridden)
    && (op.AwaitVpn? <==> !live) && (op.AwaitVpn? ==> op.overridden == overridden)
  }

  lemma RunSuspends(s: State, o: OpId, h: HostId, messageId: MessageId, overrideDenylist: bool, live: bool)
    requires LastIsProposal(Get(s, h).messages, messageId) && IdsOk(Get(s, h).messages, s.nextId)
    requires !OnPath(s, o) && OnPath(StartRun(s, o, h, messageId, overrideDenylist, live), o)
    ensures var s' := StartRun(s, o, h, messageId, overrideDenylist, live);
            var op := s'.ops[o];
            && op.host == h && op.messageId == messageId && RunsPending(Get(s', h), op)
            && FirstAwait(op, live, overrideDenylist) && (op.AwaitVpn? ==> Get(s', h).provider == Some(op.provider))
  {
    FindUnique(Get(s, h).messages, |Get(s, h).messages| - 1);
  }

  lemma ProposedIdsOk(messages: seq<Message>, nextId: MessageId, toolCall: ToolCall)
    requires IdsOk(messages, nextId)
    ensures IdsOk(messages + [Proposal(nextId, toolCall)], nextId + 1)
    ensures LastIsProposal(messages + [Proposal(nextId, toolCall)], nextId)
  {
  }

  lemma ProposalSuspends(s: State, o: OpId, h: HostId, toolCall: ToolCall, live: bool)
    requires IdsOk(Get(s, h).messages, s.nextId) && !OnPath(s, o)
    requires OnPath(StartRun(Append(s, h, Proposal(s.nextId, toolCall)), o, h, s.nextId, false, live), o)
    ensures var s' := StartRun(Append(s, h, Proposal(s.nextId, toolCall)), o, h, s.nextId, false, live);
            var op := s'.ops[o];
            && op.host == h && RunsPending(Get(s', h), op) && FirstAwait(op, live, false)
            && (op.AwaitVpn? ==> Get(s', h).provider == Some(op.provider))
  {
    ProposedIdsOk(Get(s, h).messages, s.nextId, toolCall);
    RunSuspends(Append(s, h, Proposal(s.nextId, toolCall)), o, h, s.nextId, false, live);
  }

  /** What a start suspends. */
  lemma StartSuspends(s: State, step: Step, o: OpId)
    requires Enabled(s, step) && Permitted(s, step)
    requires IdsOk(Get(s, HostOf(s, step)).messages, s.nextId)
    requires !OnPath(s, o) && OnPath(Do(s, step), o)
    ensures IsStart(step, o) && Starts(s, step, Do(s, step), Do(s, step).ops[o])
    ensures FirstAwait(Do(s, step).ops[o], Live(step), Overrides(step))
  {
    match step {
      case RunCommand(_, h, messageId, overrideDenylist, live) =>
        RunSuspends(s, o, h, messageId, overrideDenylist, live);
      case ProposeAndRun(_, h, toolCall, live) => ProposalSuspends(s, o, h, toolCall, live);
      case ChatToolCall(_, toolCall, live) => ProposalSuspends(Finish(s, o), o, s.ops[o].host, toolCall, live);
      case _ =>
    }
  }

  /** What the user does leaves every operation alone and starts at most one. */
  lemma StartsAddOne(s: State, step: Step)
    requires Enabled(s, step) && IsUserStep(step)
    ensures forall o :: o in s.ops ==> o in Do(s, step).ops && Do(s, step).ops[o] == s.ops[o]
  {
  }

  ghost predicate GoesOn(step: Step, o: OpId, op: Op, op': Op) {
    && !op.AwaitChat? && !op'.AwaitChat?
    && op'.host == op.host && op'.messageId == op.messageId && op'.toolCall == op.toolCall
    && (if step == CheckPasses(o) then op.AwaitCheck? && op'.AwaitWrite?
        else if step == VpnUp(o) then
          op.AwaitVpn? && op'.AwaitExec? && op'.overridden == op.overridden && op'.provider == op.provider
        else op' == op)
  }

  /** An operation under way stays what it is, but for the two awaits that lead to another. */
  lemma PathGoesOn(s: State, step: Step, o: OpId)
    requires Enabled(s, step) && OnPath(s, o) && OnPath(Do(s, step), o)
    ensures GoesOn(step, o, s.ops[o], Do(s, step).ops[o])
  {
    if IsUserStep(step) { StartsAddOne(s, step); }
  }

  lemma StartsSame(s: State, step: Step, s': State, op: Op, op': Op)
    requires Starts(s, step, s', op) && exists next, o :: GoesOn(next, o, op, op')
    ensures Starts(s, step, s', op')
  {
  }

  lemma BetweenGrows(run: Trace, step: Step, i: nat, k: nat)
    requires i <= k < |run.steps|
    ensures Between(run, step, i, k + 1) <==> Between(run, step, i, k) || (i < k && run.steps[k] == step)
  {
  }

  /** What step i has begun. */
  ghost predicate Way(run: Trace, o: OpId, i: nat, k: nat, op: Op)
    requires k <= |run.steps|
  {
    && UnderWay(run, o, i, k) && RightWay(run, o, i, k) && o in run.states[k].ops && run.states[k].ops[o] == op
  }

  lemma WayBegins(run: Trace, o: OpId, i: nat, op: Op)
    requires i < |run.steps| && IsStart(run.steps[i], o) && !OnPath(run.states[i], o)
    requires o in run.states[i + 1].ops && run.states[i + 1].ops[o] == op && !op.AwaitChat?
    requires FirstAwait(op, Live(run.steps[i]), Overrides(run.steps[i]))
    ensures Way(run, o, i, i + 1, op)
  {
  }

  lemma WayGoesOn(run: Trace, o: OpId, i: nat, k: nat, op: Op, op': Op)
    requires k < |run.steps| && Way(run, o, i, k, op)
    requires o in run.states[k + 1].ops && run.states[k + 1].ops[o] == op'
    requires GoesOn(run.steps[k], o, op, op')
    ensures Way(run, o, i, k + 1, op')
  {
    BetweenGrows(run, CheckPasses(o), i, k);
    BetweenGrows(run, VpnUp(o), i, k);
  }

  /** Over every run: a command under way was started by one step, goes the way that step calls for, and is what the
      conversation's pending proposal said when it was started. */
  lemma {:induction false} CommandWay(run: Trace, o: OpId, k: nat) returns (i: nat)
    requires Legal(run) && k <= |run.steps| && OnPath(run.states[k], o)
    ensures Way(run, o, i, k, run.states[k].ops[o])
    ensures Starts(run.states[i], run.steps[i], run.states[i + 1], run.states[k].ops[o])
    decreases k
  {
    if OnPath(run.states[k - 1], o) {
      i := CommandWay(run, o, k - 1);
      StepGoesOn(run, o, k - 1);
      StartsSame(run.states[i], run.steps[i], run.states[i + 1], run.states[k - 1].ops[o], run.states[k].ops[o]);
      WayGoesOn(run, o, i, k - 1, run.states[k - 1].ops[o], run.states[k].ops[o]);
    } else {
      i := k - 1;
      StepStarts(run, o, k - 1);
      WayBegins(run, o, k - 1, run.states[k].ops[o]);
    }
  }

  lemma StepGoesOn(run: Trace, o: OpId, k: nat)
    requires Legal(run) && k < |run.steps| && OnPath(run.states[k], o) && OnPath(run.states[k + 1], o)
    ensures GoesOn(run.steps[k], o, run.states[k].ops[o], run.states[k + 1].ops[o])
  {
    assert Takes(run, k);
    PathGoesOn(run.states[k], run.steps[k], o);
  }

  lemma StepStarts(run: Trace, o: OpId, k: nat)
    requires Legal(run) && k < |run.steps| && !OnPath(run.states[k], o) && OnPath(run.states[k + 1], o)
    ensures IsStart(run.steps[k], o) && Starts(run.states[k], run.steps[k], run.states[k + 1], run.states[k + 1].ops[o])
    ensures FirstAwait(run.states[k + 1].ops[o], Live(run.steps[k]), Overrides(run.steps[k]))
  {
    assert Takes(run, k);
    IdsStayOk(run, k, HostOf(run.states[k], run.steps[k]));
    StartSuspends(run.states[k], run.steps[k], o);
  }

  /** No command reaches the user's terminal unchecked: when its write comes back, the check had passed it or the user
      had clicked Run anyway, with nothing else started by the operation in between. */
  lemma WritesAreVetted(run: Trace, k: nat) returns (i: nat)
    requires Legal(run) && k < |run.steps| && (run.steps[k].WriteDone? || run.steps[k].WriteFails?)
    ensures var o := run.steps[k].op;
            && i < k && (forall j :: i < j <= k ==> OnPath(run.states[j], o))
            && (run.steps[i] == CheckPasses(o)
                || (run.steps[i].RunCommand? && run.steps[i].op == o && run.steps[i].overrideDenylist
                    && run.steps[i].live && !OnPath(run.states[i], o)))
  {
    assert Takes(run, k);
    i := CommandWay(run, run.steps[k].op, k);
    if !Overrides(run.steps[i]) {
      var j :| i < j < k && run.steps[j] == CheckPasses(run.steps[k].op);
      i := j;
    }
  }

  /** No command is run by the backend past its denylist either, but for one the user clicked Run anyway on. */
  lemma BackendRunsAreVetted(run: Trace, k: nat) returns (i: nat)
    requires Legal(run) && k < |run.steps| && run.steps[k].ExecDone?
    ensures var o := run.steps[k].op;
            && UnderWay(run, o, i, k) && !Live(run.steps[i])
            && o in run.states[k].ops && run.states[k].ops[o].AwaitExec?
            && (run.states[k].ops[o].overridden <==> run.steps[i].RunCommand? && run.steps[i].overrideDenylist)
  {
    assert Takes(run, k);
    i := CommandWay(run, run.steps[k].op, k);
  }

  // ---------------------------------------------------------------- autonomous turns

  /** The result is handed straight back to the provider. */
  predicate Continues(s: State, step: Step, h: HostId) {
    Enabled(s, step) && step.ExecDone? && HostOf(s, step) == h && step.op in Do(s, step).ops
  }

  /** The question is sent. */
  predicate Asks(s: State, step: Step, h: HostId) {
    Enabled(s, step) && step.SendUserMessage? && step.host == h && step.op in Do(s, step).ops
  }

  /** The mode last picked in the conversation, asking at first. */
  function ModePicked(run: Trace, k: nat, h: HostId): Mode
    requires k <= |run.steps|
  {
    if k == 0 || run.steps[k - 1] == ClearConversation(h) then Ask
    else if run.steps[k - 1].SetMode? && run.steps[k - 1].host == h then run.steps[k - 1].mode
    else ModePicked(run, k - 1, h)
  }

  /** The provider of the last question sent in the conversation. */
  ghost function ProviderAsked(run: Trace, k: nat, h: HostId): Option<Provider>
    requires k <= |run.steps|
  {
    if k == 0 || run.steps[k - 1] == ClearConversation(h) then None
    else if Asks(run.states[k - 1], run.steps[k - 1], h) then Some(run.steps[k - 1].provider)
    else ProviderAsked(run, k - 1, h)
  }

  /** The step starts a command of the host. */
  predicate StartsRunning(s: State, step: Step, h: HostId) {
    && Enabled(s, step) && (step.RunCommand? || step.ProposeAndRun? || step.ChatToolCall?) && HostOf(s, step) == h
    && !OnPath(s, step.op) && OnPath(Do(s, step), step.op)
  }

  /** An await of the host comes back with an error. */
  predicate FailsWith(s: State, step: Step, h: HostId) {
    && Enabled(s, step) && HostOf(s, step) == h
    && (step.ChatFails? || step.CheckFails? || step.WriteFails? || step.VpnFails? || step.ExecFails?)
  }

  /** The error of the last failure since a question or a command was last begun. */
  ghost function ErrorShown(run: Trace, k: nat, h: HostId): Option<string>
    requires k <= |run.steps|
  {
    if k == 0 || run.steps[k - 1] == ClearConversation(h) then None
    else
      var s, step := run.states[k - 1], run.steps[k - 1];
      if FailsWith(s, step, h) then Some(step.error)
      else if Asks(s, step, h) || StartsRunning(s, step, h) then None
      else ErrorShown(run, k - 1, h)
  }

  /** Stop was pressed in the conversation, and no question was sent since. */
  ghost predicate Stopped(run: Trace, k: nat, h: HostId)
    requires k <= |run.steps|
  {
    k > 0 && run.steps[k - 1] != ClearConversation(h) && !Asks(run.states[k - 1], run.steps[k - 1], h)
    && (run.steps[k - 1] == Stop(h) || Stopped(run, k - 1, h))
  }

  /** How many results of the conversation were handed straight back. */
  ghost function Turns(run: Trace, k: nat, h: HostId): nat
    requires k <= |run.steps|
  {
    if k == 0 || run.steps[k - 1] == ClearConversation(h) then 0
    else Turns(run, k - 1, h) + if Continues(run.states[k - 1], run.steps[k - 1], h) then 1 else 0
  }

  /** The conversation's own record of it. */
  ghost predicate Recorded(c: Conversation, run: Trace, k: nat, h: HostId)
    requires k <= |run.steps|
  {
    && c.mode == ModePicked(run, k, h) && (c.stopRequested <==> Stopped(run, k, h))
    && c.provider == ProviderAsked(run, k, h) && c.error == ErrorShown(run, k, h)
    && c.iterationCount == Turns(run, k, h) <= 25
  }

  /** How a step changes what a conversation records of mode, Stop, turns and provider. */
  ghost predicate Records(s: State, step: Step, h: HostId, c: Conversation, c': Conversation)
    requires Enabled(s, step)
  {
    if step == ClearConversation(h) then c' == EMPTY_CONVERSATION
    else
      && c'.mode == (if step.SetMode? && step.host == h then step.mode else c.mode)
      && (c'.stopRequested <==> !Asks(s, step, h) && (step == Stop(h) || c.stopRequested))
      && c'.provider == (if Asks(s, step, h) then Some(step.provider) else c.provider)
      && c'.iterationCount == c.iterationCount + (if Continues(s, step, h) then 1 else 0)
      && (Continues(s, step, h) ==> c.iterationCount < 25)
  }

  ghost predicate RecordsError(s: State, step: Step, h: HostId, c: Conversation, c': Conversation)
    requires Enabled(s, step)
  {
    c'.error == if step == ClearConversation(h) then None
                else if FailsWith(s, step, h) then Some(step.error)
                else if Asks(s, step, h) || StartsRunning(s, step, h) then None
                else c.error
  }

  lemma UserStepRecordsError(s: State, step: Step, h: HostId)
    requires Enabled(s, step) && IsUserStep(step) && HostOf(s, step) == h
    ensures RecordsError(s, step, h, Get(s, h), Get(Do(s, step), h))
  {
  }

  lemma AwaitStepRecordsError(s: State, step: Step, h: HostId)
    requires Enabled(s, step) && !IsUserStep(step) && HostOf(s, step) == h
    ensures RecordsError(s, step, h, Get(s, h), Get(Do(s, step), h))
  {
  }

  lemma StepRecordsError(s: State, step: Step, h: HostId)
    requires Enabled(s, step)
    ensures RecordsError(s, step, h, Get(s, h), Get(Do(s, step), h))
  {
    if HostOf(s, step) != h {
      OtherHostUntouched(s, step, h);
    } else if IsUserStep(step) {
      UserStepRecordsError(s, step, h);
    } else {
      AwaitStepRecordsError(s, step, h);
    }
  }

  lemma UserStepRecords(s: State, step: Step, h: HostId)
    requires Enabled(s, step) && IsUserStep(step) && HostOf(s, step) == h
    ensures Records(s, step, h, Get(s, h), Get(Do(s, step), h))
  {
  }

  lemma AwaitStepRecords(s: State, step: Step, h: HostId)
    requires Enabled(s, step) && !IsUserStep(step) && HostOf(s, step) == h
    ensures Records(s, step, h, Get(s, h), Get(Do(s, step), h))
    ensures step.ExecDone? ==>
              (Continues(s, step, h)
               <==> Get(s, h).mode.Autonomous? && !Get(s, h).stopRequested && Get(s, h).iterationCount < 25)
  {
  }

  lemma StepRecords(s: State, step: Step, h: HostId)
    requires Enabled(s, step)
    ensures Records(s, step, h, Get(s, h), Get(Do(s, step), h))
  {
    if HostOf(s, step) != h {
      OtherHostUntouched(s, step, h);
    } else if IsUserStep(step) {
      UserStepRecords(s, step, h);
    } else {
      AwaitStepRecords(s, step, h);
    }
  }

  lemma RecordedOneMore(run: Trace, k: nat, h: HostId, c: Conversation, c': Conversation)
    requires k < |run.steps| && Recorded(c, run, k, h)
    requires Enabled(run.states[k], run.steps[k]) && Records(run.states[k], run.steps[k], h, c, c')
    requires RecordsError(run.states[k], run.steps[k], h, c, c')
    ensures Recorded(c', run, k + 1, h)
  {
  }

  lemma {:induction false} RunRecords(run: Trace, k: nat, h: HostId)
    requires Legal(run) && k <= |run.steps|
    ensures Recorded(Get(run.states[k], h), run, k, h)
  {
    if k > 0 {
      RunRecords(run, k - 1, h);
      assert Takes(run, k - 1);
      StepRecords(run.states[k - 1], run.steps[k - 1], h);
      StepRecordsError(run.states[k - 1], run.steps[k - 1], h);
      RecordedOneMore(run, k - 1, h, Get(run.states[k - 1], h), Get(run.states[k], h));
    }
  }

  /** Over every run: what a conversation shows of mode and error, and whom it talks to, is what was last picked,
      reported and asked. */
  lemma ConversationShows(run: Trace, k: nat, h: HostId)
    requires Legal(run) && k <= |run.steps|
    ensures var c := Get(run.states[k], h);
            && c.mode == ModePicked(run, k, h) && c.provider == ProviderAsked(run, k, h)
            && c.error == ErrorShown(run, k, h) && (c.stopRequested <==> Stopped(run, k, h))
  {
    RunRecords(run, k, h);
  }

  /** Over every run: a result goes straight back to the provider exactly in autonomous mode, with Stop not pressed
      since the last question, and for the first 25 times in a conversation. */
  lemma ContinuesIff(run: Trace, k: nat)
    requires Legal(run) && k < |run.steps| && run.steps[k].ExecDone?
    ensures Enabled(run.states[k], run.steps[k])
    ensures var h := HostOf(run.states[k], run.steps[k]);
            && Turns(run, k, h) <= 25
            && (Continues(run.states[k], run.steps[k], h)
                <==> ModePicked(run, k, h).Autonomous? && !Stopped(run, k, h) && Turns(run, k, h) < 25)
  {
    assert Takes(run, k);
    var s := run.states[k];
    var h := HostOf(s, run.steps[k]);
    RunRecords(run, k, h);
    AwaitStepRecords(s, run.steps[k], h);
  }

  /** A result goes back to the provider the conversation last asked when its command was started. */
  lemma ContinuesWithProviderAsked(run: Trace, k: nat) returns (i: nat)
    requires Legal(run) && k < |run.steps| && Enabled(run.states[k], run.steps[k])
    requires Continues(run.states[k], run.steps[k], HostOf(run.states[k], run.steps[k]))
    ensures var o, h := run.steps[k].op, HostOf(run.states[k], run.steps[k]);
            && UnderWay(run, o, i, k) && o in run.states[k + 1].ops && run.states[k + 1].ops[o].AwaitChat?
            && run.states[k + 1].ops[o].host == h
            && ProviderAsked(run, i + 1, h) == Some(run.states[k + 1].ops[o].provider)
  {
    assert Takes(run, k);
    i := CommandWay(run, run.steps[k].op, k);
    RunRecords(run, i + 1, HostOf(run.states[k], run.steps[k]));
    ContinuedOperation(run.states[k], run.steps[k]);
  }

  lemma ContinuedOperation(s: State, step: Step)
    requires Enabled(s, step) && Continues(s, step, HostOf(s, step))
    ensures s.ops[step.op].AwaitExec?
        && Do(s, step).ops[step.op] == AwaitChat(HostOf(s, step), s.ops[step.op].provider)
  {
  }

  // ---------------------------------------------------------------- what is said, sent and reported

  /** No step but Clear takes anything out of a conversation, and what one puts in is what it brought: an answer that
      arrives and a command that was run always enter it, a question, or a code block's command, exactly if nothing
      runs or waits for an answer. */
  lemma HistoryGrows(s: State, step: Step)
    requires Enabled(s, step) && !step.ClearConversation?
    ensures var before, after := Get(s, HostOf(s, step)).messages, Get(Do(s, step), HostOf(s, step)).messages;
            && Grows(s, step, before, after)
            && (Delivers(step) ==> |after| > |before|)
            && (step.SendUserMessage? ==>
                  (|after| > |before| <==> !Get(s, step.host).running && !HasPendingToolCall(before)))
            && (step.ProposeAndRun? ==>
                  (|after| > |before| <==>
                     !Get(s, step.host).running && !HasPendingToolCall(before) && Get(s, step.host).provider.Some?))
  {
    if IsUserStep(step) { UserStepGrows(s, step); } else { AwaitStepGrows(s, step); }
  }

  /** Skip settles the pending proposal: its mark goes, and its result follows. */
  lemma SkipSettles(s: State, h: HostId, messageId: MessageId)
    requires Permitted(s, SkipCommand(h, messageId)) && IdsOk(Get(s, h).messages, s.nextId)
    ensures var before, after := Get(s, h).messages, Get(Do(s, SkipCommand(h, messageId)), h).messages;
            var last := |before| - 1;
            && |after| == |before| + 1 && after[last] == before[last].(needsConfirmation := None)
            && after[..last] == before[..last]
            && after[last + 1] == SkippedResult(s.nextId, before[last].toolCall.value)
  {
    FindUnique(Get(s, h).messages, |Get(s, h).messages| - 1);
  }

  /** The provider is asked exactly when a question is sent or a result goes straight back, and then with the whole
      history, that message included. */
  lemma RequestsCarryHistory(s: State, step: Step)
    requires Enabled(s, step)
    ensures var h, s' := HostOf(s, step), Do(s, step);
            if Asks(s, step, h) || Continues(s, step, h) then
              && s'.requests == s.requests + [Request(h, ToMessageInputs(Get(s', h).messages))]
              && |Get(s', h).messages| == |Get(s, h).messages| + 1
              && s'.ops[step.op] == AwaitChat(h, if step.ExecDone? then s.ops[step.op].provider else step.provider)
            else s'.requests == s.requests
  {
  }

  /** An await that fails leaves the history alone, says why, and lets the conversation run again. */
  lemma FailuresAreReported(s: State, step: Step)
    requires Enabled(s, step)
    requires step.ChatFails? || step.CheckFails? || step.WriteFails? || step.VpnFails? || step.ExecFails?
    ensures var h, s' := HostOf(s, step), Do(s, step);
            && Get(s', h) == Get(s, h).(running := false, error := Some(step.error))
            && step.op !in s'.ops && s'.requests == s.requests
  {
  }

  /** A denied command is marked with the pattern it met, and nothing of it is left in flight. */
  lemma DenialsAreMarked(s: State, step: Step)
    requires Enabled(s, step) && (step.CheckDenied? || step.ExecNeedsConfirmation?)
    ensures var h, s', messageId := HostOf(s, step), Do(s, step), s.ops[step.op].messageId;
            var before, after := Get(s, h).messages, Get(s', h).messages;
            && |after| == |before| && step.op !in s'.ops && !Get(s', h).running
            && forall i :: 0 <= i < |before| ==>
                 if before[i].id == messageId then after[i] == before[i].(needsConfirmation := Some(step.pattern))
                 else after[i] == before[i]
  {
  }
}
