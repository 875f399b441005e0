/** The AI assistant's conversations of src/state/aiStore.ts. Every async action is cut at its `await`s; between
    two cuts it runs alone, and the cuts of different actions interleave freely with what the user does. */
module AiConversation {
  import opened Wrappers

  type HostId = string
  type MessageId = nat
  type OpId = nat

  const MAX_AUTONOMOUS_ITERATIONS := 25

  datatype Provider = OpenAi | Anthropic
  datatype Role = User | Assistant | ToolResult
  datatype ToolCall = ToolCall(command: string, purpose: string)
  datatype ExecOutput = ExecOutput(stdout: string, stderr: string, exitStatus: Option<int>, truncated: bool)
  datatype Message = Message(
    id: MessageId, role: Role, text: Option<string>, toolCall: Option<ToolCall>,
    execOutput: Option<ExecOutput>, ranInTerminal: bool, skipped: bool, needsConfirmation: Option<string>)
  datatype Mode = Ask | Autonomous
  datatype Conversation = Conversation(
    messages: seq<Message>, mode: Mode, provider: Option<Provider>, running: bool,
    stopRequested: bool, iterationCount: nat, error: Option<string>)

  const EMPTY_CONVERSATION := Conversation([], Ask, None, false, false, 0, None)

  function UserMessage(id: MessageId, text: string): Message {
    Message(id, User, Some(text), None, None, false, false, None)
  }
  function Reply(id: MessageId, text: string): Message {
    Message(id, Assistant, Some(text), None, None, false, false, None)
  }
  function Proposal(id: MessageId, toolCall: ToolCall): Message {
    Message(id, Assistant, None, Some(toolCall), None, false, false, None)
  }
  function ExecResult(id: MessageId, toolCall: ToolCall, output: ExecOutput): Message {
    Message(id, ToolResult, None, Some(toolCall), Some(output), false, false, None)
  }
  function TerminalResult(id: MessageId, toolCall: ToolCall): Message {
    Message(id, ToolResult, None, Some(toolCall), None, true, false, None)
  }
  function SkippedResult(id: MessageId, toolCall: ToolCall): Message {
    Message(id, ToolResult, None, Some(toolCall), None, false, true, None)
  }

  // ---------------------------------------------------------------- what the provider is sent

  datatype MessageInput =
    | UserInput(content: string)
    | AssistantInput(text: Option<string>, toolCall: Option<ToolCall>)
    | ToolResultInput(command: string, output: ExecOutput)

  const TERMINAL_NOTE :=
    "(Sent to the user's live terminal session to run interactively - output isn't captured here. "
    + "Ask the user what happened if you need to know.)"
  const SKIPPED_NOTE := "(The user chose not to run this command.)"

  function ResultOutput(m: Message): ExecOutput {
    if m.ranInTerminal then ExecOutput(TERMINAL_NOTE, "", None, false)
    else if m.skipped then ExecOutput(SKIPPED_NOTE, "", None, false)
    else if m.execOutput.Some? then m.execOutput.value
    else ExecOutput("", "", None, false)
  }

  function ToMessageInput(m: Message): MessageInput {
    match m.role
    case User => UserInput(if m.text.Some? then m.text.value else "")
    case ToolResult => ToolResultInput(if m.toolCall.Some? then m.toolCall.value.command else "", ResultOutput(m))
    case Assistant => AssistantInput(m.text, m.toolCall)
  }

  function ToMessageInputs(messages: seq<Message>): seq<MessageInput> {
    seq(|messages|, i requires 0 <= i < |messages| => ToMessageInput(messages[i]))
  }

  predicate IsProposal(m: Message) { m.role.Assistant? && m.toolCall.Some? }

  function HasPendingToolCall(messages: seq<Message>): bool {
    messages != [] && IsProposal(messages[|messages| - 1])
  }

  // ---------------------------------------------------------------- state and steps

  /** Where an async action is suspended; each variant holds what the action's closure still needs. `overridden` says
      that the user asked for the command to run whatever the denylist says. */
  datatype Op =
    | AwaitChat(host: HostId, provider: Provider)
    | AwaitCheck(host: HostId, messageId: MessageId, toolCall: ToolCall)
    | AwaitWrite(host: HostId, messageId: MessageId, toolCall: ToolCall)
    | AwaitVpn(host: HostId, messageId: MessageId, toolCall: ToolCall, provider: Provider, overridden: bool)
    | AwaitExec(host: HostId, messageId: MessageId, toolCall: ToolCall, provider: Provider, overridden: bool)

  datatype Request = Request(host: HostId, inputs: seq<MessageInput>)

  /** `requests` logs every history handed to a provider. */
  datatype State = State(
    conversations: map<HostId, Conversation>, ops: map<OpId, Op>, nextId: MessageId, requests: seq<Request>)

  const INITIAL := State(map[], map[], 0, [])

  function Get(s: State, h: HostId): Conversation {
    if h in s.conversations then s.conversations[h] else EMPTY_CONVERSATION
  }

  function Set(s: State, h: HostId, c: Conversation): State { s.(conversations := s.conversations[h := c]) }

  function Finish(s: State, o: OpId): State { s.(ops := s.ops - {o}) }

  function Suspend(s: State, o: OpId, op: Op): State { s.(ops := s.ops[o := op]) }

  function Append(s: State, h: HostId, m: Message): State {
    var c := Get(s, h);
    Set(s, h, c.(messages := c.messages + [m])).(nextId := s.nextId + 1)
  }

  function StopRunning(s: State, h: HostId, error: Option<string>): State {
    var c := Get(s, h);
    Set(s, h, c.(running := false, error := if error.Some? then error else c.error))
  }

  function MarkMessage(m: Message, messageId: MessageId, mark: Option<string>): Message {
    if m.id == messageId then m.(needsConfirmation := mark) else m
  }

  function MarkMessages(messages: seq<Message>, messageId: MessageId, mark: Option<string>): seq<Message> {
    seq(|messages|, i requires 0 <= i < |messages| => MarkMessage(messages[i], messageId, mark))
  }

  function AskConfirmation(s: State, h: HostId, messageId: MessageId, pattern: string): State {
    var c := Get(s, h);
    Set(s, h, c.(running := false, messages := MarkMessages(c.messages, messageId, Some(pattern))))
  }

  /** `requestNextTurn` up to its await. */
  function RequestTurn(s: State, o: OpId, h: HostId, provider: Provider): State {
    Suspend(s, o, AwaitChat(h, provider)).(requests := s.requests + [Request(h, ToMessageInputs(Get(s, h).messages))])
  }

  function FindMessage(messages: seq<Message>, messageId: MessageId): Option<Message> {
    if messages == [] then None
    else if messages[0].id == messageId then Some(messages[0])
    else FindMessage(messages[1..], messageId)
  }

  /** `runCommand` up to its first await; `live` says whether the host has an open terminal session. */
  function StartRun(s: State, o: OpId, h: HostId, messageId: MessageId, overrideDenylist: bool, live: bool): State {
    var c := Get(s, h);
    if c.running then s
    else
      var message := FindMessage(c.messages, messageId);
      if message.None? || message.value.toolCall.None? || c.provider.None? then s
      else
        var toolCall := message.value.toolCall.value;
        var s' := Set(s, h, c.(running := true, error := None));
        Suspend(s', o,
          if live && overrideDenylist then AwaitWrite(h, messageId, toolCall)
          else if live then AwaitCheck(h, messageId, toolCall)
          else AwaitVpn(h, messageId, toolCall, c.provider.value, overrideDenylist))
  }

  datatype Step =
    // the user
    | SendUserMessage(op: OpId, host: HostId, provider: Provider, text: string)
    | RunCommand(op: OpId, host: HostId, messageId: MessageId, overrideDenylist: bool, live: bool)
    | ProposeAndRun(op: OpId, host: HostId, toolCall: ToolCall, live: bool)
    | SkipCommand(host: HostId, messageId: MessageId)
    | SetMode(host: HostId, mode: Mode)
    | Stop(host: HostId)
    | ClearConversation(host: HostId)
    // an await coming back
    | ChatFails(op: OpId, error: string)
    | ChatText(op: OpId, text: string)
    | ChatToolCall(op: OpId, toolCall: ToolCall, live: bool)
    | CheckFails(op: OpId, error: string)
    | CheckDenied(op: OpId, pattern: string)
    | CheckPasses(op: OpId)
    | WriteFails(op: OpId, error: string)
    | WriteDone(op: OpId)
    | VpnFails(op: OpId, error: string)
    | VpnUp(op: OpId)
    | ExecFails(op: OpId, error: string)
    | ExecNeedsConfirmation(op: OpId, pattern: string)
    | ExecDone(op: OpId, output: ExecOutput)

  predicate Enabled(s: State, step: Step) {
    match step
    case SendUserMessage(o, _, _, _) => o !in s.ops
    case RunCommand(o, _, _, _, _) => o !in s.ops
    case ProposeAndRun(o, _, _, _) => o !in s.ops
    case SkipCommand(_, _) => true
    case SetMode(_, _) => true
    case Stop(_) => true
    case ClearConversation(_) => true
    case ChatFails(o, _) => o in s.ops && s.ops[o].AwaitChat?
    case ChatText(o, _) => o in s.ops && s.ops[o].AwaitChat?
    case ChatToolCall(o, _, _) => o in s.ops && s.ops[o].AwaitChat?
    case CheckFails(o, _) => o in s.ops && s.ops[o].AwaitCheck?
    case CheckDenied(o, _) => o in s.ops && s.ops[o].AwaitCheck?
    case CheckPasses(o) => o in s.ops && s.ops[o].AwaitCheck?
    case WriteFails(o, _) => o in s.ops && s.ops[o].AwaitWrite?
    case WriteDone(o) => o in s.ops && s.ops[o].AwaitWrite?
    case VpnFails(o, _) => o in s.ops && s.ops[o].AwaitVpn?
    case VpnUp(o) => o in s.ops && s.ops[o].AwaitVpn?
    case ExecFails(o, _) => o in s.ops && s.ops[o].AwaitExec?
    case ExecNeedsConfirmation(o, _) => o in s.ops && s.ops[o].AwaitExec? && !s.ops[o].overridden
    case ExecDone(o, _) => o in s.ops && s.ops[o].AwaitExec?
  }

  function Do(s: State, step: Step): State
    requires Enabled(s, step)
  {
    match step
    case SendUserMessage(o, h, provider, text) =>
      var c := Get(s, h);
      if c.running || HasPendingToolCall(c.messages) then s
      else
        var s' := Set(s, h, c.(provider := Some(provider), running := true, stopRequested := false, error := None));
        RequestTurn(Append(s', h, UserMessage(s.nextId, text)), o, h, provider)
    case RunCommand(o, h, messageId, overrideDenylist, live) => StartRun(s, o, h, messageId, overrideDenylist, live)
    case ProposeAndRun(o, h, toolCall, live) =>
      var c := Get(s, h);
      if c.running || HasPendingToolCall(c.messages) || c.provider.None? then s
      else StartRun(Append(s, h, Proposal(s.nextId, toolCall)), o, h, s.nextId, false, live)
    case SkipCommand(h, messageId) =>
      var c := Get(s, h);
      var message := FindMessage(c.messages, messageId);
      if message.None? || message.value.toolCall.None? then Set(s, h, c)
      else
        var marked := Set(s, h, c.(messages := MarkMessages(c.messages, messageId, None)));
        Append(marked, h, SkippedResult(s.nextId, message.value.toolCall.value))
    case SetMode(h, mode) => Set(s, h, Get(s, h).(mode := mode))
    case Stop(h) => Set(s, h, Get(s, h).(stopRequested := true))
    case ClearConversation(h) => s.(conversations := s.conversations - {h})
    case ChatFails(o, error) => StopRunning(Finish(s, o), s.ops[o].host, Some(error))
    case ChatText(o, text) =>
      var h := s.ops[o].host;
      StopRunning(Append(Finish(s, o), h, Reply(s.nextId, text)), h, None)
    case ChatToolCall(o, toolCall, live) =>
      var h := s.ops[o].host;
      var s' := Append(Finish(s, o), h, Proposal(s.nextId, toolCall));
      if Get(s', h).mode.Autonomous? && !Get(s', h).stopRequested then StartRun(s', o, h, s.nextId, false, live)
      else StopRunning(s', h, None)
    case CheckFails(o, error) => StopRunning(Finish(s, o), s.ops[o].host, Some(error))
    case CheckDenied(o, pattern) => AskConfirmation(Finish(s, o), s.ops[o].host, s.ops[o].messageId, pattern)
    case CheckPasses(o) => Suspend(s, o, AwaitWrite(s.ops[o].host, s.ops[o].messageId, s.ops[o].toolCall))
    case WriteFails(o, error) => StopRunning(Finish(s, o), s.ops[o].host, Some(error))
    case WriteDone(o) =>
      var h := s.ops[o].host;
      StopRunning(Append(Finish(s, o), h, TerminalResult(s.nextId, s.ops[o].toolCall)), h, None)
    case VpnFails(o, error) => StopRunning(Finish(s, o), s.ops[o].host, Some(error))
    case VpnUp(o) =>
      var AwaitVpn(h, messageId, toolCall, provider, overridden) := s.ops[o];
      Suspend(s, o, AwaitExec(h, messageId, toolCall, provider, overridden))
    case ExecFails(o, error) => StopRunning(Finish(s, o), s.ops[o].host, Some(error))
    case ExecNeedsConfirmation(o, pattern) => AskConfirmation(Finish(s, o), s.ops[o].host, s.ops[o].messageId, pattern)
    case ExecDone(o, output) =>
      var h := s.ops[o].host;
      var s' := Append(Finish(s, o), h, ExecResult(s.nextId, s.ops[o].toolCall, output));
      var c := Get(s', h);
      if c.mode.Autonomous? && !c.stopRequested && c.iterationCount < MAX_AUTONOMOUS_ITERATIONS then
        RequestTurn(Set(s', h, c.(iterationCount := c.iterationCount + 1)), o, h, s.ops[o].provider)
      else StopRunning(s', h, None)
  }

  /** What the user interface lets through: Run and Skip only on the last message, a proposal not yet resolved, Skip
      only while nothing runs, and Clear whenever there are messages, whatever is in flight. */
  predicate Permitted(s: State, step: Step) {
    match step
    case RunCommand(_, h, messageId, _, _) => LastIsProposal(Get(s, h).messages, messageId)
    case SkipCommand(h, messageId) => LastIsProposal(Get(s, h).messages, messageId) && !Get(s, h).running
    case ClearConversation(h) => Get(s, h).messages != []
    case _ => true
  }

  predicate LastIsProposal(messages: seq<Message>, messageId: MessageId) {
    HasPendingToolCall(messages) && messages[|messages| - 1].id == messageId
  }

  // ---------------------------------------------------------------- pairing

  predicate Answers(result: Message, proposal: Message) {
    result.role.ToolResult? && IsProposal(proposal) && result.toolCall == proposal.toolCall
  }

  /** The message at i is in its place: a proposal is last or is followed at once by its result, a result
      follows its proposal. */
  predicate PairedAt(messages: seq<Message>, i: nat)
    requires i < |messages|
  {
    && (IsProposal(messages[i]) ==> i == |messages| - 1 || Answers(messages[i + 1], messages[i]))
    && (messages[i].role.ToolResult? ==> i > 0 && Answers(messages[i], messages[i - 1]))
  }

  /** So every proposal but a last one has exactly one result: two results cannot follow each other. */
  ghost predicate Paired(messages: seq<Message>) {
    forall i :: 0 <= i < |messages| ==> PairedAt(messages, i)
  }

  /** The same on the wire, where a result carries only the command, and with no call left unanswered: what
      providers require of a request. */
  predicate WirePairedAt(inputs: seq<MessageInput>, i: nat)
    requires i < |inputs|
  {
    && (inputs[i].AssistantInput? && inputs[i].toolCall.Some? ==>
         i + 1 < |inputs| && inputs[i + 1].ToolResultInput?
             && inputs[i + 1].command == inputs[i].toolCall.value.command)
    && (inputs[i].ToolResultInput? ==>
         i > 0 && inputs[i - 1].AssistantInput? && inputs[i - 1].toolCall.Some?
             && inputs[i].command == inputs[i - 1].toolCall.value.command)
  }

  ghost predicate WirePaired(inputs: seq<MessageInput>) {
    forall i :: 0 <= i < |inputs| ==> WirePairedAt(inputs, i)
  }

  /** `toMessageInputs` keeps the pairing, message by message; what it produces is fit to be sent exactly when
      no proposal is pending. */
  lemma InputsKeepPairing(messages: seq<Message>)
    requires Paired(messages)
    ensures |ToMessageInputs(messages)| == |messages|
    ensures WirePaired(ToMessageInputs(messages)) <==> !HasPendingToolCall(messages)
  {
    var inputs := ToMessageInputs(messages);
    if HasPendingToolCall(messages) {
      assert !WirePairedAt(inputs, |messages| - 1);
    } else {
      forall i: nat | i < |inputs| ensures WirePairedAt(inputs, i) {
        assert PairedAt(messages, i);
      }
    }
  }

  /** What the provider is told of each turn: the user's words, its own, and of a command what became of it. */
  lemma InputsSayWhatHappened(id: MessageId, text: string, toolCall: ToolCall, output: ExecOutput)
    ensures ToMessageInput(UserMessage(id, text)) == UserInput(text)
    ensures ToMessageInput(Reply(id, text)) == AssistantInput(Some(text), None)
    ensures ToMessageInput(Proposal(id, toolCall)) == AssistantInput(None, Some(toolCall))
    ensures ToMessageInput(ExecResult(id, toolCall, output)) == ToolResultInput(toolCall.command, output)
    ensures ToMessageInput(TerminalResult(id, toolCall))
         == ToolResultInput(toolCall.command, ExecOutput(TERMINAL_NOTE, "", None, false))
    ensures ToMessageInput(SkippedResult(id, toolCall))
         == ToolResultInput(toolCall.command, ExecOutput(SKIPPED_NOTE, "", None, false))
  {
  }

  lemma AppendKeepsPairing(messages: seq<Message>, m: Message)
    requires Paired(messages)
    requires m.role.ToolResult? ==> messages != [] && Answers(m, messages[|messages| - 1])
    requires !m.role.ToolResult? ==> !HasPendingToolCall(messages)
    ensures Paired(messages + [m])
  {
    forall i: nat | i < |messages| + 1 ensures PairedAt(messages + [m], i) {
      if i < |messages| { assert PairedAt(messages, i); }
    }
  }

  lemma MarkKeepsPairing(messages: seq<Message>, messageId: MessageId, mark: Option<string>)
    requires Paired(messages)
    ensures Paired(MarkMessages(messages, messageId, mark))
  {
    forall i: nat | i < |messages| ensures PairedAt(MarkMessages(messages, messageId, mark), i) {
      assert PairedAt(messages, i);
    }
  }

  // ---------------------------------------------------------------- the invariant

  ghost predicate MessagesOk(messages: seq<Message>, nextId: MessageId) {
    && Paired(messages)
    && (forall i :: 0 <= i < |messages| ==> messages[i].id < nextId)
    && forall i, j :: 0 <= i < j < |messages| ==> messages[i].id != messages[j].id
  }

  /** A suspended operation keeps its conversation running and stands on what it is about to resolve. */
  ghost predicate OpOk(c: Conversation, op: Op) {
    && c.running
    && (op.AwaitChat? ==> !HasPendingToolCall(c.messages))
    && (!op.AwaitChat? ==>
          && LastIsProposal(c.messages, op.messageId)
          && c.messages[|c.messages| - 1].toolCall == Some(op.toolCall))
  }

  /** Nothing of the host is in flight. */
  ghost predicate Quiet(s: State, h: HostId) { forall o :: o in s.ops ==> s.ops[o].host != h }

  ghost predicate RequestsOk(requests: seq<Request>, h: HostId) {
    forall i :: 0 <= i < |requests| && requests[i].host == h ==> WirePaired(requests[i].inputs)
  }

  /** One host's share of the state is in order, whatever has become of the other hosts. */
  ghost predicate Inv(s: State, h: HostId) {
    && MessagesOk(Get(s, h).messages, s.nextId)
    && (forall o :: o in s.ops && s.ops[o].host == h ==> OpOk(Get(s, h), s.ops[o]))
    && (forall o, o' :: o in s.ops && o' in s.ops && s.ops[o].host == h && s.ops[o'].host == h ==> o == o')
    && RequestsOk(s.requests, h)
  }

  lemma {:induction false} FindUnique(messages: seq<Message>, i: nat)
    requires i < |messages|
    requires forall j, k :: 0 <= j < k < |messages| ==> messages[j].id != messages[k].id
    ensures FindMessage(messages, messages[i].id) == Some(messages[i])
  {
    if i > 0 {
      assert messages[0].id != messages[i].id;
      FindUnique(messages[1..], i - 1);
    }
  }

  lemma AppendOk(messages: seq<Message>, nextId: MessageId, m: Message)
    requires MessagesOk(messages, nextId) && m.id == nextId
    requires m.role.ToolResult? ==> messages != [] && Answers(m, messages[|messages| - 1])
    requires !m.role.ToolResult? ==> !HasPendingToolCall(messages)
    ensures MessagesOk(messages + [m], nextId + 1)
  {
    AppendKeepsPairing(messages, m);
  }

  lemma MarkOk(messages: seq<Message>, nextId: MessageId, messageId: MessageId, mark: Option<string>)
    requires MessagesOk(messages, nextId)
    ensures MessagesOk(MarkMessages(messages, messageId, mark), nextId)
  {
    MarkKeepsPairing(messages, messageId, mark);
  }

  /** A step that rewrites the host's conversation and settles, starts or moves on its only operation. */
  lemma UpdateKeepsInv(s: State, s': State, h: HostId, o: OpId, op: Option<Op>)
    requires MessagesOk(Get(s', h).messages, s'.nextId) && RequestsOk(s'.requests, h)
    requires s'.ops == if op.None? then s.ops - {o} else s.ops[o := op.value]
    requires forall q :: q in s.ops && s.ops[q].host == h ==> q == o
    requires op.Some? ==> op.value.host == h && OpOk(Get(s', h), op.value)
    ensures Inv(s', h)
  {
  }

  /** The host a step works on. */
  function HostOf(s: State, step: Step): HostId
    requires Enabled(s, step)
  {
    match step
    case SendUserMessage(_, h, _, _) => h
    case RunCommand(_, h, _, _, _) => h
    case ProposeAndRun(_, h, _, _) => h
    case SkipCommand(h, _) => h
    case SetMode(h, _) => h
    case Stop(h) => h
    case ClearConversation(h) => h
    case _ => s.ops[step.op].host
  }

  ghost predicate OpsElsewhereSame(s: State, s': State, h: HostId) {
    && (forall o :: o in s'.ops && s'.ops[o].host == h ==> o in s.ops && s.ops[o] == s'.ops[o])
    && (forall o :: o in s.ops && s.ops[o].host == h ==> o in s'.ops && s'.ops[o] == s.ops[o])
    && forall i :: 0 <= i < |s'.requests| && s'.requests[i].host == h
         ==> i < |s.requests| && s'.requests[i] == s.requests[i]
  }

  predicate IsUserStep(step: Step) {
    || step.SendUserMessage? || step.RunCommand? || step.ProposeAndRun? || step.SkipCommand? || step.SetMode?
    || step.Stop? || step.ClearConversation?
  }

  lemma OtherHostUserStep(s: State, step: Step, h: HostId)
    requires Enabled(s, step) && HostOf(s, step) != h && IsUserStep(step)
    ensures Get(Do(s, step), h) == Get(s, h) && s.nextId <= Do(s, step).nextId
    ensures OpsElsewhereSame(s, Do(s, step), h)
  {
  }

  lemma OtherHostAwaitStep(s: State, step: Step, h: HostId)
    requires Enabled(s, step) && HostOf(s, step) != h && !IsUserStep(step)
    ensures Get(Do(s, step), h) == Get(s, h) && s.nextId <= Do(s, step).nextId
    ensures OpsElsewhereSame(s, Do(s, step), h)
  {
  }

  /** What is done to one host leaves the others alone. */
  lemma OtherHostUntouched(s: State, step: Step, h: HostId)
    requires Enabled(s, step) && HostOf(s, step) != h
    ensures Get(Do(s, step), h) == Get(s, h) && s.nextId <= Do(s, step).nextId
    ensures OpsElsewhereSame(s, Do(s, step), h)
  {
    if IsUserStep(step) {
      OtherHostUserStep(s, step, h);
    } else {
      OtherHostAwaitStep(s, step, h);
    }
  }

  lemma OtherHostKeepsInv(s: State, step: Step, h: HostId)
    requires Inv(s, h) && Enabled(s, step) && HostOf(s, step) != h
    ensures Inv(Do(s, step), h)
  {
    OtherHostUntouched(s, step, h);
  }

  lemma SendKeepsInv(s: State, o: OpId, h: HostId, provider: Provider, text: string)
    requires Inv(s, h) && o !in s.ops
    ensures Inv(Do(s, SendUserMessage(o, h, provider, text)), h)
  {
    var c := Get(s, h);
    if !c.running && !HasPendingToolCall(c.messages) {
      var s' := Do(s, SendUserMessage(o, h, provider, text));
      var messages := c.messages + [UserMessage(s.nextId, text)];
      AppendOk(c.messages, s.nextId, UserMessage(s.nextId, text));
      InputsKeepPairing(messages);
      assert Get(s', h).messages == messages && s'.requests == s.requests + [Request(h, ToMessageInputs(messages))];
      UpdateKeepsInv(s, s', h, o, Some(AwaitChat(h, provider)));
    }
  }

  /** `runCommand` on the last message, a proposal, of an idle conversation with a provider. */
  lemma StartRunSuspends(s: State, o: OpId, h: HostId, overrideDenylist: bool, live: bool)
    requires var c := Get(s, h);
             && !c.running && c.provider.Some? && HasPendingToolCall(c.messages) && MessagesOk(c.messages, s.nextId)
    ensures var c := Get(s, h);
            var last := c.messages[|c.messages| - 1];
            var s' := StartRun(s, o, h, last.id, overrideDenylist, live);
            && o in s'.ops && s' == Suspend(Set(s, h, c.(running := true, error := None)), o, s'.ops[o])
            && s'.ops[o].host == h && OpOk(Get(s', h), s'.ops[o])
  {
    var c := Get(s, h);
    FindUnique(c.messages, |c.messages| - 1);
  }

  lemma ProposeKeepsInv(s: State, o: OpId, h: HostId, toolCall: ToolCall, live: bool)
    requires Inv(s, h) && o !in s.ops
    ensures Inv(Do(s, ProposeAndRun(o, h, toolCall, live)), h)
  {
    var c := Get(s, h);
    if !c.running && !HasPendingToolCall(c.messages) && c.provider.Some? {
      AppendOk(c.messages, s.nextId, Proposal(s.nextId, toolCall));
      var s' := Do(s, ProposeAndRun(o, h, toolCall, live));
      var proposed := Append(s, h, Proposal(s.nextId, toolCall));
      assert Get(proposed, h).messages == c.messages + [Proposal(s.nextId, toolCall)];
      StartRunSuspends(proposed, o, h, false, live);
      UpdateKeepsInv(s, s', h, o, Some(s'.ops[o]));
    }
  }

  lemma RunCommandKeepsInv(s: State, o: OpId, h: HostId, messageId: MessageId, overrideDenylist: bool, live: bool)
    requires Inv(s, h) && o !in s.ops && LastIsProposal(Get(s, h).messages, messageId)
    ensures Inv(Do(s, RunCommand(o, h, messageId, overrideDenylist, live)), h)
  {
    var c := Get(s, h);
    if !c.running && c.provider.Some? {
      StartRunSuspends(s, o, h, overrideDenylist, live);
      var s' := Do(s, RunCommand(o, h, messageId, overrideDenylist, live));
      UpdateKeepsInv(s, s', h, o, Some(s'.ops[o]));
    }
  }

  lemma SkipKeepsInv(s: State, h: HostId, messageId: MessageId)
    requires Inv(s, h) && Permitted(s, SkipCommand(h, messageId))
    ensures Inv(Do(s, SkipCommand(h, messageId)), h)
  {
    var messages := Get(s, h).messages;
    var last := messages[|messages| - 1];
    FindUnique(messages, |messages| - 1);
    MarkOk(messages, s.nextId, messageId, None);
    AppendOk(MarkMessages(messages, messageId, None), s.nextId, SkippedResult(s.nextId, last.toolCall.value));
  }

  /** An operation that ends leaves the conversation well formed. */
  lemma EndKeepsInv(s: State, s': State, o: OpId)
    requires o in s.ops && Inv(s, s.ops[o].host)
    requires MessagesOk(Get(s', s.ops[o].host).messages, s'.nextId)
    requires s'.ops == s.ops - {o} && s'.requests == s.requests
    ensures Inv(s', s.ops[o].host)
  {
    UpdateKeepsInv(s, s', s.ops[o].host, o, None);
  }

  lemma ChatStepKeepsInv(s: State, step: Step)
    requires Enabled(s, step) && (step.ChatFails? || step.ChatText? || step.ChatToolCall?) && Inv(s, HostOf(s, step))
    ensures Inv(Do(s, step), HostOf(s, step))
  {
    var o, s' := step.op, Do(s, step);
    var messages := Get(s, s.ops[o].host).messages;
    assert OpOk(Get(s, s.ops[o].host), s.ops[o]);
    match step {
      case ChatFails(_, _) =>
      case ChatText(_, text) => AppendOk(messages, s.nextId, Reply(s.nextId, text));
      case ChatToolCall(_, toolCall, live) => AppendOk(messages, s.nextId, Proposal(s.nextId, toolCall));
    }
    EndKeepsInv(s, s', o);
  }

  lemma TerminalStepKeepsInv(s: State, step: Step)
    requires Enabled(s, step) && (step.CheckFails? || step.CheckDenied? || step.WriteFails? || step.WriteDone?)
    requires Inv(s, HostOf(s, step))
    ensures Inv(Do(s, step), HostOf(s, step))
  {
    var o, s' := step.op, Do(s, step);
    var messages := Get(s, s.ops[o].host).messages;
    assert OpOk(Get(s, s.ops[o].host), s.ops[o]);
    match step {
      case CheckDenied(_, pattern) => MarkOk(messages, s.nextId, s.ops[o].messageId, Some(pattern));
      case WriteDone(_) => AppendOk(messages, s.nextId, TerminalResult(s.nextId, s.ops[o].toolCall));
      case CheckFails(_, _) =>
      case WriteFails(_, _) =>
    }
    EndKeepsInv(s, s', o);
  }

  lemma ExecStepKeepsInv(s: State, step: Step)
    requires Enabled(s, step) && (step.VpnFails? || step.ExecFails? || step.ExecNeedsConfirmation?)
    requires Inv(s, HostOf(s, step))
    ensures Inv(Do(s, step), HostOf(s, step))
  {
    var o, s' := step.op, Do(s, step);
    assert OpOk(Get(s, s.ops[o].host), s.ops[o]);
    if step.ExecNeedsConfirmation? {
      MarkOk(Get(s, s.ops[o].host).messages, s.nextId, s.ops[o].messageId, Some(step.pattern));
    }
    EndKeepsInv(s, s', o);
  }

  lemma ExecDoneKeepsInv(s: State, o: OpId, output: ExecOutput)
    requires o in s.ops && s.ops[o].AwaitExec? && Inv(s, s.ops[o].host)
    ensures Inv(Do(s, ExecDone(o, output)), s.ops[o].host)
  {
    var s', h := Do(s, ExecDone(o, output)), s.ops[o].host;
    var result := ExecResult(s.nextId, s.ops[o].toolCall, output);
    assert OpOk(Get(s, h), s.ops[o]);
    AppendOk(Get(s, h).messages, s.nextId, result);
    if o in s'.ops {
      ContinueKeepsInv(s, s', o, result);
    } else {
      EndKeepsInv(s, s', o);
    }
  }

  /** A result in autonomous mode is handed straight back to the provider. */
  lemma ContinueKeepsInv(s: State, s': State, o: OpId, result: Message)
    requires o in s.ops && s.ops[o].AwaitExec? && Inv(s, s.ops[o].host) && result.role.ToolResult?
    requires var h, messages := s.ops[o].host, Get(s, s.ops[o].host).messages + [result];
             && Get(s', h).messages == messages && Get(s', h).running && MessagesOk(messages, s'.nextId)
             && s'.ops == s.ops[o := AwaitChat(h, s.ops[o].provider)]
             && s'.requests == s.requests + [Request(h, ToMessageInputs(messages))]
    ensures Inv(s', s.ops[o].host)
  {
    var h := s.ops[o].host;
    InputsKeepPairing(Get(s', h).messages);
    UpdateKeepsInv(s, s', h, o, Some(AwaitChat(h, s.ops[o].provider)));
  }

  /** An await that leads to another: only the operation's own suspension point changes. */
  lemma MoveOnKeepsInv(s: State, o: OpId, op: Op)
    requires o in s.ops && op.host == s.ops[o].host && Inv(s, op.host) && OpOk(Get(s, op.host), op)
    ensures Inv(Suspend(s, o, op), op.host)
  {
  }

  lemma UserStepKeepsInv(s: State, step: Step)
    requires Enabled(s, step) && Permitted(s, step) && Inv(s, HostOf(s, step))
    requires step.SendUserMessage? || step.RunCommand? || step.ProposeAndRun? || step.SkipCommand?
    ensures Inv(Do(s, step), HostOf(s, step))
  {
    match step
    case SendUserMessage(o, h, provider, text) => SendKeepsInv(s, o, h, provider, text);
    case RunCommand(o, h, id, overrideDenylist, live) => RunCommandKeepsInv(s, o, h, id, overrideDenylist, live);
    case ProposeAndRun(o, h, toolCall, live) => ProposeKeepsInv(s, o, h, toolCall, live);
    case SkipCommand(h, messageId) => SkipKeepsInv(s, h, messageId);
  }

  /** Flags, and clearing while the host is quiet. */
  lemma FlagStepKeepsInv(s: State, step: Step)
    requires Enabled(s, step) && Inv(s, HostOf(s, step))
    requires step.SetMode? || step.Stop? || (step.ClearConversation? && Quiet(s, step.host))
    ensures Inv(Do(s, step), HostOf(s, step))
  {
  }

  lemma AwaitStepKeepsInv(s: State, step: Step)
    requires Enabled(s, step) && Inv(s, HostOf(s, step))
    requires !IsUserStep(step)
    ensures Inv(Do(s, step), HostOf(s, step))
  {
    var op := s.ops[step.op];
    if step.ExecDone? {
      ExecDoneKeepsInv(s, step.op, step.output);
    } else if step.CheckPasses? {
      MoveOnKeepsInv(s, step.op, AwaitWrite(op.host, op.messageId, op.toolCall));
    } else if step.VpnUp? {
      MoveOnKeepsInv(s, step.op, AwaitExec(op.host, op.messageId, op.toolCall, op.provider, op.overridden));
    } else if op.AwaitChat? {
      ChatStepKeepsInv(s, step);
    } else if op.AwaitCheck? || op.AwaitWrite? {
      TerminalStepKeepsInv(s, step);
    } else {
      ExecStepKeepsInv(s, step);
    }
  }

  /** Every await and every action the interface permits keeps each host's share in order, but for one: clearing that
      host's conversation while something of it is in flight. */
  lemma StepKeepsInv(s: State, step: Step, h: HostId)
    requires Inv(s, h) && Enabled(s, step) && Permitted(s, step)
    requires step == ClearConversation(h) ==> Quiet(s, h)
    ensures Inv(Do(s, step), h)
  {
    if HostOf(s, step) != h {
      OtherHostKeepsInv(s, step, h);
    } else if !IsUserStep(step) {
      AwaitStepKeepsInv(s, step);
    } else if step.SetMode? || step.Stop? || step.ClearConversation? {
      FlagStepKeepsInv(s, step);
    } else {
      UserStepKeepsInv(s, step);
    }
  }

  // ---------------------------------------------------------------- every run

  /** A run the interface permits, clears at any time included. */
  ghost predicate RunPermitted(s: State, steps: seq<Step>)
    decreases |steps|
  {
    steps == [] || (Enabled(s, steps[0]) && Permitted(s, steps[0]) && RunPermitted(Do(s, steps[0]), steps[1..]))
  }

  ghost function Run(s: State, steps: seq<Step>): State
    decreases |steps|
  {
    if steps == [] || !Enabled(s, steps[0]) then s else Run(Do(s, steps[0]), steps[1..])
  }

  /** Whenever the run clears this host's conversation, nothing of it is in flight. Other hosts' may be. */
  ghost predicate ClearsQuietly(s: State, steps: seq<Step>, h: HostId)
    decreases |steps|
  {
    steps == [] || !Enabled(s, steps[0])
    || ((steps[0] == ClearConversation(h) ==> Quiet(s, h)) && ClearsQuietly(Do(s, steps[0]), steps[1..], h))
  }

  lemma {:induction false} RunKeepsInv(s: State, steps: seq<Step>, h: HostId)
    requires Inv(s, h) && RunPermitted(s, steps) && ClearsQuietly(s, steps, h)
    ensures Inv(Run(s, steps), h)
    decreases |steps|
  {
    if steps != [] {
      StepKeepsInv(s, steps[0], h);
      RunKeepsInv(Do(s, steps[0]), steps[1..], h);
    }
  }

  /** Over every interleaving: the host's history is paired, what providers are sent of it is paired and resolved, at
      most one operation of it is in flight, and only while its conversation says so. */
  lemma HistoriesStayPaired(steps: seq<Step>, h: HostId)
    requires RunPermitted(INITIAL, steps) && ClearsQuietly(INITIAL, steps, h)
    ensures var s := Run(INITIAL, steps);
            && Paired(Get(s, h).messages)
            && (forall i :: 0 <= i < |s.requests| && s.requests[i].host == h ==> WirePaired(s.requests[i].inputs))
            && (forall o, o' :: o in s.ops && o' in s.ops && s.ops[o].host == h && s.ops[o'].host == h ==> o == o')
            && (forall o :: o in s.ops && s.ops[o].host == h ==> Get(s, h).running)
  {
    RunKeepsInv(INITIAL, steps, h);
  }

  // ---------------------------------------------------------------- the autonomous continuation

  /** The conversation says it is running although nothing of the host is in flight. */
  ghost predicate Wedged(s: State, h: HostId) { Get(s, h).running && Quiet(s, h) }

  /** When the provider proposes a command, the conversation is wedged exactly if it is in autonomous mode and
      Stop was not pressed: `runCommand` is called while `running` is still set, and its guard returns. */
  lemma ProposalWedgesIffAutonomous(s: State, o: OpId, toolCall: ToolCall, live: bool)
    requires o in s.ops && s.ops[o].AwaitChat? && Inv(s, s.ops[o].host)
    ensures var h := s.ops[o].host;
            Wedged(Do(s, ChatToolCall(o, toolCall, live)), h)
            <==> Get(s, h).mode.Autonomous? && !Get(s, h).stopRequested
  {
    assert OpOk(Get(s, s.ops[o].host), s.ops[o]);
  }

  /** Nothing but clearing the conversation gets it out: no step adds to it or lets it run again. */
  lemma WedgeIsStable(s: State, step: Step, h: HostId)
    requires Wedged(s, h) && Enabled(s, step) && Permitted(s, step) && step != ClearConversation(h)
    ensures Wedged(Do(s, step), h) && Get(Do(s, step), h).messages == Get(s, h).messages
  {
    if HostOf(s, step) != h {
      OtherHostUntouched(s, step, h);
    }
  }

  /** The provider proposes a command to this host in autonomous mode, and Stop was not pressed. */
  predicate ProposesAutonomously(s: State, step: Step, h: HostId)
    requires Enabled(s, step)
  {
    step.ChatToolCall? && s.ops[step.op].host == h && Get(s, h).mode.Autonomous? && !Get(s, h).stopRequested
  }

  lemma UserStepWedges(s: State, step: Step)
    requires Enabled(s, step) && Permitted(s, step) && IsUserStep(step)
    ensures var h := HostOf(s, step);
            Wedged(Do(s, step), h) <==> Wedged(s, h) && !step.ClearConversation?
  {
    var h, s' := HostOf(s, step), Do(s, step);
    if (step.SendUserMessage? || step.RunCommand? || step.ProposeAndRun?) && step.op in s'.ops {
      assert s'.ops[step.op].host == h && !Get(s, h).running;
    } else {
      assert s'.ops == s.ops;
    }
  }

  lemma AwaitStepWedges(s: State, step: Step)
    requires Enabled(s, step) && !IsUserStep(step) && Inv(s, HostOf(s, step))
    ensures var h := HostOf(s, step);
            !Wedged(s, h) && (Wedged(Do(s, step), h) <==> ProposesAutonomously(s, step, h))
  {
    var h, s' := HostOf(s, step), Do(s, step);
    assert OpOk(Get(s, h), s.ops[step.op]);
    if step.ChatToolCall? {
      ProposalWedgesIffAutonomous(s, step.op, step.toolCall, step.live);
    } else if step.op in s'.ops {
      assert s'.ops[step.op].host == h;
    } else {
      assert !Get(s', h).running;
    }
  }

  /** Over all steps: a conversation is wedged afterwards exactly if it was and is not cleared, or the provider has just
      proposed a command to it in autonomous mode. */
  lemma WedgedAfterIff(s: State, step: Step, h: HostId)
    requires Inv(s, h) && Enabled(s, step) && Permitted(s, step)
    ensures Wedged(Do(s, step), h)
       <==> (Wedged(s, h) && step != ClearConversation(h)) || ProposesAutonomously(s, step, h)
  {
    if HostOf(s, step) != h {
      OtherHostUntouched(s, step, h);
    } else if IsUserStep(step) {
      UserStepWedges(s, step);
    } else {
      AwaitStepWedges(s, step);
    }
  }

  lemma {:induction false} WedgeLastsUntilCleared(s: State, steps: seq<Step>, h: HostId)
    requires Wedged(s, h) && RunPermitted(s, steps) && ClearConversation(h) !in steps
    ensures Wedged(Run(s, steps), h) && Get(Run(s, steps), h).messages == Get(s, h).messages
    decreases |steps|
  {
    if steps != [] {
      WedgeIsStable(s, steps[0], h);
      WedgeLastsUntilCleared(Do(s, steps[0]), steps[1..], h);
    }
  }

  lemma Prepend(s: State, step: Step, rest: seq<Step>)
    requires Enabled(s, step) && Permitted(s, step) && RunPermitted(Do(s, step), rest)
    ensures RunPermitted(s, [step] + rest) && Run(s, [step] + rest) == Run(Do(s, step), rest)
  {
    assert ([step] + rest)[1..] == rest;
  }

  ghost predicate CanTake(s: State, step: Step) { Enabled(s, step) && Permitted(s, step) }

  lemma TakeOne(s: State, a: Step)
    requires CanTake(s, a)
    ensures RunPermitted(s, [a]) && Run(s, [a]) == Do(s, a)
  {
    Prepend(s, a, []);
    assert [a] + [] == [a];
  }

  lemma TakeTwo(s: State, a: Step, b: Step)
    requires CanTake(s, a) && CanTake(Do(s, a), b)
    ensures RunPermitted(s, [a, b]) && Run(s, [a, b]) == Do(Do(s, a), b)
  {
    TakeOne(Do(s, a), b);
    Prepend(s, a, [b]);
    assert [a] + [b] == [a, b];
  }

  lemma TakeThree(s: State, a: Step, b: Step, c: Step)
    requires CanTake(s, a) && CanTake(Do(s, a), b) && CanTake(Do(Do(s, a), b), c)
    ensures RunPermitted(s, [a, b, c]) && Run(s, [a, b, c]) == Do(Do(Do(s, a), b), c)
  {
    TakeTwo(Do(s, a), b, c);
    Prepend(s, a, [b, c]);
    assert [a] + [b, c] == [a, b, c];
  }

  /** It happens on the first proposal: pick autonomous mode, ask, and be answered with a command. */
  lemma WedgedRun(h: HostId, provider: Provider, text: string, toolCall: ToolCall, live: bool)
    ensures var steps :=
        [SetMode(h, Autonomous), SendUserMessage(0, h, provider, text), ChatToolCall(0, toolCall, live)];
            RunPermitted(INITIAL, steps) && Wedged(Run(INITIAL, steps), h)
  {
    var a, b, c := SetMode(h, Autonomous), SendUserMessage(0, h, provider, text), ChatToolCall(0, toolCall, live);
    var s1 := Do(INITIAL, a);
    var s2 := Do(s1, b);
    assert s2.ops == map[0 := AwaitChat(h, provider)];
    assert Get(s2, h).mode.Autonomous? && Get(s2, h).running && !Get(s2, h).stopRequested;
    var s3 := Do(s2, c);
    assert Get(s3, h).running && s3.ops == map[];
    TakeThree(INITIAL, a, b, c);
  }

  // ---------------------------------------------------------------- clearing in mid-flight

  lemma {:induction false} FreshOp(ids: set<OpId>) returns (q: OpId)
    ensures forall o :: o in ids ==> o < q
  {
    q := 0;
    if ids != {} {
      var o :| o in ids;
      var above := FreshOp(ids - {o});
      q := if above <= o then o + 1 else above;
      forall p | p in ids ensures p < q {
        if p != o { assert p in ids - {o}; }
      }
    }
  }

  /** A result that comes back to a cleared conversation follows no proposal. */
  lemma OrphanResult(s: State, step: Step)
    requires Enabled(s, step) && (step.ExecDone? || step.WriteDone?)
        && Get(s, s.ops[step.op].host) == EMPTY_CONVERSATION
    ensures !Paired(Get(Do(s, step), s.ops[step.op].host).messages)
    ensures RunPermitted(s, [step]) && Run(s, [step]) == Do(s, step)
  {
    var messages := Get(Do(s, step), s.ops[step.op].host).messages;
    assert messages == [messages[0]] && messages[0].role.ToolResult?;
    assert !PairedAt(messages, 0);
    TakeOne(s, step);
  }

  /** After a new question the two answers interleave: the old one proposes, the new one follows. */
  lemma TwoAnswers(s: State, o: OpId, q: OpId, h: HostId, toolCall: ToolCall, text: string)
    requires o in s.ops && q in s.ops && o != q && s.ops[o].AwaitChat? && s.ops[q].AwaitChat?
    requires s.ops[o].host == h && s.ops[q].host == h && Get(s, h).mode.Ask?
    ensures Enabled(Do(s, ChatToolCall(o, toolCall, false)), ChatText(q, text))
    ensures !Paired(Get(Do(Do(s, ChatToolCall(o, toolCall, false)), ChatText(q, text)), h).messages)
  {
    var s1 := Do(s, ChatToolCall(o, toolCall, false));
    assert s1.ops == s.ops - {o} && Get(s1, h).messages == Get(s, h).messages + [Proposal(s.nextId, toolCall)];
    var messages := Get(Do(s1, ChatText(q, text)), h).messages;
    assert messages == Get(s1, h).messages + [Reply(s1.nextId, text)];
    assert !PairedAt(messages, |messages| - 2);
  }

  /** The provider proposes to a conversation that was cleared and begun anew, and the new answer comes after it. */
  lemma OrphanProposal(s: State, o: OpId) returns (steps: seq<Step>)
    requires o in s.ops && s.ops[o].AwaitChat? && Get(s, s.ops[o].host) == EMPTY_CONVERSATION
    ensures RunPermitted(s, steps) && !Paired(Get(Run(s, steps), s.ops[o].host).messages)
    ensures forall k :: 0 <= k < |steps| ==> !steps[k].ClearConversation?
  {
    var h, toolCall := s.ops[o].host, ToolCall("uptime", "load");
    var q := FreshOp(s.ops.Keys);
    var a, b, c := SendUserMessage(q, h, OpenAi, "hello"), ChatToolCall(o, toolCall, false), ChatText(q, "hello");
    var s1 := Do(s, a);
    assert s1.ops == s.ops[q := AwaitChat(h, OpenAi)] && Get(s1, h).mode.Ask?;
    TwoAnswers(s1, o, q, h, toolCall, "hello");
    TakeThree(s, a, b, c);
    steps := [a, b, c];
  }

  lemma NoClearsQuietly(s: State, steps: seq<Step>, h: HostId)
    requires forall k :: 0 <= k < |steps| ==> !steps[k].ClearConversation?
    ensures ClearsQuietly(s, steps, h)
    decreases |steps|
  {
    if steps != [] && Enabled(s, steps[0]) {
      NoClearsQuietly(Do(s, steps[0]), steps[1..], h);
    }
  }

  /** Wherever the operation is suspended when its conversation is cleared, it can still come back and break the
      pairing, with nothing else cleared afterwards. */
  lemma ClearMidFlightBreaksPairing(s: State, o: OpId, output: ExecOutput) returns (steps: seq<Step>)
    requires o in s.ops
    ensures var h := s.ops[o].host;
            var cleared := Do(s, ClearConversation(h));
            && RunPermitted(cleared, steps) && ClearsQuietly(cleared, steps, h)
            && !Paired(Get(Run(cleared, steps), h).messages)
  {
    var h := s.ops[o].host;
    var cleared := Do(s, ClearConversation(h));
    match s.ops[o] {
      case AwaitChat(_, _) =>
        steps := OrphanProposal(cleared, o);
      case AwaitCheck(_, _, _) =>
        steps := [CheckPasses(o), WriteDone(o)];
        var next := Do(cleared, CheckPasses(o));
        OrphanResult(next, WriteDone(o));
        TakeTwo(cleared, CheckPasses(o), WriteDone(o));
      case AwaitWrite(_, _, _) =>
        steps := [WriteDone(o)];
        OrphanResult(cleared, WriteDone(o));
      case AwaitVpn(_, _, _, _, _) =>
        steps := [VpnUp(o), ExecDone(o, output)];
        var next := Do(cleared, VpnUp(o));
        OrphanResult(next, ExecDone(o, output));
        TakeTwo(cleared, VpnUp(o), ExecDone(o, output));
      case AwaitExec(_, _, _, _, _) =>
        steps := [ExecDone(o, output)];
        OrphanResult(cleared, ExecDone(o, output));
    }
    NoClearsQuietly(cleared, steps, h);
  }

  /** The pairing survives every continuation after a clear. */
  ghost predicate PairedEverAfter(s: State, h: HostId) {
    forall steps :: RunPermitted(s, steps) && ClearsQuietly(s, steps, h) ==> Paired(Get(Run(s, steps), h).messages)
  }

  /** Clearing a conversation is safe exactly when nothing of it is in flight. */
  lemma ClearIsSafeIffQuiet(s: State, h: HostId)
    requires Inv(s, h)
    ensures Quiet(s, h) <==> PairedEverAfter(Do(s, ClearConversation(h)), h)
  {
    var cleared := Do(s, ClearConversation(h));
    if Quiet(s, h) {
      FlagStepKeepsInv(s, ClearConversation(h));
      forall steps | RunPermitted(cleared, steps) && ClearsQuietly(cleared, steps, h)
        ensures Paired(Get(Run(cleared, steps), h).messages)
      {
        RunKeepsInv(cleared, steps, h);
      }
    } else {
      var o :| o in s.ops && s.ops[o].host == h;
      var steps := ClearMidFlightBreaksPairing(s, o, ExecOutput("", "", None, false));
    }
  }

  /** Ask, and be answered with a command: it is proposed, and nothing runs. */
  lemma AskedAndProposed(h: HostId, provider: Provider, text: string, toolCall: ToolCall) returns (s: State)
    ensures var ask, answer := SendUserMessage(0, h, provider, text), ChatToolCall(0, toolCall, false);
            RunPermitted(INITIAL, [ask, answer]) && Run(INITIAL, [ask, answer]) == s
    ensures s.ops == map[] && !Get(s, h).running && Get(s, h).provider == Some(provider)
    ensures Get(s, h).messages == [UserMessage(0, text), Proposal(1, toolCall)]
  {
    var ask, answer := SendUserMessage(0, h, provider, text), ChatToolCall(0, toolCall, false);
    var asked := Do(INITIAL, ask);
    assert asked.ops == map[0 := AwaitChat(h, provider)];
    s := Do(asked, answer);
    TakeTwo(INITIAL, ask, answer);
  }

  /** Run the command, and clear while it runs. */
  lemma RunThenCleared(s: State, h: HostId, provider: Provider, toolCall: ToolCall) returns (t: State)
    requires s.ops == map[] && !Get(s, h).running && Get(s, h).provider == Some(provider)
    requires |Get(s, h).messages| == 2 && Get(s, h).messages[0].id == 0
        && Get(s, h).messages[1] == Proposal(1, toolCall)
    ensures var steps := [RunCommand(0, h, 1, false, false), VpnUp(0), ClearConversation(h)];
            RunPermitted(s, steps) && Run(s, steps) == t
    ensures t.ops == map[0 := AwaitExec(h, 1, toolCall, provider, false)] && Get(t, h) == EMPTY_CONVERSATION
  {
    var run, up, clear := RunCommand(0, h, 1, false, false), VpnUp(0), ClearConversation(h);
    FindUnique(Get(s, h).messages, 1);
    var s1 := Do(s, run);
    assert s1.ops == map[0 := AwaitVpn(h, 1, toolCall, provider, false)] && Get(s1, h).messages == Get(s, h).messages;
    var s2 := Do(s1, up);
    assert s2.ops == map[0 := AwaitExec(h, 1, toolCall, provider, false)] && Get(s2, h).messages == Get(s, h).messages;
    t := Do(s2, clear);
    TakeThree(s, run, up, clear);
  }

  lemma {:induction false} Concatenate(s: State, first: seq<Step>, rest: seq<Step>)
    requires RunPermitted(s, first) && RunPermitted(Run(s, first), rest)
    ensures RunPermitted(s, first + rest) && Run(s, first + rest) == Run(Run(s, first), rest)
    decreases |first|
  {
    var all := first + rest;
    if first == [] {
      assert all == rest;
    } else {
      assert all[0] == first[0] && all[1..] == first[1..] + rest;
      Concatenate(Do(s, first[0]), first[1..], rest);
    }
  }

  /** A run the interface permits, from the start, in which it happens: ask, be answered with a command, run it, clear
      while it runs, and see its result come back alone. */
  lemma ClearMidFlightRun(h: HostId, provider: Provider, text: string, toolCall: ToolCall, output: ExecOutput)
    ensures var steps := [SendUserMessage(0, h, provider, text), ChatToolCall(0, toolCall, false)]
                       + [RunCommand(0, h, 1, false, false), VpnUp(0), ClearConversation(h)]
                       + [ExecDone(0, output)];
            RunPermitted(INITIAL, steps) && !Paired(Get(Run(INITIAL, steps), h).messages)
  {
    var proposing := [SendUserMessage(0, h, provider, text), ChatToolCall(0, toolCall, false)];
    var clearing := [RunCommand(0, h, 1, false, false), VpnUp(0), ClearConversation(h)];
    var proposed := AskedAndProposed(h, provider, text, toolCall);
    var cleared := RunThenCleared(proposed, h, provider, toolCall);
    OrphanResult(cleared, ExecDone(0, output));
    Concatenate(INITIAL, proposing, clearing);
    Concatenate(INITIAL, proposing + clearing, [ExecDone(0, output)]);
  }
}
