/** Collecting a remote command's output, without and with a cap (src-tauri/src/ssh/exec.rs:32-130). The channel is
    the sequence of messages it will deliver; its end is the channel being dropped. Bytes are kept as bytes. */
module ExecOutput {
  import opened Wrappers

  type Byte = b: int | 0 <= b < 256

  datatype ChannelMsg =
    | Data(data: seq<Byte>)
    | ExtendedData(data: seq<Byte>, ext: nat)
    | ExitStatus(code: nat)
    | Close
    | OtherMsg

  datatype Output = Output(stdout: seq<Byte>, stderr: seq<Byte>, exitStatus: Option<nat>, truncated: bool)

  // ---------------------------------------------------------------- what a stream of messages carries

  datatype Buffers = Buffers(stdout: seq<Byte>, stderr: seq<Byte>, exitStatus: Option<nat>)

  /** Only extended data of type 1 is stderr; of several exit statuses the last counts. */
  function Received(b: Buffers, msg: ChannelMsg): Buffers {
    match msg
    case Data(data) => b.(stdout := b.stdout + data)
    case ExtendedData(data, ext) => if ext == 1 then b.(stderr := b.stderr + data) else b
    case ExitStatus(code) => b.(exitStatus := Some(code))
    case _ => b
  }

  function Collected(msgs: seq<ChannelMsg>): Buffers {
    if msgs == [] then Buffers([], [], None) else Received(Collected(msgs[..|msgs| - 1]), msgs[|msgs| - 1])
  }

  function ByteCount(msgs: seq<ChannelMsg>): nat { |Collected(msgs).stdout| + |Collected(msgs).stderr| }

  /** The messages before the first Close, or all of them. */
  function UntilClose(msgs: seq<ChannelMsg>): (r: seq<ChannelMsg>)
    ensures r <= msgs && forall k :: 0 <= k < |r| ==> !r[k].Close?
    ensures |r| < |msgs| ==> msgs[|r|].Close?
  {
    if msgs == [] || msgs[0].Close? then []
    else
      assert msgs == [msgs[0]] + msgs[1..];
      [msgs[0]] + UntilClose(msgs[1..])
  }

  lemma UntilCloseIsUnique(msgs: seq<ChannelMsg>, n: nat)
    requires n <= |msgs| && forall k :: 0 <= k < n ==> !msgs[k].Close?
    requires n < |msgs| ==> msgs[n].Close?
    ensures UntilClose(msgs) == msgs[..n]
  {
    var r := UntilClose(msgs);
    assert r == msgs[..|r|];
    assert |r| >= n;
    assert |r| <= n;
  }

  lemma {:induction false} PartsOfMore(msgs: seq<ChannelMsg>, n: nat)
    requires n <= |msgs|
    ensures Collected(msgs[..n]).stdout <= Collected(msgs).stdout
        && Collected(msgs[..n]).stderr <= Collected(msgs).stderr
  {
    if n < |msgs| {
      PartsOfMore(msgs[..|msgs| - 1], n);
      assert msgs[..|msgs| - 1][..n] == msgs[..n];
    } else {
      assert msgs[..n] == msgs;
    }
  }

  lemma OneMore(msgs: seq<ChannelMsg>, i: nat)
    requires i < |msgs|
    ensures Collected(msgs[..i + 1]) == Received(Collected(msgs[..i]), msgs[i])
  {
    assert msgs[..i + 1][..i] == msgs[..i];
  }

  /** The payloads of the Data messages, one after another. */
  function DataBytes(msgs: seq<ChannelMsg>): seq<Byte> {
    if msgs == [] then [] else (if msgs[0].Data? then msgs[0].data else []) + DataBytes(msgs[1..])
  }

  /** The payloads of the extended data of type 1. */
  function ErrorBytes(msgs: seq<ChannelMsg>): seq<Byte> {
    if msgs == [] then []
    else (if msgs[0].ExtendedData? && msgs[0].ext == 1 then msgs[0].data else []) + ErrorBytes(msgs[1..])
  }

  lemma Regroup(first: seq<Byte>, rest: seq<Byte>, last: seq<Byte>)
    ensures first + (rest + last) == first + rest + last
  {
  }

  lemma {:induction false} DataBytesAppend(msgs: seq<ChannelMsg>, last: ChannelMsg)
    ensures DataBytes(msgs + [last]) == DataBytes(msgs) + (if last.Data? then last.data else [])
  {
    if msgs == [] {
      assert [] + [last] == [last] && [last][1..] == [];
    } else {
      DataBytesAppend(msgs[1..], last);
      assert (msgs + [last])[1..] == msgs[1..] + [last];
      Regroup(if msgs[0].Data? then msgs[0].data else [], DataBytes(msgs[1..]), if last.Data? then last.data else []);
    }
  }

  lemma {:induction false} ErrorBytesAppend(msgs: seq<ChannelMsg>, last: ChannelMsg)
    ensures ErrorBytes(msgs + [last])
         == ErrorBytes(msgs) + (if last.ExtendedData? && last.ext == 1 then last.data else [])
  {
    if msgs == [] {
      assert [] + [last] == [last] && [last][1..] == [];
    } else {
      ErrorBytesAppend(msgs[1..], last);
      assert (msgs + [last])[1..] == msgs[1..] + [last];
      Regroup(if msgs[0].ExtendedData? && msgs[0].ext == 1 then msgs[0].data else [], ErrorBytes(msgs[1..]),
              if last.ExtendedData? && last.ext == 1 then last.data else []);
    }
  }

  /** The status is that of the last message that carries one. */
  ghost predicate LastStatus(msgs: seq<ChannelMsg>, status: Option<nat>) {
    if status.None? then forall k :: 0 <= k < |msgs| ==> !msgs[k].ExitStatus?
    else exists k :: 0 <= k < |msgs| && msgs[k] == ExitStatus(status.value)
                     && forall j :: k < j < |msgs| ==> !msgs[j].ExitStatus?
  }

  lemma LastStatusGrows(msgs: seq<ChannelMsg>, last: ChannelMsg, status: Option<nat>)
    requires LastStatus(msgs, status)
    ensures LastStatus(msgs + [last], if last.ExitStatus? then Some(last.code) else status)
  {
    var all := msgs + [last];
    if last.ExitStatus? {
      assert all[|msgs|] == ExitStatus(last.code);
    } else if status.Some? {
      var k :| 0 <= k < |msgs| && msgs[k] == ExitStatus(status.value)
               && forall j :: k < j < |msgs| ==> !msgs[j].ExitStatus?;
      assert all[k] == ExitStatus(status.value);
    }
  }

  /** What a stream carries: all data on standard output, extended data of type 1 on standard error, each in order, and
      the last exit status. */
  lemma {:induction false} CollectedIs(msgs: seq<ChannelMsg>)
    ensures Collected(msgs).stdout == DataBytes(msgs) && Collected(msgs).stderr == ErrorBytes(msgs)
    ensures LastStatus(msgs, Collected(msgs).exitStatus)
  {
    if msgs != [] {
      var front, last := msgs[..|msgs| - 1], msgs[|msgs| - 1];
      CollectedIs(front);
      DataBytesAppend(front, last);
      ErrorBytesAppend(front, last);
      LastStatusGrows(front, last, Collected(front).exitStatus);
      assert msgs == front + [last];
    }
  }

  function PlainOutput(b: Buffers): Output { Output(b.stdout, b.stderr, b.exitStatus, false) }

  // ---------------------------------------------------------------- the plain reader

  method Run(msgs: seq<ChannelMsg>) returns (r: Output)
    ensures r == PlainOutput(Collected(UntilClose(msgs)))
  {
    var stdout, stderr, exitStatus := [], [], None;
    var i := 0;
    while i < |msgs| && !msgs[i].Close?
      invariant 0 <= i <= |msgs| && forall k :: 0 <= k < i ==> !msgs[k].Close?
      invariant Buffers(stdout, stderr, exitStatus) == Collected(msgs[..i])
    {
      OneMore(msgs, i);
      match msgs[i] {
        case Data(data) => stdout := stdout + data;
        case ExtendedData(data, ext) => if ext == 1 { stderr := stderr + data; }
        case ExitStatus(code) => exitStatus := Some(code);
        case _ =>
      }
      i := i + 1;
    }
    UntilCloseIsUnique(msgs, i);
    r := Output(stdout, stderr, exitStatus, false);
  }

  // ---------------------------------------------------------------- the capped reader

  /** How many messages are read before the byte count reaches the cap, or all of them. */
  function CutPoint(msgs: seq<ChannelMsg>, maxBytes: nat): (n: nat)
    ensures n <= |msgs|
    ensures ByteCount(msgs) < maxBytes ==> n == |msgs|
    ensures ByteCount(msgs) >= maxBytes ==> ByteCount(msgs[..n]) >= maxBytes
    ensures forall k :: 0 <= k < n ==> ByteCount(msgs[..k]) < maxBytes
  {
    if ByteCount(msgs) < maxBytes then
      CountGrows(msgs);
      |msgs|
    else if msgs == [] || ByteCount(msgs[..|msgs| - 1]) < maxBytes then
      assert msgs[..|msgs|] == msgs;
      if msgs != [] then (CountGrowsTo(msgs); |msgs|) else 0
    else
      var front := msgs[..|msgs| - 1];
      assert forall k :: 0 <= k <= |front| ==> front[..k] == msgs[..k];
      CutPoint(front, maxBytes)
  }

  lemma CountGrows(msgs: seq<ChannelMsg>)
    ensures forall k :: 0 <= k <= |msgs| ==> ByteCount(msgs[..k]) <= ByteCount(msgs)
  {
    forall k | 0 <= k <= |msgs| ensures ByteCount(msgs[..k]) <= ByteCount(msgs) { PartsOfMore(msgs, k); }
  }

  lemma CountGrowsTo(msgs: seq<ChannelMsg>)
    requires msgs != []
    ensures forall k :: 0 <= k < |msgs| ==> ByteCount(msgs[..k]) <= ByteCount(msgs[..|msgs| - 1])
  {
    var front := msgs[..|msgs| - 1];
    CountGrows(front);
    forall k | 0 <= k < |msgs| ensures ByteCount(msgs[..k]) <= ByteCount(front) { assert front[..k] == msgs[..k]; }
  }

  function Take(s: seq<Byte>, n: nat): seq<Byte> { if |s| > n then s[..n] else s }

  /** The capped reader's result. */
  function Capped(msgs: seq<ChannelMsg>, maxBytes: nat): Output {
    var all := UntilClose(msgs);
    var read := all[..CutPoint(all, maxBytes)];
    var b := Collected(read);
    Output(Take(b.stdout, maxBytes), Take(b.stderr, maxBytes), b.exitStatus, ByteCount(all) >= maxBytes)
  }

  /** Nothing before the i-th message ends the loop. */
  ghost predicate StillReading(msgs: seq<ChannelMsg>, maxBytes: nat, i: nat)
    requires i <= |msgs|
  {
    forall k :: 0 <= k < i ==> !msgs[k].Close? && ByteCount(msgs[..k]) < maxBytes
  }

  method RunCapped(msgs: seq<ChannelMsg>, maxBytes: nat) returns (r: Output)
    ensures r == Capped(msgs, maxBytes)
  {
    var stdout, stderr, exitStatus, truncated := [], [], None, false;
    var i := 0;
    while true
      invariant 0 <= i <= |msgs| && !truncated && StillReading(msgs, maxBytes, i)
      invariant Buffers(stdout, stderr, exitStatus) == Collected(msgs[..i])
      decreases |msgs| - i
    {
      if |stdout| + |stderr| >= maxBytes {
        truncated := true;
        break;
      }
      if i == |msgs| || msgs[i].Close? {
        break;
      }
      OneMore(msgs, i);
      match msgs[i] {
        case Data(data) => stdout := stdout + data;
        case ExtendedData(data, ext) => if ext == 1 { stderr := stderr + data; }
        case ExitStatus(code) => exitStatus := Some(code);
        case _ =>
      }
      i := i + 1;
    }
    StoppedAt(msgs, maxBytes, i);
    if |stdout| > maxBytes {
      stdout := stdout[..maxBytes];
      truncated := true;
    }
    if |stderr| > maxBytes {
      stderr := stderr[..maxBytes];
      truncated := true;
    }
    r := Output(stdout, stderr, exitStatus, truncated);
  }

  /** Where the loop stops is the cut point, and the count there says whether the whole stream reaches the cap. */
  lemma StoppedAt(msgs: seq<ChannelMsg>, maxBytes: nat, i: nat)
    requires i <= |msgs| && StillReading(msgs, maxBytes, i)
    requires ByteCount(msgs[..i]) >= maxBytes || i == |msgs| || msgs[i].Close?
    ensures var all := UntilClose(msgs); i <= |all| && CutPoint(all, maxBytes) == i && all[..i] == msgs[..i]
    ensures ByteCount(UntilClose(msgs)) >= maxBytes <==> ByteCount(msgs[..i]) >= maxBytes
  {
    var all := UntilClose(msgs);
    assert all == msgs[..|all|];
    assert |all| >= i;
    assert all[..i] == msgs[..i];
    if ByteCount(msgs[..i]) < maxBytes {
      UntilCloseIsUnique(msgs, i);
      assert all[..i] == all;
    } else {
      PartsOfMore(all, i);
      forall k | 0 <= k < i ensures ByteCount(all[..k]) < maxBytes { assert all[..k] == msgs[..k]; }
      CutPointIs(all, maxBytes, i);
    }
  }

  lemma CutPointIs(msgs: seq<ChannelMsg>, maxBytes: nat, i: nat)
    requires i <= |msgs| && ByteCount(msgs) >= maxBytes && ByteCount(msgs[..i]) >= maxBytes
    requires forall k :: 0 <= k < i ==> ByteCount(msgs[..k]) < maxBytes
    ensures CutPoint(msgs, maxBytes) == i
  {
    var n := CutPoint(msgs, maxBytes);
    assert n >= i;
    assert n <= i;
  }

  // ---------------------------------------------------------------- what the cap guarantees

  /** Below the cap the capped reader is the plain one; at the cap or above it says so. */
  lemma CappedRefinesPlain(msgs: seq<ChannelMsg>, maxBytes: nat)
    ensures var all := UntilClose(msgs);
      && (Capped(msgs, maxBytes).truncated <==> ByteCount(all) >= maxBytes)
      && (ByteCount(all) < maxBytes ==> Capped(msgs, maxBytes) == PlainOutput(Collected(all)))
  {
    var all := UntilClose(msgs);
    assert all[..|all|] == all;
  }

  /** Each stream is cut, never reordered or mixed, and together they stay below twice the cap. */
  lemma CappedIsPrefix(msgs: seq<ChannelMsg>, maxBytes: nat)
    ensures var r, all := Capped(msgs, maxBytes), UntilClose(msgs);
      && r.stdout <= Collected(all).stdout && r.stderr <= Collected(all).stderr
      && |r.stdout| <= maxBytes && |r.stderr| <= maxBytes
      && (maxBytes > 0 ==> |r.stdout| + |r.stderr| <= 2 * maxBytes - 1)
      && (r.truncated ==> |r.stdout| + |r.stderr| >= maxBytes)
  {
    var all := UntilClose(msgs);
    PartsOfMore(all, CutPoint(all, maxBytes));
    LastMessageFeedsOneStream(all, CutPoint(all, maxBytes), maxBytes);
  }

  /** What is cut off a stream is only what goes beyond the cap in the message that reached it, and the status is the
      last one read by then. */
  lemma CappedKeepsWhatFits(msgs: seq<ChannelMsg>, maxBytes: nat)
    ensures var r, all := Capped(msgs, maxBytes), UntilClose(msgs);
            var read := all[..CutPoint(all, maxBytes)];
            && r.stdout <= DataBytes(read) && (r.stdout == DataBytes(read) || |r.stdout| == maxBytes)
            && r.stderr <= ErrorBytes(read) && (r.stderr == ErrorBytes(read) || |r.stderr| == maxBytes)
            && |r.stdout| <= maxBytes && |r.stderr| <= maxBytes
            && LastStatus(read, r.exitStatus)
  {
    var all := UntilClose(msgs);
    CollectedIs(all[..CutPoint(all, maxBytes)]);
  }

  /** Before the message that reached the cap both streams together were below it, and that message adds to one. */
  lemma LastMessageFeedsOneStream(msgs: seq<ChannelMsg>, n: nat, maxBytes: nat)
    requires n <= |msgs| && (n > 0 ==> ByteCount(msgs[..n - 1]) < maxBytes)
    ensures |Collected(msgs[..n]).stdout| < maxBytes || |Collected(msgs[..n]).stderr| < maxBytes || maxBytes == 0
  {
    if n > 0 {
      OneMore(msgs, n - 1);
    }
  }

  /** When both streams together keep to the cap: exactly if what was read up to the cut point does, or came on one
      stream only. */
  lemma CombinedWithinCapIff(msgs: seq<ChannelMsg>, maxBytes: nat)
    requires maxBytes > 0
    ensures var r, all := Capped(msgs, maxBytes), UntilClose(msgs);
            var b := Collected(all[..CutPoint(all, maxBytes)]);
            |r.stdout| + |r.stderr| <= maxBytes
            <==> |b.stdout| + |b.stderr| <= maxBytes || b.stdout == [] || b.stderr == []
  {
    var all := UntilClose(msgs);
    LastMessageFeedsOneStream(all, CutPoint(all, maxBytes), maxBytes);
  }

  function Zeros(n: nat): (s: seq<Byte>)
    ensures |s| == n
  {
    seq(n, _ => 0)
  }

  /** The cap is on each stream: what comes back can be almost twice the cap, for every cap. */
  lemma CapIsPerStream(maxBytes: nat)
    requires maxBytes > 0
    ensures var msgs := [Data(Zeros(maxBytes - 1)), ExtendedData(Zeros(maxBytes), 1)];
      |Capped(msgs, maxBytes).stdout| + |Capped(msgs, maxBytes).stderr| == 2 * maxBytes - 1
  {
    var first, second := Data(Zeros(maxBytes - 1)), ExtendedData(Zeros(maxBytes), 1);
    var msgs := [first, second];
    UntilCloseIsUnique(msgs, 2);
    assert msgs[..0] == [] && msgs[..2] == msgs;
    OneMore(msgs, 0);
    OneMore(msgs, 1);
    assert Collected(msgs) == Buffers(Zeros(maxBytes - 1), Zeros(maxBytes), None);
    var n := CutPoint(msgs, maxBytes);
    assert n != 0 && n != 1;
  }
}
