/** Command history of src/state/commandHistoryStore.ts: ranking a server's shell history, and the capped list
    of commands run per host. */
module CommandHistory {
  import opened StableSort
  import opened Wrappers

  datatype RemoteHistoryRank = RemoteHistoryRank(command: string, count: nat)

  // ---------------------------------------------------------------- what a ranking is

  function Occurrences(commands: seq<string>, command: string): nat { multiset(commands)[command] }

  /** Where the command stands last; -1 if nowhere. */
  function LastIndex(commands: seq<string>, command: string): int
    ensures -1 <= LastIndex(commands, command) < |commands|
    ensures LastIndex(commands, command) >= 0 <==> command in commands
    ensures LastIndex(commands, command) >= 0 ==> commands[LastIndex(commands, command)] == command
  {
    if commands == [] then -1
    else if commands[|commands| - 1] == command then |commands| - 1
    else LastIndex(commands[..|commands| - 1], command)
  }

  /** It is nowhere further on. */
  lemma {:induction false} LastIndexIsLast(commands: seq<string>, command: string)
    ensures forall j :: LastIndex(commands, command) < j < |commands| ==> commands[j] != command
  {
    if commands != [] && commands[|commands| - 1] != command {
      LastIndexIsLast(commands[..|commands| - 1], command);
    }
  }

  /** More frequent, or as frequent and seen closer to the end. */
  predicate Better(commands: seq<string>, c: string, d: string) {
    || Occurrences(commands, c) > Occurrences(commands, d)
    || (Occurrences(commands, c) == Occurrences(commands, d) && LastIndex(commands, c) > LastIndex(commands, d))
  }

  ghost function Distinct(commands: seq<string>): set<string> { set c | c in commands }

  ghost function Ranked(ranks: seq<RemoteHistoryRank>): set<string> { set r | r in ranks :: r.command }

  /** The best `limit` commands, best first, each with its true count. */
  ghost predicate IsRanking(commands: seq<string>, limit: nat, ranks: seq<RemoteHistoryRank>) {
    && |ranks| == (if limit < |Distinct(commands)| then limit else |Distinct(commands)|)
    && (forall i :: 0 <= i < |ranks| ==>
          ranks[i].command in commands && ranks[i].count == Occurrences(commands, ranks[i].command))
    && (forall i, j :: 0 <= i < j < |ranks| ==> Better(commands, ranks[i].command, ranks[j].command))
    && forall i, c :: 0 <= i < |ranks| && c in commands && c !in Ranked(ranks) ==> Better(commands, ranks[i].command, c)
  }

  lemma BetterIsTotal(commands: seq<string>, c: string, d: string)
    requires c in commands && d in commands && c != d
    ensures Better(commands, c, d) <==> !Better(commands, d, c)
  {
  }

  lemma {:induction false} RankingAgreesUpTo(
    commands: seq<string>, limit: nat, r: seq<RemoteHistoryRank>, s: seq<RemoteHistoryRank>, n: nat)
    requires IsRanking(commands, limit, r) && IsRanking(commands, limit, s) && n <= |r|
    ensures r[..n] == s[..n]
  {
    if n > 0 {
      var i := n - 1;
      RankingAgreesUpTo(commands, limit, r, s, i);
      var c, d := r[i].command, s[i].command;
      if c != d {
        BetterIsTotal(commands, c, d);
        if Better(commands, c, d) {
          NotOvertaken(commands, limit, r, s, i);
        } else {
          NotOvertaken(commands, limit, s, r, i);
        }
      }
    }
  }

  lemma SamePrefix<T>(r: seq<T>, s: seq<T>, i: nat, j: nat)
    requires j < i <= |r| && i <= |s| && r[..i] == s[..i]
    ensures r[j] == s[j]
  {
    assert r[j] == r[..i][j] && s[j] == s[..i][j];
  }

  lemma NotOvertaken(commands: seq<string>, limit: nat, r: seq<RemoteHistoryRank>, s: seq<RemoteHistoryRank>, i: nat)
    requires IsRanking(commands, limit, r) && IsRanking(commands, limit, s)
    requires i < |r| && r[..i] == s[..i]
    ensures !Better(commands, r[i].command, s[i].command)
  {
    var c := r[i].command;
    if c in Ranked(s) {
      var j :| 0 <= j < |s| && s[j].command == c;
      if j < i {
        SamePrefix(r, s, i, j);
      }
      assert i < j ==> Better(commands, s[i].command, c);
    } else {
      assert Better(commands, s[i].command, c);
    }
  }

  /** There is only one ranking: the order leaves no choice. */
  lemma RankingIsUnique(commands: seq<string>, limit: nat, r: seq<RemoteHistoryRank>, s: seq<RemoteHistoryRank>)
    requires IsRanking(commands, limit, r) && IsRanking(commands, limit, s)
    ensures r == s
  {
    RankingAgreesUpTo(commands, limit, r, s, |r|);
    assert r[..|r|] == r && s[..|s|] == s;
  }

  // ---------------------------------------------------------------- rankRemoteHistory

  function Lookup(m: map<string, int>, key: string): int { if key in m then m[key] else 0 }

  function RankOrder(lastIndex: map<string, int>): Comparator<RemoteHistoryRank> {
    (a: RemoteHistoryRank, b: RemoteHistoryRank) =>
      if b.count != a.count then b.count - a.count else Lookup(lastIndex, b.command) - Lookup(lastIndex, a.command)
  }

  lemma OneMore(before: seq<string>, command: string, c: string)
    ensures Occurrences(before + [command], c) == Occurrences(before, c) + (if c == command then 1 else 0)
    ensures LastIndex(before + [command], c) == if c == command then |before| else LastIndex(before, c)
  {
    assert (before + [command])[..|before|] == before;
  }

  lemma OneMoreDistinct(before: seq<string>, command: string)
    ensures Distinct(before + [command]) == Distinct(before) + {command}
  {
  }

  /** The maps after a prefix of the history; `keys` is the insertion order of the map of counts. */
  ghost predicate Tallied(
    commands: seq<string>, counts: map<string, nat>, lastIndex: map<string, int>, keys: seq<string>)
  {
    && Distinct(keys) == counts.Keys == lastIndex.Keys == Distinct(commands)
    && (forall c :: c in counts ==> counts[c] == Occurrences(commands, c))
    && (forall c :: c in lastIndex ==> lastIndex[c] == LastIndex(commands, c))
    && NoRepeats(keys)
  }

  lemma TallyKeys(before: seq<string>, command: string, keys: seq<string>)
    requires Distinct(keys) == Distinct(before) && NoRepeats(keys)
    ensures var keys' := if command in Distinct(before) then keys else keys + [command];
            Distinct(keys') == Distinct(before + [command]) && NoRepeats(keys')
  {
    OneMoreDistinct(before, command);
    OneMoreDistinct(keys, command);
    if command !in Distinct(before) { assert command !in keys; }
  }

  lemma TallyOne(
    before: seq<string>, command: string, counts: map<string, nat>, lastIndex: map<string, int>, keys: seq<string>,
    counts': map<string, nat>, lastIndex': map<string, int>, keys': seq<string>)
    requires Tallied(before, counts, lastIndex, keys)
    requires counts' == counts[command := (if command in counts then counts[command] else 0) + 1]
    requires lastIndex' == lastIndex[command := |before|]
    requires keys' == if command in counts then keys else keys + [command]
    ensures Tallied(before + [command], counts', lastIndex', keys')
  {
    TallyKeys(before, command, keys);
    TallyCounts(before, command, counts, counts');
    TallyIndex(before, command, lastIndex, lastIndex');
  }

  lemma TallyCounts(before: seq<string>, command: string, counts: map<string, nat>, counts': map<string, nat>)
    requires counts.Keys == Distinct(before) && forall c :: c in counts ==> counts[c] == Occurrences(before, c)
    requires counts' == counts[command := (if command in counts then counts[command] else 0) + 1]
    ensures counts'.Keys == Distinct(before + [command])
    ensures forall c :: c in counts' ==> counts'[c] == Occurrences(before + [command], c)
  {
    OneMoreDistinct(before, command);
    forall c | c in counts' ensures counts'[c] == Occurrences(before + [command], c) {
      OneMore(before, command, c);
      assert c !in counts ==> c !in Distinct(before);
    }
  }

  lemma TallyIndex(before: seq<string>, command: string, lastIndex: map<string, int>, lastIndex': map<string, int>)
    requires forall c :: c in lastIndex ==> lastIndex[c] == LastIndex(before, c)
    requires lastIndex' == lastIndex[command := |before|]
    ensures lastIndex.Keys == Distinct(before) ==> lastIndex'.Keys == Distinct(before + [command])
    ensures forall c :: c in lastIndex' ==> lastIndex'[c] == LastIndex(before + [command], c)
  {
    OneMoreDistinct(before, command);
    forall c | c in lastIndex' ensures lastIndex'[c] == LastIndex(before + [command], c) {
      OneMore(before, command, c);
    }
  }

  lemma KeysAreCounted(commands: seq<string>, counts: map<string, nat>, lastIndex: map<string, int>, keys: seq<string>)
    requires Tallied(commands, counts, lastIndex, keys)
    ensures forall i :: 0 <= i < |keys| ==> keys[i] in counts && counts[keys[i]] == Occurrences(commands, keys[i])
    ensures NoRepeats(keys) && Distinct(keys) == Distinct(commands) == lastIndex.Keys
    ensures forall c :: c in lastIndex ==> lastIndex[c] == LastIndex(commands, c)
  {
    forall i | 0 <= i < |keys| ensures keys[i] in counts {
      assert keys[i] in Distinct(keys);
    }
  }

  method RankRemoteHistory(commands: seq<string>, limit: nat) returns (ranks: seq<RemoteHistoryRank>)
    ensures IsRanking(commands, limit, ranks)
  {
    var lastIndex: map<string, int>, counts: map<string, nat>, keys: seq<string> := map[], map[], [];
    for i := 0 to |commands|
      invariant Tallied(commands[..i], counts, lastIndex, keys)
    {
      var command := commands[i];
      ghost var counts', lastIndex', keys' := counts, lastIndex, keys;
      if command !in counts { keys := keys + [command]; }
      counts := counts[command := (if command in counts then counts[command] else 0) + 1];
      lastIndex := lastIndex[command := i];
      TallyOne(commands[..i], command, counts', lastIndex', keys', counts, lastIndex, keys);
      assert commands[..i + 1] == commands[..i] + [command];
    }
    assert commands[..|commands|] == commands;
    KeysAreCounted(commands, counts, lastIndex, keys);
    var entries :=
      seq(|keys|, i requires 0 <= i < |keys| && keys[i] in counts => RemoteHistoryRank(keys[i], counts[keys[i]]));
    EntriesRank(commands, limit, keys, lastIndex, entries);
    var sorted := Sort(entries, RankOrder(lastIndex));
    ranks := if limit < |sorted| then sorted[..limit] else sorted;
  }

  /** One entry per distinct command, with its true count. */
  ghost predicate Entries(commands: seq<string>, keys: seq<string>, entries: seq<RemoteHistoryRank>) {
    && NoRepeats(keys) && Distinct(keys) == Distinct(commands) && |entries| == |keys|
    && forall i :: 0 <= i < |keys| ==> entries[i] == RemoteHistoryRank(keys[i], Occurrences(commands, keys[i]))
  }

  /** Whatever is among the entries is a command of the history with its count. */
  lemma EntryIsCounted(commands: seq<string>, keys: seq<string>, entries: seq<RemoteHistoryRank>, e: RemoteHistoryRank)
    requires Entries(commands, keys, entries) && e in entries
    ensures e.command in commands && e.count == Occurrences(commands, e.command)
  {
    var k :| 0 <= k < |entries| && entries[k] == e;
    assert keys[k] in Distinct(keys);
  }

  lemma OrderIsBetter(
    commands: seq<string>, lastIndex: map<string, int>, d: RemoteHistoryRank, e: RemoteHistoryRank)
    requires lastIndex.Keys == Distinct(commands)
        && forall c :: c in lastIndex ==> lastIndex[c] == LastIndex(commands, c)
    requires d.command in commands && d.count == Occurrences(commands, d.command)
    requires e.command in commands && e.count == Occurrences(commands, e.command)
    requires d.command != e.command && RankOrder(lastIndex)(d, e) <= 0
    ensures Better(commands, d.command, e.command)
  {
    assert d.command in lastIndex && e.command in lastIndex;
    BetterIsTotal(commands, d.command, e.command);
  }

  lemma SortedEntriesInOrder(
    commands: seq<string>, keys: seq<string>, lastIndex: map<string, int>, entries: seq<RemoteHistoryRank>)
    requires Entries(commands, keys, entries) && lastIndex.Keys == Distinct(commands)
    requires forall c :: c in lastIndex ==> lastIndex[c] == LastIndex(commands, c)
    ensures var sorted := Sort(entries, RankOrder(lastIndex));
            && (forall i :: 0 <= i < |sorted| ==>
                  sorted[i].command in commands && sorted[i].count == Occurrences(commands, sorted[i].command))
            && forall i, j :: 0 <= i < j < |sorted| ==> Better(commands, sorted[i].command, sorted[j].command)
  {
    var cmp := RankOrder(lastIndex);
    var sorted := Sort(entries, cmp);
    SortMembers(entries, cmp);
    SortSorts(entries, cmp, set e | e in entries);
    SortedIsDistinct(keys, entries, sorted);
    forall i | 0 <= i < |sorted|
      ensures sorted[i].command in commands && sorted[i].count == Occurrences(commands, sorted[i].command)
    {
      assert sorted[i] in entries;
      EntryIsCounted(commands, keys, entries, sorted[i]);
    }
    forall i, j | 0 <= i < j < |sorted| ensures Better(commands, sorted[i].command, sorted[j].command) {
      assert cmp(sorted[i], sorted[j]) <= 0;
      OrderIsBetter(commands, lastIndex, sorted[i], sorted[j]);
    }
  }

  /** A command left out was cut off, so everything kept is better. */
  lemma KeptIsBetter(
    commands: seq<string>, keys: seq<string>, entries: seq<RemoteHistoryRank>, sorted: seq<RemoteHistoryRank>,
    n: nat, i: nat, c: string)
    requires Entries(commands, keys, entries) && (forall e :: e in entries ==> e in sorted) && i < n <= |sorted|
    requires forall i, j :: 0 <= i < j < |sorted| ==> Better(commands, sorted[i].command, sorted[j].command)
    requires c in commands && c !in Ranked(sorted[..n])
    ensures Better(commands, sorted[i].command, c)
  {
    assert c in Distinct(keys);
    var k :| 0 <= k < |keys| && keys[k] == c;
    assert entries[k] in sorted;
    var j :| 0 <= j < |sorted| && sorted[j] == entries[k];
    CutOff(sorted, n, j);
  }

  lemma CutOff(sorted: seq<RemoteHistoryRank>, n: nat, j: nat)
    requires n <= |sorted| && j < |sorted| && sorted[j].command !in Ranked(sorted[..n])
    ensures n <= j
  {
  }

  /** Sorting the entries and cutting at the limit gives the ranking. */
  lemma EntriesRank(
    commands: seq<string>, limit: nat, keys: seq<string>, lastIndex: map<string, int>, entries: seq<RemoteHistoryRank>)
    requires Entries(commands, keys, entries) && lastIndex.Keys == Distinct(commands)
    requires forall c :: c in lastIndex ==> lastIndex[c] == LastIndex(commands, c)
    ensures var sorted := Sort(entries, RankOrder(lastIndex));
            IsRanking(commands, limit, if limit < |sorted| then sorted[..limit] else sorted)
  {
    var sorted := Sort(entries, RankOrder(lastIndex));
    var n := if limit < |sorted| then limit else |sorted|;
    assert sorted[..|sorted|] == sorted;
    SortMembers(entries, RankOrder(lastIndex));
    SortedEntriesInOrder(commands, keys, lastIndex, entries);
    SizeOfDistinct(keys);
    forall i, c | 0 <= i < n && c in commands && c !in Ranked(sorted[..n])
      ensures Better(commands, sorted[i].command, c)
    {
      KeptIsBetter(commands, keys, entries, sorted, n, i, c);
    }
  }

  lemma {:induction false} SizeOfDistinct(keys: seq<string>)
    requires NoRepeats(keys)
    ensures |Distinct(keys)| == |keys|
  {
    if keys != [] {
      var last := |keys| - 1;
      SizeOfDistinct(keys[..last]);
      assert Distinct(keys) == Distinct(keys[..last]) + {keys[last]};
    }
  }

  lemma SortedIsDistinct(keys: seq<string>, entries: seq<RemoteHistoryRank>, sorted: seq<RemoteHistoryRank>)
    requires |entries| == |keys| && forall i :: 0 <= i < |keys| ==> entries[i].command == keys[i]
    requires NoRepeats(keys)
    requires multiset(sorted) == multiset(entries)
    ensures forall i, j :: 0 <= i < j < |sorted| ==> sorted[i].command != sorted[j].command
  {
    forall i, j | 0 <= i < j < |sorted| ensures sorted[i].command != sorted[j].command {
      if sorted[i].command == sorted[j].command {
        assert sorted[i] in multiset(entries) && sorted[j] in multiset(entries);
        var x :| 0 <= x < |entries| && entries[x] == sorted[i];
        var y :| 0 <= y < |entries| && entries[y] == sorted[j];
        assert keys[x] == keys[y];
        OnceInMultiset(entries, x);
        TwiceInMultiset(sorted, i, j);
      }
    }
  }

  lemma TwiceInMultiset<T>(xs: seq<T>, i: nat, j: nat)
    requires i < j < |xs| && xs[i] == xs[j]
    ensures multiset(xs)[xs[i]] >= 2
  {
    assert xs == xs[..i] + [xs[i]] + xs[i + 1..j] + [xs[j]] + xs[j + 1..];
  }

  lemma OnceInMultiset<T>(xs: seq<T>, i: nat)
    requires i < |xs| && forall j :: 0 <= j < |xs| && j != i ==> xs[j] != xs[i]
    ensures multiset(xs)[xs[i]] == 1
  {
    assert xs == xs[..i] + [xs[i]] + xs[i + 1..];
    assert xs[i] !in xs[..i] && xs[i] !in xs[i + 1..];
  }

  // ---------------------------------------------------------------- nothing is lost

  function TotalCount(ranks: seq<RemoteHistoryRank>): nat {
    if ranks == [] then 0 else TotalCount(ranks[..|ranks| - 1]) + ranks[|ranks| - 1].count
  }

  function TotalOccurrences(commands: seq<string>, keys: seq<string>): nat {
    if keys == [] then 0 else TotalOccurrences(commands, keys[..|keys| - 1]) + Occurrences(commands, keys[|keys| - 1])
  }

  lemma {:induction false} OneMoreCommand(commands: seq<string>, command: string, keys: seq<string>)
    requires NoRepeats(keys)
    ensures TotalOccurrences(commands + [command], keys) == TotalOccurrences(commands, keys)
        + (if command in keys then 1 else 0)
  {
    if keys != [] {
      OneMoreCommand(commands, command, keys[..|keys| - 1]);
      assert multiset(commands + [command]) == multiset(commands) + multiset{command};
    }
  }

  lemma {:induction false} NoOccurrences(keys: seq<string>)
    ensures TotalOccurrences([], keys) == 0
  {
    if keys != [] { NoOccurrences(keys[..|keys| - 1]); }
  }

  lemma {:induction false} OccurrencesSumToLength(commands: seq<string>, keys: seq<string>)
    requires NoRepeats(keys)
    requires forall c :: c in commands ==> c in keys
    ensures TotalOccurrences(commands, keys) == |commands|
  {
    if commands == [] {
      NoOccurrences(keys);
    } else {
      var last := |commands| - 1;
      OccurrencesSumToLength(commands[..last], keys);
      OneMoreCommand(commands[..last], commands[last], keys);
      assert commands == commands[..last] + [commands[last]];
    }
  }

  lemma {:induction false} CountsAreOccurrences(commands: seq<string>, ranks: seq<RemoteHistoryRank>, keys: seq<string>)
    requires |keys| == |ranks|
        && forall i :: 0 <= i < |ranks|
             ==> keys[i] == ranks[i].command && ranks[i].count == Occurrences(commands, keys[i])
    ensures TotalCount(ranks) == TotalOccurrences(commands, keys)
  {
    if ranks != [] {
      CountsAreOccurrences(commands, ranks[..|ranks| - 1], keys[..|keys| - 1]);
    }
  }

  /** When the limit cuts nothing off, the counts add up to the length of the history. */
  lemma CountsSumToLength(commands: seq<string>, limit: nat, ranks: seq<RemoteHistoryRank>)
    requires IsRanking(commands, limit, ranks) && |Distinct(commands)| <= limit
    ensures TotalCount(ranks) == |commands|
  {
    var keys := seq(|ranks|, i requires 0 <= i < |ranks| => ranks[i].command);
    forall j, k | 0 <= j < k < |keys| ensures keys[j] != keys[k] {
      assert Better(commands, ranks[j].command, ranks[k].command);
    }
    SizeOfDistinct(keys);
    var covered := Distinct(keys);
    assert covered <= Distinct(commands);
    SubsetOfSameSize(covered, Distinct(commands));
    forall c | c in commands ensures c in keys {
      assert c in covered;
    }
    OccurrencesSumToLength(commands, keys);
    CountsAreOccurrences(commands, ranks, keys);
  }

  lemma SubsetOfSameSize<T>(a: set<T>, b: set<T>)
    requires a <= b && |a| == |b|
    ensures a == b
  {
    assert b == a + (b - a);
    assert |b| == |a| + |b - a|;
  }

  // ---------------------------------------------------------------- record

  const MAX_ENTRIES_PER_HOST := 100

  function Latest<T>(entries: seq<T>): seq<T> {
    if |entries| > MAX_ENTRIES_PER_HOST then entries[..MAX_ENTRIES_PER_HOST] else entries
  }

  /** `record`: the new entry in front, the list cut to the cap. */
  function Record<T>(byHost: map<string, seq<T>>, hostId: string, entry: T): map<string, seq<T>> {
    byHost[hostId := Latest([entry] + (if hostId in byHost then byHost[hostId] else []))]
  }

  function RecordAll<T>(events: seq<(string, T)>): map<string, seq<T>> {
    if events == [] then map[]
        else Record(RecordAll(events[..|events| - 1]), events[|events| - 1].0, events[|events| - 1].1)
  }

  /** Everything ever recorded for a host, newest first. */
  function Everything<T>(events: seq<(string, T)>, hostId: string): seq<T> {
    if events == [] then []
    else
      var last := events[|events| - 1];
      (if last.0 == hostId then [last.1] else []) + Everything(events[..|events| - 1], hostId)
  }

  /** After any run of `record` calls on any hosts, each host's list is its own latest 100 entries, newest first. */
  lemma {:induction false} RecordKeepsLatest<T>(events: seq<(string, T)>, hostId: string)
    ensures var kept, all := if hostId in RecordAll(events) then RecordAll(events)[hostId] else [],
                             Everything(events, hostId);
            kept == if |all| > 100 then all[..100] else all
  {
    if events != [] {
      RecordKeepsLatest(events[..|events| - 1], hostId);
    }
  }
}
