# ConnectHub, verified

A Dafny model of the parts of ConnectHub, an SSH client built on Tauri, that are hard to get right: the split-pane
layout and the tab store, the VPN connection protocol, the AI conversation, the host CSV export and import, the
sidebar's group tree, the vault, host-key pinning, and four small algorithms. `dafny verify dfyconfig.toml` checks
everything.

## What is modelled

- `PaneTree`, `PaneGeometry`, `PaneShares`, `PaneRestore`: the binary tree of terminal panes, its layout in
  rectangles over the reals, and saving and restoring it while hosts come and go.
- `SessionsStore`, `SessionsEffects`, `Workspaces`: the store of open tabs, as an object whose actions are each proved
  against a specification, what each action does in terms of tabs and panes, and all runs of the actions with
  workspaces saved and restored meanwhile.
- `VpnProtocol`, `VpnAnswers`: any number of `connect` calls, background tasks, child processes and disconnect messages
  racing over one map, as a step relation, and what callers are told. The owner of a profile is a ghost notion; the
  code has only the map.
- `AiConversation`, `AiCommands`: each host's conversation, cut at every `await`, and the way each command takes, past
  the denylist of `ai_command_check` and `ai_command_exec` (src-tauri/src/commands/ai_commands.rs, lines 61 to 88),
  with user actions in between as far as the interface offers them (src/components/ai/AiMessageList.tsx, lines 38 to
  56, and for clearing, at any time, src/components/panels/AiAssistantDrawer.tsx, lines 44 to 52).
- `Text`, `GroupForest`, `GroupPaths`, `GroupUpdate`, `HostTables`, `HostCsv`, `HostCsvMerge`, `HostCsvOutcome`,
  `HostCsvSummary`, `HostCsvOrder`, `HostCsvRoundTrip`: CSV records, the tables they are read from and written to,
  group paths with their cache, moving a group, the merge, and what it reports.
- `HostTree`, `HostTreeRows`: filtering and rendering of the group tree, over any parent table.
- `CodeBlocks`, `VaultStore`, `KnownHosts`, `ExecOutput`, `HostsStore`, `CommandHistory`: fenced-code splitting, vault
  creation and migration, trust on first use, the capped output reader, overlapping loads, and history ranking.
- `StableSort`, `Wrappers`: sorting with a comparator, and the shared result types.

Random ids are a counter of unused numbers. Other randomness (salts, nonces, the generated secret), the clock and
every answer of a server, a provider or a child process are inputs or free choices. Encryption is symbolic: what is
sealed under a key and nonce opens under exactly that key and nonce, and keys from different passwords, salts or
costs differ (section 3.1 of RFC 9106 gives the limits on the costs).

## Where the code differs from what is said about it

- src-tauri/src/vpn/mod.rs, lines 274 to 276, says an occupied entry is always Connecting, Connected or
  Disconnecting. `VpnProtocol.OccupiedInactiveIff` says exactly when it is not, and
  `VpnProtocol.OccupiedCanBeDisconnected` is a run in which it is Disconnected.
- src/state/aiStore.ts, line 193: the autonomous mode calls `runCommand` while `running` is set, so the guard at
  line 253 returns and the conversation never moves on (`AiConversation.WedgedAfterIff`,
  `AiConversation.WedgedRun`).
- src/state/aiStore.ts, lines 208 to 215: clearing while something is in flight breaks the pairing of proposals and
  results, and the Clear button is never disabled (`AiConversation.ClearIsSafeIffQuiet`,
  `AiConversation.ClearMidFlightRun`).
- src-tauri/src/data/host_csv.rs, lines 41 to 43, says a cycle of groups cannot occur because parents are validated;
  `groups::update` validates nothing. `GroupUpdate.UpdateKeepsForestIff` is the check that is missing,
  `GroupUpdate.UpdateCanMakeLoop` an update that fails it, and the cap is what ends the walk then
  (`GroupPaths.CapReachedIffUnrooted`).
- A tag named twice in one CSV cell makes the whole import fail, after the rows before it were written
  (`HostCsvMerge.ImportSucceedsIffTagsDistinct`, `HostCsvOutcome.RepeatedTagFails`).
- A vault migration that meets one unreadable secret has already rewritten the rows before it under a key that is
  then forgotten, and no later launch unlocks the vault (`VaultStore.RewrittenSecretsAreLost`,
  `VaultStore.NoLaterLaunchUnlocks`).
- src-tauri/src/ssh/exec.rs, lines 68 to 70 and 111 to 114, speaks of combined output and of an
  exact guarantee. Each stream is capped; together they can reach almost twice the cap (`ExecOutput.CapIsPerStream`,
  `ExecOutput.CombinedWithinCapIff`).

## Model

| member | source | states |
|---|---|---|
| `PaneGeometry.ExactTiling` | src/lib/paneTree.ts:129-169 | for ratios in [0, 1] the leaf and divider rectangles cover every point of the container exactly once, and no point outside it, if and only if every split with any extent across its axis has room for its divider |
| `PaneGeometry.LayoutCovers` | src/lib/paneTree.ts:143-169 | no point of the container is ever left uncovered, and none is covered twice when the dividers fit |
| `PaneGeometry.OverfullSplit` | src/lib/paneTree.ts:143-169 | where a divider does not fit there is a point drawn over once too often: the witness for the converse |
| `PaneGeometry.LayoutOrder` | src/lib/paneTree.ts:42-51 | leaves come out in `collectLeaves` order with their hosts, with one divider fewer than leaves |
| `PaneGeometry.SplitLocality` | src/lib/paneTree.ts:53-82 | splitting divides the pane's own rectangle in halves and leaves every other entry of the layout, leaves and dividers, in its place exactly as it was |
| `PaneGeometry.RemoveLocality` | src/lib/paneTree.ts:84-97 | pane by pane: the sibling subtree's panes get the parent's rectangle and every other pane keeps its own |
| `PaneGeometry.RemoveInPlace` | src/lib/paneTree.ts:84-97 | in the list of leaves and dividers, the entries of the split that had the pane as a child are replaced in place by the sibling's layout in the same rectangle; everything before and after stays as it was |
| `PaneGeometry.ResizeLocality` | src/lib/paneTree.ts:99-103 | resizing keeps the panes, their order and the dividers' ids, and moves only panes and dividers under the resized split |
| `PaneGeometry.SplitSides` | src/lib/paneTree.ts:143-169 | a row puts every pane of its first child left of every pane of its second, a column above, at least a divider apart |
| `PaneShares.SplitShares` | src/lib/paneTree.ts:143-169 | along its direction a split with room gives its first child the fraction `ratio` of the room from the left or the top, then 6 pixels to the divider, then the rest to its second child: every point of its place lies once in the part it should |
| `PaneShares.DividerSays` | src/lib/paneTree.ts:118-127 | a divider entry carries its split, direction and ratio and the pixels shared out, none if there is no room |
| `PaneShares.DividerFollowsMouse` | src/components/common/PaneResizeDivider.tsx:28-34 | dragging a divider by some pixels moves it by exactly those pixels, within the limits of the ratio |
| `PaneGeometry.ResizeSetsRatio` | src/lib/paneTree.ts:99-103 | the resized split gets the ratio asked for, cut to [0.15, 0.85], and is otherwise as it was; an unknown split changes nothing |
| `PaneGeometry.SplitPanes` | src/lib/paneTree.ts:53-82 | splitting adds exactly the new pane, keeps ids distinct and keeps the first pane first |
| `PaneGeometry.SplitBesides` | src/lib/paneTree.ts:53-82 | the new pane stands second beside the pane that was split, in a split of the direction asked for with half each, and every other pane is found as before |
| `PaneGeometry.RemoveUndoesSplit` | src/lib/paneTree.ts:53-97 | removing a just-created pane gives back the original tree |
| `PaneTree.FindLeafFinds` | src/lib/paneTree.ts:37-51 | `findLeaf` finds a leaf exactly for the ids in the tree, and it is one of `collectLeaves` |
| `PaneRestore.RemovalIsConfluent` | src/lib/paneTree.ts:84-97 | removing any sequence of panes depends only on the set removed: it equals pruning that set at once |
| `PaneRestore.RestoreIsRemovalOfDeadPanes` | src/lib/paneTree.ts:181-206 | saving and restoring after host deletions equals, up to fresh ids, removing every dead leaf with `removeLeaf`, in any order |
| `PaneRestore.RestoreInvertsSave` | src/lib/paneTree.ts:181-206 | nothing is restored exactly when no saved host survives; saving the restored tree gives the saved layout back exactly when all do |
| `PaneRestore.RestoredPanesAreFresh` | src/lib/paneTree.ts:197-206 | a restored tree has new, distinct pane ids, no more leaves than were saved, and only hosts of the current table |
| `PaneRestore.PrunePanes` | src/lib/paneTree.ts:84-97 | what remains after removals is null exactly when every pane was removed, and otherwise has exactly the other panes |
| `PaneRestore.ReachableRatios` | src/lib/paneTree.ts:30-103 | any run of split, remove, resize and save/restore keeps all ratios in [0.15, 0.85] |
| `PaneRestore.ReachableSizes` | src/lib/paneTree.ts:30-169 | in every tree so reached from one pane, a leaf d splits deep is at least the d-fold iterate of x -> 0.15 * max(0, x - 6) of the container on both sides |
| `SessionsStore.SessionsStore.OpenSession` | src/state/sessionsStore.ts:99-107 | the whole new store: one more tab, with one fresh pane if it is a terminal; the invariant holds |
| `SessionsStore.SessionsStore.CloseSession` | src/state/sessionsStore.ts:108-125 | the tab is gone and so are the status and session entries of exactly its panes |
| `SessionsStore.SessionsStore.SetStatus` | src/state/sessionsStore.ts:126-129 | the entry of any pane id is overwritten, nothing else |
| `SessionsStore.SessionsStore.SetSessionId` | src/state/sessionsStore.ts:130-133 | the entry of any pane id is overwritten, nothing else |
| `SessionsStore.SessionsStore.SplitPane` | src/state/sessionsStore.ts:134-149 | the whole new store and the new pane's id; null exactly when the tab list is unchanged |
| `SessionsStore.SessionsStore.ClosePane` | src/state/sessionsStore.ts:150-169 | the pane is removed with its entries exactly when it is one of several panes of that terminal tab |
| `SessionsStore.SessionsStore.SetLayout` | src/state/sessionsStore.ts:170-175 | any tree for any tab replaces its layout and nothing else, not even the old panes' entries; the invariant survives if and only if there is no such tab or the tab is a terminal and the tree has at most 9 panes with distinct ids that nothing else in the store has |
| `SessionsStore.SessionsStore.ResizePaneSplit` | src/state/sessionsStore.ts:176-185 | only that tab's layout changes, by the clamped ratio |
| `SessionsStore.SessionsStore.ToggleBroadcast` | src/state/sessionsStore.ts:186-197 | only that tab's flag changes |
| `SessionsStore.SessionsStore.ReorderSessions` | src/state/sessionsStore.ts:198-211 | the splice with its corrected index equals moving the tab before the element that was at the target |
| `SessionsEffects.OpenAppends` | src/state/sessionsStore.ts:99-107 | one more tab at the end under unused ids, on that host, of that kind and not broadcasting, with one pane on the host if it is a terminal and none otherwise |
| `SessionsEffects.CloseTakesOut` | src/state/sessionsStore.ts:108-125 | exactly that tab leaves the list, the others keep their order, and the entries of exactly its panes go |
| `SessionsEffects.SplitAddsPane` | src/state/sessionsStore.ts:134-149 | a pane is added exactly if the tab is open, a terminal, has the pane asked for and fewer than 9; it is on the host given or else on that of the pane split, stands beside it in the direction asked for, and nothing else changes |
| `SessionsEffects.ClosePaneTakesOut` | src/state/sessionsStore.ts:150-169 | a pane is taken out with its two entries exactly if it is one of several of an open terminal tab; otherwise nothing changes |
| `SessionsEffects.SetLayoutReplaces` | src/state/sessionsStore.ts:170-175 | only that tab's layout changes, and it becomes the tree |
| `SessionsEffects.ResizeSetsSplit` | src/state/sessionsStore.ts:176-185 | only that tab's layout changes, by the resized split; a tab without layout stays so |
| `SessionsEffects.ToggleTurnsOver` | src/state/sessionsStore.ts:186-197 | exactly that tab's broadcast mode is turned over, and twice is as if never |
| `SessionsEffects.ReorderMoves` | src/state/sessionsStore.ts:198-211 | indices out of range or equal change nothing; otherwise one tab moves to its place and the rest keep their order |
| `SessionsStore.DropPanes` | src/state/sessionsStore.ts:108-125 | the deletion loop removes exactly the closing tab's panes from both maps |
| `SessionsStore.SplitInTabs` | src/state/sessionsStore.ts:134-149 | the pass over the tabs splits the one tab and reports it through its flag exactly when it did |
| `SessionsStore.CloseInTabs` | src/state/sessionsStore.ts:150-169 | the pass over the tabs removes the pane from the one tab and reports it exactly when it did |
| `SessionsStore.StepKeepsInv` | src/state/sessionsStore.ts:93-211 | every action but setLayout, with any arguments, keeps the invariant, opens panes and tabs only under ids never used before, and changes no tab's kind |
| `Workspaces.EveryRunKeepsInv` | src/pages/AppShell.tsx:516-598 | over every interleaving of store actions, saving, rebuilding saved layouts for a tab, applying them later and relaunching: the store's invariant holds, every saved layout has at most 9 panes, and every tree still to be applied fits its tab if that is open |
| `Workspaces.EveryRunFromFirstLaunch` | src/state/sessionsStore.ts:84-211 | in every such run from the first launch on, tab and pane ids are distinct over all tabs, terminal tabs have 1 to 9 panes and SFTP tabs have no layout |
| `Workspaces.SavedComesBack` | src/pages/AppShell.tsx:516-581 | saving, rebuilding a terminal's layout for a tab and applying it: nothing happens if no host is left; otherwise exactly that tab gets a layout, which saves as the old one exactly if all hosts are left |
| `SessionsStore.SplitKeepsInv` | src/state/sessionsStore.ts:134-149 | splitting keeps the invariant, the limit of 9 panes included |
| `SessionsStore.ReorderMovesOneTab` | src/state/sessionsStore.ts:198-211 | reordering is a permutation: the moved tab sits just before the original element at the target index, or last, and the rest keep their order |
| `SessionsStore.LiveSessionIsFirstTerminals` | src/state/sessionsStore.ts:84-92 | the session found for a host is that of the first pane of its first terminal tab |
| `SessionsStore.SplitKeepsLiveSession` | src/state/sessionsStore.ts:84-92 | splitting any pane leaves the session that commands for a host are sent to unchanged |
| `VpnProtocol.RunKeepsInv` | src-tauri/src/vpn/mod.rs:197-531 | the ownership invariant over every interleaving of connects, tasks, disconnects and child exits |
| `VpnProtocol.MappedIffOwned` | src-tauri/src/vpn/mod.rs:197-302 | a profile is in the map exactly when a claimant or a running task owns it, and then exactly one does |
| `VpnProtocol.OneLiveChildPerProfile` | src-tauri/src/vpn/mod.rs:309-531 | at most one live openvpn child per profile, and it is the one behind the profile's entry |
| `VpnProtocol.FailedConnectFreesSlot` | src-tauri/src/vpn/mod.rs:197-272 | a connect that fails after its claim removes its own entry, has launched no child, and leaves the profile without an owner |
| `VpnProtocol.ControlChannelStaysOpen` | src-tauri/src/vpn/mod.rs:402-517 | while a task listens, the sender of its control channel is alive: the closed-channel branch is never taken |
| `VpnProtocol.OccupiedInactiveIff` | src-tauri/src/vpn/mod.rs:274-302 | after any run from the start an occupied entry is neither connecting, connected nor disconnecting exactly if it is settled or the last line or disconnect its task received set it to Error |
| `VpnProtocol.OccupiedStatus` | src-tauri/src/vpn/mod.rs:274-302 | which statuses an occupied entry can report, and exactly when they are final |
| `VpnProtocol.OccupiedCanBeDisconnected` | src-tauri/src/vpn/mod.rs:274-302 | a run in which a second connect is turned away with Disconnected, against the comment that occupied means active |
| `VpnProtocol.StepKeepsInv` | src-tauri/src/vpn/mod.rs:177-531 | every step of every thread keeps the ownership invariant |
| `VpnAnswers.CallIsTold` | src-tauri/src/vpn/mod.rs:197-257 | over every run: a waiting call is told its connection's first verdict, one that waits too long or comes second what the connection says of itself just then, and only one that could not start fails |
| `VpnAnswers.VerdictIsFirst` | src-tauri/src/vpn/mod.rs:428-505 | the verdict is that of the first definite step: a Connected or error line, a management interface that never came up (error), or the end, in error exactly if the last news was one |
| `VpnAnswers.ToldConnected` | src-tauri/src/vpn/mod.rs:391-398 | a waiting caller is told Connected only after a line said so, with no error and no end before it |
| `VpnAnswers.CallsBegan` | src-tauri/src/vpn/mod.rs:197-241 | a call works for the profile it began with and on the connection it claimed |
| `VpnAnswers.ConnRemembers` | src-tauri/src/vpn/mod.rs:402-505 | a connection's status is its end if it has ended and its last news otherwise, and its one answer is its first verdict |
| `VpnAnswers.QueueIsUnreceived` | src-tauri/src/vpn/mod.rs:177-195 | what waits in a connection's channel is the number of disconnects sent to it less those received: none is lost or made up |
| `VpnAnswers.DisconnectArrives` | src-tauri/src/vpn/mod.rs:177-195 | a disconnect goes to the connection that holds the profile; a task that reads can receive it exactly while one is unreceived, and then reports Disconnecting |
| `VpnAnswers.ChildIs` | src-tauri/src/vpn/mod.rs:358-389 | a connection has a process from its launch until it exits, and is launched once |
| `AiConversation.HistoriesStayPaired` | src/state/aiStore.ts:164-374 | over every interleaving the interface permits, for each host whose conversation is never cleared while something of it is in flight, whatever happens to the others: each proposal is last or followed at once by exactly one result of its command, every result follows its proposal, every request sent is so paired and resolved, and at most one operation is in flight |
| `AiConversation.InputsKeepPairing` | src/state/aiStore.ts:116-155 | `toMessageInputs` keeps the pairing, and what it produces is fully resolved exactly when `hasPendingToolCall` is false |
| `AiConversation.StepKeepsInv` | src/state/aiStore.ts:164-374 | every await, every answer and every action keeps a host's share of the state in order, but for one: clearing that host while something of it is in flight |
| `AiConversation.RunKeepsInv` | src/state/aiStore.ts:164-374 | the invariant of one host over every run in which its clears are quiet |
| `AiConversation.OtherHostUntouched` | src/state/aiStore.ts:108-114 | a step for one host changes nothing of another host's conversation, operations or requests |
| `AiConversation.ClearIsSafeIffQuiet` | src/state/aiStore.ts:208-215 | clearing a conversation keeps the pairing in every continuation if and only if nothing of it is in flight |
| `AiConversation.ClearMidFlightBreaksPairing` | src/state/aiStore.ts:208-215 | from each of the five suspension points a continuation after the clear that breaks the pairing |
| `AiConversation.ClearMidFlightRun` | src/state/aiStore.ts:208-215 | a whole run from the empty store, permitted by the interface, that ends unpaired |
| `AiConversation.WedgedAfterIff` | src/state/aiStore.ts:164-256 | over all steps: a conversation is wedged afterwards exactly if it was and is not cleared, or the provider has just proposed a command to it in autonomous mode with Stop not pressed |
| `AiConversation.ProposalWedgesIffAutonomous` | src/state/aiStore.ts:164-197 | when the provider proposes a command the conversation is wedged exactly if it is autonomous and Stop was not pressed |
| `AiConversation.WedgedRun` | src/state/aiStore.ts:164-256 | a run of three steps from the empty store that ends wedged |
| `AiConversation.WedgeLastsUntilCleared` | src/state/aiStore.ts:245-256 | a wedged conversation takes no further message and stays running in every run that does not clear it |
| `AiConversation.InputsSayWhatHappened` | src/state/aiStore.ts:116-143 | what the provider is told of a question, an answer, a proposal and of each way a command can end |
| `AiCommands.CommandWay` | src/state/aiStore.ts:245-339 | over every run, clears included: a command under way was begun by one step, is the pending proposal of that moment, and is where that step's terminal and override call for: checked, written, waiting for the VPN or with the backend |
| `AiCommands.WritesAreVetted` | src/state/aiStore.ts:276-303 | no command reaches the terminal unless the denylist check passed it or the user clicked Run anyway, nothing else being started by the operation in between |
| `AiCommands.BackendRunsAreVetted` | src/state/aiStore.ts:316-328 | the backend is told to skip its denylist exactly for commands the user clicked Run anyway on |
| `AiCommands.ContinuesIff` | src/state/aiStore.ts:347-357 | over every run: a result goes straight back to the provider exactly in autonomous mode, with Stop not pressed since the last question, and for the first 25 times in a conversation |
| `AiCommands.ContinuesWithProviderAsked` | src/state/aiStore.ts:245-357 | and then to the provider last asked when the command was started |
| `AiCommands.ConversationShows` | src/state/aiStore.ts:199-243 | over every run: mode, provider, Stop and error shown are those last picked, asked, pressed and reported |
| `AiCommands.HistoryGrows` | src/state/aiStore.ts:164-374 | a history only grows, by one message at most, and by what the step brought; answers and results always enter it, a question or a code block's command exactly when nothing runs or is pending |
| `AiCommands.SkipSettles` | src/state/aiStore.ts:216-228 | Skip unmarks the pending proposal and puts its result after it |
| `AiCommands.RequestsCarryHistory` | src/state/aiStore.ts:164-170 | the provider is asked exactly on a question or a continuation, with the whole history up to that message |
| `AiCommands.FailuresAreReported` | src/state/aiStore.ts:245-328 | an await that fails leaves the history alone, shows its error and lets the conversation run again |
| `AiCommands.DenialsAreMarked` | src/state/aiStore.ts:285-339 | a denied command's message, and no other, is marked with the pattern, and nothing of it stays in flight |
| `GroupPaths.ResolveGroupPath` | src-tauri/src/data/host_csv.rs:116-164 | the cached resolution returns the same id and creates the same groups as resolving without a cache, for any path, normalised or not, and leaves a cache that is still right |
| `GroupPaths.ResolveSegments` | src-tauri/src/data/host_csv.rs:130-163 | the loop over segments agrees with uncached lookup-or-create after every prefix |
| `GroupPaths.CachedTurn` | src-tauri/src/data/host_csv.rs:139-142 | a cached prefix stands for what lookup or creation would have given |
| `GroupPaths.FreshTurn` | src-tauri/src/data/host_csv.rs:143-161 | an uncached prefix may be remembered: the cache stays right however the table grew |
| `GroupPaths.ResolveGrowsForest` | src-tauri/src/data/host_csv.rs:143-161 | resolving only adds groups with unused ids, never a second child of the same name, and keeps list order |
| `GroupPaths.OnlyThePathIsMade` | src-tauri/src/data/host_csv.rs:130-163 | every group a path adds stands on that path below the groups before it, with sort order 0 |
| `GroupPaths.FirstChild` | src-tauri/src/data/host_csv.rs:142-146 | of several children of that name the first in the list is found |
| `GroupPaths.ResolveIsIdempotent` | src-tauri/src/data/host_csv.rs:112-164 | resolving a path again returns the same id and creates nothing |
| `GroupPaths.GroupPath` | src-tauri/src/data/host_csv.rs:38-54 | the climbing loop returns the names of at most n + 1 ancestors, root first, joined with slashes |
| `GroupPaths.ClimbIsTrail` | src-tauri/src/data/host_csv.rs:38-54 | for a group under the root the climb meets exactly its ancestors, whatever else the table holds |
| `GroupPaths.CapReachedIffUnrooted` | src-tauri/src/data/host_csv.rs:38-54 | the cap on the climb is used up exactly by groups that hang on a loop of parents |
| `GroupPaths.LoopedPath` | src-tauri/src/data/host_csv.rs:38-54 | the path of such a group goes up round the loop until the cap: one name more than there are groups, its own last |
| `GroupUpdate.UpdateKeepsForestIff` | src-tauri/src/data/groups.rs:37-51 | an update keeps a table without loops free of them if and only if the new parent is none or the group is not among the new parent and its ancestors |
| `GroupUpdate.UpdateCutsOff` | src-tauri/src/data/groups.rs:37-51 | group by group: moving a group under itself or a descendant cuts off from the root exactly that group and its descendants, any other move cuts off none |
| `GroupUpdate.UpdateCanMakeLoop` | src-tauri/src/data/groups.rs:37-51 | two nested groups without a loop, the outer one moved into the inner: both hang on a loop, and the climb from them uses up the cap |
| `GroupPaths.ResolveInvertsGroupPath` | src-tauri/src/data/host_csv.rs:38-164 | in a well-named forest the path printed for a group resolves back to that group and creates nothing |
| `GroupForest.TrailIsUnique` | src-tauri/src/data/groups.rs:37-51 | with unique ids there is one way from the root to a group, cycles elsewhere notwithstanding |
| `GroupForest.TrailIsShort` | src-tauri/src/data/groups.rs:37-51 | no chain from the root is longer than the table |
| `Text.CellsOfJoin` | src-tauri/src/data/host_csv.rs:166-172 | splitting, trimming and dropping empties gives back any list of trimmed, non-empty, separator-free texts that was joined |
| `Text.CellsAreTrimmedParts` | src-tauri/src/data/host_csv.rs:166-172 | of any text the cells are its parts, trimmed, in order, the blank ones left out |
| `Text.TrimIsMiddle` | src-tauri/src/data/host_csv.rs:166-172 | trimming takes off blanks only, and all of them at both ends |
| `Text.JoinUndoesSplit` | src-tauri/src/data/host_csv.rs:166-172 | the parts of a text, joined, are the text |
| `Text.SplitUndoesJoin` | src-tauri/src/data/host_csv.rs:130-137 | splitting at a separator undoes joining with it |
| `HostTables.GetOrCreateAllOk` | src-tauri/src/data/host_csv.rs:174-179 | every label gets the id of its own tag, and existing tags stay |
| `HostTables.SetHostTagsOk` | src-tauri/src/data/tags.rs:103-112 | replacing a host's tags succeeds exactly for distinct tags, then gives exactly those, and never touches another host's |
| `HostCsv.Connection.GetOrCreateTag` | src-tauri/src/data/tags.rs:26-48 | the tag table and the id after the call; nothing else changes |
| `HostCsv.Connection.ResolveTagIds` | src-tauri/src/data/host_csv.rs:174-179 | the tag table and the ids after the loop; nothing else changes |
| `HostCsv.Connection.SetHostTags` | src-tauri/src/data/tags.rs:103-112 | the links after the deletes and inserts, and whether a repeated key stopped them |
| `HostCsv.Connection.CreateHost` | src-tauri/src/data/hosts.rs:72-97 | the whole database after the insert, the new row listed by sort order, also when its tags fail |
| `HostCsv.Connection.UpdateHost` | src-tauri/src/data/hosts.rs:99-131 | the whole database after the update: last connection and favourite mark kept, an unknown id refused |
| `HostCsv.Connection.ExportCsv` | src-tauri/src/data/host_csv.rs:56-103 | one record per host in list order, with its group path, identity and tags |
| `HostCsv.Connection.ImportRow` | src-tauri/src/data/host_csv.rs:203-302 | the database after one row equals the row's meaning without a cache |
| `HostCsv.Connection.ImportCsv` | src-tauri/src/data/host_csv.rs:181-310 | the database, success, both counts and the warnings of an import of any records, including what a failed import leaves |
| `HostCsvMerge.ImportSucceedsIffTagsDistinct` | src-tauri/src/data/host_csv.rs:181-310 | an import succeeds if and only if no row's tag cell repeats a label after trimming |
| `HostCsvMerge.ImportMerges` | src-tauri/src/data/host_csv.rs:203-302 | for any records, finished or not: no host is lost, each keeps id, VPN profile, colour, icon, order, last connection and favourite mark, hosts whose label was unknown to the import or has no row keep everything and their tags, groups and tags are only added, and all keys stay intact |
| `HostCsvOutcome.ImportShowsRecords` | src-tauri/src/data/host_csv.rs:181-310 | after a successful import every record is shown by a host of the final database, the known one of its label or the next of those added, unless a later record of a known label rewrote the same host: host name, port, the group its path leads to there, matched identity, notes or none, and exactly the labels of its tag cell, or the old ones for a known host and an empty cell |
| `HostCsvOutcome.RepeatedTagFails` | src-tauri/src/data/host_csv.rs:166-179 | the tag cell a;a makes an import fail |
| `HostCsvMerge.RowIsWritten` | src-tauri/src/data/host_csv.rs:203-302 | the same just after one row, with tags by id |
| `HostCsv.IdentityNeedsBoth` | src-tauri/src/data/host_csv.rs:208-234 | an identity is linked exactly when one has both the label and the user name of the row and neither is blank |
| `HostCsv.FirstIdentity` | src-tauri/src/data/host_csv.rs:223-229 | of several such identities the first in the list is linked |
| `HostCsvSummary.WarningsNameUnmatched` | src-tauri/src/data/host_csv.rs:203-237 | there is one warning for each row that names a user without an identity of both its label and user name, in row order, with its row number, label and cells |
| `HostCsvSummary.KnownAreTheHosts` | src-tauri/src/data/host_csv.rs:194-197 | a label is known exactly if a host carries it, and stands for the last such host with its tags |
| `HostCsvSummary.NewAreTheUnknown` | src-tauri/src/data/host_csv.rs:246-302 | the rows counted as imported are exactly those whose label no host carried before |
| `HostCsvSummary.RecordSays` | src-tauri/src/data/host_csv.rs:70-97 | an exported record carries the host's own columns, its group's path, and its identity's label and user name or two blanks |
| `HostCsvSummary.TagCellSays` | src-tauri/src/data/host_csv.rs:89-95 | and its tag cell reads back as exactly the labels of the host's tags |
| `HostCsvOrder.ListsStayInOrder` | src-tauri/src/data/hosts.rs:46-50 | whatever is imported, tags stay listed by label and hosts by sort order |
| `HostCsvOrder.CompareTextMeans` | src-tauri/src/data/tags.rs:16-20 | a text is listed before the longer ones it begins, otherwise the first differing character decides |
| `HostCsvMerge.ImportCountsHosts` | src-tauri/src/data/host_csv.rs:200-310 | `imported` is the number of hosts added |
| `HostCsvRoundTrip.RowReadsBack` | src-tauri/src/data/host_csv.rs:56-310 | importing a host's own exported record changes nothing and warns of nothing |
| `HostCsvRoundTrip.RowsReadBack` | src-tauri/src/data/host_csv.rs:56-310 | so does any selection of exported records, in any order, any number of times |
| `HostCsvRoundTrip.ExportThenImport` | src-tauri/src/data/host_csv.rs:38-310 | export then import is the identity: 0 imported, all updated, no warnings, database unchanged |
| `HostTree.ChildGroupsInOrder` | src/lib/groupTree.ts:13-21 | the children of a level come by sort order, then by name under any consistent collation |
| `HostTree.ChildGroupsAreChildren` | src/lib/groupTree.ts:13-21 | and are exactly the groups with that parent |
| `HostTree.ChildHostsInOrder` | src/lib/groupTree.ts:17-19 | the hosts of a level come by sort order, then by title |
| `HostTree.ChildHostsAreChildren` | src/lib/groupTree.ts:17-19 | and are exactly the hosts of that group |
| `HostTree.ChildHostsAreStable` | src/lib/groupTree.ts:17-19 | hosts the order does not tell apart stay as listed |
| `HostTree.MatchMeans` | src/components/sidebar/HostTree.tsx:102-112 | a host matches exactly if its title, host name or a tag's label contains the query in lower case and one of its tags is picked, where nothing asked for is no condition |
| `HostTree.GroupHasMatchIffHostBelow` | src/components/sidebar/HostTree.tsx:118-123 | while filtering, a group under the root is kept exactly when a matching host lies in it or below it |
| `HostTree.LevelShows` | src/components/sidebar/HostTree.tsx:220-301 | a rendered level shows each host that matches and is visible from it exactly once, and no other |
| `HostTree.TreeShowsExactly` | src/components/sidebar/HostTree.tsx:100-301 | for any parent table with unique ids, cycles included, the rendering ends and shows exactly once each host that matches, whose chain reaches the root and, without a filter, is not collapsed |
| `HostTreeRows.TreeShowsGroupsExactly` | src/components/sidebar/HostTree.tsx:220-301 | a group has exactly one row if it hangs from the root, every group above it is open and no filter is on or a matching host lies in or below it; otherwise none |
| `HostTreeRows.RowDepths` | src/components/sidebar/HostTree.tsx:220-301 | every row is as deep as the groups above it are many |
| `HostTreeRows.TreeIsInOrder` | src/components/sidebar/HostTree.tsx:220-301 | every row stands under the row of the group it belongs to with nothing less deep in between, and of one group's children groups come first, then hosts, each as listed |
| `CodeBlocks.ScannerMeetsExpression` | src/lib/codeBlocks.ts:12-12 | the scanner matches where the regular expression does, with the greedy language and the shortest body |
| `CodeBlocks.LanguageAlphabet` | src/lib/codeBlocks.ts:12-12 | the characters of a language, one by one |
| `CodeBlocks.ParseCodeBlocks` | src/lib/codeBlocks.ts:14-40 | the loop over the matches produces the segments cut from the text |
| `CodeBlocks.SegmentsTileText` | src/lib/codeBlocks.ts:14-40 | fences and text segments put together are the input: nothing lost, repeated or moved |
| `CodeBlocks.TextSegmentsAreStable` | src/lib/codeBlocks.ts:14-40 | parsing any text segment again yields only that segment |
| `CodeBlocks.PrintParseRoundTrip` | src/lib/codeBlocks.ts:12-40 | printing well-formed segments and parsing them gives the same segments back |
| `VaultStore.Vault.GetOrCreateLocalSecret` | src-tauri/src/vault/store.rs:96-115 | the stored secret trimmed if it is not blank, otherwise the generated one, which is then stored |
| `VaultStore.Vault.Create` | src-tauri/src/vault/store.rs:239-265 | an initialised vault is refused and unchanged; otherwise the returned key opens the new vault |
| `VaultStore.Vault.MoveIdentities` | src-tauri/src/vault/store.rs:156-171 | every password before the first that does not open is moved and nothing else is, or nothing at all if some password lacks its nonce; success exactly when all open |
| `VaultStore.Vault.MoveKeys` | src-tauri/src/vault/store.rs:173-211 | every key row before the first that does not open is moved, private key and passphrase together, and nothing else is; success exactly when all open |
| `VaultStore.Vault.MigrateToNewSecret` | src-tauri/src/vault/store.rs:147-230 | success exactly when everything opens, all secrets then under the new key; on failure exactly the rows before the first that does not open are rewritten |
| `VaultStore.Vault.AutoUnlock` | src-tauri/src/vault/store.rs:125-140 | every path of the launch: create, direct unlock, migration, refusal |
| `VaultStore.UnlocksIff` | src-tauri/src/vault/store.rs:267-307 | unlocking succeeds exactly with the password under whose key the verifier is sealed and gives that key; costs out of range, a missing vault and every other failure have their own errors |
| `VaultStore.SecretIsKept` | src-tauri/src/vault/store.rs:96-115 | the secret is the stored one trimmed or the one generated, is on disk afterwards, and stays the same at every later launch |
| `VaultStore.LaunchUnlocksIff` | src-tauri/src/vault/store.rs:125-140 | a launch unlocks exactly if there was no vault, the secret opens it, or the retired password does and every secret opens under its key; what it returns opens the vault again with the secret |
| `VaultStore.LaunchWritesOnly` | src-tauri/src/vault/store.rs:125-140 | a launch writes the secret's file, the header if it made or moved one, and rows only when it moves a vault off the retired password |
| `VaultStore.OnePasswordUnlocks` | src-tauri/src/vault/store.rs:267-307 | at most one password unlocks a vault |
| `VaultStore.MigrationKeepsSecrets` | src-tauri/src/vault/store.rs:125-230 | after a migration every secret opens under the new key to its old plaintext and under no other key, NULL stays NULL, and exactly the installation's secret unlocks the vault |
| `VaultStore.SecondUnlockIsDirect` | src-tauri/src/vault/store.rs:125-140 | a launch after a successful one takes the direct path, returns the same key and writes nothing |
| `VaultStore.FailedMigrationSticks` | src-tauri/src/vault/store.rs:147-230 | a failed migration leaves a vault under the legacy password with a secret that does not open |
| `VaultStore.NoLaterLaunchUnlocks` | src-tauri/src/vault/store.rs:125-230 | and no later launch ever unlocks it |
| `VaultStore.RewrittenSecretsAreLost` | src-tauri/src/vault/store.rs:147-230 | after a failed migration a password, private key or passphrase that could be read before still can be read, under any password that unlocks the vault, if and only if it does not precede the first row that does not open, in the order identities, then keys, or a missing nonce stopped the reading |
| `VaultStore.PartialMigrationExists` | src-tauri/src/vault/store.rs:147-230 | a two-row vault in which this happens to a readable secret |
| `KnownHosts.Connection.VerifyOrTrust` | src-tauri/src/ssh/known_hosts.rs:87-122 | the new table and the outcome of one transaction |
| `KnownHosts.Connection.DeletePin` | src-tauri/src/ssh/known_hosts.rs:38-47 | the new table, and not-found exactly when there was no row |
| `KnownHosts.EveryRunIsSerial` | src-tauri/src/ssh/known_hosts.rs:87-122 | however SELECT, INSERT and COMMIT of concurrent calls interleave under the write lock, outcomes and table are those of the committed calls one at a time, in commit order |
| `KnownHosts.RunKeepsInv` | src-tauri/src/ssh/known_hosts.rs:87-122 | the invariant behind it: what a transaction has read is still so |
| `KnownHosts.InsertNeverCollides` | src-tauri/src/ssh/known_hosts.rs:87-122 | an INSERT after an empty SELECT never meets a row of the same address |
| `KnownHosts.OnePinBetweenDeletions` | src-tauri/src/ssh/known_hosts.rs:87-122 | between two deletions all accepting calls carry one fingerprint, and a later one is never new |
| `KnownHosts.NewIffFirst` | src-tauri/src/ssh/known_hosts.rs:87-122 | a call trusts a new key exactly when no call was accepted since the last deletion |
| `KnownHosts.OutcomeIs` | src-tauri/src/ssh/known_hosts.rs:38-122 | what every committed call is told, from the calls before it: new or not found if nothing was accepted since the last deletion; otherwise the accepted key matches, any other is refused with it, and a deletion succeeds |
| `KnownHosts.RefusalLeavesTable` | src-tauri/src/ssh/known_hosts.rs:87-122 | a mismatch changes nothing and stems from a different fingerprint that is still pinned |
| `ExecOutput.Run` | src-tauri/src/ssh/exec.rs:34-66 | the plain reader returns everything before Close and the last exit status |
| `ExecOutput.CollectedIs` | src-tauri/src/ssh/exec.rs:47-58 | standard output is the data payloads in order, standard error the extended data of type 1, and the status the last one sent |
| `ExecOutput.CappedKeepsWhatFits` | src-tauri/src/ssh/exec.rs:97-122 | each stream is what was read by the cut point, cut only beyond the cap, with the last status by then |
| `ExecOutput.RunCapped` | src-tauri/src/ssh/exec.rs:77-130 | the capped reader returns the cut streams of the messages up to the cut point |
| `ExecOutput.CutPoint` | src-tauri/src/ssh/exec.rs:98-102 | the cut point is the least number of messages that reaches the cap |
| `ExecOutput.CappedRefinesPlain` | src-tauri/src/ssh/exec.rs:77-130 | truncated exactly when stdout plus stderr before Close reach the cap; otherwise the plain reader's result |
| `ExecOutput.CappedIsPrefix` | src-tauri/src/ssh/exec.rs:111-122 | each stream is a prefix no longer than the cap, and both together at most twice the cap less one |
| `ExecOutput.CombinedWithinCapIff` | src-tauri/src/ssh/exec.rs:98-122 | both streams together keep to a positive cap if and only if what was read up to the cut point does, or came on one stream only |
| `ExecOutput.CapIsPerStream` | src-tauri/src/ssh/exec.rs:68-122 | that bound is reached for every positive cap: the cap holds for each stream, not for both combined |
| `HostsStore.HostsStore.EndLoad` | src/state/hostsStore.ts:66-74 | the answer is written exactly when its load is the most recently started |
| `HostsStore.RunKeepsInv` | src/state/hostsStore.ts:46-75 | the invariant over every interleaving of starts, answers and failures |
| `HostsStore.StoredInStartOrder` | src/state/hostsStore.ts:46-75 | the ids whose answers are written are strictly increasing |
| `HostsStore.LatestWins` | src/state/hostsStore.ts:46-75 | with nothing outstanding, the last answer written is the last-started load's exactly when that load succeeded, and the store then shows it |
| `HostsStore.OvertakenAnswersAreLost` | src/state/hostsStore.ts:64-75 | when the last-started load fails, the answers it overtook are discarded too |
| `CommandHistory.RankRemoteHistory` | src/state/commandHistoryStore.ts:87-98 | the result is the first min(limit, distinct) distinct commands by descending count, then descending last position, each with its true count |
| `CommandHistory.RankingIsUnique` | src/state/commandHistoryStore.ts:87-98 | there is only one such ranking |
| `CommandHistory.CountsSumToLength` | src/state/commandHistoryStore.ts:87-98 | when the limit cuts nothing off the counts add up to the length of the history |
| `CommandHistory.RecordKeepsLatest` | src/state/commandHistoryStore.ts:37-50 | after any run of `record` each host's list is its own latest 100 entries, newest first |

## Left out

- Workspaces.EveryRunKeepsInv: a stored layout is one that was saved, not any JSON text; the workspace rows, the tabs a restore opens one by one (each an `openSession` of the run) and the fallback to flat panes (each a `splitPane`) are not modelled as one call; nothing is said about which pane ids the status and session maps keep, since `setLayout` leaves old entries behind and `setStatus` accepts any id.
- PaneGeometry.ExactTiling: ratios and pixels are reals; rounding and NaN are not modelled.
- VpnProtocol.MappedIffOwned: routes and the profile's files, which `cleanup` removes after the map entry, are not modelled, waiting for the child is taken to succeed, and `disconnect_all` is several disconnect messages.
- VpnProtocol.OccupiedStatus: a late CONNECTED line can overwrite Disconnecting, so nothing says that status only moves forward.
- AiConversation.HistoriesStayPaired: speaks of hosts that are not cleared while something of theirs is in flight, the exact condition by `AiConversation.ClearIsSafeIffQuiet`; safety is claimed, not progress.
- HostCsv.Connection.ImportCsv: works on parsed records; quoting, the header, UTF-8 and the parse errors of the csv crate are not modelled, and a warning is its row and cells rather than a formatted text.
- HostCsv.Connection.UpdateHost: a row keeps its place in the list; a changed sort order, which the import never writes, would move it.
- HostTree.GroupHasMatchIffHostBelow: speaks of groups under the root, the only ones `renderLevel(null)` asks about; called on a cycle of parents without a match the original recursion would not return.
- HostTree.TreeShowsExactly: `toLowerCase` and `localeCompare` are arbitrary functions; markup, drag and drop, and the sets behind expand and collapse are not modelled.
- VaultStore.Vault.MigrateToNewSecret: the ciphertext and nonce bytes are free, only what they open to is stated; vpn_profiles, google_auth and ai_provider_settings are not re-encrypted by the code and not modelled.
- KnownHosts.EveryRunIsSerial: the time a pin was accepted is not stored, and a busy timeout is one of the ways a call fails without effect.
- ExecOutput.Run: output is bytes; `from_utf8_lossy`, connecting and running on many hosts are not modelled.
- CommandHistory.RankRemoteHistory: `parseRemoteHistory` and a negative limit are not modelled; entries of `record` carry no id or time.
- `topUsedCommands`: its comparator contradicts itself for equal timestamps, so no order can be promised there.
- `effective_config`, `parse_management_line`, `extract_local_tunnel_ip` and route commands: text handling without state.
- SSH, SFTP, DNS, pkexec, Google and AI provider calls, Tauri commands: only their possible outcomes appear.
- SQL: statements are functions on tables; relative order of rows with equal sort order is kept as listed.
- Snippets, identities, workspace rows, SSH keys, the command denylist, settings, `vpnStore` and the updater: only easy properties, or, for `vpnStore`, a counter shared between two loads about which the latest-wins property does not hold.
