/** Saving what is open and restoring it later (src/pages/AppShell.tsx:516-598), and every run of the tab store with it:
    a saved layout is rebuilt for a tab, VPNs come up, and only then is the tab given the tree. Meanwhile the user goes
    on. */
module Workspaces {
  import opened Wrappers
  import opened PaneTree
  import opened PaneGeometry
  import opened PaneRestore
  import opened SessionsStore

  /** A rebuilt tree that is still to be given to its tab. */
  datatype Pending = Pending(tabId: Id, layout: PaneNode)

  /** The store, every layout ever saved, and the trees on their way. */
  datatype World = World(store: Store, saved: set<SerializedPaneNode>, pending: seq<Pending>)

  const FIRST_LAUNCH := World(EMPTY, {}, [])

  datatype Event =
    | InStore(action: Action)
    | SaveWorkspace
    | RebuildTab(hostId: string, raw: SerializedPaneNode, hostsById: map<string, Host>)
    | ApplyLayout(k: nat)
    | Relaunch

  /** A layout is rebuilt only if it was saved. */
  predicate Enabled(w: World, event: Event) {
    match event
    case RebuildTab(_, raw, _) => raw in w.saved
    case ApplyLayout(k) => k < |w.pending|
    case _ => true
  }

  /** What is saved of the open tabs: the layouts of terminals. */
  ghost function SavedLayouts(sessions: seq<Tab>): set<SerializedPaneNode> {
    set t | t in sessions && t.kind == Terminal && t.layout.Some? :: SerializeLayout(t.layout.value)
  }

  ghost function Do(w: World, event: Event): World
    requires Enabled(w, event)
  {
    match event
    case InStore(action) => w.(store := Step(w.store, action))
    case SaveWorkspace => w.(saved := w.saved + SavedLayouts(w.store.openSessions))
    case RebuildTab(hostId, raw, hostsById) =>
      var target := FindTerminal(w.store.openSessions, hostId);
      if target.None? then w
      else
        var (tree, next) := DeserializeLayout(raw, hostsById, w.store.next);
        w.(store := w.store.(next := next),
           pending := w.pending + if tree.None? then [] else [Pending(target.value.tabId, tree.value)])
    case ApplyLayout(k) =>
      w.(store := WithTabEdited(w.store, w.pending[k].tabId, EditLayout(w.pending[k].layout)),
         pending := w.pending[..k] + w.pending[k + 1..])
    case Relaunch => World(EMPTY.(next := w.store.next), w.saved, [])
  }

  // ---------------------------------------------------------------- the invariant

  /** Nothing open clashes with the tree, and if its tab is still open, it is a terminal. */
  ghost predicate PendingOk(s: Store, p: Pending) {
    && UniquePanes(p.layout) && CountLeaves(p.layout) <= MAX_PANES && p.tabId < s.next
    && (forall q :: q in PaneIds(p.layout) ==> q < s.next)
    && forall i :: 0 <= i < |s.openSessions| ==>
         && s.openSessions[i].tabId !in PaneIds(p.layout) && Panes(s.openSessions[i]) !! PaneIds(p.layout)
         && (s.openSessions[i].tabId == p.tabId ==> s.openSessions[i].kind == Terminal)
  }

  ghost predicate AllPendingOk(s: Store, pending: seq<Pending>) {
    && (forall k :: 0 <= k < |pending| ==> PendingOk(s, pending[k]))
    && forall j, k :: 0 <= j < k < |pending| ==> PaneIds(pending[j].layout) !! PaneIds(pending[k].layout)
  }

  ghost predicate SavedOk(saved: set<SerializedPaneNode>) { forall raw :: raw in saved ==> SavedSize(raw) <= MAX_PANES }

  ghost predicate WorldInv(w: World) { Inv(w.store) && SavedOk(w.saved) && AllPendingOk(w.store, w.pending) }

  lemma PendingSurvives(s: Store, t: Store, given: set<Id>, p: Pending)
    requires PendingOk(s, p) && OnlyNew(s, t, given) && PaneIds(p.layout) !! given
    ensures PendingOk(t, p)
  {
    forall i | 0 <= i < |t.openSessions|
      ensures t.openSessions[i].tabId !in PaneIds(p.layout) && Panes(t.openSessions[i]) !! PaneIds(p.layout)
    {
      forall q | q in Panes(t.openSessions[i]) ensures q !in PaneIds(p.layout) {
        if q < s.next && q !in given { assert PaneOpen(s, q); }
      }
    }
  }

  lemma SaveKeepsInv(w: World)
    requires WorldInv(w)
    ensures WorldInv(Do(w, SaveWorkspace))
  {
    forall raw | raw in SavedLayouts(w.store.openSessions) ensures SavedSize(raw) <= MAX_PANES {
      var t :| t in w.store.openSessions && t.kind == Terminal && t.layout.Some?
               && raw == SerializeLayout(t.layout.value);
      var i :| 0 <= i < |w.store.openSessions| && w.store.openSessions[i] == t;
      SerializeKeepsSize(t.layout.value);
    }
  }

  lemma {:induction false} FindTerminalFinds(sessions: seq<Tab>, hostId: string)
    ensures var tab := FindTerminal(sessions, hostId);
            tab.Some? ==> tab.value in sessions && tab.value.kind == Terminal
  {
    if sessions != [] { FindTerminalFinds(sessions[1..], hostId); }
  }

  lemma RebuildKeepsInv(w: World, hostId: string, raw: SerializedPaneNode, hostsById: map<string, Host>)
    requires WorldInv(w) && raw in w.saved
    ensures WorldInv(Do(w, RebuildTab(hostId, raw, hostsById)))
  {
    var target := FindTerminal(w.store.openSessions, hostId);
    if target.Some? {
      var (tree, next) := DeserializeLayout(raw, hostsById, w.store.next);
      var drawn := w.store.(next := next);
      FindTerminalFinds(w.store.openSessions, hostId);
      RestoredPanesAreFresh(raw, hostsById, w.store.next);
      InvIgnoresMaps(w.store, drawn);
      forall k | 0 <= k < |w.pending| ensures PendingOk(drawn, w.pending[k]) {
        PendingSurvives(w.store, drawn, {}, w.pending[k]);
      }
      if tree.Some? { FreshIsOk(w.store, target.value, tree.value, next); }
    }
  }

  lemma FreshIsOk(s: Store, tab: Tab, layout: PaneNode, next: Id)
    requires Inv(s) && tab in s.openSessions && tab.kind == Terminal && s.next <= next
    requires UniquePanes(layout) && CountLeaves(layout) <= MAX_PANES
    requires forall p :: p in PaneIds(layout) ==> s.next <= p < next
    ensures PendingOk(s.(next := next), Pending(tab.tabId, layout))
  {
    var j :| 0 <= j < |s.openSessions| && s.openSessions[j] == tab;
    forall i | 0 <= i < |s.openSessions| && s.openSessions[i].tabId == tab.tabId ensures i == j { }
  }

  lemma ApplyKeepsInv(w: World, k: nat)
    requires WorldInv(w) && k < |w.pending|
    ensures WorldInv(Do(w, ApplyLayout(k)))
  {
    var s, p, w' := w.store, w.pending[k], Do(w, ApplyLayout(k));
    var index := TabIndex(s.openSessions, p.tabId);
    SetLayoutKeepsInvIff(s, p.tabId, p.layout);
    if index.Some? {
      ReplacedOnlyNew(s, index.value, w'.store.openSessions[index.value], s.next, PaneIds(p.layout));
    }
    forall j | 0 <= j < |w'.pending| ensures PendingOk(w'.store, w'.pending[j]) {
      PendingSurvives(s, w'.store, PaneIds(p.layout), w'.pending[j]);
    }
  }

  lemma EventKeepsInv(w: World, event: Event)
    requires WorldInv(w) && Enabled(w, event)
    ensures WorldInv(Do(w, event))
  {
    match event
    case InStore(action) =>
      StepKeepsInv(w.store, action);
      forall k | 0 <= k < |w.pending| ensures PendingOk(Step(w.store, action), w.pending[k]) {
        PendingSurvives(w.store, Step(w.store, action), {}, w.pending[k]);
      }
    case SaveWorkspace => SaveKeepsInv(w);
    case RebuildTab(hostId, raw, hostsById) => RebuildKeepsInv(w, hostId, raw, hostsById);
    case ApplyLayout(k) => ApplyKeepsInv(w, k);
    case Relaunch =>
  }

  // ---------------------------------------------------------------- every run

  ghost function Run(w: World, events: seq<Event>): World
    decreases |events|
  {
    if events == [] || !Enabled(w, events[0]) then w else Run(Do(w, events[0]), events[1..])
  }

  lemma {:induction false} EveryRunKeepsInv(w: World, events: seq<Event>)
    requires WorldInv(w)
    ensures WorldInv(Run(w, events))
    decreases |events|
  {
    if events != [] && Enabled(w, events[0]) {
      EventKeepsInv(w, events[0]);
      EveryRunKeepsInv(Do(w, events[0]), events[1..]);
    }
  }

  /** Whatever the user does and however restores interleave with it, from the first launch on and over relaunches:
      tab and pane ids stay distinct over all tabs, every terminal has 1 to MAX_PANES panes and no SFTP tab has any. */
  lemma EveryRunFromFirstLaunch(events: seq<Event>)
    ensures var s := Run(FIRST_LAUNCH, events).store;
            && DistinctTabs(s.openSessions)
            && (forall t :: t in s.openSessions ==>
                  && (t.kind == Sftp <==> t.layout.None?)
                  && (t.layout.Some? ==> UniquePanes(t.layout.value) && 1 <= CountLeaves(t.layout.value) <= MAX_PANES))
            && forall t, u :: t in s.openSessions && u in s.openSessions ==> t.tabId !in Panes(u)
  {
    EveryRunKeepsInv(FIRST_LAUNCH, events);
  }

  // ---------------------------------------------------------------- what is saved comes back

  /** Saving what is open, rebuilding one terminal's layout for a tab of some host, and giving it to that tab: with no
      host of the layout left nothing happens; otherwise the tab gets a layout, which saves as the old one exactly if
      all its hosts are left. Nothing else is on its way that was not before. */
  lemma SavedComesBack(w: World, i: nat, hostId: string, hostsById: map<string, Host>)
    requires WorldInv(w) && KeyedById(hostsById) && i < |w.store.openSessions|
    requires w.store.openSessions[i].kind.Terminal? && w.store.openSessions[i].layout.Some?
    requires FindTerminal(w.store.openSessions, hostId).Some?
    ensures var raw, target := SerializeLayout(w.store.openSessions[i].layout.value),
                               FindTerminal(w.store.openSessions, hostId).value;
            var saved := Do(w, SaveWorkspace);
            && Enabled(saved, RebuildTab(hostId, raw, hostsById))
            && var built, last := Do(saved, RebuildTab(hostId, raw, hostsById)), |w.pending|;
               && (SavedHosts(raw) !! hostsById.Keys ==> built.pending == w.pending)
               && (!(SavedHosts(raw) !! hostsById.Keys) ==>
                     && Enabled(built, ApplyLayout(last)) && built.pending[..last] == w.pending
                     && built.pending[last].tabId == target.tabId
                     && (SerializeLayout(built.pending[last].layout) == raw <==> SavedHosts(raw) <= hostsById.Keys)
                     && var applied := Do(built, ApplyLayout(last));
                        && applied.pending == w.pending
                        && exists j :: 0 <= j < |applied.store.openSessions|
                                       && applied.store.openSessions[j]
                                          == target.(layout := Some(built.pending[last].layout)))
  {
    var tab := w.store.openSessions[i];
    var raw := SerializeLayout(tab.layout.value);
    assert tab in w.store.openSessions;
    assert raw in SavedLayouts(w.store.openSessions);
    RestoreInvertsSave(raw, hostsById, w.store.next);
    FindTerminalFinds(w.store.openSessions, hostId);
    var target := FindTerminal(w.store.openSessions, hostId).value;
    var j :| 0 <= j < |w.store.openSessions| && w.store.openSessions[j] == target;
    OnlyOneTab(w.store.openSessions, target.tabId);
    if !(SavedHosts(raw) !! hostsById.Keys) {
      var built := Do(Do(w, SaveWorkspace), RebuildTab(hostId, raw, hostsById));
      var applied := Do(built, ApplyLayout(|w.pending|));
      assert applied.store.openSessions[j] == target.(layout := Some(built.pending[|w.pending|].layout));
    }
  }
}
