/** The open-tab store of src/state/sessionsStore.ts: tabs, their pane trees and the per-pane maps. */
module SessionsStore {
  import opened Wrappers
  import opened PaneTree
  import opened PaneGeometry
  import opened PaneRestore

  datatype SessionKind = Terminal | Sftp
  datatype SessionStatus = Connecting | Connected | Closed | Error | Reconnecting
  datatype Tab =
    Tab(tabId: Id, kind: SessionKind, host: Host, layout: Option<PaneNode>, broadcastEnabled: bool)

  const MAX_PANES := 9

  /** A snapshot of the store; `next` is the first id `crypto.randomUUID()` has not handed out. */
  datatype Store =
    Store(openSessions: seq<Tab>, statuses: map<Id, SessionStatus>, sessionIds: map<Id, string>, next: Id)

  const EMPTY := Store([], map[], map[], 0)

  // ---------------------------------------------------------------- the invariant

  ghost function Panes(session: Tab): set<Id> {
    if session.layout.None? then {} else PaneIds(session.layout.value)
  }

  /** A terminal tab has 1 to MAX_PANES panes with distinct ids, an SFTP tab has no layout. */
  ghost predicate TabOk(session: Tab) {
    match session.kind
    case Sftp => session.layout.None?
    case Terminal =>
      session.layout.Some? && UniquePanes(session.layout.value) && CountLeaves(session.layout.value) <= MAX_PANES
  }

  ghost predicate DistinctTabs(sessions: seq<Tab>) {
    forall i, j :: 0 <= i < j < |sessions| ==>
                     sessions[i].tabId != sessions[j].tabId && Panes(sessions[i]) !! Panes(sessions[j])
  }

  /** Tab ids and pane ids are distinct across the whole store and were all handed out already. */
  ghost predicate Inv(s: Store) {
    && DistinctTabs(s.openSessions)
    && (forall i :: 0 <= i < |s.openSessions| ==>
          TabOk(s.openSessions[i]) && s.openSessions[i].tabId < s.next
              && forall p :: p in Panes(s.openSessions[i]) ==> p < s.next)
    && forall i, j :: 0 <= i < |s.openSessions| && 0 <= j < |s.openSessions| ==>
                        s.openSessions[i].tabId !in Panes(s.openSessions[j])
  }

  ghost predicate PaneOpen(s: Store, p: Id) {
    exists j :: 0 <= j < |s.openSessions| && p in Panes(s.openSessions[j])
  }

  ghost predicate TabOpen(s: Store, tabId: Id, kind: SessionKind) {
    exists j :: 0 <= j < |s.openSessions| && s.openSessions[j].tabId == tabId && s.openSessions[j].kind == kind
  }

  /** Every pane was open before, is one of those given, or has an id drawn since; every tab was open before with the
      same kind, or has such an id. */
  ghost predicate OnlyNew(s: Store, t: Store, given: set<Id>) {
    && s.next <= t.next
    && forall i :: 0 <= i < |t.openSessions| ==>
         && (t.openSessions[i].tabId < s.next ==> TabOpen(s, t.openSessions[i].tabId, t.openSessions[i].kind))
         && forall p :: p in Panes(t.openSessions[i]) && p < s.next ==> PaneOpen(s, p) || p in given
  }

  /** What an action makes of a store in order. */
  ghost predicate Follows(s: Store, t: Store) { Inv(t) && OnlyNew(s, t, {}) }

  // ---------------------------------------------------------------- actions, tab by tab

  /** Where the tab with this id sits. */
  function TabIndex(sessions: seq<Tab>, tabId: Id): (index: Option<nat>)
    ensures index.Some? ==> index.value < |sessions| && sessions[index.value].tabId == tabId
    ensures index.None? ==> forall i :: 0 <= i < |sessions| ==> sessions[i].tabId != tabId
  {
    if sessions == [] then None
    else if sessions[|sessions| - 1].tabId == tabId then Some(|sessions| - 1)
    else TabIndex(sessions[..|sessions| - 1], tabId)
  }

  function WithTabOpened(s: Store, host: Host, kind: SessionKind): Store {
    if kind == Sftp then
      s.(openSessions := s.openSessions + [Tab(s.next, kind, host, None, false)], next := s.next + 1)
    else
      s.(openSessions := s.openSessions + [Tab(s.next, kind, host, Some(Leaf(s.next + 1, host)), false)],
         next := s.next + 2)
  }

  /** `openSessions.filter`: every tab but those with this id. */
  function WithoutTab(sessions: seq<Tab>, tabId: Id): seq<Tab> {
    if sessions == [] then []
    else
      var last := |sessions| - 1;
      WithoutTab(sessions[..last], tabId) + (if sessions[last].tabId != tabId then [sessions[last]] else [])
  }

  /** The panes of the tab with this id, none if it has no layout. */
  ghost function PanesOfTab(s: Store, tabId: Id): set<Id> {
    var index := TabIndex(s.openSessions, tabId);
    if index.None? then {} else Panes(s.openSessions[index.value])
  }

  ghost function WithTabClosed(s: Store, tabId: Id): Store {
    var panes := PanesOfTab(s, tabId);
    Store(WithoutTab(s.openSessions, tabId), s.statuses - panes, s.sessionIds - panes, s.next)
  }

  /** The conditions under which `splitPane` has something to split. */
  predicate CanSplit(session: Tab, paneId: Id) {
    && session.kind == Terminal && session.layout.Some?
    && CountLeaves(session.layout.value) < MAX_PANES
    && FindLeaf(session.layout.value, paneId).Some?
  }

  /** The new pane's id is drawn first, whether or not it gets used. */
  function WithPaneSplit(s: Store, tabId: Id, paneId: Id, direction: Direction, host: Option<Host>)
    : (Store, Option<Id>)
  {
    match TabIndex(s.openSessions, tabId)
    case None => (s.(next := s.next + 1), None)
    case Some(i) =>
      var session := s.openSessions[i];
      if !CanSplit(session, paneId) then (s.(next := s.next + 1), None)
      else
        FindLeafFinds(session.layout.value, paneId);
        var newHost := if host.Some? then host.value else FindLeaf(session.layout.value, paneId).value.host;
        var (layout, next) := SplitLeaf(session.layout.value, paneId, direction, s.next, newHost, s.next + 1);
        (s.(openSessions := s.openSessions[i := session.(layout := Some(layout))], next := next), Some(s.next))
  }

  predicate CanClosePane(session: Tab, paneId: Id) {
    && session.kind == Terminal && session.layout.Some? && session.layout.value.Split?
    && FindLeaf(session.layout.value, paneId).Some?
    && RemoveLeaf(session.layout.value, paneId).Some?
  }

  function WithPaneClosed(s: Store, tabId: Id, paneId: Id): Store {
    match TabIndex(s.openSessions, tabId)
    case None => s
    case Some(i) =>
      var session := s.openSessions[i];
      if !CanClosePane(session, paneId) then s
      else s.(openSessions := s.openSessions[i := session.(layout := RemoveLeaf(session.layout.value, paneId))],
              statuses := s.statuses - {paneId}, sessionIds := s.sessionIds - {paneId})
  }

  /** The actions that rewrite the tab with a given id and touch nothing else. */
  datatype TabEdit = EditLayout(layout: PaneNode) | EditRatio(splitId: Id, ratio: real) | EditBroadcast

  function Edited(session: Tab, edit: TabEdit): Tab {
    match edit
    case EditLayout(layout) => session.(layout := Some(layout))
    case EditRatio(splitId, ratio) =>
      if session.layout.None? then session
      else session.(layout := Some(ResizeSplit(session.layout.value, splitId, ratio)))
    case EditBroadcast => session.(broadcastEnabled := !session.broadcastEnabled)
  }

  function WithTabEdited(s: Store, tabId: Id, edit: TabEdit): Store {
    match TabIndex(s.openSessions, tabId)
    case None => s
    case Some(i) => s.(openSessions := s.openSessions[i := Edited(s.openSessions[i], edit)])
  }

  /** The element at `from` moved to just before the element that was at `to`, or to the end. */
  function Moved<T>(xs: seq<T>, from: int, to: int): seq<T> {
    if !(0 <= from < |xs| && 0 <= to <= |xs|) || from == to then xs
    else if from < to then xs[..from] + xs[from + 1..to] + [xs[from]] + xs[to..]
    else xs[..to] + [xs[from]] + xs[to..from] + xs[from + 1..]
  }

  function Reordered(s: Store, from: int, to: int): Store {
    s.(openSessions := Moved(s.openSessions, from, to))
  }

  function FindTerminal(sessions: seq<Tab>, hostId: string): Option<Tab> {
    if sessions == [] then None
    else if sessions[0].host.id == hostId && sessions[0].kind == Terminal then Some(sessions[0])
    else FindTerminal(sessions[1..], hostId)
  }

  function FindLiveSessionId(sessions: seq<Tab>, sessionIds: map<Id, string>, hostId: string): Option<string> {
    match FindTerminal(sessions, hostId)
    case None => None
    case Some(tab) =>
      if tab.layout.None? then None
      else
        var first := CollectLeaves(tab.layout.value)[0].paneId;
        if first in sessionIds then Some(sessionIds[first]) else None
  }

  ghost function IdsOf(leaves: seq<PaneNode>): set<Id>
    requires forall l :: l in leaves ==> l.Leaf?
  {
    set l | l in leaves :: l.paneId
  }

  /** The leaves of the tab about to close, none when there is no such tab or it has no layout. */
  function ClosingLeaves(s: Store, tabId: Id): (leaves: seq<PaneNode>)
    ensures forall l :: l in leaves ==> l.Leaf?
    ensures IdsOf(leaves) == PanesOfTab(s, tabId)
  {
    var closing := TabIndex(s.openSessions, tabId);
    if closing.Some? && s.openSessions[closing.value].layout.Some? then
      PaneIdsOfLeaves(s.openSessions[closing.value].layout.value);
      CollectLeaves(s.openSessions[closing.value].layout.value)
    else []
  }

  /** `closeSession`'s loop: deletes every leaf's entry from copies of both maps. */
  method DropPanes(leaves: seq<PaneNode>, statuses: map<Id, SessionStatus>, sessionIds: map<Id, string>)
    returns (statuses': map<Id, SessionStatus>, sessionIds': map<Id, string>)
    requires forall l :: l in leaves ==> l.Leaf?
    ensures statuses' == statuses - IdsOf(leaves) && sessionIds' == sessionIds - IdsOf(leaves)
  {
    statuses', sessionIds' := statuses, sessionIds;
    for k := 0 to |leaves|
      invariant statuses' == statuses - IdsOf(leaves[..k]) && sessionIds' == sessionIds - IdsOf(leaves[..k])
    {
      statuses' := statuses' - {leaves[k].paneId};
      sessionIds' := sessionIds' - {leaves[k].paneId};
      assert IdsOf(leaves[..k + 1]) == IdsOf(leaves[..k]) + {leaves[k].paneId};
    }
    assert leaves[..|leaves|] == leaves;
  }

  /** `splitPane`'s pass over the tabs; its callback sets a flag when it splits one. */
  method SplitInTabs(s: Store, tabId: Id, paneId: Id, direction: Direction, host: Option<Host>)
    returns (tabs: seq<Tab>, next: Id, created: bool)
    requires DistinctTabs(s.openSessions)
    ensures var (after, newPane) := WithPaneSplit(s, tabId, paneId, direction, host);
            tabs == after.openSessions && next == after.next && created == newPane.Some?
  {
    ghost var after := WithPaneSplit(s, tabId, paneId, direction, host).0;
    ghost var index := TabIndex(s.openSessions, tabId);
    ghost var hit := index.Some? && CanSplit(s.openSessions[index.value], paneId);
    OnlyOneTab(s.openSessions, tabId);
    var newPaneId := s.next;
    tabs, next, created := [], s.next + 1, false;
    for k := 0 to |s.openSessions|
      invariant |tabs| == k && tabs == after.openSessions[..k]
      invariant created == (hit && index.value < k)
      invariant next == if created then after.next else s.next + 1
    {
      var session := s.openSessions[k];
      if session.tabId == tabId && session.kind == Terminal && session.layout.Some?
         && CountLeaves(session.layout.value) < MAX_PANES
      {
        var leaf := FindLeaf(session.layout.value, paneId);
        if leaf.Some? {
          created := true;
          FindLeafFinds(session.layout.value, paneId);
          var newHost := if host.Some? then host.value else leaf.value.host;
          var (layout, next') := SplitLeaf(session.layout.value, paneId, direction, newPaneId, newHost, next);
          session, next := session.(layout := Some(layout)), next';
        }
      }
      assert session == after.openSessions[k];
      tabs := tabs + [session];
    }
    assert after.openSessions[..|s.openSessions|] == after.openSessions;
  }

  /** `closePane`'s pass over the tabs. */
  method CloseInTabs(s: Store, tabId: Id, paneId: Id) returns (tabs: seq<Tab>, removed: bool)
    requires DistinctTabs(s.openSessions)
    ensures tabs == WithPaneClosed(s, tabId, paneId).openSessions
    ensures var index := TabIndex(s.openSessions, tabId);
            removed == (index.Some? && CanClosePane(s.openSessions[index.value], paneId))
  {
    ghost var after := WithPaneClosed(s, tabId, paneId).openSessions;
    ghost var index := TabIndex(s.openSessions, tabId);
    OnlyOneTab(s.openSessions, tabId);
    tabs, removed := [], false;
    for k := 0 to |s.openSessions|
      invariant |tabs| == k && tabs == after[..k]
      invariant removed == (index.Some? && index.value < k && CanClosePane(s.openSessions[index.value], paneId))
    {
      var session := s.openSessions[k];
      if session.tabId == tabId && session.kind == Terminal && session.layout.Some? {
        if session.layout.value.Split? && FindLeaf(session.layout.value, paneId).Some? {
          var next := RemoveLeaf(session.layout.value, paneId);
          if next.Some? {
            removed := true;
            session := session.(layout := next);
          }
        }
      }
      assert session == after[k];
      tabs := tabs + [session];
    }
    assert after[..|s.openSessions|] == after;
  }

  // ---------------------------------------------------------------- the store object

  class SessionsStore {
    var openSessions: seq<Tab>
    var statuses: map<Id, SessionStatus>
    var sessionIds: map<Id, string>
    var nextId: Id

    constructor ()
      ensures Snapshot() == EMPTY && Valid()
    {
      openSessions, statuses, sessionIds, nextId := [], map[], map[], 0;
    }

    function Snapshot(): Store
      reads this
    {
      Store(openSessions, statuses, sessionIds, nextId)
    }

    ghost predicate Valid()
      reads this
    {
      Inv(Snapshot())
    }

    method OpenSession(host: Host, kind: SessionKind) returns (tabId: Id)
      requires Valid()
      modifies this
      ensures Valid()
      ensures Snapshot() == WithTabOpened(old(Snapshot()), host, kind) && tabId == old(nextId)
    {
      OpenKeepsInv(Snapshot(), host, kind);
      ghost var grown := WithTabOpened(Snapshot(), host, kind);
      tabId := nextId;
      nextId := nextId + 1;
      var layout: Option<PaneNode> := None;
      if kind == Terminal {
        layout := Some(Leaf(nextId, host));
        nextId := nextId + 1;
      }
      openSessions := openSessions + [Tab(tabId, kind, host, layout, false)];
      assert Snapshot() == grown;
    }

    method CloseSession(tabId: Id)
      requires Valid()
      modifies this
      ensures Valid()
      ensures Snapshot() == WithTabClosed(old(Snapshot()), tabId)
    {
      CloseKeepsInv(Snapshot(), tabId);
      var leaves := ClosingLeaves(Snapshot(), tabId);
      statuses, sessionIds := DropPanes(leaves, statuses, sessionIds);
      openSessions := WithoutTab(openSessions, tabId);
    }

    method SetStatus(paneId: Id, status: SessionStatus)
      requires Valid()
      modifies this
      ensures Valid()
      ensures Snapshot() == old(Snapshot()).(statuses := old(statuses)[paneId := status])
    {
      statuses := statuses[paneId := status];
    }

    method SetSessionId(paneId: Id, sessionId: string)
      requires Valid()
      modifies this
      ensures Valid()
      ensures Snapshot() == old(Snapshot()).(sessionIds := old(sessionIds)[paneId := sessionId])
    {
      sessionIds := sessionIds[paneId := sessionId];
    }

    /** Maps over every tab; a flag set inside the callback says whether one of them was split. */
    method SplitPane(tabId: Id, paneId: Id, direction: Direction, host: Option<Host>) returns (newPane: Option<Id>)
      requires Valid()
      modifies this
      ensures Valid()
      ensures (Snapshot(), newPane) == WithPaneSplit(old(Snapshot()), tabId, paneId, direction, host)
      ensures newPane.Some? <==> openSessions != old(openSessions)
    {
      SplitKeepsInv(Snapshot(), tabId, paneId, direction, host);
      var newPaneId := nextId;
      var created;
      openSessions, nextId, created := SplitInTabs(Snapshot(), tabId, paneId, direction, host);
      newPane := if created then Some(newPaneId) else None;
    }

    method ClosePane(tabId: Id, paneId: Id)
      requires Valid()
      modifies this
      ensures Valid()
      ensures Snapshot() == WithPaneClosed(old(Snapshot()), tabId, paneId)
    {
      ClosePaneKeepsInv(Snapshot(), tabId, paneId);
      var tabs, removed := CloseInTabs(Snapshot(), tabId, paneId);
      if removed {
        openSessions := tabs;
        statuses := statuses - {paneId};
        sessionIds := sessionIds - {paneId};
      }
    }

    /** Any tree for any tab: the invariant survives exactly if the tree fits the tab. */
    method SetLayout(tabId: Id, layout: PaneNode)
      requires Valid()
      modifies this
      ensures Snapshot() == WithTabEdited(old(Snapshot()), tabId, EditLayout(layout))
      ensures var index := TabIndex(old(openSessions), tabId);
              Valid() <==> index.None? || LayoutFits(old(Snapshot()), index.value, layout)
    {
      SetLayoutKeepsInvIff(Snapshot(), tabId, layout);
      MapTouchesOneTab(openSessions, tabId, EditLayout(layout));
      openSessions := MapTab(openSessions, tabId, EditLayout(layout));
    }

    method ResizePaneSplit(tabId: Id, splitId: Id, ratio: real)
      requires Valid()
      modifies this
      ensures Valid()
      ensures Snapshot() == WithTabEdited(old(Snapshot()), tabId, EditRatio(splitId, ratio))
    {
      ResizeKeepsInv(Snapshot(), tabId, splitId, ratio);
      MapTouchesOneTab(openSessions, tabId, EditRatio(splitId, ratio));
      openSessions := MapTab(openSessions, tabId, EditRatio(splitId, ratio));
    }

    method ToggleBroadcast(tabId: Id)
      requires Valid()
      modifies this
      ensures Valid()
      ensures Snapshot() == WithTabEdited(old(Snapshot()), tabId, EditBroadcast)
    {
      ToggleKeepsInv(Snapshot(), tabId);
      MapTouchesOneTab(openSessions, tabId, EditBroadcast);
      openSessions := MapTab(openSessions, tabId, EditBroadcast);
    }

    /** Takes the tab out of a copy of the list and puts it back at an index corrected for the removal. */
    method ReorderSessions(fromIndex: int, toIndex: int)
      requires Valid()
      modifies this
      ensures Valid()
      ensures Snapshot() == Reordered(old(Snapshot()), fromIndex, toIndex)
    {
      ReorderKeepsInv(Snapshot(), fromIndex, toIndex);
      if fromIndex == toIndex || fromIndex < 0 || fromIndex >= |openSessions|
         || toIndex < 0 || toIndex > |openSessions|
      {
        return;
      }
      var next := openSessions;
      var moved := next[fromIndex];
      next := next[..fromIndex] + next[fromIndex + 1..];
      var insertAt := if fromIndex < toIndex then toIndex - 1 else toIndex;
      var at := if insertAt < 0 then 0 else if insertAt > |next| then |next| else insertAt;
      SplicesMove(openSessions, fromIndex, toIndex);
      next := next[..at] + [moved] + next[at..];
      openSessions := next;
    }
  }

  /** `openSessions.map` with a callback that leaves other tabs alone. */
  function MapTab(sessions: seq<Tab>, tabId: Id, edit: TabEdit): seq<Tab> {
    seq(|sessions|, i requires 0 <= i < |sessions| =>
      if sessions[i].tabId == tabId then Edited(sessions[i], edit) else sessions[i])
  }

  lemma OnlyOneTab(sessions: seq<Tab>, tabId: Id)
    requires DistinctTabs(sessions)
    ensures forall k :: 0 <= k < |sessions| ==> (sessions[k].tabId == tabId <==> TabIndex(sessions, tabId) == Some(k))
  {
  }

  lemma {:induction false} WithoutAbsentTab(sessions: seq<Tab>, tabId: Id)
    requires TabIndex(sessions, tabId).None?
    ensures WithoutTab(sessions, tabId) == sessions
  {
    if sessions != [] {
      WithoutAbsentTab(sessions[..|sessions| - 1], tabId);
    }
  }

  /** With distinct ids, closing a tab takes out exactly one element. */
  lemma {:induction false} WithoutTabRemovesOne(sessions: seq<Tab>, tabId: Id)
    requires forall i, j :: 0 <= i < j < |sessions| ==> sessions[i].tabId != sessions[j].tabId
    ensures var index := TabIndex(sessions, tabId);
            if index.None? then WithoutTab(sessions, tabId) == sessions
            else WithoutTab(sessions, tabId) == sessions[..index.value] + sessions[index.value + 1..]
  {
    if sessions != [] {
      var last := |sessions| - 1;
      if sessions[last].tabId == tabId {
        assert TabIndex(sessions[..last], tabId).None?;
        WithoutAbsentTab(sessions[..last], tabId);
        assert sessions[last + 1..] == [];
      } else {
        WithoutTabRemovesOne(sessions[..last], tabId);
        var index := TabIndex(sessions[..last], tabId);
        if index.Some? {
          assert sessions[..last][..index.value] == sessions[..index.value];
          assert sessions[..last][index.value + 1..] + [sessions[last]] == sessions[index.value + 1..];
        }
      }
    }
  }

  lemma MapTouchesOneTab(sessions: seq<Tab>, tabId: Id, edit: TabEdit)
    requires DistinctTabs(sessions)
    ensures MapTab(sessions, tabId, edit) ==
              match TabIndex(sessions, tabId)
              case None => sessions
              case Some(i) => sessions[i := Edited(sessions[i], edit)]
  {
  }

  // ---------------------------------------------------------------- every action keeps the invariant

  /** No other tab has a pane with such an id, no tab has one itself, and it was drawn already. */
  ghost predicate FreeFor(s: Store, i: nat, p: Id) {
    && p < s.next
    && forall j :: 0 <= j < |s.openSessions| ==>
         s.openSessions[j].tabId != p && (j != i ==> p !in Panes(s.openSessions[j]))
  }

  /** Replacing a tab by one with the same id keeps the invariant exactly if the new one is in order and its panes'
      ids are free. */
  lemma ReplaceTabKeepsInvIff(s: Store, i: nat, tab: Tab)
    requires Inv(s) && i < |s.openSessions| && tab.tabId == s.openSessions[i].tabId
    ensures Inv(s.(openSessions := s.openSessions[i := tab]))
       <==> TabOk(tab) && forall p :: p in Panes(tab) ==> FreeFor(s, i, p)
  {
    var tabs := s.openSessions[i := tab];
    if TabOk(tab) && forall p :: p in Panes(tab) ==> FreeFor(s, i, p) {
      forall j, k | 0 <= j < k < |tabs|
        ensures tabs[j].tabId != tabs[k].tabId && Panes(tabs[j]) !! Panes(tabs[k])
      {
        assert s.openSessions[j].tabId != s.openSessions[k].tabId;
        assert Panes(s.openSessions[j]) !! Panes(s.openSessions[k]);
      }
      forall j, k | 0 <= j < |tabs| && 0 <= k < |tabs|
        ensures tabs[j].tabId !in Panes(tabs[k])
      {
        assert s.openSessions[j].tabId !in Panes(s.openSessions[k]);
      }
    }
    if Inv(s.(openSessions := tabs)) {
      assert tabs[i] == tab;
      forall p | p in Panes(tab) ensures FreeFor(s, i, p) {
        forall j | 0 <= j < |tabs| ensures s.openSessions[j].tabId != p && (j != i ==> p !in Panes(s.openSessions[j])) {
          assert tabs[j].tabId == s.openSessions[j].tabId && tabs[j].tabId !in Panes(tabs[i]);
          if j < i { assert Panes(tabs[j]) !! Panes(tabs[i]); }
          if i < j { assert Panes(tabs[i]) !! Panes(tabs[j]); }
        }
      }
    }
  }

  /** Replacing one tab by another of its kind with the same id, whose panes are its old ones or new ones. */
  lemma ReplaceTabKeepsInv(s: Store, i: nat, tab: Tab, next: Id)
    requires Inv(s) && i < |s.openSessions| && s.next <= next
    requires TabOk(tab) && tab.tabId == s.openSessions[i].tabId && tab.kind == s.openSessions[i].kind
    requires forall p :: p in Panes(tab) ==> p in Panes(s.openSessions[i]) || s.next <= p < next
    ensures Follows(s, s.(openSessions := s.openSessions[i := tab], next := next))
  {
    var moved := s.(next := next);
    InvIgnoresMaps(s, moved);
    forall p | p in Panes(tab) ensures FreeFor(moved, i, p) {
      if p < s.next {
        forall j | 0 <= j < |s.openSessions| && j != i ensures p !in Panes(s.openSessions[j]) {
          if j < i { assert Panes(s.openSessions[j]) !! Panes(s.openSessions[i]); }
          if i < j { assert Panes(s.openSessions[i]) !! Panes(s.openSessions[j]); }
        }
      }
    }
    ReplaceTabKeepsInvIff(moved, i, tab);
    ReplacedOnlyNew(s, i, tab, next, {});
  }

  lemma ReplacedOnlyNew(s: Store, i: nat, tab: Tab, next: Id, given: set<Id>)
    requires i < |s.openSessions| && s.next <= next
    requires tab.tabId == s.openSessions[i].tabId && tab.kind == s.openSessions[i].kind
    requires forall p :: p in Panes(tab) && p < s.next ==> p in Panes(s.openSessions[i]) || p in given
    ensures OnlyNew(s, s.(openSessions := s.openSessions[i := tab], next := next), given)
  {
  }

  /** A tab added at the end, with ids not handed out before. */
  lemma AppendTabKeepsInv(s: Store, tab: Tab, next: Id)
    requires Inv(s) && TabOk(tab) && s.next <= tab.tabId < next && tab.tabId !in Panes(tab)
    requires forall p :: p in Panes(tab) ==> s.next <= p < next
    ensures Follows(s, s.(openSessions := s.openSessions + [tab], next := next))
  {
    var tabs, last := s.openSessions + [tab], |s.openSessions|;
    forall i | 0 <= i < |tabs|
      ensures TabOk(tabs[i]) && tabs[i].tabId < next && forall p :: p in Panes(tabs[i]) ==> p < next
    {
      if i < last { assert tabs[i] == s.openSessions[i]; }
    }
    forall i, j | 0 <= i < j < |tabs| ensures tabs[i].tabId != tabs[j].tabId && Panes(tabs[i]) !! Panes(tabs[j]) {
      assert tabs[i] == s.openSessions[i];
      if j < last { assert tabs[j] == s.openSessions[j]; }
    }
    forall i, j | 0 <= i < |tabs| && 0 <= j < |tabs| ensures tabs[i].tabId !in Panes(tabs[j]) {
      if i < last { assert tabs[i] == s.openSessions[i]; }
      if j < last { assert tabs[j] == s.openSessions[j]; }
    }
  }

  lemma OpenKeepsInv(s: Store, host: Host, kind: SessionKind)
    requires Inv(s)
    ensures Follows(s, WithTabOpened(s, host, kind))
  {
    if kind == Sftp {
      AppendTabKeepsInv(s, Tab(s.next, kind, host, None, false), s.next + 1);
    } else {
      AppendTabKeepsInv(s, Tab(s.next, kind, host, Some(Leaf(s.next + 1, host)), false), s.next + 2);
    }
  }

  /** Dropping and permuting tabs keeps the invariant: every remaining tab has a source of its own. */
  lemma RearrangedKeepsInv(s: Store, t: Store, source: seq<nat>)
    requires Inv(s) && t.next == s.next && |source| == |t.openSessions|
    requires forall j :: 0 <= j < |source| ==>
               source[j] < |s.openSessions| && t.openSessions[j] == s.openSessions[source[j]]
    requires forall j, k :: 0 <= j < k < |source| ==> source[j] != source[k]
    ensures Follows(s, t)
  {
    var before, after := s.openSessions, t.openSessions;
    forall j, k | 0 <= j < k < |after|
      ensures after[j].tabId != after[k].tabId && Panes(after[j]) !! Panes(after[k])
    {
      var x, y := source[j], source[k];
      if x < y {
        assert before[x].tabId != before[y].tabId && Panes(before[x]) !! Panes(before[y]);
      } else {
        assert before[y].tabId != before[x].tabId && Panes(before[y]) !! Panes(before[x]);
      }
    }
    forall j, k | 0 <= j < |after| && 0 <= k < |after|
      ensures after[j].tabId !in Panes(after[k])
    {
      assert before[source[j]].tabId !in Panes(before[source[k]]);
    }
  }

  lemma SourcesWithoutOne(sessions: seq<Tab>, i: nat, rest: seq<Tab>) returns (source: seq<nat>)
    requires i < |sessions| && rest == sessions[..i] + sessions[i + 1..]
    ensures |source| == |rest| && forall j :: 0 <= j < |source| ==> source[j] == if j < i then j else j + 1
    ensures forall j :: 0 <= j < |source| ==> source[j] < |sessions| && rest[j] == sessions[source[j]]
  {
    source := seq(|rest|, j requires 0 <= j => if j < i then j else j + 1);
  }

  lemma ClosingSources(sessions: seq<Tab>, tabId: Id) returns (source: seq<nat>)
    requires forall i, j :: 0 <= i < j < |sessions| ==> sessions[i].tabId != sessions[j].tabId
    ensures |source| == |WithoutTab(sessions, tabId)|
    ensures forall j :: 0 <= j < |source| ==>
              source[j] < |sessions| && WithoutTab(sessions, tabId)[j] == sessions[source[j]]
    ensures forall j, k :: 0 <= j < k < |source| ==> source[j] != source[k]
  {
    WithoutTabRemovesOne(sessions, tabId);
    var index := TabIndex(sessions, tabId);
    if index.None? {
      source := seq(|sessions|, j requires 0 <= j => j);
    } else {
      source := SourcesWithoutOne(sessions, index.value, WithoutTab(sessions, tabId));
    }
  }

  lemma CloseKeepsInv(s: Store, tabId: Id)
    requires Inv(s)
    ensures Follows(s, WithTabClosed(s, tabId))
  {
    var source := ClosingSources(s.openSessions, tabId);
    RearrangedKeepsInv(s, WithTabClosed(s, tabId), source);
  }

  /** Nothing about the store but the open tabs and the id counter enters its invariant. */
  lemma InvIgnoresMaps(s: Store, t: Store)
    requires Inv(s) && t.openSessions == s.openSessions && s.next <= t.next
    ensures Follows(s, t)
  {
  }

  lemma FollowsIgnoresMaps(s: Store, t: Store, u: Store)
    requires Follows(s, t) && u.openSessions == t.openSessions && u.next == t.next
    ensures Follows(s, u)
  {
  }

  lemma SplitKeepsInv(s: Store, tabId: Id, paneId: Id, direction: Direction, host: Option<Host>)
    requires Inv(s)
    ensures Follows(s, WithPaneSplit(s, tabId, paneId, direction, host).0)
    ensures WithPaneSplit(s, tabId, paneId, direction, host).1.Some? <==>
              WithPaneSplit(s, tabId, paneId, direction, host).0.openSessions != s.openSessions
  {
    var after := WithPaneSplit(s, tabId, paneId, direction, host).0;
    var index := TabIndex(s.openSessions, tabId);
    if index.Some? && CanSplit(s.openSessions[index.value], paneId) {
      var session := s.openSessions[index.value];
      var layout := session.layout.value;
      FindLeafFinds(layout, paneId);
      var newHost := if host.Some? then host.value else FindLeaf(layout, paneId).value.host;
      SplitPanes(layout, paneId, direction, s.next, newHost, s.next + 1);
      SplitDrawsOneId(layout, paneId, direction, s.next, newHost, s.next + 1);
      ReplaceTabKeepsInv(s, index.value, after.openSessions[index.value], after.next);
      assert Follows(s, after);
    } else {
      InvIgnoresMaps(s, after);
    }
  }

  lemma ClosePaneKeepsInv(s: Store, tabId: Id, paneId: Id)
    requires Inv(s)
    ensures Follows(s, WithPaneClosed(s, tabId, paneId))
  {
    var index := TabIndex(s.openSessions, tabId);
    if index.Some? && CanClosePane(s.openSessions[index.value], paneId) {
      var layout := s.openSessions[index.value].layout.value;
      RemoveIsPrune(layout, paneId);
      PrunePanes(layout, {paneId});
      PruneShrinks(layout, {paneId});
      var after := WithPaneClosed(s, tabId, paneId);
      ReplaceTabKeepsInv(s, index.value, after.openSessions[index.value], s.next);
      FollowsIgnoresMaps(s, s.(openSessions := after.openSessions), after);
    }
  }

  /** A layout for the terminal tab at i, whose pane ids no tab and no other tab's panes have. */
  ghost predicate LayoutFits(s: Store, i: nat, layout: PaneNode)
    requires i < |s.openSessions|
  {
    && s.openSessions[i].kind == Terminal && UniquePanes(layout) && CountLeaves(layout) <= MAX_PANES
    && forall p :: p in PaneIds(layout) ==> FreeFor(s, i, p)
  }

  lemma SetLayoutKeepsInvIff(s: Store, tabId: Id, layout: PaneNode)
    requires Inv(s)
    ensures var index := TabIndex(s.openSessions, tabId);
            Inv(WithTabEdited(s, tabId, EditLayout(layout)))
            <==> index.None? || LayoutFits(s, index.value, layout)
  {
    var index := TabIndex(s.openSessions, tabId);
    if index.Some? {
      ReplaceTabKeepsInvIff(s, index.value, s.openSessions[index.value].(layout := Some(layout)));
    }
  }

  lemma {:induction false} ResizeKeepsPanes(node: PaneNode, splitId: Id, ratio: real)
    ensures var resized := ResizeSplit(node, splitId, ratio);
            PaneIds(resized) == PaneIds(node) && CountLeaves(resized) == CountLeaves(node)
                && (UniquePanes(node) ==> UniquePanes(resized))
  {
    if node.Split? {
      ResizeKeepsPanes(node.a, splitId, ratio);
      ResizeKeepsPanes(node.b, splitId, ratio);
    }
  }

  lemma ResizeKeepsInv(s: Store, tabId: Id, splitId: Id, ratio: real)
    requires Inv(s)
    ensures Follows(s, WithTabEdited(s, tabId, EditRatio(splitId, ratio)))
  {
    var index := TabIndex(s.openSessions, tabId);
    if index.Some? {
      var session := s.openSessions[index.value];
      if session.layout.Some? { ResizeKeepsPanes(session.layout.value, splitId, ratio); }
      ReplaceTabKeepsInv(s, index.value, Edited(session, EditRatio(splitId, ratio)), s.next);
    }
  }

  lemma ToggleKeepsInv(s: Store, tabId: Id)
    requires Inv(s)
    ensures Follows(s, WithTabEdited(s, tabId, EditBroadcast))
  {
    var index := TabIndex(s.openSessions, tabId);
    if index.Some? {
      var session := s.openSessions[index.value];
      ReplaceTabKeepsInv(s, index.value, session.(broadcastEnabled := !session.broadcastEnabled), s.next);
    }
  }

  /** Where each element of the reordered list came from. */
  function MoveSource(from: int, to: int, k: int): int {
    if from < to then (if k < from || k >= to then k else if k == to - 1 then from else k + 1)
    else (if k < to || k > from then k else if k == to then from else k - 1)
  }

  lemma MovedFrom<T>(xs: seq<T>, from: int, to: int, k: int)
    requires 0 <= from < |xs| && 0 <= to <= |xs| && from != to
    ensures |Moved(xs, from, to)| == |xs|
    ensures 0 <= k < |xs|
        ==> 0 <= MoveSource(from, to, k) < |xs| && Moved(xs, from, to)[k] == xs[MoveSource(from, to, k)]
  {
  }

  /** The two splices of `reorderSessions`: out at `from`, back in at an index corrected for the removal. */
  lemma SplicesMove<T>(xs: seq<T>, from: int, to: int)
    requires 0 <= from < |xs| && 0 <= to <= |xs| && from != to
    ensures var rest, at := xs[..from] + xs[from + 1..], if from < to then to - 1 else to;
            rest[..at] + [xs[from]] + rest[at..] == Moved(xs, from, to)
  {
    var rest := xs[..from] + xs[from + 1..];
    if from < to {
      assert rest[..to - 1] == xs[..from] + xs[from + 1..to];
      assert rest[to - 1..] == xs[to..];
    } else {
      assert rest[..to] == xs[..to];
      assert rest[to..] == xs[to..from] + xs[from + 1..];
    }
  }

  lemma PutInto<T>(rest: seq<T>, at: nat, x: T)
    requires at <= |rest|
    ensures var all := rest[..at] + [x] + rest[at..];
            && |all| == |rest| + 1 && all[at] == x && all[..at] + all[at + 1..] == rest
            && multiset(all) == multiset(rest) + multiset{x}
  {
    assert rest == rest[..at] + rest[at..];
  }

  lemma TakenOut<T>(xs: seq<T>, from: nat)
    requires from < |xs|
    ensures multiset(xs) == multiset(xs[..from] + xs[from + 1..]) + multiset{xs[from]}
  {
    var rest := xs[..from] + xs[from + 1..];
    assert xs == rest[..from] + [xs[from]] + rest[from..];
    PutInto(rest, from, xs[from]);
  }

  lemma NeighbourAfterMove<T>(xs: seq<T>, from: int, to: int)
    requires 0 <= from < |xs| && 0 <= to < |xs| && from != to
    ensures var at := if from < to then to - 1 else to;
            && (to != from + 1 ==> Moved(xs, from, to)[at + 1] == xs[to])
            && (to == from + 1 ==> Moved(xs, from, to) == xs)
  {
    MovedFrom(xs, from, to, if from < to then to else to + 1);
  }

  /** Reordering is a permutation: the moved tab ends up just before the tab that was at `to` (or last), and
      the other tabs keep their order. */
  lemma ReorderMovesOneTab(tabs: seq<Tab>, from: int, to: int)
    requires 0 <= from < |tabs| && 0 <= to <= |tabs| && from != to
    ensures var moved, at := Moved(tabs, from, to), if from < to then to - 1 else to;
            && |moved| == |tabs| && multiset(moved) == multiset(tabs)
            && moved[at] == tabs[from]
            && (to == |tabs| ==> at == |moved| - 1)
            && (to < |tabs| && to != from + 1 ==> moved[at + 1] == tabs[to])
            && (to == from + 1 ==> moved == tabs)
            && moved[..at] + moved[at + 1..] == tabs[..from] + tabs[from + 1..]
  {
    var at := if from < to then to - 1 else to;
    SplicesMove(tabs, from, to);
    PutInto(tabs[..from] + tabs[from + 1..], at, tabs[from]);
    TakenOut(tabs, from);
    if to < |tabs| {
      NeighbourAfterMove(tabs, from, to);
    }
  }

  lemma MoveSourceInjective(n: int, from: int, to: int, j: int, k: int)
    requires 0 <= from < n && 0 <= to <= n && from != to && 0 <= j < k < n
    ensures MoveSource(from, to, j) != MoveSource(from, to, k)
  {
  }

  lemma MovedSources(tabs: seq<Tab>, from: int, to: int) returns (source: seq<nat>)
    requires 0 <= from < |tabs| && 0 <= to <= |tabs| && from != to
    ensures |source| == |Moved(tabs, from, to)|
    ensures forall j :: 0 <= j < |source| ==> source[j] < |tabs| && Moved(tabs, from, to)[j] == tabs[source[j]]
    ensures forall j, k :: 0 <= j < k < |source| ==> source[j] != source[k]
  {
    var moved := Moved(tabs, from, to);
    source := [];
    MovedFrom(tabs, from, to, 0);
    for n := 0 to |moved|
      invariant |source| == n
      invariant forall j :: 0 <= j < n ==> source[j] == MoveSource(from, to, j) < |tabs| && moved[j] == tabs[source[j]]
    {
      MovedFrom(tabs, from, to, n);
      source := source + [MoveSource(from, to, n)];
    }
    forall j, k | 0 <= j < k < |source| ensures source[j] != source[k] {
      MoveSourceInjective(|tabs|, from, to, j, k);
    }
  }

  lemma ReorderKeepsInv(s: Store, from: int, to: int)
    requires Inv(s)
    ensures Follows(s, Reordered(s, from, to))
  {
    if 0 <= from < |s.openSessions| && 0 <= to <= |s.openSessions| && from != to {
      var source := MovedSources(s.openSessions, from, to);
      RearrangedKeepsInv(s, Reordered(s, from, to), source);
    } else {
      InvIgnoresMaps(s, s);
    }
  }

  // ---------------------------------------------------------------- every action

  datatype Action =
    | AOpen(host: Host, kind: SessionKind)
    | ACloseTab(tabId: Id)
    | ASetStatus(paneId: Id, status: SessionStatus)
    | ASetSessionId(paneId: Id, sessionId: string)
    | ASplit(tabId: Id, paneId: Id, direction: Direction, newHost: Option<Host>)
    | AClosePane(tabId: Id, paneId: Id)
    | AResize(tabId: Id, splitId: Id, ratio: real)
    | AToggle(tabId: Id)
    | AReorder(from: int, to: int)

  /** Every action but `setLayout`, which takes any tree. */
  ghost function Step(s: Store, action: Action): Store {
    match action
    case AOpen(host, kind) => WithTabOpened(s, host, kind)
    case ACloseTab(tabId) => WithTabClosed(s, tabId)
    case ASetStatus(p, status) => s.(statuses := s.statuses[p := status])
    case ASetSessionId(p, sessionId) => s.(sessionIds := s.sessionIds[p := sessionId])
    case ASplit(tabId, p, d, host) => WithPaneSplit(s, tabId, p, d, host).0
    case AClosePane(tabId, p) => WithPaneClosed(s, tabId, p)
    case AResize(tabId, splitId, ratio) => WithTabEdited(s, tabId, EditRatio(splitId, ratio))
    case AToggle(tabId) => WithTabEdited(s, tabId, EditBroadcast)
    case AReorder(from, to) => Reordered(s, from, to)
  }

  lemma StepKeepsInv(s: Store, action: Action)
    requires Inv(s)
    ensures Follows(s, Step(s, action))
  {
    match action
    case AOpen(host, kind) => OpenKeepsInv(s, host, kind);
    case ACloseTab(tabId) => CloseKeepsInv(s, tabId);
    case ASetStatus(p, status) => InvIgnoresMaps(s, Step(s, action));
    case ASetSessionId(p, sessionId) => InvIgnoresMaps(s, Step(s, action));
    case ASplit(tabId, p, d, host) => SplitKeepsInv(s, tabId, p, d, host);
    case AClosePane(tabId, p) => ClosePaneKeepsInv(s, tabId, p);
    case AResize(tabId, splitId, ratio) => ResizeKeepsInv(s, tabId, splitId, ratio);
    case AToggle(tabId) => ToggleKeepsInv(s, tabId);
    case AReorder(from, to) => ReorderKeepsInv(s, from, to);
  }

  // ---------------------------------------------------------------- the live session

  lemma {:induction false} FindTerminalAfterUpdate(sessions: seq<Tab>, i: nat, tab: Tab, hostId: string)
    requires i < |sessions| && tab.host == sessions[i].host && tab.kind == sessions[i].kind
    ensures var before, after := FindTerminal(sessions, hostId), FindTerminal(sessions[i := tab], hostId);
            && (before.Some? <==> after.Some?)
            && (before.Some? ==> after.value == before.value || (before.value == sessions[i] && after.value == tab))
  {
    if i > 0 {
      FindTerminalAfterUpdate(sessions[1..], i - 1, tab, hostId);
      assert sessions[i := tab][1..] == sessions[1..][i - 1 := tab];
    }
  }

  predicate IsTerminalOf(session: Tab, hostId: string) { session.host.id == hostId && session.kind == Terminal }

  /** Tab i is the first terminal open for the host, and its first pane's session is sid. */
  ghost predicate LiveAt(sessions: seq<Tab>, sessionIds: map<Id, string>, hostId: string, i: nat, sid: string) {
    && i < |sessions| && IsTerminalOf(sessions[i], hostId)
    && (forall j :: 0 <= j < i ==> !IsTerminalOf(sessions[j], hostId))
    && sessions[i].layout.Some?
    && var paneId := CollectLeaves(sessions[i].layout.value)[0].paneId;
       paneId in sessionIds && sessionIds[paneId] == sid
  }

  /** The session found for a host is that of the first pane of its first terminal tab, if there is one. */
  lemma {:induction false} LiveSessionIsFirstTerminals(
    sessions: seq<Tab>, sessionIds: map<Id, string>, hostId: string, sid: string)
    ensures FindLiveSessionId(sessions, sessionIds, hostId) == Some(sid)
       <==> exists i: nat :: LiveAt(sessions, sessionIds, hostId, i, sid)
  {
    if sessions != [] {
      if IsTerminalOf(sessions[0], hostId) {
        assert LiveAt(sessions, sessionIds, hostId, 0, sid)
            <==> FindLiveSessionId(sessions, sessionIds, hostId) == Some(sid);
      } else {
        LiveSessionIsFirstTerminals(sessions[1..], sessionIds, hostId, sid);
        if i: nat :| LiveAt(sessions, sessionIds, hostId, i, sid) {
          assert LiveAt(sessions[1..], sessionIds, hostId, i - 1, sid);
        }
        if i: nat :| LiveAt(sessions[1..], sessionIds, hostId, i, sid) {
          assert LiveAt(sessions, sessionIds, hostId, i + 1, sid);
        }
      }
    }
  }

  /** Splitting any pane leaves the session that commands for a host are written to as it was. */
  lemma SplitKeepsLiveSession(s: Store, tabId: Id, paneId: Id, direction: Direction, host: Option<Host>, hostId: string)
    requires Inv(s)
    ensures var after := WithPaneSplit(s, tabId, paneId, direction, host).0;
            FindLiveSessionId(after.openSessions, after.sessionIds, hostId)
                == FindLiveSessionId(s.openSessions, s.sessionIds, hostId)
  {
    var index := TabIndex(s.openSessions, tabId);
    if index.Some? && CanSplit(s.openSessions[index.value], paneId) {
      var session := s.openSessions[index.value];
      var layout := session.layout.value;
      FindLeafFinds(layout, paneId);
      var newHost := if host.Some? then host.value else FindLeaf(layout, paneId).value.host;
      SplitPanes(layout, paneId, direction, s.next, newHost, s.next + 1);
      var after := WithPaneSplit(s, tabId, paneId, direction, host).0;
      FindTerminalAfterUpdate(s.openSessions, index.value, after.openSessions[index.value], hostId);
    }
  }
}
