/** What each action of the tab store does, in terms of the tabs, panes and entries before and after
    (src/state/sessionsStore.ts:99-211). */
module SessionsEffects {
  import opened Wrappers
  import opened PaneTree
  import opened PaneGeometry
  import opened SessionsStore

  /** Only the layout of the tab with this id may differ; every tab keeps id, kind, host and broadcast mode. */
  ghost predicate OnlyLayoutOf(s: Store, t: Store, tabId: Id) {
    && |t.openSessions| == |s.openSessions|
    && forall i :: 0 <= i < |s.openSessions| ==>
         && t.openSessions[i].(layout := None) == s.openSessions[i].(layout := None)
         && (s.openSessions[i].tabId != tabId ==> t.openSessions[i] == s.openSessions[i])
  }

  ghost predicate SameEntries(s: Store, t: Store) { t.statuses == s.statuses && t.sessionIds == s.sessionIds }

  ghost predicate TabAt(s: Store, tabId: Id, i: nat) { i < |s.openSessions| && s.openSessions[i].tabId == tabId }

  // ---------------------------------------------------------------- opening

  /** One more tab at the end, with unused ids: a terminal has one pane on the host, an SFTP tab none, and neither
      broadcasts. */
  lemma OpenAppends(s: Store, host: Host, kind: SessionKind)
    ensures var t := WithTabOpened(s, host, kind);
            && |t.openSessions| == |s.openSessions| + 1 && t.openSessions[..|s.openSessions|] == s.openSessions
            && SameEntries(s, t)
            && var tab := t.openSessions[|s.openSessions|];
               && s.next <= tab.tabId < t.next && tab.kind == kind && tab.host == host && !tab.broadcastEnabled
               && (kind.Sftp? ==> tab.layout.None?)
               && (kind.Terminal? ==>
                     && tab.layout.Some? && tab.layout.value.Leaf? && tab.layout.value.host == host
                     && s.next <= tab.layout.value.paneId < t.next && tab.layout.value.paneId != tab.tabId)
  {
  }

  // ---------------------------------------------------------------- closing

  /** The tab at i is gone, and with it the entries of its panes. */
  ghost predicate TakenOut(s: Store, t: Store, i: nat)
    requires i < |s.openSessions|
  {
    && t.openSessions == s.openSessions[..i] + s.openSessions[i + 1..] && t.next == s.next
    && t.statuses == s.statuses - Panes(s.openSessions[i]) && t.sessionIds == s.sessionIds - Panes(s.openSessions[i])
  }

  lemma NoTabToClose(s: Store, tabId: Id)
    requires TabIndex(s.openSessions, tabId).None?
    ensures WithTabClosed(s, tabId) == s
  {
    WithoutAbsentTab(s.openSessions, tabId);
    assert s.statuses - {} == s.statuses && s.sessionIds - {} == s.sessionIds;
  }

  /** The tab is taken out of the list, the others stay in their order, and the entries of exactly its panes go. */
  lemma CloseTakesOut(s: Store, tabId: Id)
    requires Inv(s)
    ensures forall i: nat :: TabAt(s, tabId, i) ==> TakenOut(s, WithTabClosed(s, tabId), i)
    ensures (forall i: nat :: !TabAt(s, tabId, i)) ==> WithTabClosed(s, tabId) == s
  {
    var index := TabIndex(s.openSessions, tabId);
    OnlyOneTab(s.openSessions, tabId);
    if index.None? {
      NoTabToClose(s, tabId);
    } else {
      WithoutTabRemovesOne(s.openSessions, tabId);
      assert TabAt(s, tabId, index.value) && TakenOut(s, WithTabClosed(s, tabId), index.value);
    }
  }

  // ---------------------------------------------------------------- splitting

  /** A terminal tab with this pane that has room for another one. */
  ghost predicate Splittable(s: Store, tabId: Id, paneId: Id, i: nat) {
    && TabAt(s, tabId, i) && s.openSessions[i].kind.Terminal? && s.openSessions[i].layout.Some?
    && paneId in PaneIds(s.openSessions[i].layout.value) && CountLeaves(s.openSessions[i].layout.value) < 9
  }

  /** The pane p is new in the layout: it stands second, beside the pane that was split, with half of its place in the
      direction asked for, on the host given or else on that pane's own, and taking it out gives the old layout back. */
  ghost predicate GainsPane(
    before: PaneNode, after: PaneNode, paneId: Id, direction: Direction, host: Option<Host>, p: Id)
  {
    && after.Split? && RemoveLeaf(after, p) == Some(before)
    && var beside := ParentSplit(after, p);
       && beside.direction == direction && beside.ratio == 0.5
       && beside.a.Leaf? && beside.a.paneId == paneId
       && beside.b.Leaf? && beside.b.paneId == p
       && beside.b.host == (if host.Some? then host.value else beside.a.host)
       && FindLeaf(after, p) == Some(beside.b)
       && forall q :: q != p ==> FindLeaf(after, q) == FindLeaf(before, q)
  }

  /** A pane is added exactly if the tab is open, a terminal, has the pane asked for and fewer than 9. Then it alone
      changes, by that pane, whose id is new; otherwise nothing but the id counter does. */
  lemma SplitAddsPane(s: Store, tabId: Id, paneId: Id, direction: Direction, host: Option<Host>)
    requires Inv(s)
    ensures var (t, p) := WithPaneSplit(s, tabId, paneId, direction, host);
            && OnlyLayoutOf(s, t, tabId) && SameEntries(s, t)
            && (p.Some? <==> exists i: nat :: Splittable(s, tabId, paneId, i))
            && (p.None? ==> t.openSessions == s.openSessions)
            && (p.Some? ==>
                  && s.next <= p.value < t.next
                  && forall i: nat :: TabAt(s, tabId, i) ==>
                       && s.openSessions[i].layout.Some? && t.openSessions[i].layout.Some?
                       && GainsPane(s.openSessions[i].layout.value, t.openSessions[i].layout.value, paneId, direction,
                                    host, p.value))
  {
    var (t, p) := WithPaneSplit(s, tabId, paneId, direction, host);
    var index := TabIndex(s.openSessions, tabId);
    OnlyOneTab(s.openSessions, tabId);
    if index.Some? && s.openSessions[index.value].layout.Some? {
      FindLeafFinds(s.openSessions[index.value].layout.value, paneId);
    }
    if p.Some? {
      assert Splittable(s, tabId, paneId, index.value);
      LayoutGainsPane(s, index.value, paneId, direction, host);
    }
  }

  lemma LayoutGainsPane(s: Store, i: nat, paneId: Id, direction: Direction, host: Option<Host>)
    requires Inv(s) && i < |s.openSessions| && CanSplit(s.openSessions[i], paneId)
    ensures var before := s.openSessions[i].layout.value;
            var leaf := FindLeaf(before, paneId).value;
            && leaf.Leaf?
            && var newHost := if host.Some? then host.value else leaf.host;
               var (after, next) := SplitLeaf(before, paneId, direction, s.next, newHost, s.next + 1);
               GainsPane(before, after, paneId, direction, host, s.next) && s.next < next
  {
    var before := s.openSessions[i].layout.value;
    FindLeafFinds(before, paneId);
    var newHost := if host.Some? then host.value else FindLeaf(before, paneId).value.host;
    SplitBesides(before, paneId, direction, s.next, newHost, s.next + 1);
    RemoveUndoesSplit(before, paneId, direction, s.next, newHost, s.next + 1);
    SplitDrawsOneId(before, paneId, direction, s.next, newHost, s.next + 1);
  }

  // ---------------------------------------------------------------- closing a pane

  /** A terminal tab with this pane and others. */
  ghost predicate Closable(s: Store, tabId: Id, paneId: Id, i: nat) {
    && TabAt(s, tabId, i) && s.openSessions[i].kind.Terminal? && s.openSessions[i].layout.Some?
    && paneId in PaneIds(s.openSessions[i].layout.value) && CountLeaves(s.openSessions[i].layout.value) > 1
  }

  /** A pane is taken out exactly if it is one of several of an open terminal tab. Then its tab keeps the others as they
      were, and its two entries go; otherwise nothing changes. */
  lemma ClosePaneTakesOut(s: Store, tabId: Id, paneId: Id)
    requires Inv(s)
    ensures var t := WithPaneClosed(s, tabId, paneId);
            && OnlyLayoutOf(s, t, tabId) && t.next == s.next
            && ((forall i: nat :: !Closable(s, tabId, paneId, i)) ==> t == s)
            && forall i: nat :: Closable(s, tabId, paneId, i) ==>
                 && t.statuses == s.statuses - {paneId} && t.sessionIds == s.sessionIds - {paneId}
                 && t.openSessions[i].layout.Some?
                 && PaneIds(t.openSessions[i].layout.value) == PaneIds(s.openSessions[i].layout.value) - {paneId}
                 && RemoveLeaf(s.openSessions[i].layout.value, paneId) == t.openSessions[i].layout
  {
    var index := TabIndex(s.openSessions, tabId);
    OnlyOneTab(s.openSessions, tabId);
    if index.Some? && s.openSessions[index.value].layout.Some? {
      var layout := s.openSessions[index.value].layout.value;
      FindLeafFinds(layout, paneId);
      if paneId in PaneIds(layout) && layout.Split? {
        assert CountLeaves(layout.a) >= 1 && CountLeaves(layout.b) >= 1;
        RemoveLocality(layout, paneId, Rect(0.0, 0.0, 0.0, 0.0));
        assert s.openSessions[index.value].kind.Terminal?;
        assert Closable(s, tabId, paneId, index.value);
      }
    }
  }

  // ---------------------------------------------------------------- the actions that rewrite one tab

  /** The tree becomes the tab's layout; nothing else changes, not even the entries of panes that are gone. */
  lemma SetLayoutReplaces(s: Store, tabId: Id, layout: PaneNode)
    requires Inv(s)
    ensures var t := WithTabEdited(s, tabId, EditLayout(layout));
            && OnlyLayoutOf(s, t, tabId) && SameEntries(s, t) && t.next == s.next
            && forall i: nat :: TabAt(s, tabId, i) ==> t.openSessions[i].layout == Some(layout)
  {
    OnlyOneTab(s.openSessions, tabId);
  }

  /** The split's ratio is set in that tab, as far as the limits allow; a tab without layout stays so. */
  lemma ResizeSetsSplit(s: Store, tabId: Id, splitId: Id, ratio: real)
    requires Inv(s)
    ensures var t := WithTabEdited(s, tabId, EditRatio(splitId, ratio));
            && OnlyLayoutOf(s, t, tabId) && SameEntries(s, t) && t.next == s.next
            && forall i: nat :: TabAt(s, tabId, i) ==>
                 && t.openSessions[i].layout.None? == s.openSessions[i].layout.None?
                 && (s.openSessions[i].layout.Some? ==>
                       t.openSessions[i].layout.value == ResizeSplit(s.openSessions[i].layout.value, splitId, ratio))
  {
    OnlyOneTab(s.openSessions, tabId);
  }

  /** One tab's broadcast mode is turned over. */
  ghost predicate TurnedOver(s: Store, t: Store, tabId: Id) {
    && |t.openSessions| == |s.openSessions| && SameEntries(s, t) && t.next == s.next
    && forall i :: 0 <= i < |s.openSessions| ==>
         var tab, toggled := s.openSessions[i], t.openSessions[i];
         && toggled.(broadcastEnabled := tab.broadcastEnabled) == tab
         && (toggled.broadcastEnabled == tab.broadcastEnabled <==> tab.tabId != tabId)
  }

  lemma ToggleOnce(s: Store, tabId: Id)
    requires Inv(s)
    ensures TurnedOver(s, WithTabEdited(s, tabId, EditBroadcast), tabId)
  {
    OnlyOneTab(s.openSessions, tabId);
  }

  lemma TurnedTwice(s: Store, t: Store, u: Store, tabId: Id)
    requires TurnedOver(s, t, tabId) && TurnedOver(t, u, tabId)
    ensures u == s
  {
    forall i | 0 <= i < |s.openSessions| ensures u.openSessions[i] == s.openSessions[i] {
      assert t.openSessions[i].tabId == s.openSessions[i].tabId;
    }
    assert u.openSessions == s.openSessions;
  }

  /** Toggling turns that tab's broadcast mode over, no other's, and twice is as if never. */
  lemma ToggleTurnsOver(s: Store, tabId: Id)
    requires Inv(s)
    ensures var t := WithTabEdited(s, tabId, EditBroadcast);
            TurnedOver(s, t, tabId) && WithTabEdited(t, tabId, EditBroadcast) == s
  {
    var t := WithTabEdited(s, tabId, EditBroadcast);
    ToggleOnce(s, tabId);
    ToggleKeepsInv(s, tabId);
    ToggleOnce(t, tabId);
    TurnedTwice(s, t, WithTabEdited(t, tabId, EditBroadcast), tabId);
  }

  // ---------------------------------------------------------------- reordering

  /** An index out of range, or moving a tab to its own place, changes nothing; otherwise one tab moves as
      `ReorderMovesOneTab` says. Entries and ids are left alone in any case. */
  lemma ReorderMoves(s: Store, from: int, to: int)
    ensures var t := Reordered(s, from, to);
            && SameEntries(s, t) && t.next == s.next && |t.openSessions| == |s.openSessions|
            && (from < 0 || from >= |s.openSessions| || to < 0 || to > |s.openSessions| || from == to ==> t == s)
            && (0 <= from < |s.openSessions| && 0 <= to <= |s.openSessions| && from != to ==>
                  var at := if from < to then to - 1 else to;
                  && t.openSessions[at] == s.openSessions[from]
                  && t.openSessions[..at] + t.openSessions[at + 1..]
                     == s.openSessions[..from] + s.openSessions[from + 1..])
  {
    if 0 <= from < |s.openSessions| && 0 <= to <= |s.openSessions| && from != to {
      ReorderMovesOneTab(s.openSessions, from, to);
    }
  }
}
