/** The rendered tree as a whole (src/components/sidebar/HostTree.tsx:220-301): which group rows it has, how deep each
    row sits, what it sits under, and in which order. */
module HostTreeRows {
  import opened Wrappers
  import opened StableSort
  import opened GroupForest
  import opened HostTree

  // ---------------------------------------------------------------- which groups are shown

  function ShowsGroup(id: Id): Row -> bool { (r: Row) => r.GroupRow? && r.id == id }

  ghost predicate Kept(v: View, x: Group)
    requires UniqueIds(v.groups)
  {
    Rooted(v.groups, x.id) && GroupHasMatch(v, x.id)
  }

  /** Every group above one that is kept is kept. */
  lemma {:induction false} KeptAbove(v: View, id: Id, k: nat)
    requires UniqueIds(v.groups) && Rooted(v.groups, id) && GroupHasMatch(v, id) && k < |Trail(v.groups, id)|
    ensures Rooted(v.groups, Trail(v.groups, id)[k]) && GroupHasMatch(v, Trail(v.groups, id)[k])
    decreases |Trail(v.groups, id)| - k
  {
    var trail := Trail(v.groups, id);
    AncestorIsRooted(v.groups, id, k);
    if k < |trail| - 1 {
      KeptAbove(v, id, k + 1);
      assert LinkAt(v.groups, trail, k + 1);
      var g :| g in v.groups && g.id == trail[k + 1] && g.parentId == Some(trail[k]);
    }
  }

  lemma {:induction false} MatchingHaveMatch(v: View, parent: Option<Id>, groups: seq<Group>)
    requires UniqueIds(v.groups) && (parent.Some? ==> Rooted(v.groups, parent.value))
    requires forall g :: g in groups ==> g in v.groups && g.parentId == parent
    ensures forall g :: g in MatchingGroups(v, parent, groups) ==> Kept(v, g)
  {
    if groups != [] {
      MatchingHaveMatch(v, parent, groups[..|groups| - 1]);
      ChildIsRooted(v.groups, parent, groups[|groups| - 1]);
    }
  }

  lemma {:induction false} HostRowsAreHosts(hosts: seq<Host>, depth: nat, id: Id)
    ensures Count(HostRows(hosts, depth), ShowsGroup(id)) == 0
  {
    if hosts != [] {
      var rows := HostRows(hosts[..|hosts| - 1], depth);
      HostRowsAreHosts(hosts[..|hosts| - 1], depth, id);
      assert (rows + [HostRow(hosts[|hosts| - 1].id, depth)])[..|rows|] == rows;
    }
  }

  /** The group is one of these, or is reached through one of them. */
  ghost predicate ReachedFrom(v: View, parent: Option<Id>, groups: seq<Group>, x: Group)
    requires UniqueIds(v.groups) && (parent.Some? ==> Rooted(v.groups, parent.value))
    requires forall g :: g in groups ==> g in v.groups && g.parentId == parent
  {
    x in groups || (Kept(v, x) && exists g :: g in groups && Through(v, parent, g, x.parentId))
  }

  lemma SameId(groups: seq<Group>, x: Group, y: Group)
    requires UniqueIds(groups) && x in groups && y in groups && x.id == y.id
    ensures x == y
  {
    var i :| 0 <= i < |groups| && groups[i] == x;
    var j :| 0 <= j < |groups| && groups[j] == y;
  }

  lemma {:induction false} GroupsShowGroup(v: View, parent: Option<Id>, groups: seq<Group>, depth: nat, x: Group)
    requires UniqueIds(v.groups) && (parent.Some? ==> Rooted(v.groups, parent.value)) && x in v.groups
    requires forall g :: g in groups ==> g in v.groups && g.parentId == parent
    requires UniqueGroupIds(groups)
    ensures Count(RenderGroups(v, parent, groups, depth), ShowsGroup(x.id))
         == if ReachedFrom(v, parent, groups, x) then 1 else 0
    decreases Room(v, parent), 0, |groups|
  {
    if groups != [] {
      var front, group := groups[..|groups| - 1], groups[|groups| - 1];
      assert groups == front + [group];
      ChildIsRooted(v.groups, parent, group);
      forall id ensures Count(front, HasGroupId(id)) <= 1 { assert Count(groups, HasGroupId(id)) <= 1; }
      GroupsShowGroup(v, parent, front, depth, x);
      var rows, row := RenderGroups(v, parent, front, depth), [GroupRow(group.id, depth)];
      var below := if IsOpen(v, group.id) then RenderLevel(v, Some(group.id), depth + 1) else [];
      CountAppend(rows + row, below, ShowsGroup(x.id));
      CountAppend(rows, row, ShowsGroup(x.id));
      assert row[..0] == [];
      if IsOpen(v, group.id) { LevelShowsGroup(v, Some(group.id), depth + 1, x); }
      LastReaches(v, parent, front, group, x);
    }
  }

  /** The last group's part: its own row, or what is reached through it, and never both or what was reached before. */
  lemma LastReaches(v: View, parent: Option<Id>, front: seq<Group>, group: Group, x: Group)
    requires UniqueIds(v.groups) && (parent.Some? ==> Rooted(v.groups, parent.value)) && x in v.groups
    requires forall g :: g in front + [group] ==> g in v.groups && g.parentId == parent
    requires UniqueGroupIds(front + [group])
    ensures var byRow, through := x.id == group.id, Kept(v, x) && Through(v, parent, group, x.parentId);
            && !(byRow && through)
            && (ReachedFrom(v, parent, front + [group], x) <==> ReachedFrom(v, parent, front, x) || byRow || through)
            && (ReachedFrom(v, parent, front, x) ==> !byRow && !through)
  {
    assert (front + [group])[..|front|] == front;
    assert Count(front + [group], HasGroupId(group.id)) <= 1;
    CountNone(front, HasGroupId(group.id));
    if x.id == group.id { SameId(v.groups, x, group); }
    if Kept(v, x) && Through(v, parent, group, x.parentId) {
      ThroughIsVisible(v, parent, group, x.parentId);
      forall g | g in front ensures !Through(v, parent, g, x.parentId) {
        if Through(v, parent, g, x.parentId) { OneWayDown(v, parent, g, group, x.parentId); }
      }
    }
    forall g | g in front && Through(v, parent, g, x.parentId) ensures x.parentId != parent {
      ThroughIsVisible(v, parent, g, x.parentId);
    }
    assert forall g :: g in front + [group] <==> g in front || g == group;
  }

  /** A level shows a group exactly once if the group is kept and its place visible from the level, otherwise not. */
  lemma {:induction false} LevelShowsGroup(v: View, parent: Option<Id>, depth: nat, x: Group)
    requires UniqueIds(v.groups) && (parent.Some? ==> Rooted(v.groups, parent.value)) && x in v.groups
    ensures Count(RenderLevel(v, parent, depth), ShowsGroup(x.id))
         == if Kept(v, x) && Visible(v, parent, x.parentId) then 1 else 0
    decreases Room(v, parent), 1, 0
  {
    ChildGroupsAreChildren(v, parent);
    var children := ChildGroups(v, parent);
    MatchingAreChildren(v, parent, children);
    MatchingHaveMatch(v, parent, children);
    LevelGroupsAreUnique(v, parent);
    var groups := MatchingGroups(v, parent, children);
    var hosts := Filter(ChildHosts(v, parent), (h: Host) => HostMatches(v, h));
    GroupsShowGroup(v, parent, groups, depth, x);
    HostRowsAreHosts(hosts, depth, x.id);
    CountAppend(RenderGroups(v, parent, groups, depth), HostRows(hosts, depth), ShowsGroup(x.id));
    ReachedIffVisible(v, parent, groups, x);
  }

  lemma ReachedIffVisible(v: View, parent: Option<Id>, groups: seq<Group>, x: Group)
    requires UniqueIds(v.groups) && (parent.Some? ==> Rooted(v.groups, parent.value)) && x in v.groups
    requires forall g :: g in groups <==> g in v.groups && g.parentId == parent && Kept(v, g)
    ensures ReachedFrom(v, parent, groups, x) <==> Kept(v, x) && Visible(v, parent, x.parentId)
  {
    if x.parentId == parent {
      assert Visible(v, parent, parent);
      forall g | g in groups ensures !Through(v, parent, g, x.parentId) {
        if Through(v, parent, g, x.parentId) { ThroughIsVisible(v, parent, g, x.parentId); }
      }
    } else {
      if Kept(v, x) && Visible(v, parent, x.parentId) {
        var g := NextDown(v, parent, x.parentId);
        ChildIsRooted(v.groups, x.parentId, x);
        KeptAbove(v, x.id, |TrailTo(v, parent)|);
        assert Kept(v, g);
      }
      if g :| g in groups && Through(v, parent, g, x.parentId) { ThroughIsVisible(v, parent, g, x.parentId); }
    }
  }

  lemma ParentIsRooted(groups: seq<Group>, x: Group)
    requires UniqueIds(groups) && x in groups && Rooted(groups, x.id)
    ensures x.parentId.Some? ==> Rooted(groups, x.parentId.value)
    ensures Trail(groups, x.id) == (if x.parentId.None? then [] else Trail(groups, x.parentId.value)) + [x.id]
  {
    var trail := Trail(groups, x.id);
    var last := |trail| - 1;
    assert LinkAt(groups, trail, last) && HasParent(groups, x.id, x.parentId);
    OneParent(groups, x.id, x.parentId, Above(trail, last));
    if last > 0 { AncestorIsRooted(groups, x.id, last - 1); }
    ChildIsRooted(groups, x.parentId, x);
  }

  /** The whole tree: a group has exactly one row if it hangs from the root, every group above it is open, and no filter
      is on or a matching host lies in or below it. Otherwise it has none. */
  lemma TreeShowsGroupsExactly(v: View, x: Group)
    requires UniqueIds(v.groups) && x in v.groups
    ensures Count(RenderLevel(v, None, 0), ShowsGroup(x.id)) ==
              if && Rooted(v.groups, x.id)
                 && (IsFiltering(v) ==> exists h :: h in v.hosts && HostMatches(v, h) && IsBelow(v, h, x.id))
                 && (!IsFiltering(v) ==>
                       forall k :: 0 <= k < |Trail(v.groups, x.id)| - 1 ==> Trail(v.groups, x.id)[k] !in v.collapsed)
              then 1 else 0
  {
    LevelShowsGroup(v, None, 0, x);
    if Rooted(v.groups, x.id) {
      ParentIsRooted(v.groups, x);
      if IsFiltering(v) { GroupHasMatchIffHostBelow(v, x.id); }
      var above, trail := TrailTo(v, x.parentId), Trail(v.groups, x.id);
      assert [] <= above && trail == above + [x.id];
      assert (forall k :: 0 <= k < |above| ==> IsOpen(v, above[k]))
          <==> (IsFiltering(v) || forall k :: 0 <= k < |trail| - 1 ==> trail[k] !in v.collapsed) by {
        assert forall k :: 0 <= k < |above| ==> above[k] == trail[k];
      }
    } else if x.parentId.Some? ==> Rooted(v.groups, x.parentId.value) {
      ChildIsRooted(v.groups, x.parentId, x);
    }
  }

  // ---------------------------------------------------------------- where a row sits

  /** The row is a group's or a host's whose place is `at`. */
  ghost predicate HangsFrom(v: View, row: Row, at: Option<Id>) {
    match row
    case GroupRow(id, _) => exists g :: g in v.groups && g.id == id && g.parentId == at
    case HostRow(id, _) => exists h :: h in v.hosts && h.id == id && h.groupId == at
  }

  lemma HangsOnce(v: View, row: Row, at: Option<Id>, at': Option<Id>)
    requires UniqueIds(v.groups) && UniqueHosts(v.hosts) && HangsFrom(v, row, at) && HangsFrom(v, row, at')
    ensures at == at'
  {
  }

  /** The row hangs at or below `parent`, as deep as the groups in between go. */
  ghost predicate SitsBelow(v: View, parent: Option<Id>, depth: nat, row: Row)
    requires parent.Some? ==> Rooted(v.groups, parent.value)
  {
    exists at: Option<Id> ::
      && HangsFrom(v, row, at) && (at.Some? ==> Rooted(v.groups, at.value))
      && TrailTo(v, parent) <= TrailTo(v, at)
      && row.depth == depth + |TrailTo(v, at)| - |TrailTo(v, parent)|
  }

  ghost predicate AllSitBelow(v: View, parent: Option<Id>, depth: nat, rows: seq<Row>)
    requires parent.Some? ==> Rooted(v.groups, parent.value)
  {
    forall row :: row in rows ==> SitsBelow(v, parent, depth, row)
  }

  lemma SitsHigher(v: View, parent: Option<Id>, g: Group, depth: nat, row: Row)
    requires UniqueIds(v.groups) && (parent.Some? ==> Rooted(v.groups, parent.value))
    requires g in v.groups && g.parentId == parent && Rooted(v.groups, g.id)
    requires SitsBelow(v, Some(g.id), depth + 1, row)
    ensures SitsBelow(v, parent, depth, row)
  {
    ChildIsRooted(v.groups, parent, g);
    assert |TrailTo(v, Some(g.id))| == |TrailTo(v, parent)| + 1 && TrailTo(v, parent) <= TrailTo(v, Some(g.id));
    var at: Option<Id> :|
      HangsFrom(v, row, at) && (at.Some? ==> Rooted(v.groups, at.value))
      && TrailTo(v, Some(g.id)) <= TrailTo(v, at)
      && row.depth == depth + 1 + |TrailTo(v, at)| - |TrailTo(v, Some(g.id))|;
    assert TrailTo(v, parent) <= TrailTo(v, at);
  }

  lemma {:induction false} HostRowsSit(v: View, parent: Option<Id>, hosts: seq<Host>, depth: nat)
    requires parent.Some? ==> Rooted(v.groups, parent.value)
    requires forall h :: h in hosts ==> h in v.hosts && h.groupId == parent
    ensures AllSitBelow(v, parent, depth, HostRows(hosts, depth))
  {
    if hosts != [] {
      var front, last := hosts[..|hosts| - 1], hosts[|hosts| - 1];
      HostRowsSit(v, parent, front, depth);
      assert HangsFrom(v, HostRow(last.id, depth), parent);
      assert SitsBelow(v, parent, depth, HostRow(last.id, depth));
    }
  }

  lemma LevelHostsAreChildren(v: View, parent: Option<Id>)
    ensures forall h :: h in Filter(ChildHosts(v, parent), (x: Host) => HostMatches(v, x)) <==>
              h in v.hosts && h.groupId == parent && HostMatches(v, h)
  {
    var inLevel := (h: Host) => h.groupId == parent;
    FilterMembers(v.hosts, inLevel);
    SortMembers(Filter(v.hosts, inLevel), HostOrder(v.collate));
    FilterMembers(ChildHosts(v, parent), (x: Host) => HostMatches(v, x));
  }

  lemma {:induction false} GroupsSit(v: View, parent: Option<Id>, groups: seq<Group>, depth: nat)
    requires UniqueIds(v.groups) && (parent.Some? ==> Rooted(v.groups, parent.value))
    requires forall g :: g in groups ==> g in v.groups && g.parentId == parent
    ensures AllSitBelow(v, parent, depth, RenderGroups(v, parent, groups, depth))
    decreases Room(v, parent), 0, |groups|
  {
    if groups != [] {
      var front, group := groups[..|groups| - 1], groups[|groups| - 1];
      ChildIsRooted(v.groups, parent, group);
      GroupsSit(v, parent, front, depth);
      assert HangsFrom(v, GroupRow(group.id, depth), parent);
      assert SitsBelow(v, parent, depth, GroupRow(group.id, depth));
      if IsOpen(v, group.id) {
        var below := RenderLevel(v, Some(group.id), depth + 1);
        LevelSits(v, Some(group.id), depth + 1);
        forall row | row in below ensures SitsBelow(v, parent, depth, row) {
          SitsHigher(v, parent, group, depth, row);
        }
      }
    }
  }

  lemma {:induction false} LevelSits(v: View, parent: Option<Id>, depth: nat)
    requires UniqueIds(v.groups) && (parent.Some? ==> Rooted(v.groups, parent.value))
    ensures AllSitBelow(v, parent, depth, RenderLevel(v, parent, depth))
    decreases Room(v, parent), 1, 0
  {
    ChildGroupsAreChildren(v, parent);
    MatchingAreChildren(v, parent, ChildGroups(v, parent));
    LevelHostsAreChildren(v, parent);
    GroupsSit(v, parent, MatchingGroups(v, parent, ChildGroups(v, parent)), depth);
    HostRowsSit(v, parent, Filter(ChildHosts(v, parent), (h: Host) => HostMatches(v, h)), depth);
  }

  /** Every row is as deep as the groups above it are many. */
  lemma RowDepths(v: View, row: Row)
    requires UniqueIds(v.groups) && UniqueHosts(v.hosts) && row in RenderLevel(v, None, 0)
    ensures row.GroupRow? ==> Rooted(v.groups, row.id) && row.depth == |Trail(v.groups, row.id)| - 1
    ensures row.HostRow? ==>
              exists h :: h in v.hosts && h.id == row.id && (h.groupId.Some? ==> Rooted(v.groups, h.groupId.value))
                          && row.depth == |TrailTo(v, h.groupId)|
  {
    LevelSits(v, None, 0);
    assert SitsBelow(v, None, 0, row);
    var at: Option<Id> :|
      HangsFrom(v, row, at) && (at.Some? ==> Rooted(v.groups, at.value)) && TrailTo(v, None) <= TrailTo(v, at)
      && row.depth == |TrailTo(v, at)|;
    if row.GroupRow? {
      var g :| g in v.groups && g.id == row.id && g.parentId == at;
      ChildIsRooted(v.groups, at, g);
    }
  }

  // ---------------------------------------------------------------- what a row sits under

  /** Row i is the group row that row j sits under: the nearest row above it that is less deep. */
  ghost predicate ParentRow(v: View, rows: seq<Row>, i: nat, j: nat)
    requires i < j < |rows|
  {
    && rows[i].GroupRow? && rows[i].depth + 1 == rows[j].depth && HangsFrom(v, rows[j], Some(rows[i].id))
    && forall k :: i < k < j ==> rows[k].depth >= rows[j].depth
  }

  ghost predicate HasPlace(v: View, rows: seq<Row>, depth: nat, j: nat)
    requires j < |rows|
  {
    rows[j].depth == depth || (rows[j].depth > depth && exists i: nat :: i < j && ParentRow(v, rows, i, j))
  }

  ghost predicate Nested(v: View, rows: seq<Row>, depth: nat) {
    forall j: nat :: j < |rows| ==> HasPlace(v, rows, depth, j)
  }

  lemma NestedAppend(v: View, rows: seq<Row>, more: seq<Row>, depth: nat)
    requires Nested(v, rows, depth) && Nested(v, more, depth)
    ensures Nested(v, rows + more, depth)
  {
    var all := rows + more;
    forall j: nat | j < |all| ensures HasPlace(v, all, depth, j) {
      if j < |rows| {
        assert HasPlace(v, rows, depth, j);
        if rows[j].depth > depth {
          var i: nat :| i < j && ParentRow(v, rows, i, j);
          assert ParentRow(v, all, i, j);
        }
      } else {
        assert HasPlace(v, more, depth, j - |rows|);
        if all[j].depth > depth {
          var i: nat :| i < j - |rows| && ParentRow(v, more, i, j - |rows|);
          assert ParentRow(v, all, i + |rows|, j) by {
            forall k | i + |rows| < k < j ensures all[k].depth >= all[j].depth { assert all[k] == more[k - |rows|]; }
          }
        }
      }
    }
  }

  /** A row just below a group hangs from it. */
  lemma TopRowHangs(v: View, g: Id, depth: nat, row: Row)
    requires UniqueIds(v.groups) && Rooted(v.groups, g) && SitsBelow(v, Some(g), depth, row) && row.depth == depth
    ensures HangsFrom(v, row, Some(g))
  {
    var at: Option<Id> :|
      HangsFrom(v, row, at) && (at.Some? ==> Rooted(v.groups, at.value)) && TrailTo(v, Some(g)) <= TrailTo(v, at)
      && row.depth == depth + |TrailTo(v, at)| - |TrailTo(v, Some(g))|;
    assert TrailTo(v, at) == Trail(v.groups, g);
    assert at == Some(g);
  }

  lemma NestedUnderGroup(v: View, g: Id, below: seq<Row>, depth: nat)
    requires UniqueIds(v.groups) && Rooted(v.groups, g)
    requires Nested(v, below, depth + 1) && AllSitBelow(v, Some(g), depth + 1, below)
    ensures Nested(v, [GroupRow(g, depth)] + below, depth)
  {
    var all := [GroupRow(g, depth)] + below;
    forall j: nat | j < |all| ensures HasPlace(v, all, depth, j) {
      if j > 0 {
        assert HasPlace(v, below, depth + 1, j - 1) && all[j] == below[j - 1];
        if all[j].depth == depth + 1 {
          TopRowHangs(v, g, depth + 1, all[j]);
          assert ParentRow(v, all, 0, j) by {
            forall k | 0 < k < j ensures all[k].depth >= all[j].depth {
              assert HasPlace(v, below, depth + 1, k - 1) && all[k] == below[k - 1];
            }
          }
        } else {
          var i: nat :| i < j - 1 && ParentRow(v, below, i, j - 1);
          assert ParentRow(v, all, i + 1, j) by {
            forall k | i + 1 < k < j ensures all[k].depth >= all[j].depth { assert all[k] == below[k - 1]; }
          }
        }
      }
    }
  }

  lemma {:induction false} HostRowsAre(hosts: seq<Host>, depth: nat)
    ensures |HostRows(hosts, depth)| == |hosts|
    ensures forall i :: 0 <= i < |hosts| ==> HostRows(hosts, depth)[i] == HostRow(hosts[i].id, depth)
  {
    if hosts != [] { HostRowsAre(hosts[..|hosts| - 1], depth); }
  }

  lemma {:induction false} GroupsNest(v: View, parent: Option<Id>, groups: seq<Group>, depth: nat)
    requires UniqueIds(v.groups) && (parent.Some? ==> Rooted(v.groups, parent.value))
    requires forall g :: g in groups ==> g in v.groups && g.parentId == parent
    ensures Nested(v, RenderGroups(v, parent, groups, depth), depth)
    decreases Room(v, parent), 0, |groups|
  {
    if groups != [] {
      var front, group := groups[..|groups| - 1], groups[|groups| - 1];
      ChildIsRooted(v.groups, parent, group);
      GroupsNest(v, parent, front, depth);
      var rows, row := RenderGroups(v, parent, front, depth), [GroupRow(group.id, depth)];
      var below := if IsOpen(v, group.id) then RenderLevel(v, Some(group.id), depth + 1) else [];
      if IsOpen(v, group.id) {
        LevelNests(v, Some(group.id), depth + 1);
        LevelSits(v, Some(group.id), depth + 1);
      }
      OneMoreNests(v, rows, group.id, below, depth);
    }
  }

  lemma OneMoreNests(v: View, rows: seq<Row>, g: Id, below: seq<Row>, depth: nat)
    requires UniqueIds(v.groups) && Rooted(v.groups, g) && Nested(v, rows, depth)
    requires Nested(v, below, depth + 1) && AllSitBelow(v, Some(g), depth + 1, below)
    ensures Nested(v, rows + [GroupRow(g, depth)] + below, depth)
  {
    NestedUnderGroup(v, g, below, depth);
    NestedAppend(v, rows, [GroupRow(g, depth)] + below, depth);
    assert rows + ([GroupRow(g, depth)] + below) == rows + [GroupRow(g, depth)] + below;
  }

  lemma {:induction false} LevelNests(v: View, parent: Option<Id>, depth: nat)
    requires UniqueIds(v.groups) && (parent.Some? ==> Rooted(v.groups, parent.value))
    ensures Nested(v, RenderLevel(v, parent, depth), depth)
    decreases Room(v, parent), 1, 0
  {
    ChildGroupsAreChildren(v, parent);
    MatchingAreChildren(v, parent, ChildGroups(v, parent));
    var groups := MatchingGroups(v, parent, ChildGroups(v, parent));
    var hosts := Filter(ChildHosts(v, parent), (h: Host) => HostMatches(v, h));
    GroupsNest(v, parent, groups, depth);
    HostRowsAre(hosts, depth);
    NestedAppend(v, RenderGroups(v, parent, groups, depth), HostRows(hosts, depth), depth);
  }

  // ---------------------------------------------------------------- in which order

  /** Where the row's group or host is listed among the children of its place. */
  ghost predicate ListedAt(v: View, at: Option<Id>, row: Row, k: nat) {
    if row.GroupRow? then k < |ChildGroups(v, at)| && ChildGroups(v, at)[k].id == row.id
    else k < |ChildHosts(v, at)| && ChildHosts(v, at)[k].id == row.id
  }

  /** Of one place's children, groups come before hosts, and each kind as it is listed. */
  ghost predicate InOrder(v: View, at: Option<Id>, first: Row, second: Row) {
    || (first.GroupRow? && second.HostRow?)
    || (first.GroupRow? == second.GroupRow?
        && exists a: nat, b: nat :: a < b && ListedAt(v, at, first, a) && ListedAt(v, at, second, b))
  }

  ghost predicate SiblingsInOrder(v: View, rows: seq<Row>) {
    forall i, j, at: Option<Id> ::
      0 <= i < j < |rows| && HangsFrom(v, rows[i], at) && HangsFrom(v, rows[j], at) ==> InOrder(v, at, rows[i], rows[j])
  }

  /** The elements come from a list, in its order. */
  ghost predicate Picked<T>(xs: seq<T>, from: seq<T>, ks: seq<nat>) {
    && |ks| == |xs| && (forall i, j :: 0 <= i < j < |ks| ==> ks[i] < ks[j])
    && forall i :: 0 <= i < |ks| ==> ks[i] < |from| && xs[i] == from[ks[i]]
  }

  lemma PickedOneMore<T>(xs: seq<T>, front: seq<T>, last: T, ks: seq<nat>)
    requires Picked(xs, front, ks)
    ensures Picked(xs, front + [last], ks) && Picked(xs + [last], front + [last], ks + [|front|])
  {
    forall i | 0 <= i < |ks| ensures (front + [last])[ks[i]] == front[ks[i]] { }
  }

  lemma {:induction false} FilterPicks<T>(xs: seq<T>, p: T -> bool) returns (ks: seq<nat>)
    ensures Picked(Filter(xs, p), xs, ks)
  {
    ks := [];
    if xs != [] {
      var front, last := xs[..|xs| - 1], xs[|xs| - 1];
      ks := FilterPicks(front, p);
      PickedOneMore(Filter(front, p), front, last, ks);
      assert xs == front + [last];
      if p(last) { ks := ks + [|front|]; } else { assert Filter(xs, p) == Filter(front, p) + [] == Filter(front, p); }
    }
  }

  lemma {:induction false} MatchingPicks(v: View, parent: Option<Id>, groups: seq<Group>) returns (ks: seq<nat>)
    requires UniqueIds(v.groups) && (parent.Some? ==> Rooted(v.groups, parent.value))
    requires forall g :: g in groups ==> g in v.groups && g.parentId == parent
    ensures Picked(MatchingGroups(v, parent, groups), groups, ks)
  {
    ks := [];
    if groups != [] {
      var front, last := groups[..|groups| - 1], groups[|groups| - 1];
      ks := MatchingPicks(v, parent, front);
      ChildIsRooted(v.groups, parent, last);
      PickedOneMore(MatchingGroups(v, parent, front), front, last, ks);
      assert groups == front + [last];
      if GroupHasMatch(v, last.id) { ks := ks + [|front|]; }
    }
  }

  /** The row is one of these groups' own, or lies below it. */
  ghost predicate ComesFrom(v: View, groups: seq<Group>, depth: nat, row: Row, i: nat)
    requires forall g :: g in groups ==> Rooted(v.groups, g.id)
  {
    i < |groups| && (row == GroupRow(groups[i].id, depth) || SitsBelow(v, Some(groups[i].id), depth + 1, row))
  }

  lemma {:induction false} RowsComeFrom(v: View, parent: Option<Id>, groups: seq<Group>, depth: nat, row: Row)
    returns (i: nat)
    requires UniqueIds(v.groups) && (parent.Some? ==> Rooted(v.groups, parent.value))
    requires forall g :: g in groups ==> g in v.groups && g.parentId == parent && Rooted(v.groups, g.id)
    requires row in RenderGroups(v, parent, groups, depth)
    ensures ComesFrom(v, groups, depth, row, i)
  {
    var front, group := groups[..|groups| - 1], groups[|groups| - 1];
    ChildIsRooted(v.groups, parent, group);
    if row in RenderGroups(v, parent, front, depth) {
      i := RowsComeFrom(v, parent, front, depth, row);
    } else {
      i := |groups| - 1;
      if IsOpen(v, group.id) { LevelSits(v, Some(group.id), depth + 1); }
    }
  }

  /** A row below a child group hangs from a place on whose trail the group is. */
  lemma BelowHangsFurther(v: View, parent: Option<Id>, g: Group, depth: nat, row: Row, at: Option<Id>)
    requires UniqueIds(v.groups) && UniqueHosts(v.hosts) && (parent.Some? ==> Rooted(v.groups, parent.value))
    requires g in v.groups && g.parentId == parent && Rooted(v.groups, g.id)
    requires SitsBelow(v, Some(g.id), depth, row) && HangsFrom(v, row, at)
    ensures at != parent && (at.Some? ==> Rooted(v.groups, at.value))
    ensures |TrailTo(v, parent)| < |TrailTo(v, at)| && TrailTo(v, at)[|TrailTo(v, parent)|] == g.id
  {
    ChildIsRooted(v.groups, parent, g);
    var at': Option<Id> :|
      HangsFrom(v, row, at') && (at'.Some? ==> Rooted(v.groups, at'.value))
      && TrailTo(v, Some(g.id)) <= TrailTo(v, at')
      && row.depth == depth + |TrailTo(v, at')| - |TrailTo(v, Some(g.id))|;
    HangsOnce(v, row, at, at');
    assert Trail(v.groups, g.id)[|TrailTo(v, parent)|] == g.id;
  }

  /** A row from the groups that hangs from the level itself is a group's own. */
  lemma TopRowIsGroup(v: View, parent: Option<Id>, groups: seq<Group>, depth: nat, row: Row) returns (i: nat)
    requires UniqueIds(v.groups) && UniqueHosts(v.hosts) && (parent.Some? ==> Rooted(v.groups, parent.value))
    requires forall g :: g in groups ==> g in v.groups && g.parentId == parent && Rooted(v.groups, g.id)
    requires row in RenderGroups(v, parent, groups, depth) && HangsFrom(v, row, parent)
    ensures i < |groups| && row == GroupRow(groups[i].id, depth)
  {
    i := RowsComeFrom(v, parent, groups, depth, row);
    if row != GroupRow(groups[i].id, depth) {
      BelowHangsFurther(v, parent, groups[i], depth + 1, row, parent);
    }
  }

  /** Rows from different groups of a level have no place in common but the level itself. */
  lemma RowsApart(v: View, parent: Option<Id>, front: seq<Group>, group: Group, depth: nat, row: Row, later: Row,
                  at: Option<Id>)
    requires UniqueIds(v.groups) && UniqueHosts(v.hosts) && (parent.Some? ==> Rooted(v.groups, parent.value))
    requires forall g :: g in front + [group] ==> g in v.groups && g.parentId == parent && Rooted(v.groups, g.id)
    requires forall g :: g in front ==> g.id != group.id
    requires row in RenderGroups(v, parent, front, depth) && SitsBelow(v, Some(group.id), depth + 1, later)
    ensures !(HangsFrom(v, row, at) && HangsFrom(v, later, at))
  {
    if HangsFrom(v, row, at) && HangsFrom(v, later, at) {
      assert group in front + [group];
      BelowHangsFurther(v, parent, group, depth + 1, later, at);
      var i := RowsComeFrom(v, parent, front, depth, row);
      assert front[i] in front + [group];
      if row == GroupRow(front[i].id, depth) {
        assert HangsFrom(v, row, parent);
        HangsOnce(v, row, at, parent);
      } else {
        BelowHangsFurther(v, parent, front[i], depth + 1, row, at);
      }
    }
  }

  ghost predicate CrossInOrder(v: View, rows: seq<Row>, more: seq<Row>) {
    forall first, second, at: Option<Id> ::
      first in rows && second in more && HangsFrom(v, first, at) && HangsFrom(v, second, at)
      ==> InOrder(v, at, first, second)
  }

  lemma SiblingsAppend(v: View, rows: seq<Row>, more: seq<Row>)
    requires SiblingsInOrder(v, rows) && SiblingsInOrder(v, more) && CrossInOrder(v, rows, more)
    ensures SiblingsInOrder(v, rows + more)
  {
    var all := rows + more;
    forall i, j, at: Option<Id> | 0 <= i < j < |all| && HangsFrom(v, all[i], at) && HangsFrom(v, all[j], at)
      ensures InOrder(v, at, all[i], all[j])
    {
      if j < |rows| {
        assert all[i] == rows[i] && all[j] == rows[j];
      } else if i < |rows| {
        assert rows[i] in rows && more[j - |rows|] in more;
      } else {
        assert all[i] == more[i - |rows|] && all[j] == more[j - |rows|];
      }
    }
  }

  /** The groups are children of the level, each once, in their order. */
  ghost predicate LevelGroups(v: View, parent: Option<Id>, groups: seq<Group>, ks: seq<nat>) {
    && Picked(groups, ChildGroups(v, parent), ks)
    && (forall g :: g in groups ==> g in v.groups && g.parentId == parent && Rooted(v.groups, g.id))
    && forall i, j :: 0 <= i < j < |groups| ==> groups[i].id != groups[j].id
  }

  lemma GroupRowInOrder(v: View, parent: Option<Id>, front: seq<Group>, group: Group, ks: seq<nat>, depth: nat)
    requires UniqueIds(v.groups) && UniqueHosts(v.hosts) && (parent.Some? ==> Rooted(v.groups, parent.value))
    requires LevelGroups(v, parent, front + [group], ks)
    requires forall g :: g in front ==> g in v.groups && g.parentId == parent && Rooted(v.groups, g.id)
    ensures CrossInOrder(v, RenderGroups(v, parent, front, depth), [GroupRow(group.id, depth)])
  {
    var groups := front + [group];
    forall first, at: Option<Id> | first in RenderGroups(v, parent, front, depth) && HangsFrom(v, first, at)
                                   && HangsFrom(v, GroupRow(group.id, depth), at)
      ensures InOrder(v, at, first, GroupRow(group.id, depth))
    {
      assert groups[|front|] == group && group in groups;
      assert HangsFrom(v, GroupRow(group.id, depth), parent);
      HangsOnce(v, GroupRow(group.id, depth), at, parent);
      var i := TopRowIsGroup(v, parent, front, depth, first);
      assert groups[i] == front[i];
      assert ListedAt(v, at, first, ks[i]) && ListedAt(v, at, GroupRow(group.id, depth), ks[|front|]);
    }
  }

  lemma SubtreeApart(v: View, parent: Option<Id>, front: seq<Group>, group: Group, ks: seq<nat>, depth: nat,
                     below: seq<Row>)
    requires UniqueIds(v.groups) && UniqueHosts(v.hosts) && (parent.Some? ==> Rooted(v.groups, parent.value))
    requires LevelGroups(v, parent, front + [group], ks)
    requires forall g :: g in front ==> g in v.groups && g.parentId == parent && Rooted(v.groups, g.id)
    requires group in front + [group] && AllSitBelow(v, Some(group.id), depth + 1, below)
    ensures CrossInOrder(v, RenderGroups(v, parent, front, depth) + [GroupRow(group.id, depth)], below)
  {
    var rows := RenderGroups(v, parent, front, depth);
    forall g | g in front ensures g.id != group.id {
      var i :| 0 <= i < |front| && front[i] == g;
      assert (front + [group])[i] == g && (front + [group])[|front|] == group;
    }
    forall first, second, at: Option<Id> | first in rows + [GroupRow(group.id, depth)] && second in below
      ensures !(HangsFrom(v, first, at) && HangsFrom(v, second, at))
    {
      if first in rows {
        RowsApart(v, parent, front, group, depth, first, second, at);
      } else if HangsFrom(v, first, at) && HangsFrom(v, second, at) {
        assert HangsFrom(v, first, parent);
        HangsOnce(v, first, at, parent);
        BelowHangsFurther(v, parent, group, depth + 1, second, at);
      }
    }
  }

  lemma {:induction false} GroupsInOrder(v: View, parent: Option<Id>, groups: seq<Group>, ks: seq<nat>, depth: nat)
    requires UniqueIds(v.groups) && UniqueHosts(v.hosts) && (parent.Some? ==> Rooted(v.groups, parent.value))
    requires LevelGroups(v, parent, groups, ks)
    ensures SiblingsInOrder(v, RenderGroups(v, parent, groups, depth))
    decreases Room(v, parent), 0, |groups|
  {
    if groups != [] {
      var front, group := groups[..|groups| - 1], groups[|groups| - 1];
      assert groups == front + [group];
      FrontOfLevel(v, parent, front, group, ks);
      ChildIsRooted(v.groups, parent, group);
      GroupsInOrder(v, parent, front, ks[..|front|], depth);
      if IsOpen(v, group.id) {
        LevelInOrder(v, Some(group.id), depth + 1);
        LevelSits(v, Some(group.id), depth + 1);
      }
      OneMoreInOrder(v, parent, front, group, ks, depth,
                     if IsOpen(v, group.id) then RenderLevel(v, Some(group.id), depth + 1) else []);
    }
  }

  lemma OneMoreInOrder(v: View, parent: Option<Id>, front: seq<Group>, group: Group, ks: seq<nat>, depth: nat,
                       below: seq<Row>)
    requires UniqueIds(v.groups) && UniqueHosts(v.hosts) && (parent.Some? ==> Rooted(v.groups, parent.value))
    requires LevelGroups(v, parent, front + [group], ks)
    requires forall g :: g in front ==> g in v.groups && g.parentId == parent && Rooted(v.groups, g.id)
    requires group in front + [group] && AllSitBelow(v, Some(group.id), depth + 1, below)
    requires SiblingsInOrder(v, RenderGroups(v, parent, front, depth)) && SiblingsInOrder(v, below)
    ensures SiblingsInOrder(v, RenderGroups(v, parent, front, depth) + [GroupRow(group.id, depth)] + below)
  {
    var rows, row := RenderGroups(v, parent, front, depth), [GroupRow(group.id, depth)];
    GroupRowInOrder(v, parent, front, group, ks, depth);
    SiblingsAppend(v, rows, row);
    SubtreeApart(v, parent, front, group, ks, depth, below);
    SiblingsAppend(v, rows + row, below);
  }

  lemma FrontOfLevel(v: View, parent: Option<Id>, front: seq<Group>, group: Group, ks: seq<nat>)
    requires LevelGroups(v, parent, front + [group], ks)
    ensures LevelGroups(v, parent, front, ks[..|front|]) && group in v.groups && group.parentId == parent
  {
    var groups := front + [group];
    assert groups[|front|] == group;
    forall i | 0 <= i < |front| ensures groups[i] == front[i] && front[i] in groups { }
  }

  lemma HostRowsInOrder(v: View, parent: Option<Id>, hosts: seq<Host>, ks: seq<nat>, depth: nat)
    requires UniqueHosts(v.hosts) && Picked(hosts, ChildHosts(v, parent), ks)
    requires forall h :: h in hosts ==> h in v.hosts && h.groupId == parent
    ensures SiblingsInOrder(v, HostRows(hosts, depth))
  {
    var rows := HostRows(hosts, depth);
    HostRowsAre(hosts, depth);
    forall i, j, at: Option<Id> | 0 <= i < j < |rows| && HangsFrom(v, rows[i], at) && HangsFrom(v, rows[j], at)
      ensures InOrder(v, at, rows[i], rows[j])
    {
      assert hosts[i] in hosts && HangsFrom(v, rows[i], parent);
      assert at == parent;
      assert ListedAt(v, at, rows[i], ks[i]) && ListedAt(v, at, rows[j], ks[j]);
    }
  }

  lemma HostsComeLast(v: View, parent: Option<Id>, groups: seq<Group>, hosts: seq<Host>, depth: nat)
    requires UniqueIds(v.groups) && UniqueHosts(v.hosts) && (parent.Some? ==> Rooted(v.groups, parent.value))
    requires forall g :: g in groups ==> g in v.groups && g.parentId == parent && Rooted(v.groups, g.id)
    requires forall h :: h in hosts ==> h in v.hosts && h.groupId == parent
    ensures CrossInOrder(v, RenderGroups(v, parent, groups, depth), HostRows(hosts, depth))
  {
    HostRowsAre(hosts, depth);
    forall first, second, at: Option<Id> |
      first in RenderGroups(v, parent, groups, depth) && second in HostRows(hosts, depth)
      && HangsFrom(v, first, at) && HangsFrom(v, second, at)
      ensures InOrder(v, at, first, second)
    {
      var j :| 0 <= j < |hosts| && HostRows(hosts, depth)[j] == second;
      assert hosts[j] in hosts && HangsFrom(v, second, parent);
      HangsOnce(v, second, at, parent);
      var i := TopRowIsGroup(v, parent, groups, depth, first);
    }
  }

  lemma LevelGroupsListed(v: View, parent: Option<Id>) returns (ks: seq<nat>)
    requires UniqueIds(v.groups) && (parent.Some? ==> Rooted(v.groups, parent.value))
    requires forall g :: g in ChildGroups(v, parent) ==> g in v.groups && g.parentId == parent
    ensures LevelGroups(v, parent, MatchingGroups(v, parent, ChildGroups(v, parent)), ks)
  {
    var groups := MatchingGroups(v, parent, ChildGroups(v, parent));
    ks := MatchingPicks(v, parent, ChildGroups(v, parent));
    MatchingAreChildren(v, parent, ChildGroups(v, parent));
    LevelGroupsAreUnique(v, parent);
    forall i, j | 0 <= i < j < |groups| ensures groups[i].id != groups[j].id {
      if groups[i].id == groups[j].id {
        assert Count(groups, HasGroupId(groups[i].id)) <= 1;
        CountsTwo(groups, HasGroupId(groups[i].id), i, j);
      }
    }
  }

  lemma {:induction false} CountsTwo<T>(xs: seq<T>, p: T -> bool, i: nat, j: nat)
    requires i < j < |xs| && p(xs[i]) && p(xs[j])
    ensures Count(xs, p) >= 2
  {
    if j == |xs| - 1 {
      assert xs[i] in xs[..j];
      CountNone(xs[..j], p);
    } else {
      CountsTwo(xs[..|xs| - 1], p, i, j);
    }
  }

  lemma {:induction false} LevelInOrder(v: View, parent: Option<Id>, depth: nat)
    requires UniqueIds(v.groups) && UniqueHosts(v.hosts) && (parent.Some? ==> Rooted(v.groups, parent.value))
    ensures SiblingsInOrder(v, RenderLevel(v, parent, depth))
    decreases Room(v, parent), 1, 0
  {
    ChildGroupsAreChildren(v, parent);
    MatchingAreChildren(v, parent, ChildGroups(v, parent));
    LevelHostsAreChildren(v, parent);
    var groups := MatchingGroups(v, parent, ChildGroups(v, parent));
    var hosts := Filter(ChildHosts(v, parent), (h: Host) => HostMatches(v, h));
    var ks := LevelGroupsListed(v, parent);
    var ls := FilterPicks(ChildHosts(v, parent), (h: Host) => HostMatches(v, h));
    GroupsInOrder(v, parent, groups, ks, depth);
    HostRowsInOrder(v, parent, hosts, ls, depth);
    HostsComeLast(v, parent, groups, hosts, depth);
    SiblingsAppend(v, RenderGroups(v, parent, groups, depth), HostRows(hosts, depth));
  }

  /** The whole tree reads from the top: every row below the first level stands under the row of the group it belongs
      to, with nothing less deep in between, and of one group's children the groups come first, then the hosts, each
      as `getGroupChildren` lists them. */
  lemma TreeIsInOrder(v: View)
    requires UniqueIds(v.groups) && UniqueHosts(v.hosts)
    ensures Nested(v, RenderLevel(v, None, 0), 0) && SiblingsInOrder(v, RenderLevel(v, None, 0))
  {
    LevelNests(v, None, 0);
    LevelInOrder(v, None, 0);
  }
}