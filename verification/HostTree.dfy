/** The sidebar tree: one level's children (src/lib/groupTree.ts) and the recursion that renders and filters the
    levels (src/components/sidebar/HostTree.tsx). Markup is left out; a rendered tree is its rows. */
module HostTree {
  import opened Wrappers
  import opened StableSort
  import opened GroupForest

  /** `text` is the tag's label. */
  datatype Tag = Tag(id: Id, text: string)
  /** `title` is the host's label. */
  datatype Host = Host(id: Id, groupId: Option<Id>, title: string, hostname: string, tags: seq<Tag>, sortOrder: int)

  /** What the component sees. `query` is trimmed and lower-cased already; `lower` and `collate` stand for
      JavaScript's `toLowerCase` and `localeCompare`. */
  datatype View = View(
    groups: seq<Group>, hosts: seq<Host>, query: string, tagFilter: set<Id>, collapsed: set<Id>,
    lower: string -> string, collate: Comparator<string>)

  datatype Row = GroupRow(id: Id, depth: nat) | HostRow(id: Id, depth: nat)

  // ---------------------------------------------------------------- one level

  function GroupOrder(collate: Comparator<string>): Comparator<Group> {
    (a: Group, b: Group) => if a.sortOrder != b.sortOrder then a.sortOrder - b.sortOrder else collate(a.name, b.name)
  }

  function HostOrder(collate: Comparator<string>): Comparator<Host> {
    (a: Host, b: Host) => if a.sortOrder != b.sortOrder then a.sortOrder - b.sortOrder else collate(a.title, b.title)
  }

  function ChildGroups(v: View, parent: Option<Id>): seq<Group> {
    Sort(Filter(v.groups, (g: Group) => g.parentId == parent), GroupOrder(v.collate))
  }

  function ChildHosts(v: View, parent: Option<Id>): seq<Host> {
    Sort(Filter(v.hosts, (h: Host) => h.groupId == parent), HostOrder(v.collate))
  }

  lemma ChildGroupsAreChildren(v: View, parent: Option<Id>)
    ensures forall g :: g in ChildGroups(v, parent) <==> g in v.groups && g.parentId == parent
  {
    var p := (g: Group) => g.parentId == parent;
    FilterMembers(v.groups, p);
    SortMembers(Filter(v.groups, p), GroupOrder(v.collate));
  }

  lemma ChildHostsAreChildren(v: View, parent: Option<Id>)
    ensures forall h :: h in ChildHosts(v, parent) <==> h in v.hosts && h.groupId == parent
  {
    var p := (h: Host) => h.groupId == parent;
    FilterMembers(v.hosts, p);
    SortMembers(Filter(v.hosts, p), HostOrder(v.collate));
  }

  ghost function Names(groups: seq<Group>): set<string> { set g | g in groups :: g.name }

  ghost function Titles(hosts: seq<Host>): set<string> { set h | h in hosts :: h.title }

  /** The children come in order of sort order, then name, whatever consistent collation is in force. */
  lemma ChildGroupsInOrder(v: View, parent: Option<Id>)
    requires Consistent(Names(v.groups), v.collate)
    ensures var children := ChildGroups(v, parent);
            forall i, j :: 0 <= i < j < |children| ==>
              || children[i].sortOrder < children[j].sortOrder
              || (children[i].sortOrder == children[j].sortOrder
                  && v.collate(children[i].name, children[j].name) <= 0)
  {
    var p := (g: Group) => g.parentId == parent;
    var cmp := GroupOrder(v.collate);
    var all := set g | g in v.groups;
    FilterMembers(v.groups, p);
    forall x, y | x in all && y in all ensures cmp(x, y) <= 0 || cmp(y, x) <= 0 {
      assert x.name in Names(v.groups) && y.name in Names(v.groups);
    }
    forall x, y, z | x in all && y in all && z in all && cmp(x, y) <= 0 && cmp(y, z) <= 0 ensures cmp(x, z) <= 0 {
      assert x.name in Names(v.groups) && y.name in Names(v.groups) && z.name in Names(v.groups);
    }
    SortSorts(Filter(v.groups, p), cmp, all);
    var children := ChildGroups(v, parent);
    forall i, j | 0 <= i < j < |children|
      ensures children[i].sortOrder < children[j].sortOrder
              || (children[i].sortOrder == children[j].sortOrder
                  && v.collate(children[i].name, children[j].name) <= 0)
    {
      assert cmp(children[i], children[j]) <= 0;
    }
  }

  /** So do the hosts, by sort order and then title. */
  lemma ChildHostsInOrder(v: View, parent: Option<Id>)
    requires Consistent(Titles(v.hosts), v.collate)
    ensures var children := ChildHosts(v, parent);
            forall i, j :: 0 <= i < j < |children| ==>
              || children[i].sortOrder < children[j].sortOrder
              || (children[i].sortOrder == children[j].sortOrder
                  && v.collate(children[i].title, children[j].title) <= 0)
  {
    var p := (h: Host) => h.groupId == parent;
    var cmp := HostOrder(v.collate);
    var all := set h | h in v.hosts;
    FilterMembers(v.hosts, p);
    forall x, y | x in all && y in all ensures cmp(x, y) <= 0 || cmp(y, x) <= 0 {
      assert x.title in Titles(v.hosts) && y.title in Titles(v.hosts);
    }
    forall x, y, z | x in all && y in all && z in all && cmp(x, y) <= 0 && cmp(y, z) <= 0 ensures cmp(x, z) <= 0 {
      assert x.title in Titles(v.hosts) && y.title in Titles(v.hosts) && z.title in Titles(v.hosts);
    }
    SortSorts(Filter(v.hosts, p), cmp, all);
    var children := ChildHosts(v, parent);
    forall i, j | 0 <= i < j < |children|
      ensures children[i].sortOrder < children[j].sortOrder
              || (children[i].sortOrder == children[j].sortOrder
                  && v.collate(children[i].title, children[j].title) <= 0)
    {
      assert cmp(children[i], children[j]) <= 0;
    }
  }

  /** Hosts the order does not tell apart stay as the store lists them. */
  lemma ChildHostsAreStable(v: View, parent: Option<Id>, sortOrder: int, title: string)
    requires v.collate(title, title) <= 0
    ensures var same := (h: Host) => h.sortOrder == sortOrder && h.title == title;
            Filter(ChildHosts(v, parent), same) == Filter(Filter(v.hosts, (h: Host) => h.groupId == parent), same)
  {
    SortIsStable(Filter(v.hosts, (h: Host) => h.groupId == parent), HostOrder(v.collate),
                 (h: Host) => h.sortOrder == sortOrder && h.title == title);
  }

  // ---------------------------------------------------------------- filtering

  predicate IsFiltering(v: View) { v.query != "" || v.tagFilter != {} }

  predicate OccursAt(s: string, part: string, i: nat) {
    i + |part| <= |s| && s[i..i + |part|] == part
  }

  predicate Includes(s: string, part: string) {
    exists i :: 0 <= i <= |s| && OccursAt(s, part, i)
  }

  predicate HostMatches(v: View, host: Host) {
    !IsFiltering(v) || (TextMatches(v, host) && TagMatches(v, host))
  }

  predicate TextMatches(v: View, host: Host) {
    || v.query == ""
    || Includes(v.lower(host.title), v.query)
    || Includes(v.lower(host.hostname), v.query)
    || exists t :: t in host.tags && Includes(v.lower(t.text), v.query)
  }

  predicate TagMatches(v: View, host: Host) {
    v.tagFilter == {} || exists t :: t in host.tags && t.id in v.tagFilter
  }

  /** The texts of a host that the query is looked for in. */
  ghost predicate TextOf(host: Host, text: string) {
    text == host.title || text == host.hostname || exists t :: t in host.tags && t.text == text
  }

  lemma IncludesMeans(s: string, part: string)
    ensures Includes(s, part) <==> exists a, b :: s == a + part + b
  {
    if i :| 0 <= i <= |s| && OccursAt(s, part, i) {
      assert s == s[..i] + s[i..i + |part|] + s[i + |part|..];
      assert s == s[..i] + part + s[i + |part|..];
    }
    if a, b :| s == a + part + b {
      assert s[|a|..|a| + |part|] == part;
      assert OccursAt(s, part, |a|);
    }
  }

  ghost predicate SomeTextHas(v: View, host: Host) {
    exists text :: TextOf(host, text) && Includes(v.lower(text), v.query)
  }

  lemma TextMatchesMeans(v: View, host: Host)
    requires v.query != ""
    ensures TextMatches(v, host) <==> SomeTextHas(v, host)
  {
    if TextMatches(v, host) {
      if Includes(v.lower(host.title), v.query) {
        assert TextOf(host, host.title);
      } else if Includes(v.lower(host.hostname), v.query) {
        assert TextOf(host, host.hostname);
      } else {
        var t :| t in host.tags && Includes(v.lower(t.text), v.query);
        assert TextOf(host, t.text);
      }
    }
  }

  /** A host matches exactly if one of its texts, in lower case, has the query in it and one of its tags is among those
      picked, where an empty query or an empty pick asks for nothing. */
  lemma MatchMeans(v: View, host: Host)
    ensures HostMatches(v, host)
       <==> && (v.query == ""
                || exists text :: TextOf(host, text) && exists a, b :: v.lower(text) == a + v.query + b)
            && (v.tagFilter == {} || exists t :: t in host.tags && t.id in v.tagFilter)
  {
    forall text ensures Includes(v.lower(text), v.query) <==> exists a, b :: v.lower(text) == a + v.query + b {
      IncludesMeans(v.lower(text), v.query);
    }
    if v.query != "" { TextMatchesMeans(v, host); }
  }

  /** How much further down the table can still lead from here. */
  ghost function Room(v: View, parent: Option<Id>): int
    requires parent.Some? ==> Rooted(v.groups, parent.value)
  {
    |v.groups| - |TrailTo(v, parent)|
  }

  ghost function TrailTo(v: View, parent: Option<Id>): seq<Id>
    requires parent.Some? ==> Rooted(v.groups, parent.value)
  {
    if parent.None? then [] else Trail(v.groups, parent.value)
  }

  /** Called only on groups that hang, however deep, from the root; there it terminates for any parent table. */
  predicate GroupHasMatch(v: View, id: Id)
    requires UniqueIds(v.groups) && Rooted(v.groups, id)
    decreases Room(v, Some(id))
  {
    !IsFiltering(v)
    || (exists h :: h in v.hosts && h.groupId == Some(id) && HostMatches(v, h))
    || exists g | g in v.groups && g.parentId == Some(id) ::
         ChildIsRooted(v.groups, Some(id), g); GroupHasMatch(v, g.id)
  }

  // ---------------------------------------------------------------- rendering

  /** The children that `groupHasMatch` keeps. */
  function MatchingGroups(v: View, parent: Option<Id>, groups: seq<Group>): seq<Group>
    requires UniqueIds(v.groups) && (parent.Some? ==> Rooted(v.groups, parent.value))
    requires forall g :: g in groups ==> g in v.groups && g.parentId == parent
  {
    if groups == [] then []
    else
      var last := |groups| - 1;
      ChildIsRooted(v.groups, parent, groups[last]);
      MatchingGroups(v, parent, groups[..last]) + (if GroupHasMatch(v, groups[last].id) then [groups[last]] else [])
  }

  predicate IsOpen(v: View, id: Id) { IsFiltering(v) || id !in v.collapsed }

  function HostRows(hosts: seq<Host>, depth: nat): seq<Row> {
    if hosts == [] then [] else HostRows(hosts[..|hosts| - 1], depth) + [HostRow(hosts[|hosts| - 1].id, depth)]
  }

  function RenderLevel(v: View, parent: Option<Id>, depth: nat): seq<Row>
    requires UniqueIds(v.groups) && (parent.Some? ==> Rooted(v.groups, parent.value))
    decreases Room(v, parent), 1, 0
  {
    ChildGroupsAreChildren(v, parent);
    MatchingAreChildren(v, parent, ChildGroups(v, parent));
    RenderGroups(v, parent, MatchingGroups(v, parent, ChildGroups(v, parent)), depth)
    + HostRows(Filter(ChildHosts(v, parent), (h: Host) => HostMatches(v, h)), depth)
  }

  function RenderGroups(v: View, parent: Option<Id>, groups: seq<Group>, depth: nat): seq<Row>
    requires UniqueIds(v.groups) && (parent.Some? ==> Rooted(v.groups, parent.value))
    requires forall g :: g in groups ==> g in v.groups && g.parentId == parent
    decreases Room(v, parent), 0, |groups|
  {
    if groups == [] then []
    else
      var last := |groups| - 1;
      var group := groups[last];
      ChildIsRooted(v.groups, parent, group);
      RenderGroups(v, parent, groups[..last], depth) + [GroupRow(group.id, depth)]
      + (if IsOpen(v, group.id) then RenderLevel(v, Some(group.id), depth + 1) else [])
  }

  lemma {:induction false} MatchingAreChildren(v: View, parent: Option<Id>, groups: seq<Group>)
    requires UniqueIds(v.groups) && (parent.Some? ==> Rooted(v.groups, parent.value))
    requires forall g :: g in groups ==> g in v.groups && g.parentId == parent
    ensures forall g :: g in MatchingGroups(v, parent, groups) ==> g in groups
    ensures forall g :: g in groups ==>
              Rooted(v.groups, g.id) && (GroupHasMatch(v, g.id) ==> g in MatchingGroups(v, parent, groups))
  {
    if groups != [] {
      var last := |groups| - 1;
      MatchingAreChildren(v, parent, groups[..last]);
      ChildIsRooted(v.groups, parent, groups[last]);
      assert groups == groups[..last] + [groups[last]];
    }
  }

  // ---------------------------------------------------------------- what groupHasMatch means

  /** The host hangs from the root, and the group is one of its ancestors. */
  ghost predicate IsBelow(v: View, h: Host, id: Id) {
    h.groupId.Some? && Rooted(v.groups, h.groupId.value) && id in Trail(v.groups, h.groupId.value)
  }

  /** A matching host in or below the group makes it worth showing... */
  lemma {:induction false} MatchBelowIsSeen(v: View, h: Host, k: nat)
    requires UniqueIds(v.groups) && h in v.hosts && HostMatches(v, h)
    requires h.groupId.Some? && Rooted(v.groups, h.groupId.value) && k < |Trail(v.groups, h.groupId.value)|
    ensures Rooted(v.groups, Trail(v.groups, h.groupId.value)[k])
    ensures GroupHasMatch(v, Trail(v.groups, h.groupId.value)[k])
    decreases |Trail(v.groups, h.groupId.value)| - k
  {
    var trail := Trail(v.groups, h.groupId.value);
    AncestorIsRooted(v.groups, h.groupId.value, k);
    if k < |trail| - 1 {
      MatchBelowIsSeen(v, h, k + 1);
      assert LinkAt(v.groups, trail, k + 1);
      var g :| g in v.groups && g.id == trail[k + 1] && g.parentId == Some(trail[k]);
    }
  }

  /** ...and nothing else does. */
  lemma {:induction false} SeenHasMatchBelow(v: View, id: Id) returns (h: Host)
    requires UniqueIds(v.groups) && Rooted(v.groups, id) && IsFiltering(v) && GroupHasMatch(v, id)
    ensures h in v.hosts && HostMatches(v, h) && IsBelow(v, h, id)
    decreases Room(v, Some(id))
  {
    if h' :| h' in v.hosts && h'.groupId == Some(id) && HostMatches(v, h') {
      h := h';
    } else {
      forall g | g in v.groups && g.parentId == Some(id) ensures Rooted(v.groups, g.id) {
        ChildIsRooted(v.groups, Some(id), g);
      }
      var g :| g in v.groups && g.parentId == Some(id) && GroupHasMatch(v, g.id);
      ChildIsRooted(v.groups, Some(id), g);
      h := SeenHasMatchBelow(v, g.id);
      var trail := Trail(v.groups, h.groupId.value);
      var k :| 0 <= k < |trail| && trail[k] == g.id;
      AncestorIsRooted(v.groups, h.groupId.value, k);
      var above := Trail(v.groups, id);
      assert trail[..k + 1] == above + [g.id];
      assert trail[|above| - 1] == above[|above| - 1] == id;
    }
  }

  /** While filtering, a group under the root is kept exactly when a matching host lies in it or below it. */
  lemma GroupHasMatchIffHostBelow(v: View, id: Id)
    requires UniqueIds(v.groups) && Rooted(v.groups, id) && IsFiltering(v)
    ensures GroupHasMatch(v, id) <==> exists h :: h in v.hosts && HostMatches(v, h) && IsBelow(v, h, id)
  {
    if GroupHasMatch(v, id) {
      var h := SeenHasMatchBelow(v, id);
    }
    if h :| h in v.hosts && HostMatches(v, h) && IsBelow(v, h, id) {
      var k :| 0 <= k < |Trail(v.groups, h.groupId.value)| && Trail(v.groups, h.groupId.value)[k] == id;
      MatchBelowIsSeen(v, h, k);
    }
  }

  // ---------------------------------------------------------------- which hosts are shown

  function ShowsHost(id: Id): Row -> bool { (r: Row) => r.HostRow? && r.id == id }
  function HasGroupId(id: Id): Group -> bool { (g: Group) => g.id == id }
  function HasHostId(id: Id): Host -> bool { (h: Host) => h.id == id }

  ghost predicate UniqueHosts(hosts: seq<Host>) {
    forall i, j :: 0 <= i < j < |hosts| ==> hosts[i].id != hosts[j].id
  }

  /** The place `at` hangs from the root, at or below `parent`, and every group on the way down from there is open. */
  ghost predicate Visible(v: View, parent: Option<Id>, at: Option<Id>)
    requires parent.Some? ==> Rooted(v.groups, parent.value)
  {
    (at.Some? ==> Rooted(v.groups, at.value)) &&
    var trail, above := TrailTo(v, at), TrailTo(v, parent);
    above <= trail && forall k :: |above| <= k < |trail| ==> IsOpen(v, trail[k])
  }

  lemma {:induction false} CountNone<T>(xs: seq<T>, p: T -> bool)
    ensures Count(xs, p) == 0 <==> forall x :: x in xs ==> !p(x)
  {
    if xs != [] {
      CountNone(xs[..|xs| - 1], p);
      assert xs == xs[..|xs| - 1] + [xs[|xs| - 1]];
    }
  }

  /** Filtering keeps the one element that can be counted exactly if it passes. */
  lemma {:induction false} CountFiltered<T>(xs: seq<T>, p: T -> bool, q: T -> bool, x: T)
    requires forall y :: y in xs && q(y) ==> y == x
    ensures Count(Filter(xs, p), q) == if p(x) then Count(xs, q) else 0
  {
    if xs != [] {
      var front, last := xs[..|xs| - 1], xs[|xs| - 1];
      CountFiltered(front, p, q, x);
      CountAppend(Filter(front, p), if p(last) then [last] else [], q);
      assert p(last) ==> [last][..0] == [];
      assert last in xs;
    }
  }

  lemma {:induction false} OneHostPerId(hosts: seq<Host>, h: Host)
    requires UniqueHosts(hosts) && h in hosts
    ensures Count(hosts, HasHostId(h.id)) == 1
    ensures forall x :: x in hosts && x.id == h.id ==> x == h
  {
    var last := |hosts| - 1;
    assert hosts == hosts[..last] + [hosts[last]];
    if hosts[last] == h {
      CountNone(hosts[..last], HasHostId(h.id));
    } else {
      OneHostPerId(hosts[..last], h);
    }
  }

  lemma {:induction false} HostRowsShow(hosts: seq<Host>, depth: nat, id: Id)
    ensures Count(HostRows(hosts, depth), ShowsHost(id)) == Count(hosts, HasHostId(id))
  {
    if hosts != [] {
      var last := |hosts| - 1;
      HostRowsShow(hosts[..last], depth, id);
      var rows := HostRows(hosts[..last], depth);
      assert (rows + [HostRow(hosts[last].id, depth)])[..|rows|] == rows;
    }
  }

  /** A level's own rows show a host exactly once if it matches and is a direct child, and not at all otherwise. */
  lemma DirectHostsShow(v: View, parent: Option<Id>, depth: nat, h: Host)
    requires UniqueHosts(v.hosts) && h in v.hosts
    ensures Count(HostRows(Filter(ChildHosts(v, parent), (x: Host) => HostMatches(v, x)), depth), ShowsHost(h.id))
         == if h.groupId == parent && HostMatches(v, h) then 1 else 0
  {
    var inLevel, matches := (x: Host) => x.groupId == parent, (x: Host) => HostMatches(v, x);
    var q, cmp := HasHostId(h.id), HostOrder(v.collate);
    OneHostPerId(v.hosts, h);
    CountFiltered(v.hosts, inLevel, q, h);
    FilterMembers(v.hosts, inLevel);
    SortCounts(Filter(v.hosts, inLevel), cmp, q);
    SortMembers(Filter(v.hosts, inLevel), cmp);
    CountFiltered(ChildHosts(v, parent), matches, q, h);
    HostRowsShow(Filter(ChildHosts(v, parent), matches), depth, h.id);
  }

  ghost predicate UniqueGroupIds(groups: seq<Group>) {
    forall id :: Count(groups, HasGroupId(id)) <= 1
  }

  lemma {:induction false} UniqueInTable(groups: seq<Group>, id: Id)
    requires UniqueIds(groups)
    ensures Count(groups, HasGroupId(id)) <= 1
  {
    if groups != [] {
      var last := |groups| - 1;
      UniqueInTable(groups[..last], id);
      if groups[last].id == id { CountNone(groups[..last], HasGroupId(id)); }
    }
  }

  lemma {:induction false} FilterCountsLess<T>(xs: seq<T>, p: T -> bool, q: T -> bool)
    ensures Count(Filter(xs, p), q) <= Count(xs, q)
  {
    if xs != [] {
      var front, last := xs[..|xs| - 1], xs[|xs| - 1];
      FilterCountsLess(front, p, q);
      CountAppend(Filter(front, p), if p(last) then [last] else [], q);
      assert p(last) ==> [last][..0] == [];
    }
  }

  lemma {:induction false} MatchingCountsLess(v: View, parent: Option<Id>, groups: seq<Group>, q: Group -> bool)
    requires UniqueIds(v.groups) && (parent.Some? ==> Rooted(v.groups, parent.value))
    requires forall g :: g in groups ==> g in v.groups && g.parentId == parent
    ensures Count(MatchingGroups(v, parent, groups), q) <= Count(groups, q)
  {
    if groups != [] {
      var front, last := groups[..|groups| - 1], groups[|groups| - 1];
      MatchingCountsLess(v, parent, front, q);
      ChildIsRooted(v.groups, parent, last);
      CountAppend(MatchingGroups(v, parent, front), if GroupHasMatch(v, last.id) then [last] else [], q);
      assert [last][..0] == [];
    }
  }

  lemma LevelGroupsAreUnique(v: View, parent: Option<Id>)
    requires UniqueIds(v.groups) && (parent.Some? ==> Rooted(v.groups, parent.value))
    requires forall g :: g in ChildGroups(v, parent) ==> g in v.groups && g.parentId == parent
    ensures UniqueGroupIds(MatchingGroups(v, parent, ChildGroups(v, parent)))
  {
    forall id ensures Count(MatchingGroups(v, parent, ChildGroups(v, parent)), HasGroupId(id)) <= 1 {
      var p := (g: Group) => g.parentId == parent;
      UniqueInTable(v.groups, id);
      FilterCountsLess(v.groups, p, HasGroupId(id));
      SortCounts(Filter(v.groups, p), GroupOrder(v.collate), HasGroupId(id));
      MatchingCountsLess(v, parent, ChildGroups(v, parent), HasGroupId(id));
    }
  }

  /** The place shows through this child group: the group is open and the place is visible from it. */
  ghost predicate Through(v: View, parent: Option<Id>, g: Group, at: Option<Id>)
    requires UniqueIds(v.groups) && (parent.Some? ==> Rooted(v.groups, parent.value)) && g in v.groups
        && g.parentId == parent
  {
    ChildIsRooted(v.groups, parent, g);
    IsOpen(v, g.id) && Visible(v, Some(g.id), at)
  }

  /** So does a matching host that is there. */
  ghost predicate ShowsThrough(v: View, parent: Option<Id>, g: Group, h: Host)
    requires UniqueIds(v.groups) && (parent.Some? ==> Rooted(v.groups, parent.value)) && g in v.groups
        && g.parentId == parent
  {
    HostMatches(v, h) && Through(v, parent, g, h.groupId)
  }

  /** Two children of one parent cannot both be on the way to one place. */
  lemma OneWayDown(v: View, parent: Option<Id>, g: Group, g': Group, at: Option<Id>)
    requires UniqueIds(v.groups) && (parent.Some? ==> Rooted(v.groups, parent.value))
    requires g in v.groups && g.parentId == parent && g' in v.groups && g'.parentId == parent
    requires Through(v, parent, g, at) && Through(v, parent, g', at)
    ensures g.id == g'.id
  {
    ChildIsRooted(v.groups, parent, g);
    ChildIsRooted(v.groups, parent, g');
    var n, trail := |TrailTo(v, parent)|, TrailTo(v, at);
    assert Trail(v.groups, g.id)[n] == trail[n] == Trail(v.groups, g'.id)[n];
  }

  lemma {:induction false} GroupsShow(v: View, parent: Option<Id>, groups: seq<Group>, depth: nat, h: Host)
    requires UniqueIds(v.groups) && (parent.Some? ==> Rooted(v.groups, parent.value))
    requires forall g :: g in groups ==> g in v.groups && g.parentId == parent
    requires UniqueGroupIds(groups) && UniqueHosts(v.hosts) && h in v.hosts
    ensures Count(RenderGroups(v, parent, groups, depth), ShowsHost(h.id))
         == if exists g :: g in groups && ShowsThrough(v, parent, g, h) then 1 else 0
    decreases Room(v, parent), 0, |groups|
  {
    if groups != [] {
      var last := |groups| - 1;
      var front, group := groups[..last], groups[last];
      assert groups == front + [group];
      ChildIsRooted(v.groups, parent, group);
      forall id ensures Count(front, HasGroupId(id)) <= 1 { assert Count(groups, HasGroupId(id)) <= 1; }
      GroupsShow(v, parent, front, depth, h);
      var rows, row := RenderGroups(v, parent, front, depth), [GroupRow(group.id, depth)];
      var below := if IsOpen(v, group.id) then RenderLevel(v, Some(group.id), depth + 1) else [];
      CountAppend(rows + row, below, ShowsHost(h.id));
      CountAppend(rows, row, ShowsHost(h.id));
      assert row[..0] == [];
      if IsOpen(v, group.id) { LevelShows(v, Some(group.id), depth + 1, h); }
      ThroughOneOnly(v, parent, front, group, h);
    }
  }

  lemma ThroughOneOnly(v: View, parent: Option<Id>, front: seq<Group>, group: Group, h: Host)
    requires UniqueIds(v.groups) && (parent.Some? ==> Rooted(v.groups, parent.value))
    requires forall g :: g in front + [group] ==> g in v.groups && g.parentId == parent
    requires UniqueGroupIds(front + [group]) && group in v.groups && group.parentId == parent
    ensures ShowsThrough(v, parent, group, h) ==>
              forall g :: g in front && g in v.groups && g.parentId == parent ==> !ShowsThrough(v, parent, g, h)
  {
    assert (front + [group])[..|front|] == front;
    assert Count(front + [group], HasGroupId(group.id)) <= 1;
    CountNone(front, HasGroupId(group.id));
    if ShowsThrough(v, parent, group, h) {
      forall g | g in front && g in v.groups && g.parentId == parent ensures !ShowsThrough(v, parent, g, h) {
        if ShowsThrough(v, parent, g, h) { OneWayDown(v, parent, g, group, h.groupId); }
      }
    }
  }

  /** A level shows a host exactly once if the host matches and is visible from that level, and otherwise not. */
  lemma {:induction false} LevelShows(v: View, parent: Option<Id>, depth: nat, h: Host)
    requires UniqueIds(v.groups) && (parent.Some? ==> Rooted(v.groups, parent.value))
    requires UniqueHosts(v.hosts) && h in v.hosts
    ensures Count(RenderLevel(v, parent, depth), ShowsHost(h.id))
         == if HostMatches(v, h) && Visible(v, parent, h.groupId) then 1 else 0
    decreases Room(v, parent), 1, 0
  {
    ChildGroupsAreChildren(v, parent);
    var children := ChildGroups(v, parent);
    MatchingAreChildren(v, parent, children);
    LevelGroupsAreUnique(v, parent);
    var groups := MatchingGroups(v, parent, children);
    GroupsShow(v, parent, groups, depth, h);
    DirectHostsShow(v, parent, depth, h);
    CountAppend(RenderGroups(v, parent, groups, depth),
        HostRows(Filter(ChildHosts(v, parent), (x: Host) => HostMatches(v, x)), depth), ShowsHost(h.id));
    if HostMatches(v, h) {
      if h.groupId == parent {
        DirectIsNotThrough(v, parent, groups, h);
      } else {
        ThroughIffVisible(v, parent, groups, h);
      }
    }
  }

  lemma DirectIsNotThrough(v: View, parent: Option<Id>, groups: seq<Group>, h: Host)
    requires UniqueIds(v.groups) && (parent.Some? ==> Rooted(v.groups, parent.value)) && h.groupId == parent
    requires forall g :: g in groups ==> g in v.groups && g.parentId == parent
    ensures Visible(v, parent, h.groupId) && !exists g :: g in groups && ShowsThrough(v, parent, g, h)
  {
    forall g | g in groups ensures !ShowsThrough(v, parent, g, h) {
      ChildIsRooted(v.groups, parent, g);
    }
  }

  /** A visible host that is no direct child lies below one of the level's matching groups, and conversely. */
  lemma ThroughIffVisible(v: View, parent: Option<Id>, groups: seq<Group>, h: Host)
    requires UniqueIds(v.groups) && (parent.Some? ==> Rooted(v.groups, parent.value))
    requires h in v.hosts && HostMatches(v, h) && h.groupId != parent
    requires forall g :: g in groups ==> g in v.groups && g.parentId == parent
    requires forall g ::
               g in v.groups && g.parentId == parent && Rooted(v.groups, g.id) && GroupHasMatch(v, g.id) ==> g in groups
    ensures Visible(v, parent, h.groupId) <==> exists g :: g in groups && ShowsThrough(v, parent, g, h)
  {
    if Visible(v, parent, h.groupId) {
      var g := NextDown(v, parent, h.groupId);
      MatchBelowIsSeen(v, h, |TrailTo(v, parent)|);
      assert g in groups && ShowsThrough(v, parent, g, h);
    }
    if g :| g in groups && ShowsThrough(v, parent, g, h) {
      ThroughIsVisible(v, parent, g, h.groupId);
    }
  }

  lemma ThroughIsVisible(v: View, parent: Option<Id>, g: Group, at: Option<Id>)
    requires UniqueIds(v.groups) && (parent.Some? ==> Rooted(v.groups, parent.value))
    requires g in v.groups && g.parentId == parent && Through(v, parent, g, at)
    ensures Visible(v, parent, at) && at != parent
  {
    ChildIsRooted(v.groups, parent, g);
    var above, trail := TrailTo(v, parent), TrailTo(v, at);
    assert above <= Trail(v.groups, g.id) <= trail;
    forall k | |above| <= k < |trail| ensures IsOpen(v, trail[k]) {
      if k == |above| { assert trail[k] == Trail(v.groups, g.id)[k] == g.id; }
    }
  }

  /** The child group through which a visible place further down is reached. */
  lemma NextDown(v: View, parent: Option<Id>, at: Option<Id>) returns (g: Group)
    requires UniqueIds(v.groups) && (parent.Some? ==> Rooted(v.groups, parent.value))
    requires at != parent && Visible(v, parent, at)
    ensures g in v.groups && g.parentId == parent && Rooted(v.groups, g.id) && Through(v, parent, g, at)
    ensures |TrailTo(v, parent)| < |TrailTo(v, at)| && g.id == TrailTo(v, at)[|TrailTo(v, parent)|]
  {
    var above, trail := TrailTo(v, parent), TrailTo(v, at);
    var n := |above|;
    assert n < |trail|;
    assert LinkAt(v.groups, trail, n);
    g :| g in v.groups && g.id == trail[n] && g.parentId == Above(trail, n);
    assert n > 0 ==> trail[n - 1] == above[n - 1];
    ChildIsRooted(v.groups, parent, g);
    assert Trail(v.groups, g.id) == above + [trail[n]] == trail[..n + 1];
    assert IsOpen(v, trail[n]);
  }

  /** The whole tree: a host is shown exactly once if it matches, its group chain reaches the root and, unless a
      filter is on, no group on that chain is collapsed. Otherwise it is not shown. */
  lemma TreeShowsExactly(v: View, h: Host)
    requires UniqueIds(v.groups) && UniqueHosts(v.hosts) && h in v.hosts
    ensures Count(RenderLevel(v, None, 0), ShowsHost(h.id)) ==
              if && HostMatches(v, h)
                 && (h.groupId.Some? ==> Rooted(v.groups, h.groupId.value))
                 && (IsFiltering(v) || forall id :: id in TrailTo(v, h.groupId) ==> id !in v.collapsed)
              then 1 else 0
  {
    LevelShows(v, None, 0, h);
    if h.groupId.Some? ==> Rooted(v.groups, h.groupId.value) {
      var trail := TrailTo(v, h.groupId);
      assert [] <= trail;
      assert (forall k :: 0 <= k < |trail| ==> IsOpen(v, trail[k]))
          <==> (IsFiltering(v) || forall id :: id in trail ==> id !in v.collapsed);
    }
  }
}
